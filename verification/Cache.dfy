/** The index is an accelerator: on a cache whose index is exact, a pass gives the
    verdict of querying every filter file. */
module Cache {
  import opened ByteStrings
  import opened FilterFormat
  import opened Crlite
  import opened UpkiIndex
  import opened FilterWriter
  import opened IndexWriter
  import opened IndexRoundTrip
  import opened PassRules
  import opened CheckPass
  import opened Verdicts

  type Files = map<Bytes, Bytes>

  /** What opening a file of the cache yields, while nobody updates it. */
  function Fetch(files: Files): Bytes -> Fetched {
    (name: Bytes) => if name in files then Content(files[name]) else NotExist
  }

  /** `parsed` holds what every file of the cache parses to. */
  ghost predicate ParsedFrom(parsed: map<Bytes, RevocationFilter>, files: Files) {
    && parsed.Keys == files.Keys
    && (forall n {:trigger Parse(true, files[n])} | n in files :: Parse(true, files[n]) == Success(parsed[n]))
    && (forall n | n in parsed :: Usable(parsed[n]))
  }

  /** The index selects a filter for a log and an instant exactly when the filter
      itself covers them. */
  ghost predicate ExactIndex(v: View, parsed: map<Bytes, RevocationFilter>) {
    && v.Valid()
    && forall t: LogTimestamp :: SelectsExactly(v, parsed, t)
  }

  ghost predicate SelectsExactly(v: View, parsed: map<Bytes, RevocationFilter>, t: LogTimestamp)
    requires v.Valid()
  {
    match LookupIn(v, t.logId, t.timestamp)
    case InvalidIndex => false
    case Good(names) => forall n: Bytes :: n in names <==> n in parsed && Covers(parsed[n], t)
  }

  ghost predicate SomeFilterSays(parsed: map<Bytes, RevocationFilter>, key: LookupKey, ts: seq<LogTimestamp>, status: Status)
    requires forall n | n in parsed :: Usable(parsed[n])
  {
    exists n | n in parsed :: StatusOf(parsed[n], key, ts) == status
  }

  /** Query every filter of the cache: revocation wins, then "not revoked". */
  ghost function BruteForce(parsed: map<Bytes, RevocationFilter>, key: LookupKey, ts: seq<LogTimestamp>): CheckStatus
    requires forall n | n in parsed :: Usable(parsed[n])
  {
    if SomeFilterSays(parsed, key, ts, StatusRevoked) then Revoked
    else if SomeFilterSays(parsed, key, ts, StatusGood) then NotRevoked
    else NotCovered
  }

  lemma {:induction false} AskParsed(parsed: map<Bytes, RevocationFilter>, files: Files, key: LookupKey,
                                     ts: seq<LogTimestamp>, name: Bytes)
    requires ParsedFrom(parsed, files) && name in files
    ensures QueryOf(Fetch(files)(name), key, ts) == Says(StatusOf(parsed[name], key, ts))
  {
    assert Parse(true, files[name]) == Success(parsed[name]);
  }

  /** `ask` answers with the status of the parsed filter. */
  ghost predicate AsksParsed(ask: Asking, parsed: map<Bytes, RevocationFilter>, key: LookupKey, ts: seq<LogTimestamp>)
    requires forall n | n in parsed :: Usable(parsed[n])
  {
    forall n | n in parsed :: ask(n) == Says(StatusOf(parsed[n], key, ts))
  }

  lemma {:induction false} AskerAsksParsed(parsed: map<Bytes, RevocationFilter>, files: Files, key: LookupKey, ts: seq<LogTimestamp>)
    requires ParsedFrom(parsed, files)
    ensures AsksParsed(Asker(Fetch(files), key, ts), parsed, key, ts)
  {
    var ask := Asker(Fetch(files), key, ts);
    forall n | n in parsed ensures ask(n) == Says(StatusOf(parsed[n], key, ts)) {
      assert n in files;
      AskParsed(parsed, files, key, ts, n);
      assert ask(n) == QueryOf(Fetch(files)(n), key, ts);
    }
  }

  /** On an exact index the selected filters are the covering ones. */
  lemma {:induction false} ChosenCovers(v: View, parsed: map<Bytes, RevocationFilter>, ts: seq<LogTimestamp>, name: Bytes)
    requires ExactIndex(v, parsed)
    ensures name in Chosen(v, ts) <==> name in parsed && CoversAny(parsed[name], ts)
  {
    ChosenMember(v, ts, name);
    if name in Chosen(v, ts) {
      var t :| t in ts && LookupIn(v, t.logId, t.timestamp).Good? && name in LookupIn(v, t.logId, t.timestamp).value;
      assert SelectsExactly(v, parsed, t);
      var i :| 0 <= i < |ts| && ts[i] == t;
      assert Covers(parsed[name], ts[i]);
    }
    if name in parsed && CoversAny(parsed[name], ts) {
      var i :| 0 <= i < |ts| && Covers(parsed[name], ts[i]);
      assert SelectsExactly(v, parsed, ts[i]) && ts[i] in ts;
    }
  }

  lemma {:induction false} SomeSaysIffSomeFilter(v: View, parsed: map<Bytes, RevocationFilter>, ask: Asking,
                                                 key: LookupKey, ts: seq<LogTimestamp>, status: Status)
    requires ExactIndex(v, parsed) && (forall n | n in parsed :: Usable(parsed[n]))
    requires AsksParsed(ask, parsed, key, ts) && status != StatusNotCovered
    ensures SomeSays(ask, Chosen(v, ts), status) <==> SomeFilterSays(parsed, key, ts, status)
  {
    forall n: Bytes ensures n in Chosen(v, ts) <==> n in parsed && CoversAny(parsed[n], ts) {
      ChosenCovers(v, parsed, ts, n);
    }
    if SomeSays(ask, Chosen(v, ts), status) {
      var n :| n in Chosen(v, ts) && ask(n) == Says(status);
      assert StatusOf(parsed[n], key, ts) == status;
    }
    if SomeFilterSays(parsed, key, ts, status) {
      var n :| n in parsed && StatusOf(parsed[n], key, ts) == status;
      assert n in Chosen(v, ts) && ask(n) == Says(status);
    }
  }

  /** A pass over an exact index answers like querying every filter, and in
      particular never reports the index as inconsistent. */
  lemma {:induction false} PassIsBruteForce(v: View, parsed: map<Bytes, RevocationFilter>, files: Files,
                                            key: LookupKey, ts: seq<LogTimestamp>)
    requires ParsedFrom(parsed, files) && ExactIndex(v, parsed)
    ensures PassOf(true, v, Asker(Fetch(files), key, ts), ts) == Answer(BruteForce(parsed, key, ts))
  {
    AskerAsksParsed(parsed, files, key, ts);
    DecisionIsBruteForce(v, parsed, Asker(Fetch(files), key, ts), key, ts);
  }

  lemma {:induction false} DecisionIsBruteForce(v: View, parsed: map<Bytes, RevocationFilter>, ask: Asking,
                                                key: LookupKey, ts: seq<LogTimestamp>)
    requires ExactIndex(v, parsed) && (forall n | n in parsed :: Usable(parsed[n]))
    requires AsksParsed(ask, parsed, key, ts)
    ensures PassOf(true, v, ask, ts) == Answer(BruteForce(parsed, key, ts))
  {
    forall n | n in Chosen(v, ts) ensures ask(n).Says? && ask(n).status != StatusNotCovered {
      ChosenCovers(v, parsed, ts, n);
    }
    forall i | 0 <= i < |ts| ensures LookupIn(v, ts[i].logId, ts[i].timestamp).Good? {
      assert SelectsExactly(v, parsed, ts[i]);
    }
    PassIsDecision(true, v, ask, ts);
    SomeSaysIffSomeFilter(v, parsed, ask, key, ts, StatusRevoked);
    SomeSaysIffSomeFilter(v, parsed, ask, key, ts, StatusGood);
    if AllSay(ask, Chosen(v, ts), StatusNotCovered) {
      assert forall n | n in Chosen(v, ts) :: false;
    }
  }

  // ----- A cache laid out by the index writer -----

  predicate ClaimsAt(coverage: seq<Coverage>, t: LogTimestamp) {
    exists c | 0 <= c < |coverage| ::
      coverage[c].logId == t.logId && coverage[c].minTimestamp <= t.timestamp <= coverage[c].maxTimestamp
  }

  /** File names are distinct, every file parses, and the coverage listed for a
      filter in the index is what the filter covers. */
  ghost predicate Consistent(filters: IndexSpec, parsed: map<Bytes, RevocationFilter>) {
    && (forall i, j | 0 <= i < j < |filters| :: filters[i].filename != filters[j].filename)
    && (forall n: Bytes :: n in parsed <==> exists i | 0 <= i < |filters| :: filters[i].filename == n)
    && (forall i, t | 0 <= i < |filters| && filters[i].filename in parsed ::
          Covers(parsed[filters[i].filename], t) <==> ClaimsAt(filters[i].coverage, t))
  }

  lemma {:induction false} NamesOfFilterMember(name: Bytes, coverage: seq<Coverage>, t: LogTimestamp, n: Bytes)
    ensures n in NamesOfFilter(name, coverage, t.logId, t.timestamp) <==> n == name && ClaimsAt(coverage, t)
  {
    if coverage != [] {
      var m := |coverage| - 1;
      var front := coverage[..m];
      NamesOfFilterMember(name, front, t, n);
      if ClaimsAt(front, t) {
        var c :| 0 <= c < m && front[c].logId == t.logId && front[c].minTimestamp <= t.timestamp <= front[c].maxTimestamp;
        assert coverage[c] == front[c];
      }
      if ClaimsAt(coverage, t) {
        var c :| 0 <= c < |coverage| && coverage[c].logId == t.logId
                 && coverage[c].minTimestamp <= t.timestamp <= coverage[c].maxTimestamp;
        assert c < m ==> front[c] == coverage[c];
      }
    }
  }

  lemma {:induction false} CoveringMember(filters: IndexSpec, t: LogTimestamp, n: Bytes)
    ensures n in CoveringNames(filters, t.logId, t.timestamp)
        <==> exists i | 0 <= i < |filters| :: filters[i].filename == n && ClaimsAt(filters[i].coverage, t)
  {
    if filters != [] {
      var m := |filters| - 1;
      CoveringMember(filters[..m], t, n);
      NamesOfFilterMember(filters[m].filename, filters[m].coverage, t, n);
      assert filters == filters[..m] + [filters[m]];
    }
  }

  /** An index written from consistent coverage, and reopened, is exact. */
  lemma {:induction false} WrittenIndexExact(filters: IndexSpec, ids: seq<Bytes32>, f: File, sort: Sort, parsed: map<Bytes, RevocationFilter>)
    requires IsSort(sort)
    requires Writable(filters) && FitsIndex(filters, ids) && LogsOf(ids, filters)
    requires f.data == EncodeIndex(filters, ids) && Consistent(filters, parsed)
    ensures Open(f, sort).Good? && ExactIndex(Open(f, sort).value, parsed)
  {
    WrittenOpens(filters, ids, f, sort);
    var v := WrittenView(filters, ids, f);
    forall t: LogTimestamp ensures SelectsExactly(v, parsed, t) {
      WrittenLookup(filters, ids, f, t.logId, t.timestamp);
      forall n: Bytes
        ensures n in CoveringNames(filters, t.logId, t.timestamp) <==> n in parsed && Covers(parsed[n], t)
      {
        CoveringMember(filters, t, n);
        if n in parsed && Covers(parsed[n], t) {
          var i :| 0 <= i < |filters| && filters[i].filename == n;
          assert ClaimsAt(filters[i].coverage, t);
        }
      }
    }
  }

  /** A whole check against a cache directory: write the index, reopen it, and run
      one pass; the verdict is that of querying every filter file. */
  method CheckWrittenCache(filters: IndexSpec, files: Files, ghost parsed: map<Bytes, RevocationFilter>, sort: Sort,
                           key: LookupKey, ts: seq<LogTimestamp>)
    returns (r: PassResult)
    requires IsSort(sort) && Writable(filters) && ParsedFrom(parsed, files) && Consistent(filters, parsed)
    requires forall ids | LogsOf(ids, filters) :: FitsIndex(filters, ids)
    ensures r == Answer(BruteForce(parsed, key, ts))
  {
    var data, ids := IndexBytes(filters);
    var f := File(data, true);
    WrittenIndexExact(filters, ids, f, sort, parsed);
    var v := NewIndexFromReader(f, sort);
    PassIsBruteForce(v.value, parsed, files, key, ts);
    var fetch := Fetch(files);
    var opener := new FilterOpener((k: nat, name: Bytes) => fetch(name));
    ghost var opens;
    r, opens := CheckOnce(v.value, opener, key, ts);
    assert opener.log == opens;
    assert Explains(Asker(fetch, key, ts), opens, key, ts);
  }
}
