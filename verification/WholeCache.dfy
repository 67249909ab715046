/** Builder, index and check together: filters built from enrolments, an index
    written from their coverage, and a pass over both give every certificate the
    verdict its enrolments call for. */
module WholeCache {
  import opened ByteStrings
  import opened Sequences
  import opened FilterFormat
  import opened Crlite
  import opened Ribbons
  import opened Blocks
  import opened FilterWriter
  import opened Exactness
  import opened EndToEnd
  import opened UpkiIndex
  import opened IndexWriter
  import opened IndexRoundTrip
  import opened PassRules
  import opened Cache

  /** One filter of the cache: its file name, and what was enrolled in it. */
  datatype Enrolment = Enrolment(filename: Bytes, spec: FilterSpec)

  // ----- What the enrolments call for -----

  predicate Enrols(spec: FilterSpec, issuer: Bytes32) {
    exists k | 0 <= k < |spec.issuers| :: spec.issuers[k].spkiHash == issuer
  }

  /** The issuer is enrolled with the serial among those not revoked. */
  predicate EnrolsGood(spec: FilterSpec, issuer: Bytes32, serial: Bytes) {
    exists k | 0 <= k < |spec.issuers| :: spec.issuers[k].spkiHash == issuer && serial in spec.issuers[k].notRevoked
  }

  /** Wherever the issuer is enrolled, so is the serial, one way or the other. */
  predicate Decides(spec: FilterSpec, issuer: Bytes32, serial: Bytes) {
    forall k | 0 <= k < |spec.issuers| && spec.issuers[k].spkiHash == issuer ::
      serial in spec.issuers[k].revoked || serial in spec.issuers[k].notRevoked
  }

  function Due(spec: FilterSpec, issuer: Bytes32, serial: Bytes, ts: seq<LogTimestamp>): Status {
    if !Claims(spec, ts) then StatusNotCovered
    else if !Enrols(spec, issuer) then StatusNotEnrolled
    else if EnrolsGood(spec, issuer, serial) then StatusGood else StatusRevoked
  }

  predicate SomeDue(es: seq<Enrolment>, issuer: Bytes32, serial: Bytes, ts: seq<LogTimestamp>, status: Status) {
    exists i | 0 <= i < |es| :: Due(es[i].spec, issuer, serial, ts) == status
  }

  /** Revoked if some covering filter has the serial revoked; otherwise not revoked
      if some covering filter has it among those not revoked. */
  function VerdictDue(es: seq<Enrolment>, issuer: Bytes32, serial: Bytes, ts: seq<LogTimestamp>): CheckStatus {
    if SomeDue(es, issuer, serial, ts, StatusRevoked) then Revoked
    else if SomeDue(es, issuer, serial, ts, StatusGood) then NotRevoked
    else NotCovered
  }

  // ----- The cache on disk -----

  predicate DistinctNames(es: seq<Enrolment>) {
    forall i, j | 0 <= i < j < |es| :: es[i].filename != es[j].filename
  }

  /** The files are what the builder makes of the enrolments. */
  ghost predicate Written(sha: Digest, es: seq<Enrolment>, bss: seq<seq<Block>>, files: Files) {
    && |bss| == |es| && DistinctNames(es)
    && (forall n :: n in files <==> exists i | 0 <= i < |es| :: es[i].filename == n)
    && forall i | 0 <= i < |es| :: WrittenAt(sha, es[i], bss[i], files)
  }

  ghost predicate WrittenAt(sha: Digest, e: Enrolment, bs: seq<Block>, files: Files) {
    && e.filename in files && Produced(sha, e.spec, bs, files[e.filename])
    && DistinctLogs(e.spec) && DistinctIssuers(e.spec)
  }

  function ParseAll(files: Files): map<Bytes, RevocationFilter> {
    map n | n in files && Accepted(files[n]) :: Parse(true, files[n]).value
  }

  function Listed(e: Enrolment): IndexFilter {
    IndexFilter(e.filename, e.spec.coverage)
  }

  function Listing(es: seq<Enrolment>): IndexSpec {
    Mapped(Listed, es)
  }

  ghost predicate ParsedAt(e: Enrolment, bs: seq<Block>, parsed: map<Bytes, RevocationFilter>) {
    e.filename in parsed && parsed[e.filename] == Expected(e.spec, bs) && Usable(Expected(e.spec, bs))
  }

  lemma {:induction false} FileParses(sha: Digest, e: Enrolment, bs: seq<Block>, files: Files)
    requires WrittenAt(sha, e, bs, files)
    ensures Accepted(files[e.filename]) && Parse(true, files[e.filename]) == Success(Expected(e.spec, bs))
    ensures Usable(Expected(e.spec, bs))
  {
    ProducedParses(sha, e.spec, bs, files[e.filename]);
  }

  lemma {:induction false} FileParsed(sha: Digest, e: Enrolment, bs: seq<Block>, files: Files)
    requires WrittenAt(sha, e, bs, files)
    ensures ParsedAt(e, bs, ParseAll(files))
  {
    FileParses(sha, e, bs, files);
  }

  lemma {:induction false} AllParse(sha: Digest, es: seq<Enrolment>, bss: seq<seq<Block>>, files: Files)
    requires Written(sha, es, bss, files)
    ensures ParsedFrom(ParseAll(files), files)
    ensures forall i | 0 <= i < |es| :: ParsedAt(es[i], bss[i], ParseAll(files))
  {
    forall n | n in files ensures Accepted(files[n]) && Usable(Parse(true, files[n]).value) {
      var i :| 0 <= i < |es| && es[i].filename == n;
      assert WrittenAt(sha, es[i], bss[i], files);
      FileParses(sha, es[i], bss[i], files);
    }
    assert ParseAll(files).Keys == files.Keys;
    forall i | 0 <= i < |es| ensures ParsedAt(es[i], bss[i], ParseAll(files)) {
      assert WrittenAt(sha, es[i], bss[i], files);
      FileParsed(sha, es[i], bss[i], files);
    }
  }

  // ----- The index lists what the filters cover -----

  lemma {:induction false} CoversOne(e: Enrolment, bs: seq<Block>, t: LogTimestamp)
    requires DistinctLogs(e.spec)
    ensures Covers(Expected(e.spec, bs), t) <==> ClaimsAt(e.spec.coverage, t)
  {
    CoversWhatIsClaimed(e.spec, bs, [t]);
    assert [t][0] == t;
    if ClaimsAt(e.spec.coverage, t) {
      var c :| 0 <= c < |e.spec.coverage| && e.spec.coverage[c].logId == t.logId
            && e.spec.coverage[c].minTimestamp <= t.timestamp <= e.spec.coverage[c].maxTimestamp;
      assert e.spec.coverage[c].logId == [t][0].logId;
    }
  }

  lemma {:induction false} ListingNames(es: seq<Enrolment>, files: Files, n: Bytes)
    requires n in files <==> exists i | 0 <= i < |es| :: es[i].filename == n
    ensures n in files <==> exists i | 0 <= i < |Listing(es)| :: Listing(es)[i].filename == n
  {
    if n in files {
      var i :| 0 <= i < |es| && es[i].filename == n;
      assert Listing(es)[i] == Listed(es[i]);
    }
    if i :| 0 <= i < |Listing(es)| && Listing(es)[i].filename == n {
      assert es[i].filename == n;
    }
  }

  lemma {:induction false} ListingConsistent(sha: Digest, es: seq<Enrolment>, bss: seq<seq<Block>>, files: Files)
    requires Written(sha, es, bss, files)
    ensures Consistent(Listing(es), ParseAll(files))
  {
    AllParse(sha, es, bss, files);
    var filters, parsed := Listing(es), ParseAll(files);
    forall n: Bytes ensures n in parsed <==> exists i | 0 <= i < |filters| :: filters[i].filename == n {
      ListingNames(es, files, n);
    }
    forall i, t | 0 <= i < |filters| && filters[i].filename in parsed
      ensures Covers(parsed[filters[i].filename], t) <==> ClaimsAt(filters[i].coverage, t)
    {
      assert WrittenAt(sha, es[i], bss[i], files) && ParsedAt(es[i], bss[i], parsed);
      CoversOne(es[i], bss[i], t);
    }
  }

  // ----- Every filter says what is due -----

  lemma {:induction false} SaysWhatIsDue(sha: Digest, e: Enrolment, bs: seq<Block>, files: Files,
                                         issuer: Bytes32, serial: Bytes, ts: seq<LogTimestamp>)
    requires WrittenAt(sha, e, bs, files) && (Claims(e.spec, ts) ==> Decides(e.spec, issuer, serial))
    ensures Usable(Expected(e.spec, bs))
    ensures StatusOf(Expected(e.spec, bs), NewKey(sha, issuer, serial), ts) == Due(e.spec, issuer, serial, ts)
  {
    var out := files[e.filename];
    FileParses(sha, e, bs, files);
    if !Claims(e.spec, ts) {
      CoversWhatIsClaimed(e.spec, bs, ts);
    } else if Enrols(e.spec, issuer) {
      var k :| 0 <= k < |e.spec.issuers| && e.spec.issuers[k].spkiHash == issuer;
      ExactOnUniverse(sha, e.spec, bs, out, k, serial, ts);
      if j :| 0 <= j < |e.spec.issuers| && e.spec.issuers[j].spkiHash == issuer && serial in e.spec.issuers[j].notRevoked {
        assert j == k;
      }
    } else {
      UnknownIssuer(sha, e.spec, bs, out, issuer, serial, ts);
    }
  }

  lemma {:induction false} BruteForceIsDue(sha: Digest, es: seq<Enrolment>, bss: seq<seq<Block>>, files: Files,
                                           issuer: Bytes32, serial: Bytes, ts: seq<LogTimestamp>)
    requires Written(sha, es, bss, files)
    requires forall i | 0 <= i < |es| && Claims(es[i].spec, ts) :: Decides(es[i].spec, issuer, serial)
    ensures forall n | n in ParseAll(files) :: Usable(ParseAll(files)[n])
    ensures BruteForce(ParseAll(files), NewKey(sha, issuer, serial), ts) == VerdictDue(es, issuer, serial, ts)
  {
    AllParse(sha, es, bss, files);
    var parsed, key := ParseAll(files), NewKey(sha, issuer, serial);
    forall i | 0 <= i < |es|
      ensures es[i].filename in parsed && StatusOf(parsed[es[i].filename], key, ts) == Due(es[i].spec, issuer, serial, ts)
    {
      assert WrittenAt(sha, es[i], bss[i], files) && ParsedAt(es[i], bss[i], parsed);
      SaysWhatIsDue(sha, es[i], bss[i], files, issuer, serial, ts);
    }
    forall status ensures SomeFilterSays(parsed, key, ts, status) <==> SomeDue(es, issuer, serial, ts, status) {
      if SomeFilterSays(parsed, key, ts, status) {
        var n :| n in parsed && StatusOf(parsed[n], key, ts) == status;
        var i :| 0 <= i < |es| && es[i].filename == n;
        assert Due(es[i].spec, issuer, serial, ts) == status;
      }
      if SomeDue(es, issuer, serial, ts, status) {
        var i :| 0 <= i < |es| && Due(es[i].spec, issuer, serial, ts) == status;
        assert StatusOf(parsed[es[i].filename], key, ts) == status;
      }
    }
  }

  /** The whole cache is exact: over filters the builder made, and the index the
      writer made of their coverage, a pass gives the verdict the enrolments call
      for, provided every covering filter that enrols the issuer enrols the serial. */
  lemma {:induction false} CacheIsExact(sha: Digest, es: seq<Enrolment>, bss: seq<seq<Block>>, files: Files,
                                        ids: seq<Bytes32>, f: File, sort: Sort,
                                        issuer: Bytes32, serial: Bytes, ts: seq<LogTimestamp>)
    requires Written(sha, es, bss, files) && IsSort(sort)
    requires Writable(Listing(es)) && FitsIndex(Listing(es), ids) && LogsOf(ids, Listing(es))
    requires f.data == EncodeIndex(Listing(es), ids)
    requires forall i | 0 <= i < |es| && Claims(es[i].spec, ts) :: Decides(es[i].spec, issuer, serial)
    ensures Open(f, sort).Good?
    ensures PassOf(true, Open(f, sort).value, Asker(Fetch(files), NewKey(sha, issuer, serial), ts), ts)
         == Answer(VerdictDue(es, issuer, serial, ts))
  {
    AllParse(sha, es, bss, files);
    ListingConsistent(sha, es, bss, files);
    WrittenIndexExact(Listing(es), ids, f, sort, ParseAll(files));
    PassIsBruteForce(Open(f, sort).value, ParseAll(files), files, NewKey(sha, issuer, serial), ts);
    BruteForceIsDue(sha, es, bss, files, issuer, serial, ts);
  }

  // ----- The whole path as one run -----

  predicate Buildable(e: Enrolment) {
    SizesFit(e.spec) && DistinctLogs(e.spec) && DistinctIssuers(e.spec)
  }

  /** Builds and writes one filter file. */
  method BuildFile(sha: Digest, e: Enrolment, rng: Rng, files: Files) returns (after: Files, ghost bs: seq<Block>)
    requires Buildable(e)
    modifies rng
    ensures WrittenAt(sha, e, bs, after) && after == files[e.filename := after[e.filename]]
  {
    var out;
    out, bs := FilterBytes(sha, e.spec, rng);
    BuiltShapes(sha, e.spec.issuers, bs);
    SizesSuffice(sha, e.spec, bs);
    after := files[e.filename := out];
  }

  /** The first `i` files are written. */
  ghost predicate WrittenUpTo(sha: Digest, es: seq<Enrolment>, bss: seq<seq<Block>>, files: Files, i: nat)
    requires i <= |es|
  {
    && |bss| == i
    && (forall n :: n in files <==> exists k | 0 <= k < i :: es[k].filename == n)
    && forall k | 0 <= k < i :: WrittenAt(sha, es[k], bss[k], files)
  }

  lemma {:induction false} WrittenKept(sha: Digest, e: Enrolment, bs: seq<Block>, files: Files, after: Files)
    requires WrittenAt(sha, e, bs, files) && e.filename in after && after[e.filename] == files[e.filename]
    ensures WrittenAt(sha, e, bs, after)
  {}

  lemma {:induction false} NamesNext(es: seq<Enrolment>, files: Files, i: nat, after: Files)
    requires i < |es| && forall n :: n in files <==> exists k | 0 <= k < i :: es[k].filename == n
    requires after.Keys == files.Keys + {es[i].filename}
    ensures forall n :: n in after <==> exists k | 0 <= k < i + 1 :: es[k].filename == n
  {
    forall n ensures n in after <==> exists k | 0 <= k < i + 1 :: es[k].filename == n {
      if n in after && n != es[i].filename {
        var k :| 0 <= k < i && es[k].filename == n;
      }
    }
  }

  lemma {:induction false} WrittenNext(sha: Digest, es: seq<Enrolment>, bss: seq<seq<Block>>, files: Files, i: nat,
                                       bs: seq<Block>, after: Files)
    requires i < |es| && DistinctNames(es) && WrittenUpTo(sha, es, bss, files, i)
    requires WrittenAt(sha, es[i], bs, after) && after == files[es[i].filename := after[es[i].filename]]
    ensures WrittenUpTo(sha, es, bss + [bs], after, i + 1)
  {
    NamesNext(es, files, i, after);
    forall k | 0 <= k < i + 1 ensures WrittenAt(sha, es[k], (bss + [bs])[k], after) {
      if k < i {
        WrittenKept(sha, es[k], bss[k], files, after);
      }
    }
  }

  /** Builds and writes every filter file. */
  method BuildFiles(sha: Digest, es: seq<Enrolment>, rng: Rng) returns (files: Files, ghost bss: seq<seq<Block>>)
    requires DistinctNames(es) && forall i | 0 <= i < |es| :: Buildable(es[i])
    modifies rng
    ensures Written(sha, es, bss, files)
  {
    files, bss := map[], [];
    for i := 0 to |es|
      invariant WrittenUpTo(sha, es, bss, files, i)
    {
      ghost var before := files;
      ghost var bs;
      files, bs := BuildFile(sha, es[i], rng, files);
      WrittenNext(sha, es, bss, before, i, bs, files);
      bss := bss + [bs];
    }
  }

  /** Build the filters, write the index, open it, and run a pass. */
  method BuildCacheAndCheck(sha: Digest, es: seq<Enrolment>, rng: Rng, sort: Sort,
                            issuer: Bytes32, serial: Bytes, ts: seq<LogTimestamp>)
    returns (r: PassResult)
    requires DistinctNames(es) && IsSort(sort) && Writable(Listing(es))
    requires forall ids | LogsOf(ids, Listing(es)) :: FitsIndex(Listing(es), ids)
    requires forall i | 0 <= i < |es| :: Buildable(es[i])
    requires forall i | 0 <= i < |es| && Claims(es[i].spec, ts) :: Decides(es[i].spec, issuer, serial)
    modifies rng
    ensures r == Answer(VerdictDue(es, issuer, serial, ts))
  {
    var files;
    ghost var bss;
    files, bss := BuildFiles(sha, es, rng);
    AllParse(sha, es, bss, files);
    ListingConsistent(sha, es, bss, files);
    BruteForceIsDue(sha, es, bss, files, issuer, serial, ts);
    r := CheckWrittenCache(Listing(es), files, ParseAll(files), sort, NewKey(sha, issuer, serial), ts);
  }
}
