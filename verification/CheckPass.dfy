/** One pass of a revocation check: query every filter the index selects for the
    leaf's timestamps, and aggregate the answers. */
module CheckPass {
  import opened ByteStrings
  import opened Sequences
  import opened FilterFormat
  import opened Crlite
  import opened UpkiIndex
  import opened PassRules
  import Parser

  // ----- Opening filter files -----

  datatype Access = Access(name: Bytes, got: Fetched)

  function NamesOpened(accesses: seq<Access>): (names: seq<Bytes>)
    ensures |names| == |accesses|
  {
    seq(|accesses|, i requires 0 <= i < |accesses| => accesses[i].name)
  }

  /** The filter opener, with a log of its use.  What an open yields may depend on
      how many came before it: somebody else updates the cache meanwhile. */
  class FilterOpener {
    const serves: (nat, Bytes) -> Fetched
    var log: seq<Access>

    ghost predicate Valid()
      reads this
    {
      forall i | 0 <= i < |log| :: log[i].got == serves(i, log[i].name)
    }

    constructor (serves: (nat, Bytes) -> Fetched)
      ensures Valid() && this.serves == serves && log == []
    {
      this.serves := serves;
      log := [];
    }

    method Open(name: Bytes) returns (got: Fetched)
      requires Valid()
      modifies this
      ensures Valid() && log == old(log) + [Access(name, got)]
    {
      got := serves(|log|, name);
      log := log + [Access(name, got)];
    }
  }

  // ----- Querying one filter file -----

  /** `ask` gives the answers that these opens gave. */
  ghost predicate Explains(ask: Asking, accesses: seq<Access>, key: LookupKey, timestamps: seq<LogTimestamp>) {
    forall i | 0 <= i < |accesses| :: ask(accesses[i].name) == QueryOf(accesses[i].got, key, timestamps)
  }

  method QueryFilter(opener: FilterOpener, name: Bytes, key: LookupKey, timestamps: seq<LogTimestamp>)
    returns (q: Query, ghost a: Access)
    requires opener.Valid()
    modifies opener
    ensures opener.Valid() && opener.log == old(opener.log) + [a]
    ensures a.name == name && q == QueryOf(a.got, key, timestamps)
    ensures (q == Fails(FileMissing) <==> a.got.NotExist?) && (q == Fails(ReadFailed) <==> a.got.IOError?)
    ensures q == Fails(BadFilter) <==> a.got.Content? && !Accepted(a.got.data)
    ensures a.got.Content? && Accepted(a.got.data) ==>
              Usable(Parse(true, a.got.data).value) && q == Says(StatusOf(Parse(true, a.got.data).value, key, timestamps))
  {
    var got := opener.Open(name);
    a := Access(name, got);
    match got
    case NotExist => return Fails(FileMissing), a;
    case IOError => return Fails(ReadFailed), a;
    case Content(data) =>
      var f := Parser.FromBytes(data);
      if f.Failure? {
        return Fails(BadFilter), a;
      }
      AcceptedRanksWithin(data);
      var status := Crlite.Contains(f.value, key, timestamps);
      return Says(status), a;
  }

  /** Whichever cache explains the opens, visiting `names` in it leads to `step`. */
  ghost predicate NamesLeadTo(step: PassState, opens: seq<Access>, key: LookupKey, ts: seq<LogTimestamp>,
                              names: seq<Bytes>, p: Progress) {
    forall ask: Asking {:trigger Explains(ask, opens, key, ts)} | Explains(ask, opens, key, ts) ::
      step == VisitNames(true, ask, names, p)
  }

  ghost predicate LogsLeadTo(step: PassState, opens: seq<Access>, key: LookupKey, ts: seq<LogTimestamp>, v: View, n: nat)
    requires v.Valid() && n <= |ts|
  {
    forall ask: Asking {:trigger Explains(ask, opens, key, ts)} | Explains(ask, opens, key, ts) ::
      step == VisitLogs(true, v, ask, ts[..n], START)
  }

  lemma {:induction false} ExplainsBoth(ask: Asking, a: seq<Access>, b: seq<Access>, key: LookupKey, ts: seq<LogTimestamp>)
    requires Explains(ask, a + b, key, ts)
    ensures Explains(ask, a, key, ts) && Explains(ask, b, key, ts)
  {
    forall i | 0 <= i < |a| ensures ask(a[i].name) == QueryOf(a[i].got, key, ts) {
      assert (a + b)[i] == a[i];
    }
    forall i | 0 <= i < |b| ensures ask(b[i].name) == QueryOf(b[i].got, key, ts) {
      assert (a + b)[|a| + i] == b[i];
    }
  }

  lemma {:induction false} NamesAppend(a: seq<Access>, b: seq<Access>)
    ensures NamesOpened(a + b) == NamesOpened(a) + NamesOpened(b)
  {}

  /** The same for a single name. */
  ghost predicate NameLeadsTo(step: PassState, opens: seq<Access>, key: LookupKey, ts: seq<LogTimestamp>, name: Bytes, p: Progress) {
    forall ask: Asking {:trigger Explains(ask, opens, key, ts)} | Explains(ask, opens, key, ts) ::
      step == VisitName(true, ask, name, p)
  }

  lemma {:induction false} OneAnswer(step: PassState, a: Access, key: LookupKey, ts: seq<LogTimestamp>, answer: Query, p: Progress)
    requires answer == QueryOf(a.got, key, ts) && a.name !in p.seen && step == Advance(answer, a.name, p)
    ensures NameLeadsTo(step, [a], key, ts, a.name, p) && NamesOpened([a]) == [a.name]
  {
    forall ask: Asking | Explains(ask, [a], key, ts) ensures ask(a.name) == answer {
      assert [a][0] == a;
    }
  }

  /** The inner loop gets from its first `i` names to its first `i + 1`. */
  lemma {:induction false} OneName(opens: seq<Access>, more: seq<Access>, key: LookupKey, ts: seq<LogTimestamp>,
                                   names: seq<Bytes>, i: nat, p: Progress, q: Progress, step: PassState)
    requires i < |names| && NamesLeadTo(Continue(q), opens, key, ts, names[..i], p)
    requires NameLeadsTo(step, more, key, ts, names[i], q)
    ensures NamesLeadTo(step, opens + more, key, ts, names[..i + 1], p)
  {
    assert names[..i + 1][..i] == names[..i];
    forall ask: Asking | Explains(ask, opens + more, key, ts) ensures step == VisitNames(true, ask, names[..i + 1], p) {
      ExplainsBoth(ask, opens, more, key, ts);
    }
  }

  lemma {:induction false} NamesStopped(step: PassState, opens: seq<Access>, key: LookupKey, ts: seq<LogTimestamp>,
                                        names: seq<Bytes>, n: nat, p: Progress)
    requires n <= |names| && step.Stop? && NamesLeadTo(step, opens, key, ts, names[..n], p)
    ensures NamesLeadTo(step, opens, key, ts, names, p)
  {
    forall ask: Asking | Explains(ask, opens, key, ts) ensures step == VisitNames(true, ask, names, p) {
      NamesStop(true, ask, names, n, p);
    }
  }

  /** The inner loop: the filters one lookup selected.  `opens` are the opens made. */
  method QueryNames(opener: FilterOpener, key: LookupKey, timestamps: seq<LogTimestamp>, names: seq<Bytes>, p: Progress)
    returns (step: PassState, ghost opens: seq<Access>)
    requires opener.Valid() && NoRepeats(p.seen)
    modifies opener
    ensures opener.Valid() && opener.log == old(opener.log) + opens
    ensures step.Opened() == p.seen + NamesOpened(opens) && NoRepeats(step.Opened())
    ensures NamesLeadTo(step, opens, key, timestamps, names, p)
  {
    var q := p;
    opens := [];
    for i := 0 to |names|
      invariant opener.Valid() && opener.log == old(opener.log) + opens
      invariant q.seen == p.seen + NamesOpened(opens) && NoRepeats(q.seen)
      invariant NamesLeadTo(Continue(q), opens, key, timestamps, names[..i], p)
    {
      ghost var more;
      step, more := QueryName(opener, key, timestamps, names[i], q);
      OneName(opens, more, key, timestamps, names, i, p, q, step);
      NamesAppend(opens, more);
      opens := opens + more;
      if step.Stop? {
        NamesStopped(step, opens, key, timestamps, names, i + 1, p);
        return;
      }
      q := step.p;
    }
    assert names[..|names|] == names;
    step := Continue(q);
  }

  /** The body of the inner loop. */
  method QueryName(opener: FilterOpener, key: LookupKey, timestamps: seq<LogTimestamp>, name: Bytes, p: Progress)
    returns (step: PassState, ghost opens: seq<Access>)
    requires opener.Valid() && NoRepeats(p.seen)
    modifies opener
    ensures opener.Valid() && opener.log == old(opener.log) + opens
    ensures step.Opened() == p.seen + NamesOpened(opens) && NoRepeats(step.Opened())
    ensures NameLeadsTo(step, opens, key, timestamps, name, p)
  {
    opens := [];
    if name in p.seen {
      return Continue(p), opens;
    }
    var answer;
    ghost var a;
    answer, a := QueryFilter(opener, name, key, timestamps);
    opens := [a];
    step := Tally(answer, name, p);
    OneAnswer(step, a, key, timestamps, answer, p);
  }

  method Tally(answer: Query, name: Bytes, p: Progress) returns (step: PassState)
    requires NoRepeats(p.seen) && name !in p.seen
    ensures step == Advance(answer, name, p) && step.Opened() == p.seen + [name] && NoRepeats(step.Opened())
  {
    var q := p.(seen := p.seen + [name]);
    if answer.Fails? {
      return Stop(Failed(answer.error), q.seen);
    }
    q := q.(queried := q.queried + 1);
    match answer.status
    case StatusRevoked => return Stop(Answer(Revoked), q.seen);
    case StatusGood => return Continue(q.(notRevoked := true));
    case StatusNotCovered => return Continue(q.(notCovered := q.notCovered + 1));
    case StatusNotEnrolled => return Continue(q);
  }

  /** The outer loop gets from its first `i` timestamps to its first `i + 1`. */
  lemma {:induction false} OneLog(opens: seq<Access>, more: seq<Access>, key: LookupKey, ts: seq<LogTimestamp>,
                                  v: View, i: nat, p: Progress, step: PassState)
    requires v.Valid() && i < |ts| && LogsLeadTo(Continue(p), opens, key, ts, v, i)
    requires match LookupIn(v, ts[i].logId, ts[i].timestamp)
             case InvalidIndex => more == [] && step == Stop(Failed(LookupFailed), p.seen)
             case Good(names) => NamesLeadTo(step, more, key, ts, names, p)
    ensures LogsLeadTo(step, opens + more, key, ts, v, i + 1)
  {
    assert ts[..i + 1][..i] == ts[..i];
    forall ask: Asking | Explains(ask, opens + more, key, ts) ensures step == VisitLogs(true, v, ask, ts[..i + 1], START) {
      ExplainsBoth(ask, opens, more, key, ts);
    }
  }

  lemma {:induction false} LogsStopped(step: PassState, opens: seq<Access>, key: LookupKey, ts: seq<LogTimestamp>, v: View, n: nat)
    requires v.Valid() && n <= |ts| && step.Stop? && LogsLeadTo(step, opens, key, ts, v, n)
    ensures LogsLeadTo(step, opens, key, ts, v, |ts|)
  {
    assert ts[..|ts|] == ts;
    forall ask: Asking | Explains(ask, opens, key, ts) ensures step == VisitLogs(true, v, ask, ts, START) {
      LogsStop(v, ask, ts, n, START);
    }
  }

  /** The nested loops. */
  method VisitAll(v: View, opener: FilterOpener, key: LookupKey, timestamps: seq<LogTimestamp>)
    returns (step: PassState, ghost opens: seq<Access>)
    requires v.Valid() && opener.Valid()
    modifies opener
    ensures opener.Valid() && opener.log == old(opener.log) + opens
    ensures step.Opened() == NamesOpened(opens) && NoRepeats(step.Opened())
    ensures LogsLeadTo(step, opens, key, timestamps, v, |timestamps|)
  {
    var p := START;
    opens := [];
    for i := 0 to |timestamps|
      invariant opener.Valid() && opener.log == old(opener.log) + opens
      invariant p.seen == NamesOpened(opens) && NoRepeats(p.seen)
      invariant LogsLeadTo(Continue(p), opens, key, timestamps, v, i)
    {
      var filenames := Lookup(v, timestamps[i].logId, timestamps[i].timestamp);
      ghost var more := [];
      if filenames.InvalidIndex? {
        step := Stop(Failed(LookupFailed), p.seen);
      } else {
        step, more := QueryNames(opener, key, timestamps, filenames.value, p);
      }
      OneLog(opens, more, key, timestamps, v, i, p, step);
      NamesAppend(opens, more);
      opens := opens + more;
      if step.Stop? {
        LogsStopped(step, opens, key, timestamps, v, i + 1);
        return;
      }
      p := step.p;
    }
    step := Continue(p);
  }

  /** One pass.  Whatever happens to the cache meanwhile, no file is opened twice,
      and result and opens are those of a pass over a cache that gives every file
      the answer its one open gave. */
  method CheckOnce(v: View, opener: FilterOpener, key: LookupKey, timestamps: seq<LogTimestamp>)
    returns (r: PassResult, ghost opens: seq<Access>)
    requires v.Valid() && opener.Valid()
    modifies opener
    ensures opener.Valid() && opener.log == old(opener.log) + opens
    ensures NoRepeats(NamesOpened(opens))
    ensures forall ask: Asking {:trigger Explains(ask, opens, key, timestamps)} | Explains(ask, opens, key, timestamps) ::
              r == PassOf(true, v, ask, timestamps) && NamesOpened(opens) == OpensOf(true, v, ask, timestamps)
    ensures Explains(Replay(opens, key, timestamps), opens, key, timestamps)
    ensures Justified(r, Answers(opens, key, timestamps), LookupsSucceed(v, timestamps))
  {
    var step;
    step, opens := VisitAll(v, opener, key, timestamps);
    assert timestamps[..|timestamps|] == timestamps;
    ReplayExplains(opens, key, timestamps);
    r := Concluded(step);
    OpensJustify(opens, key, timestamps, v, r);
  }

  // ----- What the opens of a pass say -----

  /** The answers the opens gave, in order. */
  ghost function Answers(opens: seq<Access>, key: LookupKey, timestamps: seq<LogTimestamp>): (answers: seq<Query>)
    ensures |answers| == |opens|
  {
    seq(|opens|, i requires 0 <= i < |opens| => QueryOf(opens[i].got, key, timestamps))
  }

  lemma {:induction false} OpensJustify(opens: seq<Access>, key: LookupKey, ts: seq<LogTimestamp>, v: View, r: PassResult)
    requires v.Valid() && Explains(Replay(opens, key, ts), opens, key, ts)
    requires r == PassOf(true, v, Replay(opens, key, ts), ts)
    requires NamesOpened(opens) == OpensOf(true, v, Replay(opens, key, ts), ts)
    ensures Justified(r, Answers(opens, key, ts), LookupsSucceed(v, ts))
  {
    var ask := Replay(opens, key, ts);
    OpensDecide(v, ask, ts);
    forall i | 0 <= i < |opens| ensures Mapped(ask, NamesOpened(opens))[i] == Answers(opens, key, ts)[i] {
      assert ask(opens[i].name) == QueryOf(opens[i].got, key, ts);
    }
    assert Mapped(ask, NamesOpened(opens)) == Answers(opens, key, ts);
  }

  // ----- What explains the answers of a pass -----

  /** Each file answers as its open in `opens` did. */
  ghost function Replay(opens: seq<Access>, key: LookupKey, timestamps: seq<LogTimestamp>): Asking {
    (name: Bytes) =>
      if i :| 0 <= i < |opens| && opens[i].name == name then QueryOf(opens[i].got, key, timestamps) else Fails(FileMissing)
  }

  /** Since no file is opened twice, replaying the opens explains them. */
  lemma {:induction false} ReplayExplains(opens: seq<Access>, key: LookupKey, timestamps: seq<LogTimestamp>)
    requires NoRepeats(NamesOpened(opens))
    ensures Explains(Replay(opens, key, timestamps), opens, key, timestamps)
  {
    var names := NamesOpened(opens);
    forall i | 0 <= i < |opens| ensures Replay(opens, key, timestamps)(opens[i].name) == QueryOf(opens[i].got, key, timestamps) {
      assert opens[i].name == names[i];
      forall j | 0 <= j < |opens| && opens[j].name == opens[i].name ensures j == i {
        assert names[j] == names[i];
      }
    }
  }
}
