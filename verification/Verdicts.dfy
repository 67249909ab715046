/** What a pass computes: a decision that depends only on which filters the index
    selects and what each of them says; and on an exact index, the same verdict
    as querying every filter of the cache. */
module Verdicts {
  import opened ByteStrings
  import opened Sequences
  import opened FilterFormat
  import opened Crlite
  import opened UpkiIndex
  import opened PassRules

  // ----- A pass is a decision over a set of filters -----

  function ToSet(names: seq<Bytes>): set<Bytes> {
    set n | n in names
  }

  /** The filters selected for the timestamps, one lookup after the other. */
  function Plan(v: View, ts: seq<LogTimestamp>): seq<Bytes>
    requires v.Valid()
  {
    if ts == [] then [] else
      var t := ts[|ts| - 1];
      Plan(v, ts[..|ts| - 1])
      + match LookupIn(v, t.logId, t.timestamp) case InvalidIndex => [] case Good(names) => names
  }

  /** Every filter selected for some timestamp. */
  function Chosen(v: View, ts: seq<LogTimestamp>): set<Bytes>
    requires v.Valid()
  {
    ToSet(Plan(v, ts))
  }

  lemma {:induction false} VisitConcat(dedup: bool, ask: Asking, a: seq<Bytes>, b: seq<Bytes>, p: Progress)
    ensures VisitNames(dedup, ask, a + b, p)
         == match VisitNames(dedup, ask, a, p)
            case Stop(r, before) => Stop(r, before)
            case Continue(q) => VisitNames(dedup, ask, b, q)
  {
    if b == [] {
      assert a + b == a;
    } else {
      var n := |b| - 1;
      VisitConcat(dedup, ask, a, b[..n], p);
      assert (a + b)[..|a + b| - 1] == a + b[..n];
    }
  }

  /** When all lookups succeed, a pass visits its plan. */
  lemma {:induction false} PassVisitsPlan(dedup: bool, v: View, ask: Asking, ts: seq<LogTimestamp>)
    requires v.Valid() && LookupsSucceed(v, ts)
    ensures VisitLogs(dedup, v, ask, ts, START) == VisitNames(dedup, ask, Plan(v, ts), START)
  {
    if ts != [] {
      var front := ts[..|ts| - 1];
      forall i | 0 <= i < |front| ensures LookupIn(v, front[i].logId, front[i].timestamp).Good? {
        assert front[i] == ts[i];
      }
      PassVisitsPlan(dedup, v, ask, front);
      var t := ts[|ts| - 1];
      VisitConcat(dedup, ask, Plan(v, front), LookupIn(v, t.logId, t.timestamp).value, START);
    }
  }

  ghost predicate SomeSays(ask: Asking, names: set<Bytes>, status: Status) {
    exists n | n in names :: ask(n) == Says(status)
  }

  ghost predicate AllSay(ask: Asking, names: set<Bytes>, status: Status) {
    forall n | n in names :: ask(n) == Says(status)
  }

  /** Revocation wins, then a conclusive "not revoked"; if every selected filter
      denies covering the leaf, index and files contradict each other. */
  ghost function Decide(ask: Asking, names: set<Bytes>): PassResult {
    if SomeSays(ask, names, StatusRevoked) then Answer(Revoked)
    else if SomeSays(ask, names, StatusGood) then Answer(NotRevoked)
    else if names != {} && AllSay(ask, names, StatusNotCovered) then Failed(InconsistentIndex)
    else Answer(NotCovered)
  }

  ghost predicate AllAnswer(ask: Asking, names: set<Bytes>) {
    forall n | n in names :: ask(n).Says?
  }

  /** The counters after visiting exactly `names`, none of which said `Revoked`. */
  ghost predicate Tallies(ask: Asking, names: set<Bytes>, p: Progress) {
    && ToSet(p.seen) == names
    && !SomeSays(ask, names, StatusRevoked)
    && (p.notRevoked <==> SomeSays(ask, names, StatusGood))
    && (p.queried > 0 <==> names != {})
    && p.notCovered <= p.queried
    && (p.notCovered == p.queried <==> AllSay(ask, names, StatusNotCovered))
  }

  lemma {:induction false} TallyOne(dedup: bool, ask: Asking, names: set<Bytes>, name: Bytes, p: Progress)
    requires Tallies(ask, names, p) && ask(name).Says?
    ensures match VisitName(dedup, ask, name, p)
            case Stop(r, _) => r == Answer(Revoked) && ask(name) == Says(StatusRevoked)
            case Continue(q) => Tallies(ask, names + {name}, q)
  {
    if name in names {
      assert names + {name} == names;
    }
    var s := ask(name).status;
    assert SomeSays(ask, names + {name}, StatusGood) <==> SomeSays(ask, names, StatusGood) || s == StatusGood;
    assert SomeSays(ask, names + {name}, StatusRevoked) <==> s == StatusRevoked;
    assert AllSay(ask, names + {name}, StatusNotCovered) <==>
           AllSay(ask, names, StatusNotCovered) && s == StatusNotCovered;
  }

  lemma {:induction false} TallyNames(dedup: bool, ask: Asking, before: set<Bytes>, names: seq<Bytes>, p: Progress)
    requires Tallies(ask, before, p) && AllAnswer(ask, ToSet(names))
    ensures match VisitNames(dedup, ask, names, p)
            case Stop(r, _) => r == Answer(Revoked) && SomeSays(ask, ToSet(names), StatusRevoked)
            case Continue(q) => Tallies(ask, before + ToSet(names), q)
  {
    if names == [] {
      assert before + ToSet(names) == before;
    } else {
      var n := |names| - 1;
      assert ToSet(names) == ToSet(names[..n]) + {names[n]};
      TallyNames(dedup, ask, before, names[..n], p);
      var step := VisitNames(dedup, ask, names[..n], p);
      if step.Continue? {
        TallyOne(dedup, ask, before + ToSet(names[..n]), names[n], step.p);
        assert before + ToSet(names) == (before + ToSet(names[..n])) + {names[n]};
      }
    }
  }

  /** When every lookup and every file read succeeds, a pass is the decision over
      the set of selected filters, with or without skipping those seen before. */
  lemma {:induction false} PassIsDecision(dedup: bool, v: View, ask: Asking, ts: seq<LogTimestamp>)
    requires v.Valid() && LookupsSucceed(v, ts) && AllAnswer(ask, Chosen(v, ts))
    ensures PassOf(dedup, v, ask, ts) == Decide(ask, Chosen(v, ts))
  {
    PassVisitsPlan(dedup, v, ask, ts);
    PlanIsDecision(dedup, ask, Plan(v, ts));
  }

  /** Visiting a list of filters that all answer decides over their set. */
  lemma {:induction false} PlanIsDecision(dedup: bool, ask: Asking, names: seq<Bytes>)
    requires AllAnswer(ask, ToSet(names))
    ensures Concluded(VisitNames(dedup, ask, names, START)) == Decide(ask, ToSet(names))
  {
    TallyNames(dedup, ask, {}, names, START);
    assert {} + ToSet(names) == ToSet(names);
  }

  /** Then a pass that does not end early opens every selected file, once. */
  lemma {:induction false} OpensAllChosen(v: View, ask: Asking, ts: seq<LogTimestamp>)
    requires v.Valid() && LookupsSucceed(v, ts) && AllAnswer(ask, Chosen(v, ts))
    ensures PassOf(true, v, ask, ts) != Answer(Revoked) ==> ToSet(OpensOf(true, v, ask, ts)) == Chosen(v, ts)
    ensures NoRepeats(OpensOf(true, v, ask, ts))
  {
    PassVisitsPlan(true, v, ask, ts);
    TallyNames(true, ask, {}, Plan(v, ts), START);
    assert {} + Chosen(v, ts) == Chosen(v, ts);
    VisitsOnce(ask, Plan(v, ts), START);
  }

  lemma {:induction false} VisitsOnce(ask: Asking, names: seq<Bytes>, p: Progress)
    requires NoRepeats(p.seen)
    ensures NoRepeats(VisitNames(true, ask, names, p).Opened())
  {
    if names != [] {
      VisitsOnce(ask, names[..|names| - 1], p);
    }
  }

  // ----- Passes that end early -----

  /** Whatever the other files and lookups are like, the first selected file that
      cannot be queried, or says revoked, decides the pass, if the lookups up to
      there succeed. */
  lemma {:induction false} FirstDecisiveWins(v: View, ask: Asking, ts: seq<LogTimestamp>, m: nat, k: nat)
    requires v.Valid() && m <= |ts| && LookupsSucceed(v, ts[..m]) && k < |Plan(v, ts[..m])|
    requires Decisive(ask(Plan(v, ts[..m])[k])) && NoneDecisive(Mapped(ask, Plan(v, ts[..m])[..k]))
    ensures PassOf(true, v, ask, ts) == Settles(ask(Plan(v, ts[..m])[k]))
  {
    var plan := Plan(v, ts[..m]);
    PassVisitsPlan(true, v, ask, ts[..m]);
    DecisiveStops(ask, plan, k);
    LogsStop(v, ask, ts, m, START);
  }

  lemma {:induction false} DecisiveStops(ask: Asking, names: seq<Bytes>, k: nat)
    requires k < |names| && Decisive(ask(names[k])) && NoneDecisive(Mapped(ask, names[..k]))
    ensures var s := VisitNames(true, ask, names, START); s.Stop? && s.result == Settles(ask(names[k]))
  {
    PlainContinues(ask, names[..k]);
    assert names[..k + 1][..k] == names[..k];
    NamesStop(true, ask, names, k + 1, START);
  }

  /** Files whose answers are not decisive let the pass go on, and only they are seen. */
  lemma {:induction false} PlainContinues(ask: Asking, names: seq<Bytes>)
    requires NoneDecisive(Mapped(ask, names))
    ensures var s := VisitNames(true, ask, names, START);
            s.Continue? && forall n | n in s.p.seen :: !Decisive(ask(n))
  {
    if names != [] {
      var front := names[..|names| - 1];
      forall i | 0 <= i < |front| ensures !Decisive(Mapped(ask, front)[i]) {
        assert Mapped(ask, names)[i] == Mapped(ask, front)[i];
      }
      PlainContinues(ask, front);
      assert !Decisive(Mapped(ask, names)[|names| - 1]);
    }
  }

  /** If none of the files selected up to an invalid lookup is decisive, the pass fails
      for that lookup. */
  lemma {:induction false} FirstInvalidLookupFails(v: View, ask: Asking, ts: seq<LogTimestamp>, m: nat)
    requires v.Valid() && m < |ts| && LookupsSucceed(v, ts[..m]) && NoneDecisive(Mapped(ask, Plan(v, ts[..m])))
    requires LookupIn(v, ts[m].logId, ts[m].timestamp).InvalidIndex?
    ensures PassOf(true, v, ask, ts) == Failed(LookupFailed)
  {
    PassVisitsPlan(true, v, ask, ts[..m]);
    PlainContinues(ask, Plan(v, ts[..m]));
    assert ts[..m + 1][..m] == ts[..m];
    LogsStop(v, ask, ts, m + 1, START);
  }

  // ----- Order and multiplicity of the timestamps do not matter -----

  predicate SameElements(ts: seq<LogTimestamp>, us: seq<LogTimestamp>) {
    (forall t | t in ts :: t in us) && (forall u | u in us :: u in ts)
  }

  lemma {:induction false} ChosenMember(v: View, ts: seq<LogTimestamp>, name: Bytes)
    requires v.Valid()
    ensures name in Chosen(v, ts) <==>
            exists t | t in ts :: LookupIn(v, t.logId, t.timestamp).Good? && name in LookupIn(v, t.logId, t.timestamp).value
  {
    if ts != [] {
      var n := |ts| - 1;
      ChosenMember(v, ts[..n], name);
      assert ts == ts[..n] + [ts[n]];
    }
  }

  lemma {:induction false} ChosenBySet(v: View, ts: seq<LogTimestamp>, us: seq<LogTimestamp>)
    requires v.Valid() && SameElements(ts, us)
    ensures Chosen(v, ts) == Chosen(v, us)
  {
    forall name: Bytes ensures name in Chosen(v, ts) <==> name in Chosen(v, us) {
      ChosenMember(v, ts, name);
      ChosenMember(v, us, name);
    }
  }

  lemma {:induction false} CoversAnyBySet(f: RevocationFilter, ts: seq<LogTimestamp>, us: seq<LogTimestamp>)
    requires SameElements(ts, us)
    ensures CoversAny(f, ts) == CoversAny(f, us)
  {
    if CoversAny(f, ts) {
      var i :| 0 <= i < |ts| && Covers(f, ts[i]);
      assert ts[i] in us;
      var j :| 0 <= j < |us| && us[j] == ts[i];
      assert Covers(f, us[j]);
    }
    if CoversAny(f, us) {
      var j :| 0 <= j < |us| && Covers(f, us[j]);
      assert us[j] in ts;
      var i :| 0 <= i < |ts| && ts[i] == us[j];
      assert Covers(f, ts[i]);
    }
  }

  lemma {:induction false} QueryBySet(got: Fetched, key: LookupKey, ts: seq<LogTimestamp>, us: seq<LogTimestamp>)
    requires SameElements(ts, us)
    ensures QueryOf(got, key, ts) == QueryOf(got, key, us)
  {
    match got
    case NotExist =>
    case IOError =>
    case Content(data) =>
      if Accepted(data) {
        CoversAnyBySet(Parse(true, data).value, ts, us);
      }
  }

  lemma {:induction false} DecideAgrees(ask: Asking, ask': Asking, names: set<Bytes>)
    requires forall n | n in names :: ask(n) == ask'(n)
    ensures Decide(ask, names) == Decide(ask', names)
  {
    forall status: Status
      ensures SomeSays(ask, names, status) == SomeSays(ask', names, status)
      ensures AllSay(ask, names, status) == AllSay(ask', names, status)
    {}
  }

  /** The verdict is unchanged by permuting or repeating timestamps and by
      dropping the de-duplication of filters. */
  lemma {:induction false} VerdictIndependence(dedup: bool, v: View, files: Bytes -> Fetched, key: LookupKey,
                                               ts: seq<LogTimestamp>, us: seq<LogTimestamp>)
    requires v.Valid() && SameElements(ts, us)
    requires LookupsSucceed(v, ts) && AllAnswer(Asker(files, key, ts), Chosen(v, ts))
    ensures PassOf(dedup, v, Asker(files, key, us), us) == PassOf(true, v, Asker(files, key, ts), ts)
  {
    var ask, ask' := Asker(files, key, ts), Asker(files, key, us);
    AskersAgree(files, key, ts, us);
    ChosenBySet(v, ts, us);
    forall i | 0 <= i < |us| ensures LookupIn(v, us[i].logId, us[i].timestamp).Good? {
      assert us[i] in ts;
      var j :| 0 <= j < |ts| && ts[j] == us[i];
    }
    PassIsDecision(true, v, ask, ts);
    PassIsDecision(dedup, v, ask', us);
    DecideAgrees(ask, ask', Chosen(v, ts));
  }

  lemma {:induction false} AskersAgree(files: Bytes -> Fetched, key: LookupKey, ts: seq<LogTimestamp>, us: seq<LogTimestamp>)
    requires SameElements(ts, us)
    ensures forall n: Bytes :: Asker(files, key, ts)(n) == Asker(files, key, us)(n)
  {
    forall n: Bytes ensures Asker(files, key, ts)(n) == Asker(files, key, us)(n) {
      QueryBySet(files(n), key, ts, us);
    }
  }
}
