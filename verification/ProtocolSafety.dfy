/** What holds in every run of the Checker protocol. */
module ProtocolSafety {
  import opened Wrappers
  import opened PassRules
  import opened Crlite
  import opened UpkiIndex
  import opened Verdicts
  import opened Protocol
  import opened ProtocolSteps

  // ----- Runs -----

  /** Any interleaving of checks, reopens, closes and contract-obeying updates. */
  datatype Run = Run(states: seq<State>, labels: seq<Label>) {
    ghost predicate Of(w: World) {
      && w.Valid() && |states| == |labels| + 1 && Init(w, states[0])
      && forall i | 0 <= i < |labels| :: Enabled(w, states[i], labels[i]) && states[i + 1] == Step(w, states[i], labels[i])
    }
  }

  lemma {:induction false} RunInv(w: World, r: Run, i: nat)
    requires r.Of(w) && i < |r.states|
    ensures Inv(w, r.states[i])
  {
    if i == 0 {
      InitInv(w, r.states[0]);
    } else {
      RunInv(w, r, i - 1);
      StepInv(w, r.states[i - 1], r.labels[i - 1]);
    }
  }

  // ----- Index handles -----

  predicate IsOpen(s: State, h: HandleId) {
    h < |s.handles| && s.handles[h].closes == 0
  }

  /** No check ever reads through a closed index, or through any but the installed one. */
  lemma {:induction false} ReadsThroughOpenIndex(w: World, r: Run, i: nat, c: CheckId)
    requires r.Of(w) && i < |r.states| && c in r.states[i].checks && r.states[i].checks[c].Passing?
    ensures IsOpen(r.states[i], r.states[i].checks[c].h) && r.states[i].idx == Some(r.states[i].checks[c].h)
  {
    RunInv(w, r, i);
    var s := r.states[i];
    assert CheckInv(w, s, c);
    assert c in s.readers;
    assert s.checks[c].h in OpenSet(s);
  }

  /** No handle is closed twice; and whenever no one holds the write lock, the open
      handles are exactly the installed one, if any, all others having been closed
      exactly once. */
  lemma {:induction false} HandlesAccountedFor(w: World, r: Run, i: nat)
    requires r.Of(w) && i < |r.states|
    ensures forall h | 0 <= h < |r.states[i].handles| :: r.states[i].handles[h].closes <= 1
    ensures r.states[i].writer.None? ==>
              forall h: HandleId | h < |r.states[i].handles| :: IsOpen(r.states[i], h) <==> r.states[i].idx == Some(h)
  {
    RunInv(w, r, i);
  }

  lemma {:induction false} ClosedStaysClosedStep(w: World, s: State, l: Label)
    requires Inv(w, s) && Enabled(w, s, l) && s.idx.None?
    ensures Step(w, s, l).idx.None?
  {
    if ActorOf(l).Some? && !l.Begin? {
      assert CheckInv(w, s, l.c);
    }
  }

  /** Once the Checker is closed it stays closed: no retry in flight reinstalls an
      index. */
  lemma {:induction false} ClosedIsAbsorbing(w: World, r: Run, i: nat, j: nat)
    requires r.Of(w) && i <= j < |r.states| && r.states[i].idx.None?
    ensures r.states[j].idx.None?
    decreases j - i
  {
    if i < j {
      RunInv(w, r, i);
      ClosedStaysClosedStep(w, r.states[i], r.labels[i]);
      ClosedIsAbsorbing(w, r, i + 1, j);
    }
  }

  // ----- Cache updates during a check -----

  /** The index versions that became visible during some steps. */
  function Updates(labels: seq<Label>): nat {
    if labels == [] then 0 else Updates(labels[..|labels| - 1]) + if labels[|labels| - 1].Publish? then 1 else 0
  }

  lemma {:induction false} StepVersion(w: World, s: State, l: Label)
    requires Enabled(w, s, l)
    ensures Step(w, s, l).cur == s.cur + if l.Publish? then 1 else 0
  {}

  lemma {:induction false} UpdatesNext(labels: seq<Label>, i: nat, j: nat)
    requires i < j <= |labels|
    ensures Updates(labels[i..j]) == Updates(labels[i..j - 1]) + if labels[j - 1].Publish? then 1 else 0
  {
    assert labels[i..j][..j - 1 - i] == labels[i..j - 1];
  }

  lemma {:induction false} UpdatesAreVersions(w: World, r: Run, i: nat, j: nat)
    requires r.Of(w) && i <= j < |r.states|
    ensures r.states[j].cur == r.states[i].cur + Updates(r.labels[i..j])
    decreases j - i
  {
    if i < j {
      UpdatesAreVersions(w, r, i, j - 1);
      UpdatesNext(r.labels, i, j);
      StepVersion(w, r.states[j - 1], r.labels[j - 1]);
    }
  }

  lemma {:induction false} BeginRecords(w: World, s: State, c: CheckId)
    requires Enabled(w, s, Begin(c))
    ensures var t := Step(w, s, Begin(c)); At(t, c) && t.calls[c].begun == s.cur
  {}

  /** A check remembers which version was visible when it began. */
  lemma {:induction false} BegunIsKept(w: World, r: Run, c: CheckId, i: nat, j: nat)
    requires r.Of(w) && i < j < |r.states| && r.labels[i] == Begin(c)
    ensures At(r.states[j], c) && r.states[j].calls[c].begun == r.states[i].cur
    decreases j - i
  {
    if i == j - 1 {
      BeginRecords(w, r.states[i], c);
    } else {
      BegunIsKept(w, r, c, i, j - 1);
      StepKeepsBegun(w, r.states[j - 1], r.labels[j - 1], c);
    }
  }

  lemma {:induction false} StepKeepsBegun(w: World, s: State, l: Label, c: CheckId)
    requires Enabled(w, s, l) && At(s, c)
    ensures At(Step(w, s, l), c) && Step(w, s, l).calls[c].begun == s.calls[c].begun
  {}

  /** The check begun at step `i` returns at step `j`. */
  predicate ReturnsAt(r: Run, c: CheckId, i: nat, j: nat) {
    && i < j < |r.labels| && |r.states| == |r.labels| + 1 && r.labels[i] == Begin(c)
    && c in r.states[j].checks && !r.states[j].checks[c].Finished?
    && c in r.states[j + 1].checks && r.states[j + 1].checks[c].Finished?
  }

  lemma {:induction false} ReturnRecordsUpdates(w: World, r: Run, c: CheckId, i: nat, j: nat)
    requires r.Of(w) && ReturnsAt(r, c, i, j)
    ensures r.states[j + 1].checks[c].updates == Updates(r.labels[i..j])
  {
    BegunIsKept(w, r, c, i, j);
    UpdatesAreVersions(w, r, i, j);
    assert r.states[j + 1] == Step(w, r.states[j], r.labels[j]) && Enabled(w, r.states[j], r.labels[j]);
  }

  /** A check surfaces a missing-file error only if at least two cache updates
      became visible while it ran, whoever did the reopening in between. */
  lemma {:induction false} MissingFileNeedsTwoUpdates(w: World, r: Run, c: CheckId, i: nat, j: nat)
    requires r.Of(w) && ReturnsAt(r, c, i, j)
    requires r.states[j + 1].checks[c].result.MissingFile?
    ensures Updates(r.labels[i..j]) >= 2
  {
    RunInv(w, r, j + 1);
    assert CheckInv(w, r.states[j + 1], c);
    ReturnRecordsUpdates(w, r, c, i, j);
  }

  // ----- Answers -----

  /** The pass that is under way at step `j` took its snapshot at step `k`. */
  predicate SnapshotAt(r: Run, c: CheckId, k: nat, j: nat, h: HandleId) {
    && k < j < |r.states| && |r.states| == |r.labels| + 1
    && r.labels[k] == Snapshot(c) && r.states[k].idx == Some(h)
    && forall m | k < m <= j :: r.states[m].idx == Some(h)
  }

  /** A step that leaves the check in a pass either started the pass or found it
      under way. */
  predicate OneBack(s: State, l: Label, t: State, c: CheckId) {
    c in t.checks && t.checks[c].Passing? ==>
      && t.idx == Some(t.checks[c].h) && l != Begin(c) && c in s.checks
      && if l == Snapshot(c) then s.idx == t.idx else s.checks[c].Passing? && s.checks[c].h == t.checks[c].h
  }

  lemma {:induction false} StepOneBack(w: World, s: State, l: Label, c: CheckId)
    requires Inv(w, s) && Enabled(w, s, l)
    ensures OneBack(s, l, Step(w, s, l), c)
  {
    if c in Step(w, s, l).checks && Step(w, s, l).checks[c].Passing? {
      StepInv(w, s, l);
      assert CheckInv(w, Step(w, s, l), c);
      if l != Snapshot(c) {
        PassBefore(w, s, l, c);
      }
    }
  }

  lemma {:induction false} BackToSnapshot(r: Run, c: CheckId, i: nat, j: nat) returns (k: nat)
    requires |r.states| == |r.labels| + 1 && i < j < |r.states| && r.labels[i] == Begin(c)
    requires forall m | 0 <= m < |r.labels| :: OneBack(r.states[m], r.labels[m], r.states[m + 1], c)
    requires c in r.states[j].checks && r.states[j].checks[c].Passing?
    ensures i < k && SnapshotAt(r, c, k, j, r.states[j].checks[c].h)
    decreases j - i
  {
    assert OneBack(r.states[j - 1], r.labels[j - 1], r.states[j], c);
    if r.labels[j - 1] == Snapshot(c) {
      k := j - 1;
    } else {
      k := BackToSnapshot(r, c, i, j - 1);
    }
  }

  /** Since its snapshot a pass has had the same index installed. */
  lemma {:induction false} PassStarted(w: World, r: Run, c: CheckId, i: nat, j: nat) returns (k: nat)
    requires r.Of(w) && i < j < |r.states| && r.labels[i] == Begin(c)
    requires c in r.states[j].checks && r.states[j].checks[c].Passing?
    ensures i < k && SnapshotAt(r, c, k, j, r.states[j].checks[c].h)
  {
    forall m | 0 <= m < |r.labels| ensures OneBack(r.states[m], r.labels[m], r.states[m + 1], c) {
      RunInv(w, r, m);
      StepOneBack(w, r.states[m], r.labels[m], c);
    }
    k := BackToSnapshot(r, c, i, j);
  }

  lemma {:induction false} PassBefore(w: World, s: State, l: Label, c: CheckId)
    requires Inv(w, s) && Enabled(w, s, l) && l != Snapshot(c)
    requires c in Step(w, s, l).checks && Step(w, s, l).checks[c].Passing?
    ensures c in s.checks && s.checks[c].Passing? && s.checks[c].h == Step(w, s, l).checks[c].h && l != Begin(c)
  {
    if ActorOf(l) != Some(c) {
      assert c in s.checks;
      assert CheckInv(w, s, c);
      StepUntouched(w, s, l, c);
    }
  }

  /** A version's verdict is the decision over the files it selects. */
  lemma {:induction false} VerdictIsDecision(w: World, c: CheckId, v: nat)
    ensures VerdictOf(w, c, v) == Decide(w.Ask(c), ToSet(w.plan(c, v)))
  {
    PlanIsDecision(true, w.Ask(c), w.plan(c, v));
  }

  /** It is the result of a pass over that version's index, when `w` selects for the
      check what the lookups in that index yield. */
  lemma {:induction false} VerdictIsPass(w: World, c: CheckId, v: nat, view: View, ts: seq<LogTimestamp>)
    requires view.Valid() && LookupsSucceed(view, ts) && w.plan(c, v) == Plan(view, ts)
    ensures VerdictOf(w, c, v) == PassOf(true, view, w.Ask(c), ts)
  {
    PassVisitsPlan(true, view, w.Ask(c), ts);
  }

  /** Every answer a call returns is the decision over all files that a single index
      version selects for it, whatever else happened to the cache and the Checker
      meanwhile; and that version was the installed one when, during the call, the
      pass took its snapshot, and stayed installed until the call returned. */
  lemma {:induction false} AnswerFromOneSnapshot(w: World, r: Run, c: CheckId, i: nat, j: nat) returns (k: nat, h: HandleId)
    requires r.Of(w) && ReturnsAt(r, c, i, j) && r.states[j + 1].checks[c].result.Answered?
    ensures i < k && SnapshotAt(r, c, k, j, h) && h < |r.states[j].handles|
    ensures var a := r.states[j + 1].checks[c].result;
            a.version == r.states[j].handles[h].version && a.verdict == Decide(w.Ask(c), ToSet(w.plan(c, a.version)))
  {
    RunInv(w, r, j);
    RunInv(w, r, j + 1);
    var s, l := r.states[j], r.labels[j];
    assert Enabled(w, s, l) && r.states[j + 1] == Step(w, s, l);
    assert CheckInv(w, s, c) && CheckInv(w, r.states[j + 1], c);
    AnswersConclude(w, s, l, c);
    h := s.checks[c].h;
    k := PassStarted(w, r, c, i, j);
    VerdictIsDecision(w, c, s.handles[h].version);
  }

  lemma {:induction false} AnswersConclude(w: World, s: State, l: Label, c: CheckId)
    requires Enabled(w, s, l) && At(s, c) && !s.checks[c].Finished?
    requires c in Step(w, s, l).checks && Step(w, s, l).checks[c].Finished? && Step(w, s, l).checks[c].result.Answered?
    ensures l == Conclude(c) && s.checks[c].Passing? && s.checks[c].h < |s.handles|
    ensures Step(w, s, l).checks[c].result.version == s.handles[s.checks[c].h].version
  {
    if ActorOf(l) != Some(c) {
      StepUntouched(w, s, l, c);
    }
  }

  // ----- Errors -----

  lemma {:induction false} ReturnsByOwnStep(w: World, s: State, l: Label, c: CheckId)
    requires Enabled(w, s, l) && At(s, c) && !s.checks[c].Finished?
    requires c in Step(w, s, l).checks && Step(w, s, l).checks[c].Finished?
    ensures ActorOf(l) == Some(c)
  {
    if ActorOf(l) != Some(c) {
      StepUntouched(w, s, l, c);
    }
  }

  /** How a step that ends a call ends it. */
  predicate EndsAs(s: State, l: Label, c: CheckId, result: Result) {
    match result
    case CheckerClosed => l == Snapshot(c) && s.idx.None?
    case ReopenFailed => l == OpenFails(c) && s.idx.Some? && s.writer == Some(ACheck(c))
    case MissingFile => l == FindMissing(c) && s.idx.Some?
    case OtherError => (l == Fail(c) || l == BadFile(c)) && s.idx.Some?
    case Answered(_, _) => l == Conclude(c) && s.idx.Some?
  }

  lemma {:induction false} StepEnds(w: World, s: State, l: Label, c: CheckId)
    requires Inv(w, s) && Enabled(w, s, l) && At(s, c) && !s.checks[c].Finished?
    requires c in Step(w, s, l).checks && Step(w, s, l).checks[c].Finished?
    ensures EndsAs(s, l, c, Step(w, s, l).checks[c].result)
  {
    ReturnsByOwnStep(w, s, l, c);
    assert CheckInv(w, s, c);
    if l.OpenFails? {
      assert s.checks[c].Writing();
    }
  }

  /** Every result a call returns has its own cause.  In particular the call reports
      that the Checker is closed if and only if it returns when the Checker is closed. */
  lemma {:induction false} ResultsHaveCauses(w: World, r: Run, c: CheckId, i: nat, j: nat)
    requires r.Of(w) && ReturnsAt(r, c, i, j)
    ensures EndsAs(r.states[j], r.labels[j], c, r.states[j + 1].checks[c].result)
    ensures r.states[j + 1].checks[c].result.CheckerClosed? <==> r.states[j].idx.None?
  {
    RunInv(w, r, j);
    var s, l := r.states[j], r.labels[j];
    assert Enabled(w, s, l) && r.states[j + 1] == Step(w, s, l);
    assert CheckInv(w, s, c);
    StepEnds(w, s, l, c);
  }

  /** A snapshot of a closed Checker, and a failure to reopen, end the call at once. */
  lemma {:induction false} FailuresSurface(w: World, r: Run, c: CheckId, j: nat)
    requires r.Of(w) && j < |r.labels|
    ensures r.labels[j] == Snapshot(c) && r.states[j].idx.None? ==>
              c in r.states[j + 1].checks && r.states[j + 1].checks[c].Finished?
              && r.states[j + 1].checks[c].result == CheckerClosed
    ensures r.labels[j] == OpenFails(c) ==>
              c in r.states[j + 1].checks && r.states[j + 1].checks[c].Finished?
              && r.states[j + 1].checks[c].result == ReopenFailed && r.states[j + 1].writer.None?
  {
    assert Enabled(w, r.states[j], r.labels[j]) && r.states[j + 1] == Step(w, r.states[j], r.labels[j]);
  }
}
