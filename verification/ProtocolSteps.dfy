/** Every step of the Checker protocol keeps its invariant. */
module ProtocolSteps {
  import opened Wrappers
  import opened PassRules
  import opened Protocol

  lemma {:induction false} InitInv(w: World, s: State)
    requires w.Valid() && Init(w, s)
    ensures Inv(w, s)
  {}

  lemma {:induction false} VisitedUnderway(w: World, c: CheckId, v: nat, pos: nat, pass: PassState)
    requires Underway(w, c, v, pos, pass) && pass.Continue? && pos < |w.plan(c, v)|
    ensures Underway(w, c, v, pos + 1, VisitName(true, w.Ask(c), w.plan(c, v)[pos], pass.p))
  {
    assert w.plan(c, v)[..pos + 1][..pos] == w.plan(c, v)[..pos];
  }

  lemma {:induction false} UnderwayConcludes(w: World, c: CheckId, v: nat, pos: nat, pass: PassState)
    requires Underway(w, c, v, pos, pass) && (pass.Stop? || pos == |w.plan(c, v)|)
    ensures Concluded(pass) == VerdictOf(w, c, v)
  {
    var plan := w.plan(c, v);
    if pass.Stop? {
      NamesStop(true, w.Ask(c), plan, pos, START);
    } else {
      assert plan[..pos] == plan;
    }
  }

  /** The check a step belongs to. */
  function ActorOf(l: Label): Option<CheckId> {
    match l
    case Begin(c) => Some(c) case Snapshot(c) => Some(c) case SkipSeen(c) => Some(c) case ReadFile(c) => Some(c)
    case FindMissing(c) => Some(c) case BadFile(c) => Some(c) case Fail(c) => Some(c) case Conclude(c) => Some(c)
    case Lock(c) => Some(c) case AlreadyReplaced(c) => Some(c) case OpenFails(c) => Some(c) case OpenIndex(c) => Some(c)
    case CloseOld(c) => Some(c) case Install(c) => Some(c)
    case _ => None
  }

  /** The steps of a check that replaces the index. */
  predicate Reopening(l: Label) {
    l.Lock? || l.AlreadyReplaced? || l.OpenFails? || l.OpenIndex? || l.CloseOld? || l.Install?
  }

  lemma {:induction false} PassLock(w: World, s: State, l: Label)
    requires LockInv(s) && Enabled(w, s, l) && ActorOf(l).Some? && !Reopening(l)
    ensures LockInv(Step(w, s, l))
  {}

  lemma {:induction false} ReopenLock(w: World, s: State, l: Label)
    requires LockInv(s) && Enabled(w, s, l) && Reopening(l)
    ensures LockInv(Step(w, s, l))
  {}

  lemma {:induction false} OtherLock(w: World, s: State, l: Label)
    requires LockInv(s) && Enabled(w, s, l) && ActorOf(l).None?
    ensures LockInv(Step(w, s, l))
  {}

  lemma {:induction false} PassHandles(w: World, s: State, l: Label)
    requires Inv(w, s) && Enabled(w, s, l) && ActorOf(l).Some? && !Reopening(l)
    ensures HandleInv(Step(w, s, l))
  {
    assert OpenSet(Step(w, s, l)) == OpenSet(s);
  }

  lemma {:induction false} ReopenHandles(w: World, s: State, l: Label)
    requires Inv(w, s) && Enabled(w, s, l) && Reopening(l)
    ensures HandleInv(Step(w, s, l))
  {
    assert CheckInv(w, s, l.c);
  }

  lemma {:induction false} OtherHandles(w: World, s: State, l: Label)
    requires Inv(w, s) && Enabled(w, s, l) && ActorOf(l).None?
    ensures HandleInv(Step(w, s, l))
  {}

  lemma {:induction false} StepClosers(w: World, s: State, l: Label)
    requires Inv(w, s) && Enabled(w, s, l)
    ensures CloserInv(Step(w, s, l))
  {}

  /** What the steps of a pass do to their own check. */
  lemma {:induction false} PassActor(w: World, s: State, l: Label)
    requires Inv(w, s) && Enabled(w, s, l) && ActorOf(l).Some? && !Reopening(l) && !l.FindMissing?
    ensures l.c in Step(w, s, l).checks && CheckInv(w, Step(w, s, l), l.c)
  {
    if !l.Begin? {
      assert CheckInv(w, s, l.c);
    }
    if l.SkipSeen? || l.ReadFile? {
      VisitedUnderway(w, l.c, PassVersion(s, l.c), s.checks[l.c].pos, s.checks[l.c].pass);
    } else if l.Conclude? {
      UnderwayConcludes(w, l.c, PassVersion(s, l.c), s.checks[l.c].pos, s.checks[l.c].pass);
    }
  }

  lemma {:induction false} ReopenActor(w: World, s: State, l: Label)
    requires Inv(w, s) && Enabled(w, s, l) && Reopening(l)
    ensures l.c in Step(w, s, l).checks && CheckInv(w, Step(w, s, l), l.c)
  {
    assert CheckInv(w, s, l.c);
  }

  /** A file the snapshot selects can only be missing if the snapshot is outdated. */
  lemma {:induction false} StepMiss(w: World, s: State, c: CheckId)
    requires Inv(w, s) && Enabled(w, s, FindMissing(c))
    ensures PassVersion(s, c) < s.cur
    ensures c in Step(w, s, FindMissing(c)).checks && CheckInv(w, Step(w, s, FindMissing(c)), c)
  {
    assert CheckInv(w, s, c);
    var v := PassVersion(s, c);
    assert Next(w, s, c) in w.plan(c, v);
    assert Next(w, s, c) in w.named(v);
  }

  /** Time only moves on: nothing a bystander relies on is taken back, and the
      installed index stays. */
  ghost predicate Onward(s: State, t: State) {
    && t.cur >= s.cur && t.idx == s.idx && |t.handles| >= |s.handles|
    && forall h | 0 <= h < |s.handles| :: t.handles[h].version == s.handles[h].version
  }

  ghost predicate NoNewStale(s: State, t: State) {
    forall d | d in t.checks && t.checks[d].Stale? :: d in s.checks && s.checks[d] == t.checks[d]
  }

  predicate Untouched(s: State, t: State, d: CheckId) {
    At(s, d) && At(t, d) && t.checks[d] == s.checks[d] && t.calls[d] == s.calls[d]
  }

  lemma {:induction false} StepUntouched(w: World, s: State, l: Label, d: CheckId)
    requires Enabled(w, s, l) && At(s, d) && ActorOf(l) != Some(d)
    ensures Untouched(s, Step(w, s, l), d)
  {}

  lemma {:induction false} StepOnward(w: World, s: State, l: Label)
    requires Enabled(w, s, l) && !l.Install? && !l.CloseClear?
    ensures Onward(s, Step(w, s, l)) && (!l.FindMissing? ==> NoNewStale(s, Step(w, s, l)))
  {}

  lemma {:induction false} Bystander(w: World, s: State, t: State, d: CheckId)
    requires Untouched(s, t, d) && CheckInv(w, s, d) && Onward(s, t)
    requires s.idx.Some? ==> s.idx.value < |s.handles|
    requires s.checks[d].Reopened? || s.checks[d].Swapping? ==> NoNewStale(s, t)
    ensures CheckInv(w, t, d)
  {}

  /** A new index is at least as new as anybody waiting to retry needs. */
  lemma {:induction false} InstallOther(w: World, s: State, c: CheckId, d: CheckId)
    requires Inv(w, s) && Enabled(w, s, Install(c)) && d in s.checks && d != c
    ensures d in Step(w, s, Install(c)).checks && CheckInv(w, Step(w, s, Install(c)), d)
  {
    assert CheckInv(w, s, d) && CheckInv(w, s, c);
  }

  lemma {:induction false} CloseClearOther(w: World, s: State, k: CloserId, d: CheckId)
    requires Inv(w, s) && Enabled(w, s, CloseClear(k)) && d in s.checks
    ensures CheckInv(w, Step(w, s, CloseClear(k)), d)
  {
    assert CheckInv(w, s, d);
  }

  /** What a step does to the other checks. */
  lemma {:induction false} StepOther(w: World, s: State, l: Label, d: CheckId)
    requires Inv(w, s) && Enabled(w, s, l) && d in s.checks && ActorOf(l) != Some(d)
    ensures d in Step(w, s, l).checks && CheckInv(w, Step(w, s, l), d)
  {
    assert CheckInv(w, s, d);
    if l.Install? {
      InstallOther(w, s, l.c, d);
    } else if l.CloseClear? {
      CloseClearOther(w, s, l.k, d);
    } else {
      StepUntouched(w, s, l, d);
      StepOnward(w, s, l);
      if l.FindMissing? {
        assert l.c in s.readers && !s.checks[d].Writing();
      }
      Bystander(w, s, Step(w, s, l), d);
    }
  }

  lemma {:induction false} StepShared(w: World, s: State, l: Label)
    requires Inv(w, s) && Enabled(w, s, l)
    ensures Shared(w, Step(w, s, l))
  {
    StepClosers(w, s, l);
    if ActorOf(l).None? {
      OtherLock(w, s, l);
      OtherHandles(w, s, l);
    } else if Reopening(l) {
      ReopenLock(w, s, l);
      ReopenHandles(w, s, l);
    } else {
      PassLock(w, s, l);
      PassHandles(w, s, l);
    }
  }

  /** Every step keeps the invariant. */
  lemma {:induction false} StepInv(w: World, s: State, l: Label)
    requires Inv(w, s) && Enabled(w, s, l)
    ensures Inv(w, Step(w, s, l))
  {
    StepShared(w, s, l);
    forall d | d in Step(w, s, l).checks ensures CheckInv(w, Step(w, s, l), d) {
      if ActorOf(l) != Some(d) {
        StepOther(w, s, l, d);
      } else if l.FindMissing? {
        StepMiss(w, s, d);
      } else if Reopening(l) {
        ReopenActor(w, s, l);
      } else {
        PassActor(w, s, l);
      }
    }
  }
}
