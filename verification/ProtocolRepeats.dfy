/** Exactly when a call can open a filter file twice: the run that does so, for any
    world in which an index update reselects a file. */
module ProtocolRepeats {
  import opened ByteStrings
  import opened Crlite
  import opened Wrappers
  import opened PassRules
  import opened Protocol
  import opened ProtocolSteps
  import opened ProtocolSafety
  import opened ProtocolOpens
  import opened Schedules

  // ----- Reading on -----

  /** `t` is `s` with check `c`, whose pass had just begun, moved on to `pos`. */
  ghost predicate Reading(w: World, s: State, t: State, c: CheckId, pos: nat)
    requires InPass(s, c)
  {
    && InPass(t, c) && t == s.(checks := s.checks[c := t.checks[c]], calls := s.calls[c := t.calls[c]])
    && t.checks[c].reopens == s.checks[c].reopens && t.checks[c].h == s.checks[c].h && t.checks[c].pos == pos
    && t.checks[c].pass.Continue? && Underway(w, c, PassVersion(s, c), pos, t.checks[c].pass)
    && (forall e | e in s.calls[c].opens :: e in t.calls[c].opens)
    && (forall n | n in w.plan(c, PassVersion(s, c))[..pos] :: FileOpen(n, PassVersion(s, c)) in t.calls[c].opens)
  }

  predicate AtStart(s: State, c: CheckId) {
    InPass(s, c) && s.checks[c].pos == 0 && s.checks[c].pass == Continue(START)
  }

  lemma {:induction false} VisitContinues(w: World, c: CheckId, n: Bytes, p: Progress)
    requires w.answer(c, n) != StatusRevoked
    ensures VisitName(true, w.Ask(c), n, p).Continue?
  {
    assert w.Ask(c)(n) == Says(w.answer(c, n));
  }

  lemma {:induction false} ReadOne(w: World, s: State, t: State, c: CheckId, pos: nat) returns (l: Label)
    requires InPass(s, c) && Reading(w, s, t, c, pos) && pos < |w.plan(c, PassVersion(s, c))|
    requires var n := w.plan(c, PassVersion(s, c))[pos]; n in s.files && w.answer(c, n) != StatusRevoked
    ensures Enabled(w, t, l) && Reading(w, s, Step(w, t, l), c, pos + 1)
  {
    var v := PassVersion(s, c);
    var plan := w.plan(c, v);
    assert plan[..pos + 1] == plan[..pos] + [plan[pos]];
    VisitContinues(w, c, plan[pos], t.checks[c].pass.p);
    VisitedUnderway(w, c, v, pos, t.checks[c].pass);
    SeenIsVisited(w, c, v, pos, t.checks[c].pass);
    l := if plan[pos] in t.checks[c].pass.p.seen then SkipSeen(c) else ReadFile(c);
  }

  /** With the files present and none of them revoking, a pass gets to `pos`. */
  lemma {:induction false} ReadOn(w: World, s: State, c: CheckId, pos: nat) returns (t: State)
    requires AtStart(s, c) && pos <= |w.plan(c, PassVersion(s, c))|
    requires NoneRevoked(w, c, w.plan(c, PassVersion(s, c))[..pos])
    requires forall n | n in w.plan(c, PassVersion(s, c))[..pos] :: n in s.files
    ensures Reaches(w, s, t) && Reading(w, s, t, c, pos)
  {
    if pos == 0 {
      t := s;
      ReachesSelf(w, s);
    } else {
      var plan := w.plan(c, PassVersion(s, c));
      assert plan[..pos] == plan[..pos - 1] + [plan[pos - 1]];
      assert plan[pos - 1] in plan[..pos];
      t := ReadOn(w, s, c, pos - 1);
      var l := ReadOne(w, s, t, c, pos - 1);
      ReachesStep(w, s, t, l);
      t := Step(w, t, l);
    }
  }

  lemma {:induction false} ReachesThrough(w: World, s: State, t: State, u: State)
    requires Reaches(w, s, t) && Reaches(w, t, u)
    ensures Reaches(w, s, u)
  {
    var a :| CanPerform(w, s, a) && Last(w, s, a) == t;
    var b :| CanPerform(w, t, b) && Last(w, t, b) == u;
    PerformBoth(w, s, a, b);
  }

  // ----- Updating and reopening -----

  lemma {:induction false} PublishTo(w: World, s: State, v: nat)
    requires s.cur <= v && forall u: nat | s.cur < u <= v :: w.named(u) <= s.files
    ensures Reaches(w, s, s.(cur := v))
    decreases v
  {
    if s.cur == v {
      assert s.(cur := v) == s;
      ReachesSelf(w, s);
    } else {
      PublishTo(w, s, v - 1);
      ReachesStep(w, s, s.(cur := v - 1), Publish);
    }
  }

  /** A check that found a file missing, alone with the only index opened so far. */
  predicate Alone(s: State, c: CheckId) {
    && At(s, c) && s.checks[c].Stale? && s.checks[c].reopens == 0 && s.checks[c].h == 0
    && Free(s) && s.idx == Some(0) && |s.handles| == 1
  }

  /** It has opened the visible index, and closed the old one. */
  predicate AboutToInstall(s: State, t: State, c: CheckId) {
    && At(t, c) && t.checks[c].Swapping? && t.checks[c].reopens == 0 && t.checks[c].next == 1
    && |t.handles| == 2 && t.handles[1].version == s.cur
    && t.files == s.files && t.calls == s.calls
  }

  lemma {:induction false} OpenVisible(w: World, s: State, c: CheckId) returns (t: State)
    requires Alone(s, c)
    ensures Reaches(w, s, t) && AboutToInstall(s, t, c)
  {
    ReachesSelf(w, s);
    ReachesStep(w, s, s, Lock(c));
    t := Step(w, s, Lock(c));
    assert t.checks[c] == Comparing(0, 0, s.checks[c].at);
    ReachesStep(w, s, t, OpenIndex(c));
    t := Step(w, t, OpenIndex(c));
    assert t.checks[c] == Reopened(0, 0, 1, s.checks[c].at);
    ReachesStep(w, s, t, CloseOld(c));
    t := Step(w, t, CloseOld(c));
  }

  lemma {:induction false} InstallAndRetry(w: World, s: State, u: State, c: CheckId) returns (t: State)
    requires AboutToInstall(s, u, c)
    ensures Reaches(w, u, t) && AtStart(t, c) && PassVersion(t, c) == s.cur
    ensures t.files == s.files && t.calls == s.calls
  {
    ReachesSelf(w, u);
    ReachesStep(w, u, u, Install(c));
    t := Step(w, u, Install(c));
    assert t.idx == Some(1) && t.checks[c].Waiting? && t.writer.None?;
    ReachesStep(w, u, t, Snapshot(c));
    t := Step(w, t, Snapshot(c));
  }

  /** It reopens the index and starts its next pass. */
  lemma {:induction false} ReopenAndRetry(w: World, s: State, c: CheckId) returns (t: State)
    requires Alone(s, c)
    ensures Reaches(w, s, t) && AtStart(t, c) && PassVersion(t, c) == s.cur
    ensures t.files == s.files && t.calls == s.calls
  {
    var u := OpenVisible(w, s, c);
    t := InstallAndRetry(w, s, u, c);
    ReachesThrough(w, s, u, t);
  }

  // ----- The run -----

  /** The files named by the versions from `lo` to `hi`. */
  function NamedBy(w: World, lo: nat, hi: nat): set<Bytes>
    requires lo <= hi
    decreases hi - lo
  {
    w.named(lo) + if lo == hi then {} else NamedBy(w, lo + 1, hi)
  }

  lemma {:induction false} NamedByAll(w: World, lo: nat, hi: nat, u: nat)
    requires lo <= u <= hi
    ensures w.named(u) <= NamedBy(w, lo, hi)
    decreases hi - lo
  {
    if lo < u {
      NamedByAll(w, lo + 1, hi, u);
    }
  }

  /** A Checker whose index, of version `v`, was superseded by version `u`, which does
      without the file `x`. */
  function Outdated(w: World, v: nat, u: nat, v': nat, x: Bytes): State
    requires v < u <= v'
  {
    State(u, NamedBy(w, v, v') - {x}, Some(0), [Handle(v, 0)], {}, None, map[], map[], map[])
  }

  /** Check `c`, begun on its own, in its first pass over version `v`. */
  predicate Begun(s: State, t: State, c: CheckId, v: nat) {
    && AtStart(t, c) && PassVersion(t, c) == v && t.checks[c].reopens == 0 && t.checks[c].h == 0
    && t.readers == {c} && t.writer.None? && t.idx == Some(0) && |t.handles| == 1
    && t.cur == s.cur && t.files == s.files
  }

  lemma {:induction false} BeginPass(w: World, c: CheckId, v: nat, u: nat, v': nat, x: Bytes) returns (t: State)
    requires v < u <= v'
    ensures Reaches(w, Outdated(w, v, u, v', x), t) && Begun(Outdated(w, v, u, v', x), t, c, v)
  {
    var s := Outdated(w, v, u, v', x);
    ReachesSelf(w, s);
    ReachesStep(w, s, s, Begin(c));
    t := Step(w, s, Begin(c));
    ReachesStep(w, s, t, Snapshot(c));
    t := Step(w, t, Snapshot(c));
  }

  lemma {:induction false} FirstPass(w: World, c: CheckId, v: nat, u: nat, v': nat, k: nat) returns (t: State)
    requires w.Valid() && v < u <= v' && Gets(w, c, v, k) && w.plan(c, v)[k] !in w.named(u)
    ensures var s := Outdated(w, v, u, v', w.plan(c, v)[k]);
            Reaches(w, s, t) && Alone(t, c) && t.cur == u && t.files == s.files
    ensures forall n | n in w.plan(c, v)[..k] :: FileOpen(n, v) in t.calls[c].opens
  {
    var x := w.plan(c, v)[k];
    var s := Outdated(w, v, u, v', x);
    var s1 := BeginPass(w, c, v, u, v', x);
    forall n | n in w.plan(c, v)[..k] ensures n in s1.files {
      assert n in w.plan(c, v) && n != x;
      NamedByAll(w, v, v', v);
    }
    var s2 := ReadOn(w, s1, c, k);
    ReachesThrough(w, s, s1, s2);
    FoundMissing(w, s1, s2, c, k);
    ReachesStep(w, s, s2, FindMissing(c));
    t := Step(w, s2, FindMissing(c));
  }

  lemma {:induction false} OutdatedInit(w: World, v: nat, u: nat, v': nat, x: Bytes)
    requires v < u <= v' && x !in w.named(u)
    ensures Init(w, Outdated(w, v, u, v', x))
  {
    NamedByAll(w, v, v', u);
  }

  lemma {:induction false} FoundMissing(w: World, s: State, t: State, c: CheckId, k: nat)
    requires InPass(s, c) && Reading(w, s, t, c, k) && Gets(w, c, PassVersion(s, c), k)
    requires w.plan(c, PassVersion(s, c))[k] !in s.files
    requires s.checks[c].reopens == 0 && s.checks[c].h == 0 && s.readers == {c} && s.writer.None?
    requires s.idx == Some(0) && |s.handles| == 1
    ensures Enabled(w, t, FindMissing(c))
    ensures var u := Step(w, t, FindMissing(c));
            Alone(u, c) && u.cur == s.cur && u.files == s.files && u.calls[c].opens == t.calls[c].opens
  {
    SeenIsVisited(w, c, PassVersion(s, c), k, t.checks[c].pass);
  }

  lemma {:induction false} SecondPass(w: World, s: State, c: CheckId, k: nat) returns (t: State)
    requires AtStart(s, c) && Gets(w, c, PassVersion(s, c), k) && w.Valid() && w.named(PassVersion(s, c)) <= s.files
    ensures Reaches(w, s, t) && At(t, c)
    ensures FileOpen(w.plan(c, PassVersion(s, c))[k], PassVersion(s, c)) in t.calls[c].opens
    ensures forall e | e in s.calls[c].opens :: e in t.calls[c].opens
  {
    var v := PassVersion(s, c);
    forall n | n in w.plan(c, v)[..k] ensures n in s.files {
      assert n in w.plan(c, v);
    }
    var u := ReadOn(w, s, c, k);
    SeenIsVisited(w, c, v, k, u.checks[c].pass);
    assert w.plan(c, v)[k] in w.plan(c, v);
    ReachesStep(w, s, u, ReadFile(c));
    t := Step(w, u, ReadFile(c));
  }

  /** Between the passes the cache moves on to version `v'`, the missing file restored. */
  lemma {:induction false} Updated(w: World, s: State, c: CheckId, x: Bytes, v: nat, v': nat) returns (t: State)
    requires Alone(s, c) && v <= s.cur <= v' && NamedBy(w, v, v') <= s.files + {x}
    ensures Reaches(w, s, t) && Alone(t, c) && t.cur == v' && t.calls == s.calls && w.named(v') <= t.files
  {
    ReachesSelf(w, s);
    ReachesStep(w, s, s, AddFile(x));
    var s1 := Step(w, s, AddFile(x));
    forall u: nat | s1.cur < u <= v' ensures w.named(u) <= s1.files {
      NamedByAll(w, v, v', u);
    }
    NamedByAll(w, v, v', v');
    PublishTo(w, s1, v');
    t := s1.(cur := v');
    ReachesThrough(w, s, s1, t);
  }

  lemma {:induction false} CountAtLeast(opens: seq<FileOpen>, n: Bytes, v: nat, v': nat)
    requires FileOpen(n, v) in opens
    ensures Count(opens, n) >= 1
    ensures FileOpen(n, v') in opens && v != v' ==> Count(opens, n) >= 2
  {
    var front, last := opens[..|opens| - 1], opens[|opens| - 1];
    assert opens == front + [last];
    if FileOpen(n, v) in front {
      CountAtLeast(front, n, v, v');
    } else if FileOpen(n, v') in front {
      CountAtLeast(front, n, v', v);
    }
  }

  /** A world that reselects a file has a contract-obeying run in which one call
      opens it twice. */
  lemma {:induction false} ReselectedOpensTwice(w: World, c: CheckId, n: Bytes, v: nat, v': nat) returns (r: Run)
    requires w.Valid() && Reselected(w, c, n, v, v')
    ensures r.Of(w) && OpenedTwice(r, |r.labels|, c, n)
  {
    var k: nat, u: nat :| v < u <= v' && Gets(w, c, v, k) && n in w.plan(c, v)[..k] && w.plan(c, v)[k] !in w.named(u);
    var k': nat :| Gets(w, c, v', k') && w.plan(c, v')[k'] == n;
    var x := w.plan(c, v)[k];
    var s := Outdated(w, v, u, v', x);
    var t1 := FirstPass(w, c, v, u, v', k);
    var t2 := Updated(w, t1, c, x, v, v');
    ReachesThrough(w, s, t1, t2);
    var t3 := ReopenAndRetry(w, t2, c);
    ReachesThrough(w, s, t2, t3);
    var t4 := SecondPass(w, t3, c, k');
    ReachesThrough(w, s, t3, t4);
    CountAtLeast(t4.calls[c].opens, n, v, v');
    OutdatedInit(w, v, u, v', x);
    r := ReachedInRun(w, s, t4);
  }

  predicate OpenedTwice(r: Run, i: nat, c: CheckId, n: Bytes) {
    i < |r.states| && c in r.states[i].calls && Count(r.states[i].calls[c].opens, n) >= 2
  }

  /** In some run a call of check `c` opens a file twice if and only if an index update
      reselects a file for it: the call can open the file on one version, get to a
      file that an update takes out of use, and come to the first file again on a
      version no older than that update. */
  lemma {:induction false} OpenedTwiceIffReselected(w: World, c: CheckId, n: Bytes)
    requires w.Valid()
    ensures (exists r: Run, i: nat :: r.Of(w) && OpenedTwice(r, i, c, n))
       <==> (exists v: nat, v': nat :: Reselected(w, c, n, v, v'))
  {
    if r: Run, i: nat :| r.Of(w) && OpenedTwice(r, i, c, n) {
      TwiceMeansReselected(w, r, i, c, n);
    }
    if v: nat, v': nat :| Reselected(w, c, n, v, v') {
      var r := ReselectedOpensTwice(w, c, n, v, v');
      assert OpenedTwice(r, |r.labels|, c, n);
    }
  }
}
