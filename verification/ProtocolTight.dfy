/** The bounds are tight: a run in which exactly two cache updates, made visible at
    the wrong moments, leave a check with a missing-file error, after it has opened
    one and the same file three times. */
module ProtocolTight {
  import opened ByteStrings
  import opened Crlite
  import opened Wrappers
  import opened PassRules
  import opened Protocol
  import opened ProtocolSafety
  import opened ProtocolOpens
  import opened Schedules

  /** A file that every version of this world names, and one of version `v`'s own.
      Both are selected for every check, in this order, and neither revokes. */
  const SHARED: Bytes := [1]

  function OwnFile(v: nat): (n: Bytes)
    ensures |n| == v && n != SHARED
  {
    var n := seq(v, _ => 0);
    assert v == 1 ==> n[0] != SHARED[0];
    n
  }

  function OwnFiles(): World {
    World((v: nat) => {SHARED, OwnFile(v)}, (c: CheckId, v: nat) => [SHARED, OwnFile(v)], (c: CheckId, n: Bytes) => StatusGood)
  }

  /** The shared file, opened on each of the versions below `r`. */
  function Opens(r: nat): seq<FileOpen> {
    seq(r, v requires 0 <= v => FileOpen(SHARED, v))
  }

  predicate Visible(s: State, v: nat) {
    s.cur == v && s.files == {SHARED, OwnFile(v)} && s.readers == {}
  }

  predicate Installed(s: State, v: nat) {
    s.idx == Some(v) && |s.handles| == v + 1 && s.handles[v].version == v
  }

  /** Check 0, begun when version 1 was visible, is about to take its snapshot after
      `r` reopens; version `r` is installed, version `r + 1` is visible and the
      own file of version `r` is gone. */
  predicate AboutToMiss(s: State, r: nat) {
    && Visible(s, r + 1) && Installed(s, r) && s.writer.None?
    && s.checks == map[0 := Waiting(r, r)] && s.calls == map[0 := Call(1, r, Opens(r))]
  }

  predicate HoldingLock(s: State, r: nat) {
    && Visible(s, r + 1) && Installed(s, r) && s.writer == Some(ACheck(0))
    && s.checks == map[0 := Comparing(r, r, r + 1)] && s.calls == map[0 := Call(1, r + 1, Opens(r + 1))]
  }

  predicate Retrying(s: State, r: nat) {
    && Visible(s, r + 1) && Installed(s, r + 1) && s.writer.None?
    && s.checks == map[0 := Waiting(r + 1, r + 1)] && s.calls == map[0 := Call(1, r + 1, Opens(r + 1))]
  }

  const PASS := [Snapshot(0), ReadFile(0), FindMissing(0)]
  const REOPEN := [OpenIndex(0), CloseOld(0), Install(0)]

  /** What a pass has seen once it has read the shared file. */
  const SHARED_READ := Continue(Progress([SHARED], true, 1, 0))

  /** Check 0 is in its pass over version `r`, at position `pos`. */
  predicate InRound(s: State, r: nat, pos: nat, pass: PassState, opens: seq<FileOpen>) {
    && s.cur == r + 1 && s.files == {SHARED, OwnFile(r + 1)} && s.readers == {0}
    && Installed(s, r) && s.writer.None?
    && s.checks == map[0 := Passing(r, r, pos, pass)] && s.calls == map[0 := Call(1, r, opens)]
  }

  lemma {:induction false} TakeSnapshot(s: State, r: nat)
    requires AboutToMiss(s, r)
    ensures Enabled(OwnFiles(), s, Snapshot(0))
    ensures InRound(Step(OwnFiles(), s, Snapshot(0)), r, 0, Continue(START), Opens(r))
  {}

  lemma {:induction false} ReadShared(s: State, r: nat)
    requires InRound(s, r, 0, Continue(START), Opens(r))
    ensures Enabled(OwnFiles(), s, ReadFile(0))
    ensures InRound(Step(OwnFiles(), s, ReadFile(0)), r, 1, SHARED_READ, Opens(r + 1))
  {
    var w := OwnFiles();
    assert w.plan(0, r)[0] == SHARED && w.Ask(0)(SHARED) == Says(StatusGood);
    assert VisitName(true, w.Ask(0), SHARED, START) == SHARED_READ;
    assert Opens(r + 1) == Opens(r) + [FileOpen(SHARED, r)];
  }

  lemma {:induction false} MissOwn(s: State, r: nat)
    requires InRound(s, r, 1, SHARED_READ, Opens(r + 1)) && r <= 2
    ensures Enabled(OwnFiles(), s, FindMissing(0)) && GivenUpOn(Step(OwnFiles(), s, FindMissing(0)), r)
  {
    assert OwnFiles().plan(0, r)[1] == OwnFile(r) && OwnFile(r) != OwnFile(r + 1);
  }

  predicate GivenUpOn(s: State, r: nat) {
    && Visible(s, r + 1) && Installed(s, r) && s.writer.None?
    && s.checks == map[0 := if r < 2 then Stale(r, r, r + 1) else Finished(MissingFile, 2)]
    && s.calls == map[0 := Call(1, r + 1, Opens(r + 1))]
  }

  /** A pass that reads the shared file and misses the other one. */
  lemma {:induction false} Miss(s: State, r: nat)
    requires AboutToMiss(s, r) && r <= 2
    ensures CanPerform(OwnFiles(), s, PASS) && GivenUpOn(Last(OwnFiles(), s, PASS), r)
  {
    var w := OwnFiles();
    TakeSnapshot(s, r);
    var s1 := Step(w, s, Snapshot(0));
    ReadShared(s1, r);
    MissOwn(Step(w, s1, ReadFile(0)), r);
    PerformThree(w, s, Snapshot(0), ReadFile(0), FindMissing(0));
  }

  lemma {:induction false} MissAndLock(s: State, r: nat)
    requires AboutToMiss(s, r) && r < 2
    ensures CanPerform(OwnFiles(), s, PASS + [Lock(0)]) && HoldingLock(Last(OwnFiles(), s, PASS + [Lock(0)]), r)
  {
    Miss(s, r);
    PerformNext(OwnFiles(), s, PASS, Lock(0));
  }

  lemma {:induction false} Reopen(s: State, r: nat)
    requires HoldingLock(s, r)
    ensures CanPerform(OwnFiles(), s, REOPEN) && Retrying(Last(OwnFiles(), s, REOPEN), r)
  {
    PerformThree(OwnFiles(), s, OpenIndex(0), CloseOld(0), Install(0));
  }

  function Update(v: nat): seq<Label> {
    [AddFile(OwnFile(v + 1)), Publish, RemoveFile(OwnFile(v))]
  }

  lemma {:induction false} UpdatePerformed(s: State, v: nat)
    requires Visible(s, v)
    ensures CanPerform(OwnFiles(), s, Update(v))
    ensures Last(OwnFiles(), s, Update(v)) == s.(cur := v + 1, files := {SHARED, OwnFile(v + 1)})
  {
    assert OwnFile(v) != OwnFile(v + 1);
    PerformThree(OwnFiles(), s, AddFile(OwnFile(v + 1)), Publish, RemoveFile(OwnFile(v)));
  }

  /** A failed pass, a reopen, and another update. */
  function Round(r: nat): seq<Label> {
    PASS + [Lock(0)] + REOPEN + Update(r + 1)
  }

  lemma {:induction false} RoundPerformed(s: State, r: nat)
    requires AboutToMiss(s, r) && r < 2
    ensures CanPerform(OwnFiles(), s, Round(r)) && AboutToMiss(Last(OwnFiles(), s, Round(r)), r + 1)
  {
    var w, a := OwnFiles(), PASS + [Lock(0)];
    MissAndLock(s, r);
    Reopen(Last(w, s, a), r);
    PerformBoth(w, s, a, REOPEN);
    UpdatePerformed(Last(w, s, a + REOPEN), r + 1);
    PerformBoth(w, s, a + REOPEN, Update(r + 1));
  }

  function Start(): State {
    State(0, {SHARED, OwnFile(0)}, Some(0), [Handle(0, 0)], {}, None, map[], map[], map[])
  }

  lemma {:induction false} Outset()
    ensures CanPerform(OwnFiles(), Start(), Update(0) + [Begin(0)])
    ensures AboutToMiss(Last(OwnFiles(), Start(), Update(0) + [Begin(0)]), 0)
  {
    UpdatePerformed(Start(), 0);
    PerformNext(OwnFiles(), Start(), Update(0), Begin(0));
    assert Opens(0) == [];
  }

  function Schedule(): seq<Label> {
    Update(0) + [Begin(0)] + Round(0) + Round(1) + PASS
  }

  /** Two updates during a check can make it fail, and make it open a file three
      times: a contract-obeying run that ends with a missing-file error after
      exactly two of them. */
  lemma {:induction false} TwoUpdatesSuffice()
    ensures CanPerform(OwnFiles(), Start(), Schedule())
    ensures Run(Trace(OwnFiles(), Start(), Schedule()), Schedule()).Of(OwnFiles())
    ensures var t := Last(OwnFiles(), Start(), Schedule());
            && t.checks == map[0 := Finished(MissingFile, 2)]
            && 0 in t.calls && Count(t.calls[0].opens, SHARED) == 1 + MAX_REOPENS
  {
    var w, s := OwnFiles(), Start();
    var p0 := Update(0) + [Begin(0)];
    var p1 := p0 + Round(0);
    var p2 := p1 + Round(1);
    Outset();
    RoundPerformed(Last(w, s, p0), 0);
    PerformBoth(w, s, p0, Round(0));
    RoundPerformed(Last(w, s, p1), 1);
    PerformBoth(w, s, p1, Round(1));
    Miss(Last(w, s, p2), 2);
    PerformBoth(w, s, p2, PASS);
    TraceIsRun(w, s, Schedule());
    CountOpens(3);
  }

  lemma {:induction false} CountOpens(r: nat)
    ensures Count(Opens(r), SHARED) == r
  {
    if r > 0 {
      CountOpens(r - 1);
      assert Opens(r)[..r - 1] == Opens(r - 1);
    }
  }
}
