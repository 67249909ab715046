/** How often one call opens a filter file, over all its passes. */
module ProtocolOpens {
  import opened ByteStrings
  import opened Crlite
  import opened Wrappers
  import opened PassRules
  import opened Verdicts
  import opened Protocol
  import opened ProtocolSteps
  import opened ProtocolSafety

  // ----- What the index versions select -----

  ghost predicate NoneRevoked(w: World, c: CheckId, names: seq<Bytes>) {
    forall n | n in names :: w.answer(c, n) != StatusRevoked
  }

  /** A pass over version `v`, all files present, gets as far as position `k` of its
      plan, and the file there is new to it. */
  ghost predicate Gets(w: World, c: CheckId, v: nat, k: nat) {
    && k < |w.plan(c, v)| && w.plan(c, v)[k] !in w.plan(c, v)[..k]
    && NoneRevoked(w, c, w.plan(c, v)[..k])
  }

  ghost predicate Selected(w: World, c: CheckId, n: Bytes, v: nat) {
    exists k: nat :: Gets(w, c, v, k) && w.plan(c, v)[k] == n
  }

  /** A pass over version `v` opens `n` before it gets to a file that an update up to
      version `limit` takes out of use, and so may find missing. */
  ghost predicate Abandoned(w: World, c: CheckId, n: Bytes, v: nat, limit: nat) {
    exists k: nat, u: nat | v < u <= limit :: Gets(w, c, v, k) && n in w.plan(c, v)[..k] && w.plan(c, v)[k] !in w.named(u)
  }

  /** After opening `n` on version `v` a call may open it again on version `v'`. */
  ghost predicate Reselected(w: World, c: CheckId, n: Bytes, v: nat, v': nat) {
    v < v' && Abandoned(w, c, n, v, v') && Selected(w, c, n, v')
  }

  lemma {:induction false} AbandonedLater(w: World, c: CheckId, n: Bytes, v: nat, limit: nat, later: nat)
    requires Abandoned(w, c, n, v, limit) && limit <= later
    ensures Abandoned(w, c, n, v, later)
  {
    var k: nat, u: nat :| v < u <= limit && Gets(w, c, v, k) && n in w.plan(c, v)[..k] && w.plan(c, v)[k] !in w.named(u);
  }

  // ----- The log of a call -----

  function Count(opens: seq<FileOpen>, n: Bytes): nat {
    if opens == [] then 0 else
      Count(opens[..|opens| - 1], n) + if opens[|opens| - 1].name == n then 1 else 0
  }

  ghost predicate AtMost(opens: seq<FileOpen>, bound: nat) {
    forall n: Bytes :: Count(opens, n) <= bound
  }

  /** Whatever the log holds twice was reselected. */
  ghost predicate Repeats(w: World, c: CheckId, opens: seq<FileOpen>) {
    forall j, k | 0 <= j < k < |opens| && opens[j].name == opens[k].name ::
      Reselected(w, c, opens[j].name, opens[j].version, opens[k].version)
  }

  /** All of the log stems from passes given up before version `limit`. */
  ghost predicate Past(w: World, c: CheckId, opens: seq<FileOpen>, limit: nat) {
    forall e | e in opens :: e.version < limit && Abandoned(w, c, e.name, e.version, limit)
  }

  /** All of the log stems from passes given up earlier, or from the present pass,
      which visited `visited` of version `v`. */
  ghost predicate PastOrPresent(w: World, c: CheckId, opens: seq<FileOpen>, v: nat, visited: seq<Bytes>) {
    forall e | e in opens ::
      if e.version == v then e.name in visited else e.version < v && Abandoned(w, c, e.name, e.version, v)
  }

  ghost predicate AtMostPlus(opens: seq<FileOpen>, bound: nat, visited: seq<Bytes>) {
    forall n: Bytes :: Count(opens, n) <= bound + if n in visited then 1 else 0
  }

  ghost predicate LogInv(w: World, s: State, c: CheckId)
    requires At(s, c)
  {
    var call := s.calls[c];
    && Repeats(w, c, call.opens)
    && match s.checks[c]
       case Waiting(r, since) => Settled(w, c, call, r, since)
       case Passing(r, h, pos, pass) => h < |s.handles| && InProgress(w, c, call, r, s.handles[h].version, pos)
       case Stale(r, h, at) => Settled(w, c, call, r + 1, at)
       case Comparing(r, h, at) => Settled(w, c, call, r + 1, at)
       case Reopened(r, prev, next, at) => Settled(w, c, call, r + 1, at)
       case Swapping(r, prev, next, at) => Settled(w, c, call, r + 1, at)
       case Finished(r, updates) => AtMost(call.opens, call.misses + 1) && AtMost(call.opens, MAX_REOPENS + 1)
  }

  /** Between passes, after `r` of them. */
  ghost predicate Settled(w: World, c: CheckId, call: Call, r: nat, limit: nat) {
    call.misses == r && Past(w, c, call.opens, limit) && AtMost(call.opens, r)
  }

  /** In a pass over version `v`, after `r` others. */
  ghost predicate InProgress(w: World, c: CheckId, call: Call, r: nat, v: nat, pos: nat) {
    && call.misses == r && pos <= |w.plan(c, v)|
    && PastOrPresent(w, c, call.opens, v, w.plan(c, v)[..pos])
    && AtMostPlus(call.opens, r, w.plan(c, v)[..pos])
  }

  // ----- What each step does to the log -----

  /** A pass that goes on has seen exactly the files it visited, none of them revoking. */
  lemma {:induction false} SeenIsVisited(w: World, c: CheckId, v: nat, pos: nat, pass: PassState)
    requires Underway(w, c, v, pos, pass) && pass.Continue?
    ensures forall n :: n in pass.p.seen <==> n in w.plan(c, v)[..pos]
    ensures NoneRevoked(w, c, w.plan(c, v)[..pos])
  {
    var visited := w.plan(c, v)[..pos];
    TallyNames(true, w.Ask(c), {}, visited, START);
    assert {} + ToSet(visited) == ToSet(visited);
    forall n ensures n in pass.p.seen <==> n in visited {
      assert n in ToSet(pass.p.seen) <==> n in ToSet(visited);
    }
    forall n | n in visited ensures w.answer(c, n) != StatusRevoked {
      assert n in ToSet(visited) && w.Ask(c)(n) == Says(w.answer(c, n));
    }
  }

  lemma {:induction false} StartOfPass(w: World, c: CheckId, call: Call, r: nat, limit: nat, v: nat)
    requires Settled(w, c, call, r, limit) && limit <= v
    ensures InProgress(w, c, call, r, v, 0)
  {
    forall e | e in call.opens ensures Abandoned(w, c, e.name, e.version, v) {
      AbandonedLater(w, c, e.name, e.version, limit, v);
    }
  }

  lemma {:induction false} SkippedOne(w: World, c: CheckId, call: Call, r: nat, v: nat, pos: nat)
    requires InProgress(w, c, call, r, v, pos) && pos < |w.plan(c, v)|
    ensures InProgress(w, c, call, r, v, pos + 1)
  {
    var plan := w.plan(c, v);
    assert plan[..pos + 1] == plan[..pos] + [plan[pos]];
  }

  lemma {:induction false} CountNext(opens: seq<FileOpen>, e: FileOpen, n: Bytes)
    ensures Count(opens + [e], n) == Count(opens, n) + if e.name == n then 1 else 0
  {
    assert (opens + [e])[..|opens|] == opens;
  }

  /** Opening a file that is new to the pass. */
  lemma {:induction false} OpenedOne(w: World, c: CheckId, call: Call, r: nat, v: nat, pos: nat)
    requires InProgress(w, c, call, r, v, pos) && Gets(w, c, v, pos) && Repeats(w, c, call.opens)
    ensures var e := FileOpen(w.plan(c, v)[pos], v);
            && Repeats(w, c, call.opens + [e])
            && InProgress(w, c, call.(opens := call.opens + [e]), r, v, pos + 1)
  {
    var plan := w.plan(c, v);
    var e := FileOpen(plan[pos], v);
    var opens := call.opens + [e];
    assert plan[..pos + 1] == plan[..pos] + [plan[pos]];
    forall n: Bytes ensures Count(opens, n) <= r + if n in plan[..pos + 1] then 1 else 0 {
      CountNext(call.opens, e, n);
    }
    assert Selected(w, c, e.name, v);
    forall j, k | 0 <= j < k < |opens| && opens[j].name == opens[k].name
      ensures Reselected(w, c, opens[j].name, opens[j].version, opens[k].version)
    {
      assert opens[j] == call.opens[j] && opens[j] in call.opens;
      if k < |call.opens| {
        assert opens[k] == call.opens[k];
      }
    }
  }

  /** A pass given up at version `at`, for want of the file at `pos`. */
  lemma {:induction false} GivenUp(w: World, c: CheckId, call: Call, r: nat, v: nat, pos: nat, at: nat)
    requires InProgress(w, c, call, r, v, pos) && Gets(w, c, v, pos) && v < at && w.plan(c, v)[pos] !in w.named(at)
    ensures Settled(w, c, call.(misses := r + 1), r + 1, at)
  {
    forall e | e in call.opens ensures e.version < at && Abandoned(w, c, e.name, e.version, at) {
      if e.version < v {
        AbandonedLater(w, c, e.name, e.version, v, at);
      }
    }
  }

  lemma {:induction false} LogOfOther(w: World, s: State, t: State, d: CheckId)
    requires At(s, d) && LogInv(w, s, d) && Untouched(s, t, d)
    requires |t.handles| >= |s.handles| && forall h | 0 <= h < |s.handles| :: t.handles[h].version == s.handles[h].version
    ensures LogInv(w, t, d)
  {}

  lemma {:induction false} LogOfReader(w: World, s: State, l: Label)
    requires Inv(w, s) && Enabled(w, s, l) && (l.SkipSeen? || l.ReadFile? || l.BadFile?)
    requires At(s, l.c) && LogInv(w, s, l.c)
    ensures At(Step(w, s, l), l.c) && LogInv(w, Step(w, s, l), l.c)
  {
    var c := l.c;
    var p, v := s.checks[c], PassVersion(s, c);
    assert CheckInv(w, s, c);
    SeenIsVisited(w, c, v, p.pos, p.pass);
    if l.SkipSeen? {
      SkippedOne(w, c, s.calls[c], p.reopens, v, p.pos);
    } else {
      OpenedOne(w, c, s.calls[c], p.reopens, v, p.pos);
    }
  }

  lemma {:induction false} LogOfMisser(w: World, s: State, c: CheckId)
    requires Inv(w, s) && Enabled(w, s, FindMissing(c)) && At(s, c) && LogInv(w, s, c)
    ensures At(Step(w, s, FindMissing(c)), c) && LogInv(w, Step(w, s, FindMissing(c)), c)
  {
    var p, v := s.checks[c], PassVersion(s, c);
    assert CheckInv(w, s, c);
    SeenIsVisited(w, c, v, p.pos, p.pass);
    StepMiss(w, s, c);
    GivenUp(w, c, s.calls[c], p.reopens, v, p.pos, s.cur);
  }

  lemma {:induction false} LogOfRest(w: World, s: State, l: Label)
    requires Inv(w, s) && Enabled(w, s, l) && ActorOf(l).Some? && !l.Begin?
    requires !(l.SkipSeen? || l.ReadFile? || l.BadFile? || l.FindMissing?)
    requires At(s, l.c) && LogInv(w, s, l.c)
    ensures At(Step(w, s, l), l.c) && LogInv(w, Step(w, s, l), l.c)
  {
    assert CheckInv(w, s, l.c);
    if l.Snapshot? && s.idx.Some? {
      StartOfPass(w, l.c, s.calls[l.c], s.checks[l.c].reopens, s.checks[l.c].since, s.handles[s.idx.value].version);
    }
  }

  ghost predicate AllLogs(w: World, s: State) {
    forall c | c in s.checks :: At(s, c) && LogInv(w, s, c)
  }

  lemma {:induction false} HandlesKept(w: World, s: State, l: Label)
    requires Enabled(w, s, l)
    ensures var t := Step(w, s, l);
            |t.handles| >= |s.handles| && forall h | 0 <= h < |s.handles| :: t.handles[h].version == s.handles[h].version
  {}

  lemma {:induction false} StepLog(w: World, s: State, l: Label, d: CheckId)
    requires Inv(w, s) && AllLogs(w, s) && Enabled(w, s, l) && d in Step(w, s, l).checks
    ensures At(Step(w, s, l), d) && LogInv(w, Step(w, s, l), d)
  {
    if ActorOf(l) != Some(d) {
      assert d in s.checks;
      StepUntouched(w, s, l, d);
      HandlesKept(w, s, l);
      LogOfOther(w, s, Step(w, s, l), d);
    } else if l.SkipSeen? || l.ReadFile? || l.BadFile? {
      LogOfReader(w, s, l);
    } else if l.FindMissing? {
      LogOfMisser(w, s, d);
    } else if !l.Begin? {
      LogOfRest(w, s, l);
    }
  }

  lemma {:induction false} RunLogs(w: World, r: Run, i: nat)
    requires r.Of(w) && i < |r.states|
    ensures AllLogs(w, r.states[i])
  {
    if i > 0 {
      RunLogs(w, r, i - 1);
      RunInv(w, r, i - 1);
      forall d | d in r.states[i].checks ensures At(r.states[i], d) && LogInv(w, r.states[i], d) {
        StepLog(w, r.states[i - 1], r.labels[i - 1], d);
      }
    }
  }

  // ----- How often a call opens a file -----

  /** How often the check found a file missing. */
  function Misses(labels: seq<Label>, c: CheckId): nat {
    if labels == [] then 0 else
      Misses(labels[..|labels| - 1], c) + if labels[|labels| - 1] == FindMissing(c) then 1 else 0
  }

  /** What the call itself records of that; `MissesRecorded` says it is the same. */
  function MissesOf(s: State, c: CheckId): nat {
    if c in s.calls then s.calls[c].misses else 0
  }

  lemma {:induction false} OwnMisses(w: World, s: State, l: Label)
    requires Enabled(w, s, l) && ActorOf(l).Some? && (l.c in s.calls <==> l.c in s.checks)
    ensures MissesOf(Step(w, s, l), l.c) == MissesOf(s, l.c) + if l.FindMissing? then 1 else 0
    ensures At(Step(w, s, l), l.c)
  {}

  lemma {:induction false} OthersMisses(w: World, s: State, l: Label, c: CheckId)
    requires Enabled(w, s, l) && ActorOf(l) != Some(c)
    ensures MissesOf(Step(w, s, l), c) == MissesOf(s, c)
    ensures (c in Step(w, s, l).calls <==> c in s.calls) && (c in Step(w, s, l).checks <==> c in s.checks)
  {}

  lemma {:induction false} MissesRecorded(w: World, r: Run, i: nat, c: CheckId)
    requires r.Of(w) && i < |r.states|
    ensures MissesOf(r.states[i], c) == Misses(r.labels[..i], c)
    ensures c in r.states[i].calls <==> c in r.states[i].checks
  {
    if i > 0 {
      MissesRecorded(w, r, i - 1, c);
      if ActorOf(r.labels[i - 1]) == Some(c) {
        OwnMisses(w, r.states[i - 1], r.labels[i - 1]);
      } else {
        OthersMisses(w, r.states[i - 1], r.labels[i - 1], c);
      }
      assert r.labels[..i][..i - 1] == r.labels[..i - 1];
    }
  }

  lemma {:induction false} CountWithin(w: World, s: State, c: CheckId, n: Bytes)
    requires Inv(w, s) && c in s.checks && At(s, c) && LogInv(w, s, c)
    ensures Count(s.calls[c].opens, n) <= 1 + s.calls[c].misses
    ensures Count(s.calls[c].opens, n) <= 1 + MAX_REOPENS
  {
    assert CheckInv(w, s, c);
  }

  /** In every run a call opens a file at most once more than it found one missing:
      once if it found none missing, and never more than three times. */
  lemma {:induction false} OpensPerCall(w: World, r: Run, i: nat, c: CheckId, n: Bytes)
    requires r.Of(w) && i < |r.states| && c in r.states[i].calls
    ensures Count(r.states[i].calls[c].opens, n) <= 1 + Misses(r.labels[..i], c)
    ensures Count(r.states[i].calls[c].opens, n) <= 1 + MAX_REOPENS
  {
    RunInv(w, r, i);
    RunLogs(w, r, i);
    MissesRecorded(w, r, i, c);
    CountWithin(w, r.states[i], c, n);
  }

  lemma {:induction false} CountedTwice(opens: seq<FileOpen>, n: Bytes)
    requires Count(opens, n) >= 1
    ensures exists j | 0 <= j < |opens| :: opens[j].name == n
    ensures Count(opens, n) >= 2 ==> exists j, k | 0 <= j < k < |opens| :: opens[j].name == n && opens[k].name == n
  {
    var front := opens[..|opens| - 1];
    if Count(front, n) >= 1 {
      CountedTwice(front, n);
      var j :| 0 <= j < |front| && front[j].name == n;
      assert opens[j].name == n;
      if Count(front, n) >= 2 {
        var j, k :| 0 <= j < k < |front| && front[j].name == n && front[k].name == n;
        assert opens[j].name == n && opens[k].name == n;
      }
    }
    if opens[|opens| - 1].name == n && Count(front, n) >= 1 {
      var j :| 0 <= j < |front| && front[j].name == n;
      assert opens[j].name == n && opens[|opens| - 1].name == n;
    }
  }

  /** A call that opened a file twice worked on two versions between which the file
      was reselected. */
  lemma {:induction false} TwiceMeansReselected(w: World, r: Run, i: nat, c: CheckId, n: Bytes)
    requires r.Of(w) && i < |r.states| && c in r.states[i].calls && Count(r.states[i].calls[c].opens, n) >= 2
    ensures exists v, v' :: Reselected(w, c, n, v, v')
  {
    RunLogs(w, r, i);
    MissesRecorded(w, r, i, c);
    var opens := r.states[i].calls[c].opens;
    assert Repeats(w, c, opens);
    CountedTwice(opens, n);
    var j, k :| 0 <= j < k < |opens| && opens[j].name == n && opens[k].name == n;
    assert Reselected(w, c, n, opens[j].version, opens[k].version);
  }

  lemma {:induction false} StepGivesUp(w: World, s: State, l: Label, c: CheckId)
    requires Inv(w, s) && Enabled(w, s, l) && At(s, c) && LogInv(w, s, c) && !s.checks[c].Finished?
    requires c in Step(w, s, l).checks && Step(w, s, l).checks[c].Finished? && Step(w, s, l).checks[c].result.MissingFile?
    ensures MissesOf(Step(w, s, l), c) == 1 + MAX_REOPENS
  {
    assert CheckInv(w, s, c);
    StepEnds(w, s, l, c);
  }

  /** A call gives up on missing files only when it has found one missing in its first
      pass and in each of its retries. */
  lemma {:induction false} GivesUpAfterRetries(w: World, r: Run, c: CheckId, i: nat, j: nat)
    requires r.Of(w) && ReturnsAt(r, c, i, j) && r.states[j + 1].checks[c].result.MissingFile?
    ensures MissesOf(r.states[j + 1], c) == 1 + MAX_REOPENS
  {
    RunInv(w, r, j);
    RunLogs(w, r, j);
    assert Enabled(w, r.states[j], r.labels[j]) && r.states[j + 1] == Step(w, r.states[j], r.labels[j]);
    StepGivesUp(w, r.states[j], r.labels[j], c);
  }
}
