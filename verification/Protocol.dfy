/** The Checker under concurrency: checks snapshot and use the index under a read
    lock, a check that finds a file missing replaces the index under the write
    lock, `Close` releases it, and meanwhile somebody else updates the cache.
    Every step below is one the scheduler can interleave with all the others. */
module Protocol {
  import opened ByteStrings
  import opened Crlite
  import opened Wrappers
  import opened PassRules

  type CheckId = nat
  type CloserId = nat
  type HandleId = nat

  /** The retry bound, `maxIndexReopens`. */
  const MAX_REOPENS := 2

  /** What the cache prescribes: the files each index version names; the files a
      version selects for a check, in the order its lookups yield them; and what a
      file says of a check, which never changes: a file is replaced, not edited. */
  datatype World = World(
    named: nat -> set<Bytes>, plan: (CheckId, nat) -> seq<Bytes>, answer: (CheckId, Bytes) -> Status)
  {
    ghost predicate Valid() {
      forall c: CheckId, v: nat, n: Bytes | n in plan(c, v) :: n in named(v)
    }

    function Ask(c: CheckId): Asking {
      (n: Bytes) => Says(answer(c, n))
    }
  }

  /** An open of the index file: the version it sees, and how often it was closed. */
  datatype Handle = Handle(version: nat, closes: nat)

  datatype Result =
    | Answered(version: nat, verdict: PassResult)
    | MissingFile
    | CheckerClosed
    | ReopenFailed
    | OtherError

  /** Program counters of a check.  A pass stands at position `pos` of its plan.
      `at` and `since` remember which version was visible when a file was last found
      missing. */
  datatype CheckState =
    | Waiting(reopens: nat, since: nat)
    | Passing(reopens: nat, h: HandleId, pos: nat, pass: PassState)
    | Stale(reopens: nat, h: HandleId, at: nat)
    | Comparing(reopens: nat, h: HandleId, at: nat)
    | Reopened(reopens: nat, prev: HandleId, next: HandleId, at: nat)
    | Swapping(reopens: nat, prev: HandleId, next: HandleId, at: nat)
    | Finished(result: Result, updates: nat)
  {
    predicate Writing() { Comparing? || Reopened? || Swapping? }
  }

  datatype CloserState = CloseWaiting | CloseHolding | CloseClosing(h: HandleId) | CloseDone {
    predicate Writing() { CloseHolding? || CloseClosing? }
  }

  datatype Actor = ACheck(c: CheckId) | ACloser(k: CloserId)

  /** The opening of a filter file in a pass over the given index version. */
  datatype FileOpen = FileOpen(name: Bytes, version: nat)

  /** The history of one call: the version visible when it began, how often it found
      a file missing, and every filter file it opened, over all its passes. */
  datatype Call = Call(begun: nat, misses: nat, opens: seq<FileOpen>)

  datatype State = State(
    cur: nat,                            // the index version visible in the cache
    files: set<Bytes>,                   // the filter files present
    idx: Option<HandleId>,               // Checker.idx
    handles: seq<Handle>,                // every index ever opened
    readers: set<CheckId>, writer: Option<Actor>,
    checks: map<CheckId, CheckState>,
    calls: map<CheckId, Call>,
    closers: map<CloserId, CloserState>)

  datatype Label =
    | AddFile(n: Bytes) | Publish | RemoveFile(n: Bytes)
    | Begin(c: CheckId) | Snapshot(c: CheckId) | SkipSeen(c: CheckId) | ReadFile(c: CheckId)
    | FindMissing(c: CheckId) | BadFile(c: CheckId) | Fail(c: CheckId) | Conclude(c: CheckId)
    | Lock(c: CheckId) | AlreadyReplaced(c: CheckId) | OpenFails(c: CheckId) | OpenIndex(c: CheckId)
    | CloseOld(c: CheckId) | Install(c: CheckId)
    | CloseBegin(k: CloserId) | CloseLock(k: CloserId) | CloseNothing(k: CloserId)
    | CloseIndex(k: CloserId) | CloseClear(k: CloserId)

  // ----- The steps -----

  predicate At(s: State, c: CheckId) { c in s.checks && c in s.calls }

  predicate Free(s: State) { s.writer.None? && s.readers == {} }

  predicate InPass(s: State, c: CheckId) {
    At(s, c) && s.checks[c].Passing? && s.checks[c].h < |s.handles|
  }

  /** The index version the pass works on. */
  function PassVersion(s: State, c: CheckId): nat
    requires InPass(s, c)
  {
    s.handles[s.checks[c].h].version
  }

  /** The pass has a file left to visit, and has not stopped. */
  predicate HasNext(w: World, s: State, c: CheckId) {
    InPass(s, c) && s.checks[c].pass.Continue? && s.checks[c].pos < |w.plan(c, PassVersion(s, c))|
  }

  function Next(w: World, s: State, c: CheckId): Bytes
    requires HasNext(w, s, c)
  {
    w.plan(c, PassVersion(s, c))[s.checks[c].pos]
  }

  /** The next file was not queried before in this pass. */
  predicate Unseen(w: World, s: State, c: CheckId) {
    HasNext(w, s, c) && Next(w, s, c) !in s.checks[c].pass.p.seen
  }

  /** When a step can happen.  The first three are the cache atomicity contract: an
      index becomes visible only when all files it names are present, and only
      files the visible index does not name are removed. */
  predicate Enabled(w: World, s: State, l: Label) {
    match l
    case AddFile(_) => true
    case Publish => w.named(s.cur + 1) <= s.files
    case RemoveFile(n) => n !in w.named(s.cur)
    case Begin(c) => c !in s.checks
    case Snapshot(c) => At(s, c) && s.checks[c].Waiting? && s.writer.None? && (s.idx.Some? ==> s.idx.value < |s.handles|)
    case SkipSeen(c) => HasNext(w, s, c) && !Unseen(w, s, c)
    case ReadFile(c) => Unseen(w, s, c) && Next(w, s, c) in s.files
    case FindMissing(c) => Unseen(w, s, c) && Next(w, s, c) !in s.files
    case BadFile(c) => Unseen(w, s, c) && Next(w, s, c) in s.files
    case Fail(c) => InPass(s, c) && s.checks[c].pass.Continue?
    case Conclude(c) => InPass(s, c) && (s.checks[c].pass.Stop? || s.checks[c].pos == |w.plan(c, PassVersion(s, c))|)
    case Lock(c) => At(s, c) && s.checks[c].Stale? && Free(s)
    case AlreadyReplaced(c) => At(s, c) && s.checks[c].Comparing? && s.idx != Some(s.checks[c].h)
    case OpenFails(c) => At(s, c) && s.checks[c].Comparing? && s.idx == Some(s.checks[c].h)
    case OpenIndex(c) => At(s, c) && s.checks[c].Comparing? && s.idx == Some(s.checks[c].h)
    case CloseOld(c) => At(s, c) && s.checks[c].Reopened? && s.checks[c].prev < |s.handles|
    case Install(c) => At(s, c) && s.checks[c].Swapping?
    case CloseBegin(k) => k !in s.closers
    case CloseLock(k) => k in s.closers && s.closers[k].CloseWaiting? && Free(s)
    case CloseNothing(k) => k in s.closers && s.closers[k].CloseHolding? && s.idx.None?
    case CloseIndex(k) => k in s.closers && s.closers[k].CloseHolding? && s.idx.Some? && s.idx.value < |s.handles|
    case CloseClear(k) => k in s.closers && s.closers[k].CloseClosing?
  }

  function Put(s: State, c: CheckId, p: CheckState): State {
    s.(checks := s.checks[c := p])
  }

  function Closed(handles: seq<Handle>, h: HandleId): seq<Handle>
    requires h < |handles|
  {
    handles[h := handles[h].(closes := handles[h].closes + 1)]
  }

  /** The next file, opened. */
  function Logged(w: World, s: State, c: CheckId): State
    requires HasNext(w, s, c)
  {
    var call := s.calls[c];
    s.(calls := s.calls[c := call.(opens := call.opens + [FileOpen(Next(w, s, c), PassVersion(s, c))])])
  }

  /** The pass, past its next file. */
  function Visited(w: World, s: State, c: CheckId): CheckState
    requires HasNext(w, s, c)
  {
    var p := s.checks[c];
    p.(pos := p.pos + 1, pass := VisitName(true, w.Ask(c), Next(w, s, c), p.pass.p))
  }

  /** The return of a check that holds the read lock. */
  function Return(s: State, c: CheckId, r: Result): State
    requires At(s, c)
  {
    Put(s.(readers := s.readers - {c}), c, Finished(r, if s.cur >= s.calls[c].begun then s.cur - s.calls[c].begun else 0))
  }

  /** The next file turns out to be missing: the read lock is released, and the
      check retries unless it did so often enough. */
  function Missed(s: State, c: CheckId): State
    requires InPass(s, c)
  {
    var p, call := s.checks[c], s.calls[c];
    var t := s.(calls := s.calls[c := call.(misses := call.misses + 1)]);
    if p.reopens == MAX_REOPENS then Return(t, c, MissingFile)
    else Put(t.(readers := t.readers - {c}), c, Stale(p.reopens, p.h, s.cur))
  }

  function Step(w: World, s: State, l: Label): State
    requires Enabled(w, s, l)
  {
    match l
    case AddFile(n) => s.(files := s.files + {n})
    case Publish => s.(cur := s.cur + 1)
    case RemoveFile(n) => s.(files := s.files - {n})
    case Begin(c) => Put(s.(calls := s.calls[c := Call(s.cur, 0, [])]), c, Waiting(0, 0))
    case Snapshot(c) =>
      if s.idx.None? then Return(s, c, CheckerClosed)
      else Put(s.(readers := s.readers + {c}), c, Passing(s.checks[c].reopens, s.idx.value, 0, Continue(START)))
    case SkipSeen(c) => Put(s, c, Visited(w, s, c))
    case ReadFile(c) => Put(Logged(w, s, c), c, Visited(w, s, c))
    case FindMissing(c) => Missed(s, c)
    case BadFile(c) => Return(Logged(w, s, c), c, OtherError)
    case Fail(c) => Return(s, c, OtherError)
    case Conclude(c) => Return(s, c, Answered(PassVersion(s, c), Concluded(s.checks[c].pass)))
    case Lock(c) =>
      var p := s.checks[c];
      Put(s.(writer := Some(ACheck(c))), c, Comparing(p.reopens, p.h, p.at))
    case AlreadyReplaced(c) => Put(s.(writer := None), c, Waiting(s.checks[c].reopens + 1, s.checks[c].at))
    case OpenFails(c) => Return(s.(writer := None), c, ReopenFailed)
    case OpenIndex(c) =>
      var p := s.checks[c];
      Put(s.(handles := s.handles + [Handle(s.cur, 0)]), c, Reopened(p.reopens, p.h, |s.handles|, p.at))
    case CloseOld(c) =>
      var p := s.checks[c];
      Put(s.(handles := Closed(s.handles, p.prev)), c, Swapping(p.reopens, p.prev, p.next, p.at))
    case Install(c) =>
      var p := s.checks[c];
      Put(s.(idx := Some(p.next), writer := None), c, Waiting(p.reopens + 1, p.at))
    case CloseBegin(k) => s.(closers := s.closers[k := CloseWaiting])
    case CloseLock(k) => s.(writer := Some(ACloser(k)), closers := s.closers[k := CloseHolding])
    case CloseNothing(k) => s.(writer := None, closers := s.closers[k := CloseDone])
    case CloseIndex(k) =>
      s.(handles := Closed(s.handles, s.idx.value), closers := s.closers[k := CloseClosing(s.idx.value)])
    case CloseClear(k) => s.(idx := None, writer := None, closers := s.closers[k := CloseDone])
  }

  /** A Checker just constructed over the visible index. */
  predicate Init(w: World, s: State) {
    && w.named(s.cur) <= s.files
    && s.idx == Some(0) && |s.handles| == 1 && s.handles[0].closes == 0 && s.handles[0].version <= s.cur
    && s.readers == {} && s.writer.None? && s.checks == map[] && s.calls == map[] && s.closers == map[]
  }

  // ----- The invariant -----

  /** The handles that are open, given where the lock holder is. */
  function OpenSet(s: State): set<HandleId> {
    var current := if s.idx.Some? then {s.idx.value} else {};
    match s.writer
    case Some(ACheck(c)) =>
      if c in s.checks && s.checks[c].Reopened? then current + {s.checks[c].next}
      else if c in s.checks && s.checks[c].Swapping? then {s.checks[c].next}
      else current
    case Some(ACloser(k)) => if k in s.closers && s.closers[k].CloseClosing? then {} else current
    case None => current
  }

  ghost predicate LockInv(s: State) {
    && (forall c :: c in s.readers <==> c in s.checks && s.checks[c].Passing?)
    && (s.writer.Some? ==> s.readers == {})
    && (forall c :: c in s.checks && s.checks[c].Writing() <==> s.writer == Some(ACheck(c)))
    && (forall k :: k in s.closers && s.closers[k].Writing() <==> s.writer == Some(ACloser(k)))
  }

  ghost predicate HandleInv(s: State) {
    && (s.idx.Some? ==> s.idx.value < |s.handles|)
    && (forall h | h in OpenSet(s) :: h < |s.handles|)
    && (forall h | 0 <= h < |s.handles| :: s.handles[h].closes == (if h in OpenSet(s) then 0 else 1))
    && (forall h | 0 <= h < |s.handles| :: s.handles[h].version <= s.cur)
  }

  /** How new an index must be after so many reopens of a check begun at `b`. */
  function NewEnough(b: nat, reopens: nat): int {
    if reopens == 0 then 0 else b + reopens - 1
  }

  /** The installed index, if any, is at least as new as `v`. */
  predicate InstalledSince(s: State, v: int) {
    s.idx.Some? && s.idx.value < |s.handles| ==> s.handles[s.idx.value].version >= v
  }

  /** The snapshot `h` of a check that found a file missing when `at` was visible:
      it was superseded, and whatever replaced it is at least as new as `at`. */
  predicate Superseded(s: State, b: nat, reopens: nat, h: HandleId, at: nat) {
    && reopens < MAX_REOPENS && h < |s.handles|
    && NewEnough(b, reopens) <= s.handles[h].version < at <= s.cur && b <= at
    && (s.idx != Some(h) ==> InstalledSince(s, at))
  }

  ghost predicate CheckInv(w: World, s: State, c: CheckId)
    requires c in s.checks
  {
    && c in s.calls && s.calls[c].begun <= s.cur
    && var b := s.calls[c].begun;
       match s.checks[c]
       case Waiting(r, since) => r <= MAX_REOPENS && NewEnough(b, r) <= since && InstalledSince(s, since)
       case Passing(r, h, pos, pass) =>
         && r <= MAX_REOPENS && s.idx == Some(h) && h < |s.handles|
         && s.handles[h].version >= NewEnough(b, r) && Underway(w, c, s.handles[h].version, pos, pass)
       case Stale(r, h, at) => Superseded(s, b, r, h, at)
       case Comparing(r, h, at) => Superseded(s, b, r, h, at)
       case Reopened(r, prev, next, at) => Replacing(s, b, r, prev, next, at)
       case Swapping(r, prev, next, at) => Replacing(s, b, r, prev, next, at)
       case Finished(r, updates) =>
         && (r.MissingFile? ==> updates >= 2)
         && (r.Answered? ==> r.verdict == VerdictOf(w, c, r.version))
  }

  /** Where a pass over version `v` stands after the first `pos` files of its plan. */
  predicate Underway(w: World, c: CheckId, v: nat, pos: nat, pass: PassState) {
    pos <= |w.plan(c, v)| && pass == VisitNames(true, w.Ask(c), w.plan(c, v)[..pos], START)
  }

  /** What version `v`, all of its files present, says of a check. */
  function VerdictOf(w: World, c: CheckId, v: nat): PassResult {
    Concluded(VisitNames(true, w.Ask(c), w.plan(c, v), START))
  }

  /** A check between opening a next index and installing it: the old one is still
      installed, and the fresh one is newer than anybody waiting to retry needs. */
  ghost predicate Replacing(s: State, b: nat, reopens: nat, prev: HandleId, next: HandleId, at: nat) {
    && Superseded(s, b, reopens, prev, at)
    && s.idx == Some(prev) && prev != next && next < |s.handles|
    && s.handles[next].version >= at && s.handles[next].version >= s.handles[prev].version
    && (forall d | d in s.checks && s.checks[d].Stale? :: s.checks[d].at <= s.handles[next].version)
  }

  ghost predicate CloserInv(s: State) {
    forall k | k in s.closers && s.closers[k].CloseClosing? :: s.idx == Some(s.closers[k].h)
  }

  ghost predicate Shared(w: World, s: State) {
    w.Valid() && w.named(s.cur) <= s.files && LockInv(s) && HandleInv(s) && CloserInv(s)
  }

  ghost predicate Inv(w: World, s: State) {
    Shared(w, s) && forall c | c in s.checks :: CheckInv(w, s, c)
  }
}
