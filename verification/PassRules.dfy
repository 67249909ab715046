/** What a pass over the index should do: which filters it queries, and what result
    their answers give. */
module PassRules {
  import opened ByteStrings
  import opened Sequences
  import opened FilterFormat
  import opened Crlite
  import opened UpkiIndex

  /** The outcome of a revocation check. */
  datatype CheckStatus = NotCovered | Revoked | NotRevoked

  datatype CheckError = LookupFailed | FileMissing | ReadFailed | BadFilter | InconsistentIndex

  datatype PassResult = Answer(outcome: CheckStatus) | Failed(error: CheckError)

  /** What opening and reading a filter file yields. */
  datatype Fetched = Content(data: Bytes) | NotExist | IOError

  datatype Query = Says(status: Status) | Fails(error: CheckError)

  /** What querying each filter file would say. */
  type Asking = Bytes -> Query

  ghost function QueryOf(got: Fetched, key: LookupKey, timestamps: seq<LogTimestamp>): Query {
    match got
    case NotExist => Fails(FileMissing)
    case IOError => Fails(ReadFailed)
    case Content(data) =>
      match Parse(true, data)
      case Failure(_) => Fails(BadFilter)
      case Success(f) =>
        AcceptedRanksWithin(data);
        Says(StatusOf(f, key, timestamps))
  }

  /** What querying the files of a cache that nobody updates would say. */
  ghost function Asker(files: Bytes -> Fetched, key: LookupKey, timestamps: seq<LogTimestamp>): (ask: Asking)
    ensures forall name: Bytes :: ask(name) == QueryOf(files(name), key, timestamps)
  {
    (name: Bytes) => QueryOf(files(name), key, timestamps)
  }

  // ----- The pass -----

  /** How far a pass has come: the files opened so far, in order, and the tallies
      of their answers. */
  datatype Progress = Progress(seen: seq<Bytes>, notRevoked: bool, queried: nat, notCovered: nat)

  const START := Progress([], false, 0, 0)

  datatype PassState = Continue(p: Progress) | Stop(result: PassResult, names: seq<Bytes>) {
    function Opened(): seq<Bytes> {
      match this case Continue(p) => p.seen case Stop(_, names) => names
    }
  }

  /** What a filter's answer does to a pass: it stops if the filter cannot be
      queried or says `Revoked`. */
  function Advance(answer: Query, name: Bytes, p: Progress): PassState {
    var q := p.(seen := p.seen + [name], queried := p.queried + 1);
    match answer
    case Fails(e) => Stop(Failed(e), q.seen)
    case Says(StatusRevoked) => Stop(Answer(Revoked), q.seen)
    case Says(StatusGood) => Continue(q.(notRevoked := true))
    case Says(StatusNotCovered) => Continue(q.(notCovered := p.notCovered + 1))
    case Says(StatusNotEnrolled) => Continue(q)
  }

  /** One filter: skipped if seen before when `dedup`, as the source does. */
  function VisitName(dedup: bool, ask: Asking, name: Bytes, p: Progress): PassState {
    if dedup && name in p.seen then Continue(p) else Advance(ask(name), name, p)
  }

  function VisitNames(dedup: bool, ask: Asking, names: seq<Bytes>, p: Progress): PassState {
    if names == [] then Continue(p) else
      match VisitNames(dedup, ask, names[..|names| - 1], p)
      case Stop(r, before) => Stop(r, before)
      case Continue(q) => VisitName(dedup, ask, names[|names| - 1], q)
  }

  function VisitLogs(dedup: bool, v: View, ask: Asking, ts: seq<LogTimestamp>, p: Progress): PassState
    requires v.Valid()
  {
    if ts == [] then Continue(p) else
      var t := ts[|ts| - 1];
      match VisitLogs(dedup, v, ask, ts[..|ts| - 1], p)
      case Stop(r, before) => Stop(r, before)
      case Continue(q) =>
        match LookupIn(v, t.logId, t.timestamp)
        case InvalidIndex => Stop(Failed(LookupFailed), q.seen)
        case Good(names) => VisitNames(dedup, ask, names, q)
  }

  /** The result of a pass that ends here. */
  function Concluded(s: PassState): PassResult {
    match s
    case Stop(r, _) => r
    case Continue(p) =>
      if p.notRevoked then Answer(NotRevoked)
      else if p.queried > 0 && p.notCovered == p.queried then Failed(InconsistentIndex)
      else Answer(NotCovered)
  }

  /** A whole pass: its result and the files it opens, in order. */
  function PassOf(dedup: bool, v: View, ask: Asking, ts: seq<LogTimestamp>): PassResult
    requires v.Valid()
  {
    Concluded(VisitLogs(dedup, v, ask, ts, START))
  }

  function OpensOf(dedup: bool, v: View, ask: Asking, ts: seq<LogTimestamp>): seq<Bytes>
    requires v.Valid()
  {
    VisitLogs(dedup, v, ask, ts, START).Opened()
  }

  lemma {:induction false} NamesStop(dedup: bool, ask: Asking, names: seq<Bytes>, n: nat, p: Progress)
    requires n <= |names| && VisitNames(dedup, ask, names[..n], p).Stop?
    ensures VisitNames(dedup, ask, names, p) == VisitNames(dedup, ask, names[..n], p)
    decreases |names| - n
  {
    if n == |names| {
      assert names[..n] == names;
    } else {
      assert names[..n + 1][..n] == names[..n];
      NamesStop(dedup, ask, names, n + 1, p);
    }
  }

  lemma {:induction false} LogsStop(v: View, ask: Asking, ts: seq<LogTimestamp>, n: nat, p: Progress)
    requires v.Valid() && n <= |ts| && VisitLogs(true, v, ask, ts[..n], p).Stop?
    ensures VisitLogs(true, v, ask, ts, p) == VisitLogs(true, v, ask, ts[..n], p)
    decreases |ts| - n
  {
    if n == |ts| {
      assert ts[..n] == ts;
    } else {
      assert ts[..n + 1][..n] == ts[..n];
      LogsStop(v, ask, ts, n + 1, p);
    }
  }

  // ----- What decides a pass -----

  /** The lookups of all timestamps succeed. */
  predicate LookupsSucceed(v: View, ts: seq<LogTimestamp>)
    requires v.Valid()
  {
    forall i | 0 <= i < |ts| :: LookupIn(v, ts[i].logId, ts[i].timestamp).Good?
  }

  /** An answer after which nothing else matters. */
  predicate Decisive(q: Query) {
    q.Fails? || q.status == StatusRevoked
  }

  /** The result it decides on: an error is passed on as it is. */
  function Settles(q: Query): PassResult
    requires Decisive(q)
  {
    if q.Fails? then Failed(q.error) else Answer(Revoked)
  }

  predicate NoneDecisive(answers: seq<Query>) {
    forall i | 0 <= i < |answers| :: !Decisive(answers[i])
  }

  predicate AllNotCovered(answers: seq<Query>) {
    forall i | 0 <= i < |answers| :: answers[i] == Says(StatusNotCovered)
  }

  /** The result of a pass whose answers, one for each file queried, include no
      decisive one. */
  function Undecided(answers: seq<Query>): PassResult {
    if Says(StatusGood) in answers then Answer(NotRevoked)
    else if answers != [] && AllNotCovered(answers) then Failed(InconsistentIndex)
    else Answer(NotCovered)
  }

  /** The pass stopped at a decisive answer, the last it asked for. */
  predicate Stopped(result: PassResult, answers: seq<Query>) {
    && answers != [] && NoneDecisive(answers[..|answers| - 1])
    && Decisive(answers[|answers| - 1]) && result == Settles(answers[|answers| - 1])
  }

  /** Whether a pass with these answers may end with this result. */
  predicate Justified(result: PassResult, answers: seq<Query>, lookupsSucceed: bool) {
    if NoneDecisive(answers) then result == if lookupsSucceed then Undecided(answers) else Failed(LookupFailed)
    else Stopped(result, answers)
  }

  /** The tallies are those of the files seen. */
  ghost predicate Tallied(ask: Asking, p: Progress) {
    var answers := Mapped(ask, p.seen);
    && NoneDecisive(answers) && p.queried == |answers| && p.notCovered <= p.queried
    && (p.notRevoked <==> Says(StatusGood) in answers)
    && (p.notCovered == p.queried <==> AllNotCovered(answers))
  }

  lemma {:induction false} OneTallied(ask: Asking, name: Bytes, p: Progress)
    requires Tallied(ask, p)
    ensures match VisitName(true, ask, name, p)
            case Stop(r, names) => Stopped(r, Mapped(ask, names))
            case Continue(q) => Tallied(ask, q)
  {
    if name !in p.seen {
      MappedNext(ask, p.seen, name);
      OneMoreAnswer(Mapped(ask, p.seen), ask(name));
    }
  }

  lemma {:induction false} OneMoreAnswer(answers: seq<Query>, q: Query)
    ensures var more := answers + [q];
            && more[..|more| - 1] == answers && more[|more| - 1] == q
            && (NoneDecisive(more) <==> NoneDecisive(answers) && !Decisive(q))
            && (AllNotCovered(more) <==> AllNotCovered(answers) && q == Says(StatusNotCovered))
            && (Says(StatusGood) in more <==> Says(StatusGood) in answers || q == Says(StatusGood))
  {
    var more := answers + [q];
    assert more[|answers|] == q;
    assert forall i | 0 <= i < |answers| :: more[i] == answers[i];
  }

  lemma {:induction false} MappedNext(ask: Asking, names: seq<Bytes>, name: Bytes)
    ensures Mapped(ask, names + [name]) == Mapped(ask, names) + [ask(name)]
  {}

  lemma {:induction false} NamesTallied(ask: Asking, names: seq<Bytes>, p: Progress)
    requires Tallied(ask, p)
    ensures match VisitNames(true, ask, names, p)
            case Stop(r, before) => Stopped(r, Mapped(ask, before))
            case Continue(q) => Tallied(ask, q)
  {
    if names != [] {
      NamesTallied(ask, names[..|names| - 1], p);
      var s := VisitNames(true, ask, names[..|names| - 1], p);
      if s.Continue? {
        OneTallied(ask, names[|names| - 1], s.p);
      }
    }
  }

  ghost predicate LogsOutcome(ask: Asking, s: PassState, lookupsSucceed: bool) {
    match s
    case Stop(r, names) =>
      || Stopped(r, Mapped(ask, names))
      || (r == Failed(LookupFailed) && NoneDecisive(Mapped(ask, names)) && !lookupsSucceed)
    case Continue(q) => Tallied(ask, q) && lookupsSucceed
  }

  lemma {:induction false} LookupsSucceedNext(v: View, ts: seq<LogTimestamp>)
    requires v.Valid() && ts != []
    ensures var t := ts[|ts| - 1];
            LookupsSucceed(v, ts) <==> LookupsSucceed(v, ts[..|ts| - 1]) && LookupIn(v, t.logId, t.timestamp).Good?
  {
    var front := ts[..|ts| - 1];
    forall i | 0 <= i < |front| ensures front[i] == ts[i] {}
    if LookupsSucceed(v, ts) {
      forall i | 0 <= i < |front| ensures LookupIn(v, front[i].logId, front[i].timestamp).Good? {
        assert LookupIn(v, ts[i].logId, ts[i].timestamp).Good?;
      }
    }
  }

  lemma {:induction false} LogsTallied(v: View, ask: Asking, ts: seq<LogTimestamp>)
    requires v.Valid()
    ensures LogsOutcome(ask, VisitLogs(true, v, ask, ts, START), LookupsSucceed(v, ts))
  {
    if ts != [] {
      var front, t := ts[..|ts| - 1], ts[|ts| - 1];
      LogsTallied(v, ask, front);
      LookupsSucceedNext(v, ts);
      var s := VisitLogs(true, v, ask, front, START);
      if s.Continue? && LookupIn(v, t.logId, t.timestamp).Good? {
        NamesTallied(ask, LookupIn(v, t.logId, t.timestamp).value, s.p);
      }
    }
  }

  /** Result and opens of any pass.  A file that fails, or says revoked, ends it and
      decides it, the error passed on as it is; nothing queried before was decisive.
      If no file did, the pass fails exactly if a lookup does, and otherwise weighs
      the answers. */
  lemma {:induction false} OpensDecide(v: View, ask: Asking, ts: seq<LogTimestamp>)
    requires v.Valid()
    ensures Justified(PassOf(true, v, ask, ts), Mapped(ask, OpensOf(true, v, ask, ts)), LookupsSucceed(v, ts))
  {
    LogsTallied(v, ask, ts);
    var s := VisitLogs(true, v, ask, ts, START);
    if s.Stop? && Stopped(s.result, Mapped(ask, s.names)) {
      assert Decisive(Mapped(ask, s.names)[|s.names| - 1]);
    }
  }
}
