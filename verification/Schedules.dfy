/** Runs built from lists of steps. */
module Schedules {
  import opened Protocol
  import opened ProtocolSafety

  predicate CanPerform(w: World, s: State, labels: seq<Label>)
    decreases |labels|
  {
    labels == [] || (Enabled(w, s, labels[0]) && CanPerform(w, Step(w, s, labels[0]), labels[1..]))
  }

  /** The states passed through, the first included. */
  function Trace(w: World, s: State, labels: seq<Label>): (states: seq<State>)
    requires CanPerform(w, s, labels)
    ensures |states| == |labels| + 1 && states[0] == s
    decreases |labels|
  {
    if labels == [] then [s] else [s] + Trace(w, Step(w, s, labels[0]), labels[1..])
  }

  function Last(w: World, s: State, labels: seq<Label>): State
    requires CanPerform(w, s, labels)
  {
    Trace(w, s, labels)[|labels|]
  }

  lemma {:induction false} TraceSteps(w: World, s: State, labels: seq<Label>, i: nat)
    requires CanPerform(w, s, labels) && i < |labels|
    ensures Enabled(w, Trace(w, s, labels)[i], labels[i])
    ensures Trace(w, s, labels)[i + 1] == Step(w, Trace(w, s, labels)[i], labels[i])
    decreases |labels|
  {
    if i > 0 {
      TraceSteps(w, Step(w, s, labels[0]), labels[1..], i - 1);
    }
  }

  lemma {:induction false} PerformFirst(w: World, s: State, l: Label, labels: seq<Label>)
    requires Enabled(w, s, l) && CanPerform(w, Step(w, s, l), labels)
    ensures CanPerform(w, s, [l] + labels) && Last(w, s, [l] + labels) == Last(w, Step(w, s, l), labels)
  {
    assert ([l] + labels)[1..] == labels;
  }

  lemma {:induction false} PerformBoth(w: World, s: State, a: seq<Label>, b: seq<Label>)
    requires CanPerform(w, s, a) && CanPerform(w, Last(w, s, a), b)
    ensures CanPerform(w, s, a + b) && Last(w, s, a + b) == Last(w, Last(w, s, a), b)
    decreases |a|
  {
    if a == [] {
      assert a + b == b;
    } else {
      PerformBoth(w, Step(w, s, a[0]), a[1..], b);
      assert a + b == [a[0]] + (a[1..] + b) && a == [a[0]] + a[1..];
      PerformFirst(w, s, a[0], a[1..] + b);
      PerformFirst(w, s, a[0], a[1..]);
    }
  }

  lemma {:induction false} PerformNext(w: World, s: State, labels: seq<Label>, l: Label)
    requires CanPerform(w, s, labels) && Enabled(w, Last(w, s, labels), l)
    ensures CanPerform(w, s, labels + [l]) && Last(w, s, labels + [l]) == Step(w, Last(w, s, labels), l)
  {
    var t := Step(w, Last(w, s, labels), l);
    assert CanPerform(w, t, []) && Last(w, t, []) == t;
    PerformFirst(w, Last(w, s, labels), l, []);
    assert [l] + [] == [l];
    PerformBoth(w, s, labels, [l]);
  }

  lemma {:induction false} PerformThree(w: World, s: State, l1: Label, l2: Label, l3: Label)
    requires Enabled(w, s, l1) && Enabled(w, Step(w, s, l1), l2) && Enabled(w, Step(w, Step(w, s, l1), l2), l3)
    ensures CanPerform(w, s, [l1, l2, l3])
    ensures Last(w, s, [l1, l2, l3]) == Step(w, Step(w, Step(w, s, l1), l2), l3)
  {
    assert CanPerform(w, s, []) && Last(w, s, []) == s;
    PerformNext(w, s, [], l1);
    assert [] + [l1] == [l1];
    PerformNext(w, s, [l1], l2);
    assert [l1] + [l2] == [l1, l2];
    PerformNext(w, s, [l1, l2], l3);
    assert [l1, l2] + [l3] == [l1, l2, l3];
  }

  lemma {:induction false} TraceIsRun(w: World, s: State, labels: seq<Label>)
    requires w.Valid() && Init(w, s) && CanPerform(w, s, labels)
    ensures Run(Trace(w, s, labels), labels).Of(w)
  {
    var states := Trace(w, s, labels);
    forall i | 0 <= i < |labels| ensures Enabled(w, states[i], labels[i]) && states[i + 1] == Step(w, states[i], labels[i]) {
      TraceSteps(w, s, labels, i);
    }
  }

  // ----- Reachability -----

  ghost predicate Reaches(w: World, s: State, t: State) {
    exists labels :: CanPerform(w, s, labels) && Last(w, s, labels) == t
  }

  lemma {:induction false} ReachesSelf(w: World, s: State)
    ensures Reaches(w, s, s)
  {
    assert CanPerform(w, s, []) && Last(w, s, []) == s;
  }

  lemma {:induction false} ReachesStep(w: World, s: State, t: State, l: Label)
    requires Reaches(w, s, t) && Enabled(w, t, l)
    ensures Reaches(w, s, Step(w, t, l))
  {
    var labels :| CanPerform(w, s, labels) && Last(w, s, labels) == t;
    PerformNext(w, s, labels, l);
  }

  /** What is reachable from an initial state happens in some run. */
  lemma {:induction false} ReachedInRun(w: World, s: State, t: State) returns (r: Run)
    requires w.Valid() && Init(w, s) && Reaches(w, s, t)
    ensures r.Of(w) && r.states[|r.labels|] == t
  {
    var labels :| CanPerform(w, s, labels) && Last(w, s, labels) == t;
    TraceIsRun(w, s, labels);
    r := Run(Trace(w, s, labels), labels);
  }
}
