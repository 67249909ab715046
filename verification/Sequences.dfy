/** Sequences mapped element by element, and sequences without repetition. */
module Sequences {

  function Mapped<S, T>(f: S -> T, s: seq<S>): (r: seq<T>)
    ensures |r| == |s| && forall i | 0 <= i < |s| :: r[i] == f(s[i])
  {
    seq(|s|, i requires 0 <= i < |s| => f(s[i]))
  }

  predicate NoRepeats<T(==)>(s: seq<T>) {
    forall i, j | 0 <= i < j < |s| :: s[i] != s[j]
  }

  /** Having no repeats is a matter of multiplicities. */
  lemma {:induction false} NoRepeatsCount<T>(s: seq<T>)
    ensures NoRepeats(s) <==> forall k :: multiset(s)[k] <= 1
  {
    if s != [] {
      var t := s[1..];
      assert s == [s[0]] + t;
      NoRepeatsCount(t);
      if NoRepeats(s) {
        forall i, j | 0 <= i < j < |t| ensures t[i] != t[j] {
          assert s[i + 1] == t[i] && s[j + 1] == t[j];
        }
        assert s[0] !in t;
      } else if NoRepeats(t) {
        var i, j :| 0 <= i < j < |s| && s[i] == s[j];
        assert i == 0 && t[j - 1] == s[0];
        assert multiset(s)[s[0]] == 1 + multiset(t)[s[0]];
      } else {
        var k :| multiset(t)[k] > 1;
        assert multiset(s)[k] > 1;
      }
    }
  }

  /** A sequence with the same elements and multiplicities repeats none either. */
  lemma {:induction false} NoRepeatsPermuted<T>(s: seq<T>, t: seq<T>)
    requires multiset(s) == multiset(t) && NoRepeats(s)
    ensures NoRepeats(t)
  {
    NoRepeatsCount(s);
    NoRepeatsCount(t);
  }

  function Without<T>(s: seq<T>, p: nat): (r: seq<T>)
    requires p < |s|
  {
    s[..p] + s[p + 1..]
  }

  lemma {:induction false} WithoutCount<T>(s: seq<T>, p: nat)
    requires p < |s|
    ensures multiset(Without(s, p)) == multiset(s) - multiset{s[p]}
  {
    var a, b := s[..p], s[p + 1..];
    assert s == a + ([s[p]] + b);
    assert multiset(s) == multiset(a) + (multiset{s[p]} + multiset(b));
  }

  lemma {:induction false} Somewhere<T>(s: seq<T>, t: seq<T>, p: nat) returns (i: nat)
    requires multiset(s) == multiset(t) && p < |s|
    ensures i < |t| && t[i] == s[p]
  {
    assert s[p] in multiset(s);
    assert s[p] in t;
    i :| 0 <= i < |t| && t[i] == s[p];
  }

  /** Two positions of a sequence have two counterparts in any permutation of it. */
  lemma {:induction false} TwoPositions<T>(s: seq<T>, t: seq<T>, p: nat, q: nat) returns (i: nat, j: nat)
    requires multiset(s) == multiset(t) && p < q < |s|
    ensures i < |t| && j < |t| && i != j && t[i] == s[p] && t[j] == s[q]
  {
    i := Somewhere(s, t, p);
    WithoutCount(s, p);
    WithoutCount(t, i);
    var k := Somewhere(Without(s, p), Without(t, i), q - 1);
    j := if k < i then k else k + 1;
  }
}
