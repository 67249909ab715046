/** Linear algebra over GF(2): windows of 256 coefficients, the inner product of
    such a window with an assignment of truth values to row positions, and the
    equations of a ribbon system. */
module Gf2 {
  import opened Words

  /** A packed bit vector; bit `p` lives in word `p / 64` at position `p % 64`. */
  type Column = seq<Word>

  /** The `[4]uint64` coefficient window of an equation or a query. */
  type Limbs = a: seq<Word> | |a| == 4 witness [ZeroWord(), ZeroWord(), ZeroWord(), ZeroWord()]

  const NO_COEFFICIENTS: Limbs := [ZeroWord(), ZeroWord(), ZeroWord(), ZeroWord()]

  /** A value for every row position. */
  type Assignment = nat -> bool

  const ALL_ZERO: Assignment := (_: nat) => false

  /** Bit `p` of a packed vector; positions past the end read as zero. */
  predicate BitAt(c: Column, p: nat) {
    p / 64 < |c| && c[p / 64][p % 64]
  }

  function AssignmentOf(c: Column): Assignment {
    (p: nat) => BitAt(c, p)
  }

  /** The GF(2) sum of `a_j * x(s + j)` over the first `n` coefficients. */
  ghost function Inner(a: Column, x: Assignment, s: nat, n: nat): bool {
    if n == 0 then false else Inner(a, x, s, n - 1) != (BitAt(a, n - 1) && x(s + n - 1))
  }

  /** The full 256-coefficient inner product at offset `s`. */
  ghost predicate Dot(a: Limbs, x: Assignment, s: nat) {
    Inner(a, x, s, 64 * |a|)
  }

  predicate NoneSet(a: Limbs) {
    a == NO_COEFFICIENTS
  }

  // ----- Laws of the inner product -----

  lemma {:induction false} InnerAgrees(a: Column, x: Assignment, y: Assignment, s: nat, t: nat, n: nat)
    requires forall j: nat | j < n && BitAt(a, j) :: x(s + j) == y(t + j)
    ensures Inner(a, x, s, n) == Inner(a, y, t, n)
  {
    if n > 0 {
      InnerAgrees(a, x, y, s, t, n - 1);
      if BitAt(a, n - 1) {
        assert x(s + (n - 1)) == y(t + (n - 1));
      }
    }
  }

  lemma {:induction false} InnerVanishes(a: Column, x: Assignment, s: nat, m: nat, n: nat)
    requires m <= n
    requires forall j: nat | m <= j < n && BitAt(a, j) :: !x(s + j)
    ensures Inner(a, x, s, n) == Inner(a, x, s, m)
  {
    if m < n {
      InnerVanishes(a, x, s, m, n - 1);
      if BitAt(a, n - 1) {
        assert !x(s + (n - 1));
      }
    }
  }

  lemma {:induction false} InnerXor(a: Column, b: Column, c: Column, x: Assignment, s: nat, n: nat)
    requires forall j: nat | j < n :: BitAt(c, j) == (BitAt(a, j) != BitAt(b, j))
    ensures Inner(c, x, s, n) == (Inner(a, x, s, n) != Inner(b, x, s, n))
  {
    if n > 0 {
      InnerXor(a, b, c, x, s, n - 1);
    }
  }

  /** Coefficients moved down by `k` positions against an origin moved up by `k`. */
  lemma {:induction false} InnerRealign(a: Column, b: Column, x: Assignment, s: nat, k: nat, n: nat)
    requires forall j: nat | j < k :: !BitAt(a, j)
    requires forall j: nat | j < n :: BitAt(b, j) == BitAt(a, j + k)
    ensures Inner(a, x, s, n + k) == Inner(b, x, s + k, n)
  {
    if n == 0 {
      InnerVanishes(a, x, s, 0, k);
    } else {
      InnerRealign(a, b, x, s, k, n - 1);
      assert BitAt(b, n - 1) == BitAt(a, n - 1 + k);
    }
  }

  /** `b` is `a` shifted down by `k` positions, losing only zeros. */
  ghost predicate Realigned(a: Limbs, b: Limbs, k: nat) {
    && (forall j: nat | j < k :: !BitAt(a, j))
    && (forall j: nat | j < 256 :: BitAt(b, j) == (j + k < 256 && BitAt(a, j + k)))
  }

  lemma {:induction false} DotRealigned(a: Limbs, b: Limbs, x: Assignment, s: nat, k: nat)
    requires k <= 256 && Realigned(a, b, k)
    ensures Dot(b, x, s + k) == Dot(a, x, s)
  {
    InnerRealign(a, b, x, s, k, 256 - k);
    InnerVanishes(b, x, s + k, 256 - k, 256);
  }

  // ----- Equations -----

  /** The equation `Dot(a, x, s) == b` in the unknown assignment `x`. */
  datatype Row = Row(s: nat, a: Limbs, b: bool) {
    predicate IsZero() { NoneSet(a) }

    /** The lowest coefficient is set. */
    predicate Aligned() { BitAt(a, 0) }

    /** By how much `x` misses the equation. */
    ghost predicate Residual(x: Assignment) { Dot(a, x, s) != b }

    ghost predicate Holds(x: Assignment) { !Residual(x) }

    /** No coefficient sits at or past absolute position `reach`. */
    ghost predicate Within(reach: nat) {
      forall j: nat | j < 256 && BitAt(a, j) :: s + j < reach
    }
  }

  const EMPTY_ROW := Row(0, NO_COEFFICIENTS, false)

  ghost predicate Satisfies(rows: seq<Row>, x: Assignment) {
    forall i | 0 <= i < |rows| :: rows[i].Holds(x)
  }

  lemma {:induction false} ZeroDot(x: Assignment, s: nat)
    ensures !Dot(NO_COEFFICIENTS, x, s)
  {
    assert forall j: nat | j < 256 :: !BitAt(NO_COEFFICIENTS, j);
    InnerVanishes(NO_COEFFICIENTS, x, s, 0, 256);
  }

  /** An equation without coefficients says `0 == b`. */
  lemma {:induction false} ZeroRow(r: Row, x: Assignment)
    requires r.IsZero()
    ensures r.Residual(x) == r.b
  {
    ZeroDot(x, r.s);
  }

  /** A homogeneous equation holds of the zero assignment. */
  lemma {:induction false} HomogeneousHolds(r: Row)
    requires !r.b
    ensures r.Holds(ALL_ZERO)
  {
    InnerVanishes(r.a, ALL_ZERO, r.s, 0, 256);
  }

  lemma {:induction false} XorIsLinear(a: Limbs, b: Limbs, c: Limbs, x: Assignment, s: nat)
    requires forall w | 0 <= w < 4 :: c[w] == Xor(a[w], b[w])
    ensures Dot(c, x, s) == (Dot(a, x, s) != Dot(b, x, s))
  {
    InnerXor(a, b, c, x, s, 256);
  }
}
