/** The ribbon linear system of the filter builder: insertion by on-the-fly
    Gaussian elimination and back-substitution of one solution column. */
module Ribbons {
  import opened Words
  import opened Gf2
  import opened Windows
  import opened Equations

  /** An arbitrary source of random words; nothing is assumed of its stream. */
  class Rng {
    const stream: nat -> Word
    var drawn: nat

    constructor (stream: nat -> Word)
      ensures this.stream == stream && drawn == 0
    {
      this.stream := stream;
      drawn := 0;
    }

    method Uint64() returns (w: Word)
      modifies this
      ensures w == stream(old(drawn)) && drawn == old(drawn) + 1
    {
      w := stream(drawn);
      drawn := drawn + 1;
    }
  }

  /** The inner product of `e`'s coefficients with the column `z`. */
  method Eval(e: Row, z: Column) returns (v: bool)
    ensures v == Dot(e.a, AssignmentOf(z), e.s)
  {
    var limb, shift := e.s / 64, e.s % 64;
    var r := ZeroWord();
    var i := limb;
    ParityOfZeros(r);
    while i < |z| && i < limb + 4
      invariant limb <= i <= limb + 4
      invariant i > limb ==> i <= |z|
      invariant Parity(r) == Inner(e.a, AssignmentOf(z), e.s, 64 * (i - limb))
    {
      var tmp := Assembled(z, i, shift);
      WindowStep(z, e.s, e.a, i, r);
      r := Xor(r, And(tmp, e.a[i - limb]));
      i := i + 1;
    }
    WindowEnd(z, e.s, e.a, i - limb);
    OnesCountParity(r);
    v := OnesCount(r) % 2 == 1;
  }

  // ----- The row table -----

  /** Row `i` is empty, or an aligned equation starting at position `i`. */
  ghost predicate InPlace(r: Row, i: nat, reach: nat) {
    if r.IsZero() then r == EMPTY_ROW else r.s == i && r.Aligned() && r.Within(reach)
  }

  ghost predicate Triangular(rows: seq<Row>, reach: nat) {
    && |rows| <= reach
    && forall i | 0 <= i < |rows| :: InPlace(rows[i], i, reach)
  }

  lemma {:induction false} EmptyHolds(x: Assignment)
    ensures EMPTY_ROW.Holds(x)
  {
    ZeroRow(EMPTY_ROW, x);
  }

  /** `after` is `before` with `e` put into the empty row `e.s`, the table being
      extended by empty rows as far as that needs. */
  ghost predicate StoredAt(before: seq<Row>, after: seq<Row>, e: Row) {
    && |before| <= |after| && e.s < |after| && after[e.s] == e
    && |after| <= (if e.s < |before| then |before| else e.s + 1)
    && (e.s < |before| ==> before[e.s] == EMPTY_ROW)
    && forall i | 0 <= i < |after| && i != e.s :: after[i] == if i < |before| then before[i] else EMPTY_ROW
  }

  lemma {:induction false} StoredSatisfies(before: seq<Row>, after: seq<Row>, e: Row, x: Assignment)
    requires StoredAt(before, after, e)
    ensures Satisfies(after, x) <==> Satisfies(before, x) && e.Holds(x)
  {
    EmptyHolds(x);
    if Satisfies(after, x) {
      assert after[e.s].Holds(x);
      forall i | 0 <= i < |before| ensures before[i].Holds(x) {
        assert after[i].Holds(x);
      }
    }
  }

  /** On every solution of `rows`, the reduced equation `e` says what `eq` says. */
  ghost predicate Reduces(rows: seq<Row>, e: Row, eq: Row, reach: nat) {
    && (e.IsZero() || e.Aligned())
    && e.Within(reach)
    && forall x: Assignment | Satisfies(rows, x) :: e.Residual(x) == eq.Residual(x)
  }

  /** Adding the row stored at its own origin reduces `e` further. */
  lemma {:induction false} ReducedOnce(rows: seq<Row>, e: Row, sum: Row, eq: Row, reach: nat)
    requires Triangular(rows, reach) && Reduces(rows, e, eq, reach) && !e.IsZero()
    requires e.s < |rows| && !rows[e.s].IsZero()
    requires IsSum(sum, e, rows[e.s]) && (sum.IsZero() || sum.Aligned())
    ensures Reduces(rows, sum, eq, reach)
    ensures sum.IsZero() || sum.s > e.s
  {
    var cur := rows[e.s];
    assert InPlace(cur, e.s, reach);
    forall x: Assignment | Satisfies(rows, x) ensures sum.Residual(x) == eq.Residual(x) {
      assert cur.Holds(x);
    }
  }

  /** A fully reduced equation decides consistency: `0 == b`. */
  lemma {:induction false} FullyReduced(rows: seq<Row>, e: Row, eq: Row, reach: nat)
    requires Reduces(rows, e, eq, reach) && e.IsZero()
    ensures forall x: Assignment | Satisfies(rows, x) :: eq.Holds(x) == !e.b
  {
    forall x: Assignment | Satisfies(rows, x) ensures eq.Holds(x) == !e.b {
      ZeroRow(e, x);
    }
  }

  /** Storing the reduced equation turns the rows into the old system plus `eq`. */
  lemma {:induction false} StoredSystem(before: seq<Row>, after: seq<Row>, e: Row, eq: Row, reach: nat)
    requires Triangular(before, reach) && StoredAt(before, after, e)
    requires Reduces(before, e, eq, reach) && !e.IsZero()
    ensures Triangular(after, reach)
    ensures forall x: Assignment :: Satisfies(after, x) <==> Satisfies(before, x) && eq.Holds(x)
  {
    assert e.s + 0 < reach;
    forall x: Assignment ensures Satisfies(after, x) <==> Satisfies(before, x) && eq.Holds(x) {
      StoredSatisfies(before, after, e, x);
    }
  }

  // ----- Back-substitution -----

  /** `c` with bit `i` set to `v`, as in `z[i/64] |= zi << (i % 64)`. */
  function WithBit(c: Column, i: nat, v: bool): Column
    requires i / 64 < |c|
  {
    c[i / 64 := Or(c[i / 64], Shl(BitWord(v), i % 64))]
  }

  lemma {:induction false} WithBitAt(c: Column, i: nat, v: bool, p: nat)
    requires i / 64 < |c|
    ensures BitAt(WithBit(c, i, v), p) == (BitAt(c, p) || (p == i && v))
  {
    if p / 64 == i / 64 {
      assert p == 64 * (p / 64) + p % 64 && i == 64 * (i / 64) + i % 64;
    }
  }

  /** Flipping the value under the lowest coefficient flips the inner product. */
  lemma {:induction false} InnerPivot(a: Column, x: Assignment, y: Assignment, s: nat, n: nat)
    requires BitAt(a, 0) && !x(s) && n > 0
    requires forall p: nat | p > s :: x(p) == y(p)
    ensures Inner(a, y, s, n) == (Inner(a, x, s, n) != y(s))
  {
    if n == 1 {
      assert !Inner(a, x, s, 0) && !Inner(a, y, s, 0);
    } else {
      InnerPivot(a, x, y, s, n - 1);
      assert x(s + (n - 1)) == y(s + (n - 1));
    }
  }

  /** Back-substitution has dealt with rows `i` and up. */
  ghost predicate SolvedFrom(rows: seq<Row>, c: Column, i: nat) {
    && (forall p: nat | p < i || p >= |rows| :: !BitAt(c, p))
    && (forall j | i <= j < |rows| :: rows[j].Holds(AssignmentOf(c)))
  }

  /** One step of `solve`: a free bit in an empty row, else the pivot's value. */
  lemma {:induction false} BackSubstitute(rows: seq<Row>, reach: nat, c: Column, i: nat, v: bool)
    requires Triangular(rows, reach) && i < |rows| && i / 64 < |c|
    requires SolvedFrom(rows, c, i + 1)
    requires rows[i].IsZero() || v == rows[i].Residual(AssignmentOf(c))
    ensures SolvedFrom(rows, WithBit(c, i, v), i)
  {
    var d := WithBit(c, i, v);
    var x, y := AssignmentOf(c), AssignmentOf(d);
    forall p: nat ensures BitAt(d, p) == (BitAt(c, p) || (p == i && v)) {
      WithBitAt(c, i, v, p);
    }
    forall j | i <= j < |rows| ensures rows[j].Holds(y) {
      assert InPlace(rows[j], j, reach);
      if rows[j].IsZero() {
        ZeroRow(rows[j], y);
      } else if j == i {
        InnerPivot(rows[i].a, x, y, i, 256);
      } else {
        assert rows[j].Holds(x);
        InnerAgrees(rows[j].a, x, y, j, j, 256);
      }
    }
  }

  // ----- The solution is determined by its free bits -----

  /** The empty rows from position `i` on: the free variables drawn by then. */
  function EmptyFrom(rows: seq<Row>, i: nat): nat
    requires i <= |rows|
    decreases |rows| - i
  {
    if i == |rows| then 0 else (if rows[i].IsZero() then 1 else 0) + EmptyFrom(rows, i + 1)
  }

  /** The free bits are the low bits of consecutive draws, highest row first. */
  ghost predicate FreeBitsFrom(rows: seq<Row>, c: Column, stream: nat -> Word, start: nat, i: nat) {
    forall k | i <= k < |rows| && rows[k].IsZero() :: BitAt(c, k) == stream(start + EmptyFrom(rows, k + 1))[0]
  }

  lemma {:induction false} FreeBitsKept(rows: seq<Row>, c: Column, stream: nat -> Word, start: nat, drawn: nat, i: nat, v: bool)
    requires i < |rows| && i / 64 < |c| && SolvedFrom(rows, c, i + 1)
    requires FreeBitsFrom(rows, c, stream, start, i + 1)
    requires drawn == start + EmptyFrom(rows, i + 1) && (rows[i].IsZero() ==> v == stream(drawn)[0])
    ensures FreeBitsFrom(rows, WithBit(c, i, v), stream, start, i)
  {
    var d := WithBit(c, i, v);
    forall k | i <= k < |rows| && rows[k].IsZero()
      ensures BitAt(d, k) == stream(start + EmptyFrom(rows, k + 1))[0]
    {
      WithBitAt(c, i, v, k);
      assert k > i ==> BitAt(d, k) == BitAt(c, k);
      assert !BitAt(c, i);
    }
  }

  /** A solution that agrees with another on the empty rows and past the table is
      the same assignment. */
  lemma {:induction false} SolutionUnique(rows: seq<Row>, reach: nat, x: Assignment, y: Assignment, p: nat)
    requires Triangular(rows, reach) && Satisfies(rows, x) && Satisfies(rows, y)
    requires forall q: nat | q >= |rows| || rows[q].IsZero() :: x(q) == y(q)
    ensures x(p) == y(p)
    decreases |rows| - p
  {
    if p < |rows| && !rows[p].IsZero() {
      forall q: nat | q > p ensures x(q) == y(q) {
        SolutionUnique(rows, reach, x, y, q);
      }
      var row := rows[p];
      assert InPlace(row, p, reach) && row.Holds(x) && row.Holds(y);
      if x(p) {
        InnerPivotBoth(row.a, y, x, p);
      } else {
        InnerPivotBoth(row.a, x, y, p);
      }
    }
  }

  lemma {:induction false} InnerPivotBoth(a: Limbs, x: Assignment, y: Assignment, s: nat)
    requires BitAt(a, 0) && forall p: nat | p > s :: x(p) == y(p)
    ensures !x(s) ==> Dot(a, y, s) == (Dot(a, x, s) != y(s))
  {
    if !x(s) {
      InnerPivot(a, x, y, s, 256);
    }
  }

  class Ribbon {
    var rows: seq<Row>
    ghost const reach: nat

    ghost predicate Valid()
      reads this
    {
      Triangular(rows, reach)
    }

    /** An empty system over `m` row positions, as `newRibbon`. */
    constructor (m: nat)
      ensures Valid() && reach == m + 255
      ensures forall x: Assignment :: Satisfies(rows, x)
      ensures |rows| == m
    {
      rows := seq(m, _ => EMPTY_ROW);
      reach := m + 255;
      new;
      forall x: Assignment ensures Satisfies(rows, x) {
        EmptyHolds(x);
      }
    }

    /** Adds `eq` to the system, or reports that it contradicts the rows. */
    method Insert(eq: Row) returns (ok: bool)
      requires Valid() && eq.Aligned() && eq.Within(reach)
      modifies this
      ensures Valid() && |rows| >= |old(rows)|
      ensures ok ==> forall x: Assignment :: Satisfies(rows, x) <==> Satisfies(old(rows), x) && eq.Holds(x)
      ensures !ok ==> rows == old(rows) && forall x: Assignment :: !(Satisfies(rows, x) && eq.Holds(x))
    {
      var e := new Equation(eq);
      while true
        invariant fresh(e) && rows == old(rows)
        invariant Reduces(rows, e.Value(), eq, reach)
        decreases !e.Value().IsZero(), |rows| - e.s
      {
        ghost var now := e.Value();
        if NoneSet(e.a) {
          FullyReduced(rows, now, eq, reach);
          return !e.b;
        }
        while |rows| <= e.s
          invariant e.Value() == now
          invariant |old(rows)| <= |rows| <= (if e.s < |old(rows)| then |old(rows)| else e.s + 1)
          invariant forall i | 0 <= i < |rows| :: rows[i] == if i < |old(rows)| then old(rows)[i] else EMPTY_ROW
        {
          rows := rows + [EMPTY_ROW];
        }
        var cur := rows[e.s];
        if cur.IsZero() {
          rows := rows[e.s := e.Value()];
          StoredSystem(old(rows), rows, now, eq, reach);
          return true;
        }
        e.Add(cur);
        ReducedOnce(rows, now, e.Value(), eq, reach);
      }
    }

    /** The value of unknown `i`, those above it being settled in `z`: a draw for an
        empty row, else what the row's equation leaves. */
    method SolveRow(i: nat, z: Column, rng: Rng) returns (zi: bool)
      requires Valid() && i < |rows|
      modifies rng
      ensures if rows[i].IsZero() then zi == rng.stream(old(rng.drawn))[0] && rng.drawn == old(rng.drawn) + 1
              else zi == rows[i].Residual(AssignmentOf(z)) && rng.drawn == old(rng.drawn)
    {
      if rows[i].IsZero() {
        var draw := rng.Uint64();
        zi := draw[0];
      } else {
        assert InPlace(rows[i], i, reach);
        var v := Eval(rows[i], z);
        zi := v != rows[i].b;
      }
    }

    /** One solution column, with four words of zero padding; the values at the
        empty rows are whatever `rng` draws, and by SolutionUnique they determine
        the rest. */
    method Solve(rng: Rng) returns (z: array<Word>)
      requires Valid()
      modifies rng
      ensures fresh(z) && z.Length == (|rows| + 63) / 64 + 4
      ensures Satisfies(rows, AssignmentOf(z[..]))
      ensures forall p: nat | p >= |rows| :: !BitAt(z[..], p)
      ensures rng.drawn == old(rng.drawn) + EmptyFrom(rows, 0)
      ensures FreeBitsFrom(rows, z[..], rng.stream, old(rng.drawn), 0)
    {
      z := new Word[(|rows| + 63) / 64 + 4](_ => ZeroWord());
      assert forall w | 0 <= w < z.Length :: z[..][w] == ZeroWord();
      ghost var start := rng.drawn;
      for i := |rows| downto 0
        invariant SolvedFrom(rows, z[..], i)
        invariant rng.drawn == start + EmptyFrom(rows, i)
        invariant FreeBitsFrom(rows, z[..], rng.stream, start, i)
      {
        ghost var before, drawn := z[..], rng.drawn;
        var zi := SolveRow(i, z[..], rng);
        BackSubstitute(rows, reach, before, i, zi);
        FreeBitsKept(rows, before, rng.stream, start, drawn, i, zi);
        z[i / 64] := Or(z[i / 64], Shl(BitWord(zi), i % 64));
        assert z[..] == WithBit(before, i, zi);
      }
    }
  }
}
