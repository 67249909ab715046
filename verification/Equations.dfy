/** The mutable equation of the ribbon builder: in-place addition with
    realignment, and evaluation against a packed column. */
module Equations {
  import opened Words
  import opened Gf2

  // ----- Moving coefficients down -----

  lemma {:induction false} RealignedTrans(a: Limbs, b: Limbs, c: Limbs, k: nat, m: nat)
    requires Realigned(a, b, k) && Realigned(b, c, m)
    ensures Realigned(a, c, k + m)
  {
    forall j: nat | j < k + m ensures !BitAt(a, j) {
      if k <= j < 256 {
        assert BitAt(b, j - k) == BitAt(a, j);
      }
    }
    forall j: nat | j < 256 ensures BitAt(c, j) == (j + (k + m) < 256 && BitAt(a, j + (k + m))) {
      if j + m < 256 {
        assert BitAt(b, j + m) == (j + m + k < 256 && BitAt(a, j + m + k));
      }
    }
  }

  function XorLimbs(a: Limbs, b: Limbs): Limbs {
    [Xor(a[0], b[0]), Xor(a[1], b[1]), Xor(a[2], b[2]), Xor(a[3], b[3])]
  }

  /** One whole word down, as in the word loop of `add`. */
  function DropWord(a: Limbs): Limbs {
    [a[1], a[2], a[3], ZeroWord()]
  }

  lemma {:induction false} RealignedByWord(a: Limbs)
    requires a[0] == ZeroWord()
    ensures Realigned(a, DropWord(a), 64)
  {
    var b := DropWord(a);
    forall j: nat | j < 256 ensures BitAt(b, j) == (j + 64 < 256 && BitAt(a, j + 64)) {
      assert (j + 64) / 64 == j / 64 + 1 && (j + 64) % 64 == j % 64;
    }
  }

  /** Word `i` of a window after a shift by `k` bits, as in the bit loop of `add`. */
  function Spliced(lo: Word, hi: Word, k: nat): Word
    requires 0 < k < 64
  {
    Or(Shr(lo, k), Shl(hi, 64 - k))
  }

  lemma {:induction false} SplicedBit(a: Column, i: nat, k: nat, j: nat)
    requires 0 < k < 64 && i + 1 < |a| && j < 64
    ensures Spliced(a[i], a[i + 1], k)[j] == BitAt(a, 64 * i + j + k)
  {
    var p := 64 * i + j + k;
    if j + k < 64 {
      assert p / 64 == i && p % 64 == j + k;
    } else {
      assert p / 64 == i + 1 && p % 64 == j + k - 64;
    }
  }

  /** Less than a word down, as in the bit loop of `add`. */
  function DropBits(a: Limbs, k: nat): Limbs
    requires 0 < k < 64
  {
    [Spliced(a[0], a[1], k), Spliced(a[1], a[2], k), Spliced(a[2], a[3], k), Shr(a[3], k)]
  }

  lemma {:induction false} RealignedByBits(a: Limbs, k: nat)
    requires 0 < k < 64
    requires forall j | 0 <= j < k :: !a[0][j]
    ensures Realigned(a, DropBits(a, k), k)
  {
    var b := DropBits(a, k);
    forall j: nat | j < 256 ensures BitAt(b, j) == (j + k < 256 && BitAt(a, j + k)) {
      var i, r := j / 64, j % 64;
      assert j == 64 * i + r;
      if i < 3 {
        SplicedBit(a, i, k, r);
      } else if r + k < 64 {
        assert (j + k) / 64 == 3 && (j + k) % 64 == r + k;
      }
    }
  }

  /** How many leading words of the window are zero. */
  ghost function LeadingZeroWords(a: Limbs): nat {
    if a[0] != ZeroWord() then 0 else if a[1] != ZeroWord() then 1
    else if a[2] != ZeroWord() then 2 else if a[3] != ZeroWord() then 3 else 4
  }

  /** One iteration of the word loop of `add`. */
  lemma {:induction false} WordStep(sum: Limbs, a: Limbs, shift: nat)
    requires Realigned(sum, a, shift) && !NoneSet(a)
    requires a[0] == ZeroWord()
    ensures Realigned(sum, DropWord(a), shift + 64) && !NoneSet(DropWord(a))
    ensures LeadingZeroWords(DropWord(a)) < LeadingZeroWords(a)
  {
    RealignedByWord(a);
    RealignedTrans(sum, a, DropWord(a), shift, 64);
    assert a[1] != ZeroWord() || a[2] != ZeroWord() || a[3] != ZeroWord();
  }

  /** The bit shift of `add`, which leaves the window aligned. */
  lemma {:induction false} BitStep(sum: Limbs, a: Limbs, shift: nat, k: nat)
    requires Realigned(sum, a, shift)
    requires 0 < k < 64 && k == TrailingZeros(a[0])
    ensures Realigned(sum, DropBits(a, k), shift + k) && BitAt(DropBits(a, k), 0)
  {
    RealignedByBits(a, k);
    RealignedTrans(sum, a, DropBits(a, k), shift, k);
    assert BitAt(a, k);
  }

  /** `z` is the sum of two equations that share their origin: as functionals
      they add up, the sum of aligned equations moves strictly up unless it
      vanishes, and it reaches no further than the summands. */
  ghost predicate IsSum(z: Row, x: Row, y: Row) {
    && (forall v: Assignment :: z.Residual(v) == (x.Residual(v) != y.Residual(v)))
    && z.b == (x.b != y.b)
    && z.s >= x.s
    && (x.Aligned() && y.Aligned() && !z.IsZero() ==> z.s > x.s)
    && (forall reach: nat :: x.Within(reach) && y.Within(reach) ==> z.Within(reach))
  }

  /** What realigning a sum leaves unchanged. */
  lemma {:induction false} AddedRows(r: Row, other: Row, result: Row, shift: nat)
    requires other.s == r.s
    requires Realigned(XorLimbs(r.a, other.a), result.a, shift)
    requires (shift == 0 && result.IsZero()) || result.Aligned()
    requires result.s == r.s + shift && result.b == (r.b != other.b)
    ensures IsSum(result, r, other)
  {
    var sum := XorLimbs(r.a, other.a);
    forall x: Assignment ensures result.Residual(x) == (r.Residual(x) != other.Residual(x)) {
      XorIsLinear(r.a, other.a, sum, x, r.s);
      DotRealigned(sum, result.a, x, r.s, shift);
    }
    forall reach: nat | r.Within(reach) && other.Within(reach) ensures result.Within(reach) {
      forall j: nat | j < 256 && BitAt(result.a, j) ensures result.s + j < reach {
        assert BitAt(sum, j + shift);
        assert BitAt(r.a, j + shift) || BitAt(other.a, j + shift);
      }
    }
  }

  lemma {:induction false} LowWordSet(a: Limbs)
    requires a[0] != ZeroWord()
    ensures TrailingZeros(a[0]) < 64
    ensures TrailingZeros(a[0]) == 0 ==> BitAt(a, 0)
  {
    if TrailingZeros(a[0]) == 64 {
      WordExtensional(a[0], ZeroWord());
    }
  }

  class Equation {
    var s: nat
    var a: Limbs
    var b: bool

    function Value(): Row
      reads this
    {
      Row(s, a, b)
    }

    constructor (r: Row)
      ensures Value() == r
    {
      s, a, b := r.s, r.a, r.b;
    }

    /** Moves a nonzero window down to its lowest set coefficient, and the origin
        up by as much. */
    method Realign() returns (ghost shift: nat)
      requires !NoneSet(a)
      modifies this
      ensures Realigned(old(a), a, shift) && Value().Aligned()
      ensures s == old(s) + shift && b == old(b)
    {
      ghost var sum := a;
      shift := 0;
      assert Realigned(sum, a, 0);
      while a[0] == ZeroWord()
        invariant Realigned(sum, a, shift) && !NoneSet(a)
        invariant s == old(s) + shift && b == old(b)
        decreases LeadingZeroWords(a)
      {
        WordStep(sum, a, shift);
        a := DropWord(a);
        s := s + 64;
        shift := shift + 64;
      }
      var k := TrailingZeros(a[0]);
      LowWordSet(a);
      if k > 0 {
        BitStep(sum, a, shift, k);
        a := DropBits(a, k);
        s := s + k;
        shift := shift + k;
      }
    }

    /** XORs `other` into this equation and realigns the result. */
    method Add(other: Row)
      requires other.s == s
      modifies this
      ensures IsSum(Value(), old(Value()), other)
      ensures Value().IsZero() || Value().Aligned()
    {
      ghost var start := Value();
      a := XorLimbs(a, other.a);
      b := b != other.b;
      if NoneSet(a) {
        AddedRows(start, other, Value(), 0);
        return;
      }
      ghost var shift := Realign();
      AddedRows(start, other, Value(), shift);
    }
  }
}
