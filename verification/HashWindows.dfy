/** The coefficient window and the row of a hash, as words and in terms of the
    hash's own bytes. */
module HashWindows {
  import opened Arithmetic
  import opened Words
  import opened Gf2
  import opened ByteStrings

  // ----- As the source computes them -----

  function BytesToLimbs(h: Bytes32): Limbs {
    [WordOf(LittleEndian(h[0..8])), WordOf(LittleEndian(h[8..16])),
     WordOf(LittleEndian(h[16..24])), WordOf(LittleEndian(h[24..32]))]
  }

  /** The coefficient window of a hash: its limbs with the low bit forced. */
  function Coefficients(h: Bytes32): (a: Limbs)
    ensures BitAt(a, 0)
  {
    var l := BytesToLimbs(h);
    [Or(l[0], BitWord(true)), l[1], l[2], l[3]]
  }

  /** The high 64 bits, from which row positions are derived. */
  function Position(a: Limbs): nat {
    Value(a[3])
  }

  // ----- In terms of the bytes -----

  /** Coefficient `p`: bit `p % 8` of byte `p / 8`, the first one forced. */
  predicate HashBit(h: Bytes32, p: nat)
    requires p < 256
  {
    p == 0 || (h[p / 8] / Pow2(p % 8)) % 2 == 1
  }

  /** The row a hash probes: the last eight bytes, read backwards as one number. */
  function HashRow(h: Bytes32, offset: nat, modulus: nat): nat
    requires modulus > 0
  {
    offset + GetUint(Reversed(h[24..32])) % modulus
  }

  /** The GF(2) sum of the first `n` coefficients that meet a set bit from row `s` on. */
  ghost function HashSum(h: Bytes32, x: Assignment, s: nat, n: nat): bool
    requires n <= 256
  {
    if n == 0 then false else HashSum(h, x, s, n - 1) != (HashBit(h, n - 1) && x(s + n - 1))
  }

  /** The probe of a column at a row finds even parity. */
  ghost predicate Vanishes(h: Bytes32, c: Column, row: nat) {
    !HashSum(h, AssignmentOf(c), row, 8 * |h|)
  }

  // ----- The two agree -----

  lemma {:induction false} Pow2IsPow256(k: nat)
    ensures Pow2(8 * k) == Pow256(k)
  {
    if k > 0 {
      Pow2IsPow256(k - 1);
      Pow2Byte(8 * (k - 1));
    }
  }

  lemma {:induction false} Pow2Byte(e: nat)
    ensures Pow2(e + 8) == 256 * Pow2(e)
  {
    assert Pow2(e + 1) == 2 * Pow2(e) && Pow2(e + 2) == 2 * Pow2(e + 1) && Pow2(e + 3) == 2 * Pow2(e + 2);
    assert Pow2(e + 4) == 2 * Pow2(e + 3) && Pow2(e + 5) == 2 * Pow2(e + 4) && Pow2(e + 6) == 2 * Pow2(e + 5);
    assert Pow2(e + 7) == 2 * Pow2(e + 6) && Pow2(e + 8) == 2 * Pow2(e + 7);
  }

  /** The bits below position `k` do not see multiples of 2^k. */
  lemma {:induction false} LowBit(n: nat, high: nat, k: nat, p: nat)
    requires p < k
    ensures NatBit(n + Pow2(k) * high, p) == NatBit(n, p)
  {
    var half := Pow2(k - 1) * high;
    assert Pow2(k) * high == 2 * half by { Distribute(2, Pow2(k - 1), high, 0); }
    if p == 0 {
      assert Pow2(0) == 1;
    } else {
      LowBit(n / 2, high, k - 1, p - 1);
      DivDiv(n + 2 * half, 2, Pow2(p - 1));
      DivDiv(n, 2, Pow2(p - 1));
    }
  }

  lemma {:induction false} LittleEndianBit(s: Bytes, p: nat)
    requires p < 8 * |s|
    ensures NatBit(LittleEndian(s), p) == NatBit(s[p / 8], p % 8)
  {
    var rest := LittleEndian(s[1..]);
    if p < 8 {
      Pow2Byte(0);
      assert Pow2(8) == 256;
      LowBit(s[0], rest, 8, p);
    } else {
      LittleEndianBit(s[1..], p - 8);
      Pow2Byte(p - 8);
      DivDiv(LittleEndian(s), 256, Pow2(p - 8));
      DivModUnique(LittleEndian(s), 256, rest, s[0]);
      assert (p - 8) / 8 == p / 8 - 1 && (p - 8) % 8 == p % 8;
    }
  }

  lemma {:induction false} LimbBit(h: Bytes32, w: nat, p: nat)
    requires w < 4 && p < 64
    ensures BytesToLimbs(h)[w][p] == NatBit(h[8 * w + p / 8], p % 8)
  {
    var part := h[8 * w..8 * w + 8];
    assert BytesToLimbs(h)[w] == WordOf(LittleEndian(part));
    DigitIsBit(LittleEndian(part), 64, p);
    LittleEndianBit(part, p);
  }

  /** Every coefficient is the hash's own bit. */
  lemma {:induction false} CoefficientBit(h: Bytes32, p: nat)
    requires p < 256
    ensures BitAt(Coefficients(h), p) == HashBit(h, p)
  {
    var w, q := p / 64, p % 64;
    LimbBit(h, w, q);
    assert 8 * w + q / 8 == p / 8 && q % 8 == p % 8;
  }

  /** `a` is the window of the hash, by its bits and by the row it leads to. */
  ghost predicate IsWindow(a: Limbs, h: Bytes32) {
    && (forall p: nat | p < 256 :: BitAt(a, p) == HashBit(h, p))
    && Position(a) == GetUint(Reversed(h[24..32]))
  }

  /** Every coefficient is the hash's own bit, the first one forced, and the row is
      that of its last eight bytes. */
  lemma {:induction false} WindowOfHash(h: Bytes32)
    ensures IsWindow(Coefficients(h), h)
  {
    forall p: nat | p < 256 ensures BitAt(Coefficients(h), p) == HashBit(h, p) {
      CoefficientBit(h, p);
    }
    var part := h[24..32];
    LittleIsReversedBig(part);
    Pow2IsPow256(8);
    ValueOfDigits(LittleEndian(part), 64);
  }

  lemma {:induction false} InnerIsHashSum(a: Limbs, h: Bytes32, x: Assignment, s: nat, n: nat)
    requires IsWindow(a, h) && n <= 256
    ensures Inner(a, x, s, n) == HashSum(h, x, s, n)
  {
    if n > 0 {
      InnerIsHashSum(a, h, x, s, n - 1);
    }
  }

  lemma {:induction false} DotIsProbe(a: Limbs, h: Bytes32, c: Column, row: nat)
    requires IsWindow(a, h)
    ensures !Dot(a, AssignmentOf(c), row) == Vanishes(h, c, row)
  {
    InnerIsHashSum(a, h, AssignmentOf(c), row, 64 * |a|);
  }
}
