/** Machine words.  A `uint64` is modelled as its 64 bits, least significant
    first, so that every operator has its textbook bitwise meaning. */
module Words {
  import opened Arithmetic

  type Word = w: seq<bool> | |w| == 64 witness seq(64, _ => false)

  function ZeroWord(): (z: Word)
    ensures forall i | 0 <= i < 64 :: !z[i]
  {
    seq(64, _ => false)
  }

  // ----- Operators -----

  function Xor(x: Word, y: Word): (z: Word)
    ensures forall i | 0 <= i < 64 :: z[i] == (x[i] != y[i])
  {
    seq(64, i requires 0 <= i < 64 => x[i] != y[i])
  }

  function And(x: Word, y: Word): (z: Word)
    ensures forall i | 0 <= i < 64 :: z[i] == (x[i] && y[i])
  {
    seq(64, i requires 0 <= i < 64 => x[i] && y[i])
  }

  function Or(x: Word, y: Word): (z: Word)
    ensures forall i | 0 <= i < 64 :: z[i] == (x[i] || y[i])
  {
    seq(64, i requires 0 <= i < 64 => x[i] || y[i])
  }

  function Shr(x: Word, k: nat): (z: Word)
    ensures forall i | 0 <= i < 64 :: z[i] == (i + k < 64 && x[i + k])
  {
    seq(64, i requires 0 <= i < 64 => i + k < 64 && x[i + k])
  }

  function Shl(x: Word, k: nat): (z: Word)
    ensures forall i | 0 <= i < 64 :: z[i] == (k <= i && x[i - k])
  {
    seq(64, i requires 0 <= i < 64 => k <= i && x[i - k])
  }

  /** The word holding a single bit, as in `rng.Uint64() & 1`. */
  function BitWord(b: bool): (z: Word)
    ensures forall i | 0 <= i < 64 :: z[i] == (i == 0 && b)
  {
    seq(64, i => i == 0 && b)
  }

  /** The number of zero bits below the lowest set bit. */
  function TrailingZeros(x: seq<bool>): (k: nat)
    ensures k <= |x|
    ensures forall i | 0 <= i < k :: !x[i]
    ensures k < |x| ==> x[k]
  {
    if x == [] || x[0] then 0 else 1 + TrailingZeros(x[1..])
  }

  lemma {:induction false} WordExtensional(x: Word, y: Word)
    requires forall i | 0 <= i < 64 :: x[i] == y[i]
    ensures x == y
  {}

  // ----- Population count -----

  function OnesCount(x: seq<bool>): nat {
    if x == [] then 0 else OnesCount(x[..|x| - 1]) + if x[|x| - 1] then 1 else 0
  }

  /** The GF(2) sum of the bits of `x`. */
  function Parity(x: seq<bool>): bool {
    if x == [] then false else Parity(x[..|x| - 1]) != x[|x| - 1]
  }

  lemma {:induction false} OnesCountParity(x: seq<bool>)
    ensures OnesCount(x) % 2 == (if Parity(x) then 1 else 0)
  {
    if x != [] {
      OnesCountParity(x[..|x| - 1]);
    }
  }

  lemma {:induction false} ParityXor(x: seq<bool>, y: seq<bool>, z: seq<bool>)
    requires |x| == |y| == |z|
    requires forall i | 0 <= i < |x| :: z[i] == (x[i] != y[i])
    ensures Parity(z) == (Parity(x) != Parity(y))
  {
    if x != [] {
      var n := |x| - 1;
      ParityXor(x[..n], y[..n], z[..n]);
    }
  }

  lemma {:induction false} ParityOfZeros(x: seq<bool>)
    requires forall i | 0 <= i < |x| :: !x[i]
    ensures !Parity(x)
  {
    if x != [] {
      ParityOfZeros(x[..|x| - 1]);
    }
  }

  // ----- Numeric value -----

  function Pow2(n: nat): (r: nat)
    ensures r > 0
  {
    if n == 0 then 1 else 2 * Pow2(n - 1)
  }

  /** The unsigned number a bit string denotes. */
  function Value(x: seq<bool>): (n: nat)
    ensures n < Pow2(|x|)
  {
    if x == [] then 0 else 2 * Value(x[1..]) + if x[0] then 1 else 0
  }

  /** The `k` low bits of `n`. */
  function Digits(n: nat, k: nat): (x: seq<bool>)
    ensures |x| == k
  {
    if k == 0 then [] else [n % 2 == 1] + Digits(n / 2, k - 1)
  }

  function WordOf(n: nat): Word { Digits(n, 64) }

  lemma {:induction false} DigitsOfValue(x: seq<bool>)
    ensures Digits(Value(x), |x|) == x
  {
    if x != [] {
      DigitsOfValue(x[1..]);
      assert x == [x[0]] + x[1..];
    }
  }

  lemma {:induction false} ValueOfDigits(n: nat, k: nat)
    requires n < Pow2(k)
    ensures Value(Digits(n, k)) == n
  {
    if k > 0 {
      ValueOfDigits(n / 2, k - 1);
      assert Digits(n, k)[1..] == Digits(n / 2, k - 1);
    }
  }

  /** Bit `i` of the number. */
  predicate NatBit(n: nat, i: nat) {
    (n / Pow2(i)) % 2 == 1
  }

  lemma {:induction false} DigitIsBit(n: nat, k: nat, i: nat)
    requires i < k
    ensures Digits(n, k)[i] == NatBit(n, i)
  {
    if i > 0 {
      DigitIsBit(n / 2, k - 1, i - 1);
      DivDiv(n, 2, Pow2(i - 1));
    } else {
      assert Pow2(0) == 1;
    }
  }

  /** The bits of a word are those of the number it denotes. */
  lemma {:induction false} BitOfValue(x: seq<bool>, i: nat)
    requires i < |x|
    ensures x[i] == NatBit(Value(x), i)
  {
    DigitsOfValue(x);
    DigitIsBit(Value(x), |x|, i);
  }
}
