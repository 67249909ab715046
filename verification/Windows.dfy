/** The windowed evaluation loop shared in shape by the builder's `eval` and the
    query side's `bitsXorIsZero`: assembling 64 column bits at an arbitrary bit
    offset, and adding up one word of products at a time. */
module Windows {
  import opened Words
  import opened Gf2

  /** The 64 column bits from bit `shift` of word `i` on. */
  function Assembled(c: Column, i: nat, shift: nat): Word
    requires i < |c| && shift < 64
  {
    if shift != 0 && i + 1 < |c|
    then Or(Shr(c[i], shift), Shl(c[i + 1], 64 - shift))
    else Shr(c[i], shift)
  }

  lemma {:induction false} AssembledBit(c: Column, i: nat, shift: nat, j: nat)
    requires i < |c| && shift < 64 && j < 64
    ensures Assembled(c, i, shift)[j] == BitAt(c, 64 * i + shift + j)
  {
    var p := 64 * i + (shift + j);
    if shift + j < 64 {
      assert p / 64 == i && p % 64 == shift + j;
    } else {
      var over := shift + j - 64;
      assert p == 64 * (i + 1) + over;
      assert p / 64 == i + 1 && p % 64 == over;
      assert i + 1 < |c| ==> Shl(c[i + 1], 64 - shift)[j] == c[i + 1][over];
    }
  }

  /** The first `n` products of window word `k` are a prefix of one word. */
  lemma {:induction false} InnerOfWord(a: Limbs, x: Assignment, s: nat, k: nat, products: Word, n: nat)
    requires k < 4 && n <= 64
    requires forall j: nat | j < 64 :: products[j] == (BitAt(a, 64 * k + j) && x(s + 64 * k + j))
    ensures Inner(a, x, s, 64 * k + n) == (Inner(a, x, s, 64 * k) != Parity(products[..n]))
  {
    if n > 0 {
      InnerOfWord(a, x, s, k, products, n - 1);
      assert products[..n][..n - 1] == products[..n - 1];
      assert 64 * k + n - 1 == 64 * k + (n - 1);
      assert products[n - 1] == (BitAt(a, 64 * k + (n - 1)) && x(s + 64 * k + (n - 1)));
    }
  }

  /** One iteration of the window loop. */
  lemma {:induction false} WindowStep(c: Column, offset: nat, coef: Limbs, i: nat, r: Word)
    requires offset / 64 <= i < offset / 64 + 4 && i < |c|
    requires Parity(r) == Inner(coef, AssignmentOf(c), offset, 64 * (i - offset / 64))
    ensures Parity(Xor(r, And(Assembled(c, i, offset % 64), coef[i - offset / 64])))
            == Inner(coef, AssignmentOf(c), offset, 64 * (i + 1 - offset / 64))
  {
    var k := i - offset / 64;
    var tmp := Assembled(c, i, offset % 64);
    var products := And(tmp, coef[k]);
    forall j: nat | j < 64
      ensures products[j] == (BitAt(coef, 64 * k + j) && AssignmentOf(c)(offset + 64 * k + j))
    {
      AssembledBit(c, i, offset % 64, j);
      assert 64 * i + offset % 64 + j == offset + 64 * k + j;
      assert (64 * k + j) / 64 == k && (64 * k + j) % 64 == j;
    }
    InnerOfWord(coef, AssignmentOf(c), offset, k, products, 64);
    assert products[..64] == products;
    ParityXor(r, products, Xor(r, products));
  }

  /** Leaving the window loop at the end of the column loses nothing. */
  lemma {:induction false} WindowEnd(c: Column, offset: nat, coef: Limbs, k: nat)
    requires k <= 4
    requires k == 4 || offset / 64 + k >= |c|
    ensures Inner(coef, AssignmentOf(c), offset, 64 * k) == Dot(coef, AssignmentOf(c), offset)
  {
    InnerVanishes(coef, AssignmentOf(c), offset, 64 * k, 256);
  }
}
