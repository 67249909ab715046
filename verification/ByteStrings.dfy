/** Byte strings: fixed-width integers, lexicographic order, hash digests. */
module ByteStrings {
  import opened Arithmetic

  type Byte = b: int | 0 <= b < 256
  type Bytes = seq<Byte>
  type Bytes32 = s: Bytes | |s| == 32 witness seq(32, _ => 0)
  type Uint64 = n: nat | n < 0x1_0000_0000_0000_0000

  /** SHA-256 is left uninterpreted: any function to 32 bytes will do. */
  type Digest = Bytes -> Bytes32

  // ----- Big-endian integers of a fixed width -----

  function Pow256(k: nat): (r: nat)
    ensures r > 0
  {
    if k == 0 then 1 else 256 * Pow256(k - 1)
  }

  /** The `k` low-order bytes of `n`, most significant first. */
  function PutUint(n: nat, k: nat): (s: Bytes)
    ensures |s| == k
  {
    if k == 0 then [] else PutUint(n / 256, k - 1) + [n % 256]
  }

  function GetUint(s: Bytes): (n: nat)
    ensures n < Pow256(|s|)
  {
    if s == [] then 0 else 256 * GetUint(s[..|s| - 1]) + s[|s| - 1]
  }

  lemma {:induction false} Pow256Values()
    ensures Pow256(1) == 0x100 && Pow256(2) == 0x1_0000 && Pow256(4) == 0x1_0000_0000
    ensures Pow256(8) == 0x1_0000_0000_0000_0000
  {
    assert Pow256(3) == 0x100_0000 && Pow256(4) == 256 * Pow256(3);
    assert Pow256(5) == 0x100_0000_0000 && Pow256(6) == 256 * Pow256(5);
    assert Pow256(7) == 256 * Pow256(6) && Pow256(8) == 256 * Pow256(7);
  }

  /** Writing keeps exactly the low-order bytes, as Go's narrowing conversions do. */
  lemma {:induction false} GetPut(n: nat, k: nat)
    ensures GetUint(PutUint(n, k)) == n % Pow256(k)
  {
    if k > 0 {
      GetPut(n / 256, k - 1);
      var s := PutUint(n, k);
      assert s[..k - 1] == PutUint(n / 256, k - 1);
      LowDigit(n, Pow256(k - 1));
    }
  }

  lemma {:induction false} LowDigit(n: nat, p: nat)
    requires p > 0
    ensures 256 * ((n / 256) % p) + n % 256 == n % (256 * p)
  {
    var q := n / 256;
    var hi := q / p;
    assert q == p * hi + q % p;
    assert n == 256 * q + n % 256;
    assert n == (256 * p) * hi + (256 * (q % p) + n % 256);
    DivModUnique(n, 256 * p, hi, 256 * (q % p) + n % 256);
  }

  lemma {:induction false} GetPutSmall(n: nat, k: nat)
    requires n < Pow256(k)
    ensures GetUint(PutUint(n, k)) == n
  {
    GetPut(n, k);
    DivModUnique(n, Pow256(k), 0, n);
  }

  /** The digits of the number are the bytes, the most significant first; below its
      bound that determines the number. */
  lemma {:induction false} GetUintDigit(s: Bytes, i: nat)
    requires i < |s|
    ensures (GetUint(s) / Pow256(|s| - 1 - i)) % 256 == s[i]
  {
    var n, front, last := |s| - 1, s[..|s| - 1], s[|s| - 1];
    assert GetUint(s) == 256 * GetUint(front) + last;
    if i == n {
      assert Pow256(0) == 1;
      DivModUnique(GetUint(s), 256, GetUint(front), last);
    } else {
      GetUintDigit(front, i);
      DivModUnique(GetUint(s), 256, GetUint(front), last);
      var k := n - 1 - i;
      DivDiv(GetUint(s), 256, Pow256(k));
      assert Pow256(k + 1) == 256 * Pow256(k);
    }
  }

  /** A slice of a slice. */
  lemma {:induction false} SubSlice(whole: Bytes, at: nat, part: Bytes, lo: nat, hi: nat)
    requires at + |part| <= |whole| && whole[at..at + |part|] == part && lo <= hi <= |part|
    ensures whole[at + lo..at + hi] == part[lo..hi]
  {
    forall k | 0 <= k < hi - lo ensures whole[at + lo..at + hi][k] == part[lo..hi][k] {
      assert whole[at..at + |part|][lo + k] == whole[at + lo + k];
    }
  }

  /** Writing back a number that was read gives the bytes it was read from. */
  lemma {:induction false} PutGet(s: Bytes)
    ensures PutUint(GetUint(s), |s|) == s
  {
    if s != [] {
      var n := |s| - 1;
      PutGet(s[..n]);
      DivModUnique(GetUint(s), 256, GetUint(s[..n]), s[n]);
      assert s == s[..n] + [s[n]];
    }
  }

  // ----- Little-endian integers -----

  function LittleEndian(s: Bytes): nat {
    if s == [] then 0 else s[0] + 256 * LittleEndian(s[1..])
  }

  function Reversed(s: Bytes): (r: Bytes)
    ensures |r| == |s|
  {
    seq(|s|, i requires 0 <= i < |s| => s[|s| - 1 - i])
  }

  /** A little-endian number is the big-endian number of the reversed bytes. */
  lemma {:induction false} LittleIsReversedBig(s: Bytes)
    ensures LittleEndian(s) == GetUint(Reversed(s))
  {
    if s != [] {
      LittleIsReversedBig(s[1..]);
      assert Reversed(s) == Reversed(s[1..]) + [s[0]];
      assert Reversed(s)[..|s| - 1] == Reversed(s[1..]);
    }
  }

  // ----- Lexicographic order, as bytes.Compare -----

  function Compare(a: Bytes, b: Bytes): int {
    if a == [] then (if b == [] then 0 else -1)
    else if b == [] then 1
    else if a[0] < b[0] then -1
    else if a[0] > b[0] then 1
    else Compare(a[1..], b[1..])
  }

  /** `a` comes before `b`: at the first position where they differ it has the smaller
      byte, or it ends there. */
  predicate Before(a: Bytes, b: Bytes) {
    exists k | 0 <= k <= |a| && k < |b| :: a[..k] == b[..k] && (k == |a| || a[k] < b[k])
  }

  lemma {:induction false} BeforeNext(a: Bytes, b: Bytes)
    requires a != [] && b != [] && a[0] == b[0]
    ensures Before(a, b) <==> Before(a[1..], b[1..])
  {
    var a', b' := a[1..], b[1..];
    if k :| 0 <= k <= |a'| && k < |b'| && a'[..k] == b'[..k] && (k == |a'| || a'[k] < b'[k]) {
      assert a[..k + 1] == [a[0]] + a'[..k] && b[..k + 1] == [b[0]] + b'[..k];
    }
    if k :| 0 <= k <= |a| && k < |b| && a[..k] == b[..k] && (k == |a| || a[k] < b[k]) {
      assert a'[..k - 1] == a[..k][1..] && b'[..k - 1] == b[..k][1..];
    }
  }

  lemma {:induction false} BeforeFirst(a: Bytes, b: Bytes)
    requires a != [] && b != [] && a[0] != b[0]
    ensures Before(a, b) <==> a[0] < b[0]
  {
    assert a[..0] == b[..0];
    if k :| 0 <= k <= |a| && k < |b| && a[..k] == b[..k] && (k == |a| || a[k] < b[k]) {
      assert k == 0;
    }
  }

  lemma {:induction false} CompareIsLexicographic(a: Bytes, b: Bytes)
    ensures Compare(a, b) < 0 <==> Before(a, b)
  {
    if a == [] {
      assert b != [] ==> a[..0] == b[..0];
    } else if b != [] {
      if a[0] == b[0] {
        CompareIsLexicographic(a[1..], b[1..]);
        BeforeNext(a, b);
      } else {
        BeforeFirst(a, b);
      }
    }
  }

  lemma {:induction false} CompareEqual(a: Bytes, b: Bytes)
    ensures Compare(a, b) == 0 <==> a == b
  {
    if a != [] && b != [] {
      CompareEqual(a[1..], b[1..]);
      assert a == [a[0]] + a[1..] && b == [b[0]] + b[1..];
    }
  }

  lemma {:induction false} CompareAntisymmetric(a: Bytes, b: Bytes)
    ensures Compare(a, b) < 0 <==> Compare(b, a) > 0
  {
    if a != [] && b != [] {
      CompareAntisymmetric(a[1..], b[1..]);
    }
  }

  lemma {:induction false} CompareTransitive(a: Bytes, b: Bytes, c: Bytes)
    requires Compare(a, b) <= 0 && Compare(b, c) <= 0
    ensures Compare(a, c) <= 0
    ensures Compare(a, b) < 0 || Compare(b, c) < 0 ==> Compare(a, c) < 0
  {
    if a != [] && b != [] && c != [] && a[0] == b[0] == c[0] {
      CompareTransitive(a[1..], b[1..], c[1..]);
    }
  }
}
