/** Quotients and remainders of natural numbers. */
module Arithmetic {

  lemma {:induction false} MultipleAtLeast(d: nat, k: nat)
    requires k > 0
    ensures d * k >= d
  {
    if k > 1 {
      MultipleAtLeast(d, k - 1);
      assert d * k == d * (k - 1) + d;
    }
  }

  lemma {:induction false} LargerQuotient(d: nat, q: nat, r: nat, q': nat, r': nat)
    requires r < d && q < q'
    ensures d * q + r < d * q' + r'
  {
    MultipleAtLeast(d, q' - q);
    assert d * q' == d * q + d * (q' - q);
  }

  /** Quotient and remainder are determined by what they multiply and add up to. */
  lemma {:induction false} DivModUnique(n: nat, d: nat, q: nat, r: nat)
    requires d > 0 && r < d && n == d * q + r
    ensures n / d == q && n % d == r
  {
    var q', r' := n / d, n % d;
    assert n == d * q' + r';
    if q > q' {
      LargerQuotient(d, q', r', q, r);
    } else if q < q' {
      LargerQuotient(d, q, r, q', r');
    }
  }

  lemma {:induction false} Distribute(a: nat, b: nat, hi: nat, lo: nat)
    ensures a * (b * hi + lo) == (a * b) * hi + a * lo
  {}

  lemma {:induction false} TwoDigits(n: nat, a: nat, b: nat, q: nat, m: nat, hi: nat, lo: nat)
    requires n == a * q + m && m < a && q == b * hi + lo && lo < b
    ensures a * b > 0 && n / (a * b) == hi
  {
    MultipleAtLeast(a, b);
    Distribute(a, b, hi, lo);
    LargerQuotient(a, lo, m, b, 0);
    var d, r := a * b, a * lo + m;
    assert n == d * hi + r;
    DivModUnique(n, d, hi, r);
  }

  lemma {:induction false} Division(n: nat, d: nat)
    requires d > 0
    ensures n == d * (n / d) + n % d && n % d < d
  {}

  /** Dividing twice is dividing by the product. */
  lemma {:induction false} DivDiv(n: nat, a: nat, b: nat)
    requires a > 0 && b > 0
    ensures a * b > 0 && (n / a) / b == n / (a * b)
  {
    var q, m := n / a, n % a;
    var hi, lo := q / b, q % b;
    Division(n, a);
    Division(q, b);
    TwoDigits(n, a, b, q, m, hi, lo);
  }
}
