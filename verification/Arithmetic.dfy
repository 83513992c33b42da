/** Small functions of numbers, and division by a variable. */
module Arithmetic {
  function Abs(v: int): nat { if v < 0 then 0 - v else v }

  function Min(a: int, b: int): int { if a < b then a else b }

  lemma MulAtLeast(x: int, d: nat)
    requires x >= 1
    ensures x * d >= d
  {
    assert x * d == (x - 1) * d + d;
  }

  lemma LargerQuotient(d: nat, q: nat, r: nat, q': nat, r': nat)
    requires r' < d
    ensures q > q' ==> q * d + r > q' * d + r'
  {
    if q > q' {
      MulAtLeast(q - q', d);
      assert q * d == q' * d + (q - q') * d;
    }
  }

  lemma DivModUnique(a: nat, d: nat, q: nat, r: nat)
    requires d > 0 && a == q * d + r && r < d
    ensures a / d == q && a % d == r
  {
    var q', r' := a / d, a % d;
    assert a == q' * d + r';
    LargerQuotient(d, q, r, q', r');
    LargerQuotient(d, q', r', q, r);
  }

  lemma QuotientAndRemainder(a: nat, d: nat)
    requires d > 0
    ensures a == a / d * d + a % d && a % d < d
  {
  }

  lemma ModBelow(k: nat, p: nat)
    requires p > 0
    ensures k < p ==> k % p == k
    ensures k >= p ==> k % p == (k - p) % p
  {
    if k < p {
      DivModUnique(k, p, 0, k);
    } else {
      var q, r := (k - p) / p, (k - p) % p;
      QuotientAndRemainder(k - p, p);
      assert k == (q + 1) * p + r;
      DivModUnique(k, p, q + 1, r);
    }
  }
}
