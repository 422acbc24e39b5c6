/** Facts about products, quotients and remainders. */
module Arithmetic {

  lemma MulGap(c: nat, p: int, q: int)
    requires p < q
    ensures c * p + c <= c * q
  {
    assert c * q == c * p + c * (q - p);
    assert c * (q - p) == c * (q - p - 1) + c;
  }

  lemma MulMonotone(c: nat, a: nat, b: nat)
    requires a <= b
    ensures c * a <= c * b
  {
    if a < b { MulGap(c, a, b); }
  }

  /** Quotient and remainder are determined by their equation. */
  lemma ModUnique(x: int, c: nat, q: int, r: nat)
    requires c > 0 && x == c * q + r && r < c
    ensures x % c == r && x / c == q
  {
    var p, s := x / c, x % c;
    assert x == c * p + s;
    if p < q { MulGap(c, p, q); } else if q < p { MulGap(c, q, p); }
  }

  lemma ModMinus(x: int, c: nat)
    requires c > 0
    ensures (x - c) % c == x % c
  {
    var q, r := x / c, x % c;
    assert x == c * q + r;
    assert x - c == c * (q - 1) + r by { assert c * (q - 1) == c * q - c; }
    ModUnique(x - c, c, q - 1, r);
  }

  lemma DivideLeast(n: nat, least: nat, size: nat)
    requires least > 0 && size >= least * n
    ensures n <= size / least
  {
    var q := size / least;
    if q < n {
      MulMonotone(least, q + 1, n);
      assert false;
    }
  }
}
