/** Facts about products and quotients that the layouts of disks need. */
module Products {

  lemma Divided(g: nat, n: nat)
    requires n > 0
    ensures g == n * (g / n) + g % n && 0 <= g % n < n && g / n >= 0
  {}

  lemma Times(a: int, b: int, c: nat)
    requires a <= b
    ensures a * c <= b * c
  {}

  lemma StrictTimes(a: nat, b: nat, c: nat)
    requires a < b && c > 0
    ensures a * c < b * c
  {}

  lemma Plus(a: int, c: int)
    ensures (a + 1) * c == a * c + c
  {}

  lemma Distributes(a: int, b: int, c: int)
    ensures (a + b) * c == a * c + b * c
  {}

  lemma SwapFactors(a: int, b: int)
    ensures a * b == b * a
  {}

  lemma QuotientIs(n: nat, v: nat, q: nat, r: nat)
    requires v > 0 && n == v * q + r && r < v
    ensures n / v == q
  {
    Divided(n, v);
    if n / v < q {
      Times(n / v + 1, q, v);
      Plus(n / v, v);
      SwapFactors(v, n / v);
      SwapFactors(v, q);
    } else if q < n / v {
      Times(q + 1, n / v, v);
      Plus(q, v);
      SwapFactors(v, n / v);
      SwapFactors(v, q);
    }
  }
}
