/** Division facts used by the layout and bucket arithmetic. */
module Arith {

  lemma MulSign(k: int, n: nat)
    ensures k >= 1 ==> k * n >= n
    ensures k <= -1 ==> k * n <= 0 - n
  {
    if k >= 1 {
      assert k * n == (k - 1) * n + n && (k - 1) * n >= 0;
    } else if k <= -1 {
      assert k * n == -((-k - 1) * n) - n && (-k - 1) * n >= 0;
    }
  }

  lemma MulAdd(a: int, b: int, c: int)
    ensures (a + b) * c == a * c + b * c
    ensures c * (a + b) == c * a + c * b
  {}

  lemma MulAssoc(a: int, b: int, c: int)
    ensures a * b * c == a * (b * c) && a * (b * c) == b * (a * c)
  {}

  /** Scaling a number in division form. */
  lemma ScaleParts(q: nat, n: nat, r: nat, k: nat)
    ensures (q * n + r) * k == q * (k * n) + r * k
  {
    MulAdd(q * n, r, k);
    MulAssoc(q, n, k);
    assert n * k == k * n;
  }

  lemma DivisionUnique(n: nat, i: nat, q: nat, r: nat)
    requires r < n && i == q * n + r
    ensures i / n == q && i % n == r
  {
    var k := i / n - q;
    assert k * n == (i / n) * n - q * n;
    MulSign(k, n);
  }

  lemma ModCases(n: nat, i: nat)
    requires 0 < n && i < 3 * n
    ensures i % n == if i < n then i else if i < 2 * n then i - n else i - 2 * n
  {
    var q := if i < n then 0 else if i < 2 * n then 1 else 2;
    DivisionUnique(n, i, q, i - q * n);
  }

  lemma MulMono(a: int, b: int, n: nat)
    ensures a <= b ==> a * n <= b * n
    ensures a < b && n > 0 ==> a * n < b * n
  {
    if a <= b {
      assert b * n == a * n + (b - a) * n && (b - a) * n >= 0;
      if a < b { MulSign(b - a, n); }
    }
  }

  /** x / n >= q exactly when x >= q * n. */
  lemma DivAtLeast(n: nat, x: nat, q: nat)
    requires 0 < n
    ensures x / n >= q <==> x >= q * n
  {
    var d := x / n;
    assert x == d * n + x % n;
    MulMono(q, d, n);
    MulMono(d + 1, q, n);
    assert (d + 1) * n == d * n + n;
  }

  lemma SmallMod(q: nat, n: nat)
    requires q < n
    ensures q % n == q
  {
    DivisionUnique(n, q, 0, q);
  }

  lemma ProductBelow(i: nat, n: nat, b: nat)
    requires i < n && 1 <= b
    ensures i * b < b * n
  {
    MulMono(i, n, b);
    assert n * b == b * n;
  }
}
