/** Facts about division that the verifier's arithmetic does not find by itself, and the truncated
    division of JavaScript. Dafny's own division floors when the divisor is positive. */
module Arithmetic {

  lemma DivUnique(a: int, k: int, q: int, r: int)
    requires k > 0 && a == k * q + r && 0 <= r < k
    ensures a / k == q && a % k == r
  {
    var d := a / k - q;
    assert a == k * (a / k) + a % k;
    assert k * d == r - a % k by { assert k * (a / k) - k * q == k * d; }
    assert d * k == r - a % k;
    assert d == 0;
  }

  lemma DivStep(a: int, k: int)
    requires k > 0
    ensures (a + 1) / k == a / k + (if (a + 1) % k == 0 then 1 else 0)
  {
    var q, r := a / k, a % k;
    if r == k - 1 {
      assert a + 1 == k * (q + 1);
      DivUnique(a + 1, k, q + 1, 0);
    } else {
      DivUnique(a + 1, k, q, r + 1);
    }
  }

  lemma ModShift(y: int, k: int, j: int)
    requires k > 0
    ensures (y - k * j) % k == y % k
  {
    assert y - k * j == k * (y / k - j) + y % k;
    DivUnique(y - k * j, k, y / k - j, y % k);
  }

  lemma Floors(a: int, k: int, q: int)
    requires k > 0
    ensures k * q <= a < k * q + k <==> a / k == q
  {
    if k * q <= a < k * q + k { DivUnique(a, k, q, a - k * q); }
  }

  // absFloor(a / b), and a % b, for whole numbers and b > 0.
  function Trunc(a: int, b: int): int
    requires b > 0
  {
    if a < 0 then -(-a / b) else a / b
  }

  function Rem(a: int, b: int): int
    requires b > 0
  {
    if a < 0 then -(-a % b) else a % b
  }

  lemma MultipleOf(k: int, n: int)
    requires n > 0
    ensures k * n % n == 0 && k * n / n == k
  {
    Commutes(k, n);
    DivUnique(k * n, n, k, 0);
  }

  lemma Commutes(a: int, b: int)
    ensures a * b == b * a
  {
  }

  lemma ProductSign(k: int, n: int)
    requires n > 0
    ensures k < 0 <==> k * n < 0
  {
  }

  // The greatest multiple of n up to a.
  lemma FloorMultiple(a: int, n: int)
    requires n > 0 && a >= 0
    ensures a / n * n == a - a % n && 0 <= a % n <= a && (a - a % n) % n == 0
  {
    var k := a / n;
    Commutes(k, n);
    MultipleOf(k, n);
    ProductSign(k, n);
    if k < 0 { ProductSign(k, n); }
  }
}
