/** Facts about floored division that every fixed-point computation below rests on. */
module FixedPoint {

  /** Flooring twice is flooring once by the product. */
  lemma DivDiv(x: int, a: nat, b: nat)
    requires 0 < a && 0 < b
    ensures 0 < a * b && x / a / b == x / (a * b)
  {
    var q := x / a / b;
    var r := x / a % b;
    assert x / a == b * q + r;
    assert x == a * (b * q + r) + x % a;
    assert a * (b * q + r) == a * b * q + a * r;
    assert 0 <= a * r <= a * (b - 1) by { MulMono(a, 0, r); MulMono(a, r, b - 1); }
    assert a * (b - 1) == a * b - a;
    DivUnique(x, a * b, q, a * r + x % a);
  }

  /** Quotient and remainder are determined by the division identity. */
  lemma DivUnique(x: int, d: int, q: int, r: int)
    requires 0 < d && 0 <= r < d
    requires x == d * q + r
    ensures x / d == q && x % d == r
  {
    var k := x / d - q;
    assert d * k == r - x % d by {
      assert x == d * (x / d) + x % d;
      assert d * k == d * (x / d) - d * q;
    }
    if k >= 1 {
      MulMono(d, 1, k);
    } else if k <= -1 {
      MulMono(d, k, -1);
    }
  }

  lemma MulMono(k: int, x: int, y: int)
    requires 0 <= k && x <= y
    ensures k * x <= k * y
  {
    assert 0 <= k * (y - x);
    assert k * (y - x) == k * y - k * x;
  }

  lemma DivMono(x: int, y: int, d: int)
    requires 0 < d && x <= y
    ensures x / d <= y / d
  {
    if y / d < x / d {
      MulMono(d, y / d + 1, x / d);
    }
  }

  /** A common factor cancels. */
  lemma DivCancel(x: int, d: int, k: int)
    requires 0 < d && 0 < k
    ensures 0 < d * k && (x * k) / (d * k) == x / d
  {
    MulMono(k, 1, d);
    assert x == d * (x / d) + x % d;
    assert x * k == d * k * (x / d) + x % d * k;
    MulMono(k, x % d, d - 1);
    MulMono(k, 0, x % d);
    assert k * (d - 1) == d * k - k;
    DivUnique(x * k, d * k, x / d, x % d * k);
  }

  /** Splitting a dividend loses at most one unit. */
  lemma DivSplit(x: int, y: int, d: int)
    requires 0 < d
    ensures x / d + y / d <= (x + y) / d <= x / d + y / d + 1
  {
    var q := x / d + y / d;
    var r := x % d + y % d;
    assert x + y == d * q + r by {
      assert d * q == d * (x / d) + d * (y / d);
    }
    if r < d {
      DivUnique(x + y, d, q, r);
    } else {
      assert d * (q + 1) == d * q + d;
      DivUnique(x + y, d, q + 1, r - d);
    }
  }

  /** The floor sits between the exact quotient and one below it. */
  lemma DivBounds(x: int, d: int)
    requires 0 < d
    ensures d * (x / d) <= x < d * (x / d) + d
  {
  }

  /** A lower bound on a quotient, read off a product. */
  lemma DivAtLeast(x: int, d: int, q: int)
    requires 0 < d && d * q <= x
    ensures q <= x / d
  {
    if x / d < q {
      MulMono(d, x / d + 1, q);
    }
  }
}
