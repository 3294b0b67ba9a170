/** Integer facts the frame-sampling and progress arithmetic rely on. */
module Arith {

  function Min(a: int, b: int): int { if a < b then a else b }

  function Max(a: int, b: int): int { if a < b then b else a }

  /** Python's `a // b`: the quotient rounded towards minus infinity. */
  function FloorDiv(a: int, b: int): (q: int)
    requires b != 0
    ensures b > 0 ==> b * q <= a < b * q + b
    ensures b < 0 ==> b * q >= a > b * q + b
  {
    if b > 0 then DivBounds(a, b); a / b
    else DivBounds(-a, -b); (-a) / (-b)
  }

  /** `int(a / d)` for a positive `d`: the true quotient truncated towards zero. */
  function TruncDiv(a: int, d: nat): (q: int)
    requires d > 0
    ensures 0 <= a ==> 0 <= d * q <= a < d * q + d
    ensures a < 0 ==> d * q - d < a <= d * q <= 0
  {
    if a >= 0 then DivBounds(a, d); a / d
    else
      var p := (-a) / d;
      DivBounds(-a, d);
      assert d * -p == -(d * p);
      -p
  }

  /** The quotient by a positive divisor rounds down. */
  lemma DivBounds(a: int, d: nat)
    requires d > 0
    ensures d * (a / d) <= a < d * (a / d) + d
  {
    assert a == d * (a / d) + a % d;
  }

  /** `ceil(a / s)`: the number of multiples of `s` below `a`. */
  function CeilDiv(a: nat, s: nat): nat
    requires s > 0
  {
    (a + s - 1) / s
  }

  lemma MulMonotone(a: nat, x: int, y: int)
    requires x <= y
    ensures a * x <= a * y
  {
    assert a * y - a * x == a * (y - x);
  }

  /** `k * s < a` holds exactly for the first `CeilDiv(a, s)` values of `k`. */
  lemma CeilDivIff(a: nat, s: nat, k: nat)
    requires s > 0
    ensures k * s < a <==> k < CeilDiv(a, s)
  {
    var q := CeilDiv(a, s);
    assert q * s <= a + s - 1 < q * s + s;
    if k < q {
      MulMonotone(s, k + 1, q);
      assert (k + 1) * s == k * s + s;
    } else {
      MulMonotone(s, q, k);
    }
  }

  /** Division by a positive number is monotone. */
  lemma DivMonotone(a: int, b: int, d: nat)
    requires a <= b && d > 0
    ensures a / d <= b / d
  {
    assert d * (a / d) <= a;
    assert b < d * (b / d) + d;
    if a / d > b / d {
      MulMonotone(d, b / d + 1, a / d);
    }
  }

  /** Quotient and remainder are determined by `k == q * d + r`, `0 <= r < d`. */
  lemma DivUnique(k: int, d: nat, q: int, r: int)
    requires d > 0 && 0 <= r < d && k == q * d + r
    ensures k / d == q && k % d == r
  {
    var q', r' := k / d, k % d;
    assert (q - q') * d == r' - r;
    if q > q' {
      MulMonotone(d, 1, q - q');
    } else if q < q' {
      assert (q' - q) * d == r - r';
      MulMonotone(d, 1, q' - q);
    }
  }

  /** `CeilDiv` is monotone, so it commutes with `Min`. */
  lemma CeilDivMin(a: nat, b: nat, s: nat)
    requires s > 0
    ensures CeilDiv(Min(a, b), s) == Min(CeilDiv(a, s), CeilDiv(b, s))
  {
    if a <= b {
      DivMonotone(a + s - 1, b + s - 1, s);
    } else {
      DivMonotone(b + s - 1, a + s - 1, s);
    }
  }

  /** `q * d` steps through the multiples of `d` one at a time. */
  lemma DivStep(k: nat, d: nat)
    requires k >= 1 && d > 0
    ensures k / d == (k - 1) / d + (if k % d == 0 then 1 else 0)
    ensures k % d == 0 ==> k == (k / d) * d
  {
    var q, r := (k - 1) / d, (k - 1) % d;
    assert k - 1 == q * d + r && 0 <= r < d;
    if r == d - 1 {
      DivUnique(k, d, q + 1, 0);
    } else {
      DivUnique(k, d, q, r + 1);
    }
  }

  /** One more row of `c` cells adds `c`. */
  lemma MulSucc(a: int, c: int)
    ensures (a + 1) * c == a * c + c
  {
  }
}
