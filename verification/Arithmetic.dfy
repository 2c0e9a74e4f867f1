/** Multiples, quotients and common divisors. */
module Arithmetic {

  lemma {:induction false} AtLeastOnce(n: int, d: int)
    requires n >= 1 && d >= 0
    ensures n * d >= d
  {
    if n > 1 {
      AtLeastOnce(n - 1, d);
    }
  }

  /** A later multiple of d is at least d later. */
  lemma MultiplesAreApart(d: int, k: int, l: int)
    requires d >= 0 && k < l
    ensures k * d + d <= l * d
  {
    AtLeastOnce(l - k, d);
    assert (l - k) * d == l * d - k * d;
  }

  lemma DivisionIsUnique(d: int, q: int, r: int, y: int, m: int)
    requires d > 0 && 0 <= r < d && 0 <= m < d && q * d + r == y * d + m
    ensures q == y && r == m
  {
    if q > y {
      MultiplesAreApart(d, y, q);
    }
    if q < y {
      MultiplesAreApart(d, q, y);
    }
  }

  lemma QuotientIsUnique(x: int, d: int, q: int, r: int)
    requires d > 0 && x == q * d + r && 0 <= r < d
    ensures x % d == r
  {
    var y, m := x / d, x % d;
    assert x == y * d + m;
    DivisionIsUnique(d, q, r, y, m);
  }

  lemma MultiplesNotFewer(d: int, k: int, l: int)
    requires d >= 0 && k <= l
    ensures k * d <= l * d
  {
    if k < l {
      MultiplesAreApart(d, k, l);
    }
  }

  lemma HalfBelow(v: int, w: int, d: int)
    requires 2 * v < 2 * w + d
    ensures v <= w + (d + 1) / 2 - 1
  {
  }

  lemma HalfAbove(v: int, w: int, d: int)
    requires 2 * w - d <= 2 * v
    ensures w - d / 2 <= v
  {
  }

  // --------------------------------------------------------------- common divisors

  function Gcd(a: nat, b: nat): (g: nat)
    ensures a > 0 || b > 0 ==> g > 0
    decreases b
  {
    if b == 0 then a else Gcd(b, a % b)
  }

  /** The greatest common divisor is a combination of the two numbers. */
  lemma {:induction false} GcdIsCombination(a: nat, b: nat) returns (p: int, q: int)
    ensures p * a + q * b == Gcd(a, b)
    decreases b
  {
    if b == 0 {
      p, q := 1, 0;
    } else {
      var r, s := GcdIsCombination(b, a % b);
      var y := a / b;
      assert a % b == a - y * b;
      p, q := s, r - s * y;
      calc {
        p * a + q * b;
        s * a + (r - s * y) * b;
        { assert (r - s * y) * b == r * b - s * (y * b); }
        r * b + s * a - s * (y * b);
        { assert s * (a - y * b) == s * a - s * (y * b); }
        r * b + s * (a % b);
      }
    }
  }

  /** And it divides both. */
  lemma {:induction false} GcdDivides(a: nat, b: nat) returns (m: int, n: int)
    ensures a == m * Gcd(a, b) && b == n * Gcd(a, b)
    decreases b
  {
    if b == 0 {
      m, n := 1, 0;
    } else {
      var k, r := GcdDivides(b, a % b);
      var g, y := Gcd(a, b), a / b;
      m, n := y * k + r, k;
      calc {
        m * g;
        (y * k) * g + r * g;
        { assert (y * k) * g == y * (k * g); }
        y * b + a % b;
        a;
      }
    }
  }

  lemma MultipleIff(x: int, g: int)
    requires g > 0
    ensures x % g == 0 <==> exists y: int :: x == y * g
  {
    assert x == x / g * g + x % g;
    if y: int :| x == y * g {
      DivisionIsUnique(g, x / g, x % g, y, 0);
    }
  }

  lemma Distribute(k: int, m: int, l: int, n: int, g: int)
    ensures k * (m * g) - l * (n * g) == (k * m - l * n) * g
  {
    assert k * (m * g) == (k * m) * g && l * (n * g) == (l * n) * g;
  }

  /** A difference of a multiple of d and one of e is a multiple of the divisor. */
  lemma DistanceIsMultiple(k: int, l: int, d: int, e: int)
    requires d > 0 && e > 0
    ensures (k * d - l * e) % Gcd(d, e) == 0
  {
    var g := Gcd(d, e);
    var m, n := GcdDivides(d, e);
    Distribute(k, m, l, n, g);
    MultipleIff((k * m - l * n) * g, g);
  }

  /** And every multiple of it is such a difference. */
  lemma MultipleIsDistance(x: int, d: int, e: int) returns (k: int, l: int)
    requires d > 0 && e > 0 && x % Gcd(d, e) == 0
    ensures x == k * d - l * e
  {
    var p, q := GcdIsCombination(d, e);
    var y := x / Gcd(d, e);
    assert x == y * Gcd(d, e) == y * (p * d + q * e);
    Distribute(y, p, -y, q, d);
    k, l := y * p, -(y * q);
    assert y * (p * d + q * e) == (y * p) * d + (y * q) * e;
  }

  /** Both multiples can grow by one common multiple. */
  lemma Shifted(i: int, j: int, n: int, d: int, e: int)
    ensures (i + n * e) * d == i * d + n * (d * e)
    ensures (j + n * d) * e == j * e + n * (d * e)
  {
    assert (n * e) * d == n * (d * e) && (n * d) * e == n * (d * e);
  }

  lemma ProductIsPositive(d: int, e: int)
    requires d > 0 && e > 0
    ensures d * e > 0
  {
    AtLeastOnce(d, e);
  }

  /** It is a difference of multiples as large as one likes. */
  lemma MultipleIsLateDistance(x: int, d: int, e: int, from: int) returns (k: int, l: int)
    requires d > 0 && e > 0 && x % Gcd(d, e) == 0
    ensures x == k * d - l * e && from <= l * e
  {
    var i, j := MultipleIsDistance(x, d, e);
    var n := if from <= j * e then 0 else from - j * e;
    k, l := i + n * e, j + n * d;
    Shifted(i, j, n, d, e);
    ProductIsPositive(d, e);
    if n > 0 {
      MultiplesNotFewer(n, 1, d * e);
      assert 1 * n == n && (d * e) * n == n * (d * e);
    }
  }

  /** The greatest multiple of g up to a bound. */
  lemma LastMultiple(x: int, hi: int, g: int)
    requires g > 0 && x % g == 0 && x <= hi
    ensures x <= hi - hi % g
  {
    assert hi == hi / g * g + hi % g && x == x / g * g;
    if x / g > hi / g {
      MultiplesAreApart(g, hi / g, x / g);
    }
    if x / g < hi / g {
      MultiplesAreApart(g, x / g, hi / g);
    }
  }

  lemma MultipleBelow(hi: int, g: int)
    requires g > 0
    ensures (hi - hi % g) % g == 0
  {
    MultipleIff(hi - hi % g, g);
    assert hi == hi / g * g + hi % g;
  }
}
