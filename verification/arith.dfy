/**
 Integer facts shared by the numeric toolkit: absolute value, divisibility,
 and JavaScript's remainder operator on integers.
 */
module Arith {

  function Abs(x: int): nat {
    if x < 0 then -x else x
  }

  /** Multiplication behind a name, so that divisibility can be quantified with a trigger. */
  function Times(a: int, b: int): int {
    a * b
  }

  /** `d` divides `n`: some integer multiple of `d` equals `n` (so zero divides only zero). */
  ghost predicate Divides(d: int, n: int) {
    exists k :: Times(d, k) == n
  }

  /** The quotient JavaScript's `%` pairs with: integer division truncated toward zero. */
  function JsQuot(a: int, b: int): int
    requires b != 0
  {
    var q := Abs(a) / Abs(b);
    if (a < 0) == (b < 0) then q else -q
  }

  /**
   JavaScript's `%` on integers: the remainder of truncated division, which
   takes the sign of the dividend (unlike Dafny's Euclidean `%`).
   */
  function JsRem(a: int, b: int): (r: int)
    requires b != 0
    ensures a == b * JsQuot(a, b) + r
    ensures Abs(r) < Abs(b)
    ensures a >= 0 ==> r >= 0
    ensures a <= 0 ==> r <= 0
  {
    var m := Abs(a) % Abs(b);
    var q := Abs(a) / Abs(b);
    assert Abs(a) == Abs(b) * q + m;
    if a < 0 then
      if b < 0 then assert a == b * q - m; -m
      else assert a == b * (-q) - m; -m
    else
      if b < 0 then assert a == b * (-q) + m; m
      else m
  }

  lemma DividesRefl(d: int)
    ensures Divides(d, d)
  {
    assert Times(d, 1) == d;
  }

  lemma DividesZero(d: int)
    ensures Divides(d, 0)
  {
    assert Times(d, 0) == 0;
  }

  /** Only zero is a multiple of zero. */
  lemma ZeroDivides(n: int)
    requires Divides(0, n)
    ensures n == 0
  {
    var k :| Times(0, k) == n;
  }

  /** Every common divisor of `a` and `b` divides each of their integer combinations. */
  lemma DividesCombination(d: int, a: int, b: int, x: int, y: int)
    requires Divides(d, a) && Divides(d, b)
    ensures Divides(d, a * x + b * y)
  {
    var i :| Times(d, i) == a;
    var j :| Times(d, j) == b;
    assert a * x == d * (i * x);
    assert b * y == d * (j * y);
    assert a * x + b * y == d * (i * x + j * y);
    assert Times(d, i * x + j * y) == a * x + b * y;
  }

  lemma DividesTrans(a: int, b: int, c: int)
    requires Divides(a, b) && Divides(b, c)
    ensures Divides(a, c)
  {
    var i :| Times(a, i) == b;
    var j :| Times(b, j) == c;
    assert c == a * (i * j);
    assert Times(a, i * j) == c;
  }

  /** A positive divisor of a positive number is at most that number. */
  lemma DivisorBound(d: int, n: int)
    requires d > 0 && n > 0 && Divides(d, n)
    ensures d <= n
  {
    var k :| Times(d, k) == n;
    assert k >= 1 ==> d * k >= d * 1;
  }

  /** Two non-negative numbers that divide each other are equal. */
  lemma MutualDivides(a: int, b: int)
    requires a >= 0 && b >= 0
    requires Divides(a, b) && Divides(b, a)
    ensures a == b
  {
    if a == 0 {
      ZeroDivides(b);
    } else if b == 0 {
      ZeroDivides(a);
    } else {
      DivisorBound(a, b);
      DivisorBound(b, a);
    }
  }

  /** For a positive divisor, divisibility is a zero Euclidean remainder. */
  lemma DividesIffRemZero(d: int, n: int)
    requires d > 0
    ensures Divides(d, n) <==> n % d == 0
  {
    if n % d == 0 {
      assert Times(d, n / d) == n;
    }
    if Divides(d, n) {
      var k :| Times(d, k) == n;
      var q, r := n / d, n % d;
      assert n == d * q + r && 0 <= r < d;
      assert d * (k - q) == r;
      assert k - q >= 1 ==> d * (k - q) >= d * 1;
      assert k - q <= -1 ==> d * (k - q) <= d * -1;
    }
  }

  /** Dividing an exact multiple of a non-zero `g` by `g` recovers the multiplier. */
  lemma ExactQuotient(g: int, m: int)
    requires g != 0
    ensures (g * m) / g == m
  {
    var q, r := (g * m) / g, (g * m) % g;
    assert g * m == g * q + r && 0 <= r < Abs(g);
    assert g * (m - q) == r;
    assert m - q >= 1 ==> Abs(g * (m - q)) >= Abs(g);
    assert m - q <= -1 ==> Abs(g * (m - q)) >= Abs(g);
  }

  /** If `l * g == a * b` and `g` divides `b`, then `a` divides `l`. */
  lemma QuotientMultiple(a: int, b: int, g: int, l: int)
    requires g != 0 && l * g == a * b && Divides(g, b)
    ensures Divides(a, l)
  {
    var k :| Times(g, k) == b;
    assert g * l == g * (a * k);
    assert l == a * k;
    assert Times(a, k) == l;
  }

  /** Divisibility ignores signs. */
  lemma DividesAbs(d: int, n: int)
    requires Divides(d, n)
    ensures Divides(Abs(d), Abs(n))
  {
    var k :| Times(d, k) == n;
    assert Abs(d) * Abs(k) == Abs(d * k) by {
      if d < 0 && k < 0 {
        assert (-d) * (-k) == d * k;
      } else if d < 0 {
        assert (-d) * k == -(d * k);
      } else if k < 0 {
        assert d * (-k) == -(d * k);
      }
    }
    assert Times(Abs(d), Abs(k)) == Abs(n);
  }

  /** Two numbers that divide each other are equal up to sign. */
  lemma MutualDividesAbs(a: int, b: int)
    requires Divides(a, b) && Divides(b, a)
    ensures Abs(a) == Abs(b)
  {
    DividesAbs(a, b);
    DividesAbs(b, a);
    MutualDivides(Abs(a), Abs(b));
  }
}
