/**
 The numeric toolkit behind the `/bfhl` endpoint: the Fibonacci series, the
 trial-division primality test, the Euclidean gcd and its two folds, hcf and
 lcm. Each function follows the branch structure of the JavaScript routine it
 models; the lemmas relate it to the mathematical notion it implements.
 */
module Toolkit {
  import opened Arith

  // ---------------------------------------------------------------- Fibonacci

  /** The Fibonacci numbers, seeded with 0 and 1. */
  function Fib(i: nat): nat {
    if i < 2 then i else Fib(i - 1) + Fib(i - 2)
  }

  /** Every term of `s` is the Fibonacci number of its index. */
  ghost predicate FibPrefix(s: seq<int>) {
    forall i :: 0 <= i < |s| ==> s[i] == Fib(i)
  }

  /** Extends a seeded series one term at a time, each the sum of the two before it, until it has `n` terms. */
  function Grow(series: seq<int>, n: int): (r: seq<int>)
    requires |series| >= 2 && FibPrefix(series)
    ensures |r| == if n <= |series| then |series| else n
    ensures FibPrefix(r)
    decreases n - |series|
  {
    if |series| < n then Grow(series + [series[|series| - 1] + series[|series| - 2]], n)
    else series
  }

  /** `fibonacci(n)`: the seeded pair grown to `n` terms, then cut back to `n` (so 1 gives `[0]`). */
  function Fibonacci(n: int): (s: seq<int>)
    ensures |s| == if n <= 0 then 0 else n
    ensures FibPrefix(s)
  {
    if n <= 0 then [] else Grow([0, 1], n)[..n]
  }

  /** The `for` loop of `fibonacci`, step for step; it computes the same series. */
  method FibonacciLoop(n: int) returns (s: seq<int>)
    ensures s == Fibonacci(n)
    ensures |s| == if n <= 0 then 0 else n
    ensures |s| >= 1 ==> s[0] == 0
    ensures |s| >= 2 ==> s[1] == 1
    ensures forall i :: 2 <= i < |s| ==> s[i] == s[i - 1] + s[i - 2]
  {
    if n <= 0 {
      return [];
    }
    var series := [0, 1];
    var i := 2;
    while i < n
      invariant 2 <= i == |series|
      invariant i <= n || i == 2
      invariant FibPrefix(series)
    {
      series := series + [series[i - 1] + series[i - 2]];
      i := i + 1;
    }
    s := series[..n];
    var f := Fibonacci(n);
    assert |s| == |f| && forall j :: 0 <= j < |s| ==> s[j] == f[j];
  }

  /** The first terms of the series for a few sample lengths. */
  lemma FibonacciSmall()
    ensures Fibonacci(0) == [] && Fibonacci(-3) == []
    ensures Fibonacci(1) == [0]
    ensures Fibonacci(2) == [0, 1]
    ensures Fibonacci(5) == [0, 1, 1, 2, 3]
  {
    var s := Fibonacci(5);
    assert s[0] == Fib(0) == 0 && s[1] == Fib(1) == 1 && s[2] == Fib(2) == 1;
    assert s[3] == Fib(3) == 2 && s[4] == Fib(4) == 3;
    var t := Fibonacci(2);
    assert t[0] == 0 && t[1] == 1;
  }

  // ---------------------------------------------------------------- primality

  /** `n` is prime: at least 2, and no number strictly between 1 and `n` divides it. */
  ghost predicate Prime(n: int) {
    n >= 2 && forall d :: 2 <= d < n ==> !Divides(d, n)
  }

  lemma SquareMonotone(i: int, j: int)
    requires 0 <= i <= j
    ensures i * i <= j * j
  {
    assert i * i <= i * j <= j * j;
  }

  /**
   The trial-division loop of `isPrime` from candidate `i` upward: true when no
   `j >= i` with `j * j <= num` divides `num` (`j * j <= num` stands for
   `j <= Math.sqrt(num)`).
   */
  function NoDivisorFrom(num: int, i: int): (b: bool)
    requires i >= 2
    ensures b <==> forall j :: i <= j && j * j <= num ==> !Divides(j, num)
    decreases num - i
  {
    if i * i > num then
      assert forall j :: i <= j ==> i * i <= j * j by {
        forall j | i <= j {
          SquareMonotone(i, j);
        }
      }
      true
    else
      assert i < num by {
        assert i * i >= 2 * i;
      }
      DividesIffRemZero(i, num);
      if num % i == 0 then false
      else NoDivisorFrom(num, i + 1)
  }

  /** `isPrime(num)`: false up to 1, otherwise no trial divisor up to the square root divides it. */
  function IsPrime(num: int): (b: bool)
    ensures b <==> num > 1 && forall i :: 2 <= i && i * i <= num ==> !Divides(i, num)
  {
    num > 1 && NoDivisorFrom(num, 2)
  }

  /** A candidate whose square is at most `n` is smaller than `n`. */
  lemma CandidateBelow(i: int, n: int)
    requires 2 <= i && i * i <= n
    ensures i < n
  {
    assert i * i >= 2 * i;
  }

  /** A composite number has a divisor at least 2 whose square does not exceed it. */
  lemma SmallFactor(d: int, n: int) returns (e: int)
    requires 2 <= d < n && Divides(d, n)
    ensures 2 <= e && e * e <= n && Divides(e, n)
  {
    var k :| Times(d, k) == n;
    assert d * k == n;
    assert k >= 2 by {
      assert k <= 0 ==> d * k <= 0;
      assert k != 1;
    }
    assert Times(k, d) == n;
    if d * d <= n {
      e := d;
    } else {
      assert k < d by {
        assert k >= d ==> d * k >= d * d;
      }
      assert k * k <= k * d;
      e := k;
    }
  }

  /** Trial division up to the square root decides primality. */
  lemma IsPrimeIsPrimality(n: int)
    ensures IsPrime(n) <==> Prime(n)
  {
    if Prime(n) {
      forall i | 2 <= i && i * i <= n
        ensures !Divides(i, n)
      {
        CandidateBelow(i, n);
      }
    }
    if IsPrime(n) && !Prime(n) {
      var d :| 2 <= d < n && Divides(d, n);
      var e := SmallFactor(d, n);
    }
  }

  /** The loop of `isPrime` with its early `return false`; it agrees with `IsPrime`. */
  method IsPrimeLoop(num: int) returns (b: bool)
    ensures b == IsPrime(num)
    ensures b <==> Prime(num)
  {
    IsPrimeIsPrimality(num);
    if num <= 1 {
      return false;
    }
    var i := 2;
    while i * i <= num
      invariant i >= 2
      invariant NoDivisorFrom(num, i) == NoDivisorFrom(num, 2)
      decreases num - i
    {
      assert i * i >= 2 * i;
      if num % i == 0 {
        return false;
      }
      i := i + 1;
    }
    return true;
  }

  // ---------------------------------------------------------------- gcd

  /**
   `gcd(a, b)`: the Euclidean loop `[a, b] = [b, a % b]` until `b` is zero,
   as recursion, with JavaScript's remainder. `|b|` shrinks at every step.
   */
  function Gcd(a: int, b: int): (g: int)
    ensures g == 0 <==> a == 0 && b == 0
    ensures a >= 0 && b >= 0 ==> g >= 0
    decreases Abs(b)
  {
    if b == 0 then a else Gcd(b, JsRem(a, b))
  }

  /** One Euclidean step keeps the common divisors: those of `a, b` are those of `b, a % b`. */
  lemma EuclidStep(d: int, a: int, b: int)
    requires b != 0
    ensures Divides(d, a) && Divides(d, b) <==> Divides(d, b) && Divides(d, JsRem(a, b))
  {
    var q, r := JsQuot(a, b), JsRem(a, b);
    assert a == b * q + r;
    if Divides(d, a) && Divides(d, b) {
      DividesCombination(d, a, b, 1, -q);
      assert a * 1 + b * (-q) == r;
    }
    if Divides(d, b) && Divides(d, r) {
      DividesCombination(d, b, r, q, 1);
      assert b * q + r * 1 == a;
    }
  }

  /** The result divides both inputs, and every common divisor of the inputs divides it. */
  lemma {:induction false} GcdIsGreatestCommonDivisor(a: int, b: int)
    ensures Divides(Gcd(a, b), a) && Divides(Gcd(a, b), b)
    ensures forall d :: Divides(d, a) && Divides(d, b) ==> Divides(d, Gcd(a, b))
    decreases Abs(b)
  {
    if b == 0 {
      DividesRefl(a);
      DividesZero(a);
    } else {
      var r := JsRem(a, b);
      GcdIsGreatestCommonDivisor(b, r);
      EuclidStep(Gcd(a, b), a, b);
      forall d | Divides(d, a) && Divides(d, b)
        ensures Divides(d, Gcd(a, b))
      {
        EuclidStep(d, a, b);
      }
    }
  }

  /** Re-expresses a combination of `b` and `a % b` as a combination of `a` and `b`. */
  lemma RecombineStep(a: int, b: int, x: int, y: int)
    requires b != 0
    ensures b * x + JsRem(a, b) * y == a * y + b * (x - JsQuot(a, b) * y)
  {
    var q, r := JsQuot(a, b), JsRem(a, b);
    assert r == a - b * q;
    assert r * y == a * y - b * q * y;
  }

  /** Bezout's identity for the loop's result: it is an integer combination of the inputs. */
  lemma {:induction false} GcdBezout(a: int, b: int) returns (x: int, y: int)
    ensures Gcd(a, b) == a * x + b * y
    decreases Abs(b)
  {
    if b == 0 {
      x, y := 1, 0;
    } else {
      var x', y' := GcdBezout(b, JsRem(a, b));
      RecombineStep(a, b, x', y');
      x, y := y', x' - JsQuot(a, b) * y';
    }
  }

  /** The `while` loop of `gcd` itself; it returns a common divisor, the same one as `Gcd`. */
  method GcdLoop(a0: int, b0: int) returns (g: int)
    ensures g == Gcd(a0, b0)
    ensures Divides(g, a0) && Divides(g, b0)
    ensures b0 == 0 ==> g == a0
  {
    var a, b := a0, b0;
    while b != 0
      invariant Gcd(a, b) == Gcd(a0, b0)
      decreases Abs(b)
    {
      a, b := b, JsRem(a, b);
    }
    g := a;
    GcdIsGreatestCommonDivisor(a0, b0);
  }

  // ---------------------------------------------------------------- hcf

  /** `d` divides every element of `xs`. */
  ghost predicate CommonDivisor(d: int, xs: seq<int>) {
    forall x :: x in xs ==> Divides(d, x)
  }

  /** The left fold `reduce((a, b) => gcd(a, b))` continued from accumulator `acc`. */
  function GcdFold(acc: int, rest: seq<int>): (g: int)
    ensures acc >= 0 && (forall x :: x in rest ==> x >= 0) ==> g >= 0
    decreases |rest|
  {
    if rest == [] then acc
    else
      assert rest[0] in rest && forall x :: x in rest[1..] ==> x in rest;
      GcdFold(Gcd(acc, rest[0]), rest[1..])
  }

  /** `hcf(arr)`: defined for non-empty arrays only (an empty `reduce` throws). */
  function Hcf(xs: seq<int>): (h: int)
    requires |xs| > 0
    ensures (forall x :: x in xs ==> x >= 0) ==> h >= 0
  {
    assert xs[0] in xs && forall x :: x in xs[1..] ==> x in xs;
    GcdFold(xs[0], xs[1..])
  }

  lemma {:induction false} GcdFoldIsGreatest(acc: int, rest: seq<int>)
    ensures Divides(GcdFold(acc, rest), acc) && CommonDivisor(GcdFold(acc, rest), rest)
    ensures forall d :: Divides(d, acc) && CommonDivisor(d, rest) ==> Divides(d, GcdFold(acc, rest))
    decreases |rest|
  {
    if rest == [] {
      DividesRefl(acc);
    } else {
      var g0 := Gcd(acc, rest[0]);
      var g := GcdFold(acc, rest);
      GcdIsGreatestCommonDivisor(acc, rest[0]);
      GcdFoldIsGreatest(g0, rest[1..]);
      DividesTrans(g, g0, acc);
      DividesTrans(g, g0, rest[0]);
      assert rest == [rest[0]] + rest[1..];
      forall d | Divides(d, acc) && CommonDivisor(d, rest)
        ensures Divides(d, g)
      {
        assert rest[0] in rest;
      }
    }
  }

  /** `hcf` divides every element, and every common divisor of the elements divides it. */
  lemma HcfIsGreatestCommonDivisor(xs: seq<int>)
    requires |xs| > 0
    ensures CommonDivisor(Hcf(xs), xs)
    ensures forall d :: CommonDivisor(d, xs) ==> Divides(d, Hcf(xs))
  {
    GcdFoldIsGreatest(xs[0], xs[1..]);
    assert xs == [xs[0]] + xs[1..];
  }

  /**
   Reordering the array can change the sign of `hcf` but not its magnitude;
   on non-negative elements it does not change `hcf` at all.
   */
  lemma HcfPermutationInvariant(xs: seq<int>, ys: seq<int>)
    requires |xs| > 0 && multiset(xs) == multiset(ys)
    ensures |ys| > 0 && Abs(Hcf(xs)) == Abs(Hcf(ys))
    ensures (forall x :: x in xs ==> x >= 0) ==> Hcf(xs) == Hcf(ys)
  {
    assert forall x :: x in xs <==> x in ys by {
      forall x
        ensures x in xs <==> x in ys
      {
        assert x in xs <==> x in multiset(xs);
        assert x in ys <==> x in multiset(ys);
      }
    }
    assert |ys| == |multiset(ys)| == |multiset(xs)| == |xs|;
    HcfIsGreatestCommonDivisor(xs);
    HcfIsGreatestCommonDivisor(ys);
    MutualDividesAbs(Hcf(xs), Hcf(ys));
  }

  /** With a negative element the sign of `hcf` depends on the order: `[4, -4]` gives -4, `[-4, 4]` gives 4. */
  lemma HcfOrderChangesSign()
    ensures Hcf([4, -4]) == -4 && Hcf([-4, 4]) == 4
  {
    assert JsRem(4, -4) == 0 && JsRem(-4, 4) == 0;
  }

  // ---------------------------------------------------------------- lcm

  /**
   What the lcm fold holds as a JavaScript number: an integer, or NaN once
   `0 * 0 / gcd(0, 0)` has been evaluated, or no value at all because a
   later `gcd(NaN, b)` with `b != 0` swaps NaN back into `b` and never stops.
   */
  datatype LcmValue = Finite(value: int) | NotANumber | Diverges

  /** One step `(a, b) => (a * b) / gcd(a, b)` of the fold; the division is exact when the gcd is not zero. */
  function LcmStep(acc: LcmValue, b: int): (r: LcmValue)
    ensures acc.Finite? && Gcd(acc.value, b) != 0 ==> r.Finite? && r.value * Gcd(acc.value, b) == acc.value * b
    ensures acc.Finite? && Gcd(acc.value, b) == 0 ==> r == NotANumber
  {
    match acc
    case Finite(a) =>
      var g := Gcd(a, b);
      if g == 0 then NotANumber
      else
        GcdIsGreatestCommonDivisor(a, b);
        var k :| Times(g, k) == a;
        assert a * b == g * (k * b);
        ExactQuotient(g, k * b);
        Finite(a * b / g)
    case NotANumber => if b == 0 then NotANumber else Diverges
    case Diverges => Diverges
  }

  /** The left fold `reduce((a, b) => (a * b) / gcd(a, b))` continued from `acc`. */
  /** The `reduce` of index.js:42: once the fold has left the integers it never returns to them. */
  function LcmFold(acc: LcmValue, rest: seq<int>): (r: LcmValue)
    ensures !acc.Finite? ==> !r.Finite?
    ensures acc.Diverges? ==> r.Diverges?
    decreases |rest|
  {
    if rest == [] then acc else LcmFold(LcmStep(acc, rest[0]), rest[1..])
  }

  /** `lcm(arr)`: defined for non-empty arrays only (an empty `reduce` throws). */
  function Lcm(xs: seq<int>): LcmValue
    requires |xs| > 0
  {
    LcmFold(Finite(xs[0]), xs[1..])
  }

  /** `m` is a multiple of every element of `xs`. */
  ghost predicate CommonMultiple(m: int, xs: seq<int>) {
    forall x :: x in xs ==> Divides(x, m)
  }

  /**
   With `l * g == a * b` and `g` a combination of `a` and `b`, every common
   multiple `c` of `a` and `b` is a multiple of `l`.
   */
  lemma LeastByBezout(a: int, b: int, g: int, l: int, x: int, y: int, c: int)
    requires g != 0 && l * g == a * b && g == a * x + b * y
    requires Divides(a, c) && Divides(b, c)
    ensures Divides(l, c)
  {
    var s :| Times(a, s) == c;
    var t :| Times(b, t) == c;
    var u := t * x + s * y;
    calc {
      c * g;
      c * (a * x) + c * (b * y);
      { assert c * (a * x) == (b * t) * (a * x) == (a * b) * (t * x); }
      (a * b) * (t * x) + c * (b * y);
      { assert c * (b * y) == (a * s) * (b * y) == (a * b) * (s * y); }
      (a * b) * (t * x) + (a * b) * (s * y);
      (a * b) * u;
      (l * g) * u;
      g * (l * u);
    }
    assert g * c == g * (l * u);
    assert c == l * u;
    assert Times(l, u) == c;
  }

  /** One step yields a common multiple of its inputs that divides every common multiple of them. */
  lemma LcmStepIsLeast(a: int, b: int)
    requires Gcd(a, b) != 0
    ensures Divides(a, LcmStep(Finite(a), b).value) && Divides(b, LcmStep(Finite(a), b).value)
    ensures forall c :: Divides(a, c) && Divides(b, c) ==> Divides(LcmStep(Finite(a), b).value, c)
  {
    var g := Gcd(a, b);
    var l := LcmStep(Finite(a), b).value;
    assert l * g == a * b;
    GcdIsGreatestCommonDivisor(a, b);
    QuotientMultiple(a, b, g, l);
    assert l * g == b * a;
    QuotientMultiple(b, a, g, l);
    var x, y := GcdBezout(a, b);
    forall c | Divides(a, c) && Divides(b, c)
      ensures Divides(l, c)
    {
      LeastByBezout(a, b, g, l, x, y, c);
    }
  }

  lemma {:induction false} LcmFoldIsLeast(a: int, rest: seq<int>)
    requires LcmFold(Finite(a), rest).Finite?
    ensures Divides(a, LcmFold(Finite(a), rest).value)
    ensures CommonMultiple(LcmFold(Finite(a), rest).value, rest)
    ensures forall c :: Divides(a, c) && CommonMultiple(c, rest) ==> Divides(LcmFold(Finite(a), rest).value, c)
    decreases |rest|
  {
    if rest == [] {
      DividesRefl(a);
    } else {
      var b := rest[0];
      var m := LcmFold(Finite(a), rest).value;
      if Gcd(a, b) == 0 {
        assert false;
      }
      var l := LcmStep(Finite(a), b).value;
      assert LcmFold(Finite(a), rest) == LcmFold(Finite(l), rest[1..]);
      LcmStepIsLeast(a, b);
      LcmFoldIsLeast(l, rest[1..]);
      DividesTrans(a, l, m);
      DividesTrans(b, l, m);
      assert rest == [b] + rest[1..];
      forall c | Divides(a, c) && CommonMultiple(c, rest)
        ensures Divides(m, c)
      {
        assert b in rest;
      }
    }
  }

  /** Once the fold holds NaN it never again holds an integer. */
  lemma {:induction false} NotANumberFold(rest: seq<int>)
    ensures LcmFold(NotANumber, rest) == if forall x :: x in rest ==> x == 0 then NotANumber else Diverges
    decreases |rest|
  {
    if rest != [] {
      assert rest == [rest[0]] + rest[1..];
      assert forall x :: x in rest <==> x == rest[0] || x in rest[1..];
      NotANumberFold(rest[1..]);
      if rest[0] != 0 {
        DivergesFold(rest[1..]);
        assert rest[0] in rest;
      }
    }
  }

  lemma {:induction false} DivergesFold(rest: seq<int>)
    ensures LcmFold(Diverges, rest) == Diverges
    decreases |rest|
  {
    if rest != [] {
      DivergesFold(rest[1..]);
    }
  }

  /**
   When `lcm` yields an integer, it is a multiple of every element and divides
   every common multiple of the elements.
   */
  lemma LcmIsLeastCommonMultiple(xs: seq<int>)
    requires |xs| > 0 && Lcm(xs).Finite?
    ensures CommonMultiple(Lcm(xs).value, xs)
    ensures forall c :: CommonMultiple(c, xs) ==> Divides(Lcm(xs).value, c)
  {
    LcmFoldIsLeast(xs[0], xs[1..]);
    assert xs == [xs[0]] + xs[1..];
  }

  lemma PositiveQuotient(a: int, b: int, g: int, l: int)
    requires a > 0 && b > 0 && g > 0 && l * g == a * b
    ensures l > 0
  {
    assert a * b >= 1 * b;
    assert l <= 0 ==> l * g <= 0;
  }

  /** On positive elements every step is defined and the result stays positive. */
  lemma {:induction false} LcmFoldPositive(a: int, rest: seq<int>)
    requires a > 0 && forall x :: x in rest ==> x > 0
    ensures LcmFold(Finite(a), rest).Finite? && LcmFold(Finite(a), rest).value > 0
    decreases |rest|
  {
    if rest != [] {
      var b := rest[0];
      var g := Gcd(a, b);
      var l := LcmStep(Finite(a), b).value;
      assert b in rest;
      PositiveQuotient(a, b, g, l);
      assert forall x :: x in rest[1..] ==> x in rest;
      LcmFoldPositive(l, rest[1..]);
    }
  }

  /** For positive elements `lcm` is a positive integer. */
  lemma LcmPositive(xs: seq<int>)
    requires |xs| > 0 && forall x :: x in xs ==> x > 0
    ensures Lcm(xs).Finite? && Lcm(xs).value > 0
  {
    assert xs[0] in xs;
    assert forall x :: x in xs[1..] ==> x in xs;
    LcmFoldPositive(xs[0], xs[1..]);
  }

  /** A step's integer result is zero exactly when one of its inputs is. */
  lemma StepZero(a: int, b: int)
    requires Gcd(a, b) != 0
    ensures LcmStep(Finite(a), b).value == 0 <==> a == 0 || b == 0
  {
    var g, l := Gcd(a, b), LcmStep(Finite(a), b).value;
    assert l * g == a * b;
    assert a != 0 && b != 0 ==> a * b != 0;
    assert l != 0 ==> l * g != 0;
  }

  lemma {:induction false} LcmFoldFinite(a: int, rest: seq<int>)
    ensures LcmFold(Finite(a), rest).Finite? <==> (if a == 0 then 1 else 0) + multiset(rest)[0] <= 1
    ensures LcmFold(Finite(a), rest).Finite? ==> (LcmFold(Finite(a), rest).value == 0 <==> a == 0 || 0 in rest)
    decreases |rest|
  {
    if rest != [] {
      var b := rest[0];
      assert rest == [b] + rest[1..];
      assert multiset(rest)[0] == (if b == 0 then 1 else 0) + multiset(rest[1..])[0];
      assert 0 in rest <==> b == 0 || 0 in rest[1..];
      if a == 0 && b == 0 {
        NotANumberFold(rest[1..]);
      } else {
        var l := LcmStep(Finite(a), b).value;
        StepZero(a, b);
        LcmFoldFinite(l, rest[1..]);
      }
    }
  }

  /** `lcm` yields an integer exactly when the array holds at most one zero. */
  lemma LcmFiniteIff(xs: seq<int>)
    requires |xs| > 0
    ensures Lcm(xs).Finite? <==> multiset(xs)[0] <= 1
  {
    LcmFoldFinite(xs[0], xs[1..]);
    assert xs == [xs[0]] + xs[1..];
    assert multiset(xs)[0] == (if xs[0] == 0 then 1 else 0) + multiset(xs[1..])[0];
  }

  /** Two zeros followed, somewhere later, by a non-zero element. */
  ghost predicate ZeroZeroNonzero(xs: seq<int>) {
    exists i, j, k :: 0 <= i < j < k < |xs| && xs[i] == 0 && xs[j] == 0 && xs[k] != 0
  }

  /** Merging the first two elements into one that is zero iff either was keeps the pattern. */
  lemma ZeroZeroNonzeroMerge(a: int, b: int, l: int, r: seq<int>)
    requires !(a == 0 && b == 0) && (l == 0 <==> a == 0 || b == 0)
    ensures ZeroZeroNonzero([a, b] + r) <==> ZeroZeroNonzero([l] + r)
  {
    var s1, s2 := [a, b] + r, [l] + r;
    if ZeroZeroNonzero(s1) {
      var i, j, k :| 0 <= i < j < k < |s1| && s1[i] == 0 && s1[j] == 0 && s1[k] != 0;
      assert j >= 2;
      if i <= 1 {
        assert s2[0] == 0 && s2[j - 1] == 0 && s2[k - 1] != 0;
      } else {
        assert s2[i - 1] == 0 && s2[j - 1] == 0 && s2[k - 1] != 0;
      }
    }
    if ZeroZeroNonzero(s2) {
      var i, j, k :| 0 <= i < j < k < |s2| && s2[i] == 0 && s2[j] == 0 && s2[k] != 0;
      if i == 0 {
        var i' := if a == 0 then 0 else 1;
        assert s1[i'] == 0 && s1[j + 1] == 0 && s1[k + 1] != 0;
      } else {
        assert s1[i + 1] == 0 && s1[j + 1] == 0 && s1[k + 1] != 0;
      }
    }
  }

  /** After two leading zeros the pattern only needs a later non-zero element. */
  lemma ZeroZeroNonzeroLeading(r: seq<int>)
    ensures ZeroZeroNonzero([0, 0] + r) <==> exists x :: x in r && x != 0
  {
    var s := [0, 0] + r;
    if ZeroZeroNonzero(s) {
      var i, j, k :| 0 <= i < j < k < |s| && s[i] == 0 && s[j] == 0 && s[k] != 0;
      assert s[k] == r[k - 2] && r[k - 2] in r;
    }
    if exists x :: x in r && x != 0 {
      var x :| x in r && x != 0;
      var k :| 0 <= k < |r| && r[k] == x;
      assert s[0] == 0 && s[1] == 0 && s[k + 2] != 0;
    }
  }

  lemma {:induction false} LcmFoldDiverges(a: int, rest: seq<int>)
    ensures LcmFold(Finite(a), rest) == Diverges <==> ZeroZeroNonzero([a] + rest)
    decreases |rest|
  {
    if rest == [] {
      assert !ZeroZeroNonzero([a]);
    } else {
      var b, r := rest[0], rest[1..];
      assert [a] + rest == [a, b] + r;
      if a == 0 && b == 0 {
        NotANumberFold(r);
        ZeroZeroNonzeroLeading(r);
      } else {
        var l := LcmStep(Finite(a), b).value;
        StepZero(a, b);
        LcmFoldDiverges(l, r);
        ZeroZeroNonzeroMerge(a, b, l, r);
      }
    }
  }

  /**
   `lcm` never finishes exactly when two zeros are followed by a non-zero
   element: the second zero makes NaN, and `gcd(NaN, b)` loops for `b != 0`.
   */
  lemma LcmDivergesIff(xs: seq<int>)
    requires |xs| > 0
    ensures Lcm(xs) == Diverges <==> ZeroZeroNonzero(xs)
  {
    LcmFoldDiverges(xs[0], xs[1..]);
    assert xs == [xs[0]] + xs[1..];
  }

  /** Primality, hcf and lcm results for a few sample inputs. */
  lemma ToolkitExamples()
    ensures IsPrime(2) && IsPrime(3) && IsPrime(5) && IsPrime(7) && IsPrime(11)
    ensures !IsPrime(1) && !IsPrime(4) && !IsPrime(6) && !IsPrime(8) && !IsPrime(9)
    ensures Hcf([12, 18, 24]) == 6
    ensures Lcm([4, 6]) == Finite(12)
  {
    assert Times(2, 2) == 4 && Times(2, 3) == 6 && Times(2, 4) == 8 && Times(3, 3) == 9;
    assert Gcd(12, 18) == 6;
    assert Gcd(6, 24) == 6;
    assert Gcd(4, 6) == 2;
  }
}
