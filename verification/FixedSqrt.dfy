/**
 fixed_sqrt of apps/raytracer/raytracer.c: at most eight Newton steps on 16.16 fixed point,
 that is, towards the integer root of x * 2^16.
 */
module FixedSqrt {
  const ONE: int := 0x1_0000            // FIXED_ONE
  const FIXED_LIMIT: int := 0x8000_0000 // fixed_t is a 32-bit int

  /** A product; the proofs hide its definition and use the laws below instead. */
  function Mul(a: int, b: int): int { a * b }

  lemma MulMono(a: int, b: int, c: int, d: int)
    ensures 0 <= a <= c && 0 <= b <= d ==> Mul(a, b) <= Mul(c, d)
  {
    if 0 <= a <= c && 0 <= b <= d {
      assert Mul(c, d) - Mul(c, b) == c * (d - b) >= 0;
      assert Mul(c, b) - Mul(a, b) == (c - a) * b >= 0;
    }
  }

  lemma DifferenceOfSquares(r: int, s: int)
    ensures Mul(r, 2 * s - r) <= Mul(s, s)
  {
    var d := s - r;
    assert d * d == s * s - r * (2 * s - r);
    assert d * d >= 0;
  }

  lemma NextSquares(s: int)
    ensures Mul(s + 1, s + 1) == Mul(s, s) + 2 * s + 1
    ensures Mul(s, s + 2) == Mul(s, s) + 2 * s && Mul(s, s + 3) == Mul(s, s) + 3 * s
  {
  }

  /** Integer square root. */
  ghost function Root(n: nat): (s: nat)
    ensures Mul(s, s) <= n < Mul(s + 1, s + 1)
  {
    if n == 0 then 0 else
      var r := Root(n - 1);
      if Mul(r + 1, r + 1) <= n then
        NextSquares(r + 1);
        r + 1
      else r
  }

  lemma RootIs(n: nat, s: nat)
    requires Mul(s, s) <= n < Mul(s + 1, s + 1)
    ensures s == Root(n)
  {
    var r := Root(n);
    hide Mul, Root;
    MulMono(s + 1, s + 1, r, r);
    MulMono(r + 1, r + 1, s, s);
  }

  /** Division as C does it on positive numbers. */
  function Quot(n: nat, r: int): nat
    requires r > 0
  {
    n / r
  }

  lemma QuotBounds(n: nat, r: int)
    requires r > 0
    ensures Mul(r, Quot(n, r)) <= n < Mul(r, Quot(n, r) + 1)
  {
    assert n == r * (n / r) + n % r;
    assert r * (n / r + 1) == r * (n / r) + r;
  }

  /** One Newton step: (r + FIXED_DIV(x, r)) >> 1, with n = x << 16. */
  function Newton(n: nat, r: int): int
    requires r > 0
  {
    (r + Quot(n, r)) / 2
  }

  /** A step never falls below the root. */
  lemma NewtonFromAbove(n: nat, r: int)
    requires r > 0
    ensures Root(n) <= Newton(n, r)
  {
    hide Mul, Root, Quot;
    var s, q := Root(n), Quot(n, r);
    QuotBounds(n, r);
    DifferenceOfSquares(r, s);
    MulMono(r, q + 1, r, 2 * s - r);
  }

  lemma QuotAbove(n: nat, r: int, s: int)
    requires 0 <= s < r && n < Mul(s + 1, s + 1)
    ensures Quot(n, r) <= s
  {
    hide Mul, Quot;
    QuotBounds(n, r);
    MulMono(s + 1, s + 1, r, Quot(n, r));
  }

  lemma QuotAt(n: nat, s: int)
    requires 0 < s && n < Mul(s + 1, s + 1)
    ensures Quot(n, s) <= s + 2
  {
    hide Mul, Quot;
    QuotBounds(n, s);
    MulMono(s, s + 3, s, Quot(n, s));
    NextSquares(s);
  }

  /** Above the root a step at least halves the excess; at the root it goes up by one at most. */
  lemma NewtonHalves(n: nat, r: int)
    requires r >= Root(n) > 0
    ensures r > Root(n) ==> 2 * (Newton(n, r) - Root(n)) <= r - Root(n)
    ensures r == Root(n) ==> Newton(n, r) <= r + 1
  {
    hide Mul, Root, Quot;
    var s := Root(n);
    if r > s { QuotAbove(n, r, s); } else { QuotAt(n, s); }
  }

  /**
   The step leaves the root again exactly when n is one short of a square, so the loop then
   never stops early there.
   */
  lemma LeavesRootIff(n: nat)
    requires n > 0
    ensures Root(n) > 0
    ensures Newton(n, Root(n)) == Root(n) + 1 <==> n + 1 == (Root(n) + 1) * (Root(n) + 1)
  {
    var s := Root(n);
    assert s > 0 by { assert Mul(1, 1) == 1; }
    assert Mul(s + 1, s + 1) == (s + 1) * (s + 1);
    hide Mul, Root, Quot;
    QuotBounds(n, s);
    QuotAt(n, s);
    NextSquares(s);
    MulMono(s, Quot(n, s) + 1, s, s + 2);
  }

  /** A step that changes nothing has found the root. */
  lemma NewtonFixpoint(n: nat, r: int)
    requires r > 0 && Newton(n, r) == r
    ensures r == Root(n)
  {
    hide Mul, Root, Quot;
    var q := Quot(n, r);
    assert q == r || q == r + 1;
    QuotBounds(n, r);
    NextSquares(r);
    MulMono(r, r, r, q);
    MulMono(r, q + 1, r, r + 2);
    RootIs(n, r);
  }

  lemma Quadratic(t: int)
    requires 256 <= t <= 0x100_0000
    ensures Mul(t, t) <= 0x100_0100 * t - 0x1_0000_0000
  {
    MulMono(0, 0, t - 256, 0x100_0000 - t);
    Expand(t);
  }

  lemma Expand(t: int)
    ensures Mul(t - 256, 0x100_0000 - t) == 0x100_0100 * t - 0x1_0000_0000 - Mul(t, t)
  {
  }

  lemma QuotExact(x: int, k: nat)
    requires x > 0
    ensures Quot(x * k, x) == k
  {
    assert Mul(x, k) == x * k;
    QuotIs(x * k, x, k);
  }

  lemma MulNext(r: int, q: int)
    ensures Mul(r, q + 1) == Mul(r, q) + r
  {
  }

  /** The quotient is the only number with its bounds. */
  lemma QuotIs(n: nat, r: int, q: nat)
    requires r > 0 && Mul(r, q) <= n < Mul(r, q) + r
    ensures Quot(n, r) == q
  {
    MulNext(r, q);
    hide Mul, Quot;
    var p := Quot(n, r);
    QuotBounds(n, r);
    MulMono(r, p + 1, r, q);
    MulMono(r, q + 1, r, p);
  }

  /** The first step starts from x itself, and is already within a factor of 129 of the root. */
  lemma FirstStep(x: int)
    requires 0 < x < FIXED_LIMIT
    ensures Newton(x * ONE, x) == (x + ONE) / 2
    ensures 256 <= Root(x * ONE) < 0x100_0000
    ensures (x + ONE) / 2 - Root(x * ONE) < 128 * (Root(x * ONE) + 1)
  {
    var n := x * ONE;
    QuotExact(x, ONE);
    assert Mul(256, 256) == ONE && Mul(0x100_0000, 0x100_0000) == 0x1_0000_0000_0000;
    hide Mul, Root, Quot;
    var s := Root(n);
    MulMono(s + 1, s + 1, 256, 256);
    MulMono(0x100_0000, 0x100_0000, s, s);
    Quadratic(s + 1);
  }

  /** At most twice the root: how far the result can be from exact. */
  lemma WithinTwice(n: nat, r: int)
    requires 0 <= r <= 2 * Root(n)
    ensures r * r <= 4 * n
  {
    assert Mul(r, r) == r * r;
    hide Mul, Root;
    MulMono(r, r, 2 * Root(n), 2 * Root(n));
    TwiceSquared(Root(n));
  }

  lemma TwiceSquared(s: int)
    ensures Mul(2 * s, 2 * s) == 4 * Mul(s, s)
  {
  }

  function Halved(e: int, k: nat): int {
    if k == 0 then e else Halved(e, k - 1) / 2
  }

  lemma HalvedSevenTimes(e: int, s: nat)
    requires e < 128 * (s + 1)
    ensures Halved(e, 7) <= s
  {
    assert Halved(e, 1) < 64 * (s + 1);
    assert Halved(e, 3) < 16 * (s + 1);
    assert Halved(e, 5) < 4 * (s + 1);
  }

  /** What is known after i steps: above the root, and the first excess halved i - 1 times or gone. */
  ghost predicate Reached(x: int, i: nat, r: int)
    requires 0 < x
  {
    var s := Root(x * ONE);
    && 0 < r < FIXED_LIMIT && (i == 0 ==> r == x)
    && (i > 0 ==> s <= r && (r <= s + 1 || r - s <= Halved((x + ONE) / 2 - s, i - 1)))
  }

  lemma StepReaches(x: int, i: nat, r: int)
    requires 0 < x < FIXED_LIMIT && Reached(x, i, r)
    ensures Reached(x, i + 1, Newton(x * ONE, r))
  {
    FirstStep(x);
    var n, e := x * ONE, (x + ONE) / 2 - Root(x * ONE);
    assert i > 0 ==> Halved(e, i) == Halved(e, i - 1) / 2;
    assert Halved(e, 0) == e;
    hide Mul, Root, Quot, Newton, Halved;
    NewtonFromAbove(n, r);
    if i > 0 { NewtonHalves(n, r); }
  }

  lemma EightStepsSuffice(x: int, r: int)
    requires 0 < x < FIXED_LIMIT && Reached(x, 8, r)
    ensures r * r <= 4 * x * ONE
  {
    FirstStep(x);
    HalvedSevenTimes((x + ONE) / 2 - Root(x * ONE), Root(x * ONE));
    WithinTwice(x * ONE, r);
  }

  /** k Newton steps from r */
  function Iterate(n: nat, r: int, k: nat): int {
    if k == 0 then r else
      var last := Iterate(n, r, k - 1);
      if last <= 0 then last else Newton(n, last)
  }

  /** Every iterate is positive, fits 32 bits and is as close to the root as its number says. */
  lemma {:induction false} IteratesReach(x: int, k: nat)
    requires 0 < x < FIXED_LIMIT
    ensures Reached(x, k, Iterate(x * ONE, x, k))
  {
    if k > 0 {
      IteratesReach(x, k - 1);
      StepReaches(x, k - 1, Iterate(x * ONE, x, k - 1));
    }
  }

  /** Once a step changes nothing, neither do the following ones. */
  lemma {:induction false} FixpointStays(n: nat, r: int, j: nat, k: nat)
    requires j <= k && Iterate(n, r, j) > 0 && Newton(n, Iterate(n, r, j)) == Iterate(n, r, j)
    ensures Iterate(n, r, k) == Iterate(n, r, j)
    decreases k
  {
    if j < k { FixpointStays(n, r, j, k - 1); }
  }

  lemma NewtonIs(n: nat, r: int, q: nat)
    requires r > 0 && r * q <= n < r * q + r
    ensures Newton(n, r) == (r + q) / 2
  {
    assert Mul(r, q) == r * q;
    QuotIs(n, r, q);
  }

  /** One step from r, and another one from where that led. */
  lemma TwoSteps(n: nat, r: int, k: nat)
    requires Iterate(n, r, k) > 0 && Newton(n, Iterate(n, r, k)) > 0
    ensures Iterate(n, r, k + 2) == Newton(n, Newton(n, Iterate(n, r, k)))
  {
    assert Iterate(n, r, k + 1) == Newton(n, Iterate(n, r, k));
  }

  /** An argument whose root the iteration reaches and leaves again: the result is one too large. */
  lemma ResultCanMissRoot()
    ensures 16385 * ONE == 0x4001_0000 && Root(0x4001_0000) == 32768
    ensures Iterate(0x4001_0000, 16385, 5) == 32768 && Iterate(0x4001_0000, 16385, 8) == 32769
  {
    var n := 0x4001_0000;
    assert Mul(32768, 32768) <= n < Mul(32769, 32769);
    RootIs(n, 32768);
    hide Newton, Mul, Root;
    ToTheRoot(n);
    AroundTheRoot(n, 4);
    AroundTheRoot(n, 6);
  }

  lemma ToTheRoot(n: nat)
    requires n == 0x4001_0000
    ensures Iterate(n, 16385, 4) == 32769
  {
    NewtonIs(n, 16385, 65536);
    NewtonIs(n, 40960, 26216);
    NewtonIs(n, 33588, 31969);
    NewtonIs(n, 32778, 32760);
    hide Newton;
    TwoSteps(n, 16385, 0);
    TwoSteps(n, 16385, 2);
  }

  lemma AroundTheRoot(n: nat, k: nat)
    requires n == 0x4001_0000 && Iterate(n, 16385, k) == 32769
    ensures Iterate(n, 16385, k + 1) == 32768 && Iterate(n, 16385, k + 2) == 32769
  {
    NewtonIs(n, 32769, 32768);
    NewtonIs(n, 32768, 32770);
    hide Newton;
    TwoSteps(n, 16385, k);
  }

  /**
   fixed_sqrt: no step divides by zero or leaves the 32-bit range; the result is the eighth
   iterate, never below the true root and at most twice it, and it is exact if one of the steps
   changed nothing, which is when the loop stops early.
   */
  method FixedSqrt(x: int) returns (result: int)
    requires -FIXED_LIMIT <= x < FIXED_LIMIT
    ensures x <= 0 ==> result == 0
    ensures x > 0 ==> result == Iterate(x * ONE, x, 8)
    ensures x > 0 ==> Root(x * ONE) <= result && result * result <= 4 * x * ONE
    ensures x > 0 ==> forall k: nat :: k <= 8 ==> 0 < Iterate(x * ONE, x, k) < FIXED_LIMIT
    ensures x > 0 ==> forall k: nat :: k < 8 && Iterate(x * ONE, x, k + 1) == Iterate(x * ONE, x, k) ==>
      result == Root(x * ONE)
  {
    if x <= 0 {
      return 0;
    }
    ghost var n := x * ONE;
    forall k: nat ensures Reached(x, k, Iterate(n, x, k)) {
      IteratesReach(x, k);
    }
    result := x;
    var i := 0;
    while i < 8
      invariant 0 <= i <= 8 && result == Iterate(n, x, i)
    {
      var last := result;
      result := (result + x * ONE / result) / 2;
      assert result == Iterate(n, x, i + 1);
      if result == last {
        FixpointStays(n, x, i, 8);
        break;
      }
      i := i + 1;
    }
    EightStepsSuffice(x, result);
    forall k: nat | k < 8 && Iterate(n, x, k + 1) == Iterate(n, x, k) ensures result == Root(n) {
      FixpointStays(n, x, k, 8);
      NewtonFixpoint(n, Iterate(n, x, k));
    }
  }
}
