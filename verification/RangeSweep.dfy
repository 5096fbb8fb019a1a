/** The memory ranges swept by the latency test: from 4 KiB up in steps that double at every
    power of two. */
module RangeSweep {

  // ----- Powers of two

  function Pow2(k: nat): (p: nat)
    ensures p > 0
  {
    if k == 0 then 1 else 2 * Pow2(k - 1)
  }

  /** Bitwise conjunction of natural numbers. */
  function BitAnd(a: nat, b: nat): nat {
    if a == 0 || b == 0 then 0 else 2 * BitAnd(a / 2, b / 2) + (a % 2) * (b % 2)
  }

  predicate IsPow2(n: nat) {
    n != 0 && BitAnd(n, n - 1) == 0
  }

  lemma {:induction false} AndSelf(a: nat)
    ensures BitAnd(a, a) == a
  {
    if a > 0 {
      AndSelf(a / 2);
      assert (a % 2) * (a % 2) == a % 2;
    }
  }

  lemma HalfTest(n: nat)
    requires n > 0
    ensures n % 2 == 0 ==> (IsPow2(n) <==> IsPow2(n / 2))
    ensures n % 2 == 1 ==> (IsPow2(n) <==> n == 1)
  {
    if n % 2 == 0 {
      assert (n - 1) / 2 == n / 2 - 1 && (n - 1) % 2 == 1;
      assert BitAnd(n, n - 1) == 2 * BitAnd(n / 2, n / 2 - 1);
    } else if n > 1 {
      assert (n - 1) / 2 == n / 2 && (n - 1) % 2 == 0;
      AndSelf(n / 2);
      assert BitAnd(n, n - 1) == 2 * (n / 2);
    }
  }

  ghost predicate IsPower(n: nat) {
    exists k: nat :: Pow2(k) == n
  }

  /** The test with `n & (n - 1)` is true of the powers of two and of nothing else. */
  lemma {:induction false} IsPow2Exact(n: nat)
    ensures IsPow2(n) <==> IsPower(n)
  {
    if n > 0 {
      HalfTest(n);
      if n % 2 == 0 {
        IsPow2Exact(n / 2);
        EvenPower(n);
      } else {
        OddPower(n);
      }
    }
  }

  lemma EvenPower(n: nat)
    requires n > 0 && n % 2 == 0
    ensures IsPower(n) <==> IsPower(n / 2)
  {
    if IsPower(n) {
      var k: nat :| Pow2(k) == n;
      assert k > 0 && Pow2(k - 1) == n / 2;
    }
    if IsPower(n / 2) {
      var k: nat :| Pow2(k) == n / 2;
      assert Pow2(k + 1) == n;
    }
  }

  lemma PowerParity(k: nat)
    ensures Pow2(k) % 2 == 1 ==> Pow2(k) == 1
  {
  }

  lemma OddPower(n: nat)
    requires n % 2 == 1
    ensures IsPower(n) <==> n == 1
  {
    assert Pow2(0) == 1;
    if IsPower(n) {
      var k: nat :| Pow2(k) == n;
      PowerParity(k);
    }
  }

  lemma {:induction false} ScaledTest(m: nat, k: nat)
    requires m > 0
    ensures IsPow2(m * Pow2(k)) <==> IsPow2(m)
  {
    if k > 0 {
      ScaledTest(m, k - 1);
      var n := m * Pow2(k);
      assert n == 2 * (m * Pow2(k - 1));
      assert n > 0;
      HalfTest(n);
    }
  }

  lemma SmallTests()
    ensures !IsPow2(5) && !IsPow2(6) && !IsPow2(7) && IsPow2(8)
  {
    HalfTest(5);
    HalfTest(6);
    HalfTest(3);
    HalfTest(7);
    HalfTest(8);
    HalfTest(4);
    HalfTest(2);
    HalfTest(1);
  }

  // ----- The sweep

  /** Four points per octave. */
  function Point(i: nat): nat {
    (4 + i % 4) * Pow2(i / 4 + 10)
  }

  lemma NextPoint(i: nat)
    ensures Point(i + 1) == Point(i) + Pow2(i / 4 + 10)
    ensures Point(i + 1) == (5 + i % 4) * Pow2(i / 4 + 10)
    ensures Pow2((i + 1) / 4 + 10) == if i % 4 == 3 then 2 * Pow2(i / 4 + 10) else Pow2(i / 4 + 10)
  {
    if i % 4 == 3 {
      assert (i + 1) / 4 == i / 4 + 1 && (i + 1) % 4 == 0;
    } else {
      assert (i + 1) / 4 == i / 4 && (i + 1) % 4 == i % 4 + 1;
    }
    Combine(4 + i % 4, Pow2(i / 4 + 10));
  }

  lemma Combine(a: nat, p: nat)
    ensures a * p + p == (a + 1) * p
    ensures a == 7 ==> (a + 1) * p == 4 * (2 * p)
  {
  }

  /** The next point is a power of two exactly when an octave is complete. */
  lemma NextIsPower(i: nat)
    ensures IsPow2(Point(i + 1)) <==> i % 4 == 3
  {
    NextPoint(i);
    ScaledTest(5 + i % 4, i / 4 + 10);
    SmallTests();
  }

  /** Collects the ranges until one reaches `maxRange`. */
  method Sweep(maxRange: int) returns (ranges: seq<nat>)
    ensures ranges != [] && ranges[|ranges| - 1] >= maxRange
    ensures forall i :: 0 <= i < |ranges| ==> ranges[i] == Point(i)
    ensures forall i :: 0 <= i < |ranges| - 1 ==> ranges[i] < maxRange
  {
    hide Pow2, IsPow2, Point;
    FirstPoint();
    var step: nat := 1024;
    ranges := [4096];
    while ranges[|ranges| - 1] < maxRange
      invariant ranges != [] && forall i :: 0 <= i < |ranges| ==> ranges[i] == Point(i)
      invariant forall i :: 0 <= i < |ranges| - 1 ==> ranges[i] < maxRange
      invariant step == Pow2((|ranges| - 1) / 4 + 10)
      decreases maxRange - ranges[|ranges| - 1]
    {
      var newRange := ranges[|ranges| - 1] + step;
      NextPoint(|ranges| - 1);
      NextIsPower(|ranges| - 1);
      if IsPow2(newRange) {
        step := step * 2;
      }
      ranges := ranges + [newRange];
    }
  }

  lemma FirstPoint()
    ensures Pow2(10) == 1024 && Point(0) == 4096
  {
    assert Pow2(5) == 32;
  }

  lemma {:induction false} PointsIncrease(i: nat, j: nat)
    requires i < j
    ensures Point(i) < Point(j)
  {
    hide Point;
    NextPoint(j - 1);
    if i < j - 1 {
      PointsIncrease(i, j - 1);
    }
  }

  /** Every power of two from 4096 up to the last range is swept, and the powers of two are
      exactly every fourth range. */
  lemma PowersAreSwept(i: nat, k: nat)
    requires k >= 12
    ensures Point(4 * (k - 12)) == Pow2(k)
    ensures Point(i) == Pow2(k) ==> i == 4 * (k - 12)
  {
    OctaveStart(k);
    hide Point;
    if i < 4 * (k - 12) {
      PointsIncrease(i, 4 * (k - 12));
    } else if i > 4 * (k - 12) {
      PointsIncrease(4 * (k - 12), i);
    }
  }

  lemma OctaveStart(k: nat)
    requires k >= 12
    ensures Point(4 * (k - 12)) == Pow2(k)
  {
    var i := 4 * (k - 12);
    assert i / 4 == k - 12 && i % 4 == 0;
    assert Point(i) == 4 * Pow2(k - 2);
    assert Pow2(k) == 2 * Pow2(k - 1) && Pow2(k - 1) == 2 * Pow2(k - 2);
  }
}
