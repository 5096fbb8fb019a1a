/** Counting round a circle. */
module Cyclic {

  /** The next position on a circle of `t` places. */
  lemma ModStep(n: nat, t: nat)
    requires t > 0
    ensures (n + 1) % t == if n % t == t - 1 then 0 else n % t + 1
  {
    var q, r := n / t, n % t;
    DivMod(n, t);
    if r == t - 1 {
      ModOf(q + 1, 0, t);
    } else {
      ModOf(q, r + 1, t);
    }
  }

  lemma ModOf(q: nat, r: nat, t: nat)
    requires r < t
    ensures (q * t + r) % t == r
  {
    var x := q * t + r;
    DivMod(x, t);
    Apart(x / t, q, t);
    Apart(q, x / t, t);
  }

  lemma DivMod(x: nat, t: nat)
    requires t > 0
    ensures x == (x / t) * t + x % t && x % t < t
  {
  }

  lemma {:induction false} Apart(p: nat, q: nat, t: nat)
    ensures p < q ==> p * t + t <= q * t
    decreases q
  {
    if p < q {
      Apart(p, q - 1, t);
      assert q * t == (q - 1) * t + t;
    }
  }
}
