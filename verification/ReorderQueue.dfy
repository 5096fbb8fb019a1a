/** The print queue of the O3 pipeline viewer.
    Instructions leave the simulator out of order. They are collected until more than
    `hi` are waiting; the queue is then sorted by sequence number and its front is
    printed until `lo` remain. The claim proved here is that this bounded queue prints
    what sorting the whole trace would print, and exactly when it does. */
module ReorderQueue {
  import opened Cyclic
  import opened KeySort
  import opened PipeInst

  /** The range of instructions the user asked for; a bound that is not positive is off. */
  datatype Window = Window(snStart: int, snStop: int, tickStart: int, tickStop: int, onlyCommitted: bool)

  predicate Shown(w: Window, inst: Inst) {
    && !(w.snStart > 0 && inst.sn < w.snStart)
    && !(w.snStop > 0 && inst.sn > w.snStop)
    && !(w.tickStart > 0 && inst.fetch < w.tickStart)
    && !(w.tickStop > 0 && inst.fetch > w.tickStop)
    && !(w.onlyCommitted && inst.retire == 0)
  }

  function Keep(w: Window): Inst -> bool {
    (inst: Inst) => Shown(w, inst)
  }

  // ----- The queue as a value: what waits, and what was popped, in order

  datatype State = State(queue: seq<Inst>, popped: seq<Inst>)

  function Drain(st: State, lower: nat): State {
    var s := SortBy(st.queue, Sn);
    if |s| <= lower then State(s, st.popped)
    else State(s[|s| - lower..], st.popped + s[..|s| - lower])
  }

  function Push(st: State, inst: Inst, lo: nat, hi: nat): State {
    var st' := State(st.queue + [inst], st.popped);
    if |st'.queue| > hi then Drain(st', lo) else st'
  }

  /** The state after the instructions `a` arrived in that order. */
  function Run(a: seq<Inst>, lo: nat, hi: nat): State {
    if a == [] then State([], []) else Push(Run(a[..|a| - 1], lo, hi), a[|a| - 1], lo, hi)
  }

  lemma RunSnoc(a: seq<Inst>, x: Inst, lo: nat, hi: nat)
    ensures Run(a + [x], lo, hi) == Push(Run(a, lo, hi), x, lo, hi)
  {
    assert (a + [x])[..|a|] == a;
  }

  /** Everything popped by the drains and the final flush. */
  function Popped(a: seq<Inst>, lo: nat, hi: nat): seq<Inst> {
    Drain(Run(a, lo, hi), 0).popped
  }

  /** A drain cuts the sorted queue in two. */
  lemma DrainCuts(st: State, lower: nat)
    ensures var st' := Drain(st, lower);
            && st'.popped + st'.queue == st.popped + SortBy(st.queue, Sn)
            && st.popped <= st'.popped
            && |st'.queue| == (if |st.queue| <= lower then |st.queue| else lower)
  {
    var s := SortBy(st.queue, Sn);
    if |s| > lower {
      var k := |s| - lower;
      assert s == s[..k] + s[k..];
      assert (st.popped + s[..k]) + s[k..] == st.popped + s;
    }
  }

  lemma DrainAt(st: State, lower: nat, n: nat)
    requires n == if |st.queue| <= lower then 0 else |st.queue| - lower
    ensures Drain(st, lower) == State(SortBy(st.queue, Sn)[n..], st.popped + SortBy(st.queue, Sn)[..n])
  {
    assert n == 0 ==> SortBy(st.queue, Sn)[n..] == SortBy(st.queue, Sn);
  }

  lemma DrainConserves(st: State, lower: nat)
    ensures var st' := Drain(st, lower);
            multiset(st'.popped) + multiset(st'.queue) == multiset(st.popped) + multiset(st.queue)
  {
    var st', s := Drain(st, lower), SortBy(st.queue, Sn);
    DrainCuts(st, lower);
    SortByOrders(st.queue, Sn);
    assert multiset(st'.popped + st'.queue) == multiset(st.popped + s);
  }

  lemma DrainOrder(st: State, lower: nat)
    ensures var st' := Drain(st, lower);
            st'.popped + SortBy(st'.queue, Sn) == st.popped + SortBy(st.queue, Sn)
  {
    DrainCuts(st, lower);
    SortByOrders(st.queue, Sn);
    SortOrdered(Drain(st, lower).queue, Sn);
  }

  /** Whatever the order of arrival, nothing is lost or made up, the queue stays within
      its bound, and it never drops below `lo` once something was popped. */
  lemma {:induction false} RunConserves(a: seq<Inst>, lo: nat, hi: nat)
    requires lo <= hi
    ensures var st := Run(a, lo, hi);
            && multiset(st.popped) + multiset(st.queue) == multiset(a)
            && |st.queue| <= hi
            && (st.popped != [] ==> |st.queue| >= lo)
  {
    if a != [] {
      var front, last := a[..|a| - 1], a[|a| - 1];
      assert a == front + [last];
      RunConserves(front, lo, hi);
      var st := Run(front, lo, hi);
      DrainConserves(State(st.queue + [last], st.popped), lo);
      DrainCuts(State(st.queue + [last], st.popped), lo);
    }
  }

  lemma {:induction false} RunKeepsAll(a: seq<Inst>, lo: nat, hi: nat)
    ensures multiset(Run(a, lo, hi).popped) + multiset(Run(a, lo, hi).queue) == multiset(a)
  {
    if a != [] {
      var front, last := a[..|a| - 1], a[|a| - 1];
      assert a == front + [last];
      RunKeepsAll(front, lo, hi);
      var st := Run(front, lo, hi);
      DrainConserves(State(st.queue + [last], st.popped), lo);
    }
  }

  lemma {:induction false} RunExtends(a: seq<Inst>, i: nat, lo: nat, hi: nat)
    requires i <= |a|
    ensures Run(a[..i], lo, hi).popped <= Run(a, lo, hi).popped
  {
    if i < |a| {
      var front := a[..|a| - 1];
      assert front[..i] == a[..i];
      RunExtends(front, i, lo, hi);
      var st := Run(front, lo, hi);
      DrainCuts(State(st.queue + [a[|a| - 1]], st.popped), lo);
    } else {
      assert a[..i] == a;
    }
  }

  /** None of the first `n` instructions arrives after one with a larger sequence number
      was already popped. */
  ghost predicate OnTime(a: seq<Inst>, n: nat, lo: nat, hi: nat)
    requires n <= |a|
  {
    forall i :: 0 <= i < n ==> ArrivesOnTime(a, i, lo, hi)
  }

  ghost predicate ArrivesOnTime(a: seq<Inst>, i: nat, lo: nat, hi: nat)
    requires i < |a|
  {
    var p := Run(a[..i], lo, hi).popped;
    p != [] ==> p[|p| - 1].sn <= a[i].sn
  }

  /** A push on time is an insertion into popped-then-queued. */
  lemma PushSorts(st: State, x: Inst, lo: nat, hi: nat)
    requires st.popped != [] ==> st.popped[|st.popped| - 1].sn <= x.sn
    ensures var st' := Push(st, x, lo, hi);
            st'.popped + SortBy(st'.queue, Sn) == Insert(st.popped + SortBy(st.queue, Sn), x, Sn)
  {
    InsertBehind(st.popped, SortBy(st.queue, Sn), x, Sn);
    assert (st.queue + [x])[..|st.queue|] == st.queue;
    DrainOrder(State(st.queue + [x], st.popped), lo);
  }

  lemma {:induction false} OnTimeSorts(a: seq<Inst>, n: nat, lo: nat, hi: nat)
    requires n <= |a| && OnTime(a, n, lo, hi)
    ensures Run(a[..n], lo, hi).popped + SortBy(Run(a[..n], lo, hi).queue, Sn) == SortBy(a[..n], Sn)
  {
    if n > 0 {
      OnTimeSorts(a, n - 1, lo, hi);
      assert ArrivesOnTime(a, n - 1, lo, hi);
      Snoc(a, n - 1);
      SortsOneMore(a[..n - 1], a[n - 1], lo, hi);
    }
  }

  lemma SortsOneMore(a: seq<Inst>, x: Inst, lo: nat, hi: nat)
    requires Run(a, lo, hi).popped + SortBy(Run(a, lo, hi).queue, Sn) == SortBy(a, Sn)
    requires var p := Run(a, lo, hi).popped; p != [] ==> p[|p| - 1].sn <= x.sn
    ensures Run(a + [x], lo, hi).popped + SortBy(Run(a + [x], lo, hi).queue, Sn) == SortBy(a + [x], Sn)
  {
    PushSorts(Run(a, lo, hi), x, lo, hi);
    SortSnoc(a, x, Sn);
    RunSnoc(a, x, lo, hi);
  }

  lemma Snoc(a: seq<Inst>, n: nat)
    requires n < |a|
    ensures a[..n + 1] == a[..n] + [a[n]]
  {
  }

  lemma PoppedIsRunThenQueue(a: seq<Inst>, lo: nat, hi: nat)
    ensures Popped(a, lo, hi) == Run(a, lo, hi).popped + SortBy(Run(a, lo, hi).queue, Sn)
  {
    var st := Run(a, lo, hi);
    DrainCuts(st, 0);
    assert Drain(st, 0).popped + [] == Drain(st, 0).popped;
  }

  /** The bounded queue pops the stably sorted trace if and only if every instruction
      arrives on time. */
  lemma SortedIffOnTime(a: seq<Inst>, lo: nat, hi: nat)
    requires lo <= hi
    ensures Popped(a, lo, hi) == SortBy(a, Sn) <==> OnTime(a, |a|, lo, hi)
  {
    PoppedIsRunThenQueue(a, lo, hi);
    if OnTime(a, |a|, lo, hi) {
      OnTimeSorts(a, |a|, lo, hi);
      assert a[..|a|] == a;
    } else {
      var i :| 0 <= i < |a| && !ArrivesOnTime(a, i, lo, hi);
      LateIsDisordered(a, i, lo, hi);
      SortByOrders(a, Sn);
    }
  }

  lemma PoppedIsPermutation(a: seq<Inst>, lo: nat, hi: nat)
    ensures multiset(Popped(a, lo, hi)) == multiset(a)
  {
    PoppedIsRunThenQueue(a, lo, hi);
    RunKeepsAll(a, lo, hi);
    SortByOrders(Run(a, lo, hi).queue, Sn);
  }

  lemma LateIsDisordered(a: seq<Inst>, i: nat, lo: nat, hi: nat)
    requires lo <= hi && i < |a| && !ArrivesOnTime(a, i, lo, hi)
    ensures !Ordered(Popped(a, lo, hi), Sn)
  {
    var p, out := Run(a[..i], lo, hi).popped, Popped(a, lo, hi);
    RunExtends(a, i, lo, hi);
    PoppedIsRunThenQueue(a, lo, hi);
    assert p <= out;
    PoppedIsPermutation(a, lo, hi);
    RunConserves(a[..i], lo, hi);
    var j := PoppedLater(a, i, p, out);
    assert Sn(out[|p| - 1]) > Sn(out[j]);
  }

  lemma PoppedLater(a: seq<Inst>, i: nat, p: seq<Inst>, out: seq<Inst>) returns (j: nat)
    requires i < |a| && p <= out
    requires multiset(out) == multiset(a) && multiset(p) <= multiset(a[..i])
    ensures |p| <= j < |out| && out[j] == a[i]
  {
    var rest, x := out[|p|..], a[i];
    assert out == p + rest && a == a[..i] + [x] + a[i + 1..];
    assert multiset(out)[x] == multiset(p)[x] + multiset(rest)[x];
    assert multiset(a)[x] == multiset(a[..i])[x] + 1 + multiset(a[i + 1..])[x];
    assert multiset(rest)[x] > 0;
    var d :| 0 <= d < |rest| && rest[d] == x;
    j := |p| + d;
  }

  // ----- How far an instruction is out of place

  /** The number of instructions whose sequence number is below `k`. */
  function CountBelow(a: seq<Inst>, k: int): (n: nat)
    ensures n <= |a|
  {
    if a == [] then 0 else CountBelow(a[..|a| - 1], k) + if a[|a| - 1].sn < k then 1 else 0
  }

  /** The place of `a[i]` when `a` is stably sorted: behind every earlier arrival that is
      not larger and every later arrival that is smaller. */
  function Rank(a: seq<Inst>, i: nat): nat
    requires i < |a|
  {
    CountBelow(a[..i], a[i].sn + 1) + CountBelow(a[i..], a[i].sn)
  }

  /** How many places `a[i]` arrives after its rank. */
  function Displacement(a: seq<Inst>, i: nat): int
    requires i < |a|
  {
    i - Rank(a, i)
  }

  /** The number of younger instructions that arrive before `a[i]`. */
  function Overtaken(a: seq<Inst>, i: nat): nat
    requires i < |a|
  {
    i - CountBelow(a[..i], a[i].sn + 1)
  }

  lemma {:induction false} CountConcat(s: seq<Inst>, t: seq<Inst>, k: int)
    ensures CountBelow(s + t, k) == CountBelow(s, k) + CountBelow(t, k)
  {
    if t == [] {
      assert s + t == s;
    } else {
      assert (s + t)[..|s + t| - 1] == s + t[..|t| - 1];
      CountConcat(s, t[..|t| - 1], k);
    }
  }

  lemma {:induction false} CountNone(s: seq<Inst>, k: int)
    requires forall i :: 0 <= i < |s| ==> s[i].sn >= k
    ensures CountBelow(s, k) == 0
  {
    if s != [] {
      CountNone(s[..|s| - 1], k);
    }
  }

  lemma {:induction false} CountInsert(s: seq<Inst>, x: Inst, k: int)
    ensures CountBelow(Insert(s, x, Sn), k) == CountBelow(s, k) + if x.sn < k then 1 else 0
  {
    if s != [] {
      if s[|s| - 1].sn <= x.sn {
        assert (s + [x])[..|s|] == s;
      } else {
        var r := Insert(s[..|s| - 1], x, Sn);
        CountInsert(s[..|s| - 1], x, k);
        assert (r + [s[|s| - 1]])[..|r|] == r;
      }
    }
  }

  lemma {:induction false} CountSorted(s: seq<Inst>, k: int)
    ensures CountBelow(SortBy(s, Sn), k) == CountBelow(s, k)
  {
    if s != [] {
      CountSorted(s[..|s| - 1], k);
      CountInsert(SortBy(s[..|s| - 1], Sn), s[|s| - 1], k);
    }
  }

  /** The first of the smallest sequence numbers among the arrivals from `i` on. */
  lemma {:induction false} FirstSmallest(a: seq<Inst>, i: nat) returns (m: nat)
    requires i < |a|
    ensures i <= m < |a|
    ensures forall j :: i <= j < m ==> a[j].sn > a[m].sn
    ensures forall j :: i <= j < |a| ==> a[j].sn >= a[m].sn
    decreases |a| - i
  {
    m := i;
    if i + 1 < |a| {
      var m' := FirstSmallest(a, i + 1);
      if a[m'].sn < a[i].sn {
        m := m';
      }
    }
  }

  /** In a sorted `p + q`, at most the elements of `p` before its last are below it. */
  lemma FewBelowLast(p: seq<Inst>, q: seq<Inst>, k: int)
    requires p != [] && Ordered(p + q, Sn) && p[|p| - 1].sn >= k
    ensures CountBelow(p + q, k) < |p|
  {
    var tail := [p[|p| - 1]] + q;
    assert p + q == p[..|p| - 1] + tail;
    CountConcat(p[..|p| - 1], tail, k);
    forall j | 0 <= j < |tail| ensures tail[j].sn >= k {
      assert tail[0] == (p + q)[|p| - 1];
      assert tail[j] == (p + q)[|p| - 1 + j];
      assert j > 0 ==> Sn((p + q)[|p| - 1]) <= Sn((p + q)[|p| - 1 + j]);
    }
    CountNone(tail, k);
  }

  /** The first smallest arrival from `i` on is preceded only by arrivals before `i`. */
  lemma RankOfSmallest(a: seq<Inst>, i: nat, m: nat)
    requires i <= m < |a|
    requires forall j :: i <= j < m ==> a[j].sn > a[m].sn
    requires forall j :: i <= j < |a| ==> a[j].sn >= a[m].sn
    ensures Rank(a, m) == CountBelow(a[..i], a[m].sn + 1)
  {
    var k := a[m].sn;
    assert a[..m] == a[..i] + a[i..m];
    CountConcat(a[..i], a[i..m], k + 1);
    CountNone(a[i..m], k + 1);
    CountNone(a[m..], k);
  }

  lemma NotLate(a: seq<Inst>, i: nat, lo: nat, hi: nat)
    requires lo <= hi && i < |a|
    requires forall j :: 0 <= j < |a| ==> Displacement(a, j) <= lo
    requires OnTime(a, i, lo, hi)
    ensures ArrivesOnTime(a, i, lo, hi)
  {
    if !ArrivesOnTime(a, i, lo, hi) {
      var m := FirstSmallest(a, i);
      var d := Displacement(a, m);
      RankOfSmallest(a, i, m);
      var p, q := Run(a[..i], lo, hi).popped, SortBy(Run(a[..i], lo, hi).queue, Sn);
      OnTimeSorts(a, i, lo, hi);
      SortByOrders(a[..i], Sn);
      CountSorted(a[..i], a[m].sn + 1);
      FewBelowLast(p, q, a[m].sn + 1);
      assert |p + q| == i;
      RunConserves(a[..i], lo, hi);
    }
  }

  lemma {:induction false} PlacedIsOnTime(a: seq<Inst>, n: nat, lo: nat, hi: nat)
    requires lo <= hi && n <= |a|
    requires forall j :: 0 <= j < |a| ==> Displacement(a, j) <= lo
    ensures OnTime(a, n, lo, hi)
  {
    if n > 0 {
      PlacedIsOnTime(a, n - 1, lo, hi);
      NotLate(a, n - 1, lo, hi);
    }
  }

  /** The stated assumption is enough: when no instruction arrives more than `lo` places
      after its rank, the queue pops the whole trace in stable order. */
  lemma PlacedIsSorted(a: seq<Inst>, lo: nat, hi: nat)
    requires lo <= hi
    requires forall j :: 0 <= j < |a| ==> Displacement(a, j) <= lo
    ensures Popped(a, lo, hi) == SortBy(a, Sn)
  {
    PlacedIsOnTime(a, |a|, lo, hi);
    SortedIffOnTime(a, lo, hi);
  }

  /** Leaving out the first `k` arrivals puts no instruction further behind. */
  lemma DisplacementBehind(a: seq<Inst>, k: nat, i: nat)
    requires k + i < |a|
    ensures Displacement(a[k..], i) <= Displacement(a, k + i)
  {
    assert a[..k + i] == a[..k] + a[k..][..i] && a[k..][i..] == a[k + i..];
    CountConcat(a[..k], a[k..][..i], a[k + i].sn + 1);
  }

  /** So every region of such a trace is sorted too, although instructions behind it may
      belong before some of its own. */
  lemma PlacedRegionIsSorted(a: seq<Inst>, lo: nat, hi: nat, k: nat, m: nat)
    requires lo <= hi && k <= m <= |a|
    requires forall i :: 0 <= i < |a| ==> Displacement(a, i) <= lo
    ensures Popped(a[k..m], lo, hi) == SortBy(a[k..m], Sn)
  {
    hide Run, Displacement, Popped;
    forall i | 0 <= i < |a| - k ensures Displacement(a[k..], i) <= lo {
      DisplacementBehind(a, k, i);
      assert Displacement(a, k + i) <= lo;
    }
    PlacedIsOnTime(a[k..], m - k, lo, hi);
    forall i | 0 <= i < m - k ensures ArrivesOnTime(a[k..m], i, lo, hi) {
      assert ArrivesOnTime(a[k..], i, lo, hi);
      assert a[k..m][..i] == a[k..][..i];
    }
    SortedIffOnTime(a[k..m], lo, hi);
  }

  // ----- The exact condition on the trace

  /** How many instructions wait after `n` arrivals, whatever they are: the queue fills to
      `hi`, and then goes round from `lo` to `hi`. */
  function Waiting(n: nat, lo: nat, hi: nat): nat
    requires lo <= hi
  {
    if n <= hi then n else lo + (n - hi - 1) % (hi + 1 - lo)
  }

  lemma WaitingStep(n: nat, lo: nat, hi: nat)
    requires lo <= hi
    ensures Waiting(n + 1, lo, hi) == if Waiting(n, lo, hi) + 1 > hi then lo else Waiting(n, lo, hi) + 1
  {
    if n > hi {
      ModStep(n - hi - 1, hi + 1 - lo);
    }
  }

  lemma {:induction false} QueueLength(a: seq<Inst>, lo: nat, hi: nat)
    requires lo <= hi
    ensures |Run(a, lo, hi).queue| == Waiting(|a|, lo, hi)
    ensures |Run(a, lo, hi).popped| == |a| - Waiting(|a|, lo, hi)
  {
    if a != [] {
      var front, last := a[..|a| - 1], a[|a| - 1];
      hide Waiting, Push;
      QueueLength(front, lo, hi);
      WaitingStep(|front|, lo, hi);
      PushLength(Run(front, lo, hi), last, lo, hi);
    } else {
      assert Waiting(0, lo, hi) == 0;
    }
  }

  lemma PushLength(st: State, x: Inst, lo: nat, hi: nat)
    requires lo <= hi
    ensures var st' := Push(st, x, lo, hi);
            && |st'.queue| == (if |st.queue| + 1 > hi then lo else |st.queue| + 1)
            && |st'.popped| + |st'.queue| == |st.popped| + |st.queue| + 1
  {
    var joined := State(st.queue + [x], st.popped);
    var st' := Drain(joined, lo);
    DrainCuts(joined, lo);
    assert |st'.popped + st'.queue| == |st.popped| + |st.queue| + 1;
  }

  lemma {:induction false} CountAll(s: seq<Inst>, k: int)
    requires forall i :: 0 <= i < |s| ==> s[i].sn < k
    ensures CountBelow(s, k) == |s|
  {
    if s != [] {
      CountAll(s[..|s| - 1], k);
    }
  }

  /** In a sorted `p + q`, all of `p` is below `k` when its last is. */
  lemma AllBelowLast(p: seq<Inst>, q: seq<Inst>, k: int)
    requires Ordered(p + q, Sn) && (p != [] ==> p[|p| - 1].sn < k)
    ensures CountBelow(p + q, k) >= |p|
  {
    CountConcat(p, q, k);
    forall i | 0 <= i < |p| ensures p[i].sn < k {
      assert p[i] == (p + q)[i] && p[|p| - 1] == (p + q)[|p| - 1];
      assert i < |p| - 1 ==> Sn((p + q)[i]) <= Sn((p + q)[|p| - 1]);
    }
    CountAll(p, k);
  }

  /** After a prefix that is on time, the next instruction is on time exactly when no more
      instructions overtook it than are waiting. */
  lemma OnTimeIffFewOvertook(a: seq<Inst>, i: nat, lo: nat, hi: nat)
    requires lo <= hi && i < |a| && OnTime(a, i, lo, hi)
    ensures ArrivesOnTime(a, i, lo, hi) <==> Overtaken(a, i) <= Waiting(i, lo, hi)
  {
    var p, q := Run(a[..i], lo, hi).popped, SortBy(Run(a[..i], lo, hi).queue, Sn);
    QueueLength(a[..i], lo, hi);
    OnTimeSorts(a, i, lo, hi);
    SortByOrders(a[..i], Sn);
    CountSorted(a[..i], a[i].sn + 1);
    if ArrivesOnTime(a, i, lo, hi) {
      AllBelowLast(p, q, a[i].sn + 1);
    } else {
      FewBelowLast(p, q, a[i].sn + 1);
    }
  }

  /** None of the first `n` instructions is overtaken by more than are then waiting. */
  ghost predicate FewOvertake(a: seq<Inst>, n: nat, lo: nat, hi: nat)
    requires lo <= hi && n <= |a|
  {
    forall i :: 0 <= i < n ==> Overtaken(a, i) <= Waiting(i, lo, hi)
  }

  lemma {:induction false} FewOvertakeIffOnTime(a: seq<Inst>, n: nat, lo: nat, hi: nat)
    requires lo <= hi && n <= |a|
    ensures OnTime(a, n, lo, hi) <==> FewOvertake(a, n, lo, hi)
  {
    if n > 0 {
      FewOvertakeIffOnTime(a, n - 1, lo, hi);
      if OnTime(a, n - 1, lo, hi) {
        OnTimeIffFewOvertook(a, n - 1, lo, hi);
      }
    }
  }

  /** The exact condition, on the trace alone: the bounded queue pops the stably sorted trace
      if and only if every instruction is overtaken by no more than are waiting when it
      arrives. */
  lemma SortedIffFewOvertake(a: seq<Inst>, lo: nat, hi: nat)
    requires lo <= hi
    ensures Popped(a, lo, hi) == SortBy(a, Sn)
       <==> forall i :: 0 <= i < |a| ==> Overtaken(a, i) <= Waiting(i, lo, hi)
  {
    SortedIffOnTime(a, lo, hi);
    FewOvertakeIffOnTime(a, |a|, lo, hi);
  }

  // ----- The bound is tight

  function Numbered(sn: int): Inst {
    Inst(sn, "", 1, 0, 0, 0, 0, 0, 1, 0)
  }

  function Odds(n: nat): seq<Inst> {
    seq(n, i => Numbered(2 * i + 1))
  }

  /** `hi + 1` instructions in order, then one that belongs just before the last of those
      that the first drain popped. */
  function OnePlaceTooLate(lo: nat, hi: nat): seq<Inst>
    requires lo <= hi
  {
    Odds(hi + 1) + [Numbered(2 * (hi - lo))]
  }

  lemma {:induction false} CountOdds(n: nat, k: int)
    ensures CountBelow(Odds(n), 2 * k + 1) == if k < 0 then 0 else if k < n then k else n
  {
    if n > 0 {
      assert Odds(n)[..n - 1] == Odds(n - 1);
      CountOdds(n - 1, k);
    }
  }

  lemma {:induction false} FillsWithoutDrain(a: seq<Inst>, lo: nat, hi: nat)
    requires |a| <= hi
    ensures Run(a, lo, hi) == State(a, [])
  {
    if a != [] {
      FillsWithoutDrain(a[..|a| - 1], lo, hi);
      assert a == a[..|a| - 1] + [a[|a| - 1]];
    }
  }

  lemma DrainOfOrdered(e: seq<Inst>, lower: nat)
    requires lower <= |e| && Ordered(e, Sn)
    ensures Drain(State(e, []), lower).popped == e[..|e| - lower]
  {
    SortOrdered(e, Sn);
  }

  lemma FirstDrain(e: seq<Inst>, last: Inst, lo: nat, hi: nat)
    requires lo <= hi && |e| == hi && Ordered(e + [last], Sn)
    ensures Run(e + [last], lo, hi).popped == (e + [last])[..hi + 1 - lo]
  {
    FillsWithoutDrain(e, lo, hi);
    assert (e + [last])[..hi] == e;
    DrainOfOrdered(e + [last], lo);
  }

  /** For every pair of thresholds one more place is too much: a trace in which no
      instruction is more than `lo + 1` places late comes out in the wrong order. */
  lemma OneMorePlaceIsTooMuch(lo: nat, hi: nat)
    requires lo <= hi
    ensures var a := OnePlaceTooLate(lo, hi);
            && (forall i :: 0 <= i < |a| ==> Displacement(a, i) <= lo + 1)
            && Popped(a, lo, hi) != SortBy(a, Sn)
  {
    var a, n := OnePlaceTooLate(lo, hi), hi + 1;
    forall i | 0 <= i < |a| ensures Displacement(a, i) <= lo + 1 {
      DisplacementOfLate(lo, hi, i);
    }
    assert a[..n] == Odds(n);
    LateByOne(lo, hi);
    assert !ArrivesOnTime(a, n, lo, hi);
    SortedIffOnTime(a, lo, hi);
  }

  lemma DisplacementOfLate(lo: nat, hi: nat, i: nat)
    requires lo <= hi && i <= hi + 1
    ensures Displacement(OnePlaceTooLate(lo, hi), i) <= lo + 1
  {
    var a := OnePlaceTooLate(lo, hi);
    assert a[..i] == Odds(i);
    if i <= hi {
      CountOdds(i, i);
      CountStep(Odds(i), 2 * i + 1);
    } else {
      CountOdds(i, hi - lo);
    }
  }

  lemma LateByOne(lo: nat, hi: nat)
    requires lo <= hi
    ensures var p := Run(Odds(hi + 1), lo, hi).popped;
            p != [] && p[|p| - 1].sn > 2 * (hi - lo)
  {
    hide Run;
    assert Odds(hi + 1) == Odds(hi) + [Numbered(2 * hi + 1)];
    FirstDrain(Odds(hi), Numbered(2 * hi + 1), lo, hi);
  }

  lemma {:induction false} CountStep(a: seq<Inst>, k: int)
    ensures CountBelow(a, k) <= CountBelow(a, k + 1)
  {
    if a != [] {
      CountStep(a[..|a| - 1], k);
    }
  }
}
