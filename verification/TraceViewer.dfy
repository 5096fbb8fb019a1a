/** The region-of-interest loop of the O3 pipeline viewer, over a trace whose lines are
    already grouped into instructions. */
module TraceViewer {
  import opened KeySort
  import opened PipeInst
  import opened ReorderQueue

  const DEFAULT_TICK_DRIFT: nat := 2000

  // ----- Where reading starts and stops

  /** Some trace line of the instruction carries a tick of at least `tick`. */
  predicate Reaches(inst: Inst, tick: int) {
    || inst.fetch >= tick || inst.decode >= tick || inst.rename >= tick || inst.dispatch >= tick
    || inst.issue >= tick || inst.complete >= tick || inst.retire >= tick
  }

  predicate StopsAt(w: Window, drift: int, hi: nat, inst: Inst) {
    || (w.tickStop > 0 && inst.fetch > w.tickStop + drift)
    || (w.snStop > 0 && inst.sn > w.snStop + hi)
  }

  /** Nothing before `k` is read: `k` is the first instruction fetched at or after the
      line that reached the start of the window. */
  ghost predicate StartsAt(trace: seq<Inst>, w: Window, k: nat) {
    && k <= |trace|
    && (w.tickStart != 0 ==>
          && (forall i :: 0 <= i < k ==> trace[i].fetch < w.tickStart)
          && (forall i :: 0 <= i < k - 1 ==> !Reaches(trace[i], w.tickStart))
          && (k < |trace| ==> trace[k].fetch >= w.tickStart || (k > 0 && Reaches(trace[k - 1], w.tickStart))))
    && (w.tickStart == 0 && w.snStart != 0 ==>
          && (forall i :: 0 <= i < k ==> trace[i].sn < w.snStart)
          && (k < |trace| ==> trace[k].sn >= w.snStart))
    && (w.tickStart == 0 && w.snStart == 0 ==> k == 0)
  }

  ghost predicate EndsAt(trace: seq<Inst>, w: Window, drift: int, hi: nat, k: nat, m: nat) {
    && k <= m <= |trace|
    && (forall i :: k <= i < m ==> !StopsAt(w, drift, hi, trace[i]))
    && (m < |trace| ==> StopsAt(w, drift, hi, trace[m]))
  }

  /** What the viewer prints for the instructions `a` it reads. */
  function Output(a: seq<Inst>, w: Window, lo: nat, hi: nat): seq<Inst> {
    Select(Popped(a, lo, hi), Keep(w))
  }

  /** What is printed, field by field: every instruction that was read and lies within the bounds
      that are set is printed as often as it was read, and nothing else is. */
  lemma PrintedExactly(a: seq<Inst>, w: Window, lo: nat, hi: nat, x: Inst)
    ensures var within :=
              && (w.snStart > 0 ==> x.sn >= w.snStart) && (w.snStop > 0 ==> x.sn <= w.snStop)
              && (w.tickStart > 0 ==> x.fetch >= w.tickStart) && (w.tickStop > 0 ==> x.fetch <= w.tickStop)
              && (w.onlyCommitted ==> x.retire != 0);
            multiset(Output(a, w, lo, hi))[x] == if within then multiset(a)[x] else 0
  {
    PoppedIsPermutation(a, lo, hi);
    SelectCounts(Popped(a, lo, hi), Keep(w), x);
  }

  /** The instructions that are read: up to the first whose fetch is past the window and its
      slack. */
  lemma RegionBounds(trace: seq<Inst>, w: Window, drift: int, hi: nat, k: nat, m: nat)
    ensures EndsAt(trace, w, drift, hi, k, m)
       <==> && k <= m <= |trace|
            && (w.tickStop > 0 ==> forall i :: k <= i < m ==> trace[i].fetch <= w.tickStop + drift)
            && (w.snStop > 0 ==> forall i :: k <= i < m ==> trace[i].sn <= w.snStop + hi)
            && (m < |trace| ==>
                  || (w.tickStop > 0 && trace[m].fetch > w.tickStop + drift)
                  || (w.snStop > 0 && trace[m].sn > w.snStop + hi))
  {
  }

  lemma PopOne(before: seq<Inst>, sorted: seq<Inst>, n: nat)
    requires n < |sorted|
    ensures sorted[n..][0] == sorted[n] && sorted[n..][1..] == sorted[n + 1..]
    ensures before + sorted[..n] + [sorted[n]] == before + sorted[..n + 1]
  {
  }

  lemma NextRegion(trace: seq<Inst>, k: nat, m: nat)
    requires k <= m < |trace|
    ensures trace[k..m + 1] == trace[k..m] + [trace[m]]
  {
  }

  // ----- The viewer's mutable state

  class Viewer {
    var queue: seq<Inst>
    var printed: seq<Inst>
    ghost var popped: seq<Inst>
    ghost var arrived: seq<Inst>
    const minThreshold: nat
    const maxThreshold: nat
    const drift: int
    const window: Window

    ghost function Abs(): State
      reads this
    {
      State(queue, popped)
    }

    ghost predicate Filtered()
      reads this
    {
      printed == Select(popped, Keep(window))
    }

    /** Between calls the queue is what the arrivals so far make of it. */
    ghost predicate Valid()
      reads this
    {
      Filtered() && Abs() == Run(arrived, minThreshold, maxThreshold)
    }

    constructor (lo: nat, hi: nat, w: Window, cycleTime: int)
      ensures Valid() && arrived == []
      ensures minThreshold == lo && maxThreshold == hi && window == w
      ensures drift == 2000 * cycleTime
    {
      queue, printed, popped, arrived := [], [], [], [];
      minThreshold, maxThreshold, window, drift := lo, hi, w, DEFAULT_TICK_DRIFT * cycleTime;
    }

    /** Prints `item` unless it lies outside the window. */
    method Consider(item: Inst)
      modifies this`printed
      ensures printed == if Shown(window, item) then old(printed) + [item] else old(printed)
    {
      if window.snStart > 0 && item.sn < window.snStart {
        return;
      }
      if window.snStop > 0 && item.sn > window.snStop {
        return;
      }
      if window.tickStart > 0 && item.fetch < window.tickStart {
        return;
      }
      if window.tickStop > 0 && item.fetch > window.tickStop {
        return;
      }
      if window.onlyCommitted && item.retire == 0 {
        return;
      }
      printed := printed + [item];
    }

    /** Sorts the queue and pops its front until `lower` instructions remain. */
    method PrintInsts(lower: nat)
      requires Filtered()
      modifies this
      ensures Filtered() && Abs() == Drain(old(Abs()), lower) && arrived == old(arrived)
    {
      queue := SortBy(queue, Sn);
      ghost var sorted, before := queue, popped;
      ghost var n := 0;
      while |queue| > lower
        invariant n == |sorted| - |queue| && queue == sorted[n..] && popped == before + sorted[..n]
        invariant n > 0 ==> |queue| >= lower
        invariant Filtered() && arrived == old(arrived)
      {
        var item := queue[0];
        SelectSnoc(popped, item, Keep(window));
        PopOne(before, sorted, n);
        Consider(item);
        queue := queue[1..];
        popped := popped + [item];
        n := n + 1;
      }
      DrainAt(old(Abs()), lower, n);
    }

    method QueueInst(inst: Inst)
      requires Valid()
      modifies this
      ensures Valid() && arrived == old(arrived) + [inst]
      ensures Abs() == Push(old(Abs()), inst, minThreshold, maxThreshold)
    {
      RunSnoc(arrived, inst, minThreshold, maxThreshold);
      queue := queue + [inst];
      if |queue| > maxThreshold {
        PrintInsts(minThreshold);
      }
      arrived := arrived + [inst];
    }

    /** Skips the instructions that lie before the window. */
    method FindStart(trace: seq<Inst>) returns (k: nat)
      ensures StartsAt(trace, window, k)
      ensures window.tickStart != 0 ==>
                forall i :: 0 <= i < k - 1 ==>
                  var t := window.tickStart;
                  && trace[i].fetch < t && trace[i].decode < t && trace[i].rename < t && trace[i].dispatch < t
                  && trace[i].issue < t && trace[i].complete < t && trace[i].retire < t
      ensures window.tickStart != 0 && 0 < k < |trace| && trace[k].fetch < window.tickStart ==>
                var t, last := window.tickStart, trace[k - 1];
                || last.decode >= t || last.rename >= t || last.dispatch >= t
                || last.issue >= t || last.complete >= t || last.retire >= t
    {
      k := 0;
      if window.tickStart != 0 {
        while k < |trace| && !Reaches(trace[k], window.tickStart)
          invariant k <= |trace|
          invariant forall i :: 0 <= i < k ==> !Reaches(trace[i], window.tickStart)
        {
          k := k + 1;
        }
        if k < |trace| && trace[k].fetch < window.tickStart {
          k := k + 1;
        }
      } else if window.snStart != 0 {
        while k < |trace| && trace[k].sn < window.snStart
          invariant k <= |trace|
          invariant forall i :: 0 <= i < k ==> trace[i].sn < window.snStart
        {
          k := k + 1;
        }
      }
    }

    /** Queues instructions until the trace or the window ends. */
    method ReadRegion(trace: seq<Inst>, k: nat) returns (m: nat)
      requires Valid() && arrived == [] && k <= |trace|
      modifies this
      ensures Valid() && EndsAt(trace, window, drift, maxThreshold, k, m) && arrived == trace[k..m]
    {
      hide Run;
      m := k;
      while m < |trace| && !StopsAt(window, drift, maxThreshold, trace[m])
        invariant k <= m <= |trace| && Valid() && arrived == trace[k..m]
        invariant forall i :: k <= i < m ==> !StopsAt(window, drift, maxThreshold, trace[i])
      {
        NextRegion(trace, k, m);
        QueueInst(trace[m]);
        m := m + 1;
      }
    }

    /** Reads the trace from the start of the window to its end and flushes the queue. */
    method ProcessTrace(trace: seq<Inst>) returns (ghost k: nat, ghost m: nat)
      requires Valid() && arrived == []
      modifies this
      ensures StartsAt(trace, window, k) && EndsAt(trace, window, drift, maxThreshold, k, m)
      ensures printed == Output(trace[k..m], window, minThreshold, maxThreshold)
      ensures forall x: Inst ::
                var within :=
                  && (window.snStart > 0 ==> x.sn >= window.snStart) && (window.snStop > 0 ==> x.sn <= window.snStop)
                  && (window.tickStart > 0 ==> x.fetch >= window.tickStart)
                  && (window.tickStop > 0 ==> x.fetch <= window.tickStop)
                  && (window.onlyCommitted ==> x.retire != 0);
                multiset(printed)[x] == if within then multiset(trace[k..m])[x] else 0
    {
      var start := FindStart(trace);
      k := start;
      m := ReadRegion(trace, start);
      PrintInsts(0);
      forall x { PrintedExactly(trace[k..m], window, minThreshold, maxThreshold, x); }
    }
  }

  // ----- Reading only a region loses nothing

  /** The order that the viewer assumes of its input: no instruction arrives more than
      `lo` places after its rank, and neither ticks nor sequence numbers run back by more than
      the slack used to decide when to stop. */
  ghost predicate AlmostInOrder(trace: seq<Inst>, w: Window, drift: int, lo: nat, hi: nat) {
    && (forall i :: 0 <= i < |trace| ==> Displacement(trace, i) <= lo)
    && (w.tickStop > 0 ==> forall i, j :: 0 <= i < j < |trace| ==> trace[i].fetch <= trace[j].fetch + drift)
    && (w.snStop > 0 ==> forall i, j :: 0 <= i < j < |trace| ==> trace[i].sn <= trace[j].sn + hi)
  }

  lemma OutsideIsHidden(trace: seq<Inst>, w: Window, drift: int, lo: nat, hi: nat, k: nat, m: nat)
    requires AlmostInOrder(trace, w, drift, lo, hi)
    requires StartsAt(trace, w, k) && EndsAt(trace, w, drift, hi, k, m)
    requires w.tickStart >= 0 && w.snStart >= 0 && drift >= 0
    ensures Select(trace[..k], Keep(w)) == [] && Select(trace[m..], Keep(w)) == []
  {
    forall i | 0 <= i < k ensures !Keep(w)(trace[..k][i]) {
      assert trace[..k][i] == trace[i];
    }
    SelectNone(trace[..k], Keep(w));
    forall i | 0 <= i < |trace| - m ensures !Keep(w)(trace[m..][i]) {
      assert trace[m..][i] == trace[m + i];
    }
    SelectNone(trace[m..], Keep(w));
  }

  /** End to end: on a trace that is almost in order, the viewer prints the instructions of
      the window in stable order of sequence number, exactly as if it had read, sorted and
      filtered the whole trace. */
  lemma RegionRefinesSortThenFilter(trace: seq<Inst>, w: Window, drift: int, lo: nat, hi: nat, k: nat, m: nat)
    requires lo <= hi && AlmostInOrder(trace, w, drift, lo, hi)
    requires w.tickStart >= 0 && w.snStart >= 0 && drift >= 0
    requires StartsAt(trace, w, k) && EndsAt(trace, w, drift, hi, k, m)
    ensures Output(trace[k..m], w, lo, hi) == Select(SortBy(trace, Sn), Keep(w))
    ensures Ordered(Output(trace[k..m], w, lo, hi), Sn)
    ensures forall x: Inst ::
              var within :=
                && (w.snStart > 0 ==> x.sn >= w.snStart) && (w.snStop > 0 ==> x.sn <= w.snStop)
                && (w.tickStart > 0 ==> x.fetch >= w.tickStart) && (w.tickStop > 0 ==> x.fetch <= w.tickStop)
                && (w.onlyCommitted ==> x.retire != 0);
              multiset(Output(trace[k..m], w, lo, hi))[x] == if within then multiset(trace)[x] else 0
  {
    SortByOrders(trace, Sn);
    SelectOrdered(SortBy(trace, Sn), Keep(w), Sn);
    forall x { SelectCounts(SortBy(trace, Sn), Keep(w), x); }
    PlacedRegionIsSorted(trace, lo, hi, k, m);
    OutsideIsHidden(trace, w, drift, lo, hi, k, m);
    RegionOutput(trace, k, m, w, lo, hi);
  }

  lemma RegionOutput(trace: seq<Inst>, k: nat, m: nat, w: Window, lo: nat, hi: nat)
    requires k <= m <= |trace| && Popped(trace[k..m], lo, hi) == SortBy(trace[k..m], Sn)
    requires Select(trace[..k], Keep(w)) == [] && Select(trace[m..], Keep(w)) == []
    ensures Output(trace[k..m], w, lo, hi) == Select(SortBy(trace, Sn), Keep(w))
  {
    SelectSortMiddle(trace, k, m, Keep(w), Sn);
  }
}
