/** Taking checkpoints at regular ticks while a benchmark may interrupt the simulation with
    checkpoint requests of its own, or end it. */
module PeriodicCheckpoints {

  datatype Cause = LimitReached | BenchmarkCheckpoint | Exit

  /** What the simulated system does next: it runs for up to `advance` ticks and stops for the
      given cause. */
  datatype Event = Event(advance: nat, cause: Cause)

  /** A simulated system: where it is and what it will do. */
  datatype World = World(tick: int, script: seq<Event>)

  function Cause0(w: World): Cause {
    if w.script == [] then Exit else w.script[0].cause
  }

  /** The system after it ran for up to `limit` ticks. */
  function Advanced(w: World, limit: int): World {
    if w.script == [] then w
    else
      var e := w.script[0];
      var ticks := if limit < 0 then 0 else if e.cause == LimitReached || e.advance > limit then limit else e.advance;
      World(w.tick + ticks, w.script[1..])
  }

  /** Any simulator: it never runs past the limit it is given, and runs exactly to the limit
      when it reports that. Once its script is used up, the simulation has ended. */
  class Simulator {
    var curTick: int
    var script: seq<Event>

    constructor (tick: int, events: seq<Event>)
      ensures curTick == tick && script == events
    {
      curTick, script := tick, events;
    }

    ghost function View(): World
      reads this
    {
      World(curTick, script)
    }

    method Simulate(limit: int) returns (cause: Cause)
      modifies this
      ensures cause == Cause0(old(View())) && View() == Advanced(old(View()), limit)
      ensures limit >= 0 ==> old(curTick) <= curTick <= old(curTick) + limit
      ensures limit >= 0 && cause == LimitReached ==> curTick == old(curTick) + limit
      ensures |script| <= |old(script)| && (cause != Exit ==> |script| < |old(script)|)
    {
      if script == [] {
        cause := Exit;
      } else {
        var e := script[0];
        script := script[1..];
        cause := e.cause;
        if limit >= 0 {
          curTick := curTick + if e.cause == LimitReached || e.advance > limit then limit else e.advance;
        }
      }
    }
  }

  /** Why no further checkpoint is taken. */
  datatype Reason = Enough | PastMaxTick | Stopped

  /** The `j`-th checkpoint is due at `start + j * period`. */
  ghost predicate OnSchedule(log: seq<int>, start: int, period: int) {
    forall j :: 0 <= j < |log| ==> log[j] == Due(start, period, j)
  }

  function Due(start: int, period: int, j: nat): int {
    start + j * period
  }

  /** The system once the run to `target` is over: every interruption by the benchmark is
      followed by another run. */
  function Reached(w: World, target: int, cause: Cause): World
    decreases |w.script|, cause == BenchmarkCheckpoint
  {
    if cause != BenchmarkCheckpoint then w
    else Reached(Advanced(w, target - w.tick), target, Cause0(w))
  }

  function ReachedFor(w: World, target: int, cause: Cause): (c: Cause)
    ensures c != BenchmarkCheckpoint
    decreases |w.script|, cause == BenchmarkCheckpoint
  {
    if cause != BenchmarkCheckpoint then cause
    else ReachedFor(Advanced(w, target - w.tick), target, Cause0(w))
  }

  /** Simulates up to tick `target`, however often the benchmark interrupts. */
  method RunTo(sim: Simulator, target: int, cause0: Cause) returns (cause: Cause)
    requires sim.curTick <= target && (cause0 == LimitReached ==> sim.curTick == target)
    modifies sim
    ensures sim.View() == Reached(old(sim.View()), target, cause0)
    ensures cause == ReachedFor(old(sim.View()), target, cause0) && sim.curTick <= target
    ensures cause == LimitReached ==> sim.curTick == target
    ensures |sim.script| <= old(|sim.script|)
  {
    cause := cause0;
    while cause == BenchmarkCheckpoint
      invariant sim.curTick <= target && (cause == LimitReached ==> sim.curTick == target)
      invariant |sim.script| <= old(|sim.script|)
      invariant Reached(sim.View(), target, cause) == Reached(old(sim.View()), target, cause0)
      invariant ReachedFor(sim.View(), target, cause) == ReachedFor(old(sim.View()), target, cause0)
      decreases |sim.script|, cause == BenchmarkCheckpoint
    {
      cause := sim.Simulate(target - sim.curTick);
    }
  }

  /** A series of checkpoints, why it ended, the exit that is returned, and the system then. */
  datatype Series = Series(log: seq<int>, reason: Reason, cause: Cause, end: World)

  datatype Plan = Plan(period: int, maxTick: int, maxCheckpoints: int)

  /** What follows when `taken` checkpoints were taken, the last one at `due`. */
  function Periods(w: World, due: int, taken: nat, p: Plan): Series
    decreases |w.script|
  {
    if taken >= p.maxCheckpoints then Series([], Enough, LimitReached, w)
    else if due + p.period > p.maxTick then Series([], PastMaxTick, Cause0(w), Advanced(w, p.maxTick - due))
    else
      var first, after := Cause0(w), Advanced(w, p.period);
      var there := Reached(after, due + p.period, first);
      var got := ReachedFor(after, due + p.period, first);
      var own := if got == LimitReached then [there.tick] else [];
      if first != LimitReached then Series(own, Stopped, got, there)
      else
        var rest := Periods(there, due + p.period, taken + 1, p);
        rest.(log := own + rest.log)
  }

  function AllPeriods(w: World, start: int, p: Plan): Series {
    var first, after := Cause0(w), Advanced(w, start - w.tick);
    var there := Reached(after, start, first);
    var got := ReachedFor(after, start, first);
    if got != LimitReached then Series([], Stopped, got, there)
    else
      var rest := Periods(there, start, 1, p);
      rest.(log := [there.tick] + rest.log)
  }

  /** A run to a target never passes it, and stands at it when it is met. */
  lemma {:induction false} ReachTick(w: World, target: int)
    requires w.tick <= target
    ensures var there := Reached(Advanced(w, target - w.tick), target, Cause0(w));
            && there.tick <= target
            && (ReachedFor(Advanced(w, target - w.tick), target, Cause0(w)) == LimitReached ==> there.tick == target)
    decreases |w.script|
  {
    if Cause0(w) == BenchmarkCheckpoint {
      ReachTick(Advanced(w, target - w.tick), target);
    }
  }

  /** What holds of a series that starts behind a checkpoint at `due`: the ticks of the
      checkpoints, the bounds, and where the system stands at the end. */
  ghost predicate Proper(run: Series, due: int, taken: nat, p: Plan) {
    var last := Due(due, p.period, |run.log|);
    && (forall j :: 0 <= j < |run.log| ==> run.log[j] == Due(due, p.period, j + 1) <= p.maxTick)
    && (run.log == [] || taken + |run.log| <= p.maxCheckpoints)
    && (run.reason == Enough ==>
          taken + |run.log| >= p.maxCheckpoints && run.cause == LimitReached && run.end.tick == last)
    && (run.reason == PastMaxTick ==>
          && taken + |run.log| < p.maxCheckpoints && last + p.period > p.maxTick
          && (p.maxTick >= last ==>
                last <= run.end.tick <= p.maxTick && (run.cause == LimitReached ==> run.end.tick == p.maxTick)))
    && (run.reason == Stopped ==>
          run.cause != BenchmarkCheckpoint && (run.cause == LimitReached ==> run.log != [] && run.end.tick == last))
  }

  lemma {:induction false} PeriodsProper(w: World, due: int, taken: nat, p: Plan)
    requires w.tick == due && p.period >= 0
    ensures Proper(Periods(w, due, taken, p), due, taken, p)
    decreases |w.script|
  {
    hide Proper, Reached, ReachedFor;
    if taken >= p.maxCheckpoints || due + p.period > p.maxTick {
      ProperAtOnce(w, due, taken, p);
    } else {
      ReachTick(w, due + p.period);
      FirstCause(w, p.period, due + p.period);
      if Cause0(w) == LimitReached {
        var after := Advanced(w, p.period);
        PeriodsProper(after, due + p.period, taken + 1, p);
        ProperLater(Periods(after, due + p.period, taken + 1, p), due, taken, p);
      } else {
        ProperStopped(Periods(w, due, taken, p), due, taken, p);
      }
    }
  }

  lemma ProperAtOnce(w: World, due: int, taken: nat, p: Plan)
    requires w.tick == due && (taken >= p.maxCheckpoints || due + p.period > p.maxTick)
    ensures Proper(Periods(w, due, taken, p), due, taken, p)
  {
    NextDue(due, p.period, 0);
  }

  lemma ProperLater(rest: Series, due: int, taken: nat, p: Plan)
    requires taken < p.maxCheckpoints && due + p.period <= p.maxTick
    requires Proper(rest, due + p.period, taken + 1, p)
    ensures Proper(rest.(log := [due + p.period] + rest.log), due, taken, p)
  {
    hide Due;
    NextDue(due, p.period, 0);
    DueShifts(due, p.period, |rest.log|);
    var log := [due + p.period] + rest.log;
    forall j | 0 <= j < |log| ensures log[j] == Due(due, p.period, j + 1) <= p.maxTick {
      if j > 0 {
        assert log[j] == rest.log[j - 1];
        DueShifts(due, p.period, j);
      }
    }
  }

  lemma DueShifts(due: int, period: int, j: nat)
    ensures Due(due + period, period, j) == Due(due, period, j + 1)
  {
  }

  lemma ProperStopped(run: Series, due: int, taken: nat, p: Plan)
    requires taken < p.maxCheckpoints && due + p.period <= p.maxTick && run.reason == Stopped
    requires run.cause != BenchmarkCheckpoint
    requires if run.cause == LimitReached then run.log == [due + p.period] && run.end.tick == due + p.period
             else run.log == []
    ensures Proper(run, due, taken, p)
  {
    NextDue(due, p.period, 0);
  }

  /** The periodic branch. The last exit is returned too. */
  method TakePeriodic(sim: Simulator, start: int, period: int, maxTick: int, maxCheckpoints: int)
    returns (log: seq<int>, reason: Reason, exit: Cause)
    requires sim.curTick <= start && period >= 0
    modifies sim
    ensures Series(log, reason, exit, sim.View())
         == AllPeriods(old(sim.View()), start, Plan(period, maxTick, maxCheckpoints))
    ensures OnSchedule(log, start, period)
    ensures forall j :: 1 <= j < |log| ==> log[j] <= maxTick
    ensures |log| <= 1 || |log| <= maxCheckpoints
    ensures reason == Enough ==> |log| > 0 && |log| >= maxCheckpoints
    ensures reason == PastMaxTick ==> log != [] && |log| < maxCheckpoints && Due(start, period, |log|) > maxTick
    ensures reason == Enough ==> exit == LimitReached && sim.curTick == log[|log| - 1]
    ensures reason == PastMaxTick && maxTick >= log[|log| - 1] ==>
              log[|log| - 1] <= sim.curTick <= maxTick && (exit == LimitReached ==> sim.curTick == maxTick)
    ensures reason == Stopped && exit == LimitReached ==> log != [] && sim.curTick == log[|log| - 1]
    ensures exit != BenchmarkCheckpoint || reason == PastMaxTick
  {
    hide Reached, ReachedFor, Advanced, Cause0, Periods, AllPeriods, Due;
    log, reason, exit := RunPeriods(sim, start, period, maxTick, maxCheckpoints);
    AllProper(old(sim.View()), start, Plan(period, maxTick, maxCheckpoints));
  }

  /** The loop itself. */
  method RunPeriods(sim: Simulator, start: int, period: int, maxTick: int, maxCheckpoints: int)
    returns (log: seq<int>, reason: Reason, exit: Cause)
    requires sim.curTick <= start && period >= 0
    modifies sim
    ensures Series(log, reason, exit, sim.View())
         == AllPeriods(old(sim.View()), start, Plan(period, maxTick, maxCheckpoints))
  {
    hide Reached, ReachedFor, Advanced, Cause0, Periods;
    ghost var plan := Plan(period, maxTick, maxCheckpoints);
    ghost var whole := AllPeriods(sim.View(), start, plan);
    var cause := sim.Simulate(start - sim.curTick);
    cause := RunTo(sim, start, cause);
    exit := cause;
    log := [];
    if cause == LimitReached {
      log := [sim.curTick];
    }
    var simTicks := start;
    while |log| < maxCheckpoints && cause == LimitReached
      invariant whole == if cause == LimitReached then Behind(log, Periods(sim.View(), simTicks, |log|, plan))
                         else Series(log, Stopped, exit, sim.View())
      invariant cause == LimitReached ==> sim.curTick == simTicks && exit == LimitReached
      decreases |sim.script|, cause == LimitReached
    {
      PeriodsStep(log, sim.View(), simTicks, plan);
      if simTicks + period > maxTick {
        exit := sim.Simulate(maxTick - simTicks);
        return log, PastMaxTick, exit;
      }
      cause := sim.Simulate(period);
      simTicks := simTicks + period;
      exit := RunTo(sim, simTicks, cause);
      if exit == LimitReached {
        log := log + [sim.curTick];
      }
    }
    PeriodsStep(log, sim.View(), simTicks, plan);
    reason := if cause == LimitReached then Enough else Stopped;
  }

  /** What holds of the whole series. */
  lemma AllProper(w: World, start: int, p: Plan)
    requires w.tick <= start && p.period >= 0
    ensures var run := AllPeriods(w, start, p);
            && OnSchedule(run.log, start, p.period)
            && (forall j :: 1 <= j < |run.log| ==> run.log[j] <= p.maxTick)
            && (|run.log| <= 1 || |run.log| <= p.maxCheckpoints)
            && (run.reason == Enough ==>
                  && |run.log| > 0 && |run.log| >= p.maxCheckpoints && run.cause == LimitReached
                  && run.end.tick == run.log[|run.log| - 1])
            && (run.reason == PastMaxTick ==>
                  && run.log != [] && |run.log| < p.maxCheckpoints && Due(start, p.period, |run.log|) > p.maxTick
                  && (p.maxTick >= run.log[|run.log| - 1] ==>
                        && run.log[|run.log| - 1] <= run.end.tick <= p.maxTick
                        && (run.cause == LimitReached ==> run.end.tick == p.maxTick)))
            && (run.reason == Stopped && run.cause == LimitReached ==>
                  run.log != [] && run.end.tick == run.log[|run.log| - 1])
            && (run.cause != BenchmarkCheckpoint || run.reason == PastMaxTick)
  {
    hide Reached, ReachedFor, Advanced, Cause0, Periods, Due;
    ReachTick(w, start);
    var there := Reached(Advanced(w, start - w.tick), start, Cause0(w));
    NextDue(start, p.period, 0);
    if ReachedFor(Advanced(w, start - w.tick), start, Cause0(w)) == LimitReached {
      PeriodsProper(there, start, 1, p);
      var rest := Periods(there, start, 1, p);
      NextDue(start, p.period, |rest.log|);
    }
  }

  lemma NextDue(start: int, period: int, j: nat)
    ensures Due(start, period, j + 1) == Due(start, period, j) + period && Due(start, period, 0) == start
  {
  }

  function Behind(log: seq<int>, rest: Series): Series {
    rest.(log := log + rest.log)
  }

  /** One turn of the loop. */
  lemma PeriodsStep(log: seq<int>, w: World, due: int, p: Plan)
    ensures var whole := Behind(log, Periods(w, due, |log|, p));
            if |log| >= p.maxCheckpoints then whole == Series(log, Enough, LimitReached, w)
            else if due + p.period > p.maxTick then
              whole == Series(log, PastMaxTick, Cause0(w), Advanced(w, p.maxTick - due))
            else
              var first, after := Cause0(w), Advanced(w, p.period);
              var there, got := Reached(after, due + p.period, first), ReachedFor(after, due + p.period, first);
              && (first == LimitReached ==>
                    && there == after && got == LimitReached
                    && whole == Behind(log + [there.tick], Periods(there, due + p.period, |log| + 1, p)))
              && (first != LimitReached ==>
                    whole == Series(if got == LimitReached then log + [there.tick] else log, Stopped, got, there))
  {
    assert log + [] == log;
    if |log| < p.maxCheckpoints && due + p.period <= p.maxTick && Cause0(w) == LimitReached {
      var after := Advanced(w, p.period);
      var rest := Periods(after, due + p.period, |log| + 1, p);
      assert log + ([after.tick] + rest.log) == log + [after.tick] + rest.log;
    }
  }

  // ----- When the series ends, from the script alone

  /** How many checkpoints the plan still has room for. */
  function Needed(due: int, taken: nat, p: Plan): nat
    decreases p.maxCheckpoints - taken
  {
    if taken >= p.maxCheckpoints || due + p.period > p.maxTick then 0
    else 1 + Needed(due + p.period, taken + 1, p)
  }

  /** As many as stay within the maximum and at or before the last tick. */
  lemma {:induction false} NeededIs(due: int, taken: nat, p: Plan, n: nat)
    requires p.period >= 0 && n > 0
    ensures n <= Needed(due, taken, p) <==> taken + n <= p.maxCheckpoints && Due(due, p.period, n) <= p.maxTick
    decreases n
  {
    assert n * p.period == p.period + (n - 1) * p.period;
    assert (n - 1) * p.period >= 0;
    if n > 1 && taken < p.maxCheckpoints && due + p.period <= p.maxTick {
      NeededIs(due + p.period, taken + 1, p, n - 1);
    }
  }

  /** The number of undisturbed stretches at the front. */
  function Limits(script: seq<Event>): (n: nat)
    ensures n <= |script|
    ensures forall k :: 0 <= k < n ==> script[k].cause == LimitReached
    ensures n < |script| ==> script[n].cause != LimitReached
  {
    if script == [] || script[0].cause != LimitReached then 0 else 1 + Limits(script[1..])
  }

  /** The number of interruptions by the benchmark at the front. */
  function Interruptions(script: seq<Event>): (n: nat)
    ensures n <= |script|
    ensures forall k :: 0 <= k < n ==> script[k].cause == BenchmarkCheckpoint
    ensures n < |script| ==> script[n].cause != BenchmarkCheckpoint
  {
    if script == [] || script[0].cause != BenchmarkCheckpoint then 0 else 1 + Interruptions(script[1..])
  }

  /** After all interruptions the run to a target meets it. */
  predicate Meets(script: seq<Event>) {
    var m := Interruptions(script);
    m < |script| && script[m].cause == LimitReached
  }

  /** What is left after one more event. */
  function Tail(script: seq<Event>): seq<Event> {
    if script == [] then [] else script[1..]
  }

  /** Whether a target is met, and what is left to happen then. */
  lemma {:induction false} MeetsExact(w: World, limit: int, target: int)
    ensures ReachedFor(Advanced(w, limit), target, Cause0(w)) == if Meets(w.script) then LimitReached else Exit
    ensures Reached(Advanced(w, limit), target, Cause0(w)).script == Tail(w.script[Interruptions(w.script)..])
    decreases |w.script|
  {
    var after := Advanced(w, limit);
    if Cause0(w) == BenchmarkCheckpoint {
      MeetsExact(after, target - after.tick, target);
      assert forall k :: 0 <= k <= |after.script| ==> after.script[k..] == w.script[k + 1..];
    } else {
      assert w.script[0..] == w.script;
    }
  }

  /** How a series ends: which event gives the exit, and which are left. */
  ghost predicate EndsWith(run: Series, script: seq<Event>, quiet: nat, need: nat)
    requires quiet <= |script|
  {
    if quiet < need then
      var rest := script[quiet..];
      run.cause == (if Meets(rest) then LimitReached else Exit) && run.end.script == Tail(rest[Interruptions(rest)..])
    else if run.reason == Enough then run.cause == LimitReached && run.end.script == script[need..]
    else
      && run.cause == (if need < |script| then script[need].cause else Exit)
      && run.end.script == Tail(script[need..])
  }

  lemma {:induction false} PeriodsCount(w: World, due: int, taken: nat, p: Plan)
    ensures var run, quiet, need := Periods(w, due, taken, p), Limits(w.script), Needed(due, taken, p);
            && (run.reason == Stopped <==> quiet < need)
            && (run.reason == Enough <==> quiet >= need && taken + need >= p.maxCheckpoints)
            && |run.log| == if quiet >= need then need else quiet + if Meets(w.script[quiet..]) then 1 else 0
    decreases |w.script|
  {
    hide Meets, Interruptions, Limits, Reached, ReachedFor;
    if taken < p.maxCheckpoints && due + p.period <= p.maxTick {
      MeetsExact(w, p.period, due + p.period);
      FirstCause(w, p.period, due + p.period);
      if Cause0(w) == LimitReached {
        var after := Advanced(w, p.period);
        PeriodsCount(after, due + p.period, taken + 1, p);
        assert after.script[Limits(after.script)..] == w.script[Limits(w.script)..];
      } else {
        assert w.script[0..] == w.script;
      }
    }
  }

  lemma {:induction false} PeriodsEnd(w: World, due: int, taken: nat, p: Plan)
    ensures EndsWith(Periods(w, due, taken, p), w.script, Limits(w.script), Needed(due, taken, p))
    decreases |w.script|
  {
    hide Meets, Interruptions, Limits, Reached, ReachedFor, EndsWith;
    if taken < p.maxCheckpoints && due + p.period <= p.maxTick {
      MeetsExact(w, p.period, due + p.period);
      FirstCause(w, p.period, due + p.period);
      if Cause0(w) == LimitReached {
        var after := Advanced(w, p.period);
        PeriodsEnd(after, due + p.period, taken + 1, p);
        EndsLater(Periods(after, due + p.period, taken + 1, p), Periods(w, due, taken, p), w.script,
                  Limits(after.script), Needed(due + p.period, taken + 1, p));
      } else {
        EndsDisturbed(Periods(w, due, taken, p), w.script, Needed(due, taken, p));
      }
    } else {
      EndsPlanned(Periods(w, due, taken, p), w.script, Limits(w.script));
    }
  }

  /** The series runs to its planned end if and only if nothing disturbs as many stretches as are
      needed. Otherwise it ends with the first disturbed period, whose own checkpoint is still
      taken when the benchmark's interruptions are followed by an undisturbed stretch. */
  lemma PeriodsExact(w: World, due: int, taken: nat, p: Plan)
    ensures var run, quiet, need := Periods(w, due, taken, p), Limits(w.script), Needed(due, taken, p);
            && (run.reason == Stopped <==> quiet < need)
            && (run.reason == Enough <==> quiet >= need && taken + need >= p.maxCheckpoints)
            && |run.log| == (if quiet >= need then need else quiet + if Meets(w.script[quiet..]) then 1 else 0)
            && EndsWith(run, w.script, quiet, need)
  {
    hide Periods, Needed, Limits, Meets, EndsWith;
    PeriodsCount(w, due, taken, p);
    PeriodsEnd(w, due, taken, p);
  }

  lemma FirstCause(w: World, limit: int, target: int)
    ensures Cause0(w) == LimitReached ==>
              && w.script != [] && Limits(w.script) == 1 + Limits(w.script[1..])
              && Advanced(w, limit).script == w.script[1..]
              && Reached(Advanced(w, limit), target, LimitReached) == Advanced(w, limit)
              && ReachedFor(Advanced(w, limit), target, LimitReached) == LimitReached
    ensures Cause0(w) != LimitReached ==> Limits(w.script) == 0
  {
  }

  lemma EndsLater(rest: Series, run: Series, script: seq<Event>, quiet: nat, need: nat)
    requires script != [] && quiet < |script| && EndsWith(rest, script[1..], quiet, need)
    requires run == rest.(log := run.log)
    ensures EndsWith(run, script, quiet + 1, need + 1)
  {
    assert script[1..][quiet..] == script[quiet + 1..];
    assert need < |script| ==> script[1..][need..] == script[need + 1..];
    if quiet >= need {
      assert script[1..][need..] == script[need + 1..];
    }
  }

  lemma EndsDisturbed(run: Series, script: seq<Event>, need: nat)
    requires need > 0 && run.cause == (if Meets(script) then LimitReached else Exit)
    requires run.end.script == Tail(script[Interruptions(script)..])
    ensures EndsWith(run, script, 0, need)
  {
    assert script[0..] == script;
  }

  lemma EndsPlanned(run: Series, script: seq<Event>, quiet: nat)
    requires quiet <= |script|
    requires if run.reason == Enough then run.cause == LimitReached && run.end.script == script
             else run.cause == (if script == [] then Exit else script[0].cause) && run.end.script == Tail(script)
    ensures EndsWith(run, script, quiet, 0)
  {
    assert script[0..] == script;
  }

  /** The same for the whole series, which starts when the first target is met. */
  lemma AllExact(w: World, start: int, p: Plan)
    ensures var run := AllPeriods(w, start, p);
            if !Meets(w.script) then
              && run.log == [] && run.reason == Stopped && run.cause == Exit
              && run.end.script == Tail(w.script[Interruptions(w.script)..])
            else
              var rest := w.script[Interruptions(w.script) + 1..];
              var quiet, need := Limits(rest), Needed(start, 1, p);
              && (run.reason == Stopped <==> quiet < need)
              && (run.reason == Enough <==> quiet >= need && 1 + need >= p.maxCheckpoints)
              && |run.log| == 1 + (if quiet >= need then need else quiet + if Meets(rest[quiet..]) then 1 else 0)
              && EndsWith(run, rest, quiet, need)
  {
    hide Periods, Needed, Limits, Interruptions, Meets, EndsWith, Reached, ReachedFor, Advanced, Cause0;
    MeetsExact(w, start - w.tick, start);
    if Meets(w.script) {
      var there := Reached(Advanced(w, start - w.tick), start, Cause0(w));
      RestOf(w.script);
      PeriodsExact(there, start, 1, p);
      EndsSame(Periods(there, start, 1, p), AllPeriods(w, start, p), there.script,
               Limits(there.script), Needed(start, 1, p));
    }
  }

  lemma RestOf(script: seq<Event>)
    requires Meets(script)
    ensures Interruptions(script) < |script|
    ensures Tail(script[Interruptions(script)..]) == script[Interruptions(script) + 1..]
  {
  }

  lemma EndsSame(rest: Series, run: Series, script: seq<Event>, quiet: nat, need: nat)
    requires quiet <= |script| && EndsWith(rest, script, quiet, need) && run == rest.(log := run.log)
    ensures EndsWith(run, script, quiet, need)
  {
  }

  // ----- An interrupted period is the last one

  /** `n` undisturbed stretches. */
  function Quiet(n: nat): seq<Event> {
    seq(n, _ => Event(0, LimitReached))
  }

  /** In a period that the benchmark interrupts once, the period's own checkpoint is still taken;
      whatever the system would do next, the series then ends, however many checkpoints are
      missing. */
  lemma {:induction false} InterruptedIsLast(tick: int, quiet: nat, advance: nat, rest: seq<Event>, taken: nat, p: Plan)
    requires advance <= p.period && taken + quiet < p.maxCheckpoints
    requires Due(tick, p.period, quiet + 1) <= p.maxTick
    ensures var w := World(tick, Quiet(quiet) + [Event(advance, BenchmarkCheckpoint), Event(0, LimitReached)] + rest);
            var run := Periods(w, tick, taken, p);
            run.reason == Stopped && |run.log| == quiet + 1
    decreases quiet
  {
    var stop := [Event(advance, BenchmarkCheckpoint), Event(0, LimitReached)];
    var script := Quiet(quiet) + stop + rest;
    NextDue(tick, p.period, quiet);
    assert quiet * p.period >= 0;
    if quiet == 0 {
      Interrupted(tick, advance, script, rest, taken, p);
    } else {
      assert script[1..] == Quiet(quiet - 1) + stop + rest;
      Later(tick, p.period, quiet);
      InterruptedIsLast(tick + p.period, quiet - 1, advance, rest, taken + 1, p);
    }
  }

  lemma Interrupted(tick: int, advance: nat, script: seq<Event>, rest: seq<Event>, taken: nat, p: Plan)
    requires advance <= p.period && taken < p.maxCheckpoints && tick + p.period <= p.maxTick
    requires script == [Event(advance, BenchmarkCheckpoint), Event(0, LimitReached)] + rest
    ensures Periods(World(tick, script), tick, taken, p)
         == Series([tick + p.period], Stopped, LimitReached, World(tick + p.period, rest))
  {
    var w, target := World(tick, script), tick + p.period;
    var after := Advanced(w, p.period);
    assert after == World(tick + advance, [Event(0, LimitReached)] + rest);
    assert after.script[1..] == rest;
    var there := Advanced(after, target - after.tick);
    assert there == World(target, rest);
    assert Reached(after, target, BenchmarkCheckpoint) == Reached(there, target, LimitReached) == there;
    assert ReachedFor(after, target, BenchmarkCheckpoint) == ReachedFor(there, target, LimitReached);
  }

  lemma Later(start: int, period: int, j: nat)
    requires j > 0
    ensures Due(start + period, period, j) == Due(start, period, j + 1)
  {
  }

  lemma DueLater(start: int, period: int, j: nat)
    requires j > 0 && period >= 0
    ensures Due(start + period, period, j - 1) == Due(start, period, j) >= start + period
  {
    assert j * period == period + (j - 1) * period;
    assert (j - 1) * period >= 0;
  }

  /** Without the interruption the same plan takes them all. */
  lemma {:induction false} QuietTakesAll(tick: int, quiet: nat, rest: seq<Event>, taken: nat, p: Plan)
    requires p.period >= 0 && taken + quiet == p.maxCheckpoints && Due(tick, p.period, quiet) <= p.maxTick
    ensures var run := Periods(World(tick, Quiet(quiet) + rest), tick, taken, p);
            run.reason == Enough && |run.log| == quiet
    decreases quiet
  {
    hide Due, Reached, ReachedFor, Limits;
    if quiet > 0 {
      assert (Quiet(quiet) + rest)[1..] == Quiet(quiet - 1) + rest;
      DueLater(tick, p.period, quiet);
      FirstCause(World(tick, Quiet(quiet) + rest), p.period, tick + p.period);
      QuietTakesAll(tick + p.period, quiet - 1, rest, taken + 1, p);
    }
  }
}
