/** The timeline that the O3 pipeline viewer prints for one instruction.
    Time is cut into windows of `width` cycles, one row of cells per window. An
    instruction that lives for less than one window is printed on a single row that
    wraps around. Colours are not modelled. */
module Timeline {
  import opened KeySort
  import opened PipeInst

  datatype Stage = Fetch | Decode | Rename | Dispatch | Issue | Complete | Retire | Store

  datatype Config = Config(cycleTime: int, width: int, storeCompletions: bool)

  predicate ValidConfig(c: Config) {
    c.cycleTime > 0 && c.width > 0
  }

  function Stages(c: Config): seq<Stage> {
    [Fetch, Decode, Rename, Dispatch, Issue, Complete, Retire] + if c.storeCompletions then [Store] else []
  }

  function Tick(inst: Inst, stage: Stage): int {
    match stage
    case Fetch => inst.fetch
    case Decode => inst.decode
    case Rename => inst.rename
    case Dispatch => inst.dispatch
    case Issue => inst.issue
    case Complete => inst.complete
    case Retire => inst.retire
    case Store => inst.store
  }

  function Shorthand(stage: Stage): char {
    match stage
    case Fetch => 'f'
    case Decode => 'd'
    case Rename => 'n'
    case Dispatch => 'p'
    case Issue => 'i'
    case Complete => 'c'
    case Retire => 'r'
    case Store => 's'
  }

  function StageName(stage: Stage): string {
    match stage
    case Fetch => "fetch"
    case Decode => "decode"
    case Rename => "rename"
    case Dispatch => "dispatch"
    case Issue => "issue"
    case Complete => "complete"
    case Retire => "retire"
    case Store => "store"
  }

  /** Python's order of strings. */
  predicate Precedes(a: string, b: string) {
    b != "" && (a == "" || a[0] < b[0] || (a[0] == b[0] && Precedes(a[1..], b[1..])))
  }

  /** The place of the stage's name in alphabetical order. */
  function NameOrder(stage: Stage): int {
    match stage
    case Complete => 0
    case Decode => 1
    case Dispatch => 2
    case Fetch => 3
    case Issue => 4
    case Rename => 5
    case Retire => 6
    case Store => 7
  }

  // ----- Windows

  function TimeWidth(c: Config): (w: int)
    requires ValidConfig(c)
    ensures w > 0
  {
    c.width * c.cycleTime
  }

  function BaseTick(inst: Inst, c: Config): int
    requires ValidConfig(c)
  {
    (inst.fetch / TimeWidth(c)) * TimeWidth(c)
  }

  function Max(a: int, b: int): int {
    if a >= b then a else b
  }

  function LastEvent(inst: Inst, c: Config): int {
    var last := Max(inst.fetch, Max(inst.decode, Max(inst.rename, Max(inst.dispatch,
                Max(inst.issue, Max(inst.complete, inst.retire))))));
    if c.storeCompletions then Max(last, inst.store) else last
  }

  predicate Compact(inst: Inst, c: Config)
    requires ValidConfig(c)
  {
    LastEvent(inst, c) - inst.fetch < TimeWidth(c)
  }

  function NumLines(inst: Inst, c: Config): int
    requires ValidConfig(c)
  {
    if Compact(inst, c) then 1 else (LastEvent(inst, c) - BaseTick(inst, c)) / TimeWidth(c) + 1
  }

  function StartTick(inst: Inst, c: Config, i: int): int
    requires ValidConfig(c)
  {
    BaseTick(inst, c) + i * TimeWidth(c)
  }

  function EndTick(inst: Inst, c: Config, i: int): int
    requires ValidConfig(c)
  {
    StartTick(inst, c, i) + TimeWidth(c) + if NumLines(inst, c) == 1 then inst.fetch - BaseTick(inst, c) else 0
  }

  predicate InWindow(inst: Inst, c: Config, i: int, tick: int)
    requires ValidConfig(c)
  {
    StartTick(inst, c, i) <= tick < EndTick(inst, c, i)
  }

  lemma DivBounds(x: int, q: int)
    requires q > 0
    ensures (x / q) * q <= x < (x / q) * q + q
    ensures x % q == x - (x / q) * q
  {
  }

  lemma QuotientUnique(x: int, q: int, d: int)
    requires q > 0 && d * q <= x < d * q + q
    ensures x / q == d
  {
    DivBounds(x, q);
    var e := x / q;
    assert e + 1 <= d ==> (e + 1) * q <= d * q;
    assert d + 1 <= e ==> (d + 1) * q <= e * q;
  }

  lemma DivMonotone(x: int, y: int, q: int)
    requires 0 <= x <= y && q > 0
    ensures 0 <= x / q <= y / q
  {
    DivBounds(x, q);
    DivBounds(y, q);
    var d, e := x / q, y / q;
    assert d <= -1 ==> d * q <= (-1) * q;
    assert e + 1 <= d ==> (e + 1) * q <= d * q;
  }

  lemma BaseTickBounds(inst: Inst, c: Config)
    requires ValidConfig(c)
    ensures BaseTick(inst, c) <= inst.fetch < BaseTick(inst, c) + TimeWidth(c)
  {
    DivBounds(inst.fetch, TimeWidth(c));
  }

  /** The single row is used exactly for the compact form. */
  lemma OneLineIffCompact(inst: Inst, c: Config)
    requires ValidConfig(c)
    ensures NumLines(inst, c) >= 1
    ensures NumLines(inst, c) == 1 <==> Compact(inst, c)
  {
    BaseTickBounds(inst, c);
    var span, w := LastEvent(inst, c) - BaseTick(inst, c), TimeWidth(c);
    if !Compact(inst, c) {
      DivBounds(span, w);
      var q := span / w;
      assert q <= 0 ==> q * w <= 0;
    }
  }

  /** A tick that is not after the last event lies in some window if and only if it is not
      before the base tick, and then in exactly one. */
  lemma WindowsPartition(inst: Inst, c: Config, tick: int)
    requires ValidConfig(c) && tick <= LastEvent(inst, c)
    ensures (exists i :: 0 <= i < NumLines(inst, c) && InWindow(inst, c, i, tick)) <==> tick >= BaseTick(inst, c)
    ensures forall i, j | 0 <= i < NumLines(inst, c) && 0 <= j < NumLines(inst, c) ::
              InWindow(inst, c, i, tick) && InWindow(inst, c, j, tick) ==> i == j
  {
    OneLineIffCompact(inst, c);
    BaseTickBounds(inst, c);
    var base, w := BaseTick(inst, c), TimeWidth(c);
    forall i | 0 <= i < NumLines(inst, c) && InWindow(inst, c, i, tick)
      ensures tick >= base && (!Compact(inst, c) ==> i == (tick - base) / w)
    {
      assert i * w >= 0;
      if !Compact(inst, c) {
        QuotientUnique(tick - base, w, i);
      }
    }
    if tick >= base {
      if Compact(inst, c) {
        assert InWindow(inst, c, 0, tick);
      } else {
        WindowOf(inst, c, tick);
      }
    }
  }

  lemma WindowOf(inst: Inst, c: Config, tick: int)
    requires ValidConfig(c) && !Compact(inst, c) && BaseTick(inst, c) <= tick <= LastEvent(inst, c)
    ensures var i := (tick - BaseTick(inst, c)) / TimeWidth(c);
            0 <= i < NumLines(inst, c) && InWindow(inst, c, i, tick)
  {
    OneLineIffCompact(inst, c);
    var x, y, w := tick - BaseTick(inst, c), LastEvent(inst, c) - BaseTick(inst, c), TimeWidth(c);
    DivBounds(x, w);
    DivMonotone(x, y, w);
  }

  /** The offset of a tick in its row: from the row's start, or on the wrapped row from the
      end of its first window. */
  lemma OffsetInRow(inst: Inst, c: Config, i: int, tick: int)
    requires ValidConfig(c) && 0 <= i < NumLines(inst, c) && InWindow(inst, c, i, tick)
    ensures var start, w := StartTick(inst, c, i), TimeWidth(c);
            && start == (inst.fetch / w + i) * w
            && tick % w == (if tick < start + w then tick - start else tick - start - w)
            && (tick >= start + w ==> Compact(inst, c) && tick % w < inst.fetch % w)
            && (Compact(inst, c) ==> inst.fetch == start + inst.fetch % w)
  {
    OneLineIffCompact(inst, c);
    BaseTickBounds(inst, c);
    var w, f := TimeWidth(c), inst.fetch / TimeWidth(c);
    DivBounds(inst.fetch, w);
    StartIsMultiple(f, i, w);
    OffsetInWindow(tick, f + i, w);
  }

  lemma StartIsMultiple(f: int, i: int, w: int)
    ensures f * w + i * w == (f + i) * w
  {
  }

  /** The offset of a tick in a window that starts at `d * w`, or in the next one. */
  lemma OffsetInWindow(tick: int, d: int, w: int)
    requires w > 0 && d * w <= tick < d * w + w + w
    ensures 0 <= tick % w < w
    ensures tick % w == if tick < d * w + w then tick - d * w else tick - d * w - w
  {
    DivBounds(tick, w);
    if tick < d * w + w {
      QuotientUnique(tick, w, d);
    } else {
      assert (d + 1) * w == d * w + w;
      QuotientUnique(tick, w, d + 1);
    }
  }

  lemma CellInRow(offset: int, c: Config)
    requires ValidConfig(c) && 0 <= offset < TimeWidth(c)
    ensures 0 <= offset / c.cycleTime < c.width
  {
    DivBounds(offset, c.cycleTime);
    var q := offset / c.cycleTime;
    assert q <= -1 ==> q * c.cycleTime <= (-1) * c.cycleTime;
    assert q >= c.width ==> q * c.cycleTime >= c.width * c.cycleTime;
  }

  // ----- The events of a row

  /** What the viewer sorts: the offset within the window, and the stage with its tick. */
  datatype Event = Event(offset: int, stage: Stage, tick: int)

  function EventOf(inst: Inst, c: Config, stage: Stage): Event
    requires ValidConfig(c)
  {
    Event(Tick(inst, stage) % TimeWidth(c), stage, Tick(inst, stage))
  }

  /** Tuples are compared by offset, then by the stage's name. */
  function SortKey(e: Event): int {
    8 * e.offset + NameOrder(e.stage)
  }

  lemma {:induction false} NotBeforeItself(a: string)
    ensures !Precedes(a, a)
  {
    if a != "" {
      NotBeforeItself(a[1..]);
    }
  }

  lemma CloseNames()
    ensures Precedes("decode", "dispatch") && !Precedes("dispatch", "decode")
    ensures Precedes("rename", "retire") && !Precedes("retire", "rename")
  {
    assert "decode"[1..] == "ecode" && "dispatch"[1..] == "ispatch";
    assert "rename"[1..] == "ename" && "retire"[1..] == "etire";
    assert "ename"[1..] == "name" && "etire"[1..] == "tire";
    assert Precedes("name", "tire") && !Precedes("tire", "name");
    assert Precedes("ename", "etire") && !Precedes("etire", "ename");
  }

  /** Events sort like Python's tuples: by offset, then by the name of the stage. */
  lemma KeyIsTupleOrder(e: Event, f: Event)
    ensures SortKey(e) < SortKey(f)
       <==> e.offset < f.offset || (e.offset == f.offset && Precedes(StageName(e.stage), StageName(f.stage)))
  {
    CloseNames();
    NotBeforeItself(StageName(e.stage));
  }

  predicate Reached(inst: Inst, c: Config, i: int, stage: Stage)
    requires ValidConfig(c)
  {
    Tick(inst, stage) != 0 && InWindow(inst, c, i, Tick(inst, stage))
  }

  /** A dispatch in the same tick as the issue is not printed. */
  predicate Hidden(inst: Inst, stage: Stage) {
    stage == Dispatch && inst.dispatch == inst.issue
  }

  function EventsAmong(inst: Inst, c: Config, i: int, stages: seq<Stage>): seq<Event>
    requires ValidConfig(c)
  {
    if stages == [] then []
    else
      var rest, last := EventsAmong(inst, c, i, stages[..|stages| - 1]), stages[|stages| - 1];
      if Reached(inst, c, i, last) then rest + [EventOf(inst, c, last)] else rest
  }

  function Events(inst: Inst, c: Config, i: int): seq<Event>
    requires ValidConfig(c)
  {
    SortBy(EventsAmong(inst, c, i, Stages(c)), SortKey)
  }

  function PrintedEvents(inst: Inst, c: Config, i: int): seq<Event>
    requires ValidConfig(c)
  {
    Select(Events(inst, c, i), (e: Event) => !Hidden(inst, e.stage))
  }

  lemma {:induction false} EventsAmongMembers(inst: Inst, c: Config, i: int, stages: seq<Stage>)
    requires ValidConfig(c)
    ensures forall e :: e in EventsAmong(inst, c, i, stages)
              <==> e.stage in stages && Reached(inst, c, i, e.stage) && e == EventOf(inst, c, e.stage)
  {
    if stages != [] {
      EventsAmongMembers(inst, c, i, stages[..|stages| - 1]);
      assert stages == stages[..|stages| - 1] + [stages[|stages| - 1]];
    }
  }

  /** A row holds exactly the stages reached in its window, without a hidden dispatch. */
  lemma PrintedMembers(inst: Inst, c: Config, i: int)
    requires ValidConfig(c)
    ensures forall e :: e in PrintedEvents(inst, c, i)
              <==> e.stage in Stages(c) && Reached(inst, c, i, e.stage) && e == EventOf(inst, c, e.stage)
                   && !Hidden(inst, e.stage)
  {
    EventsAmongMembers(inst, c, i, Stages(c));
    SelectSortMembers(EventsAmong(inst, c, i, Stages(c)), (e: Event) => !Hidden(inst, e.stage), SortKey);
  }

  lemma {:induction false} EventsOnce(inst: Inst, c: Config, i: int, stages: seq<Stage>)
    requires ValidConfig(c) && forall j, k :: 0 <= j < k < |stages| ==> stages[j] != stages[k]
    ensures forall e :: multiset(EventsAmong(inst, c, i, stages))[e] <= 1
  {
    hide EventOf, Reached;
    if stages != [] {
      var rest, last := stages[..|stages| - 1], stages[|stages| - 1];
      EventsOnce(inst, c, i, rest);
      NoEventOf(inst, c, i, rest, last);
    }
  }

  lemma NoEventOf(inst: Inst, c: Config, i: int, stages: seq<Stage>, stage: Stage)
    requires ValidConfig(c) && stage !in stages
    ensures EventOf(inst, c, stage) !in EventsAmong(inst, c, i, stages)
  {
    EventsAmongMembers(inst, c, i, stages);
  }

  lemma StagesDiffer(c: Config)
    ensures forall j, k :: 0 <= j < k < |Stages(c)| ==> Stages(c)[j] != Stages(c)[k]
  {
  }

  /** No row holds an event twice. */
  lemma PrintedOnce(inst: Inst, c: Config, i: int)
    requires ValidConfig(c)
    ensures forall e :: multiset(PrintedEvents(inst, c, i))[e] <= 1
  {
    hide EventsAmong, Select, Stages;
    var all := EventsAmong(inst, c, i, Stages(c));
    StagesDiffer(c);
    EventsOnce(inst, c, i, Stages(c));
    SortByOrders(all, SortKey);
    SelectRemoves(Events(inst, c, i), (e: Event) => !Hidden(inst, e.stage));
  }

  lemma PrintedOrdered(inst: Inst, c: Config, i: int)
    requires ValidConfig(c)
    ensures Ordered(PrintedEvents(inst, c, i), SortKey)
  {
    SortByOrders(EventsAmong(inst, c, i, Stages(c)), SortKey);
    SelectOrdered(Events(inst, c, i), (e: Event) => !Hidden(inst, e.stage), SortKey);
  }

  lemma TickAtMostLast(inst: Inst, c: Config, stage: Stage)
    requires stage in Stages(c)
    ensures Tick(inst, stage) <= LastEvent(inst, c)
  {
  }

  /** The last event is the tick of some stage, and the last row is the one that holds it, so
      no row is added behind the last event. */
  lemma LastRowHoldsLastEvent(inst: Inst, c: Config)
    requires ValidConfig(c)
    ensures exists stage :: stage in Stages(c) && Tick(inst, stage) == LastEvent(inst, c)
    ensures InWindow(inst, c, NumLines(inst, c) - 1, LastEvent(inst, c))
  {
    var s := Stages(c);
    assert s[0] == Fetch && s[1] == Decode && s[2] == Rename && s[3] == Dispatch && s[4] == Issue;
    assert s[5] == Complete && s[6] == Retire && (c.storeCompletions ==> s[7] == Store);
    LastEventIsTick(inst, c);
    BaseTickBounds(inst, c);
    if !Compact(inst, c) {
      WindowOf(inst, c, LastEvent(inst, c));
    }
  }

  lemma LastEventIsTick(inst: Inst, c: Config)
    ensures inst.fetch <= LastEvent(inst, c)
    ensures LastEvent(inst, c) in {Tick(inst, Fetch), Tick(inst, Decode), Tick(inst, Rename), Tick(inst, Dispatch),
                                   Tick(inst, Issue), Tick(inst, Complete), Tick(inst, Retire)}
         || (c.storeCompletions && LastEvent(inst, c) == Tick(inst, Store))
  {
  }

  ghost predicate ShownIn(inst: Inst, c: Config, i: int, stage: Stage)
    requires ValidConfig(c)
  {
    EventOf(inst, c, stage) in PrintedEvents(inst, c, i)
  }

  /** Over all rows, every stage that the instruction reached is printed exactly once,
      except a hidden dispatch and a tick before the base tick, which are never printed. */
  lemma EveryStageOnce(inst: Inst, c: Config, stage: Stage)
    requires ValidConfig(c) && stage in Stages(c) && Tick(inst, stage) != 0
    ensures (exists i :: 0 <= i < NumLines(inst, c) && ShownIn(inst, c, i, stage))
              <==> Tick(inst, stage) >= BaseTick(inst, c) && !Hidden(inst, stage)
    ensures forall i, j | 0 <= i < NumLines(inst, c) && 0 <= j < NumLines(inst, c) ::
              ShownIn(inst, c, i, stage) && ShownIn(inst, c, j, stage) ==> i == j
    ensures forall i :: ShownIn(inst, c, i, stage) ==> multiset(PrintedEvents(inst, c, i))[EventOf(inst, c, stage)] == 1
  {
    forall i | ShownIn(inst, c, i, stage)
      ensures multiset(PrintedEvents(inst, c, i))[EventOf(inst, c, stage)] == 1
    {
      PrintedOnce(inst, c, i);
    }
    var tick := Tick(inst, stage);
    TickAtMostLast(inst, c, stage);
    WindowsPartition(inst, c, tick);
    forall i | 0 <= i < NumLines(inst, c)
      ensures ShownIn(inst, c, i, stage) <==> InWindow(inst, c, i, tick) && !Hidden(inst, stage)
    {
      PrintedMembers(inst, c, i);
    }
  }

  /** The compact form indexes its first event; the list is empty exactly when every tick
      is zero or before the base tick, which a nonzero fetch tick rules out. */
  lemma CompactRowHasEvents(inst: Inst, c: Config)
    requires ValidConfig(c) && Compact(inst, c)
    ensures Events(inst, c, 0) == []
        <==> forall stage :: stage in Stages(c) ==> Tick(inst, stage) == 0 || Tick(inst, stage) < BaseTick(inst, c)
    ensures inst.fetch != 0 ==> Events(inst, c, 0) != []
  {
    OneLineIffCompact(inst, c);
    BaseTickBounds(inst, c);
    var all := EventsAmong(inst, c, 0, Stages(c));
    EventsAmongMembers(inst, c, 0, Stages(c));
    forall stage | stage in Stages(c)
      ensures Tick(inst, stage) != 0 && Tick(inst, stage) >= BaseTick(inst, c) ==> EventOf(inst, c, stage) in all
      ensures Reached(inst, c, 0, stage) ==> Tick(inst, stage) >= BaseTick(inst, c)
    {
      TickAtMostLast(inst, c, stage);
    }
    assert all != [] ==> all[0] in all;
    assert Fetch in Stages(c) by { assert Stages(c)[0] == Fetch; }
  }

  // ----- The cells of a row

  function Cycle(e: Event, c: Config): int
    requires ValidConfig(c)
  {
    e.offset / c.cycleTime
  }

  /** The number of events among the first `n` that share the cycle of the one before. */
  function Crowded(es: seq<Event>, c: Config, n: nat): nat
    requires ValidConfig(c) && n <= |es|
  {
    if n <= 1 then 0
    else Crowded(es, c, n - 1) + if Cycle(es[n - 1], c) == Cycle(es[n - 2], c) then 1 else 0
  }

  /** The cell of the `j`-th event: its cycle, pushed right by the crowding so far. */
  function CellOf(es: seq<Event>, c: Config, j: nat): int
    requires ValidConfig(c) && j < |es|
  {
    Cycle(es[j], c) + Crowded(es, c, j + 1)
  }

  /** Every event of `es` has its letter in its cell and every other cell is a dot. */
  ghost predicate Letters(cells: string, es: seq<Event>, c: Config, dot: char)
    requires ValidConfig(c)
  {
    && (forall j :: 0 <= j < |es| ==>
          0 <= CellOf(es, c, j) < |cells| && cells[CellOf(es, c, j)] == Shorthand(es[j].stage))
    && (forall x :: 0 <= x < |cells| && cells[x] != dot ==> exists j :: 0 <= j < |es| && CellOf(es, c, j) == x)
  }

  /** A finished row: one cell per cycle, plus one per crowded event. */
  ghost predicate Shows(cells: string, es: seq<Event>, c: Config, dot: char)
    requires ValidConfig(c)
  {
    |cells| == c.width + Crowded(es, c, |es|) && Letters(cells, es, c, dot)
  }

  /** Events sorted by cycle, each within the row. */
  ghost predicate Placed(es: seq<Event>, c: Config)
    requires ValidConfig(c)
  {
    && (forall j :: 0 <= j < |es| ==> 0 <= Cycle(es[j], c) < c.width)
    && (forall j :: 0 < j < |es| ==> Cycle(es[j - 1], c) <= Cycle(es[j], c))
  }

  function Repeat(ch: char, n: int): string {
    seq(if n > 0 then n else 0, _ => ch)
  }

  lemma {:induction false} CrowdedPrefix(es: seq<Event>, fs: seq<Event>, c: Config, n: nat)
    requires ValidConfig(c) && n <= |es|
    ensures Crowded(es + fs, c, n) == Crowded(es, c, n)
  {
    if n > 1 {
      CrowdedPrefix(es, fs, c, n - 1);
    }
  }

  /** Writing one more event after dots keeps the row so far intact. */
  lemma LettersSnoc(cells: string, es: seq<Event>, e: Event, c: Config, dot: char, dots: string)
    requires ValidConfig(c) && Letters(cells, es, c, dot)
    requires forall x :: 0 <= x < |dots| ==> dots[x] == dot
    requires |cells| + |dots| == Cycle(e, c) + Crowded(es + [e], c, |es| + 1)
    ensures Letters(cells + dots + [Shorthand(e.stage)], es + [e], c, dot)
  {
    hide CellOf, Crowded, Cycle, Shorthand;
    var es', cells' := es + [e], cells + dots + [Shorthand(e.stage)];
    CellsSnoc(es, e, c);
    forall j | 0 <= j < |es'|
      ensures 0 <= CellOf(es', c, j) < |cells'| && cells'[CellOf(es', c, j)] == Shorthand(es'[j].stage)
    {
      assert j < |es| ==> cells'[CellOf(es, c, j)] == cells[CellOf(es, c, j)];
    }
    OtherCells(cells, es, e, c, dot, dots);
  }

  lemma CellsSnoc(es: seq<Event>, e: Event, c: Config)
    requires ValidConfig(c)
    ensures forall j :: 0 <= j < |es| ==> CellOf(es + [e], c, j) == CellOf(es, c, j)
    ensures CellOf(es + [e], c, |es|) == Cycle(e, c) + Crowded(es + [e], c, |es| + 1)
  {
    forall j | 0 <= j < |es| ensures CellOf(es + [e], c, j) == CellOf(es, c, j) {
      CrowdedPrefix(es, [e], c, j + 1);
    }
  }

  lemma OtherCells(cells: string, es: seq<Event>, e: Event, c: Config, dot: char, dots: string)
    requires ValidConfig(c) && Letters(cells, es, c, dot)
    requires forall x :: 0 <= x < |dots| ==> dots[x] == dot
    requires |cells| + |dots| == Cycle(e, c) + Crowded(es + [e], c, |es| + 1)
    ensures var cells' := cells + dots + [Shorthand(e.stage)];
            forall x :: 0 <= x < |cells'| && cells'[x] != dot
              ==> exists j :: 0 <= j <= |es| && CellOf(es + [e], c, j) == x
  {
    hide CellOf, Crowded, Cycle, Shorthand;
    var cells' := cells + dots + [Shorthand(e.stage)];
    CellsSnoc(es, e, c);
    assert CellOf(es + [e], c, |es|) == |cells| + |dots|;
    forall x | 0 <= x < |cells'| && cells'[x] != dot
      ensures exists j :: 0 <= j <= |es| && CellOf(es + [e], c, j) == x
    {
      if x < |cells| {
        assert cells[x] == cells'[x];
        var j :| 0 <= j < |es| && CellOf(es, c, j) == x;
        assert CellOf(es + [e], c, j) == x;
      }
    }
  }

  lemma LettersDots(cells: string, es: seq<Event>, c: Config, dot: char, dots: string)
    requires ValidConfig(c) && Letters(cells, es, c, dot)
    requires forall x :: 0 <= x < |dots| ==> dots[x] == dot
    ensures Letters(cells + dots, es, c, dot)
  {
  }

  /** Where the viewer stands after the events `es`: one past the last event's cycle. */
  function Pos(es: seq<Event>, c: Config): int
    requires ValidConfig(c)
  {
    if es == [] then 0 else Cycle(es[|es| - 1], c) + 1
  }

  lemma PosSnoc(es: seq<Event>, e: Event, c: Config, filled: int)
    requires ValidConfig(c) && Placed(es + [e], c)
    requires filled == Pos(es, c) + Crowded(es, c, |es|)
    ensures filled + |Repeat('.', Cycle(e, c) - Pos(es, c))| == Cycle(e, c) + Crowded(es + [e], c, |es| + 1)
    ensures Pos(es + [e], c) == Cycle(e, c) + 1
  {
    CrowdedPrefix(es, [e], c, |es|);
    var all := es + [e];
    if es != [] {
      assert all[|es| - 1] == es[|es| - 1];
      assert Cycle(all[|es| - 1], c) <= Cycle(all[|es|], c);
    }
  }

  /** One step of a row: the invariant of the loop that writes it. */
  ghost predicate RowSoFar(cells: string, es: seq<Event>, c: Config, dot: char)
    requires ValidConfig(c)
  {
    |cells| == Pos(es, c) + Crowded(es, c, |es|) && Letters(cells, es, c, dot)
  }

  lemma RowStep(cells: string, es: seq<Event>, e: Event, c: Config, dot: char)
    requires ValidConfig(c) && RowSoFar(cells, es, c, dot) && Placed(es + [e], c)
    ensures RowSoFar(cells + Repeat(dot, Cycle(e, c) - Pos(es, c)) + [Shorthand(e.stage)], es + [e], c, dot)
  {
    hide Letters, Crowded, Cycle, Placed, Pos, Shorthand;
    PosSnoc(es, e, c, |cells|);
    LettersSnoc(cells, es, e, c, dot, Repeat(dot, Cycle(e, c) - Pos(es, c)));
  }

  lemma RowStart(c: Config, dot: char)
    requires ValidConfig(c)
    ensures RowSoFar([], [], c, dot)
  {
  }

  lemma RowEnd(cells: string, es: seq<Event>, c: Config, dot: char)
    requires ValidConfig(c) && RowSoFar(cells, es, c, dot) && Placed(es, c)
    ensures Shows(cells + Repeat(dot, c.width - Pos(es, c)), es, c, dot)
  {
    LettersDots(cells, es, c, dot, Repeat(dot, c.width - Pos(es, c)));
  }

  /** Prints the sorted events of one row, skipping a hidden dispatch. */
  method RenderRow(inst: Inst, events: seq<Event>, c: Config, dot: char) returns (cells: string)
    requires ValidConfig(c)
    requires Placed(Select(events, (e: Event) => !Hidden(inst, e.stage)), c)
    ensures Shows(cells, Select(events, (e: Event) => !Hidden(inst, e.stage)), c, dot)
  {
    hide Letters, Crowded, Select, Placed, Shorthand, Shows, RowSoFar;
    cells := [];
    var pos := 0;
    RowStart(c, dot);
    ghost var shown: seq<Event> := [];
    ghost var keep := (e: Event) => !Hidden(inst, e.stage);
    SelectNothing(keep);
    for n := 0 to |events|
      invariant shown == Select(events[..n], keep)
      invariant pos == Pos(shown, c) && RowSoFar(cells, shown, c, dot)
    {
      var event := events[n];
      SelectPrefix(events, n, keep);
      if event.stage == Dispatch && inst.dispatch == inst.issue {
        continue;
      }
      PlacedPrefix(shown + [event], Select(events, keep), c);
      RowStep(cells, shown, event, c, dot);
      cells := cells + Repeat(dot, event.offset / c.cycleTime - pos) + [Shorthand(event.stage)];
      pos := event.offset / c.cycleTime + 1;
      shown := shown + [event];
    }
    assert events[..|events|] == events;
    RowEnd(cells, shown, c, dot);
    cells := cells + Repeat(dot, c.width - pos);
  }

  lemma SelectNothing(keep: Event -> bool)
    ensures Select([], keep) == []
  {
  }

  lemma SelectPrefix(events: seq<Event>, n: nat, keep: Event -> bool)
    requires n < |events|
    ensures Select(events[..n + 1], keep)
         == if keep(events[n]) then Select(events[..n], keep) + [events[n]] else Select(events[..n], keep)
    ensures Select(events[..n + 1], keep) <= Select(events, keep)
  {
    CutAfter(events, n);
    SelectSnoc(events[..n], events[n], keep);
    SelectConcat(events[..n + 1], events[n + 1..], keep);
  }

  lemma CutAfter(events: seq<Event>, n: nat)
    requires n < |events|
    ensures events[..n + 1] == events[..n] + [events[n]]
    ensures events == events[..n + 1] + events[n + 1..]
  {
  }

  lemma PlacedPrefix(es: seq<Event>, all: seq<Event>, c: Config)
    requires ValidConfig(c) && es <= all && Placed(all, c)
    ensures Placed(es, c)
  {
    forall j | 0 < j < |es| ensures Cycle(es[j - 1], c) <= Cycle(es[j], c) {
      assert es[j - 1] == all[j - 1] && es[j] == all[j];
    }
  }

  lemma PrintedPlaced(inst: Inst, c: Config, i: int)
    requires ValidConfig(c)
    ensures Placed(PrintedEvents(inst, c, i), c)
  {
    var es := PrintedEvents(inst, c, i);
    PrintedMembers(inst, c, i);
    PrintedOrdered(inst, c, i);
    forall j | 0 <= j < |es| ensures 0 <= es[j].offset < TimeWidth(c) && 0 <= Cycle(es[j], c) < c.width {
      assert es[j] in es;
      CellInRow(es[j].offset, c);
    }
    forall j | 0 < j < |es| ensures Cycle(es[j - 1], c) <= Cycle(es[j], c) {
      assert SortKey(es[j - 1]) <= SortKey(es[j]);
      DivMonotone(es[j - 1].offset, es[j].offset, c.cycleTime);
    }
  }

  // ----- Reading a row back

  /** No two of the first `n` events share a cycle. */
  ghost predicate OneEach(es: seq<Event>, c: Config, n: nat)
    requires ValidConfig(c) && n <= |es|
  {
    forall k, m :: 0 <= k < m < n ==> Cycle(es[k], c) != Cycle(es[m], c)
  }

  lemma {:induction false} PlacedOrder(es: seq<Event>, c: Config, k: nat, m: nat)
    requires ValidConfig(c) && Placed(es, c) && k <= m < |es|
    ensures Cycle(es[k], c) <= Cycle(es[m], c)
    decreases m
  {
    if k < m {
      PlacedOrder(es, c, k, m - 1);
    }
  }

  lemma {:induction false} NoCrowdIffOneEach(es: seq<Event>, c: Config, n: nat)
    requires ValidConfig(c) && Placed(es, c) && n <= |es|
    ensures Crowded(es, c, n) == 0 <==> OneEach(es, c, n)
  {
    hide Cycle, Placed;
    if n > 1 {
      NoCrowdIffOneEach(es, c, n - 1);
      if Cycle(es[n - 1], c) != Cycle(es[n - 2], c) {
        forall k | 0 <= k < n - 1 ensures Cycle(es[k], c) != Cycle(es[n - 1], c) {
          PlacedOrder(es, c, k, n - 2);
          PlacedOrder(es, c, n - 2, n - 1);
        }
      }
    }
  }

  /** The exact condition for a letter to stand at its cycle: no two letters of the row up to
      it share one. */
  lemma CellIsCycleIff(inst: Inst, c: Config, i: int, j: nat)
    requires ValidConfig(c) && j < |PrintedEvents(inst, c, i)|
    ensures var es := PrintedEvents(inst, c, i);
            CellOf(es, c, j) == Cycle(es[j], c) <==> OneEach(es, c, j + 1)
  {
    PrintedPlaced(inst, c, i);
    NoCrowdIffOneEach(PrintedEvents(inst, c, i), c, j + 1);
  }

  lemma CycleOfOffset(d: int, offset: int, c: Config)
    requires ValidConfig(c)
    ensures (d * TimeWidth(c) + offset) / c.cycleTime == d * c.width + offset / c.cycleTime
  {
    var q, t := offset / c.cycleTime, c.cycleTime;
    DivBounds(offset, t);
    assert d * TimeWidth(c) == (d * c.width) * t;
    assert (d * c.width + q) * t == (d * c.width) * t + q * t;
    QuotientUnique(d * TimeWidth(c) + offset, t, d * c.width + q);
  }

  /** The cycle that a reader takes from a cell of row `i`: counted from the row's start tick,
      and on the wrapped row one width later for a cell before the one of the fetch. */
  function CycleRead(inst: Inst, c: Config, i: int, cell: int): int
    requires ValidConfig(c)
  {
    StartTick(inst, c, i) / c.cycleTime + cell
    + if Compact(inst, c) && cell < inst.fetch % TimeWidth(c) / c.cycleTime then c.width else 0
  }

  lemma OffsetGivesCycle(inst: Inst, c: Config, i: int, tick: int)
    requires ValidConfig(c) && 0 <= i < NumLines(inst, c) && InWindow(inst, c, i, tick)
    requires var w := TimeWidth(c);
             Compact(inst, c) ==> tick % w / c.cycleTime == inst.fetch % w / c.cycleTime ==> tick % w >= inst.fetch % w
    ensures CycleRead(inst, c, i, tick % TimeWidth(c) / c.cycleTime) == tick / c.cycleTime
       <==> (Compact(inst, c) ==> tick >= inst.fetch)
  {
    var w, start := TimeWidth(c), StartTick(inst, c, i);
    var d, offset := inst.fetch / w + i, tick % w;
    OffsetInRow(inst, c, i, tick);
    CycleOfOffset(d, 0, c);
    CycleOfOffset(d, offset, c);
    CycleOfOffset(d + 1, offset, c);
    assert (d + 1) * w == start + w && (d + 1) * c.width == d * c.width + c.width;
    OffsetsOrder(offset, inst.fetch % w, c.cycleTime);
  }

  lemma OffsetsOrder(x: int, y: int, t: int)
    requires t > 0 && x >= 0 && y >= 0
    ensures x / t < y / t ==> x < y
    ensures x < y ==> x / t <= y / t
  {
    if x < y {
      DivMonotone(x, y, t);
    } else {
      DivMonotone(y, x, t);
    }
  }

  /** Reading back a row in which no two letters share a cycle: the cell of a letter gives its
      cycle, on the wrapped row exactly for the stages that do not come before the fetch. */
  lemma CellGivesCycle(inst: Inst, c: Config, i: int, j: nat)
    requires ValidConfig(c) && 0 <= i < NumLines(inst, c) && j < |PrintedEvents(inst, c, i)|
    requires OneEach(PrintedEvents(inst, c, i), c, |PrintedEvents(inst, c, i)|)
    ensures var es := PrintedEvents(inst, c, i);
            && (CycleRead(inst, c, i, CellOf(es, c, j)) == es[j].tick / c.cycleTime
                <==> (Compact(inst, c) ==> es[j].tick >= inst.fetch))
  {
    hide CycleRead;
    CellIsCycleIff(inst, c, i, j);
    FetchAhead(inst, c, i, j);
    OffsetGivesCycle(inst, c, i, PrintedEvents(inst, c, i)[j].tick);
  }

  /** In such a row nothing shares the cycle of the fetch but the fetch itself. */
  lemma FetchAhead(inst: Inst, c: Config, i: int, j: nat)
    requires ValidConfig(c) && 0 <= i < NumLines(inst, c) && j < |PrintedEvents(inst, c, i)|
    requires OneEach(PrintedEvents(inst, c, i), c, |PrintedEvents(inst, c, i)|)
    ensures var w, e := TimeWidth(c), PrintedEvents(inst, c, i)[j];
            && InWindow(inst, c, i, e.tick) && e.offset == e.tick % w
            && (Compact(inst, c) ==>
                e.tick % w / c.cycleTime == inst.fetch % w / c.cycleTime ==> e.tick % w >= inst.fetch % w)
  {
    hide Select, Events;
    var es, w := PrintedEvents(inst, c, i), TimeWidth(c);
    PrintedMembers(inst, c, i);
    assert es[j] in es;
    if Compact(inst, c) && inst.fetch != 0 {
      BaseTickBounds(inst, c);
      assert Fetch in Stages(c) by { assert Stages(c)[0] == Fetch; }
      assert i == 0 && InWindow(inst, c, i, inst.fetch);
      assert EventOf(inst, c, Fetch) in es;
      var f :| 0 <= f < |es| && es[f] == EventOf(inst, c, Fetch);
      assert Cycle(es[f], c) == inst.fetch % w / c.cycleTime;
    }
  }

  /** The letter is in the row exactly when `shown`. */
  ghost predicate LetterIff(cells: string, letter: char, shown: bool) {
    (exists x :: 0 <= x < |cells| && cells[x] == letter) <==> shown
  }

  /** Wherever the letter stands, its cell gives the cycle of `tick`, on the wrapped row exactly
      when `tick` is not before the fetch. */
  ghost predicate LetterTells(inst: Inst, c: Config, i: int, cells: string, letter: char, tick: int)
    requires ValidConfig(c)
  {
    forall x :: 0 <= x < |cells| && cells[x] == letter ==>
      (CycleRead(inst, c, i, x) == tick / c.cycleTime <==> (Compact(inst, c) ==> tick >= inst.fetch))
  }

  /** A nonzero tick within the window of row `i`. */
  predicate Seen(inst: Inst, c: Config, i: int, tick: int)
    requires ValidConfig(c)
  {
    tick != 0 && InWindow(inst, c, i, tick)
  }

  /** The event behind a letter. */
  lemma LetterAt(inst: Inst, c: Config, i: int, cells: string, stage: Stage, x: int) returns (j: nat)
    requires ValidConfig(c) && Shows(cells, PrintedEvents(inst, c, i), c, Dot(inst))
    requires 0 <= x < |cells| && cells[x] == Shorthand(stage)
    ensures j < |PrintedEvents(inst, c, i)| && PrintedEvents(inst, c, i)[j] == EventOf(inst, c, stage)
    ensures CellOf(PrintedEvents(inst, c, i), c, j) == x
  {
    hide Crowded, CellOf, PrintedEvents;
    var es := PrintedEvents(inst, c, i);
    assert Shorthand(stage) != Dot(inst);
    j :| 0 <= j < |es| && CellOf(es, c, j) == x;
    assert Shorthand(es[j].stage) == Shorthand(stage);
    PrintedMembers(inst, c, i);
    assert es[j] in es;
  }

  lemma StageShownIff(inst: Inst, c: Config, i: int, cells: string, stage: Stage)
    requires ValidConfig(c) && Shows(cells, PrintedEvents(inst, c, i), c, Dot(inst))
    ensures LetterIff(cells, Shorthand(stage),
                      stage in Stages(c) && Seen(inst, c, i, Tick(inst, stage)) && !Hidden(inst, stage))
  {
    hide Crowded, CellOf, PrintedEvents, Stages, Shorthand;
    var es := PrintedEvents(inst, c, i);
    PrintedMembers(inst, c, i);
    if x :| 0 <= x < |cells| && cells[x] == Shorthand(stage) {
      var j := LetterAt(inst, c, i, cells, stage, x);
      assert es[j] in es;
    }
    if stage in Stages(c) && Seen(inst, c, i, Tick(inst, stage)) && !Hidden(inst, stage) {
      assert EventOf(inst, c, stage) in es;
      var j :| 0 <= j < |es| && es[j] == EventOf(inst, c, stage);
      assert cells[CellOf(es, c, j)] == Shorthand(stage);
    }
  }

  lemma StageTells(inst: Inst, c: Config, i: int, cells: string, stage: Stage)
    requires ValidConfig(c) && 0 <= i < NumLines(inst, c) && Shows(cells, PrintedEvents(inst, c, i), c, Dot(inst))
    requires OneEach(PrintedEvents(inst, c, i), c, |PrintedEvents(inst, c, i)|)
    ensures LetterTells(inst, c, i, cells, Shorthand(stage), Tick(inst, stage))
  {
    hide Shows, OneEach, PrintedEvents, CycleRead, CellOf, Shorthand;
    forall x | 0 <= x < |cells| && cells[x] == Shorthand(stage)
      ensures CycleRead(inst, c, i, x) == Tick(inst, stage) / c.cycleTime
         <==> (Compact(inst, c) ==> Tick(inst, stage) >= inst.fetch)
    {
      var j := LetterAt(inst, c, i, cells, stage, x);
      CellGivesCycle(inst, c, i, j);
    }
  }

  lemma WhichStages(c: Config)
    ensures Fetch in Stages(c) && Decode in Stages(c) && Rename in Stages(c) && Dispatch in Stages(c)
    ensures Issue in Stages(c) && Complete in Stages(c) && Retire in Stages(c)
    ensures Store in Stages(c) <==> c.storeCompletions
  {
    var s := Stages(c);
    assert s[0] == Fetch && s[1] == Decode && s[2] == Rename && s[3] == Dispatch && s[4] == Issue;
    assert s[5] == Complete && s[6] == Retire && (c.storeCompletions ==> s[7] == Store);
  }

  /** Which letters a row shows, field by field. */
  lemma RowShowsLetters(inst: Inst, c: Config, i: int, cells: string)
    requires ValidConfig(c) && Shows(cells, PrintedEvents(inst, c, i), c, if inst.retire == 0 then '=' else '.')
    ensures LetterIff(cells, 'f', Seen(inst, c, i, inst.fetch))
    ensures LetterIff(cells, 'd', Seen(inst, c, i, inst.decode))
    ensures LetterIff(cells, 'n', Seen(inst, c, i, inst.rename))
    ensures LetterIff(cells, 'p', Seen(inst, c, i, inst.dispatch) && inst.dispatch != inst.issue)
    ensures LetterIff(cells, 'i', Seen(inst, c, i, inst.issue))
    ensures LetterIff(cells, 'c', Seen(inst, c, i, inst.complete))
    ensures LetterIff(cells, 'r', Seen(inst, c, i, inst.retire))
    ensures LetterIff(cells, 's', c.storeCompletions && Seen(inst, c, i, inst.store))
  {
    hide LetterIff, Shows, PrintedEvents, Seen, Stages;
    WhichStages(c);
    StageShownIff(inst, c, i, cells, Fetch);
    StageShownIff(inst, c, i, cells, Decode);
    StageShownIff(inst, c, i, cells, Rename);
    StageShownIff(inst, c, i, cells, Dispatch);
    StageShownIff(inst, c, i, cells, Issue);
    StageShownIff(inst, c, i, cells, Complete);
    StageShownIff(inst, c, i, cells, Retire);
    StageShownIff(inst, c, i, cells, Store);
  }

  /** What an uncrowded row tells, field by field. */
  lemma RowTellsCycles(inst: Inst, c: Config, i: int, cells: string)
    requires ValidConfig(c) && 0 <= i < NumLines(inst, c)
    requires Shows(cells, PrintedEvents(inst, c, i), c, if inst.retire == 0 then '=' else '.')
    requires OneEach(PrintedEvents(inst, c, i), c, |PrintedEvents(inst, c, i)|)
    ensures LetterTells(inst, c, i, cells, 'f', inst.fetch) && LetterTells(inst, c, i, cells, 'd', inst.decode)
    ensures LetterTells(inst, c, i, cells, 'n', inst.rename) && LetterTells(inst, c, i, cells, 'p', inst.dispatch)
    ensures LetterTells(inst, c, i, cells, 'i', inst.issue) && LetterTells(inst, c, i, cells, 'c', inst.complete)
    ensures LetterTells(inst, c, i, cells, 'r', inst.retire) && LetterTells(inst, c, i, cells, 's', inst.store)
  {
    hide LetterTells, Shows, PrintedEvents, OneEach;
    StageTells(inst, c, i, cells, Fetch);
    StageTells(inst, c, i, cells, Decode);
    StageTells(inst, c, i, cells, Rename);
    StageTells(inst, c, i, cells, Dispatch);
    StageTells(inst, c, i, cells, Issue);
    StageTells(inst, c, i, cells, Complete);
    StageTells(inst, c, i, cells, Retire);
    StageTells(inst, c, i, cells, Store);
  }

  /** The events and the dot determine the row. */
  lemma RowUnique(cells: string, others: string, es: seq<Event>, c: Config, dot: char)
    requires ValidConfig(c) && Shows(cells, es, c, dot) && Shows(others, es, c, dot)
    ensures cells == others
  {
    hide CellOf, Crowded;
    forall x | 0 <= x < |cells| ensures cells[x] == others[x] {
      if cells[x] != dot {
        var j :| 0 <= j < |es| && CellOf(es, c, j) == x;
      }
    }
  }

  /** An instruction decoded at tick 5 and retired at tick 6. */
  function Renamed(at: int): Inst {
    Inst(0, "", 1, 5, at, 0, 0, 0, 6, 0)
  }

  /** A row in which letters share a cycle cannot be read back: renamed at tick 5 or at tick 6,
      the instruction is printed as the same row. */
  lemma CrowdedRowIsAmbiguous()
    ensures var c := Config(1, 10, false);
            && NumLines(Renamed(5), c) == NumLines(Renamed(6), c) == 1
            && StartTick(Renamed(5), c, 0) == StartTick(Renamed(6), c, 0)
            && Shows(".f...dnr...", PrintedEvents(Renamed(5), c, 0), c, '.')
            && Shows(".f...dnr...", PrintedEvents(Renamed(6), c, 0), c, '.')
  {
    hide *;
    RenamedEvents(5);
    RenamedEvents(6);
    RenamedRow(5);
    RenamedRow(6);
  }

  function RenamedAt(at: int): seq<Event> {
    [Event(1, Fetch, 1), Event(5, Decode, 5), Event(at, Rename, at), Event(6, Retire, 6)]
  }

  lemma RenamedEvents(at: int)
    requires 5 <= at <= 6
    ensures var c := Config(1, 10, false);
            && NumLines(Renamed(at), c) == 1 && StartTick(Renamed(at), c, 0) == 0
            && PrintedEvents(Renamed(at), c, 0) == RenamedAt(at)
  {
    hide NumLines, StartTick, PrintedEvents, RenamedAt;
    RenamedStart(at);
    RenamedPrinted(at);
  }

  lemma RenamedStart(at: int)
    requires 5 <= at <= 6
    ensures NumLines(Renamed(at), Config(1, 10, false)) == 1 && StartTick(Renamed(at), Config(1, 10, false), 0) == 0
  {
    var inst, c := Renamed(at), Config(1, 10, false);
    assert TimeWidth(c) == 10;
    assert BaseTick(inst, c) == 0;
  }

  lemma RenamedOrdered(at: int)
    requires 5 <= at <= 6
    ensures Ordered(RenamedAt(at), SortKey)
  {
  }

  lemma RenamedPrinted(at: int)
    requires 5 <= at <= 6
    ensures PrintedEvents(Renamed(at), Config(1, 10, false), 0) == RenamedAt(at)
  {
    hide EventsAmong, Select, SortBy, Insert;
    RenamedAmong(at);
    RenamedOrdered(at);
    SortOrdered(RenamedAt(at), SortKey);
    SelectAll(RenamedAt(at), (e: Event) => !Hidden(Renamed(at), e.stage));
  }

  lemma RenamedWindow(at: int, tick: int)
    requires 5 <= at <= 6 && 0 <= tick <= 6
    ensures var inst, c := Renamed(at), Config(1, 10, false);
            TimeWidth(c) == 10 && InWindow(inst, c, 0, tick) && tick % TimeWidth(c) == tick
  {
    var inst, c := Renamed(at), Config(1, 10, false);
    assert TimeWidth(c) == 10;
    assert BaseTick(inst, c) == 0;
  }

  lemma RenamedStage(at: int, stage: Stage)
    requires 5 <= at <= 6
    ensures var inst, c := Renamed(at), Config(1, 10, false);
            && (Reached(inst, c, 0, stage) <==> Tick(inst, stage) != 0)
            && EventOf(inst, c, stage) == Event(Tick(inst, stage), stage, Tick(inst, stage))
  {
    hide InWindow, TimeWidth;
    var tick := Tick(Renamed(at), stage);
    assert 0 <= tick <= 6;
    RenamedWindow(at, tick);
  }

  lemma RenamedAmong(at: int)
    requires 5 <= at <= 6
    ensures EventsAmong(Renamed(at), Config(1, 10, false), 0, Stages(Config(1, 10, false))) == RenamedAt(at)
  {
    hide EventsAmong, Reached, EventOf, RenamedAt, RenamedFirst;
    RenamedNext(at, 0);
    EventsStep(Renamed(at), Config(1, 10, false), 0, Stages(Config(1, 10, false)), 0);
    var inst, c := Renamed(at), Config(1, 10, false);
    var s := Stages(c);
    for n := 0 to 7
      invariant EventsAmong(inst, c, 0, s[..n]) == RenamedFirst(at, n)
    {
      assert s[n] == StageAt(n);
      EventsStep(inst, c, 0, s, n);
      RenamedStage(at, s[n]);
      RenamedNext(at, n);
    }
    assert s[..7] == s;
  }

  function StageAt(n: nat): Stage
    requires n < 7
  {
    [Fetch, Decode, Rename, Dispatch, Issue, Complete, Retire][n]
  }

  function RenamedFirst(at: int, n: nat): seq<Event> {
    RenamedAt(at)[..if n <= 3 then n else if n <= 6 then 3 else 4]
  }

  lemma RenamedNext(at: int, n: nat)
    requires 5 <= at <= 6 && n < 7
    ensures var inst, stage := Renamed(at), StageAt(n);
            RenamedFirst(at, n + 1) == RenamedFirst(at, n)
              + if Tick(inst, stage) != 0 then [Event(Tick(inst, stage), stage, Tick(inst, stage))] else []
    ensures RenamedFirst(at, 0) == [] && RenamedFirst(at, 7) == RenamedAt(at)
  {
  }

  lemma EventsStep(inst: Inst, c: Config, i: int, stages: seq<Stage>, n: nat)
    requires ValidConfig(c) && n < |stages|
    ensures EventsAmong(inst, c, i, stages[..0]) == []
    ensures EventsAmong(inst, c, i, stages[..n + 1])
         == EventsAmong(inst, c, i, stages[..n])
            + if Reached(inst, c, i, stages[n]) then [EventOf(inst, c, stages[n])] else []
  {
    assert stages[..n + 1][..n] == stages[..n];
  }

  lemma RenamedRow(at: int)
    requires 5 <= at <= 6
    ensures Shows(".f...dnr...", RenamedAt(at), Config(1, 10, false), '.')
  {
    var es, c := RenamedAt(at), Config(1, 10, false);
    assert Crowded(es, c, 1) == 0;
    assert Crowded(es, c, 2) == 0;
    assert Crowded(es, c, 3) == if at == 5 then 1 else 0;
    assert Crowded(es, c, 4) == 1;
    assert CellOf(es, c, 0) == 1 && CellOf(es, c, 1) == 5 && CellOf(es, c, 2) == 6 && CellOf(es, c, 3) == 7;
  }

  // ----- Two rows written out

  /** One stage per tick, from 10 on. */
  function Straight(): Inst {
    Inst(0, "", 10, 11, 12, 13, 14, 15, 16, 17)
  }

  function StraightEvents(): seq<Event> {
    [Event(0, Fetch, 10), Event(1, Decode, 11), Event(2, Rename, 12), Event(3, Dispatch, 13),
     Event(4, Issue, 14), Event(5, Complete, 15), Event(6, Retire, 16), Event(7, Store, 17)]
  }

  /** Fetched, decoded and abandoned. */
  function Squashed(): Inst {
    Inst(0, "", 1, 3, 0, 0, 0, 0, 0, 0)
  }

  lemma StraightWindow(tick: int)
    requires 10 <= tick <= 17
    ensures var inst, c := Straight(), Config(1, 10, true);
            TimeWidth(c) == 10 && InWindow(inst, c, 0, tick) && tick % TimeWidth(c) == tick - 10
  {
    var inst, c := Straight(), Config(1, 10, true);
    assert TimeWidth(c) == 10;
    assert BaseTick(inst, c) == 10;
  }

  lemma StraightStage(stage: Stage)
    ensures var inst, c := Straight(), Config(1, 10, true);
            && Reached(inst, c, 0, stage)
            && EventOf(inst, c, stage) == Event(Tick(inst, stage) - 10, stage, Tick(inst, stage))
  {
    hide InWindow, TimeWidth;
    var tick := Tick(Straight(), stage);
    assert 10 <= tick <= 17;
    StraightWindow(tick);
  }

  lemma StraightAmong()
    ensures EventsAmong(Straight(), Config(1, 10, true), 0, Stages(Config(1, 10, true))) == StraightEvents()
  {
    hide EventsAmong, Reached, EventOf;
    var inst, c := Straight(), Config(1, 10, true);
    var s := Stages(c);
    EventsStep(inst, c, 0, s, 0);
    for n := 0 to 8
      invariant EventsAmong(inst, c, 0, s[..n]) == StraightEvents()[..n]
    {
      EventsStep(inst, c, 0, s, n);
      StraightStage(s[n]);
    }
    assert s[..8] == s && StraightEvents()[..8] == StraightEvents();
  }

  lemma {:induction false} StraightCell(j: nat)
    requires j < 8
    ensures Crowded(StraightEvents(), Config(1, 10, true), j + 1) == 0
    ensures CellOf(StraightEvents(), Config(1, 10, true), j) == j
  {
    if j > 0 {
      StraightCell(j - 1);
    }
  }

  lemma StraightCells()
    ensures Shows("fdnpicrs..", StraightEvents(), Config(1, 10, true), '.')
  {
    hide Crowded, CellOf;
    var es, c := StraightEvents(), Config(1, 10, true);
    forall j: nat | j < 8 ensures CellOf(es, c, j) == j && "fdnpicrs.."[j] == Shorthand(es[j].stage) {
      StraightCell(j);
    }
    StraightCell(7);
    forall x | 0 <= x < 10 && "fdnpicrs.."[x] != '.' ensures exists j :: 0 <= j < |es| && CellOf(es, c, j) == x {
      assert x < 8;
      assert CellOf(es, c, x) == x;
    }
  }

  /** All eight letters in pipeline order, and the row of an abandoned instruction. */
  lemma WrittenOut()
    ensures Shows("fdnpicrs..", PrintedEvents(Straight(), Config(1, 10, true), 0), Config(1, 10, true), '.')
    ensures RowShown(Row("fdnpicrs..", 10), Straight(), Config(1, 10, true), 0)
    ensures RowShown(Row("=f=d======", 0), Squashed(), Config(1, 10, true), 0)
  {
    hide PrintedEvents, Shows, StartTick, StraightEvents;
    StraightPrinted();
    StraightCells();
    SquashedPrinted();
    SquashedCells();
    FirstTicks();
  }

  lemma FirstTicks()
    ensures StartTick(Straight(), Config(1, 10, true), 0) == 10 && StartTick(Squashed(), Config(1, 10, true), 0) == 0
  {
    var c := Config(1, 10, true);
    assert TimeWidth(c) == 10;
    assert BaseTick(Straight(), c) == 10 && BaseTick(Squashed(), c) == 0;
  }

  lemma StraightOrdered()
    ensures Ordered(StraightEvents(), SortKey)
  {
    var es := StraightEvents();
    assert forall j :: 0 <= j < 8 ==> es[j].offset == j;
  }

  lemma StraightPrinted()
    ensures PrintedEvents(Straight(), Config(1, 10, true), 0) == StraightEvents()
  {
    hide EventsAmong, Select, SortBy, Insert;
    StraightAmong();
    StraightOrdered();
    SortOrdered(StraightEvents(), SortKey);
    SelectAll(StraightEvents(), (e: Event) => !Hidden(Straight(), e.stage));
  }

  // ----- All rows

  datatype Row = Row(cells: string, startTick: int)

  datatype Printout = Rows(rows: seq<Row>) | IndexError

  function Dot(inst: Inst): char {
    if inst.retire == 0 then '=' else '.'
  }

  /** Collects the stages reached in window `i`, in pipeline order. */
  method CollectEvents(inst: Inst, c: Config, i: int) returns (events: seq<Event>)
    requires ValidConfig(c)
    ensures events == EventsAmong(inst, c, i, Stages(c))
  {
    var stages := Stages(c);
    events := [];
    for n := 0 to |stages|
      invariant events == EventsAmong(inst, c, i, stages[..n])
    {
      assert stages[..n + 1][..n] == stages[..n];
      var tick := Tick(inst, stages[n]);
      if tick != 0 {
        if tick >= StartTick(inst, c, i) && tick < EndTick(inst, c, i) {
          events := events + [Event(tick % TimeWidth(c), stages[n], tick)];
        }
      }
    }
    assert stages[..|stages|] == stages;
  }

  /** Row `i` starts at its window and shows the events printed in it. */
  ghost predicate RowShown(row: Row, inst: Inst, c: Config, i: int)
    requires ValidConfig(c)
  {
    row.startTick == StartTick(inst, c, i) && Shows(row.cells, PrintedEvents(inst, c, i), c, Dot(inst))
  }

  lemma SquashedStage(stage: Stage)
    ensures var inst, c := Squashed(), Config(1, 10, true);
            && (Reached(inst, c, 0, stage) <==> Tick(inst, stage) != 0)
            && EventOf(inst, c, stage) == Event(Tick(inst, stage), stage, Tick(inst, stage))
  {
    var inst, c := Squashed(), Config(1, 10, true);
    assert TimeWidth(c) == 10;
    assert BaseTick(inst, c) == 0;
    var tick := Tick(inst, stage);
    assert 0 <= tick <= 3;
    assert InWindow(inst, c, 0, tick);
  }

  lemma SquashedPrinted()
    ensures PrintedEvents(Squashed(), Config(1, 10, true), 0) == [Event(1, Fetch, 1), Event(3, Decode, 3)]
  {
    hide EventsAmong, Select, SortBy, Insert, Reached, EventOf;
    var inst, c := Squashed(), Config(1, 10, true);
    var s, es := Stages(c), [Event(1, Fetch, 1), Event(3, Decode, 3)];
    EventsStep(inst, c, 0, s, 0);
    for n := 0 to 8
      invariant EventsAmong(inst, c, 0, s[..n]) == es[..if n <= 2 then n else 2]
    {
      EventsStep(inst, c, 0, s, n);
      SquashedStage(s[n]);
    }
    assert s[..8] == s && es[..2] == es;
    SortOrdered(es, SortKey);
    SelectAll(es, (e: Event) => !Hidden(inst, e.stage));
  }

  lemma SquashedCells()
    ensures Shows("=f=d======", [Event(1, Fetch, 1), Event(3, Decode, 3)], Config(1, 10, true), '=')
  {
    var es, c := [Event(1, Fetch, 1), Event(3, Decode, 3)], Config(1, 10, true);
    assert Crowded(es, c, 1) == 0 && Crowded(es, c, 2) == 0;
    assert CellOf(es, c, 0) == 1 && CellOf(es, c, 1) == 3;
  }

  method PrintRow(inst: Inst, c: Config, i: int) returns (row: Row, empty: bool)
    requires ValidConfig(c)
    ensures RowShown(row, inst, c, i)
    ensures empty <==> Events(inst, c, i) == []
  {
    var found := CollectEvents(inst, c, i);
    var events := SortBy(found, SortKey);
    empty := events == [];
    PrintedPlaced(inst, c, i);
    var cells := RenderRow(inst, events, c, Dot(inst));
    row := Row(cells, StartTick(inst, c, i));
  }

  /** Prints one row per window. The single row of the compact form looks at its first
      event, so it fails on an instruction without any. */
  method PrintInst(inst: Inst, c: Config) returns (out: Printout)
    requires ValidConfig(c)
    ensures out.IndexError? <==> Compact(inst, c) && Events(inst, c, 0) == []
    ensures out.Rows? ==>
              && |out.rows| == NumLines(inst, c)
              && forall i :: 0 <= i < |out.rows| ==> RowShown(out.rows[i], inst, c, i)
  {
    hide RowShown, Events;
    OneLineIffCompact(inst, c);
    var rows: seq<Row> := [];
    for i := 0 to NumLines(inst, c)
      invariant |rows| == i
      invariant i > 0 ==> !(Compact(inst, c) && Events(inst, c, 0) == [])
      invariant forall k :: 0 <= k < i ==> RowShown(rows[k], inst, c, k)
    {
      var row, empty := PrintRow(inst, c, i);
      if NumLines(inst, c) == 1 && empty {
        return IndexError;
      }
      rows := rows + [row];
    }
    out := Rows(rows);
  }
}
