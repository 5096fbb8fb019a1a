/** Copyright years: a set of years printed as ranges, and such text read back. */
module Years {
  import opened Distinct
  import opened PyText

  /** The years from `first` to `last`. */
  datatype Run = Run(first: int, last: int)

  predicate Within(r: Run, y: int) {
    r.first <= y <= r.last
  }

  ghost predicate Covered(runs: seq<Run>, y: int) {
    exists i :: 0 <= i < |runs| && Within(runs[i], y)
  }

  ghost predicate Increasing(dates: seq<int>) {
    forall i, j :: 0 <= i < j < |dates| ==> dates[i] < dates[j]
  }

  // ----- Compressing sorted years into runs

  /** The runs of consecutive years in a sorted list. */
  function Runs(dates: seq<int>): (runs: seq<Run>)
    ensures dates != [] ==> runs != [] && runs[|runs| - 1].last == dates[|dates| - 1]
  {
    if dates == [] then []
    else AddYear(Runs(dates[..|dates| - 1]), dates[|dates| - 1])
  }

  /** Runs in ascending order, each followed by a gap. */
  ghost predicate Separated(runs: seq<Run>) {
    && (forall i :: 0 <= i < |runs| ==> runs[i].first <= runs[i].last)
    && (forall i, j :: 0 <= i < j < |runs| ==> runs[i].last + 1 < runs[j].first)
  }

  /** The runs are the maximal runs of the listed years. */
  lemma {:induction false} RunsAreMaximal(dates: seq<int>)
    requires Increasing(dates)
    ensures Separated(Runs(dates))
    ensures forall y :: Covered(Runs(dates), y) <==> y in dates
  {
    if dates != [] {
      var front, y := dates[..|dates| - 1], dates[|dates| - 1];
      RunsAreMaximal(front);
      assert dates == front + [y];
      SeparatedGrow(Runs(front), y);
      forall z ensures Covered(Runs(dates), z) <==> z in dates {
        RunsGrow(Runs(front), y, z);
      }
    }
  }

  /** One more year: it extends the last run or starts a new one. */
  function AddYear(runs: seq<Run>, y: int): seq<Run> {
    if runs != [] && y == runs[|runs| - 1].last + 1 then runs[|runs| - 1 := Run(runs[|runs| - 1].first, y)]
    else runs + [Run(y, y)]
  }

  lemma SeparatedGrow(runs: seq<Run>, y: int)
    requires Separated(runs) && (runs != [] ==> runs[|runs| - 1].last < y)
    ensures Separated(AddYear(runs, y))
  {
    if runs != [] {
      var n := |runs| - 1;
      assert forall i :: 0 <= i < n ==> runs[i].last + 1 < runs[n].first;
    }
  }

  lemma RunsGrow(before: seq<Run>, y: int, z: int)
    requires before != [] ==> before[|before| - 1].first <= before[|before| - 1].last
    ensures Covered(AddYear(before, y), z) <==> Covered(before, z) || z == y
  {
    var after := AddYear(before, y);
    if Covered(before, z) {
      var i :| 0 <= i < |before| && Within(before[i], z);
      assert Within(after[i], z);
    }
    if z == y {
      assert Within(after[|after| - 1], z);
    }
    if Covered(after, z) && z != y {
      var i :| 0 <= i < |after| && Within(after[i], z);
      assert Within(before[i], z);
    }
  }

  function Firsts(runs: seq<Run>): (s: seq<int>)
    ensures |s| == |runs| && forall i :: 0 <= i < |runs| ==> s[i] == runs[i].first
  {
    seq(|runs|, i requires 0 <= i < |runs| => runs[i].first)
  }

  /** No list of ranges that covers exactly these years is shorter. */
  lemma RunsAreFewest(dates: seq<int>, others: seq<Run>)
    requires Increasing(dates)
    requires forall y :: Covered(others, y) <==> y in dates
    ensures |Runs(dates)| <= |others|
  {
    RunsAreMaximal(dates);
    var runs := Runs(dates);
    forall i | 0 <= i < |runs| ensures Firsts(runs)[i] in Firsts(others) {
      var y := runs[i].first;
      assert Within(runs[i], y);
      assert Covered(runs, y);
      assert !Covered(runs, y - 1);
      assert Covered(others, y);
      var j :| 0 <= j < |others| && Within(others[j], y);
      assert !Within(others[j], y - 1);
      assert Firsts(others)[j] == y;
    }
    Exhausts(Firsts(runs), Firsts(others));
  }

  // ----- Text

  function RunText(r: Run): string {
    if r.first == r.last then Signed(r.first) else Signed(r.first) + "-" + Signed(r.last)
  }

  function Texts(runs: seq<Run>): (parts: seq<string>)
    ensures |parts| == |runs|
  {
    if runs == [] then [] else Texts(runs[..|runs| - 1]) + [RunText(runs[|runs| - 1])]
  }

  function DateText(dates: seq<int>): string {
    Join(Texts(Runs(dates)), ',')
  }

  /** Prints a sorted list of years; popping from the empty list fails. */
  method DateStr(dates: seq<int>) returns (out: Option<string>)
    requires Increasing(dates)
    ensures out == if dates == [] then None else Some(DateText(dates))
  {
    if dates == [] {
      return None;
    }
    var output: seq<string> := [];
    ghost var runs: seq<Run> := [];
    var first, second := dates[0], dates[0];
    var n := 1;
    while n < |dates|
      invariant 1 <= n <= |dates|
      invariant output == Texts(runs) && runs + [Run(first, second)] == Runs(dates[..n])
    {
      var next := dates[n];
      assert dates[..n + 1][..n] == dates[..n];
      if next == second + 1 {
        second := next;
      } else {
        TextsSnoc(runs, Run(first, second));
        output := output + [if first == second then Signed(first) else Signed(first) + "-" + Signed(second)];
        runs := runs + [Run(first, second)];
        first, second := next, next;
      }
      n := n + 1;
    }
    assert dates[..|dates|] == dates;
    TextsSnoc(runs, Run(first, second));
    output := output + [if first == second then Signed(first) else Signed(first) + "-" + Signed(second)];
    out := Some(Join(output, ','));
  }

  lemma TextsSnoc(runs: seq<Run>, r: Run)
    ensures Texts(runs + [r]) == Texts(runs) + [RunText(r)]
  {
    assert (runs + [r])[..|runs|] == runs;
  }

  // ----- Reading the text back

  predicate FourDigits(s: string) {
    |s| >= 4 && AllDigits(s[..4])
  }

  /** A match of four digits, a dash and four digits at the start of `s`, with blanks allowed
      around the dash. */
  function MatchRange(s: string): Option<Run> {
    if !FourDigits(s) then None
    else
      var dash := StripLeft(s[4..]);
      if dash == "" || dash[0] != '-' then None
      else
        var end := StripLeft(dash[1..]);
        if FourDigits(end) then Some(Run(DigitsValue(s[..4]), DigitsValue(end[..4]))) else None
  }

  function Interval(a: int, b: int): (ys: set<int>)
    ensures forall y :: y in ys <==> a <= y <= b
    decreases b - a
  {
    if a > b then {} else Interval(a, b - 1) + {b}
  }

  /** The years that one item of the list stands for. */
  function ItemYears(item: string): set<int> {
    var m := MatchRange(item);
    if m.Some? then Interval(m.value.first, m.value.last)
    else
      var n := Int(item);
      if n.Some? then {n.value} else {}
  }

  function ItemsYears(items: seq<string>): set<int> {
    if items == [] then {} else ItemsYears(items[..|items| - 1]) + ItemYears(Strip(items[|items| - 1]))
  }

  function ProcessedDates(text: string): set<int> {
    ItemsYears(Split(text, ','))
  }

  method AddInterval(before: set<int>, r: Run) returns (output: set<int>)
    ensures output == before + Interval(r.first, r.last)
  {
    output := before;
    var y := r.first;
    while y <= r.last
      invariant y >= r.first && (y <= r.last + 1 || y == r.first)
      invariant output == before + Interval(r.first, y - 1)
    {
      output := output + {y};
      y := y + 1;
    }
  }

  method ProcessDates(text: string) returns (output: set<int>)
    ensures output == ProcessedDates(text)
  {
    hide Split, Strip, MatchRange, Int, Interval;
    var items := Split(text, ',');
    output := {};
    for i := 0 to |items|
      invariant output == ItemsYears(items[..i])
    {
      assert items[..i + 1][..i] == items[..i];
      var item := Strip(items[i]);
      var m := MatchRange(item);
      if m.Some? {
        output := AddInterval(output, m.value);
      } else {
        var n := Int(item);
        if n.Some? {
          output := output + {n.value};
        }
      }
    }
    assert items[..|items|] == items;
  }

  // ----- What an item means

  /** Four digits, a dash, four digits and a rest, with white space around the dash. */
  predicate RangeForm(item: string, f: string, x: string, y: string, l: string, tail: string) {
    && |f| == 4 && AllDigits(f) && |l| == 4 && AllDigits(l) && AllSpace(x) && AllSpace(y)
    && item == f + x + "-" + y + l + tail
  }

  lemma RangeReads(item: string, f: string, x: string, y: string, l: string, tail: string)
    requires RangeForm(item, f, x, y, l, tail)
    ensures MatchRange(item) == Some(Run(DigitsValue(f), DigitsValue(l)))
  {
    hide DigitsValue;
    var dash, end := "-" + y + l + tail, l + tail;
    assert item[..4] == f && item[4..] == x + dash;
    StripLeftPad(x, dash);
    assert StripLeft(dash) == dash && dash[1..] == y + end;
    StripLeftPad(y, end);
    assert IsDigit(end[0]) && end[..4] == l;
    assert StripLeft(end) == end;
  }

  lemma RangeHasForm(item: string) returns (f: string, x: string, y: string, l: string, tail: string)
    requires MatchRange(item).Some?
    ensures RangeForm(item, f, x, y, l, tail)
  {
    f := item[..4];
    var dash := StripLeft(item[4..]);
    x := StripLeftLaw(item[4..]);
    var end := StripLeft(dash[1..]);
    y := StripLeftLaw(dash[1..]);
    l, tail := end[..4], end[4..];
    assert item == f + item[4..] && item[4..] == x + dash && dash == "-" + dash[1..];
    assert dash[1..] == y + end && end == l + tail;
  }

  /** The years of an item: those of the range when it starts with one, else the number that it
      is, else none. */
  lemma ItemExact(item: string, year: int)
    ensures year in ItemYears(item)
       <==> if exists f, x, y, l, tail :: RangeForm(item, f, x, y, l, tail)
            then exists f, x, y, l, tail ::
                   RangeForm(item, f, x, y, l, tail) && DigitsValue(f) <= year <= DigitsValue(l)
            else exists a, t, ds, b :: item == a + t + b && AllSpace(a) && AllSpace(b) && Spells(t, ds, year)
  {
    hide MatchRange, Int, Spells, RangeForm, DigitsValue;
    if f, x, y, l, tail :| RangeForm(item, f, x, y, l, tail) {
      RangeIs(item, f, x, y, l, tail);
      forall f', x', y', l', tail' | RangeForm(item, f', x', y', l', tail')
        ensures AllDigits(f') && AllDigits(l') && DigitsValue(f') == DigitsValue(f) && DigitsValue(l') == DigitsValue(l)
      {
        RangeIs(item, f', x', y', l', tail');
      }
    } else {
      if MatchRange(item).Some? {
        var f, x, y, l, tail := RangeHasForm(item);
        assert false;
      }
      IntExact(item, year);
    }
  }

  lemma RangeIs(item: string, f: string, x: string, y: string, l: string, tail: string)
    requires RangeForm(item, f, x, y, l, tail)
    ensures AllDigits(f) && AllDigits(l) && MatchRange(item) == Some(Run(DigitsValue(f), DigitsValue(l)))
  {
    RangeReads(item, f, x, y, l, tail);
  }

  /** Exactly the years of the items between the commas, each stripped of white space. */
  lemma {:induction false} ItemsExact(items: seq<string>, year: int)
    ensures year in ItemsYears(items) <==> exists i :: 0 <= i < |items| && year in ItemYears(Strip(items[i]))
  {
    hide ItemYears, Strip;
    if items != [] {
      var front := items[..|items| - 1];
      ItemsExact(front, year);
      if year in ItemsYears(front) {
        var i :| 0 <= i < |front| && year in ItemYears(Strip(front[i]));
        assert items[i] == front[i];
      }
      if i :| 0 <= i < |items| && year in ItemYears(Strip(items[i])) {
        assert i < |front| ==> items[i] == front[i];
      }
    }
  }

  /** `padded` has the same items as `items`, with white space around them. */
  ghost predicate Padded(items: seq<string>, padded: seq<string>) {
    |items| == |padded| && forall i :: 0 <= i < |items| ==> PaddedItem(items[i], padded[i])
  }

  ghost predicate PaddedItem(item: string, padded: string) {
    exists a, b :: AllSpace(a) && AllSpace(b) && padded == a + item + b
  }

  /** White space around the items of a list does not matter. */
  lemma PaddingIsIgnored(items: seq<string>, padded: seq<string>)
    requires items != [] && Padded(items, padded)
    requires forall i :: 0 <= i < |items| ==> ',' !in items[i] && ',' !in padded[i]
    ensures ProcessedDates(Join(padded, ',')) == ProcessedDates(Join(items, ','))
  {
    hide ItemYears, Strip, Split, Join, ItemsYears;
    SplitJoin(items, ',');
    SplitJoin(padded, ',');
    forall i | 0 <= i < |items| ensures Strip(padded[i]) == Strip(items[i]) {
      assert PaddedItem(items[i], padded[i]);
      var a, b :| AllSpace(a) && AllSpace(b) && padded[i] == a + items[i] + b;
      StripPad(a, items[i], b);
    }
    forall year ensures year in ItemsYears(padded) <==> year in ItemsYears(items) {
      ItemsExact(items, year);
      ItemsExact(padded, year);
    }
  }

  // ----- Reading undoes printing

  /** A run that survives: a single year, or a range of four-digit years. */
  predicate Legible(r: Run) {
    r.first == r.last || (1000 <= r.first && r.last <= 9999)
  }

  lemma DecimalLength(n: nat)
    ensures n < 1000 ==> |Decimal(n)| < 4
    ensures 1000 <= n <= 9999 ==> |Decimal(n)| == 4
    ensures n > 9999 ==> |Decimal(n)| > 4
  {
    assert Decimal(n / 10) != "";
    if n >= 10 {
      assert Decimal(n / 100) != "" && n / 10 / 10 == n / 100;
      if n >= 100 {
        assert n / 100 / 10 == n / 1000;
        if n >= 1000 {
          assert n / 1000 / 10 == n / 10000;
        }
      }
    }
  }

  lemma NumberIsNoRange(n: nat)
    ensures MatchRange(Decimal(n)).None?
  {
    var s := Decimal(n);
    if FourDigits(s) && s[4..] != "" {
      assert s[4..][0] == s[4] && IsDigit(s[4]);
    }
  }

  lemma NegativeReads(n: int)
    requires n < 0
    ensures MatchRange(Signed(n)).None? && Int(Signed(n)) == Some(n)
  {
    hide Decimal, StripLeft, StripRight, DigitsValue;
    var s, d := Signed(n), Decimal(-n);
    assert s[0] == '-' && s[1..] == d && IsDigit(d[|d| - 1]);
    assert !FourDigits(s) by { assert |s| >= 4 ==> s[..4][0] == '-'; }
    RunTextTrimmed(Run(n, n));
    StripTrimmed(s);
    DecimalValue(-n);
  }

  /** A printed number on its own is read as that number. */
  lemma SingleReads(n: int)
    ensures ItemYears(Strip(Signed(n))) == {n}
  {
    hide MatchRange, Int, Strip;
    RunTextTrimmed(Run(n, n));
    StripTrimmed(Signed(n));
    if n < 0 {
      NegativeReads(n);
    } else {
      IntDecimal(n);
      NumberIsNoRange(n);
    }
  }

  lemma LegibleReads(r: Run)
    requires r.first < r.last && Legible(r)
    ensures MatchRange(RunText(r)) == Some(r)
  {
    var a, b := Decimal(r.first), Decimal(r.last);
    var s := RunText(r);
    DecimalLength(r.first);
    DecimalLength(r.last);
    DecimalValue(r.first);
    DecimalValue(r.last);
    assert s[..4] == a && s[4..] == "-" + b && ("-" + b)[1..] == b;
    assert StripLeft(b) == b && b[..4] == b;
  }

  lemma DashIsNoNumber(r: Run)
    requires r.first < r.last
    ensures Int(RunText(r)).None?
  {
    var s, k := RunText(r), |Signed(r.first)|;
    assert IsDigit(s[|s| - 1]);
    StripTrimmed(s);
    assert s[k] == '-';
    if r.first < 0 {
      assert s[1..][k - 1] == '-';
    }
  }

  lemma OddStartNoMatch(r: Run)
    requires r.first < r.last && !(1000 <= r.first <= 9999)
    ensures MatchRange(RunText(r)).None?
  {
    var s := RunText(r);
    if r.first < 0 {
      assert |s| >= 4 ==> s[..4][0] == '-';
    } else {
      var a := Decimal(r.first);
      DecimalLength(r.first);
      assert s[|a|] == '-';
      if |a| < 4 {
        assert |s| >= 4 ==> s[..4][|a|] == '-';
      } else {
        assert IsDigit(s[4..][0]);
      }
    }
  }

  lemma LongEndCutShort(r: Run)
    requires r.first < r.last && 1000 <= r.first <= 9999 && r.last > 9999
    ensures var m := MatchRange(RunText(r));
            m.Some? && m.value.first == r.first && m.value.last < r.last
  {
    var a, b := Decimal(r.first), Decimal(r.last);
    var s := RunText(r);
    DecimalLength(r.first);
    DecimalLength(r.last);
    DecimalValue(r.first);
    assert s[..4] == a && s[4..] == "-" + b && ("-" + b)[1..] == b;
    assert StripLeft(b) == b;
    FourDigitsSmall(b[..4]);
  }

  lemma FourDigitsSmall(s: string)
    requires |s| == 4 && AllDigits(s)
    ensures DigitsValue(s) <= 9999
  {
    var s3, s2, s1 := s[..3], s[..3][..2], s[..3][..2][..1];
    assert DigitsValue(s1[..0]) == 0;
    assert DigitsValue(s1) <= 9 && DigitsValue(s2) <= 99 && DigitsValue(s3) <= 999;
  }

  /** A printed run never yields a year outside it, and yields all of it exactly when it is
      legible. */
  lemma RunReads(r: Run)
    requires r.first <= r.last
    ensures ItemYears(Strip(RunText(r))) <= Interval(r.first, r.last)
    ensures ItemYears(Strip(RunText(r))) == Interval(r.first, r.last) <==> Legible(r)
  {
    if r.first == r.last {
      SingleReads(r.first);
    } else {
      RunTextTrimmed(r);
      StripTrimmed(RunText(r));
      if Legible(r) {
        LegibleReads(r);
      } else if 1000 <= r.first <= 9999 {
        LongEndCutShort(r);
        assert r.last in Interval(r.first, r.last);
      } else {
        OddStartNoMatch(r);
        DashIsNoNumber(r);
        assert r.last in Interval(r.first, r.last);
      }
    }
  }

  lemma RunTextTrimmed(r: Run)
    ensures Trimmed(RunText(r)) && ',' !in RunText(r)
  {
    assert IsDigit(RunText(r)[|RunText(r)| - 1]);
  }

  function AllYears(runs: seq<Run>): set<int> {
    if runs == [] then {}
    else AllYears(runs[..|runs| - 1]) + Interval(runs[|runs| - 1].first, runs[|runs| - 1].last)
  }

  lemma {:induction false} AllYearsCovered(runs: seq<Run>)
    ensures forall y :: y in AllYears(runs) <==> Covered(runs, y)
  {
    if runs != [] {
      var front, r := runs[..|runs| - 1], runs[|runs| - 1];
      AllYearsCovered(front);
      forall y ensures y in AllYears(runs) <==> Covered(runs, y) {
        if y in AllYears(front) {
          var i :| 0 <= i < |front| && Within(front[i], y);
          assert Within(runs[i], y);
        } else if Within(r, y) {
          assert Within(runs[|runs| - 1], y);
        }
        if Covered(runs, y) && !Within(r, y) {
          var i :| 0 <= i < |runs| && Within(runs[i], y);
          assert Within(front[i], y);
        }
      }
    }
  }

  lemma UnionSplits(a: set<int>, a': set<int>, b: set<int>, b': set<int>)
    requires a' <= a && b' <= b && a !! b
    ensures a' + b' == a + b <==> a' == a && b' == b
  {
    if a' + b' == a + b {
      forall y | y in a ensures y in a' { assert y in a + b; }
      forall y | y in b ensures y in b' { assert y in a + b; }
    }
  }

  lemma SeparatedDisjoint(runs: seq<Run>)
    requires runs != [] && Separated(runs)
    ensures AllYears(runs[..|runs| - 1]) !! Interval(runs[|runs| - 1].first, runs[|runs| - 1].last)
    ensures Separated(runs[..|runs| - 1])
  {
    var front, r := runs[..|runs| - 1], runs[|runs| - 1];
    AllYearsCovered(front);
    forall y | y in AllYears(front) ensures y !in Interval(r.first, r.last) {
      var i :| 0 <= i < |front| && Within(front[i], y);
      assert runs[i].last + 1 < runs[|runs| - 1].first;
    }
  }

  ghost predicate AllLegible(runs: seq<Run>) {
    forall i :: 0 <= i < |runs| ==> Legible(runs[i])
  }

  lemma {:induction false} TextsRead(runs: seq<Run>)
    requires Separated(runs)
    ensures ItemsYears(Texts(runs)) <= AllYears(runs)
    ensures ItemsYears(Texts(runs)) == AllYears(runs) <==> AllLegible(runs)
  {
    hide ItemYears, RunText, Strip, Legible, Separated;
    if runs != [] {
      var front, r := runs[..|runs| - 1], runs[|runs| - 1];
      SeparatedDisjoint(runs);
      TextsRead(front);
      NonEmptyRun(runs);
      RunReads(r);
      UnionSplits(AllYears(front), ItemsYears(Texts(front)), Interval(r.first, r.last), ItemYears(Strip(RunText(r))));
      ItemsSnoc(Texts(front), RunText(r));
      LegibleSnoc(runs);
    }
  }

  lemma NonEmptyRun(runs: seq<Run>)
    requires runs != [] && Separated(runs)
    ensures runs[|runs| - 1].first <= runs[|runs| - 1].last
  {
  }

  lemma LegibleSnoc(runs: seq<Run>)
    requires runs != []
    ensures AllLegible(runs) <==> AllLegible(runs[..|runs| - 1]) && Legible(runs[|runs| - 1])
  {
  }

  lemma ItemsSnoc(items: seq<string>, item: string)
    ensures ItemsYears(items + [item]) == ItemsYears(items) + ItemYears(Strip(item))
  {
    assert (items + [item])[..|items|] == items;
  }

  lemma {:induction false} TextsPlain(runs: seq<Run>)
    ensures forall i :: 0 <= i < |runs| ==> ',' !in Texts(runs)[i]
  {
    if runs != [] {
      TextsPlain(runs[..|runs| - 1]);
      RunTextTrimmed(runs[|runs| - 1]);
    }
  }

  /** Reading printed years gives back the set of years if and only if every run of two or
      more years has four-digit bounds. */
  lemma DatesRoundTrip(dates: seq<int>)
    requires Increasing(dates) && dates != []
    ensures ProcessedDates(DateText(dates)) == (set y | y in dates) <==> AllLegible(Runs(dates))
  {
    hide Texts, AllLegible, Increasing, ItemsYears;
    var runs := Runs(dates);
    RunsAreMaximal(dates);
    TextsPlain(runs);
    SplitJoin(Texts(runs), ',');
    TextsRead(runs);
    AllYearsCovered(runs);
    assert AllYears(runs) == set y | y in dates;
  }

  // ----- Two lists written out

  lemma SomeYears()
    ensures Decimal(2001) == "2001" && Decimal(2003) == "2003" && Decimal(2005) == "2005"
  {
    assert Decimal(2) == "2" && Decimal(20) == "20" && Decimal(200) == "200";
  }

  lemma FirstItem()
    ensures ItemYears(Strip("2001")) == {2001}
  {
    hide Decimal, ItemYears, Strip;
    SomeYears();
    SingleReads(2001);
  }

  lemma SecondItem()
    ensures ItemYears(Strip(" 2003 - 2005")) == {2003, 2004, 2005}
  {
    hide Decimal, MatchRange, Int, Strip, DigitsValue;
    SomeYears();
    DecimalValue(2003);
    DecimalValue(2005);
    assert " 2003 - 2005" == " " + "2003 - 2005" + "";
    StripPad(" ", "2003 - 2005", "");
    StripTrimmed("2003 - 2005");
    assert "2003 - 2005" == "2003" + " " + "-" + " " + "2005" + "";
    RangeReads("2003 - 2005", "2003", " ", " ", "2005", "");
    assert Interval(2003, 2005) == {2003, 2004, 2005};
  }

  lemma ReadWrittenOut()
    ensures ProcessedDates("2001, 2003 - 2005") == {2001, 2003, 2004, 2005}
  {
    hide ItemYears, Strip, Split;
    FirstItem();
    SecondItem();
    assert "2001, 2003 - 2005" == "2001" + "," + " 2003 - 2005";
    SplitCut("2001", " 2003 - 2005", ',');
    SplitNone("2001", ',');
    var items := ["2001", " 2003 - 2005"];
    assert ItemsYears([]) == {};
    assert items[..1] == ["2001"] && ["2001"][..0] == [];
    assert ItemsYears(["2001"]) == {2001};
  }

  lemma RunsWrittenOut()
    ensures Runs([2001, 2003, 2004, 2005]) == [Run(2001, 2001), Run(2003, 2005)]
  {
    var d := [2001, 2003, 2004, 2005];
    assert d[..3] == [2001, 2003, 2004] && d[..3][..2] == [2001, 2003] && d[..3][..2][..1] == [2001];
    assert [2001][..0] == [];
    assert Runs([2001]) == [Run(2001, 2001)];
    assert Runs([2001, 2003]) == [Run(2001, 2001), Run(2003, 2003)];
    assert Runs([2001, 2003, 2004]) == [Run(2001, 2001), Run(2003, 2004)];
  }

  lemma PrintWrittenOut()
    ensures DateText([2001, 2003, 2004, 2005]) == "2001,2003-2005"
  {
    hide Decimal, Runs;
    SomeYears();
    RunsWrittenOut();
    var runs := [Run(2001, 2001), Run(2003, 2005)];
    assert runs[..1] == [Run(2001, 2001)] && runs[..1][..0] == [];
    assert Texts(runs[..1]) == ["2001"];
    assert "2003" + "-" + "2005" == "2003-2005" && RunText(runs[1]) == "2003-2005";
    assert Texts(runs) == ["2001", "2003-2005"];
    assert ["2001", "2003-2005"][..1] == ["2001"];
    assert Join(["2001"], ',') == "2001";
  }
}
