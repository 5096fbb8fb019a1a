/** Instruction dependency traces: one script prints the records of a protobuf trace as text
    lines, another parses such lines back into records. */
module DepTrace {
  import opened PyText

  datatype RecordType = INVALID | LOAD | STORE | COMP

  datatype Record = Record(seqNum: nat, pc: Option<nat>, weight: Option<nat>, typ: RecordType,
                           pAddr: Option<nat>, size: Option<nat>, flags: Option<nat>, compDelay: nat,
                           robDep: seq<nat>, regDep: seq<nat>)

  function Name(t: RecordType): string {
    match t
    case INVALID => "INVALID"
    case LOAD => "LOAD"
    case STORE => "STORE"
    case COMP => "COMP"
  }

  function TypeOf(name: string): Option<RecordType> {
    if name == "INVALID" then Some(INVALID)
    else if name == "LOAD" then Some(LOAD)
    else if name == "STORE" then Some(STORE)
    else if name == "COMP" then Some(COMP)
    else None
  }

  predicate IsMemory(t: RecordType) {
    t == LOAD || t == STORE
  }

  const UINT32: int := 0x1_0000_0000
  const UINT64: int := 0x1_0000_0000_0000_0000

  /** The fields fit the integer types of the record definition. */
  ghost predicate Fits(r: Record) {
    Within(r, UINT32, UINT64)
  }

  ghost predicate Within(r: Record, limit32: int, limit64: int) {
    && r.seqNum < limit64 && r.compDelay < limit64
    && (r.pc.Some? ==> r.pc.value < limit64) && (r.pAddr.Some? ==> r.pAddr.value < limit64)
    && (r.weight.Some? ==> r.weight.value < limit32) && (r.size.Some? ==> r.size.value < limit32)
    && (r.flags.Some? ==> r.flags.value < limit32)
    && (forall i :: 0 <= i < |r.robDep| ==> r.robDep[i] < limit64)
    && (forall i :: 0 <= i < |r.regDep| ==> r.regDep[i] < limit64)
  }

  // ----- Printing

  function OrElse(o: Option<nat>, default: nat): nat {
    if o.Some? then o.value else default
  }

  function Optional(o: Option<nat>): seq<string> {
    if o.Some? then [Decimal(o.value)] else []
  }

  /** The comma-separated fields before the dependencies. */
  function Fields(r: Record): (fs: seq<string>)
    ensures |fs| >= 5
  {
    [Decimal(r.seqNum), Decimal(OrElse(r.pc, 0)), Decimal(OrElse(r.weight, 1)), Name(r.typ)]
    + Optional(r.pAddr) + Optional(r.size) + Optional(r.flags) + [Decimal(r.compDelay)]
  }

  /** A comma before every dependency. */
  function DepText(deps: seq<nat>): string {
    if deps == [] then "" else DepText(deps[..|deps| - 1]) + "," + Decimal(deps[|deps| - 1])
  }

  /** The line of a record, without its newline. */
  function Line(r: Record): string {
    Join(Fields(r), ',') + ":" + DepText(r.robDep) + ":" + DepText(r.regDep)
  }

  method PrintDeps(deps: seq<nat>) returns (out: string)
    ensures out == DepText(deps)
  {
    out := "";
    for i := 0 to |deps|
      invariant out == DepText(deps[..i])
    {
      assert deps[..i + 1][..i] == deps[..i];
      out := out + "," + Decimal(deps[i]);
    }
    assert deps[..|deps|] == deps;
  }

  /** Writes a record field by field, with the defaults for pc and weight. */
  method PrintRecord(r: Record) returns (out: string)
    ensures out == Line(r) + "\n"
  {
    hide Join, Decimal, Name, DepText, Fields;
    var head := PrintFields(r);
    var rob := PrintDeps(r.robDep);
    var reg := PrintDeps(r.regDep);
    out := head + ":" + rob + ":" + reg + "\n";
  }

  method PrintFields(r: Record) returns (out: string)
    ensures out == Join(Fields(r), ',')
  {
    hide Join, Decimal, Name, Optional;
    ghost var fs := [Decimal(r.seqNum)];
    JoinOne(Decimal(r.seqNum), ',');
    out := Decimal(r.seqNum);
    out, fs := Append(out, fs, Decimal(if r.pc.Some? then r.pc.value else 0));
    out, fs := Append(out, fs, Decimal(if r.weight.Some? then r.weight.value else 1));
    out, fs := Append(out, fs, Name(r.typ));
    assert fs == [Decimal(r.seqNum), Decimal(OrElse(r.pc, 0)), Decimal(OrElse(r.weight, 1)), Name(r.typ)];
    out, fs := AppendOptional(out, fs, r.pAddr);
    out, fs := AppendOptional(out, fs, r.size);
    out, fs := AppendOptional(out, fs, r.flags);
    out, fs := Append(out, fs, Decimal(r.compDelay));
    assert fs == Fields(r);
  }

  /** Writes the field only when the record has it. */
  method AppendOptional(text: string, ghost fs: seq<string>, o: Option<nat>)
    returns (out: string, ghost fs': seq<string>)
    requires fs != [] && text == Join(fs, ',')
    ensures fs' == fs + Optional(o) && out == Join(fs', ',')
  {
    if o.Some? {
      out, fs' := Append(text, fs, Decimal(o.value));
    } else {
      out, fs' := text, fs;
    }
  }

  lemma JoinOne(part: string, sep: char)
    ensures Join([part], sep) == part
  {
  }

  method Append(text: string, ghost fs: seq<string>, field: string) returns (out: string, ghost fs': seq<string>)
    requires fs != [] && text == Join(fs, ',')
    ensures fs' == fs + [field] && out == Join(fs', ',')
  {
    JoinSnoc(fs, field, ',');
    out := text + "," + field;
    fs' := fs + [field];
  }

  // ----- Parsing

  datatype Error = ValueError | IndexError | UnsupportedType | InvalidType

  datatype Result<T> = Ok(value: T) | Err(error: Error) {
    predicate IsFailure() { Err? }

    function PropagateFailure<U>(): Result<U>
      requires Err?
    {
      Err(error)
    }

    function Extract(): T
      requires Ok?
    {
      value
    }
  }

  /** `int(s)` stored in an unsigned field of the given size. */
  function Number(s: string, limit: int): Result<nat> {
    var n := Int(s);
    if n.Some? && 0 <= n.value < limit then Ok(n.value) else Err(ValueError)
  }

  function Field(fs: seq<string>, i: nat): Result<string> {
    if i < |fs| then Ok(fs[i]) else Err(IndexError)
  }

  function ParseDeps(items: seq<string>): Result<seq<nat>> {
    if items == [] then Ok([])
    else
      var front :- ParseDeps(items[..|items| - 1]);
      if items[|items| - 1] == "" then Ok(front)
      else
        var n :- Number(items[|items| - 1], UINT64);
        Ok(front + [n])
  }

  /** A load or store carries four more fields, anything else only the delay. */
  function ParseFields(fs: seq<string>): Result<Record> {
    var f0 :- Field(fs, 0);
    var seqNum :- Number(f0, UINT64);
    var f1 :- Field(fs, 1);
    var pc :- Number(f1, UINT64);
    var f2 :- Field(fs, 2);
    var weight :- Number(f2, UINT32);
    var f3 :- Field(fs, 3);
    var typ := TypeOf(f3);
    if typ.None? then Err(UnsupportedType)
    else if typ.value == INVALID then Err(InvalidType)
    else if IsMemory(typ.value) then
      if |fs| < 8 then Err(ValueError)
      else
        var pAddr :- Number(fs[4], UINT64);
        var size :- Number(fs[5], UINT32);
        var flags :- Number(fs[6], UINT32);
        var delay :- Number(fs[7], UINT64);
        Ok(Record(seqNum, Some(pc), Some(weight), typ.value, Some(pAddr), Some(size), Some(flags), delay, [], []))
    else
      var f4 :- Field(fs, 4);
      var delay :- Number(f4, UINT64);
      Ok(Record(seqNum, Some(pc), Some(weight), typ.value, None, None, None, delay, [], []))
  }

  function ParseLine(line: string): Result<Record> {
    var parts := Split(Strip(line), ':');
    if |parts| != 3 then Err(ValueError)
    else
      var r :- ParseFields(Split(parts[0], ','));
      var rob :- ParseDeps(Split(Strip(parts[1]), ','));
      var reg :- ParseDeps(Split(parts[2], ','));
      Ok(r.(robDep := rob, regDep := reg))
  }

  method ReadDeps(items: seq<string>) returns (r: Result<seq<nat>>)
    ensures r == ParseDeps(items)
  {
    var deps: seq<nat> := [];
    for i := 0 to |items|
      invariant ParseDeps(items[..i]) == Ok(deps)
    {
      assert items[..i + 1][..i] == items[..i];
      if items[i] != "" {
        var n := Number(items[i], UINT64);
        if n.Err? {
          DepsFailLate(items, i + 1);
          return Err(n.error);
        }
        deps := deps + [n.value];
      }
    }
    assert items[..|items|] == items;
    r := Ok(deps);
  }

  /** Once an item fails, later items do not matter. */
  lemma {:induction false} DepsFailLate(items: seq<string>, n: nat)
    requires n <= |items| && ParseDeps(items[..n]).Err?
    ensures ParseDeps(items) == ParseDeps(items[..n])
  {
    if n == |items| {
      assert items[..n] == items;
    } else {
      var front := items[..|items| - 1];
      assert front[..n] == items[..n];
      DepsFailLate(front, n);
    }
  }

  /** Reads one line of a trace. */
  method ReadRecord(line: string) returns (r: Result<Record>)
    ensures r == ParseLine(line)
  {
    hide ParseFields, ParseDeps;
    var parts := Split(Strip(line), ':');
    if |parts| != 3 {
      return Err(ValueError);
    }
    r := ParseFields(Split(parts[0], ','));
    if r.Err? {
      return;
    }
    var rob := ReadDeps(Split(Strip(parts[1]), ','));
    if rob.Err? {
      return Err(rob.error);
    }
    var reg := ReadDeps(Split(parts[2], ','));
    if reg.Err? {
      return Err(reg.error);
    }
    r := Ok(r.value.(robDep := rob.value, regDep := reg.value));
  }

  // ----- Parsing undoes printing

  /** Printing makes the defaults explicit. */
  function Explicit(r: Record): Record {
    r.(pc := Some(OrElse(r.pc, 0)), weight := Some(OrElse(r.weight, 1)))
  }

  /** Address, size and flags are all there for a load or store and all missing otherwise. */
  predicate WellShaped(r: Record) {
    && r.typ != INVALID
    && (if IsMemory(r.typ) then r.pAddr.Some? && r.size.Some? && r.flags.Some?
        else r.pAddr.None? && r.size.None? && r.flags.None?)
  }

  lemma NumberDecimal(n: nat, limit: int)
    requires n < limit
    ensures Number(Decimal(n), limit) == Ok(n)
  {
    IntDecimal(n);
  }

  lemma TypeOfName(t: RecordType)
    ensures TypeOf(Name(t)) == Some(t)
  {
  }

  /** The first four fields come back, whatever follows them. */
  lemma HeadParses(r: Record)
    requires Fits(r)
    ensures var fs := Fields(r);
            && Number(fs[0], UINT64) == Ok(r.seqNum) && Number(fs[1], UINT64) == Ok(OrElse(r.pc, 0))
            && Number(fs[2], UINT32) == Ok(OrElse(r.weight, 1)) && TypeOf(fs[3]) == Some(r.typ)
  {
    NumberDecimal(r.seqNum, UINT64);
    NumberDecimal(OrElse(r.pc, 0), UINT64);
    NumberDecimal(OrElse(r.weight, 1), UINT32);
    TypeOfName(r.typ);
  }

  lemma MemoryFieldsParse(r: Record)
    requires Fits(r) && WellShaped(r) && IsMemory(r.typ)
    ensures ParseFields(Fields(r)) == Ok(Explicit(r).(robDep := [], regDep := []))
  {
    hide Number, TypeOf, Name, Decimal;
    HeadParses(r);
    NumberDecimal(r.pAddr.value, UINT64);
    NumberDecimal(r.size.value, UINT32);
    NumberDecimal(r.flags.value, UINT32);
    NumberDecimal(r.compDelay, UINT64);
    var fs := Fields(r);
    assert |fs| == 8 && fs[4] == Decimal(r.pAddr.value) && fs[5] == Decimal(r.size.value);
    assert fs[6] == Decimal(r.flags.value) && fs[7] == Decimal(r.compDelay);
  }

  lemma OtherFieldsParse(r: Record)
    requires Fits(r) && WellShaped(r) && !IsMemory(r.typ)
    ensures ParseFields(Fields(r)) == Ok(Explicit(r).(robDep := [], regDep := []))
  {
    hide Number, TypeOf, Name, Decimal;
    HeadParses(r);
    NumberDecimal(r.compDelay, UINT64);
    var fs := Fields(r);
    assert |fs| == 5 && fs[4] == Decimal(r.compDelay);
  }

  lemma IllShapedFieldsFail(r: Record)
    requires Fits(r) && !WellShaped(r)
    ensures ParseFields(Fields(r)).Err? || ParseFields(Fields(r)).value.pAddr != r.pAddr
         || ParseFields(Fields(r)).value.size != r.size || ParseFields(Fields(r)).value.flags != r.flags
  {
    hide Number, TypeOf, Name, Decimal;
    HeadParses(r);
  }

  lemma {:induction false} DepsParse(deps: seq<nat>)
    requires forall i :: 0 <= i < |deps| ==> deps[i] < UINT64
    ensures ParseDeps(Split(DepText(deps), ',')) == Ok(deps)
  {
    if deps == [] {
      assert Split("", ',') == [""];
      assert ParseDeps([""][..0]) == Ok([]);
    } else {
      var front, last := deps[..|deps| - 1], deps[|deps| - 1];
      DepsParse(front);
      DigitsOnly(last, ',');
      SplitCut(DepText(front), Decimal(last), ',');
      var items := Split(DepText(front), ',');
      assert (items + [Decimal(last)])[..|items|] == items;
      NumberDecimal(last, UINT64);
      assert deps == front + [last];
    }
  }

  lemma DigitsOnly(n: nat, c: char)
    requires !IsDigit(c)
    ensures c !in Decimal(n)
  {
  }

  lemma {:induction false} DepTextPlain(deps: seq<nat>, c: char)
    requires !IsDigit(c) && c != ','
    ensures c !in DepText(deps)
    ensures DepText(deps) != "" ==> IsDigit(DepText(deps)[|DepText(deps)| - 1]) && DepText(deps)[0] == ','
  {
    if deps != [] {
      DepTextPlain(deps[..|deps| - 1], c);
      DigitsOnly(deps[|deps| - 1], c);
    }
  }

  lemma {:induction false} JoinPlain(parts: seq<string>, sep: char, c: char)
    requires c != sep && forall i :: 0 <= i < |parts| ==> c !in parts[i]
    ensures c !in Join(parts, sep)
  {
    if |parts| > 1 {
      JoinPlain(parts[..|parts| - 1], sep, c);
    }
  }

  lemma FieldsPlain(r: Record, i: nat)
    requires i < |Fields(r)|
    ensures ':' !in Fields(r)[i] && ',' !in Fields(r)[i]
  {
    if i == 3 {
      assert Fields(r)[3] == Name(r.typ);
    } else {
      var n :| Fields(r)[i] == Decimal(n);
      DigitsOnly(n, ':');
      DigitsOnly(n, ',');
    }
  }

  lemma LineSplits(r: Record)
    ensures Split(Line(r), ':') == [Join(Fields(r), ','), DepText(r.robDep), DepText(r.regDep)]
    ensures Split(Join(Fields(r), ','), ',') == Fields(r)
  {
    hide Fields, DepText;
    forall i | 0 <= i < |Fields(r)| ensures ':' !in Fields(r)[i] && ',' !in Fields(r)[i] {
      FieldsPlain(r, i);
    }
    SplitJoin(Fields(r), ',');
    JoinPlain(Fields(r), ',', ':');
    DepTextPlain(r.robDep, ':');
    DepTextPlain(r.regDep, ':');
    var head, rob, reg := Join(Fields(r), ','), DepText(r.robDep), DepText(r.regDep);
    assert Line(r) == (head + ":" + rob) + ":" + reg;
    SplitCut(head + ":" + rob, reg, ':');
    SplitCut(head, rob, ':');
    SplitNone(head, ':');
  }

  lemma {:induction false} JoinFirst(parts: seq<string>, sep: char)
    requires parts != [] && parts[0] != ""
    ensures Join(parts, sep) != "" && Join(parts, sep)[0] == parts[0][0]
  {
    if |parts| > 1 {
      JoinFirst(parts[..|parts| - 1], sep);
    }
  }

  lemma LineTrimmed(r: Record)
    ensures Line(r) != "" && Trimmed(Line(r)) && Trimmed(DepText(r.robDep))
  {
    hide Fields, DepText, Join;
    FirstField(r);
    JoinFirst(Fields(r), ',');
    DepTextPlain(r.robDep, ':');
    DepTextPlain(r.regDep, ':');
    assert IsDigit(Line(r)[0]);
    assert DepText(r.regDep) == "" ==> Line(r)[|Line(r)| - 1] == ':';
  }

  lemma FirstField(r: Record)
    ensures Fields(r)[0] != "" && IsDigit(Fields(r)[0][0])
  {
    assert Fields(r)[0] == Decimal(r.seqNum);
  }

  /** The dependencies parse whatever the other fields are. */
  lemma LineParses(r: Record)
    requires Fits(r)
    ensures var f := ParseFields(Fields(r));
            ParseLine(Line(r) + "\n") == if f.Err? then f else Ok(f.value.(robDep := r.robDep, regDep := r.regDep))
  {
    hide Fields, DepText, Join, ParseFields, ParseDeps, Line, Split;
    LineTrimmed(r);
    StripNewline(Line(r));
    StripTrimmed(DepText(r.robDep));
    LineSplits(r);
    DepsParse(r.robDep);
    DepsParse(r.regDep);
  }

  lemma RecordComesBack(r: Record)
    requires Fits(r)
    ensures ParseLine(Line(r) + "\n") == Ok(Explicit(r)) <==> WellShaped(r)
  {
    hide ParseFields, Fields, Line, ParseLine;
    LineParses(r);
    if !WellShaped(r) {
      IllShapedFieldsFail(r);
    } else if IsMemory(r.typ) {
      MemoryFieldsParse(r);
    } else {
      OtherFieldsParse(r);
    }
  }

  /** Parsing a printed line gives back the record, with the defaults made explicit, if and
      only if it is of a valid type and has address, size and flags exactly when it is a load
      or a store. Dependency lists may have any length. */
  lemma RecordRoundTrip(r: Record)
    requires Within(r, 0x1_0000_0000, 0x1_0000_0000_0000_0000)
    ensures ParseLine(Line(r) + "\n")
              == Ok(r.(pc := Some(if r.pc.Some? then r.pc.value else 0),
                       weight := Some(if r.weight.Some? then r.weight.value else 1)))
       <==> && r.typ != INVALID
            && (r.pAddr.Some? <==> r.typ == LOAD || r.typ == STORE)
            && (r.size.Some? <==> r.typ == LOAD || r.typ == STORE)
            && (r.flags.Some? <==> r.typ == LOAD || r.typ == STORE)
  {
    hide Line, ParseLine;
    RecordComesBack(r);
  }

  /** A printed line, field by field: three parts between colons, the first with the fields in
      this order between commas, the others with a comma before every number. */
  lemma LinePlaces(r: Record)
    ensures var parts := Split(Line(r), ':');
            var fs := Split(parts[0], ',');
            && |parts| == 3 && |fs| >= 5
            && fs[0] == Decimal(r.seqNum)
            && fs[1] == Decimal(if r.pc.Some? then r.pc.value else 0)
            && fs[2] == Decimal(if r.weight.Some? then r.weight.value else 1)
            && (r.typ == LOAD ==> fs[3] == "LOAD") && (r.typ == STORE ==> fs[3] == "STORE")
            && (r.typ == COMP ==> fs[3] == "COMP") && (r.typ == INVALID ==> fs[3] == "INVALID")
            && fs[|fs| - 1] == Decimal(r.compDelay)
            && (r.pAddr.None? && r.size.None? && r.flags.None? ==> |fs| == 5)
            && (r.pAddr.Some? && r.size.Some? && r.flags.Some? ==>
                  && |fs| == 8 && fs[4] == Decimal(r.pAddr.value) && fs[5] == Decimal(r.size.value)
                  && fs[6] == Decimal(r.flags.value))
            && |Split(parts[1], ',')| == |r.robDep| + 1 && |Split(parts[2], ',')| == |r.regDep| + 1
            && Split(parts[1], ',')[0] == "" && Split(parts[2], ',')[0] == ""
            && (forall i :: 0 <= i < |r.robDep| ==> Split(parts[1], ',')[i + 1] == Decimal(r.robDep[i]))
            && (forall i :: 0 <= i < |r.regDep| ==> Split(parts[2], ',')[i + 1] == Decimal(r.regDep[i]))
  {
    hide Decimal, Split, DepText, Line;
    LineSplits(r);
    DepsPlaces(r.robDep);
    DepsPlaces(r.regDep);
  }

  lemma {:induction false} DepsPlaces(deps: seq<nat>)
    ensures |Split(DepText(deps), ',')| == |deps| + 1 && Split(DepText(deps), ',')[0] == ""
    ensures forall i :: 0 <= i < |deps| ==> Split(DepText(deps), ',')[i + 1] == Decimal(deps[i])
  {
    if deps != [] {
      hide Decimal, Split;
      var front, last := deps[..|deps| - 1], deps[|deps| - 1];
      DepsPlaces(front);
      DigitsOnly(last, ',');
      SplitCut(DepText(front), Decimal(last), ',');
    }
  }

  /** Printing what was parsed prints the same line. */
  lemma ExplicitPrintsSame(r: Record)
    ensures Line(Explicit(r)) == Line(r) && Explicit(Explicit(r)) == Explicit(r)
  {
  }

  lemma NumberFits(s: string, limit: int)
    ensures Number(s, limit).Ok? ==> Number(s, limit).value < limit
  {
  }

  lemma {:induction false} DepsFit(items: seq<string>)
    ensures ParseDeps(items).Ok? ==>
              forall i :: 0 <= i < |ParseDeps(items).value| ==> ParseDeps(items).value[i] < 0x1_0000_0000_0000_0000
  {
    hide Number;
    if items != [] {
      DepsFit(items[..|items| - 1]);
      NumberFits(items[|items| - 1], 0x1_0000_0000_0000_0000);
    }
  }

  lemma FieldsFit(fs: seq<string>)
    ensures ParseFields(fs).Ok? ==> Within(ParseFields(fs).value, 0x1_0000_0000, 0x1_0000_0000_0000_0000)
  {
    hide Int, TypeOf;
  }

  /** A line with a number that is negative or too large for its field is rejected: what parses
      fits 32 and 64 bits. */
  lemma ParsedFits(line: string)
    ensures ParseLine(line).Ok? ==> Within(ParseLine(line).value, 0x1_0000_0000, 0x1_0000_0000_0000_0000)
  {
    hide ParseFields, ParseDeps, Split, Strip;
    var parts := Split(Strip(line), ':');
    if |parts| == 3 {
      FieldsFit(Split(parts[0], ','));
      DepsFit(Split(Strip(parts[1]), ','));
      DepsFit(Split(parts[2], ','));
    }
  }

  /** What parses has the shape of its type, so it prints five fields or eight. */
  lemma ParsedShape(fs: seq<string>)
    requires ParseFields(fs).Ok?
    ensures WellShaped(ParseFields(fs).value)
  {
    hide Number, TypeOf;
  }

  lemma ShapedFields(r: Record)
    ensures WellShaped(r) ==> |Fields(r)| == if IsMemory(r.typ) then 8 else 5
    ensures r.typ != INVALID && !WellShaped(r) ==> |Fields(r)| != if IsMemory(r.typ) then 8 else 5
  {
    hide Decimal, Name;
  }

  lemma ParsedType(r: Record)
    requires Fits(r) && ParseFields(Fields(r)).Ok?
    ensures ParseFields(Fields(r)).value.typ == r.typ && r.typ != INVALID
  {
    hide Number, TypeOf, Name, Decimal;
    HeadParses(r);
  }

  /** Parsing a printed line and printing again gives the same line if and only if the record has
      the shape of its type; a record of another shape fails or loses fields. */
  lemma LineSurvivesIff(r: Record)
    requires Fits(r)
    ensures ParseLine(Line(r) + "\n").Ok? && Line(ParseLine(Line(r) + "\n").value) == Line(r) <==> WellShaped(r)
  {
    hide ParseFields, Fields, Line, ParseLine;
    if WellShaped(r) {
      RecordComesBack(r);
      ExplicitPrintsSame(r);
    } else {
      LineParses(r);
      if ParseFields(Fields(r)).Ok? {
        var f := ParseFields(Fields(r)).value;
        var back := f.(robDep := r.robDep, regDep := r.regDep);
        ParsedShape(Fields(r));
        ParsedType(r);
        ShapedFields(r);
        ShapedFields(back);
        LineSplits(r);
        LineSplits(back);
      }
    }
  }
}
