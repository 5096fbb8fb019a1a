/** The two trace converters end to end: text lines to a framed binary file and back. The
    serialisation of one record to bytes is the protobuf library's and stays a parameter. */
module TraceFile {
  import opened PyText
  import opened Varint
  import opened DepTrace

  const MAGIC: seq<byte> := [0x67, 0x65, 0x6d, 0x35]

  /** The bytes of an ASCII text. */
  function Bytes(s: string): seq<byte> {
    if s == "" then [] else [s[0] as int % 256] + Bytes(s[1..])
  }

  lemma MagicIsGem5()
    ensures MAGIC == Bytes("gem5")
  {
    assert "gem5"[1..] == "em5" && "em5"[1..] == "m5" && "m5"[1..] == "5" && "5"[1..] == "";
    assert Bytes("5") == [0x35];
    assert Bytes("m5") == [0x6d, 0x35];
    assert Bytes("em5") == [0x65, 0x6d, 0x35];
  }

  /** A file that does not start with those four bytes is rejected. */
  lemma OtherMagic(file: seq<byte>)
    ensures DecodeFile(file) == Unrecognized <==> !(Bytes("gem5") <= file)
  {
    MagicIsGem5();
    assert |file| >= 4 && file[..4] == MAGIC ==> MAGIC <= file;
  }

  // ----- The binary file

  function EncodeFile(header: seq<byte>, payloads: seq<seq<byte>>): seq<byte> {
    MAGIC + EncodeMessage(header) + EncodeAll(payloads)
  }

  /** What is left of the file after an attempt to read one message. */
  function AfterMessage(s: seq<byte>): seq<byte> {
    var f := DecodeMessage(s);
    if f.Message? then f.rest
    else
      match Decode(s)
      case Number(_, used) => if used <= |s| then s[used..] else []
      case EndOfFile => []
      case TooManyBytes => if |s| >= 10 then s[10..] else []
  }

  datatype Contents = Payloads(payloads: seq<seq<byte>>) | Unrecognized

  /** Checks the magic number, skips the header and reads the messages. */
  function DecodeFile(file: seq<byte>): Contents {
    if |file| < 4 || file[..4] != MAGIC then Unrecognized
    else Payloads(ReadAll(AfterMessage(file[4..])))
  }

  /** With a header that is not empty, a file gives back its messages if and only if none of
      them is empty or too long. */
  lemma FileRoundTrip(header: seq<byte>, payloads: seq<seq<byte>>)
    requires 0 < |header| < 0x1_0000_0000
    requires forall i :: 0 <= i < |payloads| ==> |payloads[i]| < 0x8000_0000_0000_0000
    ensures EncodeFile(header, payloads) == Bytes("gem5") + EncodeMessage(header) + EncodeAll(payloads)
    ensures DecodeFile(EncodeFile(header, payloads)) == Payloads(payloads)
       <==> forall i :: 0 <= i < |payloads| ==> 0 < |payloads[i]| < 0x1_0000_0000
  {
    hide EncodeMessage, EncodeAll, DecodeMessage, ReadAll;
    MagicIsGem5();
    var file := EncodeFile(header, payloads);
    assert file[4..] == EncodeMessage(header) + EncodeAll(payloads);
    assert file[..4] == MAGIC;
    WholePayload(header, EncodeAll(payloads));
    FramesRoundTrip(payloads);
  }

  lemma FileReads(header: seq<byte>, payloads: seq<seq<byte>>)
    requires Framable(header) && forall i :: 0 <= i < |payloads| ==> Framable(payloads[i])
    ensures DecodeFile(EncodeFile(header, payloads)) == Payloads(payloads)
  {
    hide DecodeFile, EncodeFile;
    FileRoundTrip(header, payloads);
  }

  // ----- Text to binary and back

  /** Parsing stops at the first line that is not a record. */
  function ParseLines(lines: seq<string>): Result<seq<Record>> {
    if lines == [] then Ok([])
    else
      var front :- ParseLines(lines[..|lines| - 1]);
      var r :- ParseLine(lines[|lines| - 1]);
      Ok(front + [r])
  }

  function TextOf(rs: seq<Record>): (lines: seq<string>)
    ensures |lines| == |rs|
  {
    if rs == [] then [] else TextOf(rs[..|rs| - 1]) + [Line(rs[|rs| - 1]) + "\n"]
  }

  function Map<A, B>(f: A -> B, s: seq<A>): (t: seq<B>)
    ensures |t| == |s| && forall i :: 0 <= i < |s| ==> t[i] == f(s[i])
  {
    if s == [] then [] else Map(f, s[..|s| - 1]) + [f(s[|s| - 1])]
  }

  /** The encoder: one message per line. */
  method TextToBinary(lines: seq<string>, header: seq<byte>, serialize: Record -> seq<byte>)
    returns (out: Result<seq<byte>>)
    ensures out == var rs := ParseLines(lines);
                   if rs.Ok? then Ok(EncodeFile(header, Map(serialize, rs.value))) else Err(rs.error)
  {
    hide ParseLine;
    var records: seq<Record> := [];
    for i := 0 to |lines|
      invariant ParseLines(lines[..i]) == Ok(records)
    {
      assert lines[..i + 1][..i] == lines[..i];
      var r := ReadRecord(lines[i]);
      if r.Err? {
        LinesFailLate(lines, i + 1);
        return Err(r.error);
      }
      records := records + [r.value];
    }
    assert lines[..|lines|] == lines;
    out := Ok(EncodeFile(header, Map(serialize, records)));
  }

  lemma {:induction false} LinesFailLate(lines: seq<string>, n: nat)
    requires n <= |lines| && ParseLines(lines[..n]).Err?
    ensures ParseLines(lines) == ParseLines(lines[..n])
  {
    hide ParseLine;
    if n == |lines| {
      assert lines[..n] == lines;
    } else {
      var front := lines[..|lines| - 1];
      assert front[..n] == lines[..n];
      LinesFailLate(front, n);
    }
  }

  /** How decoding ends: at the end of the messages, at a file that is no trace, or at a payload
      that cannot be parsed. */
  datatype Ending = Done | NotATrace | ParseError

  /** The records of the payloads before the first that cannot be parsed. */
  function Parsed(parse: seq<byte> -> Option<Record>, payloads: seq<seq<byte>>): (rs: seq<Record>)
    ensures |rs| <= |payloads|
  {
    if payloads == [] then []
    else
      var n := |payloads| - 1;
      var rs, last := Parsed(parse, payloads[..n]), parse(payloads[n]);
      if |rs| == n && last.Some? then rs + [last.value] else rs
  }

  lemma {:induction false} ParsedStops(parse: seq<byte> -> Option<Record>, payloads: seq<seq<byte>>, n: nat)
    requires n <= |payloads| && |Parsed(parse, payloads[..n])| < n
    ensures Parsed(parse, payloads) == Parsed(parse, payloads[..n])
  {
    if n == |payloads| {
      assert payloads[..n] == payloads;
    } else {
      assert payloads[..|payloads| - 1][..n] == payloads[..n];
      ParsedStops(parse, payloads[..|payloads| - 1], n);
    }
  }

  /** The decoder: one line per message, up to the first that cannot be parsed. */
  method BinaryToText(file: seq<byte>, parse: seq<byte> -> Option<Record>) returns (lines: seq<string>, out: Ending)
    ensures out == NotATrace <==> !DecodeFile(file).Payloads?
    ensures out != NotATrace ==>
              var payloads := DecodeFile(file).payloads;
              && lines == TextOf(Parsed(parse, payloads))
              && (out == Done <==> |Parsed(parse, payloads)| == |payloads|)
  {
    hide Line, ReadAll, AfterMessage;
    lines := [];
    if |file| < 4 || file[..4] != MAGIC {
      return [], NotATrace;
    }
    var payloads := ReadMessages(AfterMessage(file[4..]));
    ghost var records: seq<Record> := [];
    for i := 0 to |payloads|
      invariant records == Parsed(parse, payloads[..i]) && |records| == i && lines == TextOf(records)
    {
      assert payloads[..i + 1][..i] == payloads[..i];
      var r := parse(payloads[i]);
      if r.None? {
        ParsedStops(parse, payloads, i + 1);
        return lines, ParseError;
      }
      var line := PrintRecord(r.value);
      TextSnoc(records, r.value);
      records := records + [r.value];
      lines := lines + [line];
    }
    assert payloads[..|payloads|] == payloads;
    out := Done;
  }

  lemma TextSnoc(rs: seq<Record>, r: Record)
    ensures TextOf(rs + [r]) == TextOf(rs) + [Line(r) + "\n"]
  {
    assert (rs + [r])[..|rs|] == rs;
  }

  lemma {:induction false} TextParses(rs: seq<Record>)
    requires forall i :: 0 <= i < |rs| ==> Fits(rs[i]) && WellShaped(rs[i])
    ensures ParseLines(TextOf(rs)) == Ok(Map(Explicit, rs)) && TextOf(Map(Explicit, rs)) == TextOf(rs)
  {
    hide Line, ParseLine, Fits, WellShaped, Explicit;
    if rs != [] {
      var front, last := rs[..|rs| - 1], rs[|rs| - 1];
      TextParses(front);
      RecordComesBack(last);
      ExplicitPrintsSame(last);
      var lines := TextOf(front);
      assert TextOf(rs)[..|lines|] == lines;
      TextSnoc(Map(Explicit, front), Explicit(last));
    }
  }

  /** The serialisation of these records can be undone and framed. */
  ghost predicate Faithful(serialize: Record -> seq<byte>, parse: seq<byte> -> Option<Record>, rs: seq<Record>) {
    forall i :: 0 <= i < |rs| ==> parse(serialize(rs[i])) == Some(rs[i]) && Framable(serialize(rs[i]))
  }

  /** Encoding these lines and decoding the file prints the very same lines. */
  ghost predicate Survive(lines: seq<string>, header: seq<byte>, serialize: Record -> seq<byte>,
                          parse: seq<byte> -> Option<Record>)
  {
    ParseLines(lines).Ok? &&
    var file := EncodeFile(header, Map(serialize, ParseLines(lines).value));
    && DecodeFile(file).Payloads?
    && |Parsed(parse, DecodeFile(file).payloads)| == |DecodeFile(file).payloads|
    && TextOf(Parsed(parse, DecodeFile(file).payloads)) == lines
  }

  lemma {:induction false} ParsedLines(lines: seq<string>, i: nat)
    requires ParseLines(lines).Ok?
    ensures |ParseLines(lines).value| == |lines|
    ensures i < |lines| ==> ParseLine(lines[i]) == Ok(ParseLines(lines).value[i])
  {
    hide ParseLine;
    if lines != [] {
      var front := lines[..|lines| - 1];
      ParsedLines(front, i);
    }
  }

  lemma {:induction false} TextAt(rs: seq<Record>, i: nat)
    requires i < |rs|
    ensures TextOf(rs)[i] == Line(rs[i]) + "\n"
  {
    hide Line;
    if i < |rs| - 1 {
      TextAt(rs[..|rs| - 1], i);
    }
  }

  lemma SameLine(a: string, b: string)
    requires a + "\n" == b + "\n"
    ensures a == b
  {
    assert (a + "\n")[..|a|] == a && (b + "\n")[..|b|] == b;
  }

  /** Lines that parse and print again as they were come from well-shaped records. */
  lemma SurvivorShaped(rs: seq<Record>, i: nat)
    requires ParseLines(TextOf(rs)).Ok? && TextOf(ParseLines(TextOf(rs)).value) == TextOf(rs)
    requires i < |rs| && Fits(rs[i])
    ensures WellShaped(rs[i])
  {
    hide Line, ParseLine, ParseLines, TextOf, Fits, WellShaped;
    var back := ParseLines(TextOf(rs)).value;
    ParsedLines(TextOf(rs), i);
    TextAt(rs, i);
    TextAt(back, i);
    SameLine(Line(back[i]), Line(rs[i]));
    LineSurvivesIff(rs[i]);
  }

  /** A printed trace survives the trip through the binary format if and only if every record has
      the shape of its type. */
  lemma TextSurvives(rs: seq<Record>, header: seq<byte>, serialize: Record -> seq<byte>,
                     parse: seq<byte> -> Option<Record>)
    requires Framable(header) && forall i :: 0 <= i < |rs| ==> Fits(rs[i])
    requires ParseLines(TextOf(rs)).Ok? ==> Faithful(serialize, parse, ParseLines(TextOf(rs)).value)
    ensures Survive(TextOf(rs), header, serialize, parse) <==> forall i :: 0 <= i < |rs| ==> WellShaped(rs[i])
  {
    hide EncodeFile, DecodeFile, ParseLines, Parsed, TextOf, Fits, WellShaped, Framable, Faithful;
    if forall i :: 0 <= i < |rs| ==> WellShaped(rs[i]) {
      TextParses(rs);
    }
    if ParseLines(TextOf(rs)).Ok? {
      var records := ParseLines(TextOf(rs)).value;
      PayloadsComeBack(serialize, parse, records);
      FileReads(header, Map(serialize, records));
      if Survive(TextOf(rs), header, serialize, parse) {
        forall i | 0 <= i < |rs| ensures WellShaped(rs[i]) {
          SurvivorShaped(rs, i);
        }
      }
    }
  }

  lemma {:induction false} PayloadsComeBack(serialize: Record -> seq<byte>, parse: seq<byte> -> Option<Record>,
                                            records: seq<Record>)
    requires Faithful(serialize, parse, records)
    ensures var payloads := Map(serialize, records);
            && Parsed(parse, payloads) == records
            && (forall i :: 0 <= i < |payloads| ==> Framable(payloads[i]) && |payloads[i]| < SIGN64)
  {
    if records != [] {
      var n := |records| - 1;
      assert Map(serialize, records)[..n] == Map(serialize, records[..n]);
      PayloadsComeBack(serialize, parse, records[..n]);
      assert records == records[..n] + [records[n]];
    }
  }
}
