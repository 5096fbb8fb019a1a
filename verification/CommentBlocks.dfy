/** Finding the comment blocks at the head of a source file, where copyright notices live. */
module CommentBlocks {
  import opened PyText

  // ----- Lines

  predicate StartsWith(s: string, p: string) {
    |p| <= |s| && s[..|p|] == p
  }

  /** The position of the first `p` in `s`, or the length of `s` when there is none. */
  function Find(s: string, p: string): (n: nat)
    requires p != ""
    ensures n <= |s| && (n < |s| ==> StartsWith(s[n..], p)) && forall i :: 0 <= i < n ==> !StartsWith(s[i..], p)
  {
    if s == "" || StartsWith(s, p) then 0
    else
      var n := 1 + Find(s[1..], p);
      assert forall i :: 1 <= i < |s| ==> s[i..] == s[1..][i - 1..];
      n
  }

  predicate Contains(s: string, p: string)
    requires p != ""
  {
    Find(s, p) < |s|
  }

  predicate Blank(s: string) {
    Strip(s) == ""
  }

  function SkipSpaces(s: string): string {
    if s != "" && s[0] == ' ' then SkipSpaces(s[1..]) else s
  }

  /** An editor's mode line: `-*-`, blanks, `mode:` and a later `-*-`. */
  predicate ModeLine(s: string) {
    s != "" && (ModeHere(s) || ModeLine(s[1..]))
  }

  predicate ModeHere(s: string) {
    StartsWith(s, "-*-") &&
    var rest := SkipSpaces(s[3..]);
    StartsWith(rest, "mode:") && Contains(rest[5..], "-*-")
  }

  predicate ShellComment(s: string) {
    StartsWith(StripLeft(s), "#")
  }

  predicate LispComment(s: string) {
    Contains(s, ";")
  }

  // ----- Line comments: shell and Lisp

  datatype Block = Block(first: int, last: int)

  /** Blocks within the file, in order and disjoint. */
  ghost predicate InOrder(blocks: seq<Block>, bound: int) {
    && (forall k :: 0 <= k < |blocks| ==> 0 <= blocks[k].first <= blocks[k].last < bound)
    && (forall j, k :: 0 <= j < k < |blocks| ==> blocks[j].last < blocks[k].first)
  }

  ghost predicate Inside(blocks: seq<Block>, i: int) {
    exists k :: 0 <= k < |blocks| && blocks[k].first <= i <= blocks[k].last
  }

  /** Line `i` ends the scan: it is code, and no comment run ends right before it. */
  predicate Halts(lines: seq<string>, comment: string -> bool, from: int, i: int)
    requires 0 <= from <= i < |lines|
  {
    !comment(lines[i]) && !Blank(lines[i]) && (i == from || !comment(lines[i - 1]))
  }

  /** A maximal run of comment lines that is followed by another line and is reached before
      the scan ends. */
  ghost predicate IsBlock(lines: seq<string>, comment: string -> bool, from: int, b: Block)
    requires 0 <= from <= |lines|
  {
    && from <= b.first <= b.last < |lines| - 1
    && (forall i :: b.first <= i <= b.last ==> comment(lines[i]))
    && !comment(lines[b.last + 1])
    && (b.first == from || !comment(lines[b.first - 1]))
    && (forall i :: from <= i <= b.last ==> !Halts(lines, comment, from, i))
  }

  /** The open run of comment lines just before line `i`, if any. */
  ghost predicate OpenRun(lines: seq<string>, comment: string -> bool, from: int, i: int, start: Option<int>)
    requires 0 <= from <= i <= |lines|
  {
    match start
    case None => i == from || !comment(lines[i - 1])
    case Some(s) =>
      && from <= s < i && (s == from || !comment(lines[s - 1]))
      && forall k :: s <= k < i ==> comment(lines[k])
  }

  /** Collects the blocks. The result holds every block and nothing else; a run that reaches
      the end of the file is not reported. */
  method ScanRuns(lines: seq<string>, skipFirst: bool, comment: string -> bool) returns (blocks: seq<Block>)
    ensures InOrder(blocks, |lines|)
    ensures var from := if skipFirst && lines != [] then 1 else 0;
            forall b :: b in blocks <==> IsBlock(lines, comment, from, b)
  {
    hide Blank;
    blocks := [];
    var start: Option<int> := None;
    var from := if skipFirst && lines != [] then 1 else 0;
    var i := from;
    while i < |lines|
      invariant from <= i <= |lines| && OpenRun(lines, comment, from, i, start)
      invariant InOrder(blocks, if start.Some? then start.value else i)
      invariant forall k :: from <= k < i ==> !Halts(lines, comment, from, k)
      invariant forall b :: b in blocks <==> IsBlock(lines, comment, from, b) && b.last < i - 1
    {
      if comment(lines[i]) {
        if start.None? {
          start := Some(i);
        }
      } else if start.None? {
        if !Blank(lines[i]) {
          assert Halts(lines, comment, from, i);
          return;
        }
      } else {
        var b := Block(start.value, i - 1);
        assert IsBlock(lines, comment, from, b);
        blocks := blocks + [b];
        start := None;
      }
      i := i + 1;
    }
  }

  /** Shell, Python, make, Perl and SCons files. */
  method ScanShell(lines: seq<string>) returns (blocks: seq<Block>)
    ensures InOrder(blocks, |lines|)
    ensures var from := if lines != [] && (StartsWith(lines[0], "#!") || ModeLine(lines[0])) then 1 else 0;
            forall b :: b in blocks <==> IsBlock(lines, ShellComment, from, b)
  {
    blocks := ScanRuns(lines, lines != [] && (StartsWith(lines[0], "#!") || ModeLine(lines[0])), ShellComment);
  }

  method ScanLisp(lines: seq<string>) returns (blocks: seq<Block>)
    ensures InOrder(blocks, |lines|)
    ensures var from := if lines != [] && ModeLine(lines[0]) then 1 else 0;
            forall b :: b in blocks <==> IsBlock(lines, LispComment, from, b)
  {
    blocks := ScanRuns(lines, lines != [] && ModeLine(lines[0]), LispComment);
  }

  // ----- C and C++ comments

  predicate Cpp(s: string) { Contains(s, "//") }

  predicate COpen(s: string) { Contains(s, "/*") }

  predicate CClose(s: string) { Contains(s, "*/") }

  /** Nothing but blanks stands before the `//`. */
  predicate CppAlone(s: string) {
    Cpp(s) && Blank(s[..Find(s, "//")])
  }

  predicate StartsCopyright(s: string) {
    Cpp(s) && Find(s, "//") + 2 <= |s| && StartsWith(StripLeft(s[Find(s, "//") + 2..]), "Copyright")
  }

  /** From a line with an opening `/*` and no `//` to the first `*/` on a later line. */
  ghost predicate CBlock(lines: seq<string>, b: Block) {
    && 0 <= b.first < b.last < |lines| && COpen(lines[b.first]) && !Cpp(lines[b.first]) && CClose(lines[b.last])
    && forall i :: b.first < i < b.last ==> !CClose(lines[i])
  }

  /** A `//` comment on a line of its own. */
  predicate CppLine(s: string) {
    CppAlone(s) && !COpen(s)
  }

  /** A line that belongs to a group of `//` lines but does not start a notice of its own. */
  predicate CppMore(s: string) {
    Blank(s) || (CppLine(s) && !StartsCopyright(s))
  }

  /** A line before which a group of `//` lines is reported. */
  predicate CppEnds(s: string) {
    (CppLine(s) && StartsCopyright(s)) || (!Cpp(s) && !Blank(s))
  }

  /** A group of `//` lines, with blank lines allowed, up to the next copyright notice or the
      next line that is not a comment. */
  ghost predicate CppBlock(lines: seq<string>, b: Block) {
    && 0 <= b.first <= b.last < |lines| - 1 && CppLine(lines[b.first])
    && (forall i :: b.first < i <= b.last ==> CppMore(lines[i]))
    && CppEnds(lines[b.last + 1])
  }

  datatype Mode = Outside | InC | InCpp

  datatype End = EndOfFile | Code(line: int) | BothComments(line: int)

  /** Where the scan stands before line `i`. */
  ghost predicate Standing(lines: seq<string>, i: int, mode: Mode, start: int)
    requires 0 <= i <= |lines|
  {
    match mode
    case Outside => true
    case InC =>
      && 0 <= start < i && COpen(lines[start]) && !Cpp(lines[start])
      && forall k :: start < k < i ==> !CClose(lines[k])
    case InCpp => 0 <= start < i && CppLine(lines[start]) && forall k :: start < k < i ==> CppMore(lines[k])
  }

  ghost predicate AllKinds(lines: seq<string>, blocks: seq<Block>) {
    forall k :: 0 <= k < |blocks| ==> CBlock(lines, blocks[k]) || CppBlock(lines, blocks[k])
  }

  /** Every line before `i` that is not blank lies in a block or in the open one. */
  ghost predicate Accounted(lines: seq<string>, from: int, i: int, mode: Mode, start: int, blocks: seq<Block>)
    requires 0 <= from <= i <= |lines|
  {
    forall k :: from <= k < i && !Blank(lines[k]) ==> Inside(blocks, k) || (mode != Outside && start <= k)
  }

  /** The last line that the scan has looked at. */
  function Stop(lines: seq<string>, end: End): int {
    match end
    case EndOfFile => |lines|
    case Code(line) => line
    case BothComments(line) => line
  }

  /** The scan stops early only outside a C comment, at a line of code or at a line that opens
      both kinds of comment. Code without a `//` ends a group of `//` lines first. */
  ghost predicate StopsRightly(lines: seq<string>, mode: Mode, end: End) {
    match end
    case EndOfFile => true
    case Code(i) =>
      && 0 <= i < |lines| && mode != InC && !COpen(lines[i])
      && (if Cpp(lines[i]) then !CppAlone(lines[i]) else !Blank(lines[i]) && mode == Outside)
    case BothComments(i) => 0 <= i < |lines| && mode != InC && Cpp(lines[i]) && COpen(lines[i])
  }

  datatype Scan = Scan(mode: Mode, start: int, blocks: seq<Block>)

  ghost predicate Inv(lines: seq<string>, from: int, i: int, st: Scan)
    requires 0 <= from <= i <= |lines|
  {
    && Standing(lines, i, st.mode, st.start) && AllKinds(lines, st.blocks)
    && (st.mode != Outside ==> from <= st.start)
    && (forall k :: 0 <= k < |st.blocks| ==> from <= st.blocks[k].first)
    && InOrder(st.blocks, if st.mode == Outside then i else st.start)
    && Accounted(lines, from, i, st.mode, st.start, st.blocks)
  }

  function Yield(st: Scan, last: int): Scan {
    Scan(Outside, st.start, st.blocks + [Block(st.start, last)])
  }

  lemma InsideMore(blocks: seq<Block>, b: Block, k: int)
    requires Inside(blocks, k) || b.first <= k <= b.last
    ensures Inside(blocks + [b], k)
  {
    if Inside(blocks, k) {
      var j :| 0 <= j < |blocks| && blocks[j].first <= k <= blocks[j].last;
      assert (blocks + [b])[j] == blocks[j];
    } else {
      assert (blocks + [b])[|blocks|] == b;
    }
  }

  /** Reporting the open block ends it. */
  lemma YieldKeeps(lines: seq<string>, from: int, i: int, st: Scan, last: int)
    requires 0 <= from <= i <= |lines| && Inv(lines, from, i, st) && st.mode != Outside
    requires i - 1 <= last < |lines| && last <= i
    requires CBlock(lines, Block(st.start, last)) || CppBlock(lines, Block(st.start, last))
    ensures Inv(lines, from, last + 1, Yield(st, last))
  {
    hide Cpp, COpen, CClose, CppLine, CppMore, CppEnds, Blank, StartsCopyright;
    var b := Block(st.start, last);
    forall k | from <= k < last + 1 && !Blank(lines[k]) ensures Inside(st.blocks + [b], k) {
      InsideMore(st.blocks, b, k);
    }
  }

  /** One line of a C or C++ file. The three asserts on the state hold on every line. */
  method ScanLine(lines: seq<string>, ghost from: int, i: int, st: Scan) returns (st': Scan, end: End)
    requires 0 <= from <= i < |lines| && Inv(lines, from, i, st)
    ensures end == EndOfFile ==> Inv(lines, from, i + 1, st')
    ensures end != EndOfFile ==> Stop(lines, end) == i && Inv(lines, from, i, st')
    ensures StopsRightly(lines, st'.mode, end)
  {
    hide Cpp, COpen, CClose, CppAlone, Blank, StartsCopyright, AllKinds, InOrder, Accounted;
    var line := lines[i];
    st', end := st, EndOfFile;
    if st.mode == InC {
      assert 0 <= st.start;
      if CClose(line) {
        YieldKeeps(lines, from, i, st, i);
        st' := Yield(st, i);
      } else {
        OpenGrows(lines, from, i, st);
      }
      return;
    }
    if Cpp(line) {
      if COpen(line) {
        return st, BothComments(i);
      }
      if !CppAlone(line) {
        return st, Code(i);
      }
      if st.mode == Outside {
        OpenStarts(lines, from, i, st, InCpp);
        st' := Scan(InCpp, i, st.blocks);
      } else if StartsCopyright(line) {
        YieldKeeps(lines, from, i, st, i - 1);
        OpenStarts(lines, from, i, Yield(st, i - 1), InCpp);
        st' := Scan(InCpp, i, st.blocks + [Block(st.start, i - 1)]);
      } else {
        OpenGrows(lines, from, i, st);
      }
      return;
    }
    if st.mode == InCpp {
      assert 0 <= st.start;
      if Blank(line) {
        OpenGrows(lines, from, i, st);
        return;
      }
      YieldKeeps(lines, from, i, st, i - 1);
      st' := Yield(st, i - 1);
      if !COpen(line) {
        return st', Code(i);
      }
    }
    assert st'.mode == Outside;
    if COpen(line) {
      OpenStarts(lines, from, i, st', InC);
      st' := Scan(InC, i, st'.blocks);
    } else if !Blank(line) {
      end := Code(i);
    } else {
      BlankPasses(lines, from, i, st');
    }
  }

  lemma OpenGrows(lines: seq<string>, from: int, i: int, st: Scan)
    requires 0 <= from <= i < |lines| && Inv(lines, from, i, st) && st.mode != Outside
    requires st.mode == InC ==> !CClose(lines[i])
    requires st.mode == InCpp ==> CppMore(lines[i])
    ensures Inv(lines, from, i + 1, st)
  {
    hide Cpp, COpen, CClose, CppLine, CppMore, CppEnds, Blank, StartsCopyright;
  }

  lemma OpenStarts(lines: seq<string>, from: int, i: int, st: Scan, mode: Mode)
    requires 0 <= from <= i < |lines| && Inv(lines, from, i, st) && st.mode == Outside
    requires (mode == InC && COpen(lines[i]) && !Cpp(lines[i])) || (mode == InCpp && CppLine(lines[i]))
    ensures Inv(lines, from, i + 1, Scan(mode, i, st.blocks))
  {
  }

  lemma BlankPasses(lines: seq<string>, from: int, i: int, st: Scan)
    requires 0 <= from <= i < |lines| && Inv(lines, from, i, st) && st.mode == Outside && Blank(lines[i])
    ensures Inv(lines, from, i + 1, st)
  {
  }

  /** The result of a scan that looked at the lines from `from` on. */
  ghost predicate Scanned(lines: seq<string>, from: int, st: Scan, end: End)
    requires 0 <= from <= |lines|
  {
    && from <= Stop(lines, end) <= |lines|
    && StopsRightly(lines, st.mode, end) && Inv(lines, from, Stop(lines, end), st)
  }

  /** C, C++ and similar files. Every block is a C comment or a group of `//` lines, and every
      line the scan passed that is not blank lies in a block or in the one still open. */
  method ScanC(lines: seq<string>) returns (st: Scan, end: End)
    ensures Scanned(lines, if lines != [] && ModeLine(lines[0]) then 1 else 0, st, end)
  {
    hide ModeLine, Inv;
    st, end := Scan(Outside, -1, []), EndOfFile;
    var i := if lines != [] && ModeLine(lines[0]) then 1 else 0;
    ghost var from := i;
    InvStart(lines, from);
    while i < |lines|
      invariant from <= i <= |lines| && Inv(lines, from, i, st) && end == EndOfFile
    {
      st, end := ScanLine(lines, from, i, st);
      if end != EndOfFile {
        break;
      }
      i := i + 1;
    }
  }

  lemma InvStart(lines: seq<string>, from: int)
    requires 0 <= from <= |lines|
    ensures Inv(lines, from, from, Scan(Outside, -1, []))
  {
  }

  // ----- The result is determined

  lemma {:induction false} SomethingLeft(s: string, n: nat) returns (m: nat)
    requires n < |s| && !IsSpace(s[n])
    ensures m < |StripLeft(s)| && StripLeft(s)[m] == s[n]
  {
    m := n;
    if IsSpace(s[0]) {
      m := SomethingLeft(s[1..], n - 1);
    }
  }

  lemma {:induction false} SomethingRight(s: string, n: nat)
    requires n < |s| && !IsSpace(s[n])
    ensures StripRight(s) != ""
  {
    if IsSpace(s[|s| - 1]) {
      SomethingRight(s[..|s| - 1], n);
    }
  }

  /** A line that holds a comment sign is not blank. */
  lemma SignIsNotBlank(s: string, sign: string)
    requires sign != "" && !IsSpace(sign[0]) && Contains(s, sign)
    ensures !Blank(s)
  {
    var n := Find(s, sign);
    assert s[n..][..|sign|][0] == s[n];
    var m := SomethingLeft(s, n);
    SomethingRight(StripLeft(s), m);
  }

  lemma CommentIsNotBlank(s: string)
    ensures Cpp(s) || COpen(s) ==> !Blank(s)
    ensures !(CppMore(s) && CppEnds(s))
  {
    if Cpp(s) {
      SignIsNotBlank(s, "//");
    }
    if COpen(s) {
      SignIsNotBlank(s, "/*");
    }
  }

  ghost predicate Kind(lines: seq<string>, b: Block) {
    CBlock(lines, b) || CppBlock(lines, b)
  }

  /** Where a block starts determines where it ends. */
  lemma SameLast(lines: seq<string>, b: Block, c: Block)
    requires Kind(lines, b) && Kind(lines, c) && b.first == c.first
    ensures b == c
  {
    hide Cpp, COpen, CClose, CppAlone, Blank, StartsCopyright, CppMore, CppEnds;
    if CppBlock(lines, b) {
      CommentIsNotBlank(lines[b.last + 1]);
    }
    if CppBlock(lines, c) {
      CommentIsNotBlank(lines[c.last + 1]);
    }
    assert CppLine(lines[b.first]) ==> Cpp(lines[b.first]) by { Apart(lines[b.first]); }
  }

  lemma Apart(s: string)
    ensures CppLine(s) ==> Cpp(s) && CppAlone(s) && !COpen(s)
  {
  }

  /** Where the scan looks for block `k`: behind the block before it. */
  function At(from: int, blocks: seq<Block>, k: nat): int
    requires k <= |blocks|
  {
    if k == 0 then from else blocks[k - 1].last + 1
  }

  /** `x` is the first line from `p` on that is not blank. */
  ghost predicate FirstText(lines: seq<string>, p: int, x: int) {
    && 0 <= p <= x < |lines| && !Blank(lines[x])
    && forall j :: p <= j < x ==> Blank(lines[j])
  }

  /** Every reported block starts at the first line behind the one before that is not blank. */
  lemma BlockStarts(lines: seq<string>, from: int, st: Scan, end: End, k: nat)
    requires 0 <= from <= |lines| && Scanned(lines, from, st, end) && k < |st.blocks|
    ensures FirstText(lines, At(from, st.blocks, k), st.blocks[k].first) && Kind(lines, st.blocks[k])
  {
    hide Cpp, COpen, CClose, CppAlone, Blank, StartsCopyright, CppMore, CppEnds, StopsRightly;
    var p, b := At(from, st.blocks, k), st.blocks[k];
    assert Kind(lines, b);
    CommentIsNotBlank(lines[b.first]);
    Apart(lines[b.first]);
    forall j | p <= j < b.first ensures Blank(lines[j]) {
      NotInside(st.blocks, k, p, j);
    }
  }

  /** Nothing between two blocks lies inside one. */
  lemma NotInside(blocks: seq<Block>, k: nat, p: int, j: int)
    requires k <= |blocks| && p <= j && (k > 0 ==> p == blocks[k - 1].last + 1)
    requires forall a, b :: 0 <= a < b < |blocks| ==> blocks[a].last < blocks[b].first
    requires forall a :: 0 <= a < |blocks| ==> blocks[a].first <= blocks[a].last
    requires k < |blocks| ==> j < blocks[k].first
    ensures !Inside(blocks, j)
  {
    forall a | 0 <= a < |blocks| ensures !(blocks[a].first <= j <= blocks[a].last) {
      if a < k {
        assert a < k - 1 ==> blocks[a].last < blocks[k - 1].first;
      } else if a > k {
        assert blocks[k].last < blocks[a].first;
      }
    }
  }

  /** Behind the last reported block: an open block starts at the first line that is not blank,
      and without one the scan stops there. */
  lemma Remainder(lines: seq<string>, from: int, st: Scan, end: End)
    requires 0 <= from <= |lines| && Scanned(lines, from, st, end)
    ensures var p := At(from, st.blocks, |st.blocks|);
            && 0 <= p <= Stop(lines, end)
            && (st.mode != Outside ==> FirstText(lines, p, st.start))
            && (st.mode == Outside && end != EndOfFile ==> FirstText(lines, p, Stop(lines, end)))
            && (st.mode == Outside && end == EndOfFile ==> forall j :: p <= j < |lines| ==> Blank(lines[j]))
  {
    hide Cpp, COpen, CClose, CppAlone, Blank, StartsCopyright, CppMore, CppEnds;
    var n, stop := |st.blocks|, Stop(lines, end);
    var p := At(from, st.blocks, n);
    var x := if st.mode == Outside then stop else st.start;
    if x < |lines| {
      CommentIsNotBlank(lines[x]);
      Apart(lines[x]);
    }
    forall j | p <= j < x ensures Blank(lines[j]) {
      NotInside(st.blocks, n, p, j);
    }
  }

  lemma SameText(lines: seq<string>, p: int, x: int, y: int)
    requires FirstText(lines, p, x) && FirstText(lines, p, y)
    ensures x == y
  {
  }

  lemma {:induction false} SameBlocks(lines: seq<string>, from: int, a: Scan, ea: End, b: Scan, eb: End, n: nat)
    requires 0 <= from <= |lines| && Scanned(lines, from, a, ea) && Scanned(lines, from, b, eb)
    requires n <= |a.blocks| && n <= |b.blocks|
    ensures a.blocks[..n] == b.blocks[..n]
  {
    hide Scanned, Kind, FirstText;
    if n > 0 {
      SameBlocks(lines, from, a, ea, b, eb, n - 1);
      assert n > 1 ==> a.blocks[n - 2] == a.blocks[..n - 1][n - 2] && b.blocks[n - 2] == b.blocks[..n - 1][n - 2];
      BlockStarts(lines, from, a, ea, n - 1);
      BlockStarts(lines, from, b, eb, n - 1);
      SameText(lines, At(from, a.blocks, n - 1), a.blocks[n - 1].first, b.blocks[n - 1].first);
      SameLast(lines, a.blocks[n - 1], b.blocks[n - 1]);
    }
  }

  /** A scan that has reported its last block does not go past a line where a block that ends
      starts. */
  lemma NoBlockLeft(lines: seq<string>, from: int, st: Scan, end: End, b: Block)
    requires 0 <= from <= |lines| && Scanned(lines, from, st, end)
    requires FirstText(lines, At(from, st.blocks, |st.blocks|), b.first)
    ensures !Kind(lines, b)
  {
    hide Cpp, COpen, CClose, CppAlone, Blank, StartsCopyright, CppMore, CppEnds;
    if Kind(lines, b) {
      var p, stop := At(from, st.blocks, |st.blocks|), Stop(lines, end);
      Remainder(lines, from, st, end);
      Apart(lines[b.first]);
      if st.mode == Outside {
        if end != EndOfFile {
          SameText(lines, p, b.first, stop);
        }
      } else {
        SameText(lines, p, b.first, st.start);
        if st.mode == InCpp {
          OpenGroup(lines, stop, end, b);
        }
      }
      assert false;
    }
  }

  /** A line at which the scan stops with a group of `//` lines open neither continues the
      group nor ends it. */
  lemma StopLine(s: string)
    requires Cpp(s) && (COpen(s) || !CppAlone(s))
    ensures !CppMore(s) && !CppEnds(s)
  {
    CommentIsNotBlank(s);
  }

  lemma GroupStops(lines: seq<string>, end: End)
    requires StopsRightly(lines, InCpp, end)
    ensures Stop(lines, end) < |lines| ==>
              0 <= Stop(lines, end) && !CppMore(lines[Stop(lines, end)]) && !CppEnds(lines[Stop(lines, end)])
  {
    hide Cpp, COpen, CppAlone, Blank, CppMore, CppEnds;
    if end != EndOfFile {
      StopLine(lines[Stop(lines, end)]);
    }
  }

  /** A group of `//` lines that ends does not stay open. */
  lemma OpenGroup(lines: seq<string>, stop: int, end: End, b: Block)
    requires CppBlock(lines, b) && StopsRightly(lines, InCpp, end) && stop == Stop(lines, end)
    requires 0 <= stop <= |lines|
    ensures !Standing(lines, stop, InCpp, b.first)
  {
    hide CppLine, CppMore, CppEnds, StopsRightly;
    GroupStops(lines, end);
    CommentIsNotBlank(lines[b.last + 1]);
  }

  lemma NotFewer(lines: seq<string>, from: int, a: Scan, ea: End, b: Scan, eb: End)
    requires 0 <= from <= |lines| && Scanned(lines, from, a, ea) && Scanned(lines, from, b, eb)
    ensures |a.blocks| >= |b.blocks|
  {
    hide Scanned, Kind, FirstText;
    var n := |a.blocks|;
    if n < |b.blocks| {
      SameBlocks(lines, from, a, ea, b, eb, n);
      assert n > 0 ==> a.blocks[n - 1] == a.blocks[..n][n - 1] && b.blocks[n - 1] == b.blocks[..n][n - 1];
      BlockStarts(lines, from, b, eb, n);
      NoBlockLeft(lines, from, a, ea, b.blocks[n]);
      assert false;
    }
  }

  /** With the same blocks reported, a scan that ends outside a block leaves no other that ends
      inside one. */
  lemma OutsideAgrees(lines: seq<string>, from: int, a: Scan, ea: End, b: Scan, eb: End)
    requires 0 <= from <= |lines| && Scanned(lines, from, a, ea) && Scanned(lines, from, b, eb)
    requires a.blocks == b.blocks && a.mode == Outside
    ensures b.mode == Outside
  {
    hide Cpp, COpen, CClose, CppAlone, Blank, StartsCopyright, CppMore, CppEnds;
    if b.mode != Outside {
      Remainder(lines, from, a, ea);
      Remainder(lines, from, b, eb);
      Apart(lines[b.start]);
      if ea != EndOfFile {
        SameText(lines, At(from, a.blocks, |a.blocks|), b.start, Stop(lines, ea));
      }
      assert false;
    }
  }

  lemma OpenAgrees(lines: seq<string>, from: int, a: Scan, ea: End, b: Scan, eb: End)
    requires 0 <= from <= |lines| && Scanned(lines, from, a, ea) && Scanned(lines, from, b, eb)
    requires a.blocks == b.blocks && a.mode != Outside && b.mode != Outside
    ensures a.mode == b.mode && a.start == b.start
  {
    hide Cpp, COpen, CClose, CppAlone, Blank, StartsCopyright, CppMore, CppEnds;
    Remainder(lines, from, a, ea);
    Remainder(lines, from, b, eb);
    SameText(lines, At(from, a.blocks, |a.blocks|), a.start, b.start);
    Apart(lines[a.start]);
  }

  lemma StopAgrees(lines: seq<string>, from: int, a: Scan, ea: End, b: Scan, eb: End)
    requires 0 <= from <= |lines| && Scanned(lines, from, a, ea) && Scanned(lines, from, b, eb)
    requires a.blocks == b.blocks && a.mode == b.mode && (a.mode != Outside ==> a.start == b.start)
    ensures Stop(lines, ea) == Stop(lines, eb)
  {
    hide Cpp, COpen, CClose, CppAlone, Blank, StartsCopyright, CppMore, CppEnds, CppLine;
    if a.mode == Outside {
      Remainder(lines, from, a, ea);
      Remainder(lines, from, b, eb);
      if ea != EndOfFile && eb != EndOfFile {
        SameText(lines, At(from, a.blocks, |a.blocks|), Stop(lines, ea), Stop(lines, eb));
      }
    } else if a.mode == InCpp {
      GroupStops(lines, ea);
      GroupStops(lines, eb);
    }
  }

  lemma EndAgrees(lines: seq<string>, mode: Mode, ea: End, eb: End)
    requires StopsRightly(lines, mode, ea) && StopsRightly(lines, mode, eb) && Stop(lines, ea) == Stop(lines, eb)
    ensures ea == eb
  {
  }

  /** The contract leaves nothing open: it determines the blocks, the block that stays open, and
      where and why the scan stops. */
  lemma ScanIsDetermined(lines: seq<string>, from: int, a: Scan, ea: End, b: Scan, eb: End)
    requires 0 <= from <= |lines| && Scanned(lines, from, a, ea) && Scanned(lines, from, b, eb)
    ensures a.blocks == b.blocks && a.mode == b.mode && ea == eb && (a.mode != Outside ==> a.start == b.start)
  {
    hide Inv, StopsRightly;
    var n := |a.blocks|;
    NotFewer(lines, from, a, ea, b, eb);
    NotFewer(lines, from, b, eb, a, ea);
    SameBlocks(lines, from, a, ea, b, eb, n);
    assert a.blocks[..n] == a.blocks && b.blocks[..n] == b.blocks;
    if a.mode == Outside {
      OutsideAgrees(lines, from, a, ea, b, eb);
    } else {
      if b.mode == Outside {
        OutsideAgrees(lines, from, b, eb, a, ea);
      }
      OpenAgrees(lines, from, a, ea, b, eb);
    }
    StopAgrees(lines, from, a, ea, b, eb);
    EndAgrees(lines, a.mode, ea, eb);
  }

  // ----- When a reported C block is one comment

  /** Whether text behind the line `s` is inside a C comment, given whether `s` starts inside
      one. */
  predicate AfterLine(s: string, inside: bool) {
    if |s| < 2 then inside
    else if !inside && StartsWith(s, "/*") then AfterLine(s[2..], true)
    else if inside && StartsWith(s, "*/") then AfterLine(s[2..], false)
    else AfterLine(s[1..], inside)
  }

  /** Line `i` starts inside a comment, when line `first` does not. */
  predicate StartsInside(lines: seq<string>, first: nat, i: nat)
    requires first <= i <= |lines|
  {
    i > first && AfterLine(lines[i - 1], StartsInside(lines, first, i - 1))
  }

  lemma {:induction false} NothingCloses(s: string)
    requires !CClose(s)
    ensures AfterLine(s, true)
  {
    if |s| >= 2 {
      assert s[0..] == s;
      NothingCloses(s[1..]);
    }
  }

  lemma {:induction false} StaysInside(lines: seq<string>, b: Block, i: nat)
    requires CBlock(lines, b) && b.first < i <= b.last && AfterLine(lines[b.first], false)
    ensures StartsInside(lines, b.first, i)
  {
    hide CClose, COpen, Cpp;
    if i > b.first + 1 {
      StaysInside(lines, b, i - 1);
      NothingCloses(lines[i - 1]);
    }
  }

  lemma SecondLine(lines: seq<string>, first: nat)
    requires first < |lines|
    ensures StartsInside(lines, first, first + 1) == AfterLine(lines[first], false)
  {
    var before := StartsInside(lines, first, first);
    assert before == false;
  }

  /** Every line of the block but the first starts inside the comment that the block opens. */
  ghost predicate InOneComment(lines: seq<string>, b: Block)
    requires 0 <= b.first <= b.last < |lines|
  {
    forall i :: b.first < i <= b.last ==> StartsInside(lines, b.first, i)
  }

  /** A reported C block lies in one comment if and only if its first line does not close what it
      opens. */
  lemma BlockIsCommentIff(lines: seq<string>, b: Block)
    requires CBlock(lines, b)
    ensures InOneComment(lines, b) <==> AfterLine(lines[b.first], false)
  {
    hide CClose, COpen, Cpp, AfterLine;
    SecondLine(lines, b.first);
    if AfterLine(lines[b.first], false) {
      forall i | b.first < i <= b.last ensures StartsInside(lines, b.first, i) {
        StaysInside(lines, b, i);
      }
    }
  }

  /** The end of a comment that is closed on its own line is missed: the line of code between two
      such comments is reported as part of a block. */
  lemma ClosedCommentStaysOpen()
    ensures var lines := ["/**/", "x", "/**/"];
            Scanned(lines, 0, Scan(Outside, 0, [Block(0, 2)]), EndOfFile) && !StartsInside(lines, 0, 1)
  {
    var lines := ["/**/", "x", "/**/"];
    ClosedComment();
    CodeLine();
    var b := Block(0, 2);
    hide Cpp, COpen, CClose, Blank;
    assert CBlock(lines, b);
    assert forall k :: 0 <= k < 3 ==> Inside([b], k) by {
      assert [b][0] == b;
    }
  }

  lemma ClosedComment()
    ensures COpen("/**/") && CClose("/**/") && !Cpp("/**/") && !AfterLine("/**/", false)
  {
    var s := "/**/";
    assert s[1..] == "**/" && s[1..][1..] == "*/" && s[1..][1..][1..] == "/" && s[2..] == "*/" && s[2..][2..] == "";
    assert "**/"[..2][1] == '*' && "*/"[..2] == "*/";
    assert !StartsWith("**/", "*/") && StartsWith("*/", "*/");
    assert Find("*/", "*/") == 0;
    assert Find("**/", "*/") == 1;
    assert Find(s, "*/") == 2;
    assert Find("/", "//") == 1 && Find("*/", "//") == 2;
    assert Find("**/", "//") == 3;
    assert !StartsWith(s, "//");
    assert AfterLine("*/", true) == AfterLine("", false);
  }

  lemma CodeLine()
    ensures !CClose("x")
  {
    assert "x"[1..] == "";
  }

  // ----- The kinds of line, written out

  lemma StartsExact(s: string, p: string)
    ensures StartsWith(s, p) <==> exists b :: s == p + b
  {
    if StartsWith(s, p) {
      assert s == p + s[|p|..];
    }
    if b :| s == p + b {
      assert s[..|p|] == p;
    }
  }

  lemma ContainsHas(s: string, p: string) returns (a: string, b: string)
    requires p != "" && Contains(s, p)
    ensures s == a + p + b
  {
    hide Find;
    var n := Find(s, p);
    a, b := s[..n], s[n + |p|..];
    assert s[n..][..|p|] == p;
  }

  lemma HasContains(s: string, p: string, a: string, b: string)
    requires p != "" && s == a + p + b
    ensures Contains(s, p)
  {
    hide Find;
    assert s[|a|..][..|p|] == p;
    assert StartsWith(s[|a|..], p);
  }

  lemma ContainsExact(s: string, p: string)
    requires p != ""
    ensures Contains(s, p) <==> exists a, b :: s == a + p + b
  {
    hide Contains;
    if Contains(s, p) {
      var a, b := ContainsHas(s, p);
    }
    if a, b :| s == a + p + b {
      HasContains(s, p, a, b);
    }
  }

  lemma BlankExact(s: string)
    ensures Blank(s) <==> AllSpace(s)
  {
    hide Strip;
    if AllSpace(s) {
      assert s + "" + "" == s;
      StripPad(s, "", "");
      StripTrimmed("");
    }
    if Blank(s) {
      var a, b := StripLaw(s);
      assert s == a + "" + b;
    }
  }

  /** A `#` behind nothing but white space. */
  lemma ShellExact(s: string)
    ensures ShellComment(s) <==> exists a, b :: AllSpace(a) && s == a + "#" + b
  {
    var t := StripLeft(s);
    StartsExact(t, "#");
    if ShellComment(s) {
      var a := StripLeftLaw(s);
      var b :| t == "#" + b;
      assert s == a + "#" + b;
    }
    if a, b :| AllSpace(a) && s == a + "#" + b {
      assert s == a + ("#" + b);
      StripLeftPad(a, "#" + b);
      assert t == "#" + b;
    }
  }

  /** A `;`, a `//`, a `/*` and a `*/` anywhere in the line. */
  lemma SignsExact(s: string)
    ensures LispComment(s) <==> exists a, b :: s == a + ";" + b
    ensures Cpp(s) <==> exists a, b :: s == a + "//" + b
    ensures COpen(s) <==> exists a, b :: s == a + "/*" + b
    ensures CClose(s) <==> exists a, b :: s == a + "*/" + b
  {
    ContainsExact(s, ";");
    ContainsExact(s, "//");
    ContainsExact(s, "/*");
    ContainsExact(s, "*/");
  }

  /** A `//` behind nothing but white space. */
  lemma CppAloneExact(s: string)
    ensures CppAlone(s) <==> exists a, b :: AllSpace(a) && s == a + "//" + b
  {
    hide Blank, Find;
    var n := Find(s, "//");
    BlankExact(s[..n]);
    if CppAlone(s) {
      assert s[n..] == "//" + s[n..][2..];
      assert s == s[..n] + "//" + s[n..][2..];
    }
    if a, b :| AllSpace(a) && s == a + "//" + b {
      forall n | 0 <= n < |a| ensures !("//" <= (a + "//")[n..]) {
        assert (a + "//")[n..][0] == a[n];
      }
      FirstSlashes(s, a, b);
      assert s[..n] == a;
    }
  }

  lemma FirstSlashes(s: string, a: string, b: string)
    requires s == a + "//" + b && forall n :: 0 <= n < |a| ==> !("//" <= (a + "//")[n..])
    ensures Find(s, "//") == |a|
  {
    hide Find;
    var n := Find(s, "//");
    assert s[|a|..] == "//" + b;
    assert StartsWith(s[|a|..], "//");
    forall n | 0 <= n < |a| ensures !StartsWith(s[n..], "//") {
      assert s[n..][..2] == (a + "//")[n..][..2];
    }
  }

  /** The word right behind the first `//` and white space. */
  lemma CopyrightExact(s: string, a: string, b: string)
    requires s == a + "//" + b && forall n :: 0 <= n < |a| ==> !("//" <= (a + "//")[n..])
    ensures StartsCopyright(s) <==> exists w, c :: AllSpace(w) && b == w + "Copyright" + c
  {
    hide Find;
    FirstSlashes(s, a, b);
    assert s[|a| + 2..] == b;
    var t := StripLeft(b);
    StartsExact(t, "Copyright");
    if StartsWith(t, "Copyright") {
      var w := StripLeftLaw(b);
      var c :| t == "Copyright" + c;
      assert b == w + "Copyright" + c;
    }
    if w, c :| AllSpace(w) && b == w + "Copyright" + c {
      assert b == w + ("Copyright" + c);
      StripLeftPad(w, "Copyright" + c);
      assert t == "Copyright" + c;
    }
  }

  predicate AllBlank(s: string) {
    forall i :: 0 <= i < |s| ==> s[i] == ' '
  }

  lemma {:induction false} SpacesSkipped(a: string, s: string)
    requires AllBlank(a) && (s != "" ==> s[0] != ' ')
    ensures SkipSpaces(a + s) == s
  {
    if a == "" {
      assert a + s == s;
    } else {
      assert (a + s)[1..] == a[1..] + s;
      SpacesSkipped(a[1..], s);
    }
  }

  lemma {:induction false} SkippedSpaces(s: string) returns (a: string)
    ensures AllBlank(a) && s == a + SkipSpaces(s)
  {
    a := "";
    if s != "" && s[0] == ' ' {
      var rest := SkippedSpaces(s[1..]);
      a := " " + rest;
      assert s == " " + s[1..];
    }
  }

  ghost predicate ModeForm(s: string, n: string, t: string, b: string) {
    AllBlank(n) && s == "-*-" + n + "mode:" + t + "-*-" + b
  }

  lemma ModeHereExact(s: string)
    ensures ModeHere(s) <==> exists n, t, b :: ModeForm(s, n, t, b)
  {
    hide Find, ModeHere;
    if ModeHere(s) {
      var n, t, b := ModeHasForm(s);
    }
    if n, t, b :| ModeForm(s, n, t, b) {
      FormIsMode(s, n, t, b);
    }
  }

  lemma ModeHasForm(s: string) returns (n: string, t: string, b: string)
    requires ModeHere(s)
    ensures ModeForm(s, n, t, b)
  {
    hide Find;
    var rest := SkipSpaces(s[3..]);
    n := SkippedSpaces(s[3..]);
    t, b := ContainsHas(rest[5..], "-*-");
    ModeParts(s, n, rest, t, b);
  }

  lemma ModeParts(s: string, n: string, rest: string, t: string, b: string)
    requires |s| >= 3 && s[..3] == "-*-" && s[3..] == n + rest
    requires |rest| >= 5 && rest[..5] == "mode:" && rest[5..] == t + "-*-" + b
    ensures s == "-*-" + n + "mode:" + t + "-*-" + b
  {
    assert rest == "mode:" + (t + "-*-" + b);
    assert s == "-*-" + (n + rest);
  }

  lemma FormIsMode(s: string, n: string, t: string, b: string)
    requires ModeForm(s, n, t, b)
    ensures ModeHere(s)
  {
    hide Find;
    var rest := "mode:" + t + "-*-" + b;
    assert s[..3] == "-*-" && s[3..] == n + rest;
    SpacesSkipped(n, rest);
    assert rest[..5] == "mode:" && rest[5..] == t + "-*-" + b;
    HasContains(rest[5..], "-*-", t, b);
  }

  lemma {:induction false} ModeLineHas(s: string) returns (a: string, n: string, t: string, b: string)
    requires ModeLine(s)
    ensures |a| <= |s| && s[..|a|] == a && ModeForm(s[|a|..], n, t, b)
  {
    hide ModeHere, ModeForm;
    if ModeHere(s) {
      a := "";
      assert s[0..] == s;
      n, t, b := ModeHasForm(s);
    } else {
      a, n, t, b := ModeLineHas(s[1..]);
      assert s[1..][|a|..] == s[|a| + 1..];
      a := [s[0]] + a;
    }
  }

  lemma {:induction false} HasModeLine(s: string, k: nat, n: string, t: string, b: string)
    requires k <= |s| && ModeForm(s[k..], n, t, b)
    ensures ModeLine(s)
  {
    hide ModeHere;
    if k == 0 {
      assert s[0..] == s;
      FormIsMode(s, n, t, b);
    } else {
      assert s[1..][k - 1..] == s[k..];
      HasModeLine(s[1..], k - 1, n, t, b);
    }
  }

  /** An editor's mode line anywhere in the line. */
  lemma ModeLineExact(s: string)
    ensures ModeLine(s) <==> exists k: nat, n, t, b :: k <= |s| && ModeForm(s[k..], n, t, b)
  {
    hide ModeLine, ModeForm;
    if ModeLine(s) {
      var a, n, t, b := ModeLineHas(s);
    }
    if k: nat, n, t, b :| k <= |s| && ModeForm(s[k..], n, t, b) {
      HasModeLine(s, k, n, t, b);
    }
  }

  // ----- Two files written out

  /** Without this character there is no such sign. */
  lemma NoSign(s: string, sign: string, c: char)
    requires sign != "" && c in sign && c !in s
    ensures !Contains(s, sign)
  {
    if Contains(s, sign) {
      var a, b := ContainsHas(s, sign);
      assert false;
    }
  }

  lemma ShellLines()
    ensures ShellComment("#") && !ShellComment("") && !ShellComment("x") && Blank("") && !Blank("x")
  {
    BlankExact("");
    BlankExact("x");
  }

  /** Comment lines, blank lines and code: a line of code right behind a run ends the run only,
      the next one ends the scan. */
  lemma ShellWrittenOut(b: Block)
    ensures IsBlock(["", "#", "x", "#", "", "x", "#", ""], ShellComment, 0, b) <==> b == Block(1, 1) || b == Block(3, 3)
  {
    hide ShellComment, Blank;
    ShellLines();
    var lines := ["", "#", "x", "#", "", "x", "#", ""];
    assert Halts(lines, ShellComment, 0, 5);
    if IsBlock(lines, ShellComment, 0, b) {
      assert ShellComment(lines[b.first]) && ShellComment(lines[b.last]);
      assert b.last < 5;
      var middle := lines[2];
      assert b.first <= 2 <= b.last ==> ShellComment(middle);
    }
  }

  lemma CLines()
    ensures COpen("/*") && !Cpp("/*") && CClose("*/") && !Blank("/*")
    ensures !Cpp("x") && !COpen("x") && !Blank("x") && Blank("") && !Cpp("") && !COpen("")
  {
    HasContains("/*", "/*", "", "");
    HasContains("*/", "*/", "", "");
    assert "/*" == "" + "/*" + "" && "*/" == "" + "*/" + "";
    CommentIsNotBlank("/*");
    NoSign("x", "//", '/');
    NoSign("x", "/*", '/');
    NoSign("", "//", '/');
    NoSign("", "/*", '/');
    BlankExact("x");
    BlankExact("");
    NoDoubleSlash();
  }

  lemma NoDoubleSlash()
    ensures !Cpp("/*")
  {
    var s := "/*";
    assert s[1..] == "*" && s[1..][1..] == "";
    assert Find("*", "//") == 1;
    assert s[..2][1] == '*';
  }

  lemma PlainLine()
    ensures CppLine("//") && !StartsCopyright("//") && !Blank("//")
  {
    hide Find, Blank;
    assert "//" == "" + "//" + "";
    CppAloneExact("//");
    NoSign("//", "/*", '*');
    CopyrightExact("//", "", "");
    CommentIsNotBlank("//");
  }

  lemma NoticeLine()
    ensures CppLine("//Copyright") && StartsCopyright("//Copyright") && !Blank("//Copyright")
  {
    hide Cpp, COpen, Blank, StartsCopyright;
    NoticeAlone();
    NoticeStarts();
    CommentIsNotBlank("//Copyright");
  }

  lemma NoticeAlone()
    ensures CppAlone("//Copyright") && !COpen("//Copyright")
  {
    hide Find, Blank, CppAlone;
    assert "//Copyright" == "" + "//" + "Copyright";
    CppAloneExact("//Copyright");
    NoSign("//Copyright", "/*", '*');
  }

  lemma NoticeStarts()
    ensures StartsCopyright("//Copyright")
  {
    hide Find, StartsCopyright;
    assert "//Copyright" == "" + "//" + "Copyright" && "Copyright" == "" + "Copyright" + "";
    CopyrightExact("//Copyright", "", "Copyright");
  }

  function Notices(): seq<string> {
    ["/*", "*/", "", "//Copyright", "", "//", "//Copyright", "x"]
  }

  lemma NoticeBlocks()
    ensures CBlock(Notices(), Block(0, 1)) && CppBlock(Notices(), Block(3, 5)) && CppBlock(Notices(), Block(6, 6))
    ensures StopsRightly(Notices(), Outside, Code(7))
  {
    hide Cpp, COpen, CClose, CppLine, Blank, StartsCopyright, CppAlone;
    CLines();
    PlainLine();
    NoticeLine();
  }

  lemma NoticesAccounted()
    ensures Accounted(Notices(), 0, 7, Outside, 6, [Block(0, 1), Block(3, 5), Block(6, 6)])
  {
    hide Blank;
    BlankExact("");
    var lines, blocks := Notices(), [Block(0, 1), Block(3, 5), Block(6, 6)];
    forall k | 0 <= k < 7 && !Blank(lines[k]) ensures Inside(blocks, k) {
      assert blocks[0].first <= k <= blocks[0].last || blocks[1].first <= k <= blocks[1].last
          || blocks[2].first <= k <= blocks[2].last;
    }
  }

  /** A C comment, a blank line, a group of line comments with a blank line inside, a second
      notice, and code. */
  lemma CWrittenOut()
    ensures Scanned(["/*", "*/", "", "//Copyright", "", "//", "//Copyright", "x"], 0,
                    Scan(Outside, 6, [Block(0, 1), Block(3, 5), Block(6, 6)]), Code(7))
  {
    hide CBlock, CppBlock, Accounted, StopsRightly;
    NoticeBlocks();
    NoticesAccounted();
  }
}
