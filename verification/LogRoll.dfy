/** A circular buffer of text lines: the last `target` lines of the input, kept in place. */
module LogRoll {
  import opened Cyclic

  /** The last `n` lines of the input, or all of it when it is shorter or `n` is not
      positive. */
  function Last(input: seq<string>, n: int): seq<string> {
    if n <= 0 || |input| <= n then input else input[|input| - n..]
  }

  /** What a dump prints: from `idx` to the end, then the lines before `idx`. */
  function Dump(lines: seq<string>, idx: nat): seq<string>
    requires idx <= |lines|
  {
    lines[idx..] + lines[..idx]
  }

  lemma Overwrite(lines: seq<string>, idx: nat, line: string)
    requires idx < |lines|
    ensures var next := if idx == |lines| - 1 then 0 else idx + 1;
            Dump(lines[idx := line], next) == Dump(lines, idx)[1..] + [line]
  {
    var next := if idx == |lines| - 1 then 0 else idx + 1;
    var a, b := Dump(lines[idx := line], next), Dump(lines, idx)[1..] + [line];
    assert |a| == |b|;
    forall k | 0 <= k < |a| ensures a[k] == b[k] {
    }
  }

  lemma LastGrows(input: seq<string>, n: int, line: string)
    ensures Last(input + [line], n)
         == if n <= 0 || |input| < n then input + [line] else Last(input, n)[1..] + [line]
  {
    if 0 < n <= |input| {
      assert Last(input, n) == input[|input| - n..];
    }
  }

  class Roller {
    const target: int
    var lines: seq<string>
    var idx: nat
    ghost var input: seq<string>

    /** While the buffer fills, it is the input itself; then it has `target` lines and `idx`
        points to the oldest. A target that is not positive is never reached. */
    ghost predicate Valid()
      reads this
    {
      && (if target <= 0 || |input| < target then lines == input && idx == |input|
          else |lines| == target && idx < target && idx == |input| % target)
      && Dump(lines, idx) == Last(input, target)
    }

    ghost predicate Filling()
      reads this
    {
      target <= 0 || |input| < target
    }

    constructor (n: int)
      ensures Valid() && target == n && input == []
    {
      target, lines, idx, input := n, [], 0, [];
    }

    /** A line read while the buffer fills. */
    method Fill(line: string) returns (full: bool)
      requires Valid() && Filling()
      modifies this
      ensures Valid() && input == old(input) + [line] && (full <==> !Filling())
    {
      LastGrows(input, target, line);
      lines := lines + [line];
      input := input + [line];
      full := idx == target - 1;
      if full {
        ModOf(1, 0, target);
        idx := 0;
      } else {
        idx := idx + 1;
      }
      assert Dump(lines, idx) == lines;
    }

    /** A line read when the buffer is full takes the place of the oldest. */
    method Wrap(line: string)
      requires Valid() && !Filling()
      modifies this
      ensures Valid() && input == old(input) + [line]
    {
      LastGrows(input, target, line);
      ModStep(|input|, target);
      Overwrite(lines, idx, line);
      lines := lines[idx := line];
      idx := if idx == target - 1 then 0 else idx + 1;
      input := input + [line];
    }
  }

  /** Reads all lines. The object is valid after every line, so a dump at any of those moments
      prints the last `target` lines read so far, in the order of arrival. */
  method Roll(target: int, incoming: seq<string>) returns (dump: seq<string>)
    ensures dump == Last(incoming, target)
  {
    var r := new Roller(target);
    var n := 0;
    var full := false;
    while n < |incoming| && !full
      invariant 0 <= n <= |incoming| && r.Valid() && r.target == target && r.input == incoming[..n]
      invariant full <==> !r.Filling()
    {
      full := r.Fill(incoming[n]);
      n := n + 1;
    }
    while n < |incoming|
      invariant 0 <= n <= |incoming| && r.Valid() && r.target == target && r.input == incoming[..n]
      invariant n < |incoming| ==> !r.Filling()
    {
      r.Wrap(incoming[n]);
      n := n + 1;
    }
    dump := r.lines[r.idx..] + r.lines[..r.idx];
    assert incoming[..n] == incoming;
  }
}
