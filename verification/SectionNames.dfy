/** Renaming the CPU sections of a checkpoint: every "cpu" in the name is followed by the
    index of the checkpoint, padded with zeros to a common width. */
module SectionNames {
  import opened PyText

  predicate StartsWithCpu(s: string) {
    |s| >= 3 && s[0] == 'c' && s[1] == 'p' && s[2] == 'u'
  }

  predicate HasCpu(s: string) {
    s != "" && (StartsWithCpu(s) || HasCpu(s[1..]))
  }

  /** Every occurrence of "cpu" is replaced by "cpu" and the tag. */
  function Sub(s: string, tag: string): string {
    if s == "" then ""
    else if StartsWithCpu(s) then "cpu" + tag + Sub(s[3..], tag)
    else [s[0]] + Sub(s[1..], tag)
  }

  function ZFill(s: string, width: nat): (r: string)
    ensures |r| == if |s| < width then width else |s|
    decreases width - |s|
  {
    if |s| >= width then s else ZFill("0" + s, width)
  }

  /** The number of digits of the largest index. */
  function Width(count: nat): nat
    requires count > 0
  {
    |Decimal(count - 1)|
  }

  function Tag(i: nat, count: nat): string
    requires i < count
  {
    ZFill(Decimal(i), Width(count))
  }

  function Rename(i: nat, count: nat, name: string): string
    requires i < count
  {
    Sub(name, Tag(i, count))
  }

  // ----- Tags

  lemma {:induction false} DecimalMonotone(m: nat, n: nat)
    requires m <= n
    ensures |Decimal(m)| <= |Decimal(n)|
  {
    if n >= 10 && m >= 10 {
      DecimalMonotone(m / 10, n / 10);
    }
  }

  lemma {:induction false} DigitsCons(s: string)
    requires AllDigits(s)
    ensures AllDigits("0" + s) && DigitsValue("0" + s) == DigitsValue(s)
  {
    var t := "0" + s;
    if s != "" {
      DigitsCons(s[..|s| - 1]);
      assert t[..|t| - 1] == "0" + s[..|s| - 1];
    } else {
      assert t[..0] == "";
    }
  }

  lemma {:induction false} ZFillValue(s: string, width: nat)
    requires AllDigits(s)
    ensures AllDigits(ZFill(s, width)) && DigitsValue(ZFill(s, width)) == DigitsValue(s)
    decreases width - |s|
  {
    if |s| < width {
      DigitsCons(s);
      ZFillValue("0" + s, width);
    }
  }

  /** All tags have the same width, and the tag determines the index. */
  lemma TagDetermines(i: nat, j: nat, count: nat)
    requires i < count && j < count
    ensures |Tag(i, count)| == |Tag(j, count)| == Width(count)
    ensures Tag(i, count) == Tag(j, count) ==> i == j
  {
    hide Decimal, ZFill, DigitsValue;
    DecimalMonotone(i, count - 1);
    DecimalMonotone(j, count - 1);
    ZFillValue(Decimal(i), Width(count));
    ZFillValue(Decimal(j), Width(count));
    DecimalValue(i);
    DecimalValue(j);
  }

  /** The tag is the index in decimal, as wide as the largest index. */
  lemma TagSpells(i: nat, count: nat)
    requires i < count
    ensures AllDigits(Tag(i, count)) && DigitsValue(Tag(i, count)) == i && |Tag(i, count)| == |Decimal(count - 1)|
  {
    hide Decimal, ZFill, DigitsValue;
    TagDetermines(i, i, count);
    ZFillValue(Decimal(i), Width(count));
    DecimalValue(i);
  }

  // ----- Names

  /** A CPU section is one whose name has a "cpu" in it. */
  lemma {:induction false} HasCpuExact(s: string)
    ensures HasCpu(s) <==> exists a, b :: s == a + "cpu" + b
  {
    if StartsWithCpu(s) {
      assert s == "" + "cpu" + s[3..];
    } else if s != "" {
      HasCpuExact(s[1..]);
      if HasCpu(s[1..]) {
        var a, b :| s[1..] == a + "cpu" + b;
        assert s == ([s[0]] + a) + "cpu" + b;
      }
      if a, b :| s == a + "cpu" + b {
        assert a == "" ==> StartsWithCpu(s);
        assert s[1..] == a[1..] + "cpu" + b;
      }
    }
  }

  lemma {:induction false} SubFront(a: string, b: string, tag: string)
    requires forall n :: 0 <= n < |a| ==> !("cpu" <= (a + "cpu")[n..])
    ensures Sub(a + "cpu" + b, tag) == a + "cpu" + tag + Sub(b, tag)
  {
    var s := a + "cpu" + b;
    if a == "" {
      assert s[3..] == b;
    } else {
      var u := (a + "cpu")[0..];
      assert u == a + "cpu" && u[0] == s[0] && u[1] == s[1] && u[2] == s[2];
      assert !("cpu" <= u);
      forall n | 0 <= n < |a| - 1 ensures !("cpu" <= (a[1..] + "cpu")[n..]) {
        assert (a[1..] + "cpu")[n..] == (a + "cpu")[n + 1..];
      }
      SubFront(a[1..], b, tag);
      assert s[1..] == a[1..] + "cpu" + b;
      assert a == [a[0]] + a[1..];
    }
  }

  /** The first "cpu" of a name is followed by the zero-padded index, the rest is renamed in the
      same way, and a name without one stays as it is. */
  lemma RenameFirst(i: nat, count: nat, a: string, b: string, t: string)
    requires i < count && forall n :: 0 <= n < |a| ==> !("cpu" <= (a + "cpu")[n..])
    requires AllDigits(t) && |t| == |Decimal(count - 1)| && DigitsValue(t) == i
    ensures Rename(i, count, a + "cpu" + b) == a + "cpu" + t + Rename(i, count, b)
  {
    hide Tag;
    TagSpells(i, count);
    DigitsUnique(t, Tag(i, count));
    SubFront(a, b, t);
  }

  lemma {:induction false} SubNothing(s: string, tag: string)
    requires !HasCpu(s)
    ensures Sub(s, tag) == s
  {
    if s != "" {
      SubNothing(s[1..], tag);
      assert s == [s[0]] + s[1..];
    }
  }

  lemma RenameNothing(i: nat, count: nat, s: string)
    requires i < count && !(exists a, b :: s == a + "cpu" + b)
    ensures Rename(i, count, s) == s
  {
    HasCpuExact(s);
    SubNothing(s, Tag(i, count));
  }

  lemma SubFirst(s: string, tag: string)
    requires s != ""
    ensures Sub(s, tag) != "" && Sub(s, tag)[0] == s[0]
  {
  }

  /** Renaming neither adds nor removes a "cpu" at the start. */
  lemma SubStart(s: string, tag: string)
    ensures StartsWithCpu(Sub(s, tag)) <==> StartsWithCpu(s)
  {
    if s != "" && !StartsWithCpu(s) && StartsWithCpu(Sub(s, tag)) {
      var s1 := s[1..];
      assert Sub(s, tag)[1..] == Sub(s1, tag);
      SubFirst(s1, tag);
      assert !StartsWithCpu(s1);
      var s2 := s1[1..];
      assert Sub(s1, tag)[1..] == Sub(s2, tag);
      SubFirst(s2, tag);
    }
  }

  lemma {:induction false} SubHasCpu(s: string, tag: string)
    requires HasCpu(s)
    ensures HasCpu(Sub(s, tag))
  {
    SubStart(s, tag);
    if !StartsWithCpu(s) {
      SubHasCpu(s[1..], tag);
      assert Sub(s, tag)[1..] == Sub(s[1..], tag);
    }
  }

  lemma {:induction false} SubInjective(s: string, t: string, tag: string)
    requires Sub(s, tag) == Sub(t, tag)
    ensures s == t
    decreases |s|
  {
    if s != "" && t != "" {
      SubStart(s, tag);
      SubStart(t, tag);
      var a, b := Sub(s, tag), Sub(t, tag);
      if StartsWithCpu(s) {
        assert a[3 + |tag|..] == Sub(s[3..], tag) && b[3 + |tag|..] == Sub(t[3..], tag);
        SubInjective(s[3..], t[3..], tag);
        assert s == "cpu" + s[3..] && t == "cpu" + t[3..];
      } else {
        assert a[1..] == Sub(s[1..], tag) && b[1..] == Sub(t[1..], tag);
        SubInjective(s[1..], t[1..], tag);
        assert s == [s[0]] + s[1..] && t == [t[0]] + t[1..];
      }
    } else if s != "" {
      SubFirst(s, tag);
    } else if t != "" {
      SubFirst(t, tag);
    }
  }

  lemma {:induction false} SubDetermines(s: string, t: string, tag: string, tag': string)
    requires HasCpu(s) && |tag| == |tag'| && Sub(s, tag) == Sub(t, tag')
    ensures tag == tag' && s == t
    decreases |s|
  {
    SubStart(s, tag);
    SubStart(t, tag');
    SubFirst(s, tag);
    var a, b := Sub(s, tag), Sub(t, tag');
    if StartsWithCpu(s) {
      assert a[3..3 + |tag|] == tag && b[3..3 + |tag|] == tag';
      SubInjective(s, t, tag);
    } else {
      assert a[1..] == Sub(s[1..], tag) && b[1..] == Sub(t[1..], tag');
      SubDetermines(s[1..], t[1..], tag, tag');
      assert s == [s[0]] + s[1..] && t == [t[0]] + t[1..];
    }
  }

  /** The new name of a CPU section determines both the checkpoint and the old name, for any
      number of checkpoints and any names. */
  lemma RenameInjective(i: nat, j: nat, count: nat, s: string, t: string)
    requires i < count && j < count && HasCpu(s)
    requires Rename(i, count, s) == Rename(j, count, t)
    ensures i == j && s == t
  {
    hide Tag, Sub;
    TagDetermines(i, j, count);
    SubDetermines(s, t, Tag(i, count), Tag(j, count));
  }
}
