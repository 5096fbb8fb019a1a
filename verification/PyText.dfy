/** The string operations that the trace and copyright scripts rely on: decimal numbers,
    `strip`, `split` and `join`. */
module PyText {

  datatype Option<T> = None | Some(value: T)

  // ----- Decimal numbers

  function Digit(d: int): char
    requires 0 <= d < 10
  {
    "0123456789"[d]
  }

  predicate IsDigit(c: char) {
    '0' <= c <= '9'
  }

  function DigitValue(c: char): (d: int)
    requires IsDigit(c)
    ensures 0 <= d < 10
  {
    c as int - '0' as int
  }

  /** The decimal form of `n`, without leading zeros. */
  function Decimal(n: nat): (s: string)
    ensures s != [] && forall i :: 0 <= i < |s| ==> IsDigit(s[i])
  {
    if n < 10 then [Digit(n)] else Decimal(n / 10) + [Digit(n % 10)]
  }

  predicate AllDigits(s: string) {
    forall i :: 0 <= i < |s| ==> IsDigit(s[i])
  }

  function DigitsValue(s: string): nat
    requires AllDigits(s)
  {
    if s == [] then 0 else 10 * DigitsValue(s[..|s| - 1]) + DigitValue(s[|s| - 1])
  }

  lemma {:induction false} DecimalValue(n: nat)
    ensures DigitsValue(Decimal(n)) == n
  {
    if n >= 10 {
      DecimalValue(n / 10);
      var front := Decimal(n / 10);
      assert (front + [Digit(n % 10)])[..|front|] == front;
    }
  }

  /** Length and value determine a string of digits. */
  lemma {:induction false} DigitsUnique(s: string, t: string)
    requires AllDigits(s) && AllDigits(t) && |s| == |t| && DigitsValue(s) == DigitsValue(t)
    ensures s == t
  {
    if s != [] {
      var n := |s| - 1;
      assert DigitsValue(s[..n]) == DigitsValue(t[..n]);
      DigitsUnique(s[..n], t[..n]);
      assert s == s[..n] + [s[n]] && t == t[..n] + [t[n]];
    }
  }

  /** The ten digits, read here and written below. */
  lemma DigitsWrittenOut()
    ensures AllDigits("0123456789") && DigitsValue("0123456789") == 123456789
  {
    var s := "0123456789";
    assert DigitsValue(s[..1]) == 0 by { assert s[..1][..0] == ""; }
    assert DigitsValue(s[..2]) == 1 by { assert s[..2][..1] == s[..1]; }
    assert DigitsValue(s[..3]) == 12 by { assert s[..3][..2] == s[..2]; }
    assert DigitsValue(s[..4]) == 123 by { assert s[..4][..3] == s[..3]; }
    assert DigitsValue(s[..5]) == 1234 by { assert s[..5][..4] == s[..4]; }
    assert DigitsValue(s[..6]) == 12345 by { assert s[..6][..5] == s[..5]; }
    assert DigitsValue(s[..7]) == 123456 by { assert s[..7][..6] == s[..6]; }
    assert DigitsValue(s[..8]) == 1234567 by { assert s[..8][..7] == s[..7]; }
    assert DigitsValue(s[..9]) == 12345678 by { assert s[..9][..8] == s[..8]; }
  }

  lemma DecimalStep(n: nat, d: nat)
    requires n > 0 && d < 10
    ensures Decimal(10 * n + d) == Decimal(n) + [Digit(d)]
  {
    assert (10 * n + d) / 10 == n && (10 * n + d) % 10 == d;
  }

  lemma DecimalWrittenOut()
    ensures Decimal(1234567890) == "1234567890"
  {
    assert Decimal(1) == "1";
    hide Decimal;
    DecimalStep(1, 2);
    DecimalStep(12, 3);
    DecimalStep(123, 4);
    DecimalStep(1234, 5);
    DecimalStep(12345, 6);
    DecimalStep(123456, 7);
    DecimalStep(1234567, 8);
    DecimalStep(12345678, 9);
    DecimalStep(123456789, 0);
  }

  /** `str(n)`. */
  function Signed(n: int): string {
    if n < 0 then "-" + Decimal(-n) else Decimal(n)
  }

  // ----- strip

  /** The white space among the ASCII characters. */
  predicate IsSpace(c: char) {
    c == ' ' || 9 <= c as int <= 13 || 28 <= c as int <= 31
  }

  predicate AllSpace(s: string) {
    forall i :: 0 <= i < |s| ==> IsSpace(s[i])
  }

  function StripLeft(s: string): string {
    if s != [] && IsSpace(s[0]) then StripLeft(s[1..]) else s
  }

  function StripRight(s: string): string {
    if s != [] && IsSpace(s[|s| - 1]) then StripRight(s[..|s| - 1]) else s
  }

  function Strip(s: string): string {
    StripRight(StripLeft(s))
  }

  /** Blank, tab, newline, vertical tab, form feed and carriage return, and the four separators. */
  lemma SpacesWrittenOut(c: char)
    ensures IsSpace(c)
       <==> c in " \t\n\r" + [0x0b as char, 0x0c as char] + [28 as char, 29 as char, 30 as char, 31 as char]
  {
    assert c in " \t\n\r" <==> c == ' ' || c == '\t' || c == '\n' || c == '\r';
  }

  /** Neither end of `s` is white space. */
  predicate Trimmed(s: string) {
    s != [] ==> !IsSpace(s[0]) && !IsSpace(s[|s| - 1])
  }

  /** Stripping on the left removes white space and leaves none there. */
  lemma {:induction false} StripLeftLaw(s: string) returns (a: string)
    ensures s == a + StripLeft(s) && AllSpace(a)
    ensures StripLeft(s) != "" ==> !IsSpace(StripLeft(s)[0])
  {
    a := "";
    if s != [] && IsSpace(s[0]) {
      var rest := StripLeftLaw(s[1..]);
      a := [s[0]] + rest;
      assert s == [s[0]] + s[1..];
    }
  }

  lemma {:induction false} StripRightLaw(s: string) returns (b: string)
    ensures s == StripRight(s) + b && AllSpace(b)
    ensures StripRight(s) != "" ==> !IsSpace(StripRight(s)[|StripRight(s)| - 1])
  {
    b := "";
    if s != [] && IsSpace(s[|s| - 1]) {
      var rest := StripRightLaw(s[..|s| - 1]);
      b := rest + [s[|s| - 1]];
      assert s == s[..|s| - 1] + [s[|s| - 1]];
    }
  }

  /** Stripping removes white space at both ends and leaves none there. */
  lemma StripLaw(s: string) returns (a: string, b: string)
    ensures s == a + Strip(s) + b && AllSpace(a) && AllSpace(b) && Trimmed(Strip(s))
  {
    a := StripLeftLaw(s);
    b := StripRightLaw(StripLeft(s));
    assert Strip(s) != "" ==> Strip(s)[0] == StripLeft(s)[0];
  }

  lemma {:induction false} StripLeftPad(a: string, s: string)
    requires AllSpace(a)
    ensures StripLeft(a + s) == StripLeft(s)
  {
    if a == "" {
      assert a + s == s;
    } else {
      assert (a + s)[1..] == a[1..] + s;
      StripLeftPad(a[1..], s);
    }
  }

  lemma {:induction false} StripRightPad(s: string, b: string)
    requires AllSpace(b)
    ensures StripRight(s + b) == StripRight(s)
  {
    if b == "" {
      assert s + b == s;
    } else {
      assert (s + b)[..|s + b| - 1] == s + b[..|b| - 1];
      StripRightPad(s, b[..|b| - 1]);
    }
  }

  /** White space around a string does not matter. */
  lemma StripPad(a: string, s: string, b: string)
    requires AllSpace(a) && AllSpace(b)
    ensures Strip(a + s + b) == Strip(s)
  {
    assert a + s + b == a + (s + b);
    StripLeftPad(a, s + b);
    StripLeftThenPad(s, b);
  }

  lemma StripLeftThenPad(s: string, b: string)
    requires AllSpace(b)
    ensures StripRight(StripLeft(s + b)) == StripRight(StripLeft(s))
  {
    hide StripLeft, StripRight;
    var a := StripLeftLaw(s);
    var t := StripLeft(s);
    assert s + b == a + (t + b);
    StripLeftPad(a, t + b);
    StripTail(t, b);
  }

  lemma StripTail(t: string, b: string)
    requires AllSpace(b) && (t != "" ==> !IsSpace(t[0]))
    ensures StripRight(StripLeft(t + b)) == StripRight(t)
  {
    hide StripRight;
    if t == "" {
      assert t + b == b && b + "" == b;
      StripLeftPad(b, "");
    } else {
      assert StripLeft(t + b) == t + b;
      StripRightPad(t, b);
    }
  }

  lemma StripTrimmed(s: string)
    requires Trimmed(s)
    ensures Strip(s) == s
  {
  }

  lemma StripNewline(s: string)
    requires s != [] && Trimmed(s)
    ensures Strip(s + "\n") == s
  {
    assert StripLeft(s + "\n") == s + "\n";
    assert (s + "\n")[..|s|] == s;
    assert StripRight(s + "\n") == StripRight(s);
  }

  // ----- int

  /** `int(s)`: blanks around, an optional sign, and at least one digit. */
  function Int(s: string): Option<int> {
    var t := Strip(s);
    if t == [] then None
    else if t[0] == '-' || t[0] == '+' then
      if |t| > 1 && AllDigits(t[1..]) then
        var n: int := DigitsValue(t[1..]);
        Some(if t[0] == '-' then -n else n)
      else None
    else if AllDigits(t) then Some(DigitsValue(t))
    else None
  }

  lemma IntDecimal(n: nat)
    ensures Int(Decimal(n)) == Some(n)
  {
    var s := Decimal(n);
    assert IsDigit(s[0]) && IsDigit(s[|s| - 1]);
    StripTrimmed(s);
    DecimalValue(n);
  }

  /** The digits `ds` with a sign, or none. */
  predicate Spells(t: string, ds: string, n: int) {
    && ds != "" && AllDigits(ds)
    && (|| (t == ds && n == DigitsValue(ds))
        || (t == "+" + ds && n == DigitsValue(ds))
        || (t == "-" + ds && n == 0 - DigitsValue(ds)))
  }

  /** Exactly the texts that are a number: digits, with a sign or without, in white space. */
  lemma IntExact(s: string, n: int)
    ensures Int(s) == Some(n)
       <==> exists a, t, ds, b :: s == a + t + b && AllSpace(a) && AllSpace(b) && Spells(t, ds, n)
  {
    hide Strip, DigitsValue;
    if Int(s) == Some(n) {
      var a, b := StripLaw(s);
      var t := Strip(s);
      if t[0] == '-' || t[0] == '+' {
        assert t == [t[0]] + t[1..];
        assert Spells(t, t[1..], n);
      } else {
        assert Spells(t, t, n);
      }
    }
    if a, t, ds, b :| s == a + t + b && AllSpace(a) && AllSpace(b) && Spells(t, ds, n) {
      SpellsReads(a, t, ds, b, n);
    }
  }

  lemma SpellsReads(a: string, t: string, ds: string, b: string, n: int)
    requires AllSpace(a) && AllSpace(b) && Spells(t, ds, n)
    ensures Int(a + t + b) == Some(n)
  {
    hide StripLeft, StripRight, DigitsValue;
    StripPad(a, t, b);
    StripTrimmed(t);
    assert t == ds || t[1..] == ds;
  }

  // ----- split and join

  function Split(s: string, sep: char): (parts: seq<string>)
    ensures parts != []
  {
    if s == [] then [""]
    else
      var rest := Split(s[1..], sep);
      if s[0] == sep then [""] + rest else [[s[0]] + rest[0]] + rest[1..]
  }

  function Join(parts: seq<string>, sep: char): string {
    if parts == [] then ""
    else if |parts| == 1 then parts[0]
    else Join(parts[..|parts| - 1], sep) + [sep] + parts[|parts| - 1]
  }

  lemma {:induction false} SplitNone(s: string, sep: char)
    requires sep !in s
    ensures Split(s, sep) == [s]
  {
    if s != [] {
      SplitNone(s[1..], sep);
      assert [s[0]] + s[1..] == s;
    }
  }

  lemma {:induction false} SplitCut(a: string, b: string, sep: char)
    requires sep !in b
    ensures Split(a + [sep] + b, sep) == Split(a, sep) + [b]
  {
    var s := a + [sep] + b;
    if a == [] {
      assert s[1..] == b;
      SplitNone(b, sep);
    } else {
      SplitCut(a[1..], b, sep);
      assert s[1..] == a[1..] + [sep] + b;
      var rest := Split(a[1..], sep);
      assert (rest + [b])[0] == rest[0] && (rest + [b])[1..] == rest[1..] + [b];
    }
  }

  lemma JoinSnoc(parts: seq<string>, part: string, sep: char)
    requires parts != []
    ensures Join(parts + [part], sep) == Join(parts, sep) + [sep] + part
  {
    assert (parts + [part])[..|parts|] == parts;
  }

  /** Splitting undoes joining when no part contains the separator. */
  lemma {:induction false} SplitJoin(parts: seq<string>, sep: char)
    requires parts != [] && forall i :: 0 <= i < |parts| ==> sep !in parts[i]
    ensures Split(Join(parts, sep), sep) == parts
  {
    if |parts| == 1 {
      SplitNone(parts[0], sep);
    } else {
      var front, last := parts[..|parts| - 1], parts[|parts| - 1];
      SplitJoin(front, sep);
      SplitCut(Join(front, sep), last, sep);
      assert parts == front + [last];
    }
  }
}
