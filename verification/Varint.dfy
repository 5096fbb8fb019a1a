/** Varints and length-prefixed frames of the trace files, after "Base 128 Varints" in the
    Protocol Buffers encoding guide. A file is the sequence of bytes still to be read. */
module Varint {

  type byte = x: int | 0 <= x < 256

  const MASK32: int := 0x1_0000_0000
  const SIGN64: int := 0x8000_0000_0000_0000

  // ----- Encoding

  /** Seven bits per byte, least significant first; every byte but the last has bit 7 set. */
  function Encode(v: nat): seq<byte> {
    if v < 128 then [v] else [128 + v % 128] + Encode(v / 128)
  }

  method EncodeVarint(value: nat) returns (out: seq<byte>)
    ensures out == Encode(value)
  {
    hide Encode;
    out := [];
    var bits, rest := value % 128, value / 128;
    assert out + Encode(value) == Encode(value);
    while rest != 0
      invariant 0 <= bits < 128 && rest >= 0
      invariant Encode(value) == out + Encode(bits + 128 * rest)
      decreases rest
    {
      EncodeStep(bits, rest);
      Regroup(out, 128 + bits, Encode(rest));
      out := out + [128 + bits];
      bits, rest := rest % 128, rest / 128;
    }
    EncodeLast(bits);
    out := out + [bits];
  }

  lemma Regroup(a: seq<byte>, b: byte, c: seq<byte>)
    ensures a + ([b] + c) == (a + [b]) + c
  {
  }

  lemma EncodeLast(bits: nat)
    requires bits < 128
    ensures Encode(bits) == [bits]
  {
  }

  lemma EncodeStep(bits: nat, rest: nat)
    requires bits < 128 && rest > 0
    ensures Encode(bits + 128 * rest) == [128 + bits] + Encode(rest)
  {
    assert (bits + 128 * rest) % 128 == bits && (bits + 128 * rest) / 128 == rest;
  }

  // ----- What a run of bytes means

  /** The number spelled by seven-bit groups, least significant first. */
  function Raw(s: seq<byte>): nat {
    if s == [] then 0 else s[0] % 128 + 128 * Raw(s[1..])
  }

  /** Exactly the last byte of `s` has bit 7 clear. */
  ghost predicate Terminated(s: seq<byte>) {
    s != [] && s[|s| - 1] < 128 && forall i :: 0 <= i < |s| - 1 ==> s[i] >= 128
  }

  function Pow128(n: nat): nat {
    if n == 0 then 1 else 128 * Pow128(n - 1)
  }

  lemma {:induction false} EncodeSpells(v: nat)
    ensures Raw(Encode(v)) == v && Terminated(Encode(v))
  {
    if v >= 128 {
      EncodeSpells(v / 128);
      assert Encode(v)[1..] == Encode(v / 128);
    }
  }

  lemma {:induction false} EncodeLength(v: nat, n: nat)
    requires n > 0
    ensures |Encode(v)| <= n <==> v < Pow128(n)
  {
    if v < 128 {
      PowAtLeast(n);
    } else if n == 1 {
      assert Pow128(1) == 128;
    } else {
      EncodeLength(v / 128, n - 1);
    }
  }

  lemma {:induction false} PowAtLeast(n: nat)
    requires n > 0
    ensures Pow128(n) >= 128
  {
    if n > 1 {
      PowAtLeast(n - 1);
    }
  }

  lemma {:induction false} RawBound(s: seq<byte>)
    ensures Raw(s) < Pow128(|s|)
  {
    if s != [] {
      RawBound(s[1..]);
    }
  }

  /** No terminated run of bytes spells the number in fewer bytes. */
  lemma EncodeIsShortest(v: nat, s: seq<byte>)
    requires Terminated(s) && Raw(s) == v
    ensures |Encode(v)| <= |s|
  {
    RawBound(s);
    EncodeLength(v, |s|);
  }

  // ----- Decoding

  /** What the decoder makes of the number it read: the low 32 bits, taken as negative when
      the number does not fit 63 bits. */
  function Narrow(x: nat): int {
    if x >= SIGN64 then x % MASK32 - MASK32 else x % MASK32
  }

  datatype Decoded = Number(value: int, used: nat) | EndOfFile | TooManyBytes

  /** The length of the run of bytes with bit 7 set at the front of `s`. */
  function Continued(s: seq<byte>): (n: nat)
    ensures n <= |s| && (n < |s| ==> s[n] < 128) && forall i :: 0 <= i < n ==> s[i] >= 128
  {
    if s == [] || s[0] < 128 then 0 else 1 + Continued(s[1..])
  }

  /** A number of at most ten bytes is read whole; running out of file, or of the ten bytes,
      is an error. */
  function Decode(s: seq<byte>): Decoded {
    var n := Continued(s);
    if n < 10 && n < |s| then Number(Narrow(Raw(s[..n + 1])), n + 1)
    else if |s| < 10 then EndOfFile
    else TooManyBytes
  }

  lemma {:induction false} RawSnoc(s: seq<byte>, b: byte)
    ensures Raw(s + [b]) == Raw(s) + (b % 128) * Pow128(|s|)
  {
    if s != [] {
      RawSnoc(s[1..], b);
      assert (s + [b])[1..] == s[1..] + [b];
      Distribute(Raw(s[1..]), b % 128, Pow128(|s| - 1));
    }
  }

  lemma Distribute(a: int, b: int, p: int)
    ensures 128 * (a + b * p) == 128 * a + b * (128 * p)
  {
  }

  method DecodeVarint(s: seq<byte>) returns (r: Decoded)
    ensures r == Decode(s)
  {
    var result: nat, pos: nat := 0, 0;
    var weight: nat := 1;
    while true
      invariant pos < 10 && pos <= |s| && pos <= Continued(s)
      invariant result == Raw(s[..pos]) && weight == Pow128(pos)
      decreases 10 - pos
    {
      if pos == |s| {
        return EndOfFile;
      }
      var b := s[pos];
      RawSnoc(s[..pos], b);
      assert s[..pos + 1] == s[..pos] + [b];
      result := result + (b % 128) * weight;
      pos := pos + 1;
      if b < 128 {
        return Number(Narrow(result), pos);
      }
      weight := weight * 128;
      if pos >= 10 {
        return TooManyBytes;
      }
    }
  }

  lemma {:induction false} ContinuedOf(s: seq<byte>, rest: seq<byte>)
    requires Terminated(s)
    ensures Continued(s + rest) == |s| - 1
  {
    if |s| > 1 {
      ContinuedOf(s[1..], rest);
      assert (s + rest)[1..] == s[1..] + rest;
    }
  }

  lemma TenGroups()
    ensures Pow128(10) == 0x40_0000_0000_0000_0000
  {
    assert Pow128(5) == 0x8_0000_0000;
  }

  /** For every number and whatever follows it in the file: below 2^70 the decoder reads back
      exactly the bytes written and yields the number narrowed to 32 bits; from 2^70 on it
      reports too many bytes. */
  lemma VarintRoundTrip(v: nat, rest: seq<byte>)
    ensures Decode(Encode(v) + rest)
         == if v < 0x8000_0000_0000_0000 then Number(v % 0x1_0000_0000, |Encode(v)|)
            else if v < 0x40_0000_0000_0000_0000 then Number(v % 0x1_0000_0000 - 0x1_0000_0000, |Encode(v)|)
            else TooManyBytes
  {
    EncodeSpells(v);
    TenGroups();
    EncodeLength(v, 10);
    DecodeTerminated(Encode(v), rest);
  }

  /** The same for every spelling of a number, also one with needless bytes: seven bits per byte,
      least significant first, up to the first byte below 128. */
  lemma DecodeTerminated(s: seq<byte>, rest: seq<byte>)
    requires Terminated(s)
    ensures Decode(s + rest)
         == if |s| > 10 then TooManyBytes
            else if Raw(s) < 0x8000_0000_0000_0000 then Number(Raw(s) % 0x1_0000_0000, |s|)
            else Number(Raw(s) % 0x1_0000_0000 - 0x1_0000_0000, |s|)
  {
    ContinuedOf(s, rest);
    assert (s + rest)[..|s|] == s;
  }

  /** Without a byte below 128 it is the end of the file, or too long. */
  lemma DecodeUnterminated(s: seq<byte>)
    requires forall i :: 0 <= i < |s| ==> s[i] >= 128
    ensures Decode(s) == if |s| < 10 then EndOfFile else TooManyBytes
  {
    AllContinued(s);
  }

  lemma {:induction false} AllContinued(s: seq<byte>)
    requires forall i :: 0 <= i < |s| ==> s[i] >= 128
    ensures Continued(s) == |s|
  {
    if s != [] {
      AllContinued(s[1..]);
    }
  }

  /** A file that ends inside a number reads as the end of the file. */
  lemma CutNumberIsEndOfFile(v: nat, n: nat)
    requires n < |Encode(v)| && n < 10
    ensures Decode(Encode(v)[..n]) == EndOfFile
  {
    EncodeSpells(v);
    AllContinued(Encode(v)[..n]);
  }

  // ----- Frames

  datatype Frame = Message(payload: seq<byte>, rest: seq<byte>) | NoMessage

  /** Reading `size` bytes returns what is left when there are fewer, and everything when
      `size` is negative. */
  function Read(s: seq<byte>, size: int): (r: (seq<byte>, seq<byte>))
    ensures r.0 + r.1 == s
  {
    if size < 0 || size > |s| then (s, []) else (s[..size], s[size..])
  }

  function DecodeMessage(s: seq<byte>): (f: Frame)
    ensures f.Message? ==> |f.rest| < |s|
  {
    var d := Decode(s);
    if d.Number? && d.value != 0 then
      var (buf, rest) := Read(s[d.used..], d.value);
      assert |buf| + |rest| == |buf + rest|;
      Message(buf, rest)
    else NoMessage
  }

  /** The payloads that repeated decoding yields. */
  function ReadAll(s: seq<byte>): seq<seq<byte>>
    decreases |s|
  {
    var f := DecodeMessage(s);
    if f.Message? then [f.payload] + ReadAll(f.rest) else []
  }

  function EncodeMessage(payload: seq<byte>): seq<byte> {
    Encode(|payload|) + payload
  }

  function EncodeAll(payloads: seq<seq<byte>>): seq<byte> {
    if payloads == [] then [] else EncodeMessage(payloads[0]) + EncodeAll(payloads[1..])
  }

  lemma RegroupAll(a: seq<seq<byte>>, b: seq<byte>, c: seq<seq<byte>>)
    ensures a + ([b] + c) == (a + [b]) + c
  {
  }

  lemma ReadOneMore(payloads: seq<seq<byte>>, left: seq<byte>)
    ensures var f := DecodeMessage(left);
            payloads + ReadAll(left) == if f.Message? then payloads + [f.payload] + ReadAll(f.rest) else payloads
  {
    hide DecodeMessage;
    var f := DecodeMessage(left);
    if f.Message? {
      RegroupAll(payloads, f.payload, ReadAll(f.rest));
    }
  }

  /** One step of the reading loop, with the varint read by the decoder's own loop. */
  method ReadMessage(left: seq<byte>) returns (f: Frame)
    ensures f == DecodeMessage(left)
  {
    var d := DecodeVarint(left);
    if d.Number? && d.value != 0 {
      var (buf, rest) := Read(left[d.used..], d.value);
      f := Message(buf, rest);
    } else {
      f := NoMessage;
    }
  }

  method ReadMessages(s: seq<byte>) returns (payloads: seq<seq<byte>>)
    ensures payloads == ReadAll(s)
  {
    hide ReadAll, DecodeMessage;
    payloads := [];
    var left := s;
    assert payloads + ReadAll(left) == ReadAll(s);
    while true
      invariant ReadAll(s) == payloads + ReadAll(left)
      decreases |left|
    {
      ReadOneMore(payloads, left);
      var f := ReadMessage(left);
      if f.NoMessage? {
        break;
      }
      payloads, left := payloads + [f.payload], f.rest;
    }
  }

  /** The first message of a file whose first payload is shorter than 2^63 bytes. */
  lemma FirstMessage(payload: seq<byte>, rest: seq<byte>)
    requires |payload| < 0x8000_0000_0000_0000
    ensures var n := |payload| % 0x1_0000_0000;
            DecodeMessage(EncodeMessage(payload) + rest)
              == if n == 0 then NoMessage else Message(payload[..n], payload[n..] + rest)
  {
    var e := Encode(|payload|);
    var s := EncodeMessage(payload) + rest;
    assert s == e + (payload + rest);
    VarintRoundTrip(|payload|, payload + rest);
    assert s[|e|..] == payload + rest;
    var n := |payload| % MASK32;
    assert n <= |payload|;
    assert (payload + rest)[..n] == payload[..n] && (payload + rest)[n..] == payload[n..] + rest;
  }

  predicate Framable(payload: seq<byte>) {
    0 < |payload| < MASK32
  }

  lemma WholePayload(p: seq<byte>, rest: seq<byte>)
    requires Framable(p)
    ensures DecodeMessage(EncodeMessage(p) + rest) == Message(p, rest)
  {
    hide DecodeMessage, EncodeMessage;
    FirstMessage(p, rest);
    assert p[..|p|] == p && p[|p|..] + rest == rest;
  }

  lemma GoodHead(p: seq<byte>, rest: seq<byte>)
    requires Framable(p)
    ensures ReadAll(EncodeMessage(p) + rest) == [p] + ReadAll(rest)
  {
    hide DecodeMessage, EncodeMessage;
    WholePayload(p, rest);
  }

  lemma BadHead(p: seq<byte>, rest: seq<byte>)
    requires |p| < SIGN64 && !Framable(p)
    ensures var all := ReadAll(EncodeMessage(p) + rest);
            all == [] || |all[0]| < |p|
  {
    FirstMessage(p, rest);
  }

  /** Writing payloads and reading the file back returns them if and only if none is empty and
      each is shorter than 2^32 bytes. (Payloads of 2^63 bytes and more are not considered.) */
  lemma {:induction false} FramesRoundTrip(payloads: seq<seq<byte>>)
    requires forall i :: 0 <= i < |payloads| ==> |payloads[i]| < 0x8000_0000_0000_0000
    ensures ReadAll(EncodeAll(payloads)) == payloads
       <==> forall i :: 0 <= i < |payloads| ==> 0 < |payloads[i]| < 0x1_0000_0000
  {
    hide DecodeMessage, EncodeMessage;
    if payloads == [] {
      NothingToRead();
    } else {
      var p, more := payloads[0], payloads[1..];
      if Framable(p) {
        GoodHead(p, EncodeAll(more));
        FramesRoundTrip(more);
        HeadAndTail(payloads);
        SameTail(p, ReadAll(EncodeAll(more)), more);
      } else {
        BadHead(p, EncodeAll(more));
      }
    }
  }

  lemma NothingToRead()
    ensures ReadAll([]) == []
  {
  }

  lemma HeadAndTail(payloads: seq<seq<byte>>)
    requires payloads != []
    ensures payloads == [payloads[0]] + payloads[1..]
    ensures (forall i :: 0 <= i < |payloads| ==> Framable(payloads[i]))
       <==> Framable(payloads[0]) && forall i :: 0 <= i < |payloads[1..]| ==> Framable(payloads[1..][i])
  {
    if Framable(payloads[0]) && forall i :: 0 <= i < |payloads[1..]| ==> Framable(payloads[1..][i]) {
      forall i | 0 <= i < |payloads| ensures Framable(payloads[i]) {
        assert i > 0 ==> payloads[i] == payloads[1..][i - 1];
      }
    }
  }

  lemma SameTail(p: seq<byte>, a: seq<seq<byte>>, b: seq<seq<byte>>)
    ensures [p] + a == [p] + b <==> a == b
  {
    assert ([p] + a)[1..] == a && ([p] + b)[1..] == b;
  }

  /** In a file that ends inside a payload of `size` bytes, the part that is there is handed on
      with no sign of the loss: only the parser of the payload can notice. */
  lemma CutPayloadIsHandedOn(size: nat, part: seq<byte>)
    requires 0 < size < 0x1_0000_0000 && |part| < size
    ensures DecodeMessage(Encode(size) + part) == Message(part, [])
  {
    hide Encode, Decode;
    VarintRoundTrip(size, part);
    DropFront(Encode(size), part);
  }

  lemma DropFront(a: seq<byte>, b: seq<byte>)
    ensures (a + b)[|a|..] == b
  {
  }
}
