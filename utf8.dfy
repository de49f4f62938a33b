/** UTF-8 as Rust's `String` stores text: the encoding of a Unicode scalar value
    and the validating decoder behind `String::from_utf8`, following the table
    of well-formed byte sequences in section 4 of RFC 3629. */
module Utf8 {
  import opened Wrappers

  type byte = x: int | 0 <= x < 256

  predicate IsContinuation(b: byte) {
    0x80 <= b <= 0xBF
  }

  /** Number of bytes of the UTF-8 encoding of `c`. */
  function CharLen(c: char): (n: nat)
    ensures 1 <= n <= 4
  {
    var v := c as int;
    if v < 0x80 then 1 else if v < 0x800 then 2 else if v < 0x10000 then 3 else 4
  }

  function EncodeChar(c: char): (bs: seq<byte>)
    ensures |bs| == CharLen(c)
  {
    var v := c as int;
    if v < 0x80 then [v]
    else if v < 0x800 then [0xC0 + v / 64, 0x80 + v % 64]
    else if v < 0x10000 then [0xE0 + v / 4096, 0x80 + (v / 64) % 64, 0x80 + v % 64]
    else [0xF0 + v / 262144, 0x80 + (v / 4096) % 64, 0x80 + (v / 64) % 64, 0x80 + v % 64]
  }

  /** The bytes of a Rust `String` holding `s`. */
  function Encode(s: string): (bs: seq<byte>)
    decreases |s|
  {
    if |s| == 0 then [] else EncodeChar(s[0]) + Encode(s[1..])
  }

  /** Allowed second byte of a three-byte sequence led by `b0` (E0..EF). */
  predicate SecondOfThree(b0: byte, b1: byte) {
    if b0 == 0xE0 then 0xA0 <= b1 <= 0xBF
    else if b0 == 0xED then 0x80 <= b1 <= 0x9F
    else IsContinuation(b1)
  }

  /** Allowed second byte of a four-byte sequence led by `b0` (F0..F4). */
  predicate SecondOfFour(b0: byte, b1: byte) {
    if b0 == 0xF0 then 0x90 <= b1 <= 0xBF
    else if b0 == 0xF4 then 0x80 <= b1 <= 0x8F
    else IsContinuation(b1)
  }

  /** The first scalar value of `bs` and the number of bytes it takes, or None
      when `bs` does not start with a well-formed sequence. */
  function DecodeFirst(bs: seq<byte>): (r: Option<(char, nat)>)
    ensures r.Some? ==> 1 <= r.value.1 <= |bs|
  {
    if |bs| == 0 then None
    else
      var b0: int := bs[0];
      if b0 < 0x80 then Some((b0 as char, 1))
      else if 0xC2 <= b0 <= 0xDF then
        if |bs| >= 2 && IsContinuation(bs[1])
        then Some((Value2(b0, bs[1]) as char, 2))
        else None
      else if 0xE0 <= b0 <= 0xEF then
        if |bs| >= 3 && SecondOfThree(b0, bs[1]) && IsContinuation(bs[2])
        then Some((Value3(b0, bs[1], bs[2]) as char, 3))
        else None
      else if 0xF0 <= b0 <= 0xF4 then
        if |bs| >= 4 && SecondOfFour(b0, bs[1]) && IsContinuation(bs[2]) && IsContinuation(bs[3])
        then Some((Value4(b0, bs[1], bs[2], bs[3]) as char, 4))
        else None
      else None
  }

  function Value2(b0: int, b1: int): (v: int)
    requires 0xC2 <= b0 <= 0xDF && 0x80 <= b1 <= 0xBF
    ensures 0x80 <= v < 0x800
  {
    (b0 - 0xC0) * 64 + (b1 - 0x80)
  }

  function Value3(b0: byte, b1: byte, b2: byte): (v: int)
    requires 0xE0 <= b0 <= 0xEF && SecondOfThree(b0, b1) && IsContinuation(b2)
    ensures 0x800 <= v < 0xD800 || 0xE000 <= v < 0x10000
  {
    (b0 - 0xE0) as int * 4096 + (b1 - 0x80) as int * 64 + (b2 - 0x80) as int
  }

  function Value4(b0: byte, b1: byte, b2: byte, b3: byte): (v: int)
    requires 0xF0 <= b0 <= 0xF4 && SecondOfFour(b0, b1) && IsContinuation(b2) && IsContinuation(b3)
    ensures 0x10000 <= v < 0x110000
  {
    (b0 - 0xF0) as int * 262144 + (b1 - 0x80) as int * 4096 + (b2 - 0x80) as int * 64 + (b3 - 0x80) as int
  }

  /** `String::from_utf8`: the text `bs` encodes, or None when it is not UTF-8. */
  function Decode(bs: seq<byte>): Option<string>
    decreases |bs|
  {
    if |bs| == 0 then Some([])
    else
      match DecodeFirst(bs)
      case None => None
      case Some(p) =>
        match Decode(bs[p.1..])
        case None => None
        case Some(rest) => Some([p.0] + rest)
  }

  predicate IsUtf8(bs: seq<byte>) {
    Decode(bs).Some?
  }

  lemma DecodeFirstEncodeChar(c: char, rest: seq<byte>)
    ensures DecodeFirst(EncodeChar(c) + rest) == Some((c, CharLen(c)))
  {
    var v := c as int;
    var bs := EncodeChar(c) + rest;
    if v < 0x80 {
    } else if v < 0x800 {
      Split2(v);
      assert bs[0] == 0xC0 + v / 64 && bs[1] == 0x80 + v % 64;
    } else if v < 0x10000 {
      Split3(v);
      assert bs[0] == 0xE0 + v / 4096 && bs[1] == 0x80 + (v / 64) % 64 && bs[2] == 0x80 + v % 64;
    } else {
      Split4(v);
      assert bs[0] == 0xF0 + v / 262144 && bs[1] == 0x80 + (v / 4096) % 64;
      assert bs[2] == 0x80 + (v / 64) % 64 && bs[3] == 0x80 + v % 64;
    }
  }

  lemma Split2(v: int)
    requires 0x80 <= v < 0x800
    ensures 0xC2 <= 0xC0 + v / 64 <= 0xDF
    ensures Value2(0xC0 + v / 64, 0x80 + v % 64) == v
  {
  }

  lemma Split3(v: int)
    requires 0x800 <= v < 0xD800 || 0xE000 <= v < 0x10000
    ensures 0xE0 <= 0xE0 + v / 4096 <= 0xEF
    ensures SecondOfThree(0xE0 + v / 4096, 0x80 + (v / 64) % 64)
    ensures Value3(0xE0 + v / 4096, 0x80 + (v / 64) % 64, 0x80 + v % 64) == v
  {
    var q, m, l := v / 4096, (v / 64) % 64, v % 64;
    assert v / 64 == q * 64 + m;
    assert v == q * 4096 + m * 64 + l;
  }

  lemma Split4(v: int)
    requires 0x10000 <= v < 0x110000
    ensures 0xF0 <= 0xF0 + v / 262144 <= 0xF4
    ensures SecondOfFour(0xF0 + v / 262144, 0x80 + (v / 4096) % 64)
    ensures Value4(0xF0 + v / 262144, 0x80 + (v / 4096) % 64, 0x80 + (v / 64) % 64, 0x80 + v % 64) == v
  {
    var q, m1, m2, l := v / 262144, (v / 4096) % 64, (v / 64) % 64, v % 64;
    assert v / 4096 == q * 64 + m1;
    assert v / 64 == (v / 4096) * 64 + m2;
    assert v == q * 262144 + m1 * 4096 + m2 * 64 + l;
  }

  /** Decoding the encoding of a text gives the text back, so a `String` is
      always valid UTF-8. */
  lemma {:induction false} DecodeEncode(s: string)
    ensures Decode(Encode(s)) == Some(s)
    decreases |s|
  {
    if |s| > 0 {
      var bs := Encode(s);
      DecodeFirstEncodeChar(s[0], Encode(s[1..]));
      assert bs[CharLen(s[0])..] == Encode(s[1..]);
      DecodeEncode(s[1..]);
      assert [s[0]] + s[1..] == s;
    }
  }

  /** Encoding distributes over concatenation. */
  lemma {:induction false} EncodeAppend(s: string, t: string)
    ensures Encode(s + t) == Encode(s) + Encode(t)
    decreases |s|
  {
    if |s| > 0 {
      assert (s + t)[1..] == s[1..] + t;
      EncodeAppend(s[1..], t);
    } else {
      assert s + t == t;
    }
  }

  /** The text of a sequence of ASCII bytes, one character per byte. */
  function AsciiText(bs: seq<byte>): (t: string)
    requires forall i :: 0 <= i < |bs| ==> bs[i] < 0x80
    ensures |t| == |bs|
    ensures forall i :: 0 <= i < |bs| ==> t[i] as int == bs[i]
    decreases |bs|
  {
    if |bs| == 0 then [] else [bs[0] as char] + AsciiText(bs[1..])
  }

  /** ASCII text is stored as its own bytes. */
  lemma {:induction false} EncodeAsciiText(bs: seq<byte>)
    requires forall i :: 0 <= i < |bs| ==> bs[i] < 0x80
    ensures Encode(AsciiText(bs)) == bs
    decreases |bs|
  {
    if |bs| > 0 {
      var t := AsciiText(bs);
      assert t[1..] == AsciiText(bs[1..]);
      EncodeAsciiText(bs[1..]);
      EncodeCharAscii(t[0]);
      assert Encode(t) == EncodeChar(t[0]) + Encode(t[1..]);
      assert [bs[0]] + bs[1..] == bs;
    }
  }

  lemma EncodeCharAscii(c: char)
    requires c as int < 0x80
    ensures EncodeChar(c) == [c as int]
  {
  }

  /** A valid text is the encoding of what it decodes to, so decoding is
      injective. */
  lemma {:induction false} EncodeDecode(bs: seq<byte>, s: string)
    requires Decode(bs) == Some(s)
    ensures Encode(s) == bs
    decreases |bs|
  {
    if |bs| > 0 {
      var p := DecodeFirst(bs).value;
      var rest := Decode(bs[p.1..]).value;
      EncodeDecode(bs[p.1..], rest);
      DecodeFirstRead(bs);
      assert s == [p.0] + rest;
      assert s[1..] == rest;
      assert Encode(s) == EncodeChar(s[0]) + Encode(s[1..]);
      assert bs == bs[..p.1] + bs[p.1..];
    }
  }

  /** A scalar value is read from exactly the bytes of its encoding. */
  lemma DecodeFirstRead(bs: seq<byte>)
    requires DecodeFirst(bs).Some?
    ensures var p := DecodeFirst(bs).value;
      p.1 == CharLen(p.0) && EncodeChar(p.0) == bs[..p.1]
  {
    var b0: int := bs[0];
    if 0x80 <= b0 <= 0xDF {
      Read2(bs[0], bs[1]);
      assert bs[..2] == [bs[0], bs[1]];
    } else if 0xE0 <= b0 <= 0xEF {
      Read3(bs[0], bs[1], bs[2]);
      assert bs[..3] == [bs[0], bs[1], bs[2]];
    } else if 0xF0 <= b0 {
      Read4(bs[0], bs[1], bs[2], bs[3]);
      assert bs[..4] == [bs[0], bs[1], bs[2], bs[3]];
    }
  }

  lemma Read2(b0: byte, b1: byte)
    requires 0xC2 <= b0 <= 0xDF && IsContinuation(b1)
    ensures EncodeChar(Value2(b0, b1) as char) == [b0, b1]
  {
    var v := Value2(b0, b1);
    assert v / 64 == b0 - 0xC0 && v % 64 == b1 - 0x80;
  }

  lemma Read3(b0: byte, b1: byte, b2: byte)
    requires 0xE0 <= b0 <= 0xEF && SecondOfThree(b0, b1) && IsContinuation(b2)
    ensures EncodeChar(Value3(b0, b1, b2) as char) == [b0, b1, b2]
  {
    var v := Value3(b0, b1, b2);
    var hi := (b0 - 0xE0) as int * 64 + (b1 - 0x80) as int;
    assert v == hi * 64 + (b2 - 0x80) as int;
    assert v / 64 == hi && v % 64 == (b2 - 0x80) as int;
    assert hi / 64 == (b0 - 0xE0) as int && hi % 64 == (b1 - 0x80) as int;
    DivDiv(v, 64);
  }

  lemma Read4(b0: byte, b1: byte, b2: byte, b3: byte)
    requires 0xF0 <= b0 <= 0xF4 && SecondOfFour(b0, b1) && IsContinuation(b2) && IsContinuation(b3)
    ensures EncodeChar(Value4(b0, b1, b2, b3) as char) == [b0, b1, b2, b3]
  {
    var v := Value4(b0, b1, b2, b3);
    var h1 := (b0 - 0xF0) as int * 64 + (b1 - 0x80) as int;
    var h2 := h1 * 64 + (b2 - 0x80) as int;
    assert v == h2 * 64 + (b3 - 0x80) as int;
    assert v / 64 == h2 && v % 64 == (b3 - 0x80) as int;
    assert h2 / 64 == h1 && h2 % 64 == (b2 - 0x80) as int;
    assert h1 / 64 == (b0 - 0xF0) as int && h1 % 64 == (b1 - 0x80) as int;
    DivDiv(v, 64);
    DivDiv(v, 4096);
  }

  lemma DivDiv(v: nat, a: nat)
    requires a == 64 || a == 4096
    ensures v / a / 64 == v / (a * 64)
  {
    var q := v / (a * 64);
    var r := v % (a * 64);
    assert v == q * (a * 64) + r;
    assert v / a == q * 64 + r / a;
    assert 0 <= r / a < 64;
  }

}
