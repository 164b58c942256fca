/** Strict UTF-8, as Python's `str.encode('utf-8')` and `str(b, 'utf-8')` use
    it: a Dafny `char` is a Unicode scalar value, encoded in one to four bytes;
    decoding rejects overlong forms, encoded surrogates, code points above
    U+10FFFF and truncated or stray continuation bytes. */
module Utf8 {
  import opened Wrappers

  newtype byte = x: int | 0 <= x < 256

  predicate IsContinuation(b: byte) {
    0x80 <= b < 0xC0
  }

  /** The bytes of one scalar value. */
  function EncodeChar(c: char): (r: seq<byte>)
    ensures 1 <= |r| <= 4
  {
    var n := c as int;
    if n < 0x80 then
      [n as byte]
    else if n < 0x800 then
      [(0xC0 + n / 64) as byte, (0x80 + n % 64) as byte]
    else if n < 0x10000 then
      [(0xE0 + n / 4096) as byte, (0x80 + (n / 64) % 64) as byte, (0x80 + n % 64) as byte]
    else
      [(0xF0 + n / 262144) as byte, (0x80 + (n / 4096) % 64) as byte,
       (0x80 + (n / 64) % 64) as byte, (0x80 + n % 64) as byte]
  }

  function Encode(s: string): seq<byte>
  {
    if s == [] then [] else EncodeChar(s[0]) + Encode(s[1..])
  }

  /** The scalar value at the head of `b` and how many bytes it occupies, or
      None when `b` does not start with a well-formed sequence. */
  function DecodeFirst(b: seq<byte>): (r: Option<(char, nat)>)
    requires |b| > 0
    ensures r.Some? ==> 1 <= r.value.1 <= |b|
  {
    var b0 := b[0] as int;
    if b0 < 0x80 then
      Some((b0 as char, 1))
    else if 0xC2 <= b0 < 0xE0 && |b| >= 2 && IsContinuation(b[1]) then
      var n := (b0 - 0xC0) * 64 + (b[1] as int - 0x80);
      Some((n as char, 2))
    else if 0xE0 <= b0 < 0xF0 && |b| >= 3 && IsContinuation(b[1]) && IsContinuation(b[2]) then
      var n := (b0 - 0xE0) * 4096 + (b[1] as int - 0x80) * 64 + (b[2] as int - 0x80);
      if 0x800 <= n && !(0xD800 <= n < 0xE000) then Some((n as char, 3)) else None
    else if 0xF0 <= b0 < 0xF5 && |b| >= 4 && IsContinuation(b[1]) && IsContinuation(b[2])
            && IsContinuation(b[3]) then
      var n := (b0 - 0xF0) * 262144 + (b[1] as int - 0x80) * 4096
               + (b[2] as int - 0x80) * 64 + (b[3] as int - 0x80);
      if 0x10000 <= n <= 0x10FFFF then Some((n as char, 4)) else None
    else
      None
  }

  /** `str(b, 'utf-8')`: None stands for the UnicodeDecodeError it raises. */
  function Decode(b: seq<byte>): Option<string>
    decreases |b|
  {
    if b == [] then Some([])
    else
      match DecodeFirst(b)
      case None => None
      case Some((c, k)) =>
        match Decode(b[k..])
        case None => None
        case Some(rest) => Some([c] + rest)
  }

  /** Decoding the head of an encoded scalar value gives that value back. */
  lemma DecodeFirstEncodeChar(c: char, rest: seq<byte>)
    ensures DecodeFirst(EncodeChar(c) + rest) == Some((c, |EncodeChar(c)|))
  {
    var n := c as int;
    var b := EncodeChar(c) + rest;
    if n < 0x80 {
    } else if n < 0x800 {
      assert (n / 64) * 64 + n % 64 == n;
    } else if n < 0x10000 {
      assert (n / 4096) * 4096 + ((n / 64) % 64) * 64 + n % 64 == n;
    } else {
      assert (n / 262144) * 262144 + ((n / 4096) % 64) * 4096 + ((n / 64) % 64) * 64 + n % 64 == n;
    }
  }

  /** A well-formed head is the encoding of the scalar value it decodes to. */
  lemma EncodeCharDecodeFirst(b: seq<byte>)
    requires |b| > 0 && DecodeFirst(b).Some?
    ensures EncodeChar(DecodeFirst(b).value.0) == b[..DecodeFirst(b).value.1]
  {
    var b0 := b[0] as int;
    var (c, k) := DecodeFirst(b).value;
    var n := c as int;
    if b0 < 0x80 {
    } else if k == 2 {
      var x1 := b[1] as int - 0x80;
      assert n == (b0 - 0xC0) * 64 + x1;
      SplitBase64(b0 - 0xC0, x1);
    } else if k == 3 {
      var x1, x2 := b[1] as int - 0x80, b[2] as int - 0x80;
      assert n == ((b0 - 0xE0) * 64 + x1) * 64 + x2;
      SplitBase64((b0 - 0xE0) * 64 + x1, x2);
      SplitBase64(b0 - 0xE0, x1);
      assert n / 4096 == (n / 64) / 64;
    } else {
      var x1, x2, x3 := b[1] as int - 0x80, b[2] as int - 0x80, b[3] as int - 0x80;
      assert n == (((b0 - 0xF0) * 64 + x1) * 64 + x2) * 64 + x3;
      SplitBase64(((b0 - 0xF0) * 64 + x1) * 64 + x2, x3);
      SplitBase64((b0 - 0xF0) * 64 + x1, x2);
      SplitBase64(b0 - 0xF0, x1);
      assert n / 4096 == (n / 64) / 64;
      assert n / 262144 == ((n / 64) / 64) / 64;
    }
  }

  /** Six payload bits appended below `hi` come back out by division by 64. */
  lemma SplitBase64(hi: int, lo: int)
    requires 0 <= hi && 0 <= lo < 64
    ensures (hi * 64 + lo) / 64 == hi && (hi * 64 + lo) % 64 == lo
  {
  }

  /** Round trip: every string survives encoding then decoding. */
  lemma {:induction false} DecodeEncode(s: string)
    ensures Decode(Encode(s)) == Some(s)
  {
    if s != [] {
      var head := EncodeChar(s[0]);
      DecodeFirstEncodeChar(s[0], Encode(s[1..]));
      assert (head + Encode(s[1..]))[|head|..] == Encode(s[1..]);
      DecodeEncode(s[1..]);
      assert [s[0]] + s[1..] == s;
    }
  }

  /** Round trip the other way: bytes that decode are the encoding of what they decode to. */
  lemma {:induction false} EncodeDecode(b: seq<byte>)
    requires Decode(b).Some?
    ensures Encode(Decode(b).value) == b
    decreases |b|
  {
    if b != [] {
      var (c, k) := DecodeFirst(b).value;
      EncodeCharDecodeFirst(b);
      EncodeDecode(b[k..]);
      var s := Decode(b).value;
      assert s == [c] + Decode(b[k..]).value;
      assert s[1..] == Decode(b[k..]).value;
      assert b == b[..k] + b[k..];
    }
  }

  /** `str(b, 'utf-8') == t` holds exactly when `b` is the UTF-8 encoding of `t`. */
  lemma DecodesTo(b: seq<byte>, t: string)
    ensures Decode(b) == Some(t) <==> b == Encode(t)
  {
    if Decode(b) == Some(t) {
      EncodeDecode(b);
    }
    if b == Encode(t) {
      DecodeEncode(t);
    }
  }

  /** Distinct strings have distinct encodings. */
  lemma EncodeInjective(s: string, t: string)
    ensures Encode(s) == Encode(t) <==> s == t
  {
    if Encode(s) == Encode(t) {
      DecodeEncode(s);
      DecodeEncode(t);
    }
  }
}
