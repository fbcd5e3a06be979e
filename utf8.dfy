/**
 * UTF-8 as defined in section 3 of RFC 3629: the encoding of Unicode scalar
 * values as one to four bytes, and the strict decoder that accepts only the
 * well-formed byte sequences of section 4 of RFC 3629 (no overlong forms, no
 * encoded surrogates, nothing above U+10FFFF).
 */
module Utf8 {
  import opened Wrappers

  type Byte = x: int | 0 <= x < 0x100

  predicate IsContinuation(b: Byte) { 0x80 <= b < 0xC0 }

  /** The one to four bytes of a scalar value. */
  function EncodeScalar(c: char): (r: seq<Byte>)
    ensures 1 <= |r| <= 4
    ensures |r| == (if c as int < 0x80 then 1 else if c as int < 0x800 then 2
                    else if c as int < 0x1_0000 then 3 else 4)
  {
    var n := c as int;
    var q1, r1 := n / 64, n % 64;
    var q2, r2 := q1 / 64, q1 % 64;
    var q3, r3 := q2 / 64, q2 % 64;
    if n < 0x80 then [n]
    else if n < 0x800 then [0xC0 + q1, 0x80 + r1]
    else if n < 0x1_0000 then [0xE0 + q2, 0x80 + r2, 0x80 + r1]
    else [0xF0 + q3, 0x80 + r3, 0x80 + r2, 0x80 + r1]
  }

  /** The UTF-8 bytes of a scalar string. */
  function Encode(s: string): (r: seq<Byte>)
    ensures |s| <= |r| <= 4 * |s|
  {
    if s == [] then [] else EncodeScalar(s[0]) + Encode(s[1..])
  }

  /** Decodes the first character of b, with the number of bytes it takes; None when b does not begin with a well-formed sequence. */
  function DecodeFirst(b: seq<Byte>): (r: Option<(char, nat)>)
    ensures r.Some? ==> 1 <= r.value.1 <= |b| && r.value.1 <= 4
  {
    if |b| == 0 then None
    else if b[0] < 0x80 then Some((b[0] as char, 1))
    else if 0xC2 <= b[0] <= 0xDF then
      if 2 <= |b| && IsContinuation(b[1])
      then Some((((b[0] as int - 0xC0) * 64 + (b[1] as int - 0x80)) as char, 2))
      else None
    else if 0xE0 <= b[0] <= 0xEF then
      var lo := if b[0] == 0xE0 then 0xA0 else 0x80;
      var hi := if b[0] == 0xED then 0xA0 else 0xC0;
      if 3 <= |b| && lo <= b[1] < hi && IsContinuation(b[2])
      then
        var n := ((b[0] as int - 0xE0) * 64 + (b[1] as int - 0x80)) * 64 + (b[2] as int - 0x80);
        assert n < 0xD800 || 0xE000 <= n;
        Some((n as char, 3))
      else None
    else if 0xF0 <= b[0] <= 0xF4 then
      var lo := if b[0] == 0xF0 then 0x90 else 0x80;
      var hi := if b[0] == 0xF4 then 0x90 else 0xC0;
      if 4 <= |b| && lo <= b[1] < hi && IsContinuation(b[2]) && IsContinuation(b[3])
      then
        var n := (((b[0] as int - 0xF0) * 64 + (b[1] as int - 0x80)) * 64 + (b[2] as int - 0x80)) * 64 + (b[3] as int - 0x80);
        Some((n as char, 4))
      else None
    else None
  }

  /** The scalar string that b encodes; None when b is not well-formed UTF-8. */
  function Decode(b: seq<Byte>): (r: Option<string>)
    decreases |b|
  {
    if b == [] then Some([])
    else match DecodeFirst(b)
      case None => None
      case Some((c, k)) =>
        match Decode(b[k..])
        case None => None
        case Some(rest) => Some([c] + rest)
  }

  lemma DivMod64(x: int, y: int)
    requires 0 <= y < 64
    ensures (x * 64 + y) / 64 == x && (x * 64 + y) % 64 == y
  {
  }

  /** The bytes of one scalar value decode back to it, whatever follows them. */
  lemma DecodeFirstEncodeScalar(c: char, rest: seq<Byte>)
    ensures DecodeFirst(EncodeScalar(c) + rest) == Some((c, |EncodeScalar(c)|))
  {
    var n := c as int;
    if n < 0x80 {
      assert (EncodeScalar(c) + rest)[0] == n;
    } else if n < 0x800 {
      DecodeFirstEncode2(c, rest);
    } else if n < 0x1_0000 {
      DecodeFirstEncode3(c, rest);
    } else {
      DecodeFirstEncode4(c, rest);
    }
  }

  lemma DecodeFirstEncode2(c: char, rest: seq<Byte>)
    requires 0x80 <= c as int < 0x800
    ensures DecodeFirst(EncodeScalar(c) + rest) == Some((c, 2))
  {
    var n := c as int;
    var q1, r1 := n / 64, n % 64;
    var b := EncodeScalar(c) + rest;
    assert b[0] == 0xC0 + q1 && b[1] == 0x80 + r1;
  }

  lemma DecodeFirstEncode3(c: char, rest: seq<Byte>)
    requires 0x800 <= c as int < 0x1_0000
    ensures DecodeFirst(EncodeScalar(c) + rest) == Some((c, 3))
  {
    var n := c as int;
    var q1, r1 := n / 64, n % 64;
    var q2, r2 := q1 / 64, q1 % 64;
    assert n == q1 * 64 + r1 && q1 == q2 * 64 + r2;
    var b := EncodeScalar(c) + rest;
    assert b[0] == 0xE0 + q2 && b[1] == 0x80 + r2 && b[2] == 0x80 + r1;
    assert (q2 * 64 + r2) * 64 + r1 == n;
  }

  lemma DecodeFirstEncode4(c: char, rest: seq<Byte>)
    requires 0x1_0000 <= c as int
    ensures DecodeFirst(EncodeScalar(c) + rest) == Some((c, 4))
  {
    var n := c as int;
    var q1, r1 := n / 64, n % 64;
    var q2, r2 := q1 / 64, q1 % 64;
    var q3, r3 := q2 / 64, q2 % 64;
    assert n == q1 * 64 + r1 && q1 == q2 * 64 + r2 && q2 == q3 * 64 + r3;
    var b := EncodeScalar(c) + rest;
    assert b[0] == 0xF0 + q3 && b[1] == 0x80 + r3 && b[2] == 0x80 + r2 && b[3] == 0x80 + r1;
    assert ((q3 * 64 + r3) * 64 + r2) * 64 + r1 == n;
  }

  /** A well-formed first sequence is exactly the encoding of the character it decodes to. */
  lemma DecodeFirstIsEncoding(b: seq<Byte>)
    requires DecodeFirst(b).Some?
    ensures b[..DecodeFirst(b).value.1] == EncodeScalar(DecodeFirst(b).value.0)
  {
    var k := DecodeFirst(b).value.1;
    if k == 2 {
      IsEncoding2(b);
    } else if k == 3 {
      IsEncoding3(b);
    } else if k == 4 {
      IsEncoding4(b);
    }
  }

  lemma IsEncoding2(b: seq<Byte>)
    requires DecodeFirst(b).Some? && DecodeFirst(b).value.1 == 2
    ensures b[..2] == EncodeScalar(DecodeFirst(b).value.0)
  {
    DivMod64(b[0] as int - 0xC0, b[1] - 0x80);
  }

  lemma IsEncoding3(b: seq<Byte>)
    requires DecodeFirst(b).Some? && DecodeFirst(b).value.1 == 3
    ensures b[..3] == EncodeScalar(DecodeFirst(b).value.0)
  {
    var q1 := (b[0] as int - 0xE0) * 64 + (b[1] as int - 0x80);
    DivMod64(q1, b[2] - 0x80);
    DivMod64(b[0] as int - 0xE0, b[1] - 0x80);
  }

  lemma IsEncoding4(b: seq<Byte>)
    requires DecodeFirst(b).Some? && DecodeFirst(b).value.1 == 4
    ensures b[..4] == EncodeScalar(DecodeFirst(b).value.0)
  {
    var q2 := (b[0] as int - 0xF0) * 64 + (b[1] as int - 0x80);
    var q1 := q2 * 64 + (b[2] as int - 0x80);
    DivMod64(q1, b[3] - 0x80);
    DivMod64(q2, b[2] - 0x80);
    DivMod64(b[0] as int - 0xF0, b[1] - 0x80);
  }

  /** Decoding undoes encoding (RFC 3629, section 3). */
  lemma {:induction false} DecodeEncode(s: string)
    ensures Decode(Encode(s)) == Some(s)
  {
    if s != [] {
      var e := EncodeScalar(s[0]);
      DecodeFirstEncodeScalar(s[0], Encode(s[1..]));
      assert (e + Encode(s[1..]))[|e|..] == Encode(s[1..]);
      DecodeEncode(s[1..]);
      assert [s[0]] + s[1..] == s;
    }
  }

  /** The decoder accepts only canonical input: whatever it decodes is the encoding of its result. */
  lemma {:induction false} EncodeDecode(b: seq<Byte>)
    requires Decode(b).Some?
    ensures Encode(Decode(b).value) == b
    decreases |b|
  {
    if b != [] {
      var c, k := DecodeFirst(b).value.0, DecodeFirst(b).value.1;
      var tail := Decode(b[k..]).value;
      var s := Decode(b).value;
      assert s == [c] + tail;
      DecodeFirstIsEncoding(b);
      EncodeDecode(b[k..]);
      assert s[0] == c && s[1..] == tail;
      assert Encode(s) == EncodeScalar(c) + Encode(tail);
      assert b == b[..k] + b[k..];
    }
  }
}
