/**
 * Base64 with the standard alphabet and `=` padding (section 4 of RFC 4648),
 * over JavaScript strings. Encode is what `btoa` computes on a binary string;
 * Decode is what `atob` computes, which follows the WHATWG "forgiving-base64
 * decode" algorithm: ASCII whitespace is ignored, padding is optional, a
 * length of 1 modulo 4 or any character outside the alphabet is an error, and
 * the unused low bits of the last symbol are discarded.
 */
module Base64 {
  import opened Wrappers
  import opened Utf16
  import opened Utf8

  /** A six-bit value, the content of one Base64 character. */
  type Sextet = x: int | 0 <= x < 64

  const Pad: CodeUnit := 0x3D  // '='

  /** The character for a six-bit value: A-Z, a-z, 0-9, '+', '/'. */
  function Symbol(v: Sextet): CodeUnit {
    if v < 26 then 0x41 + v
    else if v < 52 then 0x61 + (v - 26)
    else if v < 62 then 0x30 + (v - 52)
    else if v == 62 then 0x2B
    else 0x2F
  }

  /** The six-bit value of a character; None for a character outside the alphabet. */
  function SymbolValue(u: CodeUnit): (r: Option<Sextet>)
    ensures r.Some? ==> Symbol(r.value) == u
  {
    if 0x41 <= u <= 0x5A then Some(u - 0x41)
    else if 0x61 <= u <= 0x7A then Some(u - 0x61 + 26)
    else if 0x30 <= u <= 0x39 then Some(u - 0x30 + 52)
    else if u == 0x2B then Some(62)
    else if u == 0x2F then Some(63)
    else None
  }

  /** The six-bit values of three bytes. */
  function Split(b0: Byte, b1: Byte, b2: Byte): seq<Sextet> {
    [b0 / 4, (b0 % 4) * 16 + b1 / 16, (b1 % 16) * 4 + b2 / 64, b2 % 64]
  }

  /** The six-bit values of the encoding: four per group of three bytes, two or three for a final partial group. */
  function ToSextets(b: seq<Byte>): (r: seq<Sextet>)
    ensures |r| == 4 * (|b| / 3) + (if |b| % 3 == 0 then 0 else |b| % 3 + 1)
  {
    if |b| == 0 then []
    else if |b| == 1 then Split(b[0], 0, 0)[..2]
    else if |b| == 2 then Split(b[0], b[1], 0)[..3]
    else Split(b[0], b[1], b[2]) + ToSextets(b[3..])
  }

  /** The bytes carried by six-bit values; two values give one byte, three give two, low bits left over are dropped. */
  function FromSextets(v: seq<Sextet>): (r: seq<Byte>)
    requires |v| % 4 != 1
  {
    if |v| == 0 then []
    else if |v| == 2 then [v[0] as int * 4 + v[1] / 16]
    else if |v| == 3 then [v[0] as int * 4 + v[1] / 16, (v[1] as int % 16) * 16 + v[2] / 4]
    else [v[0] as int * 4 + v[1] / 16, (v[1] as int % 16) * 16 + v[2] / 4, (v[2] as int % 4) * 64 + v[3]] + FromSextets(v[4..])
  }

  function Symbols(v: seq<Sextet>): (r: JsString)
    ensures |r| == |v|
  {
    if v == [] then [] else [Symbol(v[0])] + Symbols(v[1..])
  }

  /** The six-bit values of alphabet text; None as soon as one character is outside the alphabet. */
  function Values(t: JsString): (r: Option<seq<Sextet>>)
    ensures r.Some? ==> |r.value| == |t|
  {
    if t == [] then Some([])
    else
      var x, rest := SymbolValue(t[0]), Values(t[1..]);
      if x.Some? && rest.Some? then Some([x.value] + rest.value) else None
  }

  /** The `=` characters that fill the last group up to four characters. */
  function Padding(n: nat): (r: JsString)
    ensures |r| == (3 - n % 3) % 3
  {
    if n % 3 == 1 then [Pad, Pad] else if n % 3 == 2 then [Pad] else []
  }

  /** The padded Base64 text of a byte sequence, as `btoa` produces it. */
  function Encode(b: seq<Byte>): (r: JsString)
    ensures |r| == 4 * ((|b| + 2) / 3)
  {
    Symbols(ToSextets(b)) + Padding(|b|)
  }

  predicate IsAsciiWhitespace(u: CodeUnit) {
    u == 0x09 || u == 0x0A || u == 0x0C || u == 0x0D || u == 0x20
  }

  function StripWhitespace(s: JsString): JsString {
    if s == [] then []
    else if IsAsciiWhitespace(s[0]) then StripWhitespace(s[1..])
    else [s[0]] + StripWhitespace(s[1..])
  }

  /** A length that is a multiple of four loses one or two trailing `=`. */
  function StripPadding(t: JsString): JsString {
    if |t| % 4 == 0 && 1 <= |t| && t[|t| - 1] == Pad then
      if 2 <= |t| && t[|t| - 2] == Pad then t[..|t| - 2] else t[..|t| - 1]
    else t
  }

  /** What `atob` yields: the decoded bytes, or None where it throws an InvalidCharacterError. */
  function Decode(s: JsString): Option<seq<Byte>> {
    var t := StripPadding(StripWhitespace(s));
    if |t| % 4 == 1 then None
    else match Values(t)
      case None => None
      case Some(v) => Some(FromSextets(v))
  }

  lemma SymbolRoundTrip(v: Sextet)
    ensures SymbolValue(Symbol(v)) == Some(v)
  {
  }

  lemma DivMod(x: int, y: int, k: int)
    requires k == 4 || k == 16 || k == 64
    requires 0 <= y < k
    ensures (x * k + y) / k == x && (x * k + y) % k == y
  {
  }

  /** The six-bit values of three bytes give back the three bytes. */
  lemma SplitJoins(b0: Byte, b1: Byte, b2: Byte)
    ensures var v := Split(b0, b1, b2);
            && v[0] as int * 4 + v[1] / 16 == b0
            && (v[1] as int % 16) * 16 + v[2] / 4 == b1
            && (v[2] as int % 4) * 64 + v[3] == b2
  {
    DivMod(b0 % 4, b1 / 16, 16);
    DivMod(b1 % 16, b2 / 64, 4);
  }

  /** A full group of four values is read as its three bytes, followed by whatever the rest gives. */
  lemma {:induction false} JoinGroup(b0: Byte, b1: Byte, b2: Byte, rest: seq<Sextet>)
    requires |rest| % 4 != 1
    ensures FromSextets(Split(b0, b1, b2) + rest) == [b0, b1, b2] + FromSextets(rest)
  {
    var v := Split(b0, b1, b2) + rest;
    SplitJoins(b0, b1, b2);
    assert v[..4] == Split(b0, b1, b2) && v[4..] == rest;
  }

  /** The two or three values of a final partial group are read as its one or two bytes. */
  lemma {:induction false} JoinPartial(b: seq<Byte>)
    requires 1 <= |b| <= 2
    ensures FromSextets(ToSextets(b)) == b
  {
    if |b| == 1 {
      SplitJoins(b[0], 0, 0);
    } else {
      SplitJoins(b[0], b[1], 0);
    }
  }

  /** Joining the six-bit values of the encoding gives back the bytes. */
  lemma {:induction false} FromToSextets(b: seq<Byte>)
    ensures FromSextets(ToSextets(b)) == b
  {
    if 1 <= |b| <= 2 {
      JoinPartial(b);
    } else if |b| >= 3 {
      var rest := ToSextets(b[3..]);
      SextetCount(|b[3..]|);
      assert |rest| % 4 != 1;
      assert ToSextets(b) == Split(b[0], b[1], b[2]) + rest;
      FromToSextets(b[3..]);
      JoinGroup(b[0], b[1], b[2], rest);
      assert b == [b[0], b[1], b[2]] + b[3..];
    }
  }

  /** Reading the characters of six-bit values gives back the values. */
  lemma {:induction false} ValuesSymbols(v: seq<Sextet>)
    ensures Values(Symbols(v)) == Some(v)
  {
    if v != [] {
      var t := Symbols(v);
      assert t[1..] == Symbols(v[1..]);
      ValuesSymbols(v[1..]);
      SymbolRoundTrip(v[0]);
      assert v == [v[0]] + v[1..];
    }
  }

  lemma {:induction false} SymbolsAreText(v: seq<Sextet>)
    ensures forall i :: 0 <= i < |Symbols(v)| ==> Symbols(v)[i] != Pad && !IsAsciiWhitespace(Symbols(v)[i])
  {
    if v != [] {
      SymbolsAreText(v[1..]);
      assert forall i :: 1 <= i < |Symbols(v)| ==> Symbols(v)[i] == Symbols(v[1..])[i - 1];
    }
  }

  lemma {:induction false} StripWhitespaceNone(s: JsString)
    requires forall i :: 0 <= i < |s| ==> !IsAsciiWhitespace(s[i])
    ensures StripWhitespace(s) == s
  {
    if s != [] {
      StripWhitespaceNone(s[1..]);
      assert s == [s[0]] + s[1..];
    }
  }

  /** Text that reduces, once whitespace and padding are dropped, to the characters of v decodes to the bytes of v. */
  lemma DecodeReduced(s: JsString, v: seq<Sextet>)
    requires |v| % 4 != 1
    requires StripPadding(StripWhitespace(s)) == Symbols(v)
    ensures Decode(s) == Some(FromSextets(v))
  {
    ValuesSymbols(v);
  }

  lemma SextetCount(n: nat)
    ensures (4 * (n / 3) + (if n % 3 == 0 then 0 else n % 3 + 1)) % 4 != 1
  {
  }

  lemma StripPaddingOf(g: JsString, p: JsString)
    requires forall i :: 0 <= i < |g| ==> g[i] != Pad
    requires p == [] || p == [Pad] || p == [Pad, Pad]
    requires (|g| + |p|) % 4 == 0
    requires p != [] ==> |g| >= 1
    ensures StripPadding(g + p) == g
  {
    var e := g + p;
    if p == [] {
      assert e == g;
    } else if p == [Pad] {
      assert e[..|e| - 1] == g;
      assert e[|e| - 2] == g[|g| - 1];
    } else {
      assert e[..|e| - 2] == g;
    }
  }

  lemma StripPaddingEncode(b: seq<Byte>)
    ensures StripPadding(Encode(b)) == Symbols(ToSextets(b))
  {
    var g, p := Symbols(ToSextets(b)), Padding(|b|);
    SymbolsAreText(ToSextets(b));
    assert |Encode(b)| == |g| + |p|;
    StripPaddingOf(g, p);
  }

  lemma EncodeHasNoWhitespace(b: seq<Byte>)
    ensures StripWhitespace(Encode(b)) == Encode(b)
  {
    var g, e := Symbols(ToSextets(b)), Encode(b);
    SymbolsAreText(ToSextets(b));
    assert e == g + Padding(|b|);
    assert forall i :: 0 <= i < |e| ==> !IsAsciiWhitespace(e[i]) by {
      forall i | 0 <= i < |e| ensures !IsAsciiWhitespace(e[i]) {
        if i < |g| { assert e[i] == g[i]; } else { assert e[i] == Pad; }
      }
    }
    StripWhitespaceNone(e);
  }

  /** `atob` undoes `btoa`: the padded encoding of any byte sequence decodes to it. */
  lemma DecodeEncode(b: seq<Byte>)
    ensures Decode(Encode(b)) == Some(b)
  {
    EncodeHasNoWhitespace(b);
    StripPaddingEncode(b);
    SextetCount(|b|);
    DecodeReduced(Encode(b), ToSextets(b));
    FromToSextets(b);
  }

  /** Text without whitespace whose length is 1 modulo 4 is rejected. */
  lemma OneModFourRejected(s: JsString)
    requires forall i :: 0 <= i < |s| ==> !IsAsciiWhitespace(s[i])
    requires |s| % 4 == 1
    ensures Decode(s) == None
  {
    StripWhitespaceNone(s);
  }

  /** `atob` also accepts the encoding with its padding left off. */
  lemma DecodeUnpadded(b: seq<Byte>)
    ensures Decode(Symbols(ToSextets(b))) == Some(b)
  {
    var g := Symbols(ToSextets(b));
    SymbolsAreText(ToSextets(b));
    StripWhitespaceNone(g);
    SextetCount(|b|);
    assert |g| > 0 ==> g[|g| - 1] != Pad;
    assert StripPadding(g) == g;
    DecodeReduced(g, ToSextets(b));
    FromToSextets(b);
  }
}
