/**
 * JavaScript strings: sequences of UTF-16 code units. A string is well formed
 * when it has no lone surrogate; only then does it denote a sequence of
 * Unicode scalar values (Dafny `string`, whose `char` is a scalar value).
 */
module Utf16 {
  import opened Wrappers

  type CodeUnit = x: int | 0 <= x < 0x1_0000

  /** A JavaScript string value. */
  type JsString = seq<CodeUnit>

  predicate IsHighSurrogate(u: int) { 0xD800 <= u < 0xDC00 }
  predicate IsLowSurrogate(u: int) { 0xDC00 <= u < 0xE000 }

  /** The unit at index i is not a lone surrogate: a high one has a low one after it, a low one a high one before it. */
  ghost predicate PairedAt(s: JsString, i: int)
    requires 0 <= i < |s|
  {
    && (IsHighSurrogate(s[i]) ==> i + 1 < |s| && IsLowSurrogate(s[i + 1]))
    && (IsLowSurrogate(s[i]) ==> 0 < i && IsHighSurrogate(s[i - 1]))
  }

  /** No lone surrogate anywhere in the string. */
  ghost predicate WellFormed(s: JsString) {
    forall i :: 0 <= i < |s| ==> PairedAt(s, i)
  }

  /** The scalar value a surrogate pair stands for. */
  function Combine(hi: CodeUnit, lo: CodeUnit): (c: char)
    requires IsHighSurrogate(hi) && IsLowSurrogate(lo)
    ensures 0x1_0000 <= c as int < 0x11_0000
  {
    (0x1_0000 + (hi - 0xD800) * 0x400 + (lo - 0xDC00)) as char
  }

  /** The scalar values of a JavaScript string; None when it holds a lone surrogate. */
  function ToScalars(s: JsString): (r: Option<string>)
    decreases |s|
  {
    if s == [] then Some([])
    else if IsHighSurrogate(s[0]) then
      if 2 <= |s| && IsLowSurrogate(s[1]) then
        match ToScalars(s[2..])
        case None => None
        case Some(rest) => Some([Combine(s[0], s[1])] + rest)
      else None
    else if IsLowSurrogate(s[0]) then None
    else
      match ToScalars(s[1..])
      case None => None
      case Some(rest) => Some([s[0] as char] + rest)
  }

  /** The UTF-16 code units of one scalar value. */
  function EncodeScalar(c: char): (r: JsString)
    ensures 1 <= |r| <= 2
  {
    var n := c as int;
    if n < 0x1_0000 then [n]
    else [0xD800 + (n - 0x1_0000) / 0x400, 0xDC00 + (n - 0x1_0000) % 0x400]
  }

  /** The JavaScript string holding the given scalar values. */
  function FromScalars(s: string): (r: JsString)
    ensures |s| <= |r| <= 2 * |s|
  {
    if s == [] then [] else EncodeScalar(s[0]) + FromScalars(s[1..])
  }

  /** ASCII text as a JavaScript string (each character is one code unit). */
  function Ascii(s: string): (r: JsString)
    requires forall i :: 0 <= i < |s| ==> s[i] as int < 0x80
    ensures |r| == |s| && forall i :: 0 <= i < |s| ==> r[i] == s[i] as int
  {
    if s == [] then [] else [s[0] as int] + Ascii(s[1..])
  }

  lemma EncodeScalarDecodes(c: char, rest: JsString)
    ensures ToScalars(EncodeScalar(c) + rest) ==
            match ToScalars(rest) case None => None case Some(t) => Some([c] + t)
  {
    var e := EncodeScalar(c) + rest;
    var n := c as int;
    if n < 0x1_0000 {
      assert e[1..] == rest;
    } else {
      assert e[2..] == rest;
      assert Combine(e[0], e[1]) as int == n;
    }
  }

  /** Decoding undoes encoding: every scalar string survives the trip through UTF-16. */
  lemma {:induction false} ToScalarsFromScalars(s: string)
    ensures ToScalars(FromScalars(s)) == Some(s)
  {
    if s != [] {
      ToScalarsFromScalars(s[1..]);
      EncodeScalarDecodes(s[0], FromScalars(s[1..]));
      assert [s[0]] + s[1..] == s;
    }
  }

  /** Encoding undoes decoding: a string that decodes is exactly the encoding of what it decodes to. */
  lemma {:induction false} FromScalarsToScalars(s: JsString)
    requires ToScalars(s).Some?
    ensures FromScalars(ToScalars(s).value) == s
    decreases |s|
  {
    if s != [] {
      var t := ToScalars(s).value;
      if IsHighSurrogate(s[0]) {
        FromScalarsToScalars(s[2..]);
        assert t[1..] == ToScalars(s[2..]).value;
        assert EncodeScalar(t[0]) == s[..2];
        assert s == s[..2] + s[2..];
      } else {
        FromScalarsToScalars(s[1..]);
        assert t[1..] == ToScalars(s[1..]).value;
        assert s == [s[0]] + s[1..];
      }
    }
  }

  lemma WellFormedAfterPair(s: JsString)
    requires 2 <= |s| && IsHighSurrogate(s[0]) && IsLowSurrogate(s[1])
    ensures WellFormed(s) <==> WellFormed(s[2..])
  {
    var t := s[2..];
    if WellFormed(s) {
      forall i | 0 <= i < |t| ensures PairedAt(t, i) {
        assert PairedAt(s, i + 2);
      }
    }
    if WellFormed(t) {
      forall i | 0 <= i < |s| ensures PairedAt(s, i) {
        if i >= 2 { assert PairedAt(t, i - 2); }
      }
    }
  }

  lemma WellFormedAfterUnit(s: JsString)
    requires 1 <= |s| && !IsHighSurrogate(s[0]) && !IsLowSurrogate(s[0])
    ensures WellFormed(s) <==> WellFormed(s[1..])
  {
    var t := s[1..];
    if WellFormed(s) {
      forall i | 0 <= i < |t| ensures PairedAt(t, i) {
        assert PairedAt(s, i + 1);
      }
    }
    if WellFormed(t) {
      forall i | 0 <= i < |s| ensures PairedAt(s, i) {
        if i >= 1 { assert PairedAt(t, i - 1); }
      }
    }
  }

  /** A JavaScript string has scalar values exactly when it has no lone surrogate. */
  lemma {:induction false} ToScalarsIffWellFormed(s: JsString)
    ensures ToScalars(s).Some? <==> WellFormed(s)
    decreases |s|
  {
    if s == [] {
    } else if IsHighSurrogate(s[0]) {
      if 2 <= |s| && IsLowSurrogate(s[1]) {
        WellFormedAfterPair(s);
        ToScalarsIffWellFormed(s[2..]);
      } else {
        assert !PairedAt(s, 0);
      }
    } else if IsLowSurrogate(s[0]) {
      assert !PairedAt(s, 0);
    } else {
      WellFormedAfterUnit(s);
      ToScalarsIffWellFormed(s[1..]);
    }
  }

  /** Every string built from scalar values is well formed. */
  lemma FromScalarsWellFormed(s: string)
    ensures WellFormed(FromScalars(s))
  {
    ToScalarsFromScalars(s);
    ToScalarsIffWellFormed(FromScalars(s));
  }

  lemma {:induction false} AppendScalars(a: JsString, b: JsString)
    requires ToScalars(a).Some? && ToScalars(b).Some?
    ensures ToScalars(a + b) == Some(ToScalars(a).value + ToScalars(b).value)
    decreases |a|
  {
    if a == [] {
      assert a + b == b;
      assert ToScalars(a).value == [];
      assert [] + ToScalars(b).value == ToScalars(b).value;
    } else {
      var ab := a + b;
      if IsHighSurrogate(a[0]) {
        assert 2 <= |a| && IsLowSurrogate(a[1]);
        AppendScalars(a[2..], b);
        assert ab[0] == a[0] && ab[1] == a[1];
        assert ab[2..] == a[2..] + b;
        assert ToScalars(a).value == [Combine(a[0], a[1])] + ToScalars(a[2..]).value;
        var x, ta, tb := Combine(a[0], a[1]), ToScalars(a[2..]).value, ToScalars(b).value;
        assert ToScalars(ab).value == [x] + (ta + tb);
        assert [x] + (ta + tb) == ([x] + ta) + tb;
      } else {
        AppendScalars(a[1..], b);
        assert ab[0] == a[0];
        assert ab[1..] == a[1..] + b;
        assert ToScalars(a).value == [a[0] as char] + ToScalars(a[1..]).value;
        var x, ta, tb := a[0] as char, ToScalars(a[1..]).value, ToScalars(b).value;
        assert ToScalars(ab).value == [x] + (ta + tb);
        assert [x] + (ta + tb) == ([x] + ta) + tb;
      }
    }
  }
}
