/**
 * The payload codec of the browser client (static/app.js, lines 8-9):
 *   utf8ToBase64(str) = btoa(unescape(encodeURIComponent(str)))
 *   base64ToUtf8(str) = decodeURIComponent(escape(atob(str)))
 * `unescape(encodeURIComponent(s))` is the string of s's UTF-8 bytes, one code
 * unit per byte, and throws a URIError on a lone surrogate;
 * `decodeURIComponent(escape(b))` reads the bytes of b as UTF-8 and throws a
 * URIError unless they are well formed; `atob` throws an
 * InvalidCharacterError on text that is not Base64.
 */
module Codec {
  import opened Wrappers
  import opened Utf16
  import Utf8
  import Base64

  /** The exceptions the two conversions can raise. */
  datatype CodecError = UriError | InvalidCharacterError

  /** utf8ToBase64: Base64 of the UTF-8 bytes of a JavaScript string. */
  function Utf8ToBase64(s: JsString): (r: Result<JsString, CodecError>)
    ensures r.Success? <==> WellFormed(s)
    ensures r.Failure? ==> r.error == UriError
  {
    ToScalarsIffWellFormed(s);
    var scalars := ToScalars(s);
    if scalars.None? then Failure(UriError)
    else
      Success(Base64.Encode(Utf8.Encode(scalars.value)))
  }

  /** base64ToUtf8: the JavaScript string whose UTF-8 bytes the Base64 text carries. */
  function Base64ToUtf8(t: JsString): (r: Result<JsString, CodecError>)
    ensures r.Success? ==> WellFormed(r.value)
    ensures (r.Failure? && r.error == InvalidCharacterError) <==> Base64.Decode(t).None?
    ensures (r.Failure? && r.error == UriError) <==> (Base64.Decode(t).Some? && Utf8.Decode(Base64.Decode(t).value).None?)
  {
    match Base64.Decode(t)
    case None => Failure(InvalidCharacterError)
    case Some(bytes) =>
      match Utf8.Decode(bytes)
      case None => Failure(UriError)
      case Some(scalars) =>
        FromScalarsWellFormed(scalars);
        Success(FromScalars(scalars))
  }

  /** Decoding undoes encoding for every string without a lone surrogate, control characters included. */
  lemma RoundTrip(s: JsString)
    requires WellFormed(s)
    ensures Utf8ToBase64(s).Success?
    ensures Base64ToUtf8(Utf8ToBase64(s).value) == Success(s)
  {
    ToScalarsIffWellFormed(s);
    var scalars := ToScalars(s).value;
    Base64.DecodeEncode(Utf8.Encode(scalars));
    Utf8.DecodeEncode(scalars);
    FromScalarsToScalars(s);
  }

  /** A string with a lone surrogate, high or low, cannot be sent: encodeURIComponent throws. */
  lemma LoneSurrogateRejected(s: JsString, i: nat)
    requires i < |s|
    requires || (IsHighSurrogate(s[i]) && (i + 1 == |s| || !IsLowSurrogate(s[i + 1])))
             || (IsLowSurrogate(s[i]) && (i == 0 || !IsHighSurrogate(s[i - 1])))
    ensures Utf8ToBase64(s) == Failure(UriError)
  {
    assert !PairedAt(s, i);
  }

  /** Whatever decodes re-encodes to the canonical padded Base64 of the same bytes. */
  lemma ReencodeIsCanonical(t: JsString)
    requires Base64ToUtf8(t).Success?
    ensures Utf8ToBase64(Base64ToUtf8(t).value) == Success(Base64.Encode(Base64.Decode(t).value))
  {
    var bytes := Base64.Decode(t).value;
    var scalars := Utf8.Decode(bytes).value;
    ToScalarsFromScalars(scalars);
    Utf8.EncodeDecode(bytes);
  }

  /** The overlong two-byte form of NUL (0xC0 0x80) is refused: "wIA=" does not decode. */
  lemma OverlongRejected()
    ensures Base64ToUtf8([0x77, 0x49, 0x41, 0x3D]) == Failure(UriError)
  {
    var t: JsString := [0x77, 0x49, 0x41, 0x3D];
    Base64.StripWhitespaceNone(t);
    assert Base64.StripPadding(t) == t[..3];
    var a: JsString, b: JsString, c: JsString := [0x41], [0x49, 0x41], [0x77, 0x49, 0x41];
    assert t[..3] == c && c[1..] == b && b[1..] == a && a[1..] == [];
    assert Base64.SymbolValue(a[0]) == Some(0) && Base64.SymbolValue(b[0]) == Some(8) && Base64.SymbolValue(c[0]) == Some(48);
    assert Base64.Values(a).value == [0];
    assert Base64.Values(b).value == [8, 0];
    assert Base64.Values(c).value == [48, 8, 0];
    assert Base64.Decode(t) == Some([0xC0, 0x80]);
  }
}
