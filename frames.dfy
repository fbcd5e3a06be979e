/**
 * The server's output frames (src/api/ssh_websocket.rs:52-64):
 * `get_ws_stdout` and `get_ws_stderr` Base64-encode the bytes of a Rust
 * `String` (UTF-8, by the language's guarantee) and wrap them as
 * `{"type": "stdout" | "stderr", "data": <base64>}` in a text message.
 * A Rust `String` is a sequence of Unicode scalar values, here a Dafny
 * `string`; the JSON object is a datatype with the same two fields.
 */
module Frames {
  import opened Wrappers
  import opened Utf16
  import Utf8
  import Base64
  import opened Codec
  import opened Protocol

  datatype FrameType = Stdout | Stderr

  /** The JSON object of a text frame: its `type` and `data` fields. */
  datatype WsMessage = WsMessage(frameType: FrameType, data: JsString)

  function TypeName(t: FrameType): JsString {
    match t
    case Stdout => StdoutName
    case Stderr => StderrName
  }

  /** A character JSON serialisation writes as itself: printable ASCII other than `"` and `\`. */
  predicate JsonPlain(u: CodeUnit) {
    0x20 <= u < 0x7F && u != 0x22 && u != 0x5C
  }

  /** The frame both builders produce, for the type given. */
  function Frame(t: FrameType, s: string): (m: WsMessage)
    ensures m.frameType == t
    ensures Base64.Decode(m.data) == Some(Utf8.Encode(s))
  {
    Base64.DecodeEncode(Utf8.Encode(s));
    WsMessage(t, Base64.Encode(Utf8.Encode(s)))
  }

  /** get_ws_stdout: a `stdout` frame whose data decodes to the UTF-8 bytes of s. */
  function GetWsStdout(s: string): (m: WsMessage)
    ensures m.frameType == Stdout
    ensures Base64.Decode(m.data) == Some(Utf8.Encode(s))
  {
    Frame(Stdout, s)
  }

  /** get_ws_stderr: a `stderr` frame whose data decodes to the UTF-8 bytes of s. */
  function GetWsStderr(s: string): (m: WsMessage)
    ensures m.frameType == Stderr
    ensures Base64.Decode(m.data) == Some(Utf8.Encode(s))
  {
    Frame(Stderr, s)
  }

  /** What the browser's JSON.parse yields for a frame. */
  function Receive(m: WsMessage): Inbound {
    Inbound(TypeName(m.frameType), Some(m.data))
  }

  lemma {:induction false} SymbolsPlain(v: seq<Base64.Sextet>)
    ensures forall i :: 0 <= i < |Base64.Symbols(v)| ==> JsonPlain(Base64.Symbols(v)[i])
  {
    if v != [] {
      SymbolsPlain(v[1..]);
      assert forall i :: 1 <= i < |Base64.Symbols(v)| ==> Base64.Symbols(v)[i] == Base64.Symbols(v[1..])[i - 1];
    }
  }

  /** The data field needs no escaping in JSON: every character stands for itself in the serialised text. */
  lemma FrameDataIsPlain(t: FrameType, s: string)
    ensures forall i :: 0 <= i < |Frame(t, s).data| ==> JsonPlain(Frame(t, s).data[i])
  {
    var v := Base64.ToSextets(Utf8.Encode(s));
    var d := Frame(t, s).data;
    SymbolsPlain(v);
    assert d == Base64.Symbols(v) + Base64.Padding(|Utf8.Encode(s)|);
    forall i | 0 <= i < |d| ensures JsonPlain(d[i]) {
      if i < |Base64.Symbols(v)| {
        assert d[i] == Base64.Symbols(v)[i];
      } else {
        assert d[i] == Base64.Pad;
      }
    }
  }

  /** The two builders differ only in the type field. */
  lemma SameData(s: string)
    ensures GetWsStdout(s).data == GetWsStderr(s).data
    ensures GetWsStdout(s).frameType != GetWsStderr(s).frameType
  {
  }

  /** The browser's base64ToUtf8 of a frame's data is the UTF-16 form of the server's string. */
  lemma FrameDecodes(t: FrameType, s: string)
    ensures Base64ToUtf8(Frame(t, s).data) == Success(FromScalars(s))
  {
    Utf8.DecodeEncode(s);
  }

  /** A stdout frame makes the browser write the server's text unchanged. */
  lemma StdoutEndToEnd(s: string)
    ensures OnMessage(Some(Receive(GetWsStdout(s)))) == Some(FromScalars(s))
  {
    FrameDecodes(Stdout, s);
  }

  /** A stderr frame makes the browser write the server's text in red. */
  lemma StderrEndToEnd(s: string)
    ensures OnMessage(Some(Receive(GetWsStderr(s)))) == Some(RedOn + FromScalars(s) + ColorOff)
  {
    FrameDecodes(Stderr, s);
    assert StderrName[3] != StdoutName[3];
  }

  /** The server's Base64 and the browser's utf8ToBase64 agree: the same text gives the same data field. */
  lemma ClientAgreesWithServer(s: string)
    ensures Utf8ToBase64(FromScalars(s)) == Success(GetWsStdout(s).data)
  {
    ToScalarsFromScalars(s);
  }
}
