/**
 * The session protocol of the browser client (static/app.js): the messages
 * it sends, the handshake sent when the WebSocket opens (lines 259-286), and
 * the dispatch of inbound messages to the terminal (lines 310-325).
 * A message is modelled as the object handed to JSON.stringify; the JSON
 * text itself is not modelled.
 */
module Protocol {
  import opened Wrappers
  import opened Utf16
  import opened Codec

  datatype AuthType = PasswordAuth | KeyAuth

  /** The parameters of a connection attempt, as the connect form supplies them. */
  datatype SessionConfig = SessionConfig(
    host: JsString, port: JsString, username: JsString,
    authType: AuthType, password: JsString, privateKey: JsString)

  /** The `type` field of a client message. */
  datatype MessageType = AddrType | LoginType | PasswordType | KeyType | ResizeType | ConnectType | StdinType

  /** A client-to-server message; `data` of a text message holds Base64 text. */
  datatype ClientMessage =
    | Addr(data: JsString)
    | Login(data: JsString)
    | Password(data: JsString)
    | Key(data: JsString)
    | Resize(cols: int, rows: int)
    | Connect(data: JsString)
    | Stdin(data: JsString)
  {
    function Tag(): MessageType {
      match this
      case Addr(_) => AddrType
      case Login(_) => LoginType
      case Password(_) => PasswordType
      case Key(_) => KeyType
      case Resize(_, _) => ResizeType
      case Connect(_) => ConnectType
      case Stdin(_) => StdinType
    }
  }

  /** The text messages whose payload is encoded by utf8ToBase64. */
  datatype TextField = AddrField | LoginField | PasswordField | KeyField | StdinField

  function WithData(f: TextField, data: JsString): (m: ClientMessage) {
    match f
    case AddrField => Addr(data)
    case LoginField => Login(data)
    case PasswordField => Password(data)
    case KeyField => Key(data)
    case StdinField => Stdin(data)
  }

  function FieldTag(f: TextField): MessageType {
    WithData(f, []).Tag()
  }

  /** One `socket.send`: either a payload that is still to be encoded, or a message ready as it is. */
  datatype Send = Encoded(field: TextField, text: JsString) | Ready(msg: ClientMessage)

  function SendTag(step: Send): MessageType {
    match step
    case Encoded(f, _) => FieldTag(f)
    case Ready(m) => m.Tag()
  }

  /** A send whose message can be built: a ready message, or a text without lone surrogates. */
  ghost predicate Encodable(step: Send) {
    step.Encoded? ==> WellFormed(step.text)
  }

  /** The message a send puts on the wire; a failure is the exception utf8ToBase64 raises while building it. */
  function Prepare(step: Send): (r: Result<ClientMessage, CodecError>)
    ensures r.Success? <==> Encodable(step)
    ensures r.Success? ==> r.value.Tag() == SendTag(step)
    ensures step.Encoded? && r.Success? ==> r.value.data == Utf8ToBase64(step.text).value
  {
    match step
    case Ready(m) => Success(m)
    case Encoded(f, text) =>
      match Utf8ToBase64(text)
      case Failure(e) => Failure(e)
      case Success(b64) => Success(WithData(f, b64))
  }

  /** What a run of sends leaves on the wire, and the exception that cut it short, if any. */
  datatype Outcome = Outcome(sent: seq<ClientMessage>, error: Option<CodecError>)

  /** Sends one message after another; the first exception stops the rest. */
  function SendAll(plan: seq<Send>): (r: Outcome)
    ensures |r.sent| <= |plan|
    ensures forall i :: 0 <= i < |r.sent| ==> Prepare(plan[i]) == Success(r.sent[i])
    ensures r.error.None? <==> |r.sent| == |plan|
    ensures r.error.Some? ==> Prepare(plan[|r.sent|]) == Failure(r.error.value)
  {
    if plan == [] then Outcome([], None)
    else match Prepare(plan[0])
      case Failure(e) => Outcome([], Some(e))
      case Success(m) =>
        var rest := SendAll(plan[1..]);
        Outcome([m] + rest.sent, rest.error)
  }

  const Colon: CodeUnit := 0x3A

  /** The `host:port` text of the `addr` message. */
  function Address(cfg: SessionConfig): JsString {
    cfg.host + [Colon] + cfg.port
  }

  /** A well-formed host and port give a well-formed `host:port` text: the colon pairs with nothing. */
  lemma AddressWellFormed(cfg: SessionConfig)
    requires WellFormed(cfg.host) && WellFormed(cfg.port)
    ensures WellFormed(Address(cfg))
  {
    var colon: JsString := [Colon];
    ToScalarsIffWellFormed(cfg.host);
    ToScalarsIffWellFormed(cfg.port);
    ToScalarsIffWellFormed(colon);
    AppendScalars(cfg.host, colon);
    AppendScalars(cfg.host + colon, cfg.port);
    ToScalarsIffWellFormed(Address(cfg));
  }

  /** The `socket.send` calls of the open handler, in order. */
  function HandshakePlan(cfg: SessionConfig, cols: int, rows: int): seq<Send> {
    var credentials :=
      if cfg.authType == PasswordAuth then [Encoded(PasswordField, cfg.password)]
      else [Encoded(KeyField, cfg.privateKey)] + (if cfg.password != [] then [Encoded(PasswordField, cfg.password)] else []);
    [Encoded(AddrField, Address(cfg)), Encoded(LoginField, cfg.username)]
      + credentials
      + [Ready(Resize(cols, rows)), Ready(Connect([]))]
  }

  /** What the open handler sends, given the terminal's current size. */
  function Handshake(cfg: SessionConfig, cols: int, rows: int): Outcome {
    SendAll(HandshakePlan(cfg, cols, rows))
  }

  /** The message types of a complete handshake, in order. */
  function ExpectedTypes(cfg: SessionConfig): seq<MessageType> {
    [AddrType, LoginType] + CredentialTypes(cfg) + [ResizeType, ConnectType]
  }

  /** The types of the credential messages, by authentication method. */
  function CredentialTypes(cfg: SessionConfig): seq<MessageType> {
    match cfg.authType
    case PasswordAuth => [PasswordType]
    case KeyAuth => if cfg.password == [] then [KeyType] else [KeyType, PasswordType]
  }

  function Types(ms: seq<ClientMessage>): (r: seq<MessageType>)
    ensures |r| == |ms| && forall i :: 0 <= i < |ms| ==> r[i] == ms[i].Tag()
  {
    if ms == [] then [] else [ms[0].Tag()] + Types(ms[1..])
  }

  function Count(ts: seq<MessageType>, t: MessageType): nat {
    if ts == [] then 0 else (if ts[0] == t then 1 else 0) + Count(ts[1..], t)
  }

  /** The texts of a configuration that the handshake encodes. */
  ghost predicate HandshakeTextsWellFormed(cfg: SessionConfig) {
    && WellFormed(Address(cfg))
    && WellFormed(cfg.username)
    && (cfg.authType == PasswordAuth ==> WellFormed(cfg.password))
    && (cfg.authType == KeyAuth ==> WellFormed(cfg.privateKey) && (cfg.password != [] ==> WellFormed(cfg.password)))
  }

  lemma PlanTypes(cfg: SessionConfig, cols: int, rows: int)
    ensures var plan := HandshakePlan(cfg, cols, rows);
            |plan| == |ExpectedTypes(cfg)| && forall i :: 0 <= i < |plan| ==> SendTag(plan[i]) == ExpectedTypes(cfg)[i]
  {
  }

  /** The types of what a run of sends puts on the wire are a prefix of the planned types. */
  lemma SentTypes(plan: seq<Send>, expected: seq<MessageType>)
    requires |plan| == |expected| && forall i :: 0 <= i < |plan| ==> SendTag(plan[i]) == expected[i]
    ensures Types(SendAll(plan).sent) == expected[..|SendAll(plan).sent|]
  {
    var sent := SendAll(plan).sent;
    forall i | 0 <= i < |sent| ensures Types(sent)[i] == expected[i] {
      assert Prepare(plan[i]) == Success(sent[i]);
    }
  }

  /** A run of sends completes exactly when every one of its messages can be built. */
  lemma SendAllCompletes(plan: seq<Send>)
    ensures SendAll(plan).error.None? <==> forall i :: 0 <= i < |plan| ==> Encodable(plan[i])
  {
    var out := SendAll(plan);
    if out.error.Some? {
      assert !Encodable(plan[|out.sent|]);
    } else {
      forall i | 0 <= i < |plan| ensures Encodable(plan[i]) {
        assert Prepare(plan[i]).Success?;
      }
    }
  }

  /** The handshake's messages can all be built exactly when its texts are well formed. */
  lemma PlanEncodable(cfg: SessionConfig, cols: int, rows: int)
    ensures (forall i :: 0 <= i < |HandshakePlan(cfg, cols, rows)| ==> Encodable(HandshakePlan(cfg, cols, rows)[i]))
            <==> HandshakeTextsWellFormed(cfg)
  {
    var plan := HandshakePlan(cfg, cols, rows);
    var n := |plan|;
    var ok := forall i :: 0 <= i < n ==> Encodable(plan[i]);
    assert ok ==> Encodable(plan[0]) && Encodable(plan[1]) && Encodable(plan[2]);
    if cfg.authType == KeyAuth && cfg.password != [] {
      assert ok ==> Encodable(plan[3]);
    }
  }

  /**
   * Whatever the configuration, the handshake sends a prefix of the expected
   * message types, and it sends them all exactly when every encoded text is
   * free of lone surrogates.
   */
  lemma HandshakeIsPrefix(cfg: SessionConfig, cols: int, rows: int)
    ensures var out := Handshake(cfg, cols, rows);
            && Types(out.sent) <= ExpectedTypes(cfg)
            && (out.error.None? <==> HandshakeTextsWellFormed(cfg))
  {
    var plan := HandshakePlan(cfg, cols, rows);
    PlanTypes(cfg, cols, rows);
    SentTypes(plan, ExpectedTypes(cfg));
    SendAllCompletes(plan);
    PlanEncodable(cfg, cols, rows);
  }

  /** With well-formed texts every planned message is sent, with the expected types. */
  lemma HandshakeTypes(cfg: SessionConfig, cols: int, rows: int)
    requires HandshakeTextsWellFormed(cfg)
    ensures var out := Handshake(cfg, cols, rows);
            && out.error.None?
            && |out.sent| == |HandshakePlan(cfg, cols, rows)|
            && Types(out.sent) == ExpectedTypes(cfg)
  {
    HandshakeIsPrefix(cfg, cols, rows);
    PlanTypes(cfg, cols, rows);
  }

  /**
   * With well-formed texts the handshake is exactly addr, login, the
   * credentials, resize and connect, and every payload decodes back to the
   * configuration text it carries.
   */
  lemma HandshakeComplete(cfg: SessionConfig, cols: int, rows: int)
    requires HandshakeTextsWellFormed(cfg)
    ensures var out := Handshake(cfg, cols, rows);
            && out.error.None?
            && Types(out.sent) == ExpectedTypes(cfg)
            && |out.sent| >= 5
            && Base64ToUtf8(out.sent[0].data) == Success(Address(cfg))
            && Base64ToUtf8(out.sent[1].data) == Success(cfg.username)
            && out.sent[|out.sent| - 2] == Resize(cols, rows)
            && out.sent[|out.sent| - 1] == Connect([])
  {
    var plan, out := HandshakePlan(cfg, cols, rows), Handshake(cfg, cols, rows);
    HandshakeTypes(cfg, cols, rows);
    var n := |plan|;
    assert plan[0] == Encoded(AddrField, Address(cfg));
    assert Prepare(plan[0]) == Success(out.sent[0]);
    PreparedPayload(plan[0], out.sent[0]);
    assert plan[1] == Encoded(LoginField, cfg.username);
    assert Prepare(plan[1]) == Success(out.sent[1]);
    PreparedPayload(plan[1], out.sent[1]);
    assert plan[n - 2] == Ready(Resize(cols, rows));
    assert Prepare(plan[n - 2]) == Success(out.sent[n - 2]);
    assert plan[n - 1] == Ready(Connect([]));
    assert Prepare(plan[n - 1]) == Success(out.sent[n - 1]);
  }

  /** A prepared encoded step yields a message of the step's type whose data decodes back to the step's text. */
  lemma PreparedPayload(step: Send, m: ClientMessage)
    requires step.Encoded? && Prepare(step) == Success(m)
    ensures m.Tag() == FieldTag(step.field)
    ensures !m.Resize? && Base64ToUtf8(m.data) == Success(step.text)
  {
    assert !m.Resize? by {
      match step.field
      case AddrField => case LoginField => case PasswordField => case KeyField => case StdinField =>
    }
    assert m.data == Utf8ToBase64(step.text).value;
    RoundTrip(step.text);
  }

  lemma {:induction false} CountConcat(a: seq<MessageType>, b: seq<MessageType>, t: MessageType)
    ensures Count(a + b, t) == Count(a, t) + Count(b, t)
  {
    if a == [] {
      assert a + b == b;
    } else {
      assert (a + b)[1..] == a[1..] + b;
      CountConcat(a[1..], b, t);
    }
  }

  /** Credential types occur only among the credential messages. */
  lemma CountCredentials(cfg: SessionConfig, t: MessageType)
    requires t == PasswordType || t == KeyType
    ensures Count(ExpectedTypes(cfg), t) == Count(CredentialTypes(cfg), t)
  {
    var head, creds, tail := [AddrType, LoginType], CredentialTypes(cfg), [ResizeType, ConnectType];
    CountConcat(head + creds, tail, t);
    CountConcat(head, creds, t);
    assert head[1..] == [LoginType] && tail[1..] == [ConnectType];
  }

  /** How many `password` and `key` messages a complete handshake holds. */
  lemma CredentialCounts(cfg: SessionConfig)
    ensures Count(ExpectedTypes(cfg), PasswordType) == (if cfg.authType == PasswordAuth || cfg.password != [] then 1 else 0)
    ensures Count(ExpectedTypes(cfg), KeyType) == (if cfg.authType == KeyAuth then 1 else 0)
  {
    CountCredentials(cfg, PasswordType);
    CountCredentials(cfg, KeyType);
    assert [KeyType, PasswordType][1..] == [PasswordType];
  }

  lemma HandshakeSendsAll(cfg: SessionConfig, cols: int, rows: int)
    requires HandshakeTextsWellFormed(cfg)
    ensures SendAll(HandshakePlan(cfg, cols, rows)).error.None?
  {
    SendAllCompletes(HandshakePlan(cfg, cols, rows));
    PlanEncodable(cfg, cols, rows);
  }

  /** The number of `password` and `key` messages a completed handshake sends. */
  lemma HandshakeCounts(cfg: SessionConfig, cols: int, rows: int)
    requires HandshakeTextsWellFormed(cfg)
    ensures var ts := Types(Handshake(cfg, cols, rows).sent);
            && Count(ts, PasswordType) == (if cfg.authType == PasswordAuth || cfg.password != [] then 1 else 0)
            && Count(ts, KeyType) == (if cfg.authType == KeyAuth then 1 else 0)
  {
    HandshakeTypes(cfg, cols, rows);
    CredentialCounts(cfg);
  }

  /** With password authentication the third message is the `password` message and carries the password. */
  lemma PasswordCredentials(cfg: SessionConfig, cols: int, rows: int)
    requires HandshakeTextsWellFormed(cfg) && cfg.authType == PasswordAuth
    ensures var out := Handshake(cfg, cols, rows);
            && out.sent[2].Password?
            && Base64ToUtf8(out.sent[2].data) == Success(cfg.password)
  {
    var plan, out := HandshakePlan(cfg, cols, rows), Handshake(cfg, cols, rows);
    HandshakeSendsAll(cfg, cols, rows);
    assert plan[2] == Encoded(PasswordField, cfg.password);
    assert Prepare(plan[2]) == Success(out.sent[2]);
    PreparedPayload(plan[2], out.sent[2]);
  }

  /** With key authentication the third message is the `key` message and carries the private key. */
  lemma KeyCredentials(cfg: SessionConfig, cols: int, rows: int)
    requires HandshakeTextsWellFormed(cfg) && cfg.authType == KeyAuth
    ensures var out := Handshake(cfg, cols, rows);
            && out.sent[2].Key?
            && Base64ToUtf8(out.sent[2].data) == Success(cfg.privateKey)
  {
    var plan, out := HandshakePlan(cfg, cols, rows), Handshake(cfg, cols, rows);
    HandshakeSendsAll(cfg, cols, rows);
    assert plan[2] == Encoded(KeyField, cfg.privateKey);
    assert Prepare(plan[2]) == Success(out.sent[2]);
    PreparedPayload(plan[2], out.sent[2]);
  }

  /**
   * With key authentication the message after the key is a `password`
   * carrying the passphrase when there is one, and the `resize` otherwise.
   */
  lemma KeyPassphrase(cfg: SessionConfig, cols: int, rows: int)
    requires HandshakeTextsWellFormed(cfg) && cfg.authType == KeyAuth
    ensures var out := Handshake(cfg, cols, rows);
            && |out.sent| > 3
            && (cfg.password != [] ==> out.sent[3].Password? && Base64ToUtf8(out.sent[3].data) == Success(cfg.password))
            && (cfg.password == [] ==> out.sent[3] == Resize(cols, rows))
  {
    var plan, out := HandshakePlan(cfg, cols, rows), Handshake(cfg, cols, rows);
    HandshakeSendsAll(cfg, cols, rows);
    if cfg.password != [] {
      assert plan[3] == Encoded(PasswordField, cfg.password);
      assert Prepare(plan[3]) == Success(out.sent[3]);
      PreparedPayload(plan[3], out.sent[3]);
    } else {
      assert plan[3] == Ready(Resize(cols, rows));
      assert Prepare(plan[3]) == Success(out.sent[3]);
    }
  }

  /** The `stdin` message for typed or pasted text, sent only while the socket is open. */
  function StdinMessage(text: JsString, socketOpen: bool): (m: Option<ClientMessage>)
    ensures m.Some? <==> socketOpen && WellFormed(text)
    ensures m.Some? ==> m.value == Stdin(Utf8ToBase64(text).value)
    ensures m.Some? ==> Base64ToUtf8(m.value.data) == Success(text)
  {
    if !socketOpen then None
    else match Prepare(Encoded(StdinField, text))
      case Failure(_) => None
      case Success(m) => RoundTrip(text); Some(m)
  }

  // ---------------------------------------------------------------- inbound

  /** A parsed server message: its `type` and its `data`, which may be missing. */
  datatype Inbound = Inbound(kind: JsString, data: Option<JsString>)

  const StdoutName: JsString := [0x73, 0x74, 0x64, 0x6F, 0x75, 0x74]  // "stdout"
  const StderrName: JsString := [0x73, 0x74, 0x64, 0x65, 0x72, 0x72]  // "stderr"
  /** SGR escapes: red foreground, and reset. */
  const RedOn: JsString := [0x1B, 0x5B, 0x33, 0x31, 0x6D]  // ESC [31m
  const ColorOff: JsString := [0x1B, 0x5B, 0x30, 0x6D]  // ESC [0m
  /** The text a missing field turns into, "undefined". */
  const Undefined: JsString := [0x75, 0x6E, 0x64, 0x65, 0x66, 0x69, 0x6E, 0x65, 0x64]

  /** The text `atob` receives for the data field: a missing field is converted to "undefined". */
  function DataText(data: Option<JsString>): JsString {
    match data
    case Some(t) => t
    case None => Undefined
  }

  /**
   * The onmessage handler: what it writes to the terminal for one message;
   * `msg` is None when JSON.parse failed. An exception is caught and nothing is written.
   */
  function OnMessage(msg: Option<Inbound>): (w: Option<JsString>)
    ensures w.Some? ==> msg.Some? && (msg.value.kind == StdoutName || msg.value.kind == StderrName)
    ensures w.Some? ==> WellFormed(w.value)
  {
    match msg
    case None => None
    case Some(Inbound(kind, data)) =>
      if kind == StdoutName then
        match Base64ToUtf8(DataText(data))
        case Failure(_) => None
        case Success(text) => Some(text)
      else if kind == StderrName then
        match Base64ToUtf8(DataText(data))
        case Failure(_) => None
        case Success(text) =>
          assert WellFormed(RedOn + text + ColorOff) by { WrapWellFormed(text); }
          Some(RedOn + text + ColorOff)
      else None
  }

  lemma WrapWellFormed(text: JsString)
    requires WellFormed(text)
    ensures WellFormed(RedOn + text + ColorOff)
  {
    var w, k := RedOn + text + ColorOff, |RedOn|;
    forall i | 0 <= i < |w| ensures PairedAt(w, i) {
      if k <= i < k + |text| {
        assert PairedAt(text, i - k);
        assert w[i] == text[i - k];
        assert i + 1 < k + |text| ==> w[i + 1] == text[i + 1 - k];
        assert i - 1 >= k ==> w[i - 1] == text[i - 1 - k];
      }
    }
  }

  /** A `stdout` message whose data decodes writes exactly `base64ToUtf8(data)`. */
  lemma StdoutWritesDecoded(data: JsString)
    requires Base64ToUtf8(data).Success?
    ensures OnMessage(Some(Inbound(StdoutName, Some(data)))) == Some(Base64ToUtf8(data).value)
  {
  }

  /** A `stderr` message whose data decodes writes `base64ToUtf8(data)` between the red and reset escapes. */
  lemma StderrWritesRedDecoded(data: JsString)
    requires Base64ToUtf8(data).Success?
    ensures OnMessage(Some(Inbound(StderrName, Some(data)))) == Some(RedOn + Base64ToUtf8(data).value + ColorOff)
  {
    assert StderrName[3] != StdoutName[3];
  }

  /** A `stdout` message carrying `utf8ToBase64(text)` writes exactly the text. */
  lemma StdoutWritesPayload(text: JsString)
    requires WellFormed(text)
    ensures OnMessage(Some(Inbound(StdoutName, Some(Utf8ToBase64(text).value)))) == Some(text)
  {
    RoundTrip(text);
    StdoutWritesDecoded(Utf8ToBase64(text).value);
  }

  /** A `stderr` message carrying `utf8ToBase64(text)` writes the text between the red and reset escapes. */
  lemma StderrWritesRedPayload(text: JsString)
    requires WellFormed(text)
    ensures OnMessage(Some(Inbound(StderrName, Some(Utf8ToBase64(text).value)))) == Some(RedOn + text + ColorOff)
  {
    RoundTrip(text);
    StderrWritesRedDecoded(Utf8ToBase64(text).value);
  }

  /** A payload that fails to decode writes nothing, whatever the type. */
  lemma UndecodableWritesNothing(kind: JsString, data: JsString)
    requires Base64ToUtf8(data).Failure?
    ensures OnMessage(Some(Inbound(kind, Some(data)))) == None
  {
  }

  /** A message of any other type writes nothing. */
  lemma OtherTypesIgnored(msg: Inbound)
    requires msg.kind != StdoutName && msg.kind != StderrName
    ensures OnMessage(Some(msg)) == None
  {
  }

  /** A message without a data field writes nothing: atob("undefined") throws, nine characters being 1 modulo 4. */
  lemma MissingDataWritesNothing(kind: JsString)
    ensures OnMessage(Some(Inbound(kind, None))) == None
  {
    assert forall i :: 0 <= i < |Undefined| ==> Undefined[i] >= 0x61;
    Base64.OneModFourRejected(Undefined);
  }
}
