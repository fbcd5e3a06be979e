# Web SSH terminal bridge — a Dafny model

This project models the terminal-session bridge of a small web SSH client.
A browser page runs an xterm.js terminal. Over one WebSocket it sends the
connection parameters, the terminal size and the keystrokes. The server
answers with the output of the remote shell. Every text payload travels as
Base64 of its UTF-8 bytes inside a JSON object `{type, data}`.

The model covers:

- **Payload codec** (`utf8ToBase64` and `base64ToUtf8`). These are pure
  functions over JavaScript strings, which are modelled as UTF-16 code-unit
  sequences so that lone surrogates can be written down:
  - the UTF-16 layer is in `utf16.dfy`;
  - UTF-8 following RFC 3629 is in `utf8.dfy`;
  - Base64 following RFC 4648 section 4, with `atob`'s forgiving decoder
    from the HTML standard, is in `base64.dfy`;
  - their composition, with the exceptions either direction can raise, is
    in `codec.dfy`.
- **Handshake and dispatch** (`protocol.dfy`):
  - the client's messages;
  - the handshake sent when the socket opens. The handshake is a list of
    sends, and an exception stops it part-way;
  - the `stdin` message;
  - the dispatch of inbound messages to the terminal.
- **Selection guard** (`guard.dfy`). The two globals `lastSelectionTime` and
  `savedSelection` are a class with methods for:
  - the selection-change handler;
  - the copy and paste shortcuts;
  - the input handler. It drops a `^C` (code unit 0x03) that arrives within
    500 ms of selection activity.

  Pure transition functions over the same state carry the lemmas that span
  several events.
- **Debounce** (`debounce.dfy`):
  - `debounce` becomes a class holding one pending timer;
  - time is passed in as explicit `Tick` events;
  - `handleResize` is the 100 ms debounce wrapped around the resize body.
- **Server frames** (`frames.dfy`). The Rust builders `get_ws_stdout` and
  `get_ws_stderr` are modelled. The end-to-end lemmas connect them to the
  browser's dispatch.

All times are explicit `now: int` parameters in milliseconds, standing for
`Date.now()`. Window size appears as plain `cols` and `rows` values.

## Model

| member | source | states |
|---|---|---|
| Utf16.ToScalarsIffWellFormed | static/app.js:8 | `encodeURIComponent` succeeds exactly on strings in which every surrogate is paired |
| Utf16.ToScalarsFromScalars | static/app.js:8-9 | reading back the UTF-16 form of any scalar sequence gives that sequence |
| Utf16.FromScalarsToScalars | static/app.js:8-9 | a string that converts to scalars is the UTF-16 form of those scalars |
| Utf16.FromScalarsWellFormed | static/app.js:9 | every decoded string has all its surrogates paired |
| Utf16.EncodeScalar | static/app.js:9 | a scalar takes one or two UTF-16 code units |
| Utf16.FromScalars | static/app.js:9 | the UTF-16 form of n scalars has between n and 2n code units |
| Utf16.EncodeScalarDecodes | static/app.js:8-9 | the code units of one scalar decode back to that scalar, whatever follows |
| Protocol.AddressWellFormed | static/app.js:266 | a well-formed host and port give a well-formed `host:port` text, so the `addr` step cannot fail on the colon |
| Utf16.AppendScalars | static/app.js:8 | conversion to scalars works code unit by code unit: concatenated strings convert to the concatenated scalars |
| Utf16.Ascii | static/app.js:193-211 | the key names `c`, `C`, `v` and `V` the shortcuts compare against are the code units of their ASCII characters |
| Utf8.EncodeScalar | static/app.js:8 | the UTF-8 form of a scalar is 1, 2, 3 or 4 bytes, by the ranges of RFC 3629 section 3 |
| Utf8.DecodeFirstEncodeScalar | static/app.js:8-9 | the decoder reads the bytes of one encoded scalar back as that scalar and its length |
| Utf8.DecodeFirstEncode2 | static/app.js:8-9 | a scalar from U+0080 to U+07FF encodes to two bytes, and they decode back to it |
| Utf8.DecodeFirstEncode3 | static/app.js:8-9 | a scalar from U+0800 to U+FFFF encodes to three bytes, and they decode back to it |
| Utf8.DecodeFirstEncode4 | static/app.js:8-9 | a scalar from U+10000 up encodes to four bytes, and they decode back to it |
| Utf8.IsEncoding2 | static/app.js:9 | an accepted two-byte sequence is the encoding of the scalar it decodes to |
| Utf8.IsEncoding3 | static/app.js:9 | an accepted three-byte sequence is the encoding of the scalar it decodes to |
| Utf8.IsEncoding4 | static/app.js:9 | an accepted four-byte sequence is the encoding of the scalar it decodes to |
| Utf8.DecodeFirstIsEncoding | static/app.js:9 | whatever the decoder accepts is exactly the canonical encoding of the scalar it returns |
| Utf8.DecodeEncode | static/app.js:8-9 | decoding the UTF-8 of any scalar sequence gives it back |
| Utf8.EncodeDecode | static/app.js:9 | the strict decoder accepts only canonical UTF-8: re-encoding its result gives the input bytes |
| Base64.SymbolValue | static/app.js:9 | a character in the alphabet decodes to the value whose symbol it is |
| Base64.SymbolRoundTrip | static/app.js:8-9 | each of the 64 symbols decodes to its value |
| Base64.ToSextets | static/app.js:8 | four sextets per three bytes, and two or three for a final partial group |
| Base64.Encode | static/app.js:8 | `btoa` output is 4·⌈n/3⌉ characters |
| Base64.Values | static/app.js:9 | alphabet text gives one sextet per character |
| Base64.SplitJoins | static/app.js:8-9 | the four sextets of three bytes put those bytes back together |
| Base64.FromToSextets | static/app.js:8-9 | regrouping the sextets of any byte sequence gives the bytes back |
| Base64.ValuesSymbols | static/app.js:9 | the symbols of any sextet sequence decode to it |
| Base64.SymbolsAreText | static/app.js:8-9 | no Base64 symbol is `=` or ASCII whitespace |
| Base64.StripWhitespaceNone | static/app.js:9 | text without ASCII whitespace passes `atob`'s whitespace stripping unchanged |
| Base64.StripPaddingOf | static/app.js:9 | padding removal takes off exactly the one or two `=` that fill a group of four |
| Base64.SextetCount | static/app.js:8 | the number of symbols `btoa` writes before padding is never 1 modulo 4 |
| Base64.DecodeReduced | static/app.js:9 | text that reduces to the symbols of some values, once whitespace and padding are removed, decodes to the bytes those values carry |
| Base64.EncodeHasNoWhitespace | static/app.js:8 | `btoa` output has no ASCII whitespace, so `atob`'s whitespace stripping leaves it as it is |
| Base64.StripPaddingEncode | static/app.js:8-9 | `atob`'s padding removal leaves exactly the symbols of `btoa` output |
| Base64.DecodeEncode | static/app.js:8-9 | `atob(btoa(b)) == b` for every byte string |
| Base64.JoinGroup | static/app.js:9 | four values from three bytes are read back as those three bytes, and then the rest is read |
| Base64.JoinPartial | static/app.js:8-9 | the two or three values of a final partial group are read back as its one or two bytes |
| Base64.OneModFourRejected | static/app.js:9 | text without whitespace whose length is 1 modulo 4 is rejected |
| Base64.DecodeUnpadded | static/app.js:9 | `atob` also accepts the encoding with its `=` padding left off |
| Codec.Utf8ToBase64 | static/app.js:8 | succeeds exactly when every surrogate is paired; otherwise fails with a URIError |
| Codec.Base64ToUtf8 | static/app.js:9 | success gives a well-formed string; InvalidCharacterError exactly when `atob` rejects the text; URIError exactly when the bytes are not UTF-8 |
| Codec.RoundTrip | static/app.js:8-9 | `base64ToUtf8(utf8ToBase64(s)) == s` for every well-formed s, control characters included |
| Codec.LoneSurrogateRejected | static/app.js:8 | a string with an unpaired surrogate, a high one not followed by a low one or a low one not preceded by a high one, cannot be encoded |
| Codec.ReencodeIsCanonical | static/app.js:8-9 | re-encoding decoded text gives the canonical padded Base64 of its bytes |
| Codec.OverlongRejected | static/app.js:9 | `wIA=` (the overlong bytes C0 80) is Base64 that is not UTF-8 and raises a URIError |
| Protocol.Prepare | static/app.js:266-286 | a send yields a message exactly when its text can be encoded; the message has the step's type and `utf8ToBase64` of the text as data |
| Protocol.SendAll | static/app.js:259-286 | the sent messages are a prefix of the plan, each one prepared from its step; an error, when there is one, is the failure of the first step not sent |
| Protocol.SentTypes | static/app.js:259-286 | the types sent are a prefix of the planned types |
| Protocol.PreparedPayload | static/app.js:266-276 | the message built from an encoded step has that step's type, and its data decodes back to the step's text |
| Protocol.HandshakeSendsAll | static/app.js:266-286 | with well-formed texts the open handler raises no exception |
| Protocol.SendAllCompletes | static/app.js:259-286 | every send happens exactly when every step can be encoded |
| Protocol.PlanTypes | static/app.js:266-286 | the handshake steps have the types addr, login, credentials, resize, connect, in order |
| Protocol.PlanEncodable | static/app.js:266-276 | the handshake can be encoded exactly when host, port, username and the credentials in use are well formed |
| Protocol.HandshakeIsPrefix | static/app.js:259-286 | the sent types are always a prefix of the expected sequence; the handshake completes exactly when its texts are well formed |
| Protocol.HandshakeTypes | static/app.js:266-286 | with well-formed texts the sent types are exactly addr, login, credentials, resize, connect |
| Protocol.HandshakeComplete | static/app.js:266-286 | first `addr`, decoding to `host:port`; then `login`, decoding to the username; last `resize(cols, rows)` and then `connect` with empty data |
| Protocol.CountConcat | static/app.js:269-276 | counting message types distributes over concatenation |
| Protocol.CountCredentials | static/app.js:269-276 | `password` and `key` types occur only among the credential messages |
| Protocol.CredentialCounts | static/app.js:269-276 | one password message under password auth; under key auth one key message, plus a password message only when a passphrase is given |
| Protocol.HandshakeCounts | static/app.js:269-276 | a completed handshake sends one `password` message under password auth; under key auth it sends one `key` message, and a `password` message only when the passphrase is non-empty |
| Protocol.PasswordCredentials | static/app.js:269-270 | under password auth the message after `login` is `password`, and it carries the password |
| Protocol.KeyCredentials | static/app.js:271-272 | under key auth the message after `login` is `key`, and it carries the private key |
| Protocol.KeyPassphrase | static/app.js:273-283 | under key auth the `key` is followed by a `password` carrying the passphrase when one is given, and directly by `resize` otherwise |
| Protocol.StdinMessage | static/app.js:298-301 | a message is built exactly when the socket is open and the text can be encoded; it is `stdin` with data `utf8ToBase64(text)`, which decodes back to the text |
| Protocol.OnMessage | static/app.js:310-325 | something is written only for `stdout` or `stderr`, and what is written is well formed |
| Protocol.WrapWellFormed | static/app.js:319 | the red and reset escapes around a well-formed text keep it well formed |
| Protocol.StdoutWritesDecoded | static/app.js:315-317 | a `stdout` message whose data decodes writes exactly `base64ToUtf8(data)` |
| Protocol.StderrWritesRedDecoded | static/app.js:318-320 | a `stderr` message whose data decodes writes `ESC[31m`, then `base64ToUtf8(data)`, then `ESC[0m` |
| Protocol.StdoutWritesPayload | static/app.js:315-317 | a `stdout` message carrying `utf8ToBase64(text)` writes exactly the text |
| Protocol.StderrWritesRedPayload | static/app.js:318-320 | a `stderr` message carrying `utf8ToBase64(text)` writes `ESC[31m`, then the text, then `ESC[0m` |
| Protocol.UndecodableWritesNothing | static/app.js:311-324 | a payload `base64ToUtf8` rejects writes nothing, and the exception does not escape |
| Protocol.OtherTypesIgnored | static/app.js:314-321 | any other message type writes nothing |
| Protocol.MissingDataWritesNothing | static/app.js:316-319 | a message without `data` writes nothing, since `atob("undefined")` throws |
| Guard.RunKeepsRecent | static/app.js:226-236 | selection and copy events at or after t0 never move `lastSelectionTime` below t0 |
| Guard.InterruptDroppedWithinWindow | static/app.js:291-296 | after a non-empty selection at t0, and whatever events follow, a `^C` earlier than t0+500 is dropped |
| Guard.CollapsesKeepTime | static/app.js:231-235 | empty selection changes never modify `lastSelectionTime` |
| Guard.InterruptForwardedAfterWindow | static/app.js:291-301 | after a selection at t0 followed only by the selection collapsing, a `^C` at t0+500 or later is forwarded |
| Guard.OtherInputForwarded | static/app.js:294 | input other than a lone `^C` always passes the filter |
| Guard.CollapseWithinWindowKeepsSaved | static/app.js:231-235 | a selection that collapses within 500 ms is still what the copy shortcut copies |
| Guard.CollapseAfterWindowForgets | static/app.js:231-235 | once the window has passed, a collapse forgets the saved text and the copy falls back to the live selection |
| Guard.CopyThenInterruptDropped | static/app.js:202-203 | a successful copy empties the saved selection and drops a `^C` for the next 500 ms |
| Guard.SelectionGuard.constructor | static/app.js:15-16 | the guard starts with time 0 and no saved selection |
| Guard.SelectionGuard.OnSelectionChange | static/app.js:226-236 | a non-empty selection sets both fields; an empty one clears the saved text only more than 500 ms after the last selection time, and never changes that time |
| Guard.SelectionGuard.OnCopyShortcut | static/app.js:194-207 | copies the saved text, or else the live selection; a copy sets the time to now and empties the saved text; with nothing to copy the state is unchanged |
| Guard.SelectionGuard.OnKeyDown | static/app.js:191-222 | Ctrl/Cmd+C goes through the copy branch and is suppressed only when it copies; Ctrl/Cmd+V asks for the clipboard; no other key changes the state |
| Guard.SelectionGuard.OnData | static/app.js:289-303 | sends a message exactly when the socket is open, the input is not a `^C` within 500 ms of the last selection time, and the text can be encoded; it is `stdin` with data `utf8ToBase64(input)`, which decodes back to the input |
| Debounce.LastCall | static/app.js:340-347 | the most recent call is a call among the events |
| Debounce.PendingIsLastCall | static/app.js:346-347 | whatever timer is pending belongs to the most recent call: its deadline is that call's time plus `wait`, and it carries that call's arguments |
| Debounce.BurstQuiet | static/app.js:346-347 | during a burst the wrapped function never runs, and the pending timer is the latest call's |
| Debounce.TicksFireOnce | static/app.js:342-345 | a pending timer fires once, at the first tick that reaches its deadline, and never again |
| Debounce.RunAppend | static/app.js:339-349 | running two event sequences one after the other is running their concatenation |
| Debounce.LastCallWins | static/app.js:339-349 | a burst followed by quiet runs the function exactly once, with the last call's arguments, if the clock reaches that call's deadline; otherwise it never runs |
| Debounce.Debouncer.constructor | static/app.js:339-340 | a fresh debouncer has no pending timer |
| Debounce.Debouncer.Call | static/app.js:346-347 | a call replaces any pending timer with one due `wait` after now, carrying its arguments |
| Debounce.Debouncer.Tick | static/app.js:342-345 | the pending call runs exactly when its deadline has come, and is then cleared |
| Debounce.ResizeAction | static/app.js:353-366 | a message goes out exactly when a terminal exists, `fit()` did not throw and the socket is open; it is `resize` with the fitted `cols` and `rows`, and needs no encoding |
| Debounce.ResizeMatchesHandshake | static/app.js:279-283 | the debounced resize for a geometry is the same message as the open handler's `resize` for that geometry |
| Debounce.ResizeBurstRunsOnce | static/app.js:352-368 | resizes during which no tick reaches the latest resize's deadline, followed by ticks: the body runs once if a tick comes 100 ms or more after the last resize, and never otherwise |
| Frames.Frame | src/api/ssh_websocket.rs:52-64 | a frame has its type, and its data decodes to the UTF-8 bytes of the string |
| Frames.GetWsStdout | src/api/ssh_websocket.rs:52-57 | the frame's type is `stdout`, and its data is Base64 that decodes to the UTF-8 bytes of s |
| Frames.GetWsStderr | src/api/ssh_websocket.rs:59-64 | the frame's type is `stderr`, and its data is Base64 that decodes to the UTF-8 bytes of s |
| Frames.SymbolsPlain | src/api/ssh_websocket.rs:53-55 | every Base64 symbol is printable ASCII other than the quote and the backslash |
| Frames.FrameDataIsPlain | src/api/ssh_websocket.rs:53-55 | the data field needs no escaping, so JSON serialisation writes it as it is |
| Frames.SameData | src/api/ssh_websocket.rs:53-54 | the two builders give the same data for the same string; only the type differs |
| Frames.FrameDecodes | src/api/ssh_websocket.rs:53 | the browser's `base64ToUtf8` of a frame's data is the UTF-16 form of the server's string |
| Frames.StdoutEndToEnd | src/api/ssh_websocket.rs:52-57 | a stdout frame makes the browser write exactly the server's string |
| Frames.StderrEndToEnd | src/api/ssh_websocket.rs:59-64 | a stderr frame makes the browser write the server's string between the red and reset escapes |
| Frames.ClientAgreesWithServer | src/api/ssh_websocket.rs:53 | the browser's `utf8ToBase64` and the server's Base64 give the same data for the same text |

## Left out

- DOM and form plumbing (static/app.js:40-141) is user interface only: element lookups, radio visibility, reading the key file, alerts, and showing and hiding panels.
- xterm.js `Terminal` and `FitAddon` (static/app.js:146-186) are a foreign library. The live selection and the fitted size are parameters, and a `fit()` that throws is a missing size.
- Clipboard access is asynchronous browser capability. This covers `navigator.clipboard`, `copyTextFallback` (static/app.js:19-37, 196-199, 213-220) and the right-click copy (static/app.js:239-246). The model says only which text the copy shortcut copies. `PasteRequested` stands for the clipboard read, whose text is then sent through `Protocol.StdinMessage`.
- Terminal status lines and logging are output only: the `writeln` progress messages (static/app.js:251, 260-261) and the `console.error` calls (static/app.js:323, 365).
- Socket I/O is left out: constructing the WebSocket and choosing its URL (static/app.js:254-257), `onerror` and `onclose` (static/app.js:327-335), and the fit timers at lines 249 and 263. The socket's readiness is a boolean parameter.
- The order of handler installation is not modelled. The input handler and the resize listener are installed only after the open handler's sends (static/app.js:289, 306-307). When the handshake stops on an encoding error (`Protocol.HandshakeIsPrefix` says exactly when), they are never installed.
- `route_ssh_websocket` and `ws_start` (src/api/ssh_websocket.rs:14-50) are concurrency and I/O. So is the server bootstrap in src/main.rs.
- JSON text is not modelled; a message is the object given to `JSON.stringify` or `json!`. `Frames.FrameDataIsPlain` shows that the server's data field needs no escaping. A message whose `type` is not a string is treated like any unknown type.
- The `base64` crate and the browser's `btoa`/`atob` are replaced by the model's own Base64. The `atob` decoder follows the forgiving-base64 algorithm of the HTML standard: it strips ASCII whitespace and one or two `=` at a length divisible by four, and it rejects a length of 1 modulo 4 and any other character.
- Debounce.Debouncer: real timers are `Tick(now)` events. The model fires a due timer at the first tick at or after its deadline, so how late a browser runs a timer is not modelled.
- Guard.SelectionGuard.OnData returns the message it would send, not only a flag. The socket being open is a parameter, because the guard does not own the socket.
- Codec.Utf8ToBase64: the contract states when encoding succeeds and how it fails. The decoded value is stated by `Codec.RoundTrip` instead, which keeps the function cheap to unfold.
