# Instrument-cluster dashboard and frame generator: a Dafny model

This project models the parts of the Qt instrument-cluster dashboard and its
companion frame generator that do more than move bytes:

- **The receivers' decode path.** The UDP, CAN and LIN receivers each read one
  datagram, frame or message. They check how many bytes arrived and filter by
  CAN identifier 0x64 or by LIN message type and identifier 0x04. They split
  the 8-byte ASCII payload into a 4-character speed field and a 4-character
  RPM field, and parse both with `QString::toFloat` and `QString::toInt`. On
  success they emit the speed in km/h (raw × 3.6) and the RPM, then append the
  raw values to their JSON log.
  - Each read is modelled as a pure function from the read result to a trace
    of events. The trace holds the emitted signals, the warning each failed
    read gives (read error, short read, failed conversion, LIN overrun,
    unsupported LIN message), the LIN receiver's frame and wakeup debug lines,
    and the log append. The success debug line that prints the raw and
    converted values is not in the trace. Neither are the append's own
    diagnostics (open, parse and save messages).
  - The receiver classes apply that trace to their own trace field and to the
    shared file store.
- **The JSON log rules.** A file's content is abstract: `Missing`, `Empty`,
  `Unparseable`, `NotArray` or `Array(entries)`.
  - An append keeps the prior entries when the file holds an array, and
    otherwise starts from `[]`.
  - The constructor check rewrites a file to `[]` unless it already holds an
    array.
  - `clearJsonFiles` writes `[]` to every listed file.
  - A file that cannot be opened for writing is left unchanged. The store's
    `readOnly` set says which files those are.
  - A file that exists but cannot be opened for reading is treated as
    missing. The store's `unreadable` set says which files those are. An
    append to such a file writes back the new entry alone. The constructor
    check rewrites it to `[]` whatever it held.
- **The dashboard's control plane.**
  - The TCP command receiver trims the text it receives and classifies it as
    `SEND_JSON`, `RECEIVED_JSON` or invalid. It always disconnects the client.
  - The transfer frame is the big-endian length of the file's base name, then
    the name, then the file bytes.
  - `sendJsonFileOverTcp` retries a bounded number of times. It is modelled as
    a recursive specification and as a loop proved equal to it.
  - The SEND_JSON handler exports existing files only.
  - The RECEIVED_JSON handler clears the logs and then recreates the CAN, UDP
    and FlexRay receivers.
  - Start-up creates the receivers (each heals its log) and then clears every
    log.
- **The frame generator's encoder**, from `Dummy_Sender.cpp`.
  - It clamps both values at zero and fits each formatted text to exactly 4
    characters, by truncating or by right-padding with spaces.
  - It joins the two fields into the 8-byte payload.
  - It frames the payload as a CAN frame (identifier 0x64, dlc 8, zero-filled)
    and as a 12-byte FlexRay-over-UDP datagram (big-endian slot id, then the
    payload).
  - It logs the UDP sends to `original_sender.json`. At start-up `main`
    rewrites that file to `[]` unless it already holds an array, and exits
    with 1 when the rewrite fails.
  - The lemmas at the end prove the round trip through the dashboard's
    receivers:
    - any speed printed with one decimal up to 99.9 comes back exactly;
    - any RPM up to 9999 comes back exactly;
    - a longer RPM comes back as its first four digits.
  - These are properties of the payload and frame formats. The CAN
    simulator writes to `vcan0` and the dashboard reads `can2`, so its frames
    reach the dashboard only when those two buses are bridged.

Modules, one per file:

| file | module | source |
|---|---|---|
| `wrappers.dfy` | `Wrappers` | `Option` |
| `wire.dfy` | `Wire`, `Frames` | bytes, big-endian 32-bit words, UTF-8, Latin-1, the CAN frame |
| `qt_text.dfy` | `QtText` | `QChar::isSpace`, `QString::trimmed`, `toInt`, `toFloat` |
| `json_log.dfy` | `JsonLog` | log-file content, append, heal, clear; the `FileStore` class |
| `signals.dfy` | `Signals` | the shared 8-byte decode and the event trace |
| `udp_receiver.dfy` | `Udp` | `UdpReceiver.cpp` |
| `can_receiver.dfy` | `Can` | `CanReceiver.cpp` |
| `lin_receiver.dfy` | `Lin` | `LinReceiver.cpp` |
| `tcp_signal_receiver.dfy` | `Tcp` | `TcpSignalReceiver.cpp` |
| `transfer.dfy` | `Transfer` | `sendJsonFileOverTcp` in `main.cpp` |
| `dashboard.dfy` | `Dashboard` | the rest of the dashboard's `main.cpp` |
| `sender_codec.dfy` | `Encoder` | the payload encoder and framing of `Dummy_Sender.cpp`, and the round-trip lemmas |
| `dummy_sender.dfy` | `Sender` | the simulator classes and `main` of `Dummy_Sender.cpp` |

Modelling choices:

- **Numbers.**
  - Speed is a Dafny `real`. `toFloat` is idealised to exact decimal parsing,
    so × 3.6 is exact.
  - RPM is an `int` and `toInt` rejects values outside the C `int` range.
  - The 32-bit length in the transfer header wraps modulo 2^32, as the
    `uint32_t` it is stored in does.
- **I/O.**
  - Every read, connect, write and sendto is an input: a read result, a
    "connected" flag, a byte count, or a success flag.
  - The bytes of a file being exported are an input too. Per file and per
    attempt, the argument gives whether the connection came up, what the file
    holds and how many bytes were written.
- **Formatting.** The C++ decimal formatting of a float (`std::fixed` with
  `setprecision`) is a parameter of the sender (`Sender.Format`). The
  round-trip lemmas assume the formatter prints `tenths / 10` and `n` the way
  `std::fixed` prints those exact decimals.
- **The LIN driver.** `sizeof(plin_msg)` and the `PLIN_MSG_*` codes come from a
  driver header that is not part of this model. The message size is a
  constructor parameter of `LinReceiver`, and the message type is an
  enumerated datatype.
- **Compile-time switches.** In the dashboard's `main.cpp`, the FlexRay and
  LIN parts depend on the `ENABLE_FLEXRAY` and `ENABLE_LIN` switches. The
  model is the build with both enabled. The log list is then CAN, UDP,
  FlexRay, LIN, in that order.
- **Datagrams longer than 8 bytes.** The UDP receiver reads into an 8-byte
  buffer, and `recvfrom` silently truncates a longer datagram. So a datagram of more than 8 bytes is decoded from its
  first 8 bytes (`Udp.OversizedDatagramIsTruncated`), not dropped. The model
  follows the code.
- **Qt version.** The model follows Qt 6. There, `QString::fromLatin1` and
  `QString::fromUtf8` of a `QByteArray` convert every byte of the array,
  NUL bytes included. So a NUL in a payload field is an ordinary character,
  which `toFloat` and `toInt` reject.
- **The CAN dlc.** The CAN receiver never looks at the frame's data length
  code. The model does not either.

## Model

| member | source | states |
|---|---|---|
| Wire.Be32 | ICSimulator-and-QtDashBoard_demo/Dashboard/src/main.cpp:78-80 | `htonl` as bytes: four bytes, most significant first, whose weighted sum is the value |
| Wire.Be32RoundTrip | ICSimulator-and-QtDashBoard_demo/Dashboard/src/main.cpp:78-80 | reading the four header bytes back as a big-endian word gives the length that was written |
| Wire.FromBe32RoundTrip | ICSimulator-and-QtDashBoard_demo/ICSimulator/src/Dummy_Sender.cpp:357-358 | every 4-byte sequence is the big-endian encoding of the word it decodes to |
| Wire.Utf8Char | ICSimulator-and-QtDashBoard_demo/Dashboard/src/main.cpp:77 | a character encodes to 1 to 4 bytes, to a single byte exactly when it is below 0x80, with a lead byte and continuation bytes otherwise |
| Wire.Utf8 | ICSimulator-and-QtDashBoard_demo/Dashboard/src/main.cpp:77 | `toUtf8` never yields fewer bytes than characters, and copies ASCII text byte for byte |
| Wire.Latin1 | ICSimulator-and-QtDashBoard_demo/Dashboard/src/UdpReceiver.cpp:179-181 | `fromLatin1`: one character per byte, carrying the byte's value |
| Wire.Latin1Bytes | ICSimulator-and-QtDashBoard_demo/ICSimulator/src/Dummy_Sender.cpp:125-127 | the `memcpy` of a `char` string into bytes: one byte per character, with its code |
| Wire.Latin1RoundTrip | ICSimulator-and-QtDashBoard_demo/ICSimulator/src/Dummy_Sender.cpp:125-127 | reading the copied bytes as Latin-1 gives back the sender's text |
| Wire.Latin1BytesRoundTrip | ICSimulator-and-QtDashBoard_demo/Dashboard/src/CanReceiver.cpp:190 | converting the received bytes to text loses nothing: the text gives back the bytes |
| QtText.TrimStartShape | ICSimulator-and-QtDashBoard_demo/Dashboard/src/TcpSignalReceiver.cpp:38 | removing leading whitespace removes a prefix of whitespace only, and stops at a non-space character |
| QtText.TrimEndShape | ICSimulator-and-QtDashBoard_demo/Dashboard/src/TcpSignalReceiver.cpp:38 | removing trailing whitespace removes a suffix of whitespace only, and stops at a non-space character |
| QtText.TrimmedShape | ICSimulator-and-QtDashBoard_demo/Dashboard/src/TcpSignalReceiver.cpp:38 | `trimmed()` is a slice of the text with only whitespace before and after it, and it neither starts nor ends with whitespace |
| QtText.TrimmedIdempotent | ICSimulator-and-QtDashBoard_demo/Dashboard/src/TcpSignalReceiver.cpp:38 | trimming twice is the same as trimming once |
| QtText.TrimmedPadded | ICSimulator-and-QtDashBoard_demo/Dashboard/src/TcpSignalReceiver.cpp:38 | a word with whitespace around it trims to exactly that word |
| QtText.Trimmed | ICSimulator-and-QtDashBoard_demo/Dashboard/src/TcpSignalReceiver.cpp:38 | `QString::trimmed`; it has no contract of its own, and TrimmedShape, TrimmedIdempotent and TrimmedPadded state what it gives |
| QtText.ParseDecimal | ICSimulator-and-QtDashBoard_demo/Dashboard/src/UdpReceiver.cpp:187 | `toFloat` of a field: the trimmed text, an optional sign, digits with at most one '.'; it has no contract of its own, and ParseDecimalAlphabet, NonDecimalCharRejects, DecimalAgreesWithInt and Encoder.SpeedRoundTrip state what it accepts and gives |
| QtText.SignSplit | ICSimulator-and-QtDashBoard_demo/Dashboard/src/UdpReceiver.cpp:187-188 | the unsigned part is the text, or the text without one leading '+' or '-'; the value is negative only when that sign was '-' |
| QtText.ParseInt | ICSimulator-and-QtDashBoard_demo/Dashboard/src/UdpReceiver.cpp:188 | an accepted RPM field lies in the range of a C `int` |
| QtText.ParseIntAlphabet | ICSimulator-and-QtDashBoard_demo/Dashboard/src/UdpReceiver.cpp:188 | a field `toInt` accepts holds only whitespace, digits and signs, and at least one digit |
| QtText.ParseDecimalAlphabet | ICSimulator-and-QtDashBoard_demo/Dashboard/src/UdpReceiver.cpp:187 | a field `toFloat` accepts holds only whitespace, digits, signs and '.', and at least one digit |
| QtText.NonIntCharRejects | ICSimulator-and-QtDashBoard_demo/Dashboard/src/UdpReceiver.cpp:188 | any other character makes `toInt` fail |
| QtText.NonDecimalCharRejects | ICSimulator-and-QtDashBoard_demo/Dashboard/src/UdpReceiver.cpp:187 | any other character makes `toFloat` fail |
| QtText.DecimalAgreesWithInt | ICSimulator-and-QtDashBoard_demo/Dashboard/src/UdpReceiver.cpp:187-188 | on a field that `toInt` accepts, `toFloat` gives the same value |
| JsonLog.Appended | ICSimulator-and-QtDashBoard_demo/Dashboard/src/UdpReceiver.cpp:129-158 | the result is an array: the prior entries when the file held an array, otherwise `[]`, followed by the new entry, one longer than that base |
| JsonLog.AppendedAllKeepsEverything | ICSimulator-and-QtDashBoard_demo/Dashboard/src/UdpReceiver.cpp:129-158 | a series of appends yields the base followed by every entry, in order |
| JsonLog.Initialised | ICSimulator-and-QtDashBoard_demo/Dashboard/src/UdpReceiver.cpp:47-90 | the constructor check leaves the content unchanged exactly when it is an array, and writes `[]` otherwise |
| JsonLog.InitialisedIdempotent | ICSimulator-and-QtDashBoard_demo/Dashboard/src/UdpReceiver.cpp:47-90 | running the constructor check twice is the same as running it once |
| JsonLog.AppendAfterInitialise | ICSimulator-and-QtDashBoard_demo/Dashboard/src/UdpReceiver.cpp:122-158 | appending after the constructor check gives the same file as appending without it |
| JsonLog.Read | ICSimulator-and-QtDashBoard_demo/Dashboard/src/UdpReceiver.cpp:129-154 | opening a log for reading: a file that cannot be opened reads as missing; stated through HealedContent and UnreadableLogRestarts |
| JsonLog.Healed | ICSimulator-and-QtDashBoard_demo/Dashboard/src/UdpReceiver.cpp:47-90 | the constructor check on one file; HealedContent states its effect on every file |
| JsonLog.HealedContent | ICSimulator-and-QtDashBoard_demo/Dashboard/src/CanReceiver.cpp:52-95 | the check touches only its own file: a writable file ends up as the check of what reading it gives (an array kept, anything else `[]`), and every other file is unchanged |
| JsonLog.UnreadableLogRestarts | ICSimulator-and-QtDashBoard_demo/Dashboard/src/UdpReceiver.cpp:129-157 | a writable log that cannot be opened for reading ends up holding the new entry alone after an append, and `[]` after the constructor check |
| JsonLog.HealedIdempotent | ICSimulator-and-QtDashBoard_demo/Dashboard/src/UdpReceiver.cpp:47-90 | running the constructor check on a file twice leaves the directory as running it once |
| JsonLog.HealedAfterCleared | ICSimulator-and-QtDashBoard_demo/Dashboard/src/main.cpp:399-403 | a receiver created right after the logs were cleared leaves the files exactly as they were |
| JsonLog.Cleared | ICSimulator-and-QtDashBoard_demo/Dashboard/src/main.cpp:102-123 | `clearJsonFiles`, file by file in list order; ClearedContent states its effect on every file |
| JsonLog.ClearedContent | ICSimulator-and-QtDashBoard_demo/Dashboard/src/main.cpp:102-123 | after clearing, a listed file holds `[]` whether or not it existed, unless it cannot be opened for writing; every other file is unchanged |
| JsonLog.ClearedAbsorbsHealed | ICSimulator-and-QtDashBoard_demo/Dashboard/src/main.cpp:165-223 | a constructor check on a listed file followed by clearing is the same as clearing alone |
| JsonLog.ClearedIdempotent | ICSimulator-and-QtDashBoard_demo/Dashboard/src/main.cpp:102-123 | clearing twice is the same as clearing once |
| JsonLog.FileStore.Append | ICSimulator-and-QtDashBoard_demo/Dashboard/src/UdpReceiver.cpp:122-158 | the file becomes `Appended(what reading it gave, entry)` when it can be written; nothing else changes |
| JsonLog.FileStore.Initialise | ICSimulator-and-QtDashBoard_demo/Dashboard/src/UdpReceiver.cpp:47-90 | the file is rewritten to `[]` exactly when reading it did not give an array and it can be written, and the result says whether it was |
| JsonLog.FileStore.Clear | ICSimulator-and-QtDashBoard_demo/Dashboard/src/main.cpp:102-123 | the loop over the list leaves the files as `Cleared` describes |
| Signals.DecodePayload | ICSimulator-and-QtDashBoard_demo/Dashboard/src/UdpReceiver.cpp:178-190 | a payload decodes exactly when characters [0,4) parse as a float and characters [4,8) parse as an int, and then to those two values |
| Signals.DecodeOfFields | ICSimulator-and-QtDashBoard_demo/Dashboard/src/UdpReceiver.cpp:181-190 | a payload whose two fields parse decodes to exactly those values |
| Signals.NonNumericByteRejects | ICSimulator-and-QtDashBoard_demo/Dashboard/src/UdpReceiver.cpp:186-209 | a byte that cannot occur in its field's number makes the whole payload fail to decode |
| Signals.Accepted | ICSimulator-and-QtDashBoard_demo/Dashboard/src/UdpReceiver.cpp:190-206 | the events of a successful read; AcceptedOrder and DecodeEvents state their order and when they occur |
| Signals.Persisted | ICSimulator-and-QtDashBoard_demo/Dashboard/src/UdpReceiver.cpp:122-158 | a read changes the log only through the append its events contain, starting from what reading the log gives; the receivers' read methods state their store through it |
| Signals.DecodeEvents | ICSimulator-and-QtDashBoard_demo/Dashboard/src/UdpReceiver.cpp:186-209 | the events signal a reading exactly when the payload decodes; otherwise there is one conversion warning and no log entry |
| Signals.AcceptedOrder | ICSimulator-and-QtDashBoard_demo/Dashboard/src/UdpReceiver.cpp:190-206 | on success the speed signal (raw × 3.6) comes first, the RPM signal second, and the log append of the raw speed and the RPM last |
| Udp.BytesRead | ICSimulator-and-QtDashBoard_demo/Dashboard/src/UdpReceiver.cpp:163-168 | `recvfrom` returns at most 8 bytes, and exactly 8 when the datagram had at least that many |
| Udp.UdpEvents | ICSimulator-and-QtDashBoard_demo/Dashboard/src/UdpReceiver.cpp:162-210 | a read error or a datagram of fewer than 8 bytes gives one warning only; the signals are emitted exactly when at least 8 bytes arrived and they decode; without signals there is no log entry |
| Udp.UdpReceiver.constructor | ICSimulator-and-QtDashBoard_demo/Dashboard/src/UdpReceiver.cpp:47-90 | creating the receiver heals `udp_protocol_receiver.json` and touches no other file |
| Udp.UdpReceiver.ReadUdpPacket | ICSimulator-and-QtDashBoard_demo/Dashboard/src/UdpReceiver.cpp:162-210 | the trace grows by that read's events, and the log changes only through the append they contain |
| Udp.OversizedDatagramIsTruncated | ICSimulator-and-QtDashBoard_demo/Dashboard/src/UdpReceiver.cpp:163-176 | a datagram of more than 8 bytes is decoded from its first 8 bytes |
| Udp.ShortDatagramDropped | ICSimulator-and-QtDashBoard_demo/Dashboard/src/UdpReceiver.cpp:173-176 | a datagram of fewer than 8 bytes gives an "incomplete" warning and no signal |
| Can.CanEvents | ICSimulator-and-QtDashBoard_demo/Dashboard/src/CanReceiver.cpp:167-222 | a read error or short read gives one warning; another identifier gives nothing at all; the signals are emitted exactly for a full frame with identifier 0x64 whose payload decodes; without signals there is no log entry |
| Can.CanReceiver.constructor | ICSimulator-and-QtDashBoard_demo/Dashboard/src/CanReceiver.cpp:52-95 | creating the receiver heals `can_protocol_receiver.json` and touches no other file |
| Can.CanReceiver.ReadCanFrame | ICSimulator-and-QtDashBoard_demo/Dashboard/src/CanReceiver.cpp:167-222 | the trace grows by that read's events, and the log changes only through the append they contain |
| Can.OtherIdentifierIgnored | ICSimulator-and-QtDashBoard_demo/Dashboard/src/CanReceiver.cpp:184-222 | a full frame with another identifier yields no event, and no file changes |
| Lin.FrameEvents | ICSimulator-and-QtDashBoard_demo/Dashboard/src/LinReceiver.cpp:173-218 | a FRAME message always gives its debug line first; the signals are emitted exactly for identifier 0x04 with a payload that decodes; otherwise there is no log entry |
| Lin.LinEvents | ICSimulator-and-QtDashBoard_demo/Dashboard/src/LinReceiver.cpp:156-231 | an error or a wrong-size read gives one warning; otherwise exactly one branch runs, chosen by type (FRAME, OVERRUN warning, WAKEUP debug, unsupported warning); only FRAME 0x04 can emit or log |
| Lin.LinReceiver.constructor | ICSimulator-and-QtDashBoard_demo/Dashboard/src/LinReceiver.cpp:30-73 | creating the receiver heals `lin_protocol_receiver.json` and touches no other file |
| Lin.LinReceiver.ReadLinFrame | ICSimulator-and-QtDashBoard_demo/Dashboard/src/LinReceiver.cpp:156-231 | the trace grows by that read's events, and the log changes only through the append they contain |
| Tcp.Classify | ICSimulator-and-QtDashBoard_demo/Dashboard/src/TcpSignalReceiver.cpp:37-47 | the outcome is SEND_JSON exactly when the trimmed text is `SEND_JSON`, RECEIVED_JSON exactly when it is `RECEIVED_JSON`, and invalid (carrying the trimmed text) otherwise |
| Tcp.PaddedCommand | ICSimulator-and-QtDashBoard_demo/Dashboard/src/TcpSignalReceiver.cpp:38-44 | either command surrounded by any whitespace is recognised |
| Tcp.ClassifyTrimmed | ICSimulator-and-QtDashBoard_demo/Dashboard/src/TcpSignalReceiver.cpp:38 | only the trimmed text matters |
| Tcp.TcpSignalReceiver.constructor | ICSimulator-and-QtDashBoard_demo/Dashboard/src/TcpSignalReceiver.cpp:4-16 | the server keeps its address and port, and has raised no signal and disconnected no client |
| Tcp.TcpSignalReceiver.ReadClientData | ICSimulator-and-QtDashBoard_demo/Dashboard/src/TcpSignalReceiver.cpp:33-49 | with no sender nothing happens; otherwise exactly one outcome is raised and recorded, and that client is disconnected |
| Transfer.BaseName | ICSimulator-and-QtDashBoard_demo/Dashboard/src/main.cpp:76 | the final component of the path: a suffix with no '/', preceded by a '/' unless it is the whole path |
| Transfer.TransferFrame | ICSimulator-and-QtDashBoard_demo/Dashboard/src/main.cpp:76-84 | the frame is 4 + name length + data length bytes long and ends with the file bytes |
| Transfer.ParseTransferFrame | ICSimulator-and-QtDashBoard_demo/Dashboard/src/main.cpp:76-84 | a byte string splits into (name, data) exactly when its header's length fits, and is then the header, the name and the data |
| Transfer.TransferFrameRoundTrip | ICSimulator-and-QtDashBoard_demo/Dashboard/src/main.cpp:76-84 | splitting a transfer frame gives back the UTF-8 base name and the file bytes |
| Transfer.ParseFramed | ICSimulator-and-QtDashBoard_demo/Dashboard/src/main.cpp:76-84 | any name under 4 GiB behind its big-endian length, followed by any data, parses back to exactly that name and data |
| Transfer.TryOnce | ICSimulator-and-QtDashBoard_demo/Dashboard/src/main.cpp:47-98 | one attempt fails to connect, fails to open, finds the file empty, writes short, or delivers, each under exactly its condition; a delivery carries the transfer frame |
| Transfer.SendAttempts | ICSimulator-and-QtDashBoard_demo/Dashboard/src/main.cpp:46-100 | the recursion of `sendJsonFileOverTcp` as written; SendAttemptsShape, SendAttemptsStop, UnsendableFileEndsRun and DeliveredIsLast state what a run does |
| Transfer.SendAttemptsShape | ICSimulator-and-QtDashBoard_demo/Dashboard/src/main.cpp:46-100 | a run has at least one attempt and at most the number left up to `maxRetries`; attempt i uses the i-th environment; every attempt but the last is a retryable failure |
| Transfer.SendAttemptsStop | ICSimulator-and-QtDashBoard_demo/Dashboard/src/main.cpp:87-98 | the run stops at the first attempt that may not be retried (a delivery, an open failure, an empty file) or once `maxRetries` attempts are reached, and at no other point |
| Transfer.UnsendableFileEndsRun | ICSimulator-and-QtDashBoard_demo/Dashboard/src/main.cpp:60-74 | a file that cannot be opened, or is empty, ends the run without a retry |
| Transfer.DeliveredIsLast | ICSimulator-and-QtDashBoard_demo/Dashboard/src/main.cpp:84-98 | a full write ends the run and delivers the frame of the file read in that attempt |
| Transfer.SendJsonFileOverTcp | ICSimulator-and-QtDashBoard_demo/Dashboard/src/main.cpp:46-100 | the loop with an attempt counter makes exactly the attempts of the recursive definition |
| Dashboard.FlexRayReceiver.constructor | ICSimulator-and-QtDashBoard_demo/Dashboard/src/main.cpp:193 | the receiver keeps the address and port it was created with |
| Dashboard.ExportOf | ICSimulator-and-QtDashBoard_demo/Dashboard/src/main.cpp:389-395 | one file of the SEND_JSON handler, sent to the remote host and port; ExportOfShape states when it is skipped and how a send ends |
| Dashboard.ExportOfShape | ICSimulator-and-QtDashBoard_demo/Dashboard/src/main.cpp:386-397 | a log file is skipped exactly when it does not exist; a sent one goes to the given host and port and takes 1 to 3 attempts, and only the last may deliver |
| Dashboard.App.constructor | ICSimulator-and-QtDashBoard_demo/Dashboard/src/main.cpp:160-223 | the receivers are created with their fixed interface, addresses and ports and share the log directory, and the LIN receiver checks reads against the given message size; the files end exactly as clearing the four logs would leave them |
| Dashboard.App.OnSendJson | ICSimulator-and-QtDashBoard_demo/Dashboard/src/main.cpp:386-397 | one export per log file, in list order, each skipped or sent to the remote (`autowareIp`) host on the dashboard's port according to whether the file exists |
| Dashboard.App.ResetReceivers | ICSimulator-and-QtDashBoard_demo/Dashboard/src/main.cpp:320-348 | fresh CAN, UDP and FlexRay receivers on the same interface and addresses; LIN and TCP are kept; the new CAN and UDP receivers heal their logs, and the FlexRay receiver's own start-up is not modelled |
| Dashboard.App.OnReceivedJson | ICSimulator-and-QtDashBoard_demo/Dashboard/src/main.cpp:399-403 | clearing then resetting leaves the files exactly as clearing alone does |
| Dashboard.App.OnClientData | ICSimulator-and-QtDashBoard_demo/Dashboard/src/main.cpp:386-403 | the TCP receiver records the classified command and disconnects the client, or does nothing without a sender; SEND_JSON exports every log and changes no file; RECEIVED_JSON clears the logs and installs fresh CAN, UDP and FlexRay receivers with empty traces; in every other case the files and the receivers stay as they were |
| Dashboard.LogsAfterClear | ICSimulator-and-QtDashBoard_demo/Dashboard/src/main.cpp:213-223 | after start-up every writable log file holds `[]`, and no other file has changed |
| Encoder.Clamp | ICSimulator-and-QtDashBoard_demo/ICSimulator/src/Dummy_Sender.cpp:112-113 | the value is never negative: a negative input becomes 0, any other stays as it is |
| Encoder.FitField | ICSimulator-and-QtDashBoard_demo/ICSimulator/src/Dummy_Sender.cpp:122-123 | always exactly 4 characters: the first four of a longer text, or the text followed by spaces |
| Encoder.EncodePayload | ICSimulator-and-QtDashBoard_demo/ICSimulator/src/Dummy_Sender.cpp:125-127 | 8 bytes: characters [0,4) are the fitted speed text and [4,8) the fitted RPM text |
| Encoder.DecimalText | ICSimulator-and-QtDashBoard_demo/ICSimulator/src/Dummy_Sender.cpp:117 | the decimal digits of n, without leading zeros, whose value is n |
| Encoder.FixedText1 | ICSimulator-and-QtDashBoard_demo/ICSimulator/src/Dummy_Sender.cpp:116 | `std::fixed << setprecision(1)` of a speed with one decimal; SpeedRoundTrip states that it parses back |
| Encoder.DecimalTextFits | ICSimulator-and-QtDashBoard_demo/ICSimulator/src/Dummy_Sender.cpp:117-123 | the digits of n fit a field exactly when n is at most 9999 |
| Encoder.PaddedDigits | ICSimulator-and-QtDashBoard_demo/ICSimulator/src/Dummy_Sender.cpp:122-123 | the receiver's trimming removes exactly the padding the fit added |
| Encoder.RpmRoundTrip | ICSimulator-and-QtDashBoard_demo/ICSimulator/src/Dummy_Sender.cpp:117-123 | an RPM from 0 to 9999 comes back unchanged from `toInt` of its field |
| Encoder.LongRpmField | ICSimulator-and-QtDashBoard_demo/ICSimulator/src/Dummy_Sender.cpp:123 | an RPM of five or more digits is sent as its first four digits |
| Encoder.RpmTruncated | ICSimulator-and-QtDashBoard_demo/ICSimulator/src/Dummy_Sender.cpp:117-127 | such an RPM comes back as the number v of its first four digits, where v shifted by the dropped digits is at most n, and v + 1 shifted is more than n |
| Encoder.SpeedRoundTrip | ICSimulator-and-QtDashBoard_demo/ICSimulator/src/Dummy_Sender.cpp:116-122 | a speed from 0.0 to 99.9 written with one decimal comes back exactly from `toFloat` of its field |
| Encoder.DecodeEncoded | ICSimulator-and-QtDashBoard_demo/ICSimulator/src/Dummy_Sender.cpp:125-127 | the receiver's decode of an encoded payload is the pair of what its two fields parse to |
| Encoder.PayloadRoundTrip | ICSimulator-and-QtDashBoard_demo/ICSimulator/src/Dummy_Sender.cpp:112-127 | a payload built from such a speed and such an RPM decodes to exactly those two values |
| Encoder.CanFrameOf | ICSimulator-and-QtDashBoard_demo/ICSimulator/src/Dummy_Sender.cpp:238-242 | the given identifier, dlc 8, the data bytes at the start, and zeros after them |
| Encoder.FlexRayDatagram | ICSimulator-and-QtDashBoard_demo/ICSimulator/src/Dummy_Sender.cpp:356-359 | 12 bytes whose first four decode to the slot id, followed by the data |
| Sender.CombinedPayload | ICSimulator-and-QtDashBoard_demo/ICSimulator/src/Dummy_Sender.cpp:112-127 | the payload of all three simulators carries the fitted texts of the clamped speed and the clamped RPM |
| Sender.NegativeSentAsZero | ICSimulator-and-QtDashBoard_demo/ICSimulator/src/Dummy_Sender.cpp:112-113 | sending a negative value is the same as sending 0 |
| Sender.CombinedPayloadDecodes | ICSimulator-and-QtDashBoard_demo/ICSimulator/src/Dummy_Sender.cpp:112-127 | with exact formatting, the simulators' payload for a speed up to 99.9 and an RPM up to 9999 decodes to those values |
| Sender.UdpSimulator.constructor | ICSimulator-and-QtDashBoard_demo/ICSimulator/src/Dummy_Sender.cpp:30-46 | the simulator keeps its address and whether its socket opened, and has sent nothing |
| Sender.UdpSimulator.SendUdpData | ICSimulator-and-QtDashBoard_demo/ICSimulator/src/Dummy_Sender.cpp:106-140 | with a closed socket it fails and changes nothing; otherwise the clamped pair is appended to `original_sender.json` whether or not the send succeeds, and a successful send adds the payload |
| Sender.IcSimulator.constructor | ICSimulator-and-QtDashBoard_demo/ICSimulator/src/Dummy_Sender.cpp:149-172 | the simulator is bound to `vcan0`, or not open, and has sent nothing |
| Sender.IcSimulator.SendCanData | ICSimulator-and-QtDashBoard_demo/ICSimulator/src/Dummy_Sender.cpp:232-249 | it succeeds exactly when the socket is open and the write takes the whole frame, and only then adds the frame |
| Sender.IcSimulator.SendCombinedData | ICSimulator-and-QtDashBoard_demo/ICSimulator/src/Dummy_Sender.cpp:251-273 | the combined payload goes out in a frame with identifier 0x64, and nothing is logged |
| Sender.FlexRaySimulator.constructor | ICSimulator-and-QtDashBoard_demo/ICSimulator/src/Dummy_Sender.cpp:283-298 | the simulator is aimed at 127.0.0.1:5002, or not open, and has sent nothing |
| Sender.FlexRaySimulator.SendFlexRayData | ICSimulator-and-QtDashBoard_demo/ICSimulator/src/Dummy_Sender.cpp:350-368 | it succeeds exactly when the socket is open and the send goes through, and only then adds the 12-byte datagram |
| Sender.FlexRaySimulator.SendCombinedData | ICSimulator-and-QtDashBoard_demo/ICSimulator/src/Dummy_Sender.cpp:370-392 | the combined payload goes out in slot 1, and nothing is logged |
| Sender.Startup | ICSimulator-and-QtDashBoard_demo/ICSimulator/src/Dummy_Sender.cpp:457-489 | `original_sender.json` is rewritten to `[]` unless it holds an array; main exits with 1 exactly when that rewrite was needed and the file cannot be written. Exit code 0 stands for "main goes on to the simulators", whose loop never returns |
| Sender.CanLinkRoundTrip | ICSimulator-and-QtDashBoard_demo/ICSimulator/src/Dummy_Sender.cpp:251-273 | the CAN receiver accepts the simulator's frame and emits and logs exactly the speed and RPM that were sent |
| Sender.UdpLinkRoundTrip | ICSimulator-and-QtDashBoard_demo/ICSimulator/src/Dummy_Sender.cpp:106-140 | the UDP receiver accepts the simulator's datagram and emits and logs exactly the speed and RPM that were sent |

## Left out

- Sockets, the CAN and LIN devices, and file I/O are not modelled as calls.
  Each outcome is an input instead: a read result, connected or not, a byte
  count, a send that succeeds or not, a file that can be read or not and
  written or not.
  Nothing models timeouts, `waitForConnected`, `waitForBytesWritten` or the
  sleeps between retries.
- Threads (`QThread`, `moveToThread`) and the per-receiver `std::mutex` are
  left out. Each append is atomic. The race between an export reading a file
  and a receiver appending to it is not modelled.
- Qt signal/slot wiring is left out. This covers the QML value sources and
  their connections, `TcpSignalReceiver::handleNewConnection` (which only
  connects each pending client to `readClientData`), and the shutdown
  teardown. Emitted signals become events in a trace.
- Floating point is left out. `toFloat` is exact decimal parsing of
  `[sign] digits [. digits]`. Its exponent forms, `inf`, `nan` and float
  rounding are not modelled, and neither is the rounding of `* 3.6f`.
- `std::fixed << std::setprecision(n)` formatting is a parameter
  (`Sender.Format`), not a model of the C++ library.
- `simulateFloatData`'s endless ramp loop is left out, along with the
  parameters `main` passes it (78 km/h, 8000 RPM, steps of 5 and 100,
  100 ms).
- The JSON library is left out: parsing, `dump(2)`'s text layout, and the
  bytes of an exported file. Those bytes are an input of each export attempt.
- Qt 5's behaviour of `QString::fromLatin1` and `QString::fromUtf8` on a
  `QByteArray` is left out: there they stop at the first NUL byte. The model
  keeps every byte, as Qt 6 does.
- The bytes a TCP client sends are taken as already decoded text.
  `QString::fromUtf8`'s handling of invalid sequences is not modelled.
- Argument and IP validation in the dashboard's `main`, fonts, QML loading,
  and `qFatal` on a listen or bind failure are left out.
- The FlexRay receiver is reduced to the address it listens on (IP and port
  5002). `FlexrayReceiver.cpp` is not part of this model.
- `ICSimulator.cpp` and `UDPSimulator.cpp` are left out. Their payload is raw
  IEEE-754 bytes copied with `memcpy`. Their CAN framing is the same as
  `Encoder.CanFrameOf`.
- The three sender classes each have their own `logToJson` with the same
  rule (`JsonLog.FileStore.Append`). Only the UDP path calls it, and the
  model logs only there.
- Sender.FlexRaySimulator.SendFlexRayData: bytes of the 12-byte buffer
  beyond a short `data` are whatever the stack held. The model takes them as
  an input (`stale`). `sendCombinedData` always passes 8 bytes, so none are
  left over there.
- Sender.IcSimulator.SendCanData and
  Sender.FlexRaySimulator.SendFlexRayData require at most 8 data bytes. A
  larger `dataSize` overflows the source's buffer, a case the code does not
  handle.
- Lin.LinEvents: the model treats `sizeof(plin_msg)` as a parameter and the
  `PLIN_MSG_*` codes as an enumeration. Their real values come from the
  driver header.
- Encoder.SpeedRoundTrip and Sender.CombinedPayloadDecodes: the speed round
  trip is stated only for speeds written with one decimal, up to 99.9. Those
  texts fit the 4-character field whole. The truncation of longer texts is
  stated for the RPM field only (`Encoder.RpmTruncated`).
