# Device verification model

The device firmware under `device/websocket_client(ESP32)` talks to a server over a WebSocket, shows text and
pictures on an SSD1306 display, and scans for access points. This project models the three parts of it where
the logic is, and proves what they promise. `dafny verify dfyconfig.toml` checks everything.

**The WebSocket session engine** (`components/ws_client/esp_websocket_client.c`).
`WsFrames` and `WsSender` hold the fragmenting sender as a function of the transport's answers; `WsReceiver`
the chunked receiver, and the round trip through both. `WsSession` is the client task interleaved with any
number of other tasks: its program counter stops wherever another task can run (before the locked switch, after
the unlock, with a poll result in hand, and between the instructions of the abort that runs without the lock),
and the other tasks' actions are a send under the lock, the separate setting of the close bit, `run = false`,
the end of a start, a new ping interval and the forced UNKNOWN after the client task is gone. Every sequence of actions
is a schedule: an action that is not enabled leaves the state alone. `WsLog` says what a well-ordered history
is, `WsSafety` proves it of every run, `WsReconnect` covers the wait before the next attempt, `WsClosing` the close
handshake, `WsRaces` the abort that runs without the lock, `WsDecisions` what each turn of the loop decides and when,
`WsSends` what a send puts on the wire, `WsFlags` the flags that other tasks set, and `WsClient` is the client as an
object with buffers, every method proved to do what the state machine does.

Assumptions: what runs under the lock is one step, so the unlocked abort can fall before or after another task's
send but not between two of its chunks, and a failing send that overlaps the abort counts as falling within it, even
one that began before; a stop or close forces UNKNOWN only while the client task is gone, so one whose wait for
STOPPED_BIT outlasts a restart of the client, after the "still waiting" break has left run set
(`esp_websocket_client.c:1092-1107`), is not modelled; one clock, read at any time, never goes backwards and fits 63
bits of microseconds; event handlers do not send; a transport call's result is arbitrary except that a write never
takes more than it is offered and a read is at most the buffer; for the frame-count results a chunk is taken whole or
the call fails, and reads within a non-empty frame make progress.

**The display driver** (`components/ssd1306`). `OledBits` has the byte operations; `OledPicture` the four
wrap-around scrolls on a picture; `OledLine` the line algorithm; `OledController` the controller's RAM and its
addressing commands over both buses; `OledShadow`, `OledInk`, `OledScroll` and `OledSync` what text, pixels,
bitmaps and scrolls mean for a shadow buffer stored either way up, for any number of pages; `OledPanel` the driver
object, which updates its shadow in place and writes the controller; `OledSession` whole runs of calls.
A pixel (x, y) is bit `y % 8` of byte (`y / 8`, x), read through the byte reversal on a turned panel.
The panel is 128 columns wide with OFFSETX 0, and has one to eight pages.

**The access-point aggregator** (`components/scan/scan.c`). `ScanTable` is the simple map that the table should
be, with the widths of the counters explicit; `ScanText` the printed lines and a reader for them; `WifiScan` the
probe table, the averaging and the packing on arrays.

Where comments and code disagree the code is followed: the "still waiting" break leaves the loop, the 50th
distinct address is already a failure, and an empty table reports a length of 65535.

## Model

| member | source | states |
|---|---|---|
| WsSender.SendFragments | device/websocket_client(ESP32)/components/ws_client/esp_websocket_client.c:548-587 | Over a transport that takes a chunk whole or fails, a FIN-bearing text or binary send that succeeds is exactly max(1, ceil(len / buffer_size)) frames: opcode on the first only, FIN on the last only (section 5.4 of RFC 6455), every payload but the last of buffer size, payloads concatenating to the data; it succeeds when the transport never fails. When it fails, what is on the wire is a FIN-free strict prefix of the reference fragmentation, so no truncated message is completed. |
| WsSender.SendIsMessageIff | device/websocket_client(ESP32)/components/ws_client/esp_websocket_client.c:548-587 | Without the whole-or-fail assumption: a FIN-bearing send has completed if and only if it returns the length of its data, a failed one returning zero or less; a completed one always carries the data, and it is one well-formed message if and only if the transport took every chunk offered with FIN whole. (A short write of a FIN chunk leaves FIN on a frame that is not the last.) |
| WsSender.LoopCarriesData | device/websocket_client(ESP32)/components/ws_client/esp_websocket_client.c:556-586 | From any point of the loop and for any transport answers: the opcode is on the first frame only, the payloads are a prefix of the remaining data and all of it unless the send failed, and a send that did not ask for FIN puts none on the wire. |
| WsSender.LoopFin | device/websocket_client(ESP32)/components/ws_client/esp_websocket_client.c:554-562 | A send asking for FIN has it on its last frame and nowhere else exactly when no FIN chunk was cut short; a failed one has none unless a FIN chunk was cut short. |
| WsSender.LoopRefinesFragments | device/websocket_client(ESP32)/components/ws_client/esp_websocket_client.c:556-586 | The loop refines the reference split of the data into full buffers and a rest; a failing run sends a strict prefix of it. |
| WsSender.PartialSequenceIsMessage | device/websocket_client(ESP32)/components/ws_client/esp_websocket_client.c:1181-1204 | A successful uninterrupted partial send, any number of continuations (empty ones too) and one FIN call make exactly one well-formed message whose payload is the concatenation of the pieces, for any buffer size and any short writes. |
| WsSender.ContsCarryPieces | device/websocket_client(ESP32)/components/ws_client/esp_websocket_client.c:1186-1189 | Successful continuation calls send FIN-free continuation frames carrying the pieces in order. |
| WsReceiver.FrameReceived | device/websocket_client(ESP32)/components/ws_client/esp_websocket_client.c:845-881 | A frame delivered in reads of 1..buffer_size bytes is received whole: its DATA events tile [0, payload_len) without gap or overlap, concatenate to the payload and all carry the frame's header. There is one event per read, each strictly further on, so a frame takes at most as many reads as it has bytes, and an empty one exactly one. |
| WsReceiver.ReadsEnd | device/websocket_client(ESP32)/components/ws_client/esp_websocket_client.c:853-880 | How a call ends after some non-empty pieces that are together short of a frame: broken exactly by a failed read, timed out exactly by an empty read without an opcode, whole exactly when a read reaches the frame's end; with nothing more to read it still waits. The two failures post no further event. |
| WsReceiver.OnlyLastCompletes | device/websocket_client(ESP32)/components/ws_client/esp_websocket_client.c:853-880 | Of the DATA events of one call only the last reaches the end of its frame, and only when the frame was read whole. |
| WsReceiver.AllReceived | device/websocket_client(ESP32)/components/ws_client/esp_websocket_client.c:845-881 | Any sequence of frames, each delivered in pieces, yields DATA events that concatenate to the frames' payloads. |
| WsReceiver.EndToEnd | device/websocket_client(ESP32)/components/ws_client/esp_websocket_client.c:548-881 | Round trip over any transport, short writes included: what a receiver of another buffer size reports is a prefix of the message, all of it unless the send failed; every frame is received whole, tiled by its events, with the opcode on the first only; a completed message has FIN on its last frame and no other if and only if the transport took every FIN chunk whole; with whole writes there is one frame per reference chunk. |
| WsSender.ShortWriteBreaks | device/websocket_client(ESP32)/components/ws_client/esp_websocket_client.c:563-584 | A transport for which that condition fails: one byte per write completes two bytes as two frames that are no message. |
| WsReceiver.CanDeliver | device/websocket_client(ESP32)/components/ws_client/esp_websocket_client.c:853-880 | Every frame can be delivered through every positive receive buffer, so the round trip is never vacuous. |
| WsSession.Configure | device/websocket_client(ESP32)/components/ws_client/esp_websocket_client.c:365-676 | Every setting is the application's own where it made one, and otherwise the default: 10000 ms for the reconnect wait and the network timeout, a buffer of 1024 bytes, a ping every 10 s, a pong within 120 s; auto-reconnect is off exactly when disabled, and the pong timeout is zero exactly when its check is disabled. |
| WsSession.PongEchoesPing | device/websocket_client(ESP32)/components/ws_client/esp_websocket_client.c:877-887 | A PING that arrives in one read is reported as DATA and answered with a PONG of exactly its payload; nothing else changes. |
| WsSends.SendPutsOnWire | device/websocket_client(ESP32)/components/ws_client/esp_websocket_client.c:1206-1243 | What a locked text or binary send of a connected client does to the session, over any transport: frames with the message's own opcode on the first and prefixes of its own data reach the log; either all of the data is delivered, the client stays connected and nothing else changes, or the send gives up with ERROR, an abort and DISCONNECTED behind them. A delivered one is one well-formed message if and only if every FIN chunk was taken whole; over a transport that takes everything it is always delivered, in max(1, ceil(len / buffer_size)) frames; the returned value is the length exactly when it was delivered. |
| WsSends.SendNeedsConnection | device/websocket_client(ESP32)/components/ws_client/esp_websocket_client.c:1206-1225 | Without a connection or a transport a send changes nothing. |
| WsDecisions.ConnectsIff | device/websocket_client(ESP32)/components/ws_client/esp_websocket_client.c:929-960 | A turn in INIT announces and makes exactly one attempt; the client is connected if and only if it succeeds, in a new session awaiting no PONG; a failure dispatches ERROR and DISCONNECTED around one abort, and the wait is measured from it. |
| WsDecisions.ReconnectsIff | device/websocket_client(ESP32)/components/ws_client/esp_websocket_client.c:996-1007 | A waiting client with auto-reconnect on enters INIT in a turn if and only if more than wait_timeout_ms have passed since the abort's stamp; otherwise the turn changes nothing. |
| WsDecisions.WaitingReconnects | device/websocket_client(ESP32)/components/ws_client/esp_websocket_client.c:921-1036 | Progress: once the wait is over and the server accepts, a running client that waits is connected after two turns of its loop, in a new session, announced and attempted once. |
| WsDecisions.ReconnectReached | device/websocket_client(ESP32)/components/ws_client/esp_websocket_client.c:921-1036 | Every client with auto-reconnect has a run whose first attempt fails and whose second succeeds, exactly wait_timeout_ms + 1 later: the spacing of ReconnectRate is attained. |
| WsDecisions.StopsIff | device/websocket_client(ESP32)/components/ws_client/esp_websocket_client.c:922-1020 | The client task clears run by itself for want of a transport in INIT and for a lost connection with auto-reconnect off, and in no other turn. |
| WsDecisions.FailureEffect | device/websocket_client(ESP32)/components/ws_client/esp_websocket_client.c:223-278 | Every failure dispatches ERROR, puts one abort on record, dispatches DISCONNECTED and enters the wait, measured from the failure when the client is to reconnect; past the end of the session it only dispatches ERROR. |
| WsDecisions.PollFailureAborts | device/websocket_client(ESP32)/components/ws_client/esp_websocket_client.c:1021-1033 | So does a failed poll, through the unlocked abort, when nothing comes between. |
| WsDecisions.ReceiptAnswered | device/websocket_client(ESP32)/components/ws_client/esp_websocket_client.c:845-896 | What a connected client does about the frames it reads, whatever pieces and headers the transport delivers: when a PONG has arrived it awaits none any more and stays connected; it is closing if and only if a CLOSE has arrived; it sends a PONG if and only if a PING has. A frame has arrived when a DATA event carried its last byte. |
| WsDecisions.PongEndsWait | device/websocket_client(ESP32)/components/ws_client/esp_websocket_client.c:888-889 | A PONG that arrives in one read ends the wait and nothing else changes. |
| WsDecisions.ReceiveEffect | device/websocket_client(ESP32)/components/ws_client/esp_websocket_client.c:845-995 | By the way the receiver ends: a broken read ends the connection with ERROR, an abort and DISCONNECTED; a timed-out one posts what it read and changes nothing; every call refreshes the ping stamp. |
| WsDecisions.KeepsAliveIff | device/websocket_client(ESP32)/components/ws_client/esp_websocket_client.c:961-995 | A turn of a connected client sends a PING if and only if no close has begun and more than the ping interval (in ms, 32 bits) has passed since the last PING or read; it ends the connection with PONG_TIMEOUT if and only if a PONG awaited since an earlier turn, or since this turn's PING, is later than the limit; otherwise it reads if and only if the poll reported something. A PING starts the wait for its PONG unless one is awaited or the check is off. |
| WsDecisions.IntervalInForce | device/websocket_client(ESP32)/components/ws_client/esp_websocket_client.c:1268-1280 | In every run the interval that PINGs go by is the last one set, ten seconds for a zero, the configured one before any. |
| WsSafety.EventOrder | device/websocket_client(ESP32)/components/ws_client/esp_websocket_client.c:926-1052 | In every interleaving of the client task with locked sends, closes, stops and starts: each CONNECTED event directly follows a BEFORE_CONNECT, two CONNECTED events have a DISCONNECTED between them, and two connection attempts have an abort between them. (WsRaces.OneDisconnectIffNoRace bounds the DISCONNECTED events from above.) |
| WsReconnect.OnlyWaitReconnects | device/websocket_client(ESP32)/components/ws_client/esp_websocket_client.c:996-1007 | In every interleaving INIT is re-entered only by the locked switch out of the wait state, with auto-reconnect on, every earlier attempt aborted and every connection's DISCONNECTED dispatched, and more than wait_timeout_ms after the time that the latest abort on record carries, be it a locked abort or the unlocked one. |
| WsReconnect.RunStamped | device/websocket_client(ESP32)/components/ws_client/esp_websocket_client.c:223-237 | The invariant behind it: while a reconnecting client waits, the stamp it waits from is that of the latest abort, except between the stamp and the state change of the unlocked abort. |
| WsSafety.PollResultFresh | device/websocket_client(ESP32)/components/ws_client/esp_websocket_client.c:920-1033 | In every interleaving, whenever a connected client is at the loop head or about to switch, read_select is not negative and comes from a poll made on this same connection, even if another task's failing send aborts in between. |
| WsSafety.ReconnectRate | device/websocket_client(ESP32)/components/ws_client/esp_websocket_client.c:996-1007 | In every interleaving N connection attempts span at least (N - 1) * (wait_timeout_ms + 1) milliseconds of a monotone clock; with auto-reconnect off there is at most one. |
| WsSafety.PongTimeoutSound | device/websocket_client(ESP32)/components/ws_client/esp_websocket_client.c:961-981 | In every interleaving a PONG_TIMEOUT abort is due to a PING of the same connection handed over more than the limit (pingpong_timeout_sec * 1000, in 64 bits) ago, after which no PONG has arrived in full; with the timeout disabled there is none; consecutive PING stamps are more than the ping interval in force apart, across reconnects. |
| WsSafety.RunKeeps | device/websocket_client(ESP32)/components/ws_client/esp_websocket_client.c:921-1053 | The inductive invariant behind these results holds in every reachable state: state and program counter agree, stamps lie in the past, the log is well ordered, attempts are paced, and an awaited PONG belongs to an unanswered PING. |
| WsSafety.StepGrows | device/websocket_client(ESP32)/components/ws_client/esp_websocket_client.c:921-1053 | No step takes anything back: the log only grows, and with the close bit set by nothing that PINGs. |
| WsSafety.StepKeeps | device/websocket_client(ESP32)/components/ws_client/esp_websocket_client.c:921-1053 | Every single step of the client task and of any other task keeps that invariant. |
| WsClosing.ClosingMeansCloseArrived | device/websocket_client(ESP32)/components/ws_client/esp_websocket_client.c:890-892 | CLOSING is entered by no other step than the receiver's, and the last thing on the log is then the DATA event with the last byte of a CLOSE frame. |
| WsClosing.AfterClose | device/websocket_client(ESP32)/components/ws_client/esp_websocket_client.c:1008-1083 | From the receipt of a CLOSE on, in every interleaving: the log grows by CLOSE echoes, at most one when esp_websocket_client_start has returned, the bit is set or run is false, and at most two otherwise, and then by at most one CLOSED. There is no reconnection and no other frame, the client stays CLOSING or UNKNOWN, and the switch runs at most as often as there can be echoes; not at all, and with nothing sent, if a started client's own CLOSE came first. An echo is sent if and only if the switch runs with the close bit clear, and CLOSED is dispatched if and only if a poll for the TCP close, made with the bit set, ends otherwise than by its timeout (so a client whose run is cleared first may leave with neither). |
| WsClosing.ClosedIff | device/websocket_client(ESP32)/components/ws_client/esp_websocket_client.c:1037-1052 | A whole run dispatches CLOSED if and only if, in CLOSING with the bit set, such a poll ended otherwise than by its timeout. |
| WsClosing.OneEchoIffGuard | device/websocket_client(ESP32)/components/ws_client/esp_websocket_client.c:1008-1083 | Both bounds are exact: at most two CLOSE echoes follow in every interleaving, and at most one in every interleaving if and only if esp_websocket_client_start has already returned, or the bit is already set, or run is already false (start clears the bit after it has created the client task). |
| WsClosing.TwoEchoes | device/websocket_client(ESP32)/components/ws_client/esp_websocket_client.c:1078-1083 | The schedule on which that late clearing makes the client echo the CLOSE twice. |
| WsClosing.EarlyCloseReached | device/websocket_client(ESP32)/components/ws_client/esp_websocket_client.c:921-1053 | A schedule from the loop's entry to a received CLOSE with the guard false. |
| WsClosing.TwoEchoesReached | device/websocket_client(ESP32)/components/ws_client/esp_websocket_client.c:1064-1085 | So every client whose start has not returned when its task enters the loop has a run with two echoes. |
| WsClosing.ClosedIsFinal | device/websocket_client(ESP32)/components/ws_client/esp_websocket_client.c:1048-1052 | CLOSED occurs at most once in a run, and nothing at all is logged after it. |
| WsClosing.StillWaitingLeaves | device/websocket_client(ESP32)/components/ws_client/esp_websocket_client.c:1041-1044 | The `break` for a server that has not closed yet leaves the client's loop for good: run keeps its value, and in no continuation is CLOSED or anything else logged. |
| WsRaces.OneDisconnectIffNoRace | device/websocket_client(ESP32)/components/ws_client/esp_websocket_client.c:1021-1033 | In every run each connection attempt is followed by at most one DISCONNECTED unless a failing send overlapped the client task's unlocked abort; for every run that ends outside that abort, if and only if none did. |
| WsRaces.RacingAborts | device/websocket_client(ESP32)/components/ws_client/esp_websocket_client.c:1021-1033 | The shortest such race, entry by entry: two aborts and two DISCONNECTED events for one connection. |
| WsRaces.RaceReached | device/websocket_client(ESP32)/components/ws_client/esp_websocket_client.c:1021-1033 | It happens in some run of every client that enters its loop running. |
| WsFlags.CloseBitStopsPings | device/websocket_client(ESP32)/components/ws_client/esp_websocket_client.c:961-981 | Once a started client has set the close bit, no run from there on sends a PING of its own or aborts for want of a PONG. |
| WsFlags.StopEnds | device/websocket_client(ESP32)/components/ws_client/esp_websocket_client.c:921-1053 | Once run is cleared it stays so, and in every run the switch is run at most once more, and only if the client task had already committed to it. |
| WsFlags.CloseTakesEffect | device/websocket_client(ESP32)/components/ws_client/esp_websocket_client.c:961-981 | Setting the close bit of a started client ends its PINGs and its PONG timeouts in every run from there on. |
| WsFlags.StopTakesEffect | device/websocket_client(ESP32)/components/ws_client/esp_websocket_client.c:921-1056 | Clearing run allows at most one more turn in every run from there on, and at its next test of run the client task leaves, sets STOPPED_BIT and is UNKNOWN. |
| WsFlags.StoppedIff | device/websocket_client(ESP32)/components/ws_client/esp_websocket_client.c:1055-1083 | In every run STOPPED_BIT stands exactly while the client task is gone, unless start returned after that and cleared it. |
| WsClient.WebsocketClient.constructor | device/websocket_client(ESP32)/components/ws_client/esp_websocket_client.c:905-920 | The client enters its loop in INIT with nothing logged, running exactly when it has a transport. |
| WsClient.WebsocketClient.SendRaw | device/websocket_client(ESP32)/components/ws_client/esp_websocket_client.c:563-567 | The bytes that reach the wire through the transmit buffer are the data's; a failed write logs nothing. |
| WsClient.WebsocketClient.SendChunk | device/websocket_client(ESP32)/components/ws_client/esp_websocket_client.c:557-567 | One turn sends the chunk and opcode word that the specification's turn names. |
| WsClient.WebsocketClient.SendChunks | device/websocket_client(ESP32)/components/ws_client/esp_websocket_client.c:556-586 | The sending loop leaves exactly the frames, failure and result of the sender specification. |
| WsClient.WebsocketClient.SendWithExactOpcode | device/websocket_client(ESP32)/components/ws_client/esp_websocket_client.c:548-587 | The sender on the object is the state machine's, failure and abort included. |
| WsClient.WebsocketClient.SendWithOpcode | device/websocket_client(ESP32)/components/ws_client/esp_websocket_client.c:1206-1243 | A send under the lock returns -1 and does nothing unless connected. Otherwise frames with its opcode on the first and its data, or a prefix, follow on the log; it returns the data's length exactly when the client is still connected, with all the data sent, and over a transport that takes everything that is one well-formed message. |
| WsClient.WebsocketClient.ReadFrame | device/websocket_client(ESP32)/components/ws_client/esp_websocket_client.c:853-880 | The receive loop over the buffer posts exactly the specification's DATA events and ends with its status, header and offset, the last piece being in the buffer. |
| WsClient.WebsocketClient.Recv | device/websocket_client(ESP32)/components/ws_client/esp_websocket_client.c:845-896 | The receiver on the object is the state machine's, and fails exactly when a read does. |
| WsClient.WebsocketClient.LockedSwitch | device/websocket_client(ESP32)/components/ws_client/esp_websocket_client.c:922-1020 | The switch over the object's fields, all five cases with their exits, ends in the state that the state machine's switch gives. |
| WsClient.WebsocketClient.PerformStep | device/websocket_client(ESP32)/components/ws_client/esp_websocket_client.c:921-1053 | One scheduled step on the object, of the client task (switch, unlock, each instruction of the unlocked abort, loop test and end) or of another task (send, close bit, stop, start, interval, forced state), is one step of the state machine. |
| WsClient.WebsocketClient.Drive | device/websocket_client(ESP32)/components/ws_client/esp_websocket_client.c:921-1053 | Any schedule on the object ends in the state the state machine's run ends in, so every result about runs holds of the object. |
| OledBits.BitIsShift | device/websocket_client(ESP32)/components/ssd1306/ssd1306.c:548-566 | Bit k of a byte is the one that a shift by k brings to the bottom, and its mask is 1 shifted up by k. |
| OledBits.RotateByte | device/websocket_client(ESP32)/components/ssd1306/ssd1306.c:571-578 | The loop computes the byte reversal. |
| OledBits.RotatedBit | device/websocket_client(ESP32)/components/ssd1306/ssd1306.c:569-578 | Bit k of a reversed byte is bit 7 - k of the byte. |
| OledBits.RotatedTwice | device/websocket_client(ESP32)/components/ssd1306/ssd1306.c:569-578 | Reversing twice is the identity. |
| OledBits.CopyBitBit | device/websocket_client(ESP32)/components/ssd1306/ssd1306.c:548-566 | ssd1306_copy_bit copies its one bit and keeps the other seven. |
| OledBits.TripleColumn | device/websocket_client(ESP32)/components/ssd1306/ssd1306.c:132-143 | The mask loop computes the tripled column. |
| OledBits.TripledBit | device/websocket_client(ESP32)/components/ssd1306/ssd1306.c:132-143 | Row 8n + k of a tripled column is row (8n + k) / 3 of the glyph column. |
| OledBits.ShiftUpBit | device/websocket_client(ESP32)/components/ssd1306/ssd1306.c:321-324 | The byte that SCROLL_UP merges shows the next pixel at each position, the last one from the page below. |
| OledBits.ShiftDownBit | device/websocket_client(ESP32)/components/ssd1306/ssd1306.c:372-375 | And SCROLL_DOWN the previous pixel, the first one from the page above. |
| OledPicture.VerticalInverse | device/websocket_client(ESP32)/components/ssd1306/ssd1306.c:298-398 | On any column range SCROLL_UP and SCROLL_DOWN undo each other. |
| OledPicture.VerticalPeriod | device/websocket_client(ESP32)/components/ssd1306/ssd1306.c:298-346 | As many upward scrolls as the picture is high (8 * pages) are the identity. |
| OledPicture.VerticalConserves | device/websocket_client(ESP32)/components/ssd1306/ssd1306.c:298-398 | Both keep the number of lit pixels. |
| OledPicture.HorizontalInverse | device/websocket_client(ESP32)/components/ssd1306/ssd1306.c:270-296 | On any page range SCROLL_RIGHT and SCROLL_LEFT undo each other. |
| OledPicture.MovesTranslate | device/websocket_client(ESP32)/components/ssd1306/ssd1306.c:268-398 | Any word of the four full-range scrolls equals one translation of the torus by its net displacement. |
| OledPicture.Commute | device/websocket_client(ESP32)/components/ssd1306/ssd1306.c:268-398 | Full-range scrolls commute. |
| OledShadow.TextPixel | device/websocket_client(ESP32)/components/ssd1306/ssd1306.c:90-112 | Pixel (x, y) of the page shows column x % 8 of the glyph of character x / 8 as far as there are characters, complemented when inverted, the same for both orientations of the panel; no other pixel changes. |
| OledShadow.TriplePixel | device/websocket_client(ESP32)/components/ssd1306/ssd1306.c:115-166 | Text three times as large shows each glyph pixel as a 3 by 3 block from column seg of up to three pages, the same for both orientations, and changes no other pixel. |
| OledShadow.TripleTextPixel | device/websocket_client(ESP32)/components/ssd1306/ssd1306.c:115-166 | Of a whole call: pixel (x, y) of the three pages shows pixel (x % 24 / 3, row / 3) of the glyph of character x / 24, for the first five characters there are, and no other pixel changes. |
| OledShadow.PixelWrittenIff | device/websocket_client(ESP32)/components/ssd1306/ssd1306.c:469-485 | _ssd1306_pixel writes its pixel and only it if and only if the panel is not turned or the byte there reads the same upside down (the byte is reversed after the edit, never before). |
| OledShadow.TurnedPixelFails | device/websocket_client(ESP32)/components/ssd1306/ssd1306.c:469-485 | A byte and a pixel on a turned panel for which it does not. |
| OledShadow.PixelByteBits | device/websocket_client(ESP32)/components/ssd1306/ssd1306.c:469-485 | What it stores in every case: read back through the panel's orientation, bit k is the stored byte's raw bit k but for the pixel's own. |
| OledShadow.WrappedPixel | device/websocket_client(ESP32)/components/ssd1306/ssd1306.c:268-398 | Each of the four scrolls pixel by pixel, on any range, clamped or not, and bytes stored either way up: which pixel a pixel of the selected pages or columns comes from, around the edges, and that no other moves. |
| OledShadow.ScrolledUpPicture | device/websocket_client(ESP32)/components/ssd1306/ssd1306.c:298-346 | On bytes stored either way up, what SCROLL_UP leaves is each selected column of the picture rotated by one pixel, as one 8 * pages bit word, and nothing else changed. |
| OledShadow.ScrolledDownPicture | device/websocket_client(ESP32)/components/ssd1306/ssd1306.c:348-396 | The same for SCROLL_DOWN. |
| OledShadow.ScrolledAcrossPicture | device/websocket_client(ESP32)/components/ssd1306/ssd1306.c:270-296 | What SCROLL_RIGHT and SCROLL_LEFT leave is each selected page rotated by one column, and nothing else changed. |
| OledShadow.WrappedPicture | device/websocket_client(ESP32)/components/ssd1306/ssd1306.c:268-398 | A scroll over the full range, with its end clamped or not, is a move of the whole picture. |
| OledLine.LineShape | device/websocket_client(ESP32)/components/ssd1306/ssd1306.c:488-529 | For all integer endpoints: exactly max(dx, dy) + 1 points, from (x1, y1) to (x2, y2), within their bounding box, one step per point on the major axis; on the minor axis the i-th point is i * minor / major rounded to the nearest, halves away from the first endpoint, so every point is determined and within half a pixel of the ideal line. |
| OledLine.TraceAt | device/websocket_client(ESP32)/components/ssd1306/ssd1306.c:504-528 | Position after i turns while the error term lies in [-2 * major, 0): the minor coordinate is a rounded quotient. |
| OledInk.LineInk | device/websocket_client(ESP32)/components/ssd1306/ssd1306.c:469-529 | On a panel that is not turned, a line between points of the panel stays on it and sets (or clears when inverted) exactly its plotted pixels. |
| OledInk.PlottedPixel | device/websocket_client(ESP32)/components/ssd1306/ssd1306.c:469-485 | Plotting any sequence of points on such a panel sets (or clears) exactly those points. |
| OledInk.PlotOnePixel | device/websocket_client(ESP32)/components/ssd1306/ssd1306.c:469-485 | Plotting one pixel on a panel mounted either way up: the pixel gets the ink; on a turned panel the other seven of its byte are turned over; no other pixel changes. |
| OledInk.PlottedTurn | device/websocket_client(ESP32)/components/ssd1306/ssd1306.c:469-529 | Plotting a sequence is plotting its first point and then the rest. |
| OledInk.LineOnPanel | device/websocket_client(ESP32)/components/ssd1306/ssd1306.c:488-529 | A line between points of the panel only plots points of the panel, so all indices are in range. |
| OledInk.StampedWhole | device/websocket_client(ESP32)/components/ssd1306/ssd1306.c:413-463 | A drawn bitmap makes pixel (xpos + c, ypos + r) bit 7 - c % 8 of byte r * (width / 8) + c / 8, complemented when inverted, at any ypos and either orientation, and changes no other pixel. |
| OledInk.StampNext | device/websocket_client(ESP32)/components/ssd1306/ssd1306.c:430-444 | One turn of the innermost loop advances the drawn part by one pixel. |
| OledController.AddressSets | device/websocket_client(ESP32)/components/ssd1306/ssd1306_i2c.c:115-133 | Wherever the controller's pointers were, the three addressing commands set them to the page and column. |
| OledController.Controller.Data | device/websocket_client(ESP32)/components/ssd1306/ssd1306_i2c.c:139-149 | A data stream writes its bytes from the column pointer on, advancing it, and nothing else (section 10.1.3 of the SSD1306 datasheet). |
| OledSync.ShowsSeen | device/websocket_client(ESP32)/components/ssd1306/ssd1306_i2c.c:68-122 | When the RAM equals the shadow with pages mirrored on a turned panel, the viewer sees the shadow's picture on a panel mounted either way up, by the segment remap and common scan direction that the init commands set. |
| OledPanel.Panel.I2cDisplayImage | device/websocket_client(ESP32)/components/ssd1306/ssd1306_i2c.c:109-150 | Over I2C the bytes land on the (mirrored) page from the column on; a page or column past the panel is ignored, whatever the bytes. |
| OledPanel.Panel.SpiDisplayImage | device/websocket_client(ESP32)/components/ssd1306/ssd1306_spi.c:156-179 | The same over SPI. |
| OledPanel.Panel.DisplayImage | device/websocket_client(ESP32)/components/ssd1306/ssd1306.c:79-88 | Shadow and RAM get the same bytes on a page of the panel, neither shows anything of a page past it, and they stay equal if they were. |
| OledPanel.Panel.ShowBuffer | device/websocket_client(ESP32)/components/ssd1306/ssd1306.c:48-59 | Afterwards the RAM equals the shadow, whatever it held. |
| OledPanel.Panel.DisplayText | device/websocket_client(ESP32)/components/ssd1306/ssd1306.c:90-112 | The shadow gets the specified text, a page past the end changes nothing, and shadow and RAM stay equal. |
| OledPanel.Panel.ClearLine | device/websocket_client(ESP32)/components/ssd1306/ssd1306.c:177-182 | Sixteen zero characters on one page; shadow and RAM stay equal. |
| OledShadow.ClearedPixel | device/websocket_client(ESP32)/components/ssd1306/ssd1306.c:177-182 | They cover the page from edge to edge with the zero glyph, complemented when inverted, and no other pixel changes. |
| OledPanel.Panel.ClearScreen | device/websocket_client(ESP32)/components/ssd1306/ssd1306.c:168-175 | Every pixel shows the zero glyph's column x % 8, complemented when inverted, and RAM and shadow are equal whatever they held. |
| OledPanel.Panel.DisplayTextX3 | device/websocket_client(ESP32)/components/ssd1306/ssd1306.c:115-166 | The shadow gets the specified tripled text (see TripleTextPixel), as far as there are pages for it, a page past the end changes nothing, and shadow and RAM stay equal. |
| OledPanel.Panel.SoftwareScroll | device/websocket_client(ESP32)/components/ssd1306/ssd1306.c:193-207 | The window is enabled exactly when both pages exist, and the direction fits it. |
| OledScroll.ScrollExits | device/websocket_client(ESP32)/components/ssd1306/ssd1306.c:222-232 | scroll_text's loop (whose k-th source row is the one that Panel.ScrollRows keeps in its invariant) reaches its exit if and only if the window is longer than one page; for a window of one, which software_scroll accepts, it reads row -1 after `start` turns. |
| OledScroll.ScrolledTextPixel | device/websocket_client(ESP32)/components/ssd1306/ssd1306.c:210-238 | Pixel by pixel: in the window each page but the first shows what the page before it showed, in either direction, the first shows the new text's glyphs over what it showed, and no other page changes. |
| OledPanel.Panel.ScrollText | device/websocket_client(ESP32)/components/ssd1306/ssd1306.c:210-238 | Every page of the window but the first takes over the row before it, the text enters at the start, pages outside stay; shadow and RAM stay equal. |
| OledPanel.Panel.FadeOut | device/websocket_client(ESP32)/components/ssd1306/ssd1306.c:581-605 | The panel ends dark, and RAM and shadow are equal whatever they held. |
| OledPanel.Panel.Pixel | device/websocket_client(ESP32)/components/ssd1306/ssd1306.c:469-485 | Exactly one byte of the shadow changes, to the specified one; the RAM is not touched. |
| OledPanel.Panel.Line | device/websocket_client(ESP32)/components/ssd1306/ssd1306.c:488-529 | The two loops plot exactly the points of the line specification, in order, with indices in range; the RAM is not touched. |
| OledPanel.Panel.Bitmaps | device/websocket_client(ESP32)/components/ssd1306/ssd1306.c:413-465 | A bitmap that fits is drawn at any alignment (page * 8 + dstBits = ypos + row) and shown; a width that is not a multiple of 8 changes nothing. |
| OledPanel.Panel.WrapAcross | device/websocket_client(ESP32)/components/ssd1306/ssd1306.c:270-296 | Each selected page, clamped to the panel, is rotated in place by one column. |
| OledPanel.Panel.WrapUp | device/websocket_client(ESP32)/components/ssd1306/ssd1306.c:298-346 | Each selected column, clamped to the panel, is rotated in place by one pixel upwards. |
| OledPanel.Panel.WrapDown | device/websocket_client(ESP32)/components/ssd1306/ssd1306.c:348-396 | And downwards. |
| OledPanel.Panel.WrapArround | device/websocket_client(ESP32)/components/ssd1306/ssd1306.c:268-411 | One of the four scrolls; a delay of zero or more shows it, a negative one leaves the RAM alone. |
| OledSession.Session | device/websocket_client(ESP32)/components/ssd1306/ssd1306.c:48-605 | Over any sequence of the thirteen calls, from power-on with unknown RAM contents, on either bus and either way up: if some call has shown the whole shadow and none since has drawn on the shadow alone, the RAM equals the shadow with pages mirrored on a turned panel. |
| OledSession.Perform | device/websocket_client(ESP32)/components/ssd1306/ssd1306.c:48-605 | What each call does to that equality. |
| OledSession.ClearedStaysUpToDate | device/websocket_client(ESP32)/components/ssd1306/ssd1306.c:168-175 | After a clear_screen, any run without pixels, lines and negative-delay wraps, which draw on the shadow alone, ends with the RAM up to date. |
| OledShadow.WrappedBack | device/websocket_client(ESP32)/components/ssd1306/ssd1306.c:268-398 | Of the stored bytes, either way up: on any range, clamped or not, a scroll followed by the opposite one restores every byte of the shadow. |
| OledShadow.PictureBytes | device/websocket_client(ESP32)/components/ssd1306/ssd1306.c:268-398 | A picture determines the bytes that store it, either way up. |
| OledSession.WrapBack | device/websocket_client(ESP32)/components/ssd1306/ssd1306.c:268-411 | The same on the panel, in place: a wrap-around scroll and back leaves the shadow as it was, shown when the delay is zero or more. |
| OledSession.WrapAll | device/websocket_client(ESP32)/components/ssd1306/ssd1306.c:268-411 | Any sequence of full-range scrolls on the panel translates its picture on the torus by the net displacement. |
| ScanTable.DistinctKeys | device/websocket_client(ESP32)/components/scan/scan.c:115-153 | The table's keys are distinct, and they are exactly the addresses in the input. |
| ScanTable.DistinctGrows | device/websocket_client(ESP32)/components/scan/scan.c:135-145 | Later records only add keys at the end: rows are in the order of first sighting. |
| ScanTable.SummaryKnown | device/websocket_client(ESP32)/components/scan/scan.c:117-133 | A record of a known address changes the count and the sum of its own row and no other row. |
| ScanTable.SummaryNew | device/websocket_client(ESP32)/components/scan/scan.c:135-145 | A record of a new address adds one row at the end. |
| ScanTable.AverageExact | device/websocket_client(ESP32)/components/scan/scan.c:127-177 | An address seen at most 255 times with signals between lo and hi (int8) gets its exact count c and sum s, no counter overflowing, and as average the quotient q truncated toward zero: |q| * c <= |s| < (|q| + 1) * c with the sign of s, between lo and hi. |
| ScanTable.AverageTruncates | device/websocket_client(ESP32)/components/scan/scan.c:177 | The same quotient of whatever a row holds survives the casts to uint16_t and int16_t. |
| ScanTable.CountIsMultiplicity | device/websocket_client(ESP32)/components/scan/scan.c:115-133 | The count of an address is the number of places where it stands in the input. |
| ScanTable.RowWraps | device/websocket_client(ESP32)/components/scan/scan.c:92-133 | For any number of sightings the row holds the count modulo 256 and the sum modulo 65536 as an int16_t. |
| ScanTable.CounterExactIff | device/websocket_client(ESP32)/components/scan/scan.c:127-128 | The 8-bit count is exact if and only if the address was seen at most 255 times; it is zero, a divisor of zero, exactly at the multiples of 256. |
| WifiScan.Probe | device/websocket_client(ESP32)/components/scan/scan.c:117-133 | The probe finds the address's row, or that there is none. |
| WifiScan.Enter | device/websocket_client(ESP32)/components/scan/scan.c:116-152 | Entering a record turns the table of the records so far into the table of one more. |
| WifiScan.Collect | device/websocket_client(ESP32)/components/scan/scan.c:107-156 | Over any number of scans the table ends as the summary of all records, and the collection fails if and only if 50 or more distinct addresses occur. |
| WifiScan.PackLine | device/websocket_client(ESP32)/components/scan/scan.c:179-192 | A line is appended behind the text so far, its NUL replaced by a newline unless it is the last, within 26 bytes. |
| WifiScan.PackTable | device/websocket_client(ESP32)/components/scan/scan.c:165-195 | The averaging and packing pass yields the lines of all rows, or stops at a counter of zero. |
| WifiScan.PackedWhole | device/websocket_client(ESP32)/components/scan/scan.c:185-192 | Copying with NULs and overwriting all but the last with newlines yields the newline-joined lines and one final NUL. |
| WifiScan.HeldTextReads | device/websocket_client(ESP32)/components/scan/scan.c:158-200 | From the buffer and length a scan command leaves, a reader of the format recovers every line (address, average, count) in order, for any non-empty list. |
| WifiScan.Scan2 | device/websocket_client(ESP32)/components/scan/scan.c:84-203 | wifi_scan2 as a whole: it fails exactly when 50 distinct addresses occur, when memory is refused, or when a counter stands at zero; otherwise the buffer (64 bytes per entry) holds exactly the joined lines of the summary with averages, and nbuf is the text's length, or 65535 for an empty table. What a reader recovers is given by Reports. |
| WifiScan.ScanReports | device/websocket_client(ESP32)/components/scan/scan.c:84-203 | What a reader recovers from a finished scan, in terms of the records alone: the distinct addresses in the order of their first sighting, each seen at most 255 times with its exact count and its signals' average truncated toward zero. |
| WifiScan.Scan | device/websocket_client(ESP32)/components/scan/scan.c:20-79 | wifi_scan: one line per record with count 1, packed the same way, which a reader recovers in order. |
| ScanText.TextReads | device/websocket_client(ESP32)/components/scan/scan.c:179-192 | The reader inverts the printed and joined text for every non-empty list of lines. |
| ScanText.LineReads | device/websocket_client(ESP32)/components/scan/scan.c:179-182 | The reader inverts one printed line, and no line contains a newline. |
| ScanText.LineForm | device/websocket_client(ESP32)/components/scan/scan.c:179-182 | Character by character: the address as twelve upper-case hexadecimal digits, then a comma, a space and the signal, with a minus sign when negative, and the same with the count. |
| ScanText.DecimalSpells | device/websocket_client(ESP32)/components/scan/scan.c:179-182 | A number is printed as its decimal digits without leading zeros. |
| ScanText.JoinedForm | device/websocket_client(ESP32)/components/scan/scan.c:189-192 | Joining puts one newline between each two lines and nothing else. |
| ScanText.LineLength | device/websocket_client(ESP32)/components/scan/scan.c:12-182 | A line has at most 25 characters, so the 64-byte scratch buffer never cuts it. |

## Left out

- WsSender.SendFragments: assumes that a chunk is taken whole or the call fails; WsSender.SendIsMessageIff says what short writes do.
- WsSession.PongEchoesPing: says nothing of a PING that takes several reads; the model then logs the last piece, while the code sends payload_len bytes of whatever its buffer holds, which it says it does not support.
- OledPanel.Panel.Line: on a turned panel it is proved to plot its points in order, but the resulting picture is stated per pixel only (OledShadow.PixelWrittenIff); end points whose distance overflows an int are not modelled.
- OledPanel.Panel.FadeOut: states how it ends, not the seven dimmer pictures that each page shows on the way.
- OledPanel.Panel.DisplayTextX3: requires the three rows to lie within the eight rows of the shadow, past which the code writes outside its buffer; the same for OledPanel.Panel.DisplayImage.
- OledPanel.Panel.ScrollText: requires a window longer than one page, because the loop has no exit otherwise (see OledScroll.ScrollExits).
- OledPanel.Panel.WrapArround: takes a non-negative start, as the code indexes with it; the delay between pages is not modelled.
- WifiScan.Scan2: takes the records of each scan as given; the scan driver, the in/out record count and the verbose output are not modelled.
- WifiScan.Scan: takes at most 50 records, the size of the array they are read into.
- The unlocked partial, continuation and FIN senders in the interleaving: they are covered sequentially in WsSender.
- The tasks that close and stop appear as the flags they set, at any time and in any order; their waiting for STOPPED_BIT and the destruction of the client are not modelled.
- TLS, certificates, transports, URI parsing, base64 credentials, headers and configuration strings.
- FreeRTOS tasks, locks and the event loop themselves: the lock is atomic, events are entries of a history.
- The dynamic buffer option, heap exhaustion in the session engine, and logging.
- The body of a CLOSE frame beyond being some bytes.
- The display initialisation beyond the remap and scan commands, contrast, hardware scrolling, scroll_clear, buffer import and export, and panels narrower than 128 columns.
- The font's contents: any table of 128 glyphs of eight columns.
- Keyboard, storage, MQTT and the application's own event handler.
