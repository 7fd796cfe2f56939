/** The session engine: esp_websocket_client_task interleaved with other tasks, as a state machine. What runs with
    the lock held is one step, which no other holder of the lock sees half done; the abort that runs without the lock
    is taken apart into its instructions, but its instructions do not fall between two chunks of another task's send.
    Transport answers and clock readings are the actions' arguments. */
module WsSession {
  import opened WsFrames
  import opened WsLog
  import WsSender
  import WsReceiver

  // WEBSOCKET_STATE_ERROR is never assigned and has no counterpart.
  datatype ConnState = Unknown | Init | Connected | WaitTimeout | Closing

  /** Where the task is.
      LoopTest: at `while (client->run)`.        Switching: committed to the locked switch.
      Unlocked: the lock was just given back.    Polled: esp_transport_poll_read has returned.
      AbortCheck .. AbortEvent: inside the abort that runs without the lock after a failed poll.
      Leaving: past the loop.                    Gone: STOPPED_BIT is set. */
  datatype Pc =
    LoopTest | Switching | Unlocked | Polled | AbortCheck | AbortStamp | AbortState | AbortEvent | Leaving | Gone

  datatype Config = Config(autoReconnect: bool, waitTimeoutMs: nat, pingpongTimeoutSec: int, bufferSize: nat,
                           hasTransport: bool)

  predicate ValidConfig(cfg: Config) {
    cfg.bufferSize > 0 && cfg.waitTimeoutMs > 0
  }

  /** What the application asks for; zero, or for three of them anything not positive, stands for the default. */
  datatype Options = Options(disableAutoReconnect: bool, reconnectTimeoutMs: int, disablePingpongDiscon: bool,
                             pingpongTimeoutSec: int, bufferSize: int, networkTimeoutMs: int, pingIntervalSec: nat)

  /** What the client is started with. */
  datatype Settings = Settings(cfg: Config, networkTimeoutMs: nat, pingIntervalSec: nat)

  /** esp_websocket_client_set_config and esp_websocket_client_init: every configuration a client is started with is
      valid, each setting is the application's own where it made one, and the pong timeout is off exactly when the
      application said so. */
  function Configure(options: Options): (settings: Settings)
    ensures ValidConfig(settings.cfg) && settings.networkTimeoutMs > 0 && settings.pingIntervalSec > 0
    ensures settings.cfg.autoReconnect <==> !options.disableAutoReconnect
    ensures settings.cfg.pingpongTimeoutSec == 0 <==> options.disablePingpongDiscon
    ensures options.reconnectTimeoutMs > 0 ==> settings.cfg.waitTimeoutMs == options.reconnectTimeoutMs
    ensures options.reconnectTimeoutMs <= 0 ==> settings.cfg.waitTimeoutMs == 10000
    ensures options.bufferSize > 0 ==> settings.cfg.bufferSize == options.bufferSize
    ensures options.bufferSize <= 0 ==> settings.cfg.bufferSize == 1024
    ensures options.networkTimeoutMs > 0 ==> settings.networkTimeoutMs == options.networkTimeoutMs
    ensures options.networkTimeoutMs <= 0 ==> settings.networkTimeoutMs == 10000
    ensures options.pingIntervalSec > 0 ==> settings.pingIntervalSec == options.pingIntervalSec
    ensures options.pingIntervalSec == 0 ==> settings.pingIntervalSec == 10
    ensures !options.disablePingpongDiscon && options.pingpongTimeoutSec != 0 ==>
              settings.cfg.pingpongTimeoutSec == options.pingpongTimeoutSec
    ensures !options.disablePingpongDiscon && options.pingpongTimeoutSec == 0 ==>
              settings.cfg.pingpongTimeoutSec == 120
  {
    Settings(
      Config(!options.disableAutoReconnect,
             if options.reconnectTimeoutMs <= 0 then 10 * 1000 else options.reconnectTimeoutMs,
             if options.disablePingpongDiscon then 0
             else if options.pingpongTimeoutSec != 0 then options.pingpongTimeoutSec
             else 120,
             if options.bufferSize <= 0 then 1024 else options.bufferSize,
             true),
      if options.networkTimeoutMs <= 0 then 10 * 1000 else options.networkTimeoutMs,
      if options.pingIntervalSec == 0 then DEFAULT_PING_INTERVAL_SEC else options.pingIntervalSec)
  }

  datatype State = State(
    conn: ConnState,
    run: bool,
    pc: Pc,
    readSelect: int,
    waitForPong: bool,
    reconnectTick: nat,
    pingTick: nat,
    pingpongTick: nat,
    pingIntervalSec: nat,
    closeFrameSent: bool,
    stopped: bool,
    header: WsReceiver.Header,
    payloadOffset: nat,
    // History: the latest clock reading, how many connections were established, the connection `readSelect`
    // was polled on, whether esp_websocket_client_start has returned, and what happened.
    now: nat,
    session: nat,
    polledSession: nat,
    started: bool,
    log: Log)

  // --- Machine arithmetic ---------------------------------------------------------------------------

  const TWO32: nat := 0x1_0000_0000
  const TWO64: nat := 0x1_0000_0000_0000_0000

  /** ping_interval_sec * 1000 is computed in 32-bit size_t. */
  function PingIntervalMs(sec: nat): nat {
    (sec * 1000) % TWO32
  }

  /** pingpong_timeout_sec * 1000 is an int that the comparison converts to uint64_t. */
  function PongLimitMs(cfg: Config): nat {
    (cfg.pingpongTimeoutSec * 1000) % TWO64
  }

  /** The difference of two clock values in uint64_t. */
  function Elapsed(now: nat, since: nat): nat {
    (now - since) % TWO64
  }

  // The clock is esp_timer_get_time() / 1000, an int64_t count of microseconds in milliseconds.
  const CLOCK_LIMIT: nat := 0x7FFF_FFFF_FFFF_FFFF / 1000

  /** Clock readings taken one after the other within a step. */
  type Readings = t: seq<nat> | |t| == 6 witness [0, 0, 0, 0, 0, 0]

  predicate Later(now: nat, t: Readings) {
    now <= t[0] <= t[1] <= t[2] <= t[3] <= t[4] <= t[5] <= CLOCK_LIMIT
  }

  // --- The pieces of the task -------------------------------------------------------------------------

  function Add(s: State, e: Entry): State {
    s.(log := s.log + [e])
  }

  /** esp_websocket_client_abort_connection, with the lock held. */
  function Abort(cfg: Config, s: State, why: AbortReason, at: nat): State {
    if s.conn == Unknown then s
    else
      s.(reconnectTick := if cfg.autoReconnect then at else s.reconnectTick,
         conn := WaitTimeout,
         log := s.log + [Aborted(why, s.session, at)] + [Event(DisconnectedEvent)])
  }

  /** The time the unlocked abort goes by: the stamp the wait is measured from, or, when there is no wait, the
      present. */
  function AbortTime(cfg: Config, s: State): nat {
    if cfg.autoReconnect then s.reconnectTick else s.now
  }

  /** esp_websocket_client_error then abort: how every locked failure ends. */
  function Fail(cfg: Config, s: State, why: AbortReason, at: nat): State {
    Abort(cfg, Add(s, Event(ErrorEvent)), why, at)
  }

  function SwitchInit(cfg: Config, s: State, t: Readings, connect: int): State {
    if !cfg.hasTransport then s.(run := false)
    else
      var trying := Add(Add(s, Event(BeforeConnectEvent)), Attempt(t[0]));
      if connect < 0 then Fail(cfg, trying, TcpTransport, t[1])
      else
        trying.(conn := Connected, waitForPong := false, session := s.session + 1,
                log := trying.log + [Event(ConnectedEvent)])
  }

  /** Sends a PING when the interval has passed. */
  function MaybePing(cfg: Config, s: State, t: Readings): State {
    if Elapsed(t[0], s.pingTick) > PingIntervalMs(s.pingIntervalSec) then
      var arm := !s.waitForPong && cfg.pingpongTimeoutSec != 0;
      s.(pingTick := t[1],
         pingpongTick := if arm then t[2] else s.pingpongTick,
         waitForPong := s.waitForPong || arm,
         log := s.log + [PingStamp(t[1], PingIntervalMs(s.pingIntervalSec))]
                      + [Sent(Frame(true, PING, []), s.session, t[2])])
    else s
  }

  predicate PongOverdue(cfg: Config, s: State, t: Readings) {
    Elapsed(t[3], s.pingpongTick) > PongLimitMs(cfg) && s.waitForPong
  }

  function DataEntries(events: seq<WsReceiver.DataEvent>): (entries: Log)
    ensures |entries| == |events|
    ensures forall k :: 0 <= k < |entries| ==> entries[k] == Event(DataEvent(events[k]))
  {
    seq(|events|, k requires 0 <= k < |events| => Event(DataEvent(events[k])))
  }

  lemma DataEntriesOne(events: seq<WsReceiver.DataEvent>, event: WsReceiver.DataEvent)
    ensures DataEntries(events + [event]) == DataEntries(events) + [Event(DataEvent(event))]
    ensures DataEntries([]) == []
  {
  }

  /** What a fully read frame causes: a PONG for a PING, the end of the wait for a PONG, or closing. */
  function Answer(s: State, echo: seq<Byte>, at: nat): State {
    if s.header.code == PING then
      Add(s, Sent(Frame(true, PONG, if s.header.payloadLen == 0 then [] else echo), s.session, at))
    else if s.header.code == PONG then s.(waitForPong := false)
    else if s.header.code == CLOSE then s.(conn := Closing)
    else s
  }

  function LastPiece(events: seq<WsReceiver.DataEvent>): seq<Byte> {
    if events == [] then [] else events[|events| - 1].data
  }

  /** esp_websocket_client_recv. */
  function Recv(s: State, replies: seq<WsReceiver.Read>, at: nat): State {
    var r := WsReceiver.RecvLoop(replies, s.header, 0);
    var read := s.(header := r.header, payloadOffset := r.offset, log := s.log + DataEntries(r.events));
    match r.status
    case Broken => Add(read, Event(ErrorEvent))
    case Whole => Answer(read, LastPiece(r.events), at)
    case _ => read
  }

  /** A PING that arrives in one read is answered with a PONG of the same payload. */
  lemma PongEchoesPing(s: State, payload: seq<Byte>, fin: bool, at: nat)
    ensures var ping := WsReceiver.Header(fin, PING, |payload|);
            var after := Recv(s, [WsReceiver.Got(payload, ping)], at);
            && after.log == s.log + [Event(DataEvent(WsReceiver.DataEvent(0, ping, payload)))]
                                  + [Sent(Frame(true, PONG, payload), s.session, at)]
            && after.conn == s.conn && after.waitForPong == s.waitForPong
  {
    var ping := WsReceiver.Header(fin, PING, |payload|);
    var replies := [WsReceiver.Got(payload, ping)];
    var event := WsReceiver.DataEvent(0, ping, payload);
    assert WsReceiver.RecvLoop(replies, s.header, 0) ==
              WsReceiver.RecvResult([event], WsReceiver.Whole, ping, |payload|);
    hide WsReceiver.RecvLoop;
    DataEntriesOne([], event);
    assert [] + [event] == [event] && [] + [Event(DataEvent(event))] == [Event(DataEvent(event))];
  }

  /** The receiver's call with the caller's reaction to its failure. */
  function Receive(cfg: Config, s: State, t: Readings, replies: seq<WsReceiver.Read>): State {
    var received := Recv(s.(pingTick := t[4]), replies, t[5]);
    if WsReceiver.RecvLoop(replies, s.header, 0).status == WsReceiver.Broken then
      Abort(cfg, received, TcpTransport, t[5])
    else received
  }

  function SwitchConnected(cfg: Config, s: State, t: Readings, replies: seq<WsReceiver.Read>): State {
    var pinged := if s.closeFrameSent then s else MaybePing(cfg, s, t);
    if !s.closeFrameSent && PongOverdue(cfg, pinged, t) then Fail(cfg, pinged, PongTimeout, t[4])
    else if s.readSelect == 0 then pinged
    else Receive(cfg, pinged, t, replies)
  }

  function SwitchWait(cfg: Config, s: State, t: Readings): State {
    if !cfg.autoReconnect then s.(run := false)
    else if Elapsed(t[0], s.reconnectTick) > cfg.waitTimeoutMs then s.(conn := Init, reconnectTick := t[1])
    else s
  }

  function SwitchClosing(s: State, t: Readings): State {
    if s.closeFrameSent then s
    else Add(s.(closeFrameSent := true), Sent(Frame(true, CLOSE, []), s.session, t[0]))
  }

  /** The locked switch. */
  function Switch(cfg: Config, s: State, t: Readings, connect: int, replies: seq<WsReceiver.Read>): State {
    match s.conn
    case Init => SwitchInit(cfg, s, t, connect)
    case Connected => SwitchConnected(cfg, s, t, replies)
    case WaitTimeout => SwitchWait(cfg, s, t)
    case Closing => SwitchClosing(s, t)
    case Unknown => s
  }

  /** What the task does right after giving the lock back, up to the end of its (blocking) poll. */
  function AfterUnlock(s: State, poll: int, closedPoll: int): State {
    if s.conn == Connected then s.(readSelect := poll, polledSession := s.session, pc := Polled)
    else if s.conn == WaitTimeout then s.(pc := LoopTest)
    else if s.conn == Closing && s.closeFrameSent then
      if closedPoll == 0 then s.(pc := Leaving)
      else s.(run := false, conn := Unknown, pc := Leaving, log := s.log + [Event(ClosedEvent)])
    else s.(pc := LoopTest)
  }

  // --- Other tasks --------------------------------------------------------------------------------------

  function SentEntries(frames: seq<Frame>, session: nat, at: nat): (entries: Log)
    ensures |entries| == |frames|
    ensures forall k :: 0 <= k < |entries| ==> entries[k] == Sent(frames[k], session, at)
  {
    seq(|frames|, k requires 0 <= k < |frames| => Sent(frames[k], session, at))
  }

  lemma SentEntriesOne(frames: seq<Frame>, frame: Frame, session: nat, at: nat)
    ensures SentEntries(frames + [frame], session, at) == SentEntries(frames, session, at) + [Sent(frame, session, at)]
    ensures SentEntries([], session, at) == []
  {
  }

  /** esp_websocket_client_send_with_exact_opcode: the frames the transport took, then, if it failed, the abort. */
  function SendExact(cfg: Config, s: State, op: OpWord, data: seq<Byte>, net: WsSender.Transport, at: nat): State
    requires cfg.bufferSize > 0
  {
    var r := WsSender.SendExact(cfg.bufferSize, op, data, net);
    var sent := s.(log := s.log + SentEntries(r.frames, s.session, at));
    if r.failed then Fail(cfg, sent, TcpTransport, at) else sent
  }

  /** esp_websocket_client_send_with_opcode, which holds the lock throughout. */
  function SendLocked(cfg: Config, s: State, code: nat, data: seq<Byte>, net: WsSender.Transport, at: nat): State
    requires cfg.bufferSize > 0
  {
    if s.conn != Connected || !cfg.hasTransport then s else SendExact(cfg, s, OpWord(true, code), data, net, at)
  }

  // --- Steps and runs -----------------------------------------------------------------------------------

  datatype Action =
    // the task
    | TestRun
    | RunSwitch(t: Readings, connect: int, replies: seq<WsReceiver.Read>)
    | RunUnlocked(poll: int, closedPoll: int)
    | CheckPoll
    | BeginAbort
    | StampAbort(at: nat)
    | StateAbort
    | EventAbort
    | Leave
    // any other task, any number of times
    | SendMessage(code: nat, data: seq<Byte>, net: WsSender.Transport, at: nat)
    | SetCloseBit
    | ClearRun
    | StartReturns
    | SetPingInterval(sec: nat)
    | ForceUnknown

  /** The receiver, when the switch calls it, needs the transport to answer. */
  predicate Blocks(s: State, replies: seq<WsReceiver.Read>) {
    s.conn == Connected && s.readSelect != 0 && WsReceiver.RecvLoop(replies, s.header, 0).status == WsReceiver.Blocked
  }

  predicate Enabled(s: State, a: Action) {
    match a
    case TestRun => s.pc == LoopTest
    case RunSwitch(t, _, replies) => s.pc == Switching && Later(s.now, t) && !Blocks(s, replies)
    case RunUnlocked(_, _) => s.pc == Unlocked
    case CheckPoll => s.pc == Polled
    case BeginAbort => s.pc == AbortCheck
    case StampAbort(at) => s.pc == AbortStamp && s.now <= at
    case StateAbort => s.pc == AbortState
    case EventAbort => s.pc == AbortEvent
    case Leave => s.pc == Leaving
    case SendMessage(_, _, _, at) => s.now <= at
    case StartReturns => !s.started
    case ForceUnknown => s.pc == Gone
    case _ => true
  }

  function Perform(cfg: Config, s: State, a: Action): State
    requires cfg.bufferSize > 0
  {
    match a
    case TestRun => s.(pc := if s.run then Switching else Leaving)
    case RunSwitch(t, connect, replies) => Switch(cfg, s, t, connect, replies).(pc := Unlocked, now := t[5])
    case RunUnlocked(poll, closedPoll) => AfterUnlock(s, poll, closedPoll)
    case CheckPoll => if s.readSelect < 0 then Add(s.(pc := AbortCheck), Event(ErrorEvent)) else s.(pc := LoopTest)
    case BeginAbort => s.(pc := if s.conn == Unknown then LoopTest else AbortStamp)
    case StampAbort(at) =>
      s.(pc := AbortState, now := at, reconnectTick := if cfg.autoReconnect then at else s.reconnectTick)
    case StateAbort =>
      s.(pc := AbortEvent, conn := WaitTimeout, log := s.log + [Aborted(TcpTransport, s.session, AbortTime(cfg, s))])
    case EventAbort => Add(s.(pc := LoopTest), Event(DisconnectedEvent))
    case Leave => s.(pc := Gone, stopped := true, conn := Unknown)
    case SendMessage(code, data, net, at) => SendLocked(cfg, s, code, data, net, at).(now := at)
    case SetCloseBit => s.(closeFrameSent := true)
    case ClearRun => s.(run := false)
    case StartReturns => s.(started := true, closeFrameSent := false, stopped := false)
    case SetPingInterval(sec) => s.(pingIntervalSec := if sec == 0 then DEFAULT_PING_INTERVAL_SEC else sec)
    case ForceUnknown => s.(conn := Unknown)
  }

  const DEFAULT_PING_INTERVAL_SEC: nat := 10

  /** An action that is not enabled leaves the state alone, so every sequence of actions is a schedule. */
  ghost function Step(cfg: Config, s: State, a: Action): State
    requires cfg.bufferSize > 0
  {
    if Enabled(s, a) then Perform(cfg, s, a) else s
  }

  ghost function Run(cfg: Config, s: State, actions: seq<Action>): State
    requires cfg.bufferSize > 0
    decreases |actions|
  {
    if actions == [] then s else Run(cfg, Step(cfg, s, actions[0]), actions[1..])
  }

  /** The task about to enter its loop. Fields that survive an earlier run of the client are arbitrary. */
  ghost predicate Entering(cfg: Config, s: State) {
    && s.conn == Init && s.pc == LoopTest && s.readSelect == 0
    && (s.run ==> cfg.hasTransport)
    && !s.closeFrameSent && !s.stopped
    && s.reconnectTick <= s.now && s.pingTick <= s.now && s.pingpongTick <= s.now
    && s.log == []
  }

  lemma {:induction false} RunAppend(cfg: Config, s: State, a: seq<Action>, b: seq<Action>)
    requires cfg.bufferSize > 0
    ensures Run(cfg, s, a + b) == Run(cfg, Run(cfg, s, a), b)
    decreases |a|
  {
    hide Step;
    if a == [] {
      assert a + b == b;
    } else {
      RunAppend(cfg, Step(cfg, s, a[0]), a[1..], b);
      assert (a + b)[0] == a[0] && (a + b)[1..] == a[1..] + b;
    }
  }

  lemma RunThree(cfg: Config, s: State, a: Action, b: Action, c: Action)
    requires cfg.bufferSize > 0
    ensures Run(cfg, s, [a, b, c]) == Step(cfg, Step(cfg, Step(cfg, s, a), b), c)
  {
    hide Step;
    var s1 := Step(cfg, s, a);
    var s2 := Step(cfg, s1, b);
    assert [a, b, c][1..] == [b, c] && [b, c][1..] == [c] && [c][1..] == [];
    assert Run(cfg, s, [a, b, c]) == Run(cfg, s1, [b, c]);
    assert Run(cfg, s1, [b, c]) == Run(cfg, s2, [c]);
    assert Run(cfg, s2, [c]) == Run(cfg, Step(cfg, s2, c), []);
  }
}
