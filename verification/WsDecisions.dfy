/** What the client task decides in a turn of its loop: when it connects, waits, connects again, PINGs, gives up, reads,
    answers and stops, each as an exact condition. */
module WsDecisions {
  import opened WsFrames
  import opened WsLog
  import opened WsSession
  import WsFlags
  import WsReceiver
  import WsSafety

  // --- Connecting -----------------------------------------------------------------------------------------

  /** What every failure of an engine that is not over comes to: an ERROR, the abort on record, a DISCONNECTED, and
      the wait, measured from the failure. */
  lemma FailureEffect(cfg: Config, s: State, why: AbortReason, at: nat)
    ensures var after := Fail(cfg, s, why, at);
            if s.conn == Unknown then after == s.(log := s.log + [Event(ErrorEvent)])
            else
              && after.log == s.log + [Event(ErrorEvent), Aborted(why, s.session, at), Event(DisconnectedEvent)]
              && after.conn == WaitTimeout
              && after.reconnectTick == if cfg.autoReconnect then at else s.reconnectTick
  {
  }

  /** A turn in INIT makes one attempt, announced first, and its result alone decides whether the client is connected,
      or waits. */
  lemma ConnectsIff(cfg: Config, s: State, t: Readings, connect: int, replies: seq<WsReceiver.Read>)
    requires s.conn == Init && cfg.hasTransport
    ensures var after := Switch(cfg, s, t, connect, replies);
            && (after.conn == Connected <==> connect >= 0)
            && (connect >= 0 ==>
                  && after.log == s.log + [Event(BeforeConnectEvent), Attempt(t[0]), Event(ConnectedEvent)]
                  && after.session == s.session + 1 && !after.waitForPong)
            && (connect < 0 ==>
                  && after.log == s.log + [Event(BeforeConnectEvent), Attempt(t[0]), Event(ErrorEvent),
                                           Aborted(TcpTransport, s.session, t[1]), Event(DisconnectedEvent)]
                  && after.conn == WaitTimeout && after.session == s.session
                  && (cfg.autoReconnect ==> after.reconnectTick == t[1]))
  {
    hide SwitchConnected, SwitchWait, SwitchClosing, Fail;
    FailureEffect(cfg, Add(Add(s, Event(BeforeConnectEvent)), Attempt(t[0])), TcpTransport, t[1]);
    WsSafety.FailCases(cfg, Add(Add(s, Event(BeforeConnectEvent)), Attempt(t[0])), TcpTransport, t[1]);
  }

  /** Main result: a waiting client connects again in the first turn that finds more than wait_timeout_ms gone by, and
      in no earlier one. */
  lemma ReconnectsIff(cfg: Config, s: State, t: Readings, connect: int, replies: seq<WsReceiver.Read>)
    requires s.conn == WaitTimeout && cfg.autoReconnect && Later(s.now, t) && s.reconnectTick <= s.now
    ensures var after := Switch(cfg, s, t, connect, replies);
            && (after.conn == Init <==> t[0] - s.reconnectTick > cfg.waitTimeoutMs)
            && after == (if after.conn == Init then s.(conn := Init, reconnectTick := t[1]) else s)
  {
    hide SwitchInit, SwitchConnected, SwitchClosing;
    WsSafety.ElapsedExact(t[0], s.reconnectTick);
  }

  /** Main result: the task stops by itself for want of a transport, and for a lost connection that it is not to make
      again; for nothing else. */
  lemma StopsIff(cfg: Config, s: State, t: Readings, connect: int, replies: seq<WsReceiver.Read>)
    ensures Switch(cfg, s, t, connect, replies).run <==>
            && s.run
            && !(s.conn == Init && !cfg.hasTransport)
            && !(s.conn == WaitTimeout && !cfg.autoReconnect)
  {
    hide Switch;
    WsFlags.SwitchKeepsFlags(cfg, s, RunSwitch(t, connect, replies));
  }

  // --- Runs that connect again ------------------------------------------------------------------------------

  lemma RunFive(cfg: Config, s: State, a: Action, b: Action, c: Action, d: Action, e: Action)
    requires cfg.bufferSize > 0
    ensures Run(cfg, s, [a, b, c, d, e]) == Step(cfg, Step(cfg, Step(cfg, Step(cfg, Step(cfg, s, a), b), c), d), e)
  {
    hide Step;
    var s3 := Step(cfg, Step(cfg, Step(cfg, s, a), b), c);
    RunThree(cfg, s, a, b, c);
    RunAppend(cfg, s, [a, b, c], [d, e]);
    assert [a, b, c] + [d, e] == [a, b, c, d, e];
    assert [d, e][1..] == [e] && [e][1..] == [];
    assert Run(cfg, s3, [d, e]) == Run(cfg, Step(cfg, s3, d), [e]);
    assert Run(cfg, Step(cfg, s3, d), [e]) == Run(cfg, Step(cfg, Step(cfg, s3, d), e), []);
  }

  lemma SwitchIsStep(cfg: Config, s: State, t: Readings, connect: int)
    requires cfg.bufferSize > 0 && s.pc == Switching && Later(s.now, t) && s.conn != Connected
    ensures Step(cfg, s, RunSwitch(t, connect, [])) == Switch(cfg, s, t, connect, []).(pc := Unlocked, now := t[5])
  {
    hide Switch, AfterUnlock, SendLocked, WsReceiver.RecvLoop;
  }

  lemma TestIsStep(cfg: Config, s: State)
    requires cfg.bufferSize > 0 && s.pc == LoopTest && s.run
    ensures Step(cfg, s, TestRun) == s.(pc := Switching)
  {
    hide Switch, AfterUnlock, SendLocked;
  }

  lemma UnlockIsStep(cfg: Config, s: State, poll: int, closedPoll: int)
    requires cfg.bufferSize > 0 && s.pc == Unlocked && (s.conn == Init || s.conn == WaitTimeout)
    ensures Step(cfg, s, RunUnlocked(poll, closedPoll)) == s.(pc := LoopTest)
  {
    hide Switch, SendLocked;
  }

  /** Two turns of a waiting client's loop, `t` and `u` being their clock readings. */
  function Again(t: Readings, u: Readings, connect: int): seq<Action> {
    [TestRun, RunSwitch(t, 0, []), RunUnlocked(0, 0), TestRun, RunSwitch(u, connect, [])]
  }

  /** Main result: a running client that waits is connected again after two turns, once the wait is over and the server
      accepts. */
  lemma WaitingReconnects(cfg: Config, s: State, t: Readings, u: Readings, connect: int)
    requires cfg.bufferSize > 0 && cfg.autoReconnect && cfg.hasTransport && connect >= 0
    requires s.conn == WaitTimeout && s.pc == LoopTest && s.run && s.reconnectTick <= s.now
    requires Later(s.now, t) && t[0] - s.reconnectTick > cfg.waitTimeoutMs && Later(t[5], u)
    ensures var end := Run(cfg, s, Again(t, u, connect));
            && end.conn == Connected && end.session == s.session + 1
            && end.log == s.log + [Event(BeforeConnectEvent), Attempt(u[0]), Event(ConnectedEvent)]
  {
    hide Step, Switch, Run;
    var s1 := s.(pc := Switching);
    var s2 := Switch(cfg, s1, t, 0, []).(pc := Unlocked, now := t[5]);
    var s4 := s2.(pc := Switching);
    RunFive(cfg, s, TestRun, RunSwitch(t, 0, []), RunUnlocked(0, 0), TestRun, RunSwitch(u, connect, []));
    TestIsStep(cfg, s);
    SwitchIsStep(cfg, s1, t, 0);
    ReconnectsIff(cfg, s1, t, 0, []);
    UnlockIsStep(cfg, s2, 0, 0);
    TestIsStep(cfg, s2.(pc := LoopTest));
    SwitchIsStep(cfg, s4, u, connect);
    ConnectsIff(cfg, s4, u, connect, []);
  }

  lemma {:induction false} NoMoreAttempts(log: Log, more: Log)
    requires forall k :: 0 <= k < |more| ==> !more[k].Attempt?
    ensures AttemptTimes(log + more) == AttemptTimes(log)
    decreases |more|
  {
    hide AttemptTimes;
    if more == [] {
      assert log + more == log;
    } else {
      var init := more[..|more| - 1];
      NoMoreAttempts(log, init);
      AttemptTimesOne(log + init, more[|more| - 1]);
      assert log + more == log + init + [more[|more| - 1]];
    }
  }

  lemma FailedAttempt(at: nat, aborted: Entry)
    requires aborted.Aborted?
    ensures AttemptTimes([Event(BeforeConnectEvent), Attempt(at), Event(ErrorEvent), aborted,
                          Event(DisconnectedEvent)]) == [at]
  {
    var begun, after := [Event(BeforeConnectEvent)], [Event(ErrorEvent), aborted, Event(DisconnectedEvent)];
    NoAttempt(Event(BeforeConnectEvent));
    hide AttemptTimes;
    AttemptTimesOne(begun, Attempt(at));
    NoMoreAttempts(begun + [Attempt(at)], after);
    assert begun + [Attempt(at)] + after ==
           [Event(BeforeConnectEvent), Attempt(at), Event(ErrorEvent), aborted, Event(DisconnectedEvent)];
  }

  lemma NoAttempt(e: Entry)
    requires !e.Attempt?
    ensures AttemptTimes([e]) == []
  {
    assert [e][..0] == [];
  }

  /** A waiting client whose only attempt was at `at`. */
  ghost predicate WaitsSince(s: State, at: nat) {
    && s.conn == WaitTimeout && s.pc == LoopTest && s.run && s.now == at
    && s.reconnectTick == at && AttemptTimes(s.log) == [at]
  }

  lemma FirstFails(cfg: Config, s: State, t: Readings)
    requires cfg.bufferSize > 0 && cfg.autoReconnect
    requires Entering(cfg, s) && s.run && Later(s.now, t) && t[0] == t[1] == t[5] == s.now
    ensures WaitsSince(Run(cfg, s, [TestRun, RunSwitch(t, -1, []), RunUnlocked(0, 0)]), s.now)
  {
    hide Step, Switch, Run, AttemptTimes, Later;
    var s1 := s.(pc := Switching);
    var s2 := Switch(cfg, s1, t, -1, []).(pc := Unlocked, now := t[5]);
    RunThree(cfg, s, TestRun, RunSwitch(t, -1, []), RunUnlocked(0, 0));
    TestIsStep(cfg, s);
    SwitchIsStep(cfg, s1, t, -1);
    ConnectsIff(cfg, s1, t, -1, []);
    StopsIff(cfg, s1, t, -1, []);
    UnlockIsStep(cfg, s2, 0, 0);
    FailedAttempt(t[0], Aborted(TcpTransport, s.session, t[1]));
    assert forall tail: Log :: [] + tail == tail;
  }

  lemma SecondSucceeds(cfg: Config, s: State, at: nat, u: Readings)
    requires cfg.bufferSize > 0 && cfg.autoReconnect && cfg.hasTransport
    requires WaitsSince(s, at) && Later(s.now, u) && Later(u[5], u) && u[0] == at + cfg.waitTimeoutMs + 1
    ensures var end := Run(cfg, s, Again(u, u, 0));
            end.conn == Connected && AttemptTimes(end.log) == [at, u[0]]
  {
    hide Run, AttemptTimes, Later, Again;
    WaitingReconnects(cfg, s, u, u, 0);
    TwoAttempts(s.log, at, u[0]);
  }

  function Still(now: nat): Readings {
    [now, now, now, now, now, now]
  }

  /** A run of a client whose first attempt fails and whose second, as soon as the wait allows, succeeds. */
  function FailThenConnect(cfg: Config, now: nat): seq<Action> {
    var u := Still(now + cfg.waitTimeoutMs + 1);
    [TestRun, RunSwitch(Still(now), -1, []), RunUnlocked(0, 0)] + Again(u, u, 0)
  }

  /** Every client that is to reconnect has such a run. */
  lemma ReconnectReached(cfg: Config, s: State)
    requires cfg.bufferSize > 0 && cfg.autoReconnect
    requires Entering(cfg, s) && s.run && s.now + cfg.waitTimeoutMs + 1 <= CLOCK_LIMIT
    ensures var end := Run(cfg, s, FailThenConnect(cfg, s.now));
            end.conn == Connected && AttemptTimes(end.log) == [s.now, s.now + cfg.waitTimeoutMs + 1]
  {
    hide Run, AttemptTimes, Again, WaitsSince;
    var u := Still(s.now + cfg.waitTimeoutMs + 1);
    var first := [TestRun, RunSwitch(Still(s.now), -1, []), RunUnlocked(0, 0)];
    FirstFails(cfg, s, Still(s.now));
    WaitsNow(Run(cfg, s, first), s.now);
    SecondSucceeds(cfg, Run(cfg, s, first), s.now, u);
    RunAppend(cfg, s, first, Again(u, u, 0));
  }

  lemma WaitsNow(s: State, at: nat)
    requires WaitsSince(s, at)
    ensures s.now == at
  {
  }

  lemma TwoAttempts(log: Log, first: nat, second: nat)
    requires AttemptTimes(log) == [first]
    ensures AttemptTimes(log + [Event(BeforeConnectEvent), Attempt(second), Event(ConnectedEvent)]) == [first, second]
  {
    hide AttemptTimes;
    var begun := log + [Event(BeforeConnectEvent)];
    AttemptTimesOne(log, Event(BeforeConnectEvent));
    AttemptTimesOne(begun, Attempt(second));
    AttemptTimesOne(begun + [Attempt(second)], Event(ConnectedEvent));
    assert begun + [Attempt(second)] + [Event(ConnectedEvent)] ==
           log + [Event(BeforeConnectEvent), Attempt(second), Event(ConnectedEvent)];
  }

  // --- Reading --------------------------------------------------------------------------------------------------

  predicate IsPong(e: Entry) {
    e.Sent? && e.frame.fin && e.frame.code == PONG
  }

  /** What a call of the receiver comes to, by the way it ends. */
  lemma ReceiveEffect(cfg: Config, s: State, t: Readings, replies: seq<WsReceiver.Read>) returns (rest: Log)
    requires s.conn == Connected
    ensures var r := WsReceiver.RecvLoop(replies, s.header, 0);
            var after := Receive(cfg, s, t, replies);
            var whole := r.status == WsReceiver.Whole;
            && after.log == s.log + DataEntries(r.events) + rest
            && after.pingTick == t[4]
            && (if r.status == WsReceiver.Broken then
                  && rest == [Event(ErrorEvent), Aborted(TcpTransport, s.session, t[5]), Event(DisconnectedEvent)]
                  && after.conn == WaitTimeout
                else if whole && r.header.code == PING then
                  && |rest| == 1 && IsPong(rest[0]) && after.conn == Connected && after.waitForPong == s.waitForPong
                else
                  && rest == []
                  && after.conn == (if whole && r.header.code == CLOSE then Closing else Connected)
                  && after.waitForPong == (s.waitForPong && !(whole && r.header.code == PONG)))
  {
    hide Receive, WsReceiver.RecvLoop, Answer, Fail, DataEntries, LastPiece;
    var r := WsReceiver.RecvLoop(replies, s.header, 0);
    var read := s.(pingTick := t[4], header := r.header, payloadOffset := r.offset,
                   log := s.log + DataEntries(r.events));
    WsSafety.ReceiveCases(cfg, s, t, replies);
    rest := [];
    assert read.log + [] == read.log;
    if r.status == WsReceiver.Broken {
      rest := [Event(ErrorEvent), Aborted(TcpTransport, s.session, t[5]), Event(DisconnectedEvent)];
      FailureEffect(cfg, read, TcpTransport, t[5]);
      WsSafety.FailCases(cfg, read, TcpTransport, t[5]);
    } else if r.status == WsReceiver.Whole {
      WsSafety.AnswerCases(read, LastPiece(r.events), t[5]);
      if r.header.code == PING {
        var echo := if r.header.payloadLen == 0 then [] else LastPiece(r.events);
        rest := [Sent(Frame(true, PONG, echo), s.session, t[5])];
      }
    } else {
      assert Receive(cfg, s, t, replies) == read;
    }
  }

  /** A frame of this opcode has arrived. */
  ghost predicate Arrives(more: Log, code: nat) {
    exists k :: 0 <= k < |more| && Completes(more[k], code)
  }

  ghost predicate SendsPong(more: Log) {
    exists k :: 0 <= k < |more| && IsPong(more[k])
  }

  lemma ArrivesBoth(a: Log, b: Log, code: nat)
    ensures Arrives(a + b, code) <==> Arrives(a, code) || Arrives(b, code)
    ensures SendsPong(a + b) <==> SendsPong(a) || SendsPong(b)
  {
    hide Completes, IsPong;
    var all := a + b;
    forall k | 0 <= k < |a|
      ensures Completes(a[k], code) ==> Arrives(all, code)
      ensures IsPong(a[k]) ==> SendsPong(all)
    {
      assert all[k] == a[k];
    }
    forall k | 0 <= k < |b|
      ensures Completes(b[k], code) ==> Arrives(all, code)
      ensures IsPong(b[k]) ==> SendsPong(all)
    {
      assert all[|a| + k] == b[k];
    }
  }

  /** Which frame arrives in a call of the receiver. */
  lemma DataArrives(replies: seq<WsReceiver.Read>, header: WsReceiver.Header, code: nat)
    ensures var r := WsReceiver.RecvLoop(replies, header, 0);
            && (Arrives(DataEntries(r.events), code) <==> r.status == WsReceiver.Whole && r.header.code == code)
            && !SendsPong(DataEntries(r.events))
  {
    hide WsReceiver.RecvLoop, Completes;
    WsSafety.DataCompletes(replies, header, code);
    var r := WsReceiver.RecvLoop(replies, header, 0);
    if r.status == WsReceiver.Whole && r.header.code == code {
      assert Completes(DataEntries(r.events)[|r.events| - 1], code);
    }
  }

  /** Main result: what a connected client does about the frames it reads. A PONG ends the wait for one and the client
      stays connected; the client is closing exactly when a CLOSE has arrived; and it sends a PONG exactly when a PING
      has. */
  lemma ReceiptAnswered(cfg: Config, s: State, t: Readings, replies: seq<WsReceiver.Read>) returns (more: Log)
    requires s.conn == Connected
    ensures var after := Receive(cfg, s, t, replies);
            && after.log == s.log + more
            && (Arrives(more, PONG) ==> after.conn == Connected && !after.waitForPong)
            && (!Arrives(more, PONG) && after.conn == Connected ==> after.waitForPong == s.waitForPong)
            && (after.conn == Closing <==> Arrives(more, CLOSE))
            && (SendsPong(more) <==> Arrives(more, PING))
  {
    hide Receive, WsReceiver.RecvLoop, DataEntries, Arrives, SendsPong;
    var r := WsReceiver.RecvLoop(replies, s.header, 0);
    var rest := ReceiveEffect(cfg, s, t, replies);
    more := DataEntries(r.events) + rest;
    assert s.log + DataEntries(r.events) + rest == s.log + more;
    forall code: nat
      ensures Arrives(more, code) <==> r.status == WsReceiver.Whole && r.header.code == code
    {
      DataArrives(replies, s.header, code);
      ArrivesBoth(DataEntries(r.events), rest, code);
      RestIsQuiet(rest, code);
    }
    DataArrives(replies, s.header, PING);
    ArrivesBoth(DataEntries(r.events), rest, PING);
    RestIsQuiet(rest, PING);
  }

  lemma RestIsQuiet(rest: Log, code: nat)
    ensures (forall k :: 0 <= k < |rest| ==> rest[k].Event? ==> !rest[k].id.DataEvent?) ==> !Arrives(rest, code)
    ensures |rest| == 1 && IsPong(rest[0]) ==> SendsPong(rest)
    ensures (forall k :: 0 <= k < |rest| ==> !rest[k].Sent?) ==> !SendsPong(rest)
  {
  }

  /** A PONG read in one piece ends the wait. */
  lemma PongEndsWait(s: State, payload: seq<Byte>, fin: bool, at: nat)
    ensures var pong := WsReceiver.Header(fin, PONG, |payload|);
            var after := Recv(s, [WsReceiver.Got(payload, pong)], at);
            && !after.waitForPong && after.conn == s.conn
            && after.log == s.log + [Event(DataEvent(WsReceiver.DataEvent(0, pong, payload)))]
  {
    var pong := WsReceiver.Header(fin, PONG, |payload|);
    var event := WsReceiver.DataEvent(0, pong, payload);
    assert WsReceiver.RecvLoop([WsReceiver.Got(payload, pong)], s.header, 0) ==
              WsReceiver.RecvResult([event], WsReceiver.Whole, pong, |payload|);
    hide WsReceiver.RecvLoop;
    DataEntriesOne([], event);
    assert [] + [event] == [event] && [] + [Event(DataEvent(event))] == [Event(DataEvent(event))];
  }

  // --- PINGing and giving up --------------------------------------------------------------------------------

  /** More than the ping interval has passed since the last PING or read, and no close has begun. */
  predicate PingDue(s: State, t: Readings) {
    !s.closeFrameSent && t[0] - s.pingTick > s.pingIntervalSec * 1000 % 0x1_0000_0000
  }

  /** This turn's PING is one that a PONG will be awaited for. */
  predicate PingArms(cfg: Config, s: State, t: Readings) {
    PingDue(s, t) && !s.waitForPong && cfg.pingpongTimeoutSec != 0
  }

  /** The PONG awaited, since an earlier turn or since this one, is later than the limit. */
  predicate PongLate(cfg: Config, s: State, t: Readings) {
    var limit := cfg.pingpongTimeoutSec * 1000 % 0x1_0000_0000_0000_0000;
    && !s.closeFrameSent
    && ((s.waitForPong && t[3] - s.pingpongTick > limit) || (PingArms(cfg, s, t) && t[3] - t[2] > limit))
  }

  predicate IsPing(e: Entry) {
    e.Sent? && e.frame == Frame(true, PING, [])
  }

  function PingEntries(s: State, t: Readings): Log {
    if PingDue(s, t) then
      [PingStamp(t[1], s.pingIntervalSec * 1000 % 0x1_0000_0000), Sent(Frame(true, PING, []), s.session, t[2])]
    else []
  }

  /** The state after the PING, if any. */
  function Pinged(cfg: Config, s: State, t: Readings): State {
    s.(pingTick := if PingDue(s, t) then t[1] else s.pingTick,
       pingpongTick := if PingArms(cfg, s, t) then t[2] else s.pingpongTick,
       waitForPong := s.waitForPong || PingArms(cfg, s, t),
       log := s.log + PingEntries(s, t))
  }

  lemma PingEffect(cfg: Config, s: State, t: Readings)
    requires Later(s.now, t) && s.pingTick <= s.now
    ensures (if s.closeFrameSent then s else MaybePing(cfg, s, t)) == Pinged(cfg, s, t)
  {
    WsSafety.ElapsedExact(t[0], s.pingTick);
    assert s.log + [] == s.log;
    hide Elapsed;
    if PingDue(s, t) {
      assert s.log + PingEntries(s, t) == s.log + [PingEntries(s, t)[0]] + [PingEntries(s, t)[1]];
    }
  }

  lemma LateEffect(cfg: Config, s: State, t: Readings)
    requires Later(s.now, t) && s.pingpongTick <= s.now
    ensures !s.closeFrameSent ==> (PongOverdue(cfg, Pinged(cfg, s, t), t) <==> PongLate(cfg, s, t))
  {
    hide PingDue, PingEntries;
    WsSafety.ElapsedExact(t[3], Pinged(cfg, s, t).pingpongTick);
  }

  /** A turn of a connected client: the PING when one is due; then the end of the connection when the PONG is late; else
      a read when the poll reported data. */
  lemma ConnectedEffect(cfg: Config, s: State, t: Readings, connect: int, replies: seq<WsReceiver.Read>)
    requires s.conn == Connected && Later(s.now, t) && s.pingTick <= s.now && s.pingpongTick <= s.now
    ensures var after := Switch(cfg, s, t, connect, replies);
            if PongLate(cfg, s, t) then after == Fail(cfg, Pinged(cfg, s, t), PongTimeout, t[4])
            else if s.readSelect == 0 then after == Pinged(cfg, s, t)
            else after == Receive(cfg, Pinged(cfg, s, t), t, replies)
  {
    hide MaybePing, PongOverdue, PongLate, Receive, Fail, SwitchInit, SwitchWait, SwitchClosing, PingDue, PingArms,
         PingEntries;
    PingEffect(cfg, s, t);
    LateEffect(cfg, s, t);
    if s.closeFrameSent {
      NotLate(cfg, s, t);
    }
  }

  lemma NotLate(cfg: Config, s: State, t: Readings)
    requires s.closeFrameSent
    ensures !PongLate(cfg, s, t) && !PingDue(s, t)
  {
  }

  ghost predicate SendsPing(more: Log) {
    exists k :: 0 <= k < |more| && IsPing(more[k])
  }

  ghost predicate TimesOut(more: Log) {
    exists k :: 0 <= k < |more| && more[k].Aborted? && more[k].why == PongTimeout
  }

  /** Main result: a turn of a connected client sends a PING if and only if one is due, ends the connection for want of
      a PONG if and only if the one it waits for is late, and else reads if and only if the poll reported data. */
  lemma KeepsAliveIff(cfg: Config, s: State, t: Readings, connect: int, replies: seq<WsReceiver.Read>)
    returns (more: Log)
    requires s.conn == Connected && Later(s.now, t) && s.pingTick <= s.now && s.pingpongTick <= s.now
    ensures var after := Switch(cfg, s, t, connect, replies);
            && after.log == s.log + more
            && (SendsPing(more) <==> PingDue(s, t))
            && (SendsPing(more) ==>
                  && |more| >= 2
                  && more[0] == PingStamp(t[1], s.pingIntervalSec * 1000 % 0x1_0000_0000)
                  && more[1] == Sent(Frame(true, PING, []), s.session, t[2]))
            && (TimesOut(more) <==> PongLate(cfg, s, t))
            && (TimesOut(more) ==> after.conn == WaitTimeout)
            && (!TimesOut(more) && s.readSelect == 0 ==>
                  && after.conn == Connected && after.pingTick == (if PingDue(s, t) then t[1] else s.pingTick)
                  && after.waitForPong == (s.waitForPong || PingArms(cfg, s, t)))
            && (!TimesOut(more) && s.readSelect != 0 ==>
                  && after == Receive(cfg, Pinged(cfg, s, t), t, replies) && after.pingTick == t[4])
  {
    hide Switch, PongLate, Receive, PingDue, PingArms, PingEntries, SendsPing, TimesOut;
    var rest := AfterPing(cfg, s, t, connect, replies);
    more := PingEntries(s, t) + rest;
    assert s.log + PingEntries(s, t) + rest == s.log + more;
    QuietBoth(PingEntries(s, t), rest);
    PingSends(s, t);
    if PingDue(s, t) {
      PingFirst(s, t, rest);
    }
  }

  /** What a turn of a connected client logs after its PING, if any. */
  lemma AfterPing(cfg: Config, s: State, t: Readings, connect: int, replies: seq<WsReceiver.Read>) returns (rest: Log)
    requires s.conn == Connected && Later(s.now, t) && s.pingTick <= s.now && s.pingpongTick <= s.now
    ensures var after := Switch(cfg, s, t, connect, replies);
            && after.log == s.log + PingEntries(s, t) + rest
            && !SendsPing(rest)
            && (TimesOut(rest) <==> PongLate(cfg, s, t))
            && (if PongLate(cfg, s, t) then after.conn == WaitTimeout
                else if s.readSelect == 0 then after == Pinged(cfg, s, t)
                else after == Receive(cfg, Pinged(cfg, s, t), t, replies) && after.pingTick == t[4])
  {
    hide Switch, PongLate, Receive, Fail, PingDue, PingArms, PingEntries, WsReceiver.RecvLoop, DataEntries, SendsPing,
         TimesOut;
    var p := Pinged(cfg, s, t);
    ConnectedEffect(cfg, s, t, connect, replies);
    rest := [];
    assert p.log + [] == p.log;
    if PongLate(cfg, s, t) {
      FailureEffect(cfg, p, PongTimeout, t[4]);
      rest := [Event(ErrorEvent), Aborted(PongTimeout, s.session, t[4]), Event(DisconnectedEvent)];
    } else if s.readSelect != 0 {
      var r := WsReceiver.RecvLoop(replies, p.header, 0);
      var last := ReceiveEffect(cfg, p, t, replies);
      rest := DataEntries(r.events) + last;
      QuietBoth(DataEntries(r.events), last);
      assert p.log + DataEntries(r.events) + last == p.log + rest;
      ReadIsQuiet(r.events, last);
    }
    RestTimesOut(rest);
  }

  lemma QuietBoth(a: Log, b: Log)
    ensures SendsPing(a + b) <==> SendsPing(a) || SendsPing(b)
    ensures TimesOut(a + b) <==> TimesOut(a) || TimesOut(b)
  {
    var all := a + b;
    forall k | 0 <= k < |a|
      ensures IsPing(a[k]) ==> SendsPing(all)
      ensures a[k].Aborted? && a[k].why == PongTimeout ==> TimesOut(all)
    {
      assert all[k] == a[k];
    }
    forall k | 0 <= k < |b|
      ensures IsPing(b[k]) ==> SendsPing(all)
      ensures b[k].Aborted? && b[k].why == PongTimeout ==> TimesOut(all)
    {
      assert all[|a| + k] == b[k];
    }
  }

  lemma PingSends(s: State, t: Readings)
    ensures SendsPing(PingEntries(s, t)) <==> PingDue(s, t)
    ensures !TimesOut(PingEntries(s, t))
  {
    hide PingDue;
    if PingDue(s, t) {
      assert IsPing(PingEntries(s, t)[1]);
    }
  }

  lemma PingFirst(s: State, t: Readings, rest: Log)
    requires PingDue(s, t)
    ensures var more := PingEntries(s, t) + rest;
            && |more| >= 2
            && more[0] == PingStamp(t[1], s.pingIntervalSec * 1000 % 0x1_0000_0000)
            && more[1] == Sent(Frame(true, PING, []), s.session, t[2])
  {
    hide PingDue;
  }

  lemma ReadIsQuiet(events: seq<WsReceiver.DataEvent>, last: Log)
    ensures !SendsPing(DataEntries(events)) && !TimesOut(DataEntries(events))
    ensures (forall k :: 0 <= k < |last| ==> !IsPing(last[k])) ==> !SendsPing(last)
    ensures (forall k :: 0 <= k < |last| ==> last[k].Aborted? ==> last[k].why != PongTimeout) ==> !TimesOut(last)
  {
  }

  lemma RestTimesOut(rest: Log)
    ensures rest == [] ==> !SendsPing(rest) && !TimesOut(rest)
    ensures |rest| == 3 && rest[0] == Event(ErrorEvent) && rest[1].Aborted? && rest[1].why == PongTimeout
              && rest[2] == Event(DisconnectedEvent)
            ==> TimesOut(rest) && !SendsPing(rest)
  {
  }

  // --- A failed poll ------------------------------------------------------------------------------------------

  /** A poll that fails ends the connection, when no other task's failing send has: an ERROR, the abort, a DISCONNECTED,
      and the wait, measured from the abort's stamp. */
  lemma PollFailureAborts(cfg: Config, s: State, at: nat)
    requires cfg.bufferSize > 0 && cfg.autoReconnect
    requires s.conn == Connected && s.pc == Polled && s.readSelect < 0 && s.now <= at
    ensures var end := Run(cfg, s, [CheckPoll, BeginAbort, StampAbort(at), StateAbort, EventAbort]);
            && end.conn == WaitTimeout && end.pc == LoopTest && end.reconnectTick == at && end.run == s.run
            && end.log == s.log + [Event(ErrorEvent), Aborted(TcpTransport, s.session, at), Event(DisconnectedEvent)]
  {
    hide Step, Run;
    RunFive(cfg, s, CheckPoll, BeginAbort, StampAbort(at), StateAbort, EventAbort);
    AbortBegins(cfg, s);
    var s2 := s.(pc := AbortStamp, log := s.log + [Event(ErrorEvent)]);
    AbortEnds(cfg, s2, at);
    assert s2.log + [Aborted(TcpTransport, s.session, at), Event(DisconnectedEvent)] ==
           s.log + [Event(ErrorEvent), Aborted(TcpTransport, s.session, at), Event(DisconnectedEvent)];
  }

  lemma AbortBegins(cfg: Config, s: State)
    requires cfg.bufferSize > 0 && s.conn == Connected && s.pc == Polled && s.readSelect < 0
    ensures Step(cfg, Step(cfg, s, CheckPoll), BeginAbort) ==
              s.(pc := AbortStamp, log := s.log + [Event(ErrorEvent)])
  {
    hide Switch, AfterUnlock, SendLocked;
  }

  lemma AbortEnds(cfg: Config, s: State, at: nat)
    requires cfg.bufferSize > 0 && cfg.autoReconnect && s.pc == AbortStamp && s.now <= at
    ensures var end := Step(cfg, Step(cfg, Step(cfg, s, StampAbort(at)), StateAbort), EventAbort);
            && end.conn == WaitTimeout && end.pc == LoopTest && end.reconnectTick == at && end.run == s.run
            && end.log == s.log + [Aborted(TcpTransport, s.session, at), Event(DisconnectedEvent)]
  {
    hide Switch, AfterUnlock, SendLocked;
  }

  // --- The ping interval ----------------------------------------------------------------------------------------

  /** The interval in force: the last one set, ten seconds for a zero; the configured one before any. */
  function IntervalAfter(sec: nat, actions: seq<Action>): nat
    decreases |actions|
  {
    if actions == [] then sec
    else
      var a := actions[0];
      IntervalAfter(if !a.SetPingInterval? then sec else if a.sec == 0 then 10 else a.sec, actions[1..])
  }

  lemma StepKeepsInterval(cfg: Config, s: State, a: Action)
    requires cfg.bufferSize > 0
    ensures Step(cfg, s, a).pingIntervalSec ==
              if !a.SetPingInterval? then s.pingIntervalSec else if a.sec == 0 then 10 else a.sec
  {
    hide Switch, SendLocked, AfterUnlock, Later, Blocks;
    if a.RunSwitch? {
      WsFlags.SwitchKeepsFlags(cfg, s, a);
    } else if a.SendMessage? {
      WsFlags.SendKeepsFlags(cfg, s, a);
    } else if a.RunUnlocked? {
      WsFlags.UnlockKeepsFlags(s, a.poll, a.closedPoll);
    }
  }

  /** In every run the interval that PINGs go by is the last one set. */
  lemma {:induction false} IntervalInForce(cfg: Config, s: State, actions: seq<Action>)
    requires cfg.bufferSize > 0
    ensures Run(cfg, s, actions).pingIntervalSec == IntervalAfter(s.pingIntervalSec, actions)
    decreases |actions|
  {
    hide Step;
    if actions != [] {
      StepKeepsInterval(cfg, s, actions[0]);
      IntervalInForce(cfg, Step(cfg, s, actions[0]), actions[1..]);
    }
  }
}
