/** The client object itself: the fields the task and the callers update in place, and the methods that
    update them. Every method is the corresponding function of WsSession on the object's `View()`. */
module WsClient {
  import opened WsFrames
  import opened WsLog
  import opened WsSession
  import WsReceiver
  import WsSender
  import WsSends

  class WebsocketClient {
    const cfg: Config
    const txBuffer: array<Byte>
    const rxBuffer: array<Byte>

    var conn: ConnState
    var run: bool
    var readSelect: int
    var waitForPong: bool
    var reconnectTick: nat
    var pingTick: nat
    var pingpongTick: nat
    var pingIntervalSec: nat
    var closeFrameSent: bool
    var stopped: bool
    var header: WsReceiver.Header
    var payloadOffset: nat

    // The task's program point and the session's history.
    var pc: Pc
    var now: nat
    var session: nat
    var polledSession: nat
    var started: bool
    var log: Log

    predicate Valid()
      reads this
    {
      && ValidConfig(cfg)
      && txBuffer.Length == cfg.bufferSize
      && rxBuffer.Length == cfg.bufferSize
    }

    function View(): State
      reads this
    {
      State(conn, run, pc, readSelect, waitForPong, reconnectTick, pingTick, pingpongTick, pingIntervalSec,
            closeFrameSent, stopped, header, payloadOffset, now, session, polledSession, started, log)
    }

    /** esp_websocket_client_init followed by the task's prelude. */
    constructor (cfg: Config, pingIntervalSec: nat, now: nat)
      requires ValidConfig(cfg)
      ensures Valid() && this.cfg == cfg && fresh(txBuffer) && fresh(rxBuffer)
      ensures Entering(cfg, View()) && run == cfg.hasTransport && this.now == now
    {
      this.cfg := cfg;
      txBuffer := new Byte[cfg.bufferSize](_ => 0);
      rxBuffer := new Byte[cfg.bufferSize](_ => 0);
      conn, run, readSelect, waitForPong := Init, cfg.hasTransport, 0, false;
      reconnectTick, pingTick, pingpongTick := now, now, 0;
      this.pingIntervalSec := pingIntervalSec;
      closeFrameSent, stopped := false, false;
      header, payloadOffset := WsReceiver.Header(false, CONT, 0), 0;
      pc, this.now, session, polledSession, started, log := LoopTest, now, 0, 0, false, [];
    }

    method Dispatch(e: EventId)
      modifies this`log
      ensures View() == Add(old(View()), Event(e))
    {
      log := log + [Event(e)];
    }

    method AbortConnection(why: AbortReason, at: nat)
      modifies this
      ensures View() == Abort(cfg, old(View()), why, at)
    {
      if conn == Unknown {
        return;
      }
      if cfg.autoReconnect {
        reconnectTick := at;
      }
      conn := WaitTimeout;
      log := log + [Aborted(why, session, at)];
      Dispatch(DisconnectedEvent);
    }

    method ReportAndAbort(why: AbortReason, at: nat)
      modifies this
      ensures View() == Fail(cfg, old(View()), why, at)
    {
      Dispatch(ErrorEvent);
      AbortConnection(why, at);
    }

    // --- Sending ---------------------------------------------------------------------------------------

    /** Copies a chunk into the transmit buffer and hands it to the transport, which answers `answer`. */
    method SendRaw(op: OpWord, data: seq<Byte>, from: nat, count: nat, answer: int, at: nat) returns (wlen: int)
      requires from + count <= |data| && count <= txBuffer.Length
      modifies this`log, txBuffer
      ensures wlen == WsSender.Accepted(answer, count)
      ensures WsSender.WriteFails(wlen, count) ==> log == old(log)
      ensures !WsSender.WriteFails(wlen, count) ==>
                log == old(log) + [Sent(Frame(op.fin, op.code, data[from..from + wlen]), session, at)]
    {
      forall k | 0 <= k < count {
        txBuffer[k] := data[from + k];
      }
      wlen := WsSender.Accepted(answer, count);
      if !WsSender.WriteFails(wlen, count) {
        assert txBuffer[..wlen] == data[from..from + wlen];
        log := log + [Sent(Frame(op.fin, op.code, txBuffer[..wlen]), session, at)];
      }
    }

    /** One turn of the sender: the chunk at `widx` under its opcode word. */
    method SendChunk(op: OpWord, containedFin: bool, data: seq<Byte>, widx: nat, answer: int, at: nat)
      returns (failed: bool, wlen: int)
      requires Valid() && widx <= |data|
      modifies this`log, txBuffer
      ensures var offered := WsSender.Min(|data| - widx, cfg.bufferSize);
              var chunkOp := WsSender.ChunkOp(cfg.bufferSize, op, containedFin, |data| - widx);
              && wlen == WsSender.Accepted(answer, offered)
              && failed == WsSender.WriteFails(wlen, offered)
              && (failed ==> log == old(log))
              && (!failed ==>
                    log == old(log) + [Sent(Frame(chunkOp.fin, chunkOp.code, data[widx..widx + wlen]), session, at)])
    {
      var opcode, needWrite := op, |data| - widx;
      if needWrite > cfg.bufferSize {
        needWrite := cfg.bufferSize;
        opcode := opcode.(fin := false);
      } else if containedFin {
        opcode := opcode.(fin := true);
      }
      wlen := SendRaw(opcode, data, widx, needWrite, answer, at);
      failed := wlen < 0 || (wlen == 0 && needWrite != 0);
    }

    /** The sender's loop; it leaves early when the transport fails. */
    method SendChunks(op: OpWord, data: seq<Byte>, net: WsSender.Transport, at: nat) returns (failed: bool, ret: int)
      requires Valid()
      modifies this`log, txBuffer
      ensures var r := WsSender.SendExact(cfg.bufferSize, op, data, net);
              failed == r.failed && ret == r.ret && log == old(log) + SentEntries(r.frames, session, at)
    {
      assert cfg.bufferSize > 0;
      ghost var goal, was := WsSender.SendExact(cfg.bufferSize, op, data, net), log;
      ghost var sent: seq<Frame> := [];
      var opcode, widx, call := op, 0, 0;
      WsSender.SendStarts(cfg.bufferSize, op, data, net);
      SentEntriesOne([], Frame(false, 0, []), session, at);
      hide WsSender.SendExact, WsSender.SendsTo, SentEntries, WsSender.Accepted, WsSender.Min, WsSender.WriteFails,
        WsSender.ChunkOp;
      while widx < |data| || opcode.NonZero()
        invariant 0 <= widx <= |data|
        invariant WsSender.SendsTo(goal, cfg.bufferSize, opcode, op.fin, data, widx, call, net, sent)
        invariant log == was + SentEntries(sent, session, at)
        decreases |data| - widx, opcode.NonZero()
      {
        ghost var wlen, fails, frame := WsSender.SendsOn(goal, cfg.bufferSize, opcode, op.fin, data, widx, call, net,
                                                         sent);
        failed, ret := SendChunk(opcode, op.fin, data, widx, net(call), at);
        if failed {
          return;
        }
        SentEntriesOne(sent, frame, session, at);
        sent := sent + [frame];
        opcode, widx, call := ZERO_OP, widx + ret, call + 1;
      }
      WsSender.SendsDone(goal, cfg.bufferSize, opcode, op.fin, data, call, net, sent);
      return false, widx;
    }

    /** esp_websocket_client_send_with_exact_opcode. */
    method SendWithExactOpcode(op: OpWord, data: seq<Byte>, net: WsSender.Transport, at: nat) returns (ret: int)
      requires Valid()
      modifies this, txBuffer
      ensures Valid() && View() == WsSession.SendExact(cfg, old(View()), op, data, net, at)
      ensures ret == WsSender.SendExact(cfg.bufferSize, op, data, net).ret
    {
      var failed;
      failed, ret := SendChunks(op, data, net, at);
      hide WsSender.SendExact, Fail;
      if failed {
        ReportAndAbort(TcpTransport, at);
      }
    }

    /** esp_websocket_client_send_with_opcode, between taking and giving back the lock. */
    method SendWithOpcode(code: nat, data: seq<Byte>, net: WsSender.Transport, at: nat) returns (ret: int)
      requires Valid()
      modifies this, txBuffer
      ensures Valid() && View() == SendLocked(cfg, old(View()), code, data, net, at)
      ensures ret == if old(conn) != Connected || !cfg.hasTransport then -1
                     else WsSender.SendExact(cfg.bufferSize, OpWord(true, code), data, net).ret
      ensures old(conn) != Connected || !cfg.hasTransport ==> View() == old(View())
      ensures old(conn) == Connected && cfg.hasTransport && code in {TEXT, BINARY} ==>
                && (ret == |data| <==> conn == Connected)
                && (WsSender.Whole(net, cfg.bufferSize) ==> ret == |data|)
                && exists frames ::
                     && WsSends.OnWire(old(log), log, frames, code, data, old(session), at)
                     && (ret == |data| ==> Payload(frames) == data)
                     && (WsSender.Whole(net, cfg.bufferSize) ==> IsMessage(frames, code))
    {
      ghost var was := View();
      if conn != Connected || !cfg.hasTransport {
        return -1;
      }
      if code in {TEXT, BINARY} {
        WsSends.SendReturns(cfg, was, code, data, net, at);
      }
      hide SendExact, WsSends.OnWire, WsSender.Whole, IsMessage;
      ret := SendWithExactOpcode(OpWord(true, code), data, net, at);
    }

    // --- Receiving -------------------------------------------------------------------------------------

    /** The read loop. On success `last` bytes of the receive buffer hold the last piece. */
    method ReadFrame(replies: seq<WsReceiver.Read>) returns (status: WsReceiver.RecvStatus, last: nat)
      requires Valid() && ReadsFit(replies, cfg.bufferSize)
      requires WsReceiver.RecvLoop(replies, header, 0).status != WsReceiver.Blocked
      modifies this`header, this`payloadOffset, this`log, rxBuffer
      ensures var r := WsReceiver.RecvLoop(replies, old(header), 0);
              && status == r.status && header == r.header && payloadOffset == r.offset
              && log == old(log) + DataEntries(r.events)
              && (status == WsReceiver.Whole ==> last <= rxBuffer.Length && rxBuffer[..last] == LastPiece(r.events))
    {
      hide WsReceiver.RecvLoop, WsReceiver.PrependEvents, DataEntries;
      ghost var expected := WsReceiver.RecvLoop(replies, header, 0);
      ghost var got: seq<WsReceiver.DataEvent> := [];
      WsReceiver.RecvStart(replies, header);
      DataEntriesOne([], WsReceiver.DataEvent(0, header, []));
      payloadOffset := 0;
      last := 0;
      var i := 0;
      while true
        invariant 0 <= i <= |replies|
        invariant expected == WsReceiver.PrependEvents(got, WsReceiver.RecvLoop(replies[i..], header, payloadOffset))
        invariant log == old(log) + DataEntries(got)
        decreases |replies| - i
      {
        WsReceiver.RecvTurn(replies, i, header, payloadOffset, got);
        if replies[i].ReadFailed? {
          return WsReceiver.Broken, last;
        }
        last := TakePiece(replies[i]);
        if last == 0 && header.code == NONE {
          return WsReceiver.TimedOut, last;
        }
        ghost var event := WsReceiver.DataEvent(payloadOffset, header, replies[i].data);
        DataEntriesOne(got, event);
        got := got + [event];
        log := log + [Event(DataEvent(WsReceiver.DataEvent(payloadOffset, header, rxBuffer[..last])))];
        payloadOffset := payloadOffset + last;
        if payloadOffset >= header.payloadLen {
          return WsReceiver.Whole, last;
        }
        i := i + 1;
      }
    }

    /** esp_transport_read into the receive buffer, and the header it leaves. */
    method TakePiece(reply: WsReceiver.Read) returns (rlen: nat)
      requires reply.Got? && |reply.data| <= rxBuffer.Length
      modifies this`header, rxBuffer
      ensures header == reply.header && rlen == |reply.data| <= rxBuffer.Length && rxBuffer[..rlen] == reply.data
    {
      rlen := |reply.data|;
      forall k | 0 <= k < rlen {
        rxBuffer[k] := reply.data[k];
      }
      header := reply.header;
    }

    /** What esp_websocket_client_recv does with a whole frame. */
    method AnswerFrame(last: nat, at: nat)
      requires last <= rxBuffer.Length
      modifies this`log, this`waitForPong, this`conn
      ensures View() == Answer(old(View()), rxBuffer[..last], at)
    {
      if header.code == PING {
        var data := if header.payloadLen == 0 then [] else rxBuffer[..last];
        log := log + [Sent(Frame(true, PONG, data), session, at)];
      } else if header.code == PONG {
        waitForPong := false;
      } else if header.code == CLOSE {
        conn := Closing;
      }
    }

    /** esp_websocket_client_recv. */
    method Recv(replies: seq<WsReceiver.Read>, at: nat) returns (ok: bool)
      requires Valid() && ReadsFit(replies, cfg.bufferSize)
      requires WsReceiver.RecvLoop(replies, header, 0).status != WsReceiver.Blocked
      modifies this, rxBuffer
      ensures Valid() && View() == WsSession.Recv(old(View()), replies, at)
      ensures ok <==> WsReceiver.RecvLoop(replies, old(header), 0).status != WsReceiver.Broken
    {
      var status, last := ReadFrame(replies);
      hide WsReceiver.RecvLoop, DataEntries, Answer, LastPiece;
      if status == WsReceiver.Broken {
        Dispatch(ErrorEvent);
        return false;
      }
      if status == WsReceiver.Whole {
        AnswerFrame(last, at);
      }
      return true;
    }

    // --- The task ---------------------------------------------------------------------------------------

    method AnnounceAttempt(at: nat)
      modifies this`log
      ensures View() == Add(Add(old(View()), Event(BeforeConnectEvent)), Attempt(at))
    {
      Dispatch(BeforeConnectEvent);
      log := log + [Attempt(at)];
    }

    method EnterConnected()
      modifies this`conn, this`waitForPong, this`session, this`log
      ensures View() == old(View()).(conn := Connected, waitForPong := false, session := old(session) + 1,
                                     log := old(log) + [Event(ConnectedEvent)])
    {
      conn := Connected;
      waitForPong := false;
      session := session + 1;
      Dispatch(ConnectedEvent);
    }

    method SwitchInit(t: Readings, connect: int)
      modifies this
      ensures View() == WsSession.SwitchInit(cfg, old(View()), t, connect)
    {
      if !cfg.hasTransport {
        run := false;
        return;
      }
      AnnounceAttempt(t[0]);
      hide Fail, Add;
      if connect < 0 {
        ReportAndAbort(TcpTransport, t[1]);
        return;
      }
      EnterConnected();
    }

    method MaybePing(t: Readings)
      modifies this
      ensures View() == WsSession.MaybePing(cfg, old(View()), t)
    {
      hide Elapsed, PingIntervalMs;
      if Elapsed(t[0], pingTick) > PingIntervalMs(pingIntervalSec) {
        pingTick := t[1];
        log := log + [PingStamp(t[1], PingIntervalMs(pingIntervalSec))];
        log := log + [Sent(Frame(true, PING, []), session, t[2])];
        if !waitForPong && cfg.pingpongTimeoutSec != 0 {
          pingpongTick := t[2];
          waitForPong := true;
        }
      }
    }

    method Receive(t: Readings, replies: seq<WsReceiver.Read>)
      requires Valid() && ReadsFit(replies, cfg.bufferSize)
      requires WsReceiver.RecvLoop(replies, header, 0).status != WsReceiver.Blocked
      modifies this, rxBuffer
      ensures Valid() && View() == WsSession.Receive(cfg, old(View()), t, replies)
    {
      pingTick := t[4];
      var ok := Recv(replies, t[5]);
      hide WsSession.Recv, WsReceiver.RecvLoop, Abort;
      if !ok {
        AbortConnection(TcpTransport, t[5]);
      }
    }

    method SwitchConnected(t: Readings, replies: seq<WsReceiver.Read>)
      requires Valid() && ReadsFit(replies, cfg.bufferSize)
      requires readSelect != 0 ==> WsReceiver.RecvLoop(replies, header, 0).status != WsReceiver.Blocked
      modifies this, rxBuffer
      ensures Valid() && View() == WsSession.SwitchConnected(cfg, old(View()), t, replies)
    {
      ghost var entry := View();
      PingKeepsHeader(entry, cfg, t);
      hide WsSession.MaybePing, WsSession.Receive, Fail, WsReceiver.RecvLoop, Elapsed;
      if !closeFrameSent {
        MaybePing(t);
        if Elapsed(t[3], pingpongTick) > PongLimitMs(cfg) && waitForPong {
          ReportAndAbort(PongTimeout, t[4]);
          return;
        }
      }
      if readSelect == 0 {
        return;
      }
      Receive(t, replies);
    }

    method SwitchWait(t: Readings)
      modifies this
      ensures View() == WsSession.SwitchWait(cfg, old(View()), t)
    {
      if !cfg.autoReconnect {
        run := false;
      } else if Elapsed(t[0], reconnectTick) > cfg.waitTimeoutMs {
        conn := Init;
        reconnectTick := t[1];
      }
    }

    method SwitchClosing(t: Readings)
      modifies this
      ensures View() == WsSession.SwitchClosing(old(View()), t)
    {
      if !closeFrameSent {
        log := log + [Sent(Frame(true, CLOSE, []), session, t[0])];
        closeFrameSent := true;
      }
    }

    method SwitchOnState(t: Readings, connect: int, replies: seq<WsReceiver.Read>)
      requires Valid() && ReadsFit(replies, cfg.bufferSize) && !Blocks(View(), replies)
      modifies this, rxBuffer
      ensures Valid() && View() == Switch(cfg, old(View()), t, connect, replies)
    {
      hide WsSession.SwitchInit, WsSession.SwitchConnected, WsSession.SwitchWait, WsSession.SwitchClosing,
           WsReceiver.RecvLoop;
      match conn {
        case Init => SwitchInit(t, connect);
        case Connected => SwitchConnected(t, replies);
        case WaitTimeout => SwitchWait(t);
        case Closing => SwitchClosing(t);
        case Unknown =>
      }
    }

    /** The body of the task's loop that holds the lock. */
    method LockedSwitch(t: Readings, connect: int, replies: seq<WsReceiver.Read>)
      requires Valid() && ReadsFit(replies, cfg.bufferSize) && !Blocks(View(), replies)
      modifies this, rxBuffer
      ensures Valid() && View() == Switch(cfg, old(View()), t, connect, replies).(pc := Unlocked, now := t[5])
    {
      SwitchOnState(t, connect, replies);
      hide Switch;
      pc, now := Unlocked, t[5];
    }

    /** The rest of the loop's body, without the lock, up to the end of its poll. */
    method AfterUnlock(poll: int, closedPoll: int)
      modifies this
      ensures View() == WsSession.AfterUnlock(old(View()), poll, closedPoll)
    {
      pc := LoopTest;
      if conn == Connected {
        readSelect, polledSession, pc := poll, session, Polled;
      } else if conn == Closing && closeFrameSent {
        AwaitTcpClose(closedPoll);
      }
    }

    /** esp_transport_poll_connection_closed and what follows it. */
    method AwaitTcpClose(closedPoll: int)
      modifies this`pc, this`run, this`conn, this`log
      ensures View() == if closedPoll == 0 then old(View()).(pc := Leaving)
                        else old(View()).(run := false, conn := Unknown, pc := Leaving,
                                          log := old(View()).log + [Event(ClosedEvent)])
    {
      pc := Leaving;
      if closedPoll != 0 {
        run := false;
        conn := Unknown;
        Dispatch(ClosedEvent);
      }
    }

    // The abort that follows a failed poll, one step at a time because it runs without the lock.

    method CheckPoll()
      requires cfg.bufferSize > 0
      modifies this`pc, this`log
      ensures View() == Perform(cfg, old(View()), WsSession.CheckPoll)
    {
      hide Switch, WsSession.AfterUnlock, SendLocked;
      if readSelect < 0 {
        pc := AbortCheck;
        Dispatch(ErrorEvent);
      } else {
        pc := LoopTest;
      }
    }

    method BeginAbort()
      requires cfg.bufferSize > 0
      modifies this`pc
      ensures View() == Perform(cfg, old(View()), WsSession.BeginAbort)
    {
      hide Switch, WsSession.AfterUnlock, SendLocked;
      pc := if conn == Unknown then LoopTest else AbortStamp;
    }

    method StampAbort(at: nat)
      requires cfg.bufferSize > 0
      modifies this`pc, this`now, this`reconnectTick
      ensures View() == Perform(cfg, old(View()), WsSession.StampAbort(at))
    {
      hide Switch, WsSession.AfterUnlock, SendLocked;
      pc, now := AbortState, at;
      if cfg.autoReconnect {
        reconnectTick := at;
      }
    }

    method StateAbort()
      requires cfg.bufferSize > 0
      modifies this`pc, this`conn, this`log
      ensures View() == Perform(cfg, old(View()), WsSession.StateAbort)
    {
      hide Switch, WsSession.AfterUnlock, SendLocked;
      pc, conn := AbortEvent, WaitTimeout;
      log := log + [Aborted(TcpTransport, session, if cfg.autoReconnect then reconnectTick else now)];
    }

    method EventAbort()
      requires cfg.bufferSize > 0
      modifies this`pc, this`log
      ensures View() == Perform(cfg, old(View()), WsSession.EventAbort)
    {
      hide Switch, WsSession.AfterUnlock, SendLocked;
      pc := LoopTest;
      Dispatch(DisconnectedEvent);
    }

    /** The loop's test and end. */
    method LoopEdge(a: Action)
      requires Valid()
      requires a.TestRun? || a.Leave?
      modifies this`pc, this`stopped, this`conn
      ensures View() == Perform(cfg, old(View()), a)
    {
      hide Switch, WsSession.AfterUnlock, SendLocked;
      if a.TestRun? {
        pc := if run then Switching else Leaving;
      } else {
        pc, stopped, conn := Gone, true, Unknown;
      }
    }

    // The flags that other tasks set.

    /** The second half of a close. */
    method SetCloseBit()
      modifies this`closeFrameSent
      ensures View() == old(View()).(closeFrameSent := true)
    {
      closeFrameSent := true;
    }

    /** A stop, or the end of a close. */
    method ClearRun()
      modifies this`run
      ensures View() == old(View()).(run := false)
    {
      run := false;
    }

    /** The end of a start, after the task has been created. */
    method StartReturns()
      modifies this`started, this`closeFrameSent, this`stopped
      ensures View() == old(View()).(started := true, closeFrameSent := false, stopped := false)
    {
      started, closeFrameSent, stopped := true, false, false;
    }

    method SetPingInterval(sec: nat)
      modifies this`pingIntervalSec
      ensures View() == old(View()).(pingIntervalSec := if sec == 0 then DEFAULT_PING_INTERVAL_SEC else sec)
    {
      pingIntervalSec := if sec == 0 then DEFAULT_PING_INTERVAL_SEC else sec;
    }

    /** The end of a stop or close that saw STOPPED_BIT. */
    method ForceUnknown()
      modifies this`conn
      ensures View() == old(View()).(conn := Unknown)
    {
      conn := Unknown;
    }

    /** A step of another task. */
    method SendTask(code: nat, data: seq<Byte>, net: WsSender.Transport, at: nat)
      requires Valid()
      modifies this, txBuffer
      ensures Valid() && View() == Perform(cfg, old(View()), SendMessage(code, data, net, at))
    {
      hide Switch, WsSession.AfterUnlock, SendLocked;
      var ret := SendWithOpcode(code, data, net, at);
      now := at;
    }

    method FlagTask(a: Action)
      requires a.SetCloseBit? || a.ClearRun? || a.StartReturns? || a.SetPingInterval? || a.ForceUnknown?
      requires cfg.bufferSize > 0
      modifies this`closeFrameSent, this`run, this`started, this`stopped, this`pingIntervalSec, this`conn
      ensures View() == Perform(cfg, old(View()), a)
    {
      hide Switch, WsSession.AfterUnlock, SendLocked;
      match a {
        case SetCloseBit => SetCloseBit();
        case ClearRun => ClearRun();
        case StartReturns => StartReturns();
        case SetPingInterval(sec) => SetPingInterval(sec);
        case ForceUnknown => ForceUnknown();
      }
    }

    /** One scheduled step of the task or of another task. */
    method PerformStep(a: Action)
      requires Valid() && (a.RunSwitch? ==> ReadsFit(a.replies, cfg.bufferSize))
      modifies this, txBuffer, rxBuffer
      ensures Valid() && View() == Step(cfg, old(View()), a)
    {
      if !Enabled(View(), a) {
        return;
      }
      match a {
        case RunSwitch(t, connect, replies) =>
          hide Switch;
          LockedSwitch(t, connect, replies);
        case RunUnlocked(poll, closedPoll) =>
          hide WsSession.AfterUnlock;
          AfterUnlock(poll, closedPoll);
        case CheckPoll => hide Perform; CheckPoll();
        case BeginAbort => hide Perform; BeginAbort();
        case StampAbort(at) => hide Perform; StampAbort(at);
        case StateAbort => hide Perform; StateAbort();
        case EventAbort => hide Perform; EventAbort();
        case TestRun => hide Perform; LoopEdge(a);
        case Leave => hide Perform; LoopEdge(a);
        case SendMessage(code, data, net, at) => hide Perform; SendTask(code, data, net, at);
        case _ => hide Perform; FlagTask(a);
      }
    }

    /** Any schedule: the object goes where the state machine goes, so what WsSafety and WsClosing prove of
        every run holds of the object. */
    method Drive(actions: seq<Action>)
      requires Valid()
      requires forall i :: 0 <= i < |actions| && actions[i].RunSwitch? ==> ReadsFit(actions[i].replies, cfg.bufferSize)
      modifies this, txBuffer, rxBuffer
      ensures Valid() && View() == Run(cfg, old(View()), actions)
    {
      hide Step;
      var i := 0;
      assert actions[0..] == actions;
      while i < |actions|
        invariant Valid() && 0 <= i <= |actions|
        invariant Run(cfg, View(), actions[i..]) == Run(cfg, old(View()), actions)
      {
        assert actions[i..][0] == actions[i] && actions[i..][1..] == actions[i + 1..];
        PerformStep(actions[i]);
        i := i + 1;
      }
    }
  }

  lemma PingKeepsHeader(s: State, cfg: Config, t: Readings)
    ensures WsSession.MaybePing(cfg, s, t).header == s.header
    ensures WsSession.MaybePing(cfg, s, t).readSelect == s.readSelect
  {
  }

  /** The transport returns no more than it is asked for. */
  ghost predicate ReadsFit(replies: seq<WsReceiver.Read>, bufferSize: nat) {
    forall i :: 0 <= i < |replies| && replies[i].Got? ==> |replies[i].data| <= bufferSize
  }
}