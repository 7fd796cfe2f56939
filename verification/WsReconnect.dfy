/** When the session engine connects again: the wait, measured from the last abort on record. */
module WsReconnect {
  import opened WsFrames
  import opened WsLog
  import opened WsSession
  import WsReceiver
  import WsSafety
  import WsSender

  /** The time of the latest abort; -1 before the first. */
  function LastAbortAt(log: Log): int {
    if log == [] then -1
    else
      var e := log[|log| - 1];
      if e.Aborted? then e.at else LastAbortAt(log[..|log| - 1])
  }

  lemma LastAbortOne(log: Log, e: Entry)
    ensures LastAbortAt(log + [e]) == if e.Aborted? then e.at else LastAbortAt(log)
  {
    assert (log + [e])[..|log + [e]| - 1] == log;
  }

  /** While the client waits, the stamp the wait is measured from is the latest abort's; except that the unlocked
      abort takes its stamp one step before it is on record. */
  ghost predicate Stamped(cfg: Config, s: State) {
    cfg.autoReconnect && s.conn == WaitTimeout && s.pc != AbortState ==> LastAbortAt(s.log) == s.reconnectTick
  }

  lemma FailStamped(cfg: Config, s: State, why: AbortReason, at: nat)
    requires s.conn != Unknown
    ensures var after := Fail(cfg, s, why, at);
            LastAbortAt(after.log) == at && (cfg.autoReconnect ==> after.reconnectTick == at)
  {
    hide LastAbortAt;
    var abort := Aborted(why, s.session, at);
    LastAbortOne(s.log + [Event(ErrorEvent)], abort);
    LastAbortOne(s.log + [Event(ErrorEvent)] + [abort], Event(DisconnectedEvent));
  }

  lemma ReceiveStamped(cfg: Config, s: State, t: Readings, replies: seq<WsReceiver.Read>)
    requires s.conn == Connected
    ensures var after := Receive(cfg, s, t, replies);
            cfg.autoReconnect && after.conn == WaitTimeout ==> LastAbortAt(after.log) == after.reconnectTick
  {
    hide Receive, WsReceiver.RecvLoop, Answer, Fail, DataEntries, LastPiece, LastAbortAt;
    var r := WsReceiver.RecvLoop(replies, s.header, 0);
    var read := s.(pingTick := t[4], header := r.header, payloadOffset := r.offset,
                   log := s.log + DataEntries(r.events));
    WsSafety.ReceiveCases(cfg, s, t, replies);
    if r.status == WsReceiver.Broken {
      FailStamped(cfg, read, TcpTransport, t[5]);
    } else if r.status == WsReceiver.Whole {
      WsSafety.AnswerCases(read, LastPiece(r.events), t[5]);
    } else {
      assert Receive(cfg, s, t, replies) == read;
    }
  }

  lemma ConnectedStamped(cfg: Config, s: State, t: Readings, replies: seq<WsReceiver.Read>)
    requires s.conn == Connected
    ensures var after := SwitchConnected(cfg, s, t, replies);
            cfg.autoReconnect && after.conn == WaitTimeout ==> LastAbortAt(after.log) == after.reconnectTick
  {
    hide Receive, Fail, MaybePing, PongOverdue, LastAbortAt;
    var p := if s.closeFrameSent then s else MaybePing(cfg, s, t);
    WsSafety.PingFrame(cfg, s, t);
    if !s.closeFrameSent && PongOverdue(cfg, p, t) {
      FailStamped(cfg, p, PongTimeout, t[4]);
    } else if s.readSelect != 0 {
      ReceiveStamped(cfg, p, t, replies);
    }
  }

  lemma InitStamped(cfg: Config, s: State, t: Readings, connect: int)
    requires s.conn == Init
    ensures var after := SwitchInit(cfg, s, t, connect);
            cfg.autoReconnect && after.conn == WaitTimeout ==> LastAbortAt(after.log) == after.reconnectTick
  {
    hide Fail, LastAbortAt;
    FailStamped(cfg, Add(Add(s, Event(BeforeConnectEvent)), Attempt(t[0])), TcpTransport, t[1]);
  }

  lemma SwitchStamped(cfg: Config, s: State, t: Readings, connect: int, replies: seq<WsReceiver.Read>)
    requires Stamped(cfg, s) && s.pc == Switching
    ensures Stamped(cfg, Switch(cfg, s, t, connect, replies).(pc := Unlocked, now := t[5]))
  {
    hide SwitchInit, SwitchConnected, LastAbortAt;
    match s.conn {
      case Init => InitStamped(cfg, s, t, connect);
      case Connected => ConnectedStamped(cfg, s, t, replies);
      case _ =>
    }
  }

  lemma SendStamped(cfg: Config, s: State, code: nat, data: seq<Byte>, net: WsSender.Transport, at: nat)
    requires cfg.bufferSize > 0 && Stamped(cfg, s)
    ensures Stamped(cfg, SendLocked(cfg, s, code, data, net, at).(now := at))
  {
    hide WsSender.SendExact, Fail, SentEntries, LastAbortAt;
    if s.conn == Connected && cfg.hasTransport {
      var r := WsSender.SendExact(cfg.bufferSize, OpWord(true, code), data, net);
      var sent := s.(log := s.log + SentEntries(r.frames, s.session, at));
      FailStamped(cfg, sent, TcpTransport, at);
    }
  }

  lemma AbortStamped(cfg: Config, s: State, a: Action)
    requires cfg.bufferSize > 0 && WsSafety.Shape(s) && Stamped(cfg, s) && Enabled(s, a)
    requires !a.RunSwitch? && !a.SendMessage?
    ensures Stamped(cfg, Perform(cfg, s, a))
  {
    hide LastAbortAt, Switch, SendLocked, AbortTime;
    match a {
      case CheckPoll => LastAbortOne(s.log, Event(ErrorEvent));
      case StateAbort => StateStamped(cfg, s);
      case EventAbort => LastAbortOne(s.log, Event(DisconnectedEvent));
      case _ => hide Stamped;
        OthersStamped(cfg, s, a);
    }
  }

  lemma StateStamped(cfg: Config, s: State)
    requires cfg.bufferSize > 0
    ensures Stamped(cfg, Perform(cfg, s, StateAbort))
  {
    hide LastAbortAt, Switch, SendLocked, AfterUnlock;
    LastAbortOne(s.log, Aborted(TcpTransport, s.session, AbortTime(cfg, s)));
  }

  lemma OthersStamped(cfg: Config, s: State, a: Action)
    requires cfg.bufferSize > 0 && Stamped(cfg, s) && Enabled(s, a)
    requires !a.RunSwitch? && !a.SendMessage? && !a.CheckPoll? && !a.StateAbort? && !a.EventAbort?
    ensures Stamped(cfg, Perform(cfg, s, a))
  {
    hide LastAbortAt, Switch, SendLocked;
  }

  lemma StepStamped(cfg: Config, s: State, a: Action)
    requires cfg.bufferSize > 0 && WsSafety.Shape(s) && Stamped(cfg, s)
    ensures Stamped(cfg, Step(cfg, s, a))
  {
    hide Stamped, Switch, SendLocked, Later, Blocks;
    if Enabled(s, a) {
      match a {
        case RunSwitch(t, connect, replies) => SwitchStamped(cfg, s, t, connect, replies);
        case SendMessage(code, data, net, at) => SendStamped(cfg, s, code, data, net, at);
        case _ =>
          hide *;
          AbortStamped(cfg, s, a);
      }
    }
  }

  lemma {:induction false} RunStamped(cfg: Config, s: State, actions: seq<Action>)
    requires cfg.bufferSize > 0 && WsSafety.Inv(cfg, s) && Stamped(cfg, s)
    ensures Stamped(cfg, Run(cfg, s, actions))
    decreases |actions|
  {
    hide Step, Stamped;
    if actions != [] {
      StepStamped(cfg, s, actions[0]);
      WsSafety.StepKeeps(cfg, s, actions[0]);
      RunStamped(cfg, Step(cfg, s, actions[0]), actions[1..]);
    }
  }

  // --- When INIT is entered again ----------------------------------------------------------------------------

  /** Where a step can enter INIT from. */
  ghost predicate ReconnectsInOrder(cfg: Config, s: State, next: State) {
    s.conn != Init && next.conn == Init ==>
      && s.conn == WaitTimeout && s.pc == Switching && cfg.autoReconnect
      && AttemptsSettled(s.log) && ConnectionsSettled(s.log)
      && LastAbortAt(s.log) >= 0 && next.now > LastAbortAt(s.log) + cfg.waitTimeoutMs
  }

  lemma ReconnectStep(cfg: Config, s: State, a: Action)
    requires cfg.bufferSize > 0
    requires WsSafety.Inv(cfg, s) && Stamped(cfg, s)
    ensures ReconnectsInOrder(cfg, s, Step(cfg, s, a))
  {
    hide LogInv, ConnectionsSettled, AttemptsSettled, UnansweredPing, AttemptTimes, PongLimitMs, Spaced,
         SwitchInit, SwitchConnected, SwitchClosing, LastAbortAt;
    if s.conn != Init && Step(cfg, s, a).conn == Init {
      WsSafety.EntersInitOrClosing(cfg, s, a);
      WsSafety.ElapsedExact(a.t[0], s.reconnectTick);
    }
  }

  /** Main result: in every schedule INIT is entered again only from the wait state, with every earlier connection
      and attempt ended, more than wait_timeout_ms after the latest abort on record. */
  lemma OnlyWaitReconnects(cfg: Config, start: State, actions: seq<Action>, a: Action)
    requires cfg.bufferSize > 0
    requires Entering(cfg, start)
    ensures var s := Run(cfg, start, actions);
            ReconnectsInOrder(cfg, s, Step(cfg, s, a))
  {
    hide *;
    EntersStamped(cfg, start);
    WsSafety.EnteringInv(cfg, start);
    WsSafety.RunKeeps(cfg, start, actions);
    RunStamped(cfg, start, actions);
    ReconnectStep(cfg, Run(cfg, start, actions), a);
  }

  lemma EntersStamped(cfg: Config, s: State)
    requires Entering(cfg, s)
    ensures Stamped(cfg, s)
  {
  }
}
