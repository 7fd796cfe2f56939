/** The abort that runs without the lock, and exactly when it doubles a DISCONNECTED event. */
module WsRaces {
  import opened WsFrames
  import opened WsLog
  import opened WsSession
  import WsClosing
  import WsSafety
  import WsReceiver
  import WsSender

  // --- One DISCONNECTED per attempt ----------------------------------------------------------------------

  ghost predicate AttemptBetween(log: Log, i: int, k: int) {
    exists j :: 0 <= i < j < k <= |log| && log[j].Attempt?
  }

  /** From one connection attempt to the next there is at most one DISCONNECTED. */
  ghost predicate DisconnectsSeparated(log: Log) {
    forall i, k :: 0 <= i < k < |log| && log[i] == Event(DisconnectedEvent) && log[k] == Event(DisconnectedEvent) ==>
      AttemptBetween(log, i, k)
  }

  /** No DISCONNECTED since the latest attempt. */
  ghost predicate NoneSinceAttempt(log: Log) {
    forall i :: 0 <= i < |log| && log[i] == Event(DisconnectedEvent) ==> AttemptBetween(log, i, |log|)
  }

  ghost predicate Undisconnected(more: Log) {
    forall k :: 0 <= k < |more| ==> more[k] != Event(DisconnectedEvent)
  }

  lemma BetweenGrows(log: Log, more: Log, i: int, k: int)
    requires AttemptBetween(log, i, k)
    ensures forall n :: k <= n <= |log + more| ==> AttemptBetween(log + more, i, n)
  {
    var j :| 0 <= i < j < k <= |log| && log[j].Attempt?;
    assert (log + more)[j].Attempt?;
  }

  lemma UndisconnectedGrows(log: Log, more: Log)
    requires Undisconnected(more)
    ensures DisconnectsSeparated(log) ==> DisconnectsSeparated(log + more)
    ensures NoneSinceAttempt(log) ==> NoneSinceAttempt(log + more)
  {
    var all := log + more;
    if DisconnectsSeparated(log) {
      forall i, k | 0 <= i < k < |all| && all[i] == Event(DisconnectedEvent) && all[k] == Event(DisconnectedEvent)
        ensures AttemptBetween(all, i, k)
      {
        assert log[i] == Event(DisconnectedEvent) && log[k] == Event(DisconnectedEvent);
        BetweenGrows(log, more, i, k);
      }
    }
    if NoneSinceAttempt(log) {
      forall i | 0 <= i < |all| && all[i] == Event(DisconnectedEvent)
        ensures AttemptBetween(all, i, |all|)
      {
        assert log[i] == Event(DisconnectedEvent);
        BetweenGrows(log, more, i, |log|);
      }
    }
  }

  lemma AttemptClears(log: Log, e: Entry)
    requires e.Attempt?
    ensures NoneSinceAttempt(log + [e])
  {
    var all := log + [e];
    assert all[|log|].Attempt?;
  }

  /** A DISCONNECTED keeps them apart if and only if it is the first since the latest attempt. */
  lemma DisconnectIff(log: Log)
    requires DisconnectsSeparated(log)
    ensures DisconnectsSeparated(log + [Event(DisconnectedEvent)]) <==> NoneSinceAttempt(log)
  {
    var all := log + [Event(DisconnectedEvent)];
    assert all[|log|] == Event(DisconnectedEvent);
    if NoneSinceAttempt(log) {
      forall i, k | 0 <= i < k < |all| && all[i] == Event(DisconnectedEvent) && all[k] == Event(DisconnectedEvent)
        ensures AttemptBetween(all, i, k)
      {
        assert log[i] == Event(DisconnectedEvent);
        BetweenGrows(log, [Event(DisconnectedEvent)], i, if k == |log| then |log| else k);
      }
    }
    if DisconnectsSeparated(all) {
      forall i | 0 <= i < |log| && log[i] == Event(DisconnectedEvent)
        ensures AttemptBetween(log, i, |log|)
      {
        assert all[i] == Event(DisconnectedEvent) && AttemptBetween(all, i, |log|);
        AttemptsShrink(log, [Event(DisconnectedEvent)], i, |log|);
      }
    }
  }

  lemma AttemptsShrink(log: Log, more: Log, i: int, k: int)
    requires k <= |log| && AttemptBetween(log + more, i, k)
    ensures AttemptBetween(log, i, k)
  {
    var j :| 0 <= i < j < k <= |log + more| && (log + more)[j].Attempt?;
    assert log[j].Attempt?;
  }

  lemma DisconnectSpoils(log: Log)
    ensures !NoneSinceAttempt(log + [Event(DisconnectedEvent)])
  {
    var all := log + [Event(DisconnectedEvent)];
    assert all[|log|] == Event(DisconnectedEvent);
    assert !AttemptBetween(all, |log|, |all|);
  }

  /** Once doubled, a log stays doubled. */
  lemma DoubledGrows(log: Log, more: Log)
    requires DisconnectsSeparated(log + more)
    ensures DisconnectsSeparated(log)
  {
    var all := log + more;
    forall i, k | 0 <= i < k < |log| && log[i] == Event(DisconnectedEvent) && log[k] == Event(DisconnectedEvent)
      ensures AttemptBetween(log, i, k)
    {
      assert all[i] == Event(DisconnectedEvent) && all[k] == Event(DisconnectedEvent);
      AttemptsShrink(log, more, i, k);
    }
  }

  lemma UnattemptedGrows(log: Log, e: Entry)
    requires !NoneSinceAttempt(log) && !e.Attempt?
    ensures !NoneSinceAttempt(log + [e])
  {
    var all := log + [e];
    if NoneSinceAttempt(all) {
      forall i | 0 <= i < |log| && log[i] == Event(DisconnectedEvent)
        ensures AttemptBetween(log, i, |log|)
      {
        assert all[i] == Event(DisconnectedEvent);
        var j :| 0 <= i < j < |all| <= |all| && all[j].Attempt?;
        assert log[j].Attempt?;
      }
    }
  }

  // --- The window and the race ----------------------------------------------------------------------------

  /** The client task has a failed poll in hand and has not yet left CONNECTED for it. */
  predicate Aborting(s: State) {
    (s.pc == Polled && s.readSelect < 0) || s.pc == AbortCheck || s.pc == AbortStamp || s.pc == AbortState
  }

  /** The whole unlocked abort, up to its DISCONNECTED. */
  predicate InAbortWindow(s: State) {
    Aborting(s) || s.pc == AbortEvent
  }

  /** A failing send that overlaps the client task's abort; one that began earlier counts as falling within it. */
  predicate Races(cfg: Config, s: State, a: Action)
    requires cfg.bufferSize > 0
  {
    && a.SendMessage? && Enabled(s, a) && Aborting(s) && s.conn == Connected && cfg.hasTransport
    && WsSender.SendExact(cfg.bufferSize, OpWord(true, a.code), a.data, a.net).failed
  }

  ghost predicate RaceIn(cfg: Config, s: State, actions: seq<Action>)
    requires cfg.bufferSize > 0
    decreases |actions|
  {
    actions != [] && (Races(cfg, s, actions[0]) || RaceIn(cfg, Step(cfg, s, actions[0]), actions[1..]))
  }

  // --- Without a race ---------------------------------------------------------------------------------------

  ghost predicate Calm(s: State) {
    && DisconnectsSeparated(s.log)
    && (s.conn == Connected || s.pc == AbortEvent ==> NoneSinceAttempt(s.log))
    && (Aborting(s) ==> s.conn == Connected)
    && (s.pc == AbortEvent ==> s.conn == WaitTimeout)
  }

  lemma FailCalm(cfg: Config, s: State, why: AbortReason, at: nat)
    requires s.conn != Unknown && DisconnectsSeparated(s.log) && NoneSinceAttempt(s.log)
    ensures var after := Fail(cfg, s, why, at);
            && DisconnectsSeparated(after.log)
            && after.conn == WaitTimeout && after.pc == s.pc && after.readSelect == s.readSelect
  {
    var error, abort := Event(ErrorEvent), Aborted(why, s.session, at);
    UndisconnectedGrows(s.log, [error]);
    UndisconnectedGrows(s.log + [error], [abort]);
    DisconnectIff(s.log + [error] + [abort]);
    hide DisconnectsSeparated, NoneSinceAttempt;
  }

  lemma InitCalm(cfg: Config, s: State, t: Readings, connect: int)
    requires Calm(s) && s.conn == Init && s.pc == Switching
    ensures Calm(SwitchInit(cfg, s, t, connect).(pc := Unlocked, now := t[5]))
  {
    if cfg.hasTransport {
      var announced := Add(s, Event(BeforeConnectEvent));
      var trying := Add(announced, Attempt(t[0]));
      UndisconnectedGrows(s.log, [Event(BeforeConnectEvent)]);
      UndisconnectedGrows(announced.log, [Attempt(t[0])]);
      AttemptClears(announced.log, Attempt(t[0]));
      UndisconnectedGrows(trying.log, [Event(ConnectedEvent)]);
      hide DisconnectsSeparated, NoneSinceAttempt, Fail;
      FailCalm(cfg, trying, TcpTransport, t[1]);
    }
  }

  lemma AnswerCalm(s: State, echo: seq<Byte>, at: nat)
    requires s.conn == Connected && DisconnectsSeparated(s.log) && NoneSinceAttempt(s.log)
    ensures var after := Answer(s, echo, at);
            && DisconnectsSeparated(after.log) && NoneSinceAttempt(after.log)
            && (after.conn == Connected || after.conn == Closing)
  {
    UndisconnectedGrows(s.log, [Sent(Frame(true, PONG, if s.header.payloadLen == 0 then [] else echo), s.session, at)]);
    hide DisconnectsSeparated, NoneSinceAttempt;
    if s.header.code == PING {
    } else if s.header.code == PONG {
    } else if s.header.code == CLOSE {
    }
  }

  lemma ReceiveCalm(cfg: Config, s: State, t: Readings, replies: seq<WsReceiver.Read>)
    requires s.conn == Connected && DisconnectsSeparated(s.log) && NoneSinceAttempt(s.log)
    ensures var after := Receive(cfg, s, t, replies);
            DisconnectsSeparated(after.log) && (after.conn == Connected ==> NoneSinceAttempt(after.log))
  {
    var r := WsReceiver.RecvLoop(replies, s.header, 0);
    var read := s.(pingTick := t[4], header := r.header, payloadOffset := r.offset,
                   log := s.log + DataEntries(r.events));
    UndisconnectedGrows(s.log, DataEntries(r.events));
    hide DisconnectsSeparated, NoneSinceAttempt, Receive, WsReceiver.RecvLoop, Answer, Fail, DataEntries, LastPiece;
    WsSafety.ReceiveCases(cfg, s, t, replies);
    if r.status == WsReceiver.Broken {
      FailCalm(cfg, read, TcpTransport, t[5]);
    } else if r.status == WsReceiver.Whole {
      AnswerCalm(read, LastPiece(r.events), t[5]);
    } else {
      assert Receive(cfg, s, t, replies) == read;
    }
  }

  lemma PingCalm(cfg: Config, s: State, t: Readings)
    requires DisconnectsSeparated(s.log) && NoneSinceAttempt(s.log)
    ensures var p := MaybePing(cfg, s, t);
            DisconnectsSeparated(p.log) && NoneSinceAttempt(p.log) && p.conn == s.conn
  {
    var stamp := PingStamp(t[1], PingIntervalMs(s.pingIntervalSec));
    var ping := Sent(Frame(true, PING, []), s.session, t[2]);
    UndisconnectedGrows(s.log, [stamp]);
    UndisconnectedGrows(s.log + [stamp], [ping]);
    hide DisconnectsSeparated, NoneSinceAttempt, Elapsed;
  }

  lemma ConnectedCalm(cfg: Config, s: State, t: Readings, replies: seq<WsReceiver.Read>)
    requires Calm(s) && s.conn == Connected && s.pc == Switching
    ensures Calm(SwitchConnected(cfg, s, t, replies).(pc := Unlocked, now := t[5]))
  {
    hide DisconnectsSeparated, NoneSinceAttempt, MaybePing, Fail, Receive, PongOverdue;
    PingCalm(cfg, s, t);
    var p := if s.closeFrameSent then s else MaybePing(cfg, s, t);
    if !s.closeFrameSent && PongOverdue(cfg, p, t) {
      FailCalm(cfg, p, PongTimeout, t[4]);
    } else if s.readSelect != 0 {
      ReceiveCalm(cfg, p, t, replies);
    }
  }

  lemma SwitchCalm(cfg: Config, s: State, t: Readings, connect: int, replies: seq<WsReceiver.Read>)
    requires Calm(s) && s.pc == Switching
    ensures Calm(Switch(cfg, s, t, connect, replies).(pc := Unlocked, now := t[5]))
  {
    hide DisconnectsSeparated, NoneSinceAttempt, SwitchInit, SwitchConnected;
    match s.conn {
      case Init => InitCalm(cfg, s, t, connect);
      case Connected => ConnectedCalm(cfg, s, t, replies);
      case Closing => UndisconnectedGrows(s.log, [Sent(Frame(true, CLOSE, []), s.session, t[0])]);
      case _ =>
    }
  }

  lemma SendCalm(cfg: Config, s: State, a: Action)
    requires cfg.bufferSize > 0
    requires Calm(s) && a.SendMessage? && Enabled(s, a) && !Races(cfg, s, a)
    ensures Calm(SendLocked(cfg, s, a.code, a.data, a.net, a.at).(now := a.at))
  {
    hide WsSender.SendExact, Fail;
    if s.conn == Connected && cfg.hasTransport {
      var r := WsSender.SendExact(cfg.bufferSize, OpWord(true, a.code), a.data, a.net);
      var sent := s.(log := s.log + SentEntries(r.frames, s.session, a.at));
      UndisconnectedGrows(s.log, SentEntries(r.frames, s.session, a.at));
      hide DisconnectsSeparated, NoneSinceAttempt, SentEntries;
      FailCalm(cfg, sent, TcpTransport, a.at);
    }
  }

  lemma AbortCalm(cfg: Config, s: State, a: Action)
    requires cfg.bufferSize > 0
    requires Calm(s) && Enabled(s, a)
    requires a.CheckPoll? || a.BeginAbort? || a.StampAbort? || a.StateAbort? || a.EventAbort?
    ensures Calm(Perform(cfg, s, a))
  {
    hide DisconnectsSeparated, NoneSinceAttempt, Switch, AfterUnlock, SendLocked, AbortTime;
    match a {
      case CheckPoll => UndisconnectedGrows(s.log, [Event(ErrorEvent)]);
      case StateAbort => UndisconnectedGrows(s.log, [Aborted(TcpTransport, s.session, AbortTime(cfg, s))]);
      case EventAbort => DisconnectIff(s.log);
      case _ =>
    }
  }

  lemma UnlockCalm(s: State, poll: int, closedPoll: int)
    requires Calm(s) && s.pc == Unlocked
    ensures Calm(AfterUnlock(s, poll, closedPoll))
  {
    UndisconnectedGrows(s.log, [Event(ClosedEvent)]);
    hide DisconnectsSeparated, NoneSinceAttempt;
    if s.conn == Connected {
    } else if s.conn == WaitTimeout {
    } else if s.conn == Closing && s.closeFrameSent && closedPoll != 0 {
    }
  }

  lemma OthersCalm(cfg: Config, s: State, a: Action)
    requires cfg.bufferSize > 0
    requires Calm(s) && Enabled(s, a)
    requires a.TestRun? || a.Leave? || a.SetCloseBit? || a.ClearRun? || a.StartReturns? || a.SetPingInterval? ||
             a.ForceUnknown?
    ensures Calm(Perform(cfg, s, a))
  {
    hide DisconnectsSeparated, NoneSinceAttempt, Switch, AfterUnlock, SendLocked;
  }

  lemma CalmStep(cfg: Config, s: State, a: Action)
    requires cfg.bufferSize > 0
    requires Calm(s) && !Races(cfg, s, a)
    ensures Calm(Step(cfg, s, a))
  {
    hide Calm, Switch, SendLocked, AfterUnlock, Later, Blocks, Races;
    if Enabled(s, a) {
      match a {
        case RunSwitch(t, connect, replies) => SwitchCalm(cfg, s, t, connect, replies);
        case RunUnlocked(poll, closedPoll) => UnlockCalm(s, poll, closedPoll);
        case SendMessage(_, _, _, _) => SendCalm(cfg, s, a);
        case CheckPoll => AbortCalm(cfg, s, a);
        case BeginAbort => AbortCalm(cfg, s, a);
        case StampAbort(_) => AbortCalm(cfg, s, a);
        case StateAbort => AbortCalm(cfg, s, a);
        case EventAbort => AbortCalm(cfg, s, a);
        case _ => OthersCalm(cfg, s, a);
      }
    }
  }

  // --- With a race --------------------------------------------------------------------------------------------

  /** Doubled, or on the way to it: the send's abort is logged and the client task's own is still to come. */
  ghost predicate Doubling(s: State) {
    || !DisconnectsSeparated(s.log)
    || (InAbortWindow(s) && s.conn == WaitTimeout && !NoneSinceAttempt(s.log))
  }

  lemma RaceDoubles(cfg: Config, s: State, a: Action)
    requires cfg.bufferSize > 0
    requires Races(cfg, s, a)
    ensures Doubling(Step(cfg, s, a))
  {
    hide WsSender.SendExact, Later, Blocks, Switch, AfterUnlock;
    var r := WsSender.SendExact(cfg.bufferSize, OpWord(true, a.code), a.data, a.net);
    var sent := s.(log := s.log + SentEntries(r.frames, s.session, a.at));
    DisconnectSpoils(sent.log + [Event(ErrorEvent)] + [Aborted(TcpTransport, s.session, a.at)]);
    hide DisconnectsSeparated, NoneSinceAttempt, SentEntries;
    assert SendLocked(cfg, s, a.code, a.data, a.net, a.at) == Fail(cfg, sent, TcpTransport, a.at);
  }

  lemma DoublingStep(cfg: Config, s: State, a: Action)
    requires cfg.bufferSize > 0
    requires Doubling(s)
    ensures Doubling(Step(cfg, s, a))
  {
    hide DisconnectsSeparated, NoneSinceAttempt;
    if !DisconnectsSeparated(s.log) {
      var more := WsSafety.StepGrows(cfg, s, a);
      hide Step;
      if DisconnectsSeparated(Step(cfg, s, a).log) {
        DoubledGrows(s.log, more);
      }
    } else {
      DoublingInWindow(cfg, s, a);
    }
  }

  lemma AbortGoesOn(cfg: Config, s: State, a: Action)
    requires cfg.bufferSize > 0
    requires InAbortWindow(s) && s.conn == WaitTimeout && !NoneSinceAttempt(s.log) && DisconnectsSeparated(s.log)
    requires Enabled(s, a)
    requires a.CheckPoll? || a.BeginAbort? || a.StampAbort? || a.StateAbort? || a.EventAbort?
    ensures Doubling(Perform(cfg, s, a))
  {
    UnattemptedGrows(s.log, Event(ErrorEvent));
    UnattemptedGrows(s.log, Aborted(TcpTransport, s.session, AbortTime(cfg, s)));
    DisconnectIff(s.log);
    hide DisconnectsSeparated, NoneSinceAttempt, Switch, AfterUnlock, Later, Blocks, SendLocked;
  }

  lemma OthersWait(cfg: Config, s: State, a: Action)
    requires cfg.bufferSize > 0
    requires InAbortWindow(s) && s.conn == WaitTimeout && !NoneSinceAttempt(s.log) && Enabled(s, a)
    requires !(a.CheckPoll? || a.BeginAbort? || a.StampAbort? || a.StateAbort? || a.EventAbort?)
    ensures Doubling(Perform(cfg, s, a))
  {
    hide DisconnectsSeparated, NoneSinceAttempt, Switch, AfterUnlock, Later, Blocks, SendLocked;
    if a.SendMessage? {
      WsClosing.SendIdle(cfg, s, a);
    }
  }

  lemma DoublingInWindow(cfg: Config, s: State, a: Action)
    requires cfg.bufferSize > 0
    requires InAbortWindow(s) && s.conn == WaitTimeout && !NoneSinceAttempt(s.log) && DisconnectsSeparated(s.log)
    ensures Doubling(Step(cfg, s, a))
  {
    hide Perform, Enabled, Doubling;
    if !Enabled(s, a) {
      assert Doubling(s) by {
        WindowDoubles(s);
      }
    } else if a.CheckPoll? || a.BeginAbort? || a.StampAbort? || a.StateAbort? || a.EventAbort? {
      AbortGoesOn(cfg, s, a);
    } else {
      OthersWait(cfg, s, a);
    }
  }

  lemma WindowDoubles(s: State)
    requires InAbortWindow(s) && s.conn == WaitTimeout && !NoneSinceAttempt(s.log)
    ensures Doubling(s)
  {
    hide DisconnectsSeparated, NoneSinceAttempt;
  }

  lemma {:induction false} DoublingRun(cfg: Config, s: State, actions: seq<Action>)
    requires cfg.bufferSize > 0
    requires Doubling(s)
    ensures Doubling(Run(cfg, s, actions))
    decreases |actions|
  {
    hide Doubling, Step;
    if actions != [] {
      DoublingStep(cfg, s, actions[0]);
      DoublingRun(cfg, Step(cfg, s, actions[0]), actions[1..]);
    }
  }

  lemma {:induction false} CalmUnlessRace(cfg: Config, s: State, actions: seq<Action>)
    requires cfg.bufferSize > 0
    requires Calm(s)
    ensures if RaceIn(cfg, s, actions) then Doubling(Run(cfg, s, actions)) else Calm(Run(cfg, s, actions))
    decreases |actions|
  {
    hide Calm, Doubling, Step, Races;
    if actions != [] {
      var next := Step(cfg, s, actions[0]);
      if Races(cfg, s, actions[0]) {
        RaceDoubles(cfg, s, actions[0]);
        DoublingRun(cfg, next, actions[1..]);
      } else {
        CalmStep(cfg, s, actions[0]);
        CalmUnlessRace(cfg, next, actions[1..]);
      }
    }
  }

  /** Main result: in every run, each connection attempt is followed by at most one DISCONNECTED unless a failing send
      overlapped the unlocked abort; and once that abort is over, if and only if none did. */
  lemma OneDisconnectIffNoRace(cfg: Config, s: State, actions: seq<Action>)
    requires cfg.bufferSize > 0
    requires Entering(cfg, s)
    ensures var end := Run(cfg, s, actions);
            && (!RaceIn(cfg, s, actions) ==> DisconnectsSeparated(end.log))
            && (!InAbortWindow(end) ==> (DisconnectsSeparated(end.log) <==> !RaceIn(cfg, s, actions)))
  {
    assert Calm(s);
    hide RaceIn, Run, DisconnectsSeparated, NoneSinceAttempt;
    CalmUnlessRace(cfg, s, actions);
  }

  // --- The race happens -----------------------------------------------------------------------------------------

  /** The abort that runs without the lock can race a failing send of another task: two DISCONNECTED events
      for one connection. */
  lemma RacingAborts(cfg: Config, s: State, net: WsSender.Transport)
    requires cfg.bufferSize > 0 && cfg.hasTransport
    requires s.conn == Connected && s.pc == Polled && s.readSelect < 0
    requires net(0) < 0
    ensures var raced := Run(cfg, s, [CheckPoll, BeginAbort, SendMessage(TEXT, [], net, s.now)]);
            var end := Run(cfg, raced, [StampAbort(s.now), StateAbort, EventAbort]);
            && end.session == s.session && end.pc == LoopTest
            && WsClosing.Since(s, end) ==
                 [Event(ErrorEvent), Event(ErrorEvent), Aborted(TcpTransport, s.session, s.now),
                                 Event(DisconnectedEvent), Aborted(TcpTransport, s.session, s.now),
                                 Event(DisconnectedEvent)]
  {
    hide Step, Run, Fail;
    RunThree(cfg, s, CheckPoll, BeginAbort, SendMessage(TEXT, [], net, s.now));
    var s1 := Add(s.(pc := AbortCheck), Event(ErrorEvent));
    var s2 := s1.(pc := AbortStamp);
    RaceBegins(cfg, s);
    RaceSend(cfg, s2, net);
    var s3 := Fail(cfg, s2, TcpTransport, s.now);
    WsSafety.FailCases(cfg, s2, TcpTransport, s.now);
    RacingAbortEnds(cfg, s3);
    assert s3.log == s.log + [Event(ErrorEvent)] + [Event(ErrorEvent)] + [Aborted(TcpTransport, s.session, s.now)]
                           + [Event(DisconnectedEvent)];
  }

  lemma RaceBegins(cfg: Config, s: State)
    requires cfg.bufferSize > 0
    requires s.conn == Connected && s.pc == Polled && s.readSelect < 0
    ensures var s1 := Add(s.(pc := AbortCheck), Event(ErrorEvent));
            Step(cfg, s, CheckPoll) == s1 && Step(cfg, s1, BeginAbort) == s1.(pc := AbortStamp)
  {
    hide Switch, AfterUnlock, SendLocked, Fail;
  }

  lemma RaceSend(cfg: Config, s: State, net: WsSender.Transport)
    requires cfg.bufferSize > 0 && cfg.hasTransport && s.conn == Connected && s.pc == AbortStamp && net(0) < 0
    ensures Step(cfg, s, SendMessage(TEXT, [], net, s.now)) == Fail(cfg, s, TcpTransport, s.now)
  {
    hide Switch, AfterUnlock, Fail;
    assert WsSender.SendExact(cfg.bufferSize, OpWord(true, TEXT), [], net) == WsSender.SendResult([], true, net(0), 1);
    assert s.log + SentEntries([], s.session, s.now) == s.log;
    WsSafety.FailCases(cfg, s, TcpTransport, s.now);
  }

  lemma RacingAbortEnds(cfg: Config, s: State)
    requires cfg.bufferSize > 0 && s.pc == AbortStamp
    ensures var end := Run(cfg, s, [StampAbort(s.now), StateAbort, EventAbort]);
            && end.session == s.session && end.pc == LoopTest
            && end.log == s.log + [Aborted(TcpTransport, s.session, s.now)] + [Event(DisconnectedEvent)]
  {
    hide Switch, AfterUnlock, SendLocked;
    RunThree(cfg, s, StampAbort(s.now), StateAbort, EventAbort);
  }

  /** From the loop's entry: connected, with a poll that failed. */
  lemma PollFails(cfg: Config, s: State, t: Readings)
    requires cfg.bufferSize > 0
    requires Entering(cfg, s) && s.run && t == [s.now, s.now, s.now, s.now, s.now, s.now] && s.now <= CLOCK_LIMIT
    ensures var polled := Run(cfg, s, [TestRun, RunSwitch(t, 0, []), RunUnlocked(-1, 0)]);
            && polled.conn == Connected && polled.pc == Polled && polled.readSelect == -1 && polled.now == s.now
  {
    hide SwitchConnected, SwitchWait, SwitchClosing, SendLocked, WsReceiver.RecvLoop;
    RunThree(cfg, s, TestRun, RunSwitch(t, 0, []), RunUnlocked(-1, 0));
    hide Run;
    var s1 := s.(pc := Switching);
    assert Step(cfg, s, TestRun) == s1;
    var s2 := Step(cfg, s1, RunSwitch(t, 0, []));
    assert s2.conn == Connected && s2.pc == Unlocked && s2.now == s.now;
  }

  lemma RaceDoublesLog(cfg: Config, s: State, net: WsSender.Transport)
    requires cfg.bufferSize > 0 && cfg.hasTransport
    requires s.conn == Connected && s.pc == Polled && s.readSelect < 0
    requires net(0) < 0
    ensures var raced := Run(cfg, s, [CheckPoll, BeginAbort, SendMessage(TEXT, [], net, s.now)]);
            var end := Run(cfg, raced, [StampAbort(s.now), StateAbort, EventAbort]);
            !InAbortWindow(end) && !DisconnectsSeparated(end.log)
  {
    hide Run, DisconnectsSeparated, InAbortWindow, WsClosing.Since;
    RacingAborts(cfg, s, net);
    var raced := Run(cfg, s, [CheckPoll, BeginAbort, SendMessage(TEXT, [], net, s.now)]);
    DoubledTail(s, Run(cfg, raced, [StampAbort(s.now), StateAbort, EventAbort]));
  }

  /** Two DISCONNECTED events for one attempt occur in some run of every client that enters its loop. */
  lemma RaceReached(cfg: Config, s: State)
    requires cfg.bufferSize > 0
    requires Entering(cfg, s) && s.run && s.now <= CLOCK_LIMIT
    ensures exists actions :: !InAbortWindow(Run(cfg, s, actions)) && !DisconnectsSeparated(Run(cfg, s, actions).log)
  {
    hide Run, DisconnectsSeparated, InAbortWindow;
    var t: Readings := [s.now, s.now, s.now, s.now, s.now, s.now];
    var net: WsSender.Transport := _ => -1;
    var a := [TestRun, RunSwitch(t, 0, []), RunUnlocked(-1, 0)];
    PollFails(cfg, s, t);
    var polled := Run(cfg, s, a);
    var b := [CheckPoll, BeginAbort, SendMessage(TEXT, [], net, polled.now)];
    var c := [StampAbort(polled.now), StateAbort, EventAbort];
    RaceDoublesLog(cfg, polled, net);
    hide *;
    RunAppend(cfg, s, a, b);
    RunAppend(cfg, s, a + b, c);
    var end := Run(cfg, s, a + b + c);
    assert !InAbortWindow(end) && !DisconnectsSeparated(end.log);
  }

  lemma DoubledTail(start: State, end: State)
    requires var tail := WsClosing.Since(start, end);
             |tail| == 6 && tail[3] == Event(DisconnectedEvent) && tail[4].Aborted? &&
             tail[5] == Event(DisconnectedEvent)
    requires end.pc == LoopTest
    ensures !InAbortWindow(end) && !DisconnectsSeparated(end.log)
  {
    var n := |start.log|;
    assert end.log[n + 3] == Event(DisconnectedEvent) && end.log[n + 4].Aborted? &&
           end.log[n + 5] == Event(DisconnectedEvent);
    assert !AttemptBetween(end.log, n + 3, n + 5);
  }
}
