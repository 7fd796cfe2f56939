/** What the flags that other tasks set mean for the rest of every run: the close bit ends the PINGs, and a
    cleared `run` ends the task. */
module WsFlags {
  import opened WsFrames
  import opened WsLog
  import opened WsSession
  import WsClosing
  import WsReceiver
  import WsSafety
  import WsSender

  lemma BitStays(cfg: Config, s: State, a: Action)
    requires cfg.bufferSize > 0
    requires s.started && s.closeFrameSent
    ensures Step(cfg, s, a).started && Step(cfg, s, a).closeFrameSent
  {
    hide Later, Blocks, Switch, SendLocked, AfterUnlock;
    if a.RunSwitch? {
      SwitchKeepsFlags(cfg, s, a);
    } else if a.SendMessage? {
      SendKeepsFlags(cfg, s, a);
    } else if a.RunUnlocked? {
      UnlockKeepsFlags(s, a.poll, a.closedPoll);
    }
  }

  /** The flags and settings are the same. */
  predicate SameFlags(s: State, after: State) {
    && after.started == s.started && after.closeFrameSent == s.closeFrameSent && after.run == s.run
    && after.stopped == s.stopped && after.pingIntervalSec == s.pingIntervalSec
  }

  lemma UnlockKeepsFlags(s: State, poll: int, closedPoll: int)
    ensures var after := AfterUnlock(s, poll, closedPoll);
            && SameFlags(s, after.(run := s.run)) && (!s.run ==> !after.run)
            && after.pc != Switching && after.pc != Gone
  {
  }

  /** The switch keeps them but for the close bit, which it may set, and `run`, which it clears for want of a transport
      and for a lost connection that is not to be made again. */
  lemma SwitchKeepsFlags(cfg: Config, s: State, a: Action)
    requires a.RunSwitch?
    ensures var after := Switch(cfg, s, a.t, a.connect, a.replies);
            && SameFlags(s, after.(run := s.run, closeFrameSent := s.closeFrameSent))
            && (s.closeFrameSent ==> after.closeFrameSent)
            && (after.run <==>
                  && s.run
                  && !(s.conn == Init && !cfg.hasTransport)
                  && !(s.conn == WaitTimeout && !cfg.autoReconnect))
  {
    hide SwitchConnected, Elapsed, Fail;
    if s.conn == Connected {
      ConnectedKeepsFlags(cfg, s, a.t, a.replies);
    } else if s.conn == Init {
      WsSafety.FailCases(cfg, Add(Add(s, Event(BeforeConnectEvent)), Attempt(a.t[0])), TcpTransport, a.t[1]);
    }
  }

  lemma ConnectedKeepsFlags(cfg: Config, s: State, t: Readings, replies: seq<WsReceiver.Read>)
    ensures SameFlags(s, SwitchConnected(cfg, s, t, replies))
  {
    hide MaybePing, Receive, Fail, PongOverdue;
    var p := if s.closeFrameSent then s else MaybePing(cfg, s, t);
    PingKeepsFlags(cfg, s, t);
    WsSafety.FailCases(cfg, p, PongTimeout, t[4]);
    ReceiveKeepsFlags(cfg, p, t, replies);
  }

  lemma PingKeepsFlags(cfg: Config, s: State, t: Readings)
    ensures SameFlags(s, MaybePing(cfg, s, t))
  {
    hide Elapsed;
  }

  lemma ReceiveKeepsFlags(cfg: Config, s: State, t: Readings, replies: seq<WsReceiver.Read>)
    ensures SameFlags(s, Receive(cfg, s, t, replies))
  {
    hide Receive, Fail, Answer, WsReceiver.RecvLoop, LastPiece, DataEntries;
    var r := WsReceiver.RecvLoop(replies, s.header, 0);
    var read := s.(pingTick := t[4], header := r.header, payloadOffset := r.offset,
                   log := s.log + DataEntries(r.events));
    WsSafety.ReceiveCases(cfg, s, t, replies);
    WsSafety.FailCases(cfg, read, TcpTransport, t[5]);
    WsSafety.AnswerCases(read, LastPiece(r.events), t[5]);
  }

  lemma SendKeepsFlags(cfg: Config, s: State, a: Action)
    requires cfg.bufferSize > 0 && a.SendMessage?
    ensures var after := SendLocked(cfg, s, a.code, a.data, a.net, a.at);
            SameFlags(s, after) && after.pc == s.pc
  {
    hide Fail, WsSender.SendExact, SentEntries;
    var r := WsSender.SendExact(cfg.bufferSize, OpWord(true, a.code), a.data, a.net);
    WsSafety.FailCases(cfg, s.(log := s.log + SentEntries(r.frames, s.session, a.at)), TcpTransport, a.at);
  }

  /** Main result: once a started client has set the close bit, no run from there on sends a PING of the task's or
      aborts for want of a PONG. */
  lemma {:induction false} CloseBitStopsPings(cfg: Config, s: State, actions: seq<Action>) returns (more: Log)
    requires cfg.bufferSize > 0
    requires s.started && s.closeFrameSent
    ensures Run(cfg, s, actions).log == s.log + more && WsSafety.Pingless(more)
    decreases |actions|
  {
    hide Step;
    if actions == [] {
      more := [];
      assert s.log + [] == s.log;
    } else {
      var first := WsSafety.StepGrows(cfg, s, actions[0]);
      BitStays(cfg, s, actions[0]);
      var rest := CloseBitStopsPings(cfg, Step(cfg, s, actions[0]), actions[1..]);
      more := first + rest;
      assert s.log + first + rest == s.log + more;
    }
  }

  /** Where a stopped client can be: the switch it has committed to is the only one left. */
  lemma StoppedStep(cfg: Config, s: State, a: Action)
    requires cfg.bufferSize > 0
    requires !s.run
    ensures var next := Step(cfg, s, a);
            !next.run && (next.pc == Switching ==> s.pc == Switching && !(a.RunSwitch? && Enabled(s, a)))
  {
    hide Later, Blocks, Switch, SendLocked;
    if Enabled(s, a) {
      if a.RunSwitch? {
        SwitchKeepsFlags(cfg, s, a);
      } else if a.SendMessage? {
        SendKeepsFlags(cfg, s, a);
      }
    }
  }

  /** Main result: once `run` is cleared it stays so, and in every run the locked switch runs at most once more, and
      only if the task had already committed to it; so at most one more connection attempt is made. */
  lemma {:induction false} StopEnds(cfg: Config, s: State, actions: seq<Action>)
    requires cfg.bufferSize > 0
    requires !s.run
    ensures !Run(cfg, s, actions).run
    ensures WsClosing.SwitchesRun(cfg, s, actions) <= if s.pc == Switching then 1 else 0
    decreases |actions|
  {
    hide Step;
    if actions != [] {
      var a := actions[0];
      StoppedStep(cfg, s, a);
      assert a.RunSwitch? && Enabled(s, a) ==> s.pc == Switching;
      hide Enabled;
      StopEnds(cfg, Step(cfg, s, a), actions[1..]);
    }
  }

  // --- The flags set by other tasks ---------------------------------------------------------------------------

  /** Setting the close bit of a started client ends its PINGs, in every run from there on. */
  lemma CloseTakesEffect(cfg: Config, s: State, actions: seq<Action>) returns (more: Log)
    requires cfg.bufferSize > 0 && s.started
    ensures Run(cfg, Step(cfg, s, SetCloseBit), actions).log == s.log + more && WsSafety.Pingless(more)
  {
    var closing := s.(closeFrameSent := true);
    assert Step(cfg, s, SetCloseBit) == closing by {
      hide Switch, AfterUnlock, SendLocked;
    }
    hide Step, Run;
    more := CloseBitStopsPings(cfg, closing, actions);
  }

  /** Clearing `run` allows one more turn at most, in every run from there on; and a client task that then reaches the
      loop's test leaves the loop, sets STOPPED_BIT and is UNKNOWN. */
  lemma StopTakesEffect(cfg: Config, s: State, actions: seq<Action>)
    requires cfg.bufferSize > 0
    ensures var stopping := Step(cfg, s, ClearRun);
            var end := Run(cfg, stopping, actions);
            && !end.run
            && WsClosing.SwitchesRun(cfg, stopping, actions) <= (if s.pc == Switching then 1 else 0)
            && (end.pc == LoopTest ==>
                  var left := Step(cfg, Step(cfg, end, TestRun), Leave);
                  left.pc == Gone && left.stopped && left.conn == Unknown && left.log == end.log)
  {
    var stopping := s.(run := false);
    assert Step(cfg, s, ClearRun) == stopping by {
      hide Switch, AfterUnlock, SendLocked;
    }
    hide Step, Run;
    StopEnds(cfg, stopping, actions);
    if Run(cfg, stopping, actions).pc == LoopTest {
      LeavesLoop(cfg, Run(cfg, stopping, actions));
    }
  }

  lemma LeavesLoop(cfg: Config, s: State)
    requires cfg.bufferSize > 0 && s.pc == LoopTest && !s.run
    ensures Step(cfg, Step(cfg, s, TestRun), Leave) == s.(pc := Gone, stopped := true, conn := Unknown)
  {
    hide Switch, AfterUnlock, SendLocked;
  }

  // --- STOPPED_BIT -----------------------------------------------------------------------------------------------

  /** esp_websocket_client_start clears the bits only after the client task is gone again. */
  ghost predicate LateStartIn(cfg: Config, s: State, actions: seq<Action>)
    requires cfg.bufferSize > 0
    decreases |actions|
  {
    actions != [] &&
    ((actions[0].StartReturns? && Enabled(s, actions[0]) && s.pc == Gone)
     || LateStartIn(cfg, Step(cfg, s, actions[0]), actions[1..]))
  }

  /** What a step does to STOPPED_BIT and to the task's being gone. */
  lemma StoppedBitStep(cfg: Config, s: State, a: Action)
    requires cfg.bufferSize > 0
    ensures var next := Step(cfg, s, a);
            && (s.pc == Gone ==> next.pc == Gone)
            && (next.pc == Gone && s.pc != Gone ==> next.stopped)
            && (next.pc != Gone && next.stopped ==> s.stopped)
            && (s.pc == Gone ==> next.stopped == (s.stopped && !(a.StartReturns? && Enabled(s, a))))
            && (s.started ==> next.started)
            && (a.StartReturns? && Enabled(s, a) ==> next.started)
  {
    hide Later, Blocks, Switch, SendLocked, AfterUnlock;
    if a.RunSwitch? {
      SwitchKeepsFlags(cfg, s, a);
    } else if a.SendMessage? {
      SendKeepsFlags(cfg, s, a);
    } else if a.RunUnlocked? {
      UnlockKeepsFlags(s, a.poll, a.closedPoll);
    } else {
      hide AbortTime;
    }
  }

  lemma {:induction false} StaysGone(cfg: Config, s: State, actions: seq<Action>)
    requires cfg.bufferSize > 0 && s.pc == Gone
    ensures var end := Run(cfg, s, actions);
            end.pc == Gone && (end.stopped <==> s.stopped && !LateStartIn(cfg, s, actions))
    decreases |actions|
  {
    hide Step, Enabled;
    if actions != [] {
      StoppedBitStep(cfg, s, actions[0]);
      StaysGone(cfg, Step(cfg, s, actions[0]), actions[1..]);
    }
  }

  /** Main result: in every run STOPPED_BIT, which a stop or close waits for, stands exactly while the client task is
      gone, unless esp_websocket_client_start returned after that and cleared it. */
  lemma {:induction false} StoppedIff(cfg: Config, s: State, actions: seq<Action>)
    requires cfg.bufferSize > 0 && !s.stopped && s.pc != Gone
    ensures var end := Run(cfg, s, actions);
            end.stopped <==> end.pc == Gone && !LateStartIn(cfg, s, actions)
    decreases |actions|
  {
    hide Step, Enabled;
    if actions != [] {
      var next := Step(cfg, s, actions[0]);
      StoppedBitStep(cfg, s, actions[0]);
      if next.pc == Gone {
        StaysGone(cfg, next, actions[1..]);
      } else {
        StoppedIff(cfg, next, actions[1..]);
      }
    }
  }
}
