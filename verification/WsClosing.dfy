/** The close handshake: what can still happen once a CLOSE frame has been received, in every schedule. */
module WsClosing {
  import opened WsFrames
  import opened WsLog
  import opened WsSession
  import WsSafety
  import WsReceiver

  /** The number of times the locked switch runs. */
  ghost function SwitchesRun(cfg: Config, s: State, actions: seq<Action>): nat
    requires cfg.bufferSize > 0
    decreases |actions|
  {
    if actions == [] then 0
    else
      (if actions[0].RunSwitch? && Enabled(s, actions[0]) then 1 else 0)
      + SwitchesRun(cfg, Step(cfg, s, actions[0]), actions[1..])
  }

  predicate IsEcho(e: Entry) {
    e.Sent? && e.frame == Frame(true, CLOSE, [])
  }

  /** At most `most` CLOSE echoes and nothing else. */
  predicate OnlyEchoes(tail: Log, most: nat) {
    |tail| <= most && forall i :: 0 <= i < |tail| ==> IsEcho(tail[i])
  }

  /** At most `most` CLOSE echoes, then at most one CLOSED. */
  predicate ClosingTail(tail: Log, most: nat) {
    || OnlyEchoes(tail, most)
    || (tail != [] && tail[|tail| - 1] == Event(ClosedEvent) && OnlyEchoes(tail[..|tail| - 1], most))
  }

  predicate NothingSent(tail: Log) {
    forall i :: 0 <= i < |tail| ==> !tail[i].Sent?
  }

  /** The guard under which one echo is the most: esp_websocket_client_start has returned, or its late
      clearing of the bits cannot come between two echoes. */
  predicate EchoGuard(s: State) {
    s.started || s.closeFrameSent || !s.run
  }

  /** How many echoes a schedule can hold from the receipt of a CLOSE on. */
  function MostEchoes(s: State): nat {
    if EchoGuard(s) then 1 else 2
  }

  /** The states reachable after the receipt when the switch can run `most` times, with the tail they leave and how
      often the switch has run. The last time it runs the client has been started, so the close bit it leaves set is
      never cleared again. */
  ghost predicate Phase(s: State, tail: Log, switches: nat, most: nat, quiet: bool) {
    && (quiet ==> s.started && s.closeFrameSent && switches == 0 && NothingSent(tail))
    && match s.pc
       case Unlocked =>
         && s.conn == Closing && OnlyEchoes(tail, switches) && switches <= most
         && (switches + 1 == most ==> EchoGuard(s))
         && (switches == most ==> s.started && s.closeFrameSent)
       case LoopTest =>
         && s.conn == Closing && OnlyEchoes(tail, switches) && switches < most && !quiet
         && (switches + 1 == most ==> s.started || !s.run)
       case Switching =>
         && s.conn == Closing && OnlyEchoes(tail, switches) && switches < most && !quiet
         && (switches + 1 == most ==> s.started)
       case Leaving => (s.conn == Closing || s.conn == Unknown) && ClosingTail(tail, most) && switches <= most
       case Gone => s.conn == Unknown && ClosingTail(tail, most) && switches <= most
       case _ => false
  }

  lemma OneMoreEcho(tail: Log, most: nat, e: Entry)
    requires OnlyEchoes(tail, most)
    ensures OnlyEchoes(tail, most + 1)
    ensures IsEcho(e) ==> OnlyEchoes(tail + [e], most + 1)
  {
  }

  lemma PhaseSwitch(cfg: Config, s: State, t: Readings, tail: Log, switches: nat, most: nat, quiet: bool)
    requires Phase(s, tail, switches, most, quiet) && s.pc == Switching
    ensures var after := SwitchClosing(s, t).(pc := Unlocked, now := t[5]);
            var more := if s.closeFrameSent then [] else [Sent(Frame(true, CLOSE, []), s.session, t[0])];
            after.log == s.log + more && Phase(after, tail + more, switches + 1, most, quiet)
  {
    var echo := Sent(Frame(true, CLOSE, []), s.session, t[0]);
    assert IsEcho(echo);
    OneMoreEcho(tail, switches, echo);
    assert tail + [] == tail && s.log + [] == s.log;
    hide OnlyEchoes, NothingSent, IsEcho;
  }

  lemma TailEnds(tail: Log, switches: nat, most: nat)
    requires OnlyEchoes(tail, switches) && switches <= most
    ensures ClosingTail(tail, most) && ClosingTail(tail + [Event(ClosedEvent)], most)
    ensures NothingSent(tail) ==> NothingSent(tail + [Event(ClosedEvent)])
  {
    var more := tail + [Event(ClosedEvent)];
    assert more[..|more| - 1] == tail;
    hide IsEcho;
  }

  lemma PhaseUnlocked(s: State, poll: int, closedPoll: int, tail: Log, switches: nat, most: nat, quiet: bool)
    requires Phase(s, tail, switches, most, quiet) && s.pc == Unlocked
    ensures var after := AfterUnlock(s, poll, closedPoll);
            var more := if s.closeFrameSent && closedPoll != 0 then [Event(ClosedEvent)] else [];
            after.log == s.log + more && Phase(after, tail + more, switches, most, quiet)
  {
    hide OnlyEchoes, ClosingTail, NothingSent;
    TailEnds(tail, switches, most);
    assert tail + [] == tail && s.log + [] == s.log;
  }

  lemma PhaseOther(cfg: Config, s: State, a: Action, tail: Log, switches: nat, most: nat, quiet: bool)
    requires cfg.bufferSize > 0
    requires Phase(s, tail, switches, most, quiet) && Enabled(s, a)
    requires !a.RunSwitch? && !a.RunUnlocked?
    ensures Perform(cfg, s, a).log == s.log && Phase(Perform(cfg, s, a), tail, switches, most, quiet)
  {
    hide NothingSent, OnlyEchoes, ClosingTail, Switch, AfterUnlock, SendLocked, Later, Blocks;
    if a.SendMessage? {
      SendIdle(cfg, s, a);
    } else if a.TestRun? {
      TailEnds(tail, switches, most);
    }
  }

  /** A send while the client is not connected does nothing. */
  lemma SendIdle(cfg: Config, s: State, a: Action)
    requires cfg.bufferSize > 0 && a.SendMessage? && s.conn != Connected
    ensures SendLocked(cfg, s, a.code, a.data, a.net, a.at) == s
  {
  }

  predicate HasEcho(tail: Log) {
    exists i :: 0 <= i < |tail| && IsEcho(tail[i])
  }

  predicate HasClosed(tail: Log) {
    Event(ClosedEvent) in tail
  }

  /** The poll for the server's TCP close is answered with anything but a timeout. */
  predicate Finishes(s: State, a: Action) {
    a.RunUnlocked? && Enabled(s, a) && s.conn == Closing && s.closeFrameSent && a.closedPoll != 0
  }

  /** The switch runs with the close bit clear. */
  predicate Echoes(s: State, a: Action) {
    a.RunSwitch? && Enabled(s, a) && s.conn == Closing && !s.closeFrameSent
  }

  ghost predicate FinishIn(cfg: Config, s: State, actions: seq<Action>)
    requires cfg.bufferSize > 0
    decreases |actions|
  {
    actions != [] && (Finishes(s, actions[0]) || FinishIn(cfg, Step(cfg, s, actions[0]), actions[1..]))
  }

  ghost predicate EchoIn(cfg: Config, s: State, actions: seq<Action>)
    requires cfg.bufferSize > 0
    decreases |actions|
  {
    actions != [] && (Echoes(s, actions[0]) || EchoIn(cfg, Step(cfg, s, actions[0]), actions[1..]))
  }

  lemma HasBoth(a: Log, b: Log)
    ensures HasEcho(a + b) <==> HasEcho(a) || HasEcho(b)
    ensures HasClosed(a + b) <==> HasClosed(a) || HasClosed(b)
  {
    var all := a + b;
    if HasEcho(a) {
      var i :| 0 <= i < |a| && IsEcho(a[i]);
      assert IsEcho(all[i]);
    }
    if HasEcho(b) {
      var i :| 0 <= i < |b| && IsEcho(b[i]);
      assert IsEcho(all[|a| + i]);
    }
  }

  lemma PhaseIsClosing(s: State, tail: Log, switches: nat, most: nat, quiet: bool)
    requires Phase(s, tail, switches, most, quiet)
    ensures s.pc == Unlocked || s.pc == Switching ==> s.conn == Closing
  {
    hide OnlyEchoes, ClosingTail, NothingSent;
  }

  lemma SwitchStep(cfg: Config, s: State, a: Action)
    requires cfg.bufferSize > 0 && a.RunSwitch? && Enabled(s, a) && s.conn == Closing
    ensures Step(cfg, s, a) == SwitchClosing(s, a.t).(pc := Unlocked, now := a.t[5])
  {
    hide SwitchInit, SwitchConnected, SwitchWait, SwitchClosing;
  }

  lemma UnlockStep(cfg: Config, s: State, a: Action)
    requires cfg.bufferSize > 0 && a.RunUnlocked? && Enabled(s, a)
    ensures Step(cfg, s, a) == AfterUnlock(s, a.poll, a.closedPoll)
  {
    hide AfterUnlock;
  }

  /** One step stays within the phases. */
  lemma PhaseStep(cfg: Config, s: State, a: Action, tail: Log, switches: nat, most: nat, quiet: bool)
    returns (more: Log)
    requires cfg.bufferSize > 0
    requires Phase(s, tail, switches, most, quiet)
    ensures Step(cfg, s, a).log == s.log + more
    ensures HasClosed(more) <==> Finishes(s, a)
    ensures HasEcho(more) <==> Echoes(s, a)
    ensures Phase(Step(cfg, s, a), tail + more, switches + (if a.RunSwitch? && Enabled(s, a) then 1 else 0), most,
                  quiet)
  {
    hide Phase, Later, Blocks, Switch, SwitchClosing, AfterUnlock, Perform;
    PhaseIsClosing(s, tail, switches, most, quiet);
    more := [];
    assert tail + [] == tail && s.log + [] == s.log;
    if Enabled(s, a) {
      if a.RunSwitch? {
        SwitchStep(cfg, s, a);
        PhaseSwitch(cfg, s, a.t, tail, switches, most, quiet);
        if !s.closeFrameSent {
          more := [Sent(Frame(true, CLOSE, []), s.session, a.t[0])];
          assert IsEcho(more[0]);
        }
      } else if a.RunUnlocked? {
        UnlockStep(cfg, s, a);
        PhaseUnlocked(s, a.poll, a.closedPoll, tail, switches, most, quiet);
        more := if s.closeFrameSent && a.closedPoll != 0 then [Event(ClosedEvent)] else [];
      } else {
        PhaseOther(cfg, s, a, tail, switches, most, quiet);
      }
    }
  }

  lemma {:induction false} PhaseRun(cfg: Config, s: State, actions: seq<Action>, tail: Log, switches: nat, most: nat,
                                    quiet: bool)
    returns (more: Log)
    requires cfg.bufferSize > 0
    requires Phase(s, tail, switches, most, quiet)
    ensures Run(cfg, s, actions).log == s.log + more
    ensures HasClosed(more) <==> FinishIn(cfg, s, actions)
    ensures HasEcho(more) <==> EchoIn(cfg, s, actions)
    ensures Phase(Run(cfg, s, actions), tail + more, switches + SwitchesRun(cfg, s, actions), most, quiet)
    decreases |actions|
  {
    hide Phase, Step, Enabled, Finishes, Echoes;
    if actions == [] {
      more := [];
      assert tail + [] == tail && s.log + [] == s.log;
    } else {
      hide HasClosed, HasEcho;
      var first := PhaseStep(cfg, s, actions[0], tail, switches, most, quiet);
      var n := switches + if actions[0].RunSwitch? && Enabled(s, actions[0]) then 1 else 0;
      var rest := PhaseRun(cfg, Step(cfg, s, actions[0]), actions[1..], tail + first, n, most, quiet);
      more := first + rest;
      HasBoth(first, rest);
      assert tail + first + rest == tail + more && s.log + first + rest == s.log + more;
    }
  }

  /** A CLOSE frame has just been processed by the receiver. */
  ghost predicate CloseReceived(s: State) {
    s.conn == Closing && s.pc == Unlocked
  }

  /** CLOSING is entered only by the receiver, on the last bytes of a CLOSE frame. */
  lemma ClosingMeansCloseArrived(cfg: Config, s: State, a: Action)
    requires cfg.bufferSize > 0
    requires s.conn != Closing && Step(cfg, s, a).conn == Closing
    ensures CloseReceived(Step(cfg, s, a))
    ensures var log := Step(cfg, s, a).log;
            log != [] && Completes(log[|log| - 1], CLOSE)
  {
    hide Step;
    WsSafety.EntersInitOrClosing(cfg, s, a);
  }

  /** What was logged between two states of a run. */
  function Since(start: State, end: State): Log {
    if |start.log| <= |end.log| then end.log[|start.log|..] else []
  }

  /** Main result: in every schedule from the receipt of a CLOSE on, the log grows by CLOSE echoes, one at most, or two
      when the guard fails, and then at most one CLOSED. So there is no reconnection and no other frame, and the switch
      runs at most as often; if a started client had already sent its CLOSE, it runs no more and nothing is sent. An
      echo is sent if and only if the switch runs with the bit clear, and CLOSED is dispatched if and only if the poll
      for the server's TCP close ends otherwise than by its timeout. */
  lemma AfterClose(cfg: Config, s: State, actions: seq<Action>)
    requires cfg.bufferSize > 0
    requires CloseReceived(s)
    ensures var end := Run(cfg, s, actions);
            var tail := Since(s, end);
            && end.log == s.log + tail
            && ClosingTail(tail, MostEchoes(s))
            && (HasClosed(tail) <==> FinishIn(cfg, s, actions))
            && (HasEcho(tail) <==> EchoIn(cfg, s, actions))
            && (end.conn == Closing || end.conn == Unknown)
            && SwitchesRun(cfg, s, actions) <= MostEchoes(s)
            && (s.started && s.closeFrameSent ==> NothingSent(tail) && SwitchesRun(cfg, s, actions) == 0)
  {
    hide Phase, Run, SwitchesRun, ClosingTail, NothingSent, HasClosed, HasEcho, FinishIn, EchoIn;
    PhaseStart(s);
    hide MostEchoes, CloseReceived;
    var most, quiet := MostEchoes(s), s.started && s.closeFrameSent;
    var more := PhaseRun(cfg, s, actions, [], 0, most, quiet);
    assert [] + more == more;
    PhaseEnd(Run(cfg, s, actions), more, SwitchesRun(cfg, s, actions), most, quiet);
    assert (s.log + more)[|s.log|..] == more;
  }

  lemma PhaseStart(s: State)
    requires CloseReceived(s)
    ensures Phase(s, [], 0, MostEchoes(s), s.started && s.closeFrameSent)
  {
  }

  lemma PhaseEnd(end: State, tail: Log, switches: nat, most: nat, quiet: bool)
    requires Phase(end, tail, switches, most, quiet)
    ensures ClosingTail(tail, most) && (end.conn == Closing || end.conn == Unknown) && switches <= most
    ensures quiet ==> NothingSent(tail) && switches == 0
  {
    if end.pc == Unlocked || end.pc == LoopTest || end.pc == Switching {
      TailEnds(tail, switches, most);
    }
    hide ClosingTail, OnlyEchoes, NothingSent;
  }

  function EchoCount(tail: Log): nat {
    if tail == [] then 0 else (if IsEcho(tail[0]) then 1 else 0) + EchoCount(tail[1..])
  }

  lemma {:induction false} EchoesCounted(tail: Log)
    ensures EchoCount(tail) <= |tail|
    ensures tail != [] && !IsEcho(tail[|tail| - 1]) ==> EchoCount(tail) < |tail|
  {
    if tail != [] {
      EchoesCounted(tail[1..]);
    }
  }

  lemma FewEchoes(tail: Log, most: nat)
    requires ClosingTail(tail, most)
    ensures EchoCount(tail) <= most
  {
    EchoesCounted(tail);
  }

  /** The schedule on which esp_websocket_client_start, having created the task, clears the bits late:
      the task echoes the CLOSE twice. */
  function LateStart(t: Readings): seq<Action> {
    [RunUnlocked(0, 0), TestRun, RunSwitch(t, 0, []), StartReturns, RunUnlocked(0, 0), TestRun, RunSwitch(t, 0, [])]
  }

  lemma TwoEchoes(cfg: Config, s: State, t: Readings)
    requires cfg.bufferSize > 0
    requires CloseReceived(s) && !EchoGuard(s)
    requires t == [s.now, s.now, s.now, s.now, s.now, s.now] && s.now <= CLOCK_LIMIT
    ensures EchoCount(Since(s, Run(cfg, s, LateStart(t)))) == 2
  {
    var echo := Sent(Frame(true, CLOSE, []), s.session, s.now);
    var a := LateStart(t);
    var s3 := s.(pc := Unlocked, closeFrameSent := true, log := s.log + [echo]);
    var s4 := s3.(started := true, closeFrameSent := false, stopped := false);
    var s7 := s4.(closeFrameSent := true, log := s.log + [echo] + [echo]);
    EchoRound(cfg, s, t, 0);
    EchoRound(cfg, s4, t, 0);
    assert Step(cfg, s3, StartReturns) == s4;
    hide Step, Run, SwitchClosing, EchoCount;
    RunSeven(cfg, s, a);
    assert Run(cfg, s, a) == s7;
    EchoPair(s, s7, echo);
  }

  lemma EchoPair(s: State, end: State, echo: Entry)
    requires IsEcho(echo) && end.log == s.log + [echo] + [echo]
    ensures EchoCount(Since(s, end)) == 2
  {
    var tail := end.log[|s.log|..];
    assert tail[0] == echo && tail[1..] == [echo] && tail[1..][1..] == [];
    assert EchoCount(tail[1..]) == 1;
  }

  /** From CLOSING with the bit clear: once round the loop to the echo. */
  lemma EchoRound(cfg: Config, s: State, t: Readings, poll: int)
    requires cfg.bufferSize > 0
    requires CloseReceived(s) && !s.closeFrameSent && s.run && Later(s.now, t) && t[5] == s.now
    ensures Step(cfg, Step(cfg, Step(cfg, s, RunUnlocked(poll, 0)), TestRun), RunSwitch(t, 0, [])) ==
              s.(closeFrameSent := true, log := s.log + [Sent(Frame(true, CLOSE, []), s.session, t[0])])
  {
    hide SwitchInit, SwitchConnected, SwitchWait;
    assert Step(cfg, s, RunUnlocked(poll, 0)) == s.(pc := LoopTest);
    assert Step(cfg, s.(pc := LoopTest), TestRun) == s.(pc := Switching);
  }

  lemma RunSeven(cfg: Config, s: State, a: seq<Action>)
    requires cfg.bufferSize > 0 && |a| == 7
    ensures Run(cfg, s, a) ==
              Step(cfg, Step(cfg, Step(cfg, Step(cfg, Step(cfg, Step(cfg, Step(cfg, s, a[0]), a[1]), a[2]), a[3]),
                a[4]), a[5]), a[6])
  {
    hide Step;
    var s1 := Step(cfg, s, a[0]);
    var s2 := Step(cfg, s1, a[1]);
    var s3 := Step(cfg, s2, a[2]);
    var s4 := Step(cfg, s3, a[3]);
    var s5 := Step(cfg, s4, a[4]);
    var s6 := Step(cfg, s5, a[5]);
    assert Run(cfg, s, a) == Run(cfg, s1, a[1..]);
    assert a[1..][1..] == a[2..] && Run(cfg, s1, a[1..]) == Run(cfg, s2, a[2..]);
    assert a[2..][1..] == a[3..] && Run(cfg, s2, a[2..]) == Run(cfg, s3, a[3..]);
    assert a[3..][1..] == a[4..] && Run(cfg, s3, a[3..]) == Run(cfg, s4, a[4..]);
    assert a[4..][1..] == a[5..] && Run(cfg, s4, a[4..]) == Run(cfg, s5, a[5..]);
    assert a[5..][1..] == a[6..] && Run(cfg, s5, a[5..]) == Run(cfg, s6, a[6..]);
    assert a[6..][1..] == [] && Run(cfg, s6, a[6..]) == Step(cfg, s6, a[6]);
  }

  /** A schedule from the loop's entry to the receipt of a CLOSE. */
  function EarlyClose(t: Readings): seq<Action> {
    [TestRun, RunSwitch(t, 0, []), RunUnlocked(1, 0)]
    + [CheckPoll, TestRun, RunSwitch(t, 0, [WsReceiver.Got([], WsReceiver.Header(true, CLOSE, 0))])]
  }

  lemma PollSucceeds(cfg: Config, s: State, t: Readings)
    requires cfg.bufferSize > 0
    requires Entering(cfg, s) && s.run && t == [s.now, s.now, s.now, s.now, s.now, s.now] && s.now <= CLOCK_LIMIT
    ensures var polled := Run(cfg, s, [TestRun, RunSwitch(t, 0, []), RunUnlocked(1, 0)]);
            && polled.conn == Connected && polled.pc == Polled && polled.readSelect == 1 && polled.now == s.now
            && !polled.waitForPong && !polled.closeFrameSent && polled.run && polled.started == s.started
  {
    hide SwitchConnected, SwitchWait, SwitchClosing, SendLocked, WsReceiver.RecvLoop;
    RunThree(cfg, s, TestRun, RunSwitch(t, 0, []), RunUnlocked(1, 0));
    hide Run;
    var s1 := s.(pc := Switching);
    assert Step(cfg, s, TestRun) == s1;
    var s2 := Step(cfg, s1, RunSwitch(t, 0, []));
    assert s2.conn == Connected && s2.pc == Unlocked && s2.now == s.now;
  }

  lemma CloseIsRead(header: WsReceiver.Header)
    ensures var close := WsReceiver.Header(true, CLOSE, 0);
            WsReceiver.RecvLoop([WsReceiver.Got([], close)], header, 0) ==
              WsReceiver.RecvResult([WsReceiver.DataEvent(0, close, [])], WsReceiver.Whole, close, 0)
  {
  }

  lemma CloseIsReceived(cfg: Config, s: State, t: Readings)
    requires s.conn == Connected && !s.waitForPong && !s.closeFrameSent && s.readSelect != 0
    requires t[2] == t[3] && t[3] <= CLOCK_LIMIT
    ensures var after := SwitchConnected(cfg, s, t, [WsReceiver.Got([], WsReceiver.Header(true, CLOSE, 0))]);
            after.conn == Closing && after.closeFrameSent == s.closeFrameSent && after.run == s.run &&
            after.started == s.started
  {
    var p := MaybePing(cfg, s, t);
    assert p.waitForPong ==> Elapsed(t[3], p.pingpongTick) == 0;
    CloseIsRead(p.header);
    hide MaybePing, WsReceiver.RecvLoop, Fail;
    var replies := [WsReceiver.Got([], WsReceiver.Header(true, CLOSE, 0))];
    var close := WsReceiver.Header(true, CLOSE, 0);
    WsSafety.ReceiveCases(cfg, p, t, replies);
    hide Receive;
  }

  /** The guard can fail: a server's CLOSE can be received before esp_websocket_client_start has returned. */
  lemma EarlyCloseReached(cfg: Config, s: State, t: Readings)
    requires cfg.bufferSize > 0
    requires Entering(cfg, s) && s.run && !s.started
    requires t == [s.now, s.now, s.now, s.now, s.now, s.now] && s.now <= CLOCK_LIMIT
    ensures var reached := Run(cfg, s, EarlyClose(t));
            CloseReceived(reached) && !EchoGuard(reached) && reached.now == s.now
  {
    var close := [WsReceiver.Got([], WsReceiver.Header(true, CLOSE, 0))];
    var a := [TestRun, RunSwitch(t, 0, []), RunUnlocked(1, 0)];
    var p := Run(cfg, s, a);
    PollSucceeds(cfg, s, t);
    RunAppend(cfg, s, a, [CheckPoll, TestRun, RunSwitch(t, 0, close)]);
    RunThree(cfg, p, CheckPoll, TestRun, RunSwitch(t, 0, close));
    CloseStep(cfg, p, t);
  }

  lemma CloseStep(cfg: Config, p: State, t: Readings)
    requires cfg.bufferSize > 0
    requires p.conn == Connected && p.pc == Polled && p.readSelect == 1 && !p.waitForPong && !p.closeFrameSent && p.run
    requires t == [p.now, p.now, p.now, p.now, p.now, p.now] && p.now <= CLOCK_LIMIT
    ensures var close := [WsReceiver.Got([], WsReceiver.Header(true, CLOSE, 0))];
            var after := Step(cfg, Step(cfg, Step(cfg, p, CheckPoll), TestRun), RunSwitch(t, 0, close));
            CloseReceived(after) && !after.closeFrameSent && after.run && after.started == p.started &&
            after.now == p.now
  {
    hide SwitchInit, SwitchConnected, SwitchWait, SwitchClosing, SendLocked, AfterUnlock, WsReceiver.RecvLoop;
    var p1, p2 := p.(pc := LoopTest), p.(pc := Switching);
    assert Step(cfg, p, CheckPoll) == p1;
    assert Step(cfg, p1, TestRun) == p2;
    CloseIsRead(p.header);
    CloseIsReceived(cfg, p2, t);
  }

  /** So two echoes occur in some run of every client whose start has not returned when its task enters the loop. */
  lemma TwoEchoesReached(cfg: Config, s: State)
    requires cfg.bufferSize > 0
    requires Entering(cfg, s) && s.run && !s.started && s.now <= CLOCK_LIMIT
    ensures exists before, after :: EchoCount(Since(Run(cfg, s, before), Run(cfg, s, before + after))) == 2
  {
    var t: Readings := [s.now, s.now, s.now, s.now, s.now, s.now];
    EarlyCloseReached(cfg, s, t);
    var reached := Run(cfg, s, EarlyClose(t));
    TwoEchoes(cfg, reached, t);
    RunAppend(cfg, s, EarlyClose(t), LateStart(t));
    hide *;
    assert EchoCount(Since(Run(cfg, s, EarlyClose(t)), Run(cfg, s, EarlyClose(t) + LateStart(t)))) == 2;
  }

  /** Main result: the bound is exact. At most two CLOSE echoes follow in every schedule, and at most one in every
      schedule if and only if the guard holds. */
  lemma OneEchoIffGuard(cfg: Config, s: State)
    requires cfg.bufferSize > 0
    requires CloseReceived(s) && s.now <= CLOCK_LIMIT
    ensures forall actions :: EchoCount(Since(s, Run(cfg, s, actions))) <= 2
    ensures (forall actions :: EchoCount(Since(s, Run(cfg, s, actions))) <= 1) <==> EchoGuard(s)
  {
    forall actions
      ensures EchoCount(Since(s, Run(cfg, s, actions))) <= MostEchoes(s)
    {
      AfterClose(cfg, s, actions);
      FewEchoes(Since(s, Run(cfg, s, actions)), MostEchoes(s));
    }
    if !EchoGuard(s) {
      TwoEchoes(cfg, s, [s.now, s.now, s.now, s.now, s.now, s.now]);
    }
  }

  // --- CLOSED -------------------------------------------------------------------------------------------

  ghost predicate NoClosed(log: Log) {
    forall i :: 0 <= i < |log| ==> log[i] != Event(ClosedEvent)
  }

  /** CLOSED, if it has been dispatched, is the last entry, and the task has left its loop for good. */
  ghost predicate ClosedLast(s: State) {
    || NoClosed(s.log)
    || ((s.pc == Leaving || s.pc == Gone) && s.conn == Unknown && !s.run
        && NoClosed(s.log[..|s.log| - 1]) && s.log[|s.log| - 1] == Event(ClosedEvent))
  }

  lemma StepNoClosed(cfg: Config, s: State, a: Action)
    requires cfg.bufferSize > 0 && NoClosed(s.log) && !a.RunUnlocked?
    ensures NoClosed(Step(cfg, s, a).log)
  {
    hide Step;
    var more := WsSafety.StepGrows(cfg, s, a);
  }

  lemma UnlockedClosedLast(s: State, poll: int, closedPoll: int)
    requires NoClosed(s.log)
    ensures ClosedLast(AfterUnlock(s, poll, closedPoll))
  {
    hide NoClosed;
    var log := s.log + [Event(ClosedEvent)];
    assert log[..|log| - 1] == s.log && log[|log| - 1] == Event(ClosedEvent);
  }

  /** Past the loop and UNKNOWN, no step changes the log. */
  lemma OverStays(cfg: Config, s: State, a: Action)
    requires cfg.bufferSize > 0
    requires (s.pc == Leaving || s.pc == Gone) && s.conn == Unknown
    ensures var next := Step(cfg, s, a);
            (next.pc == Leaving || next.pc == Gone) && next.conn == Unknown && next.log == s.log &&
            (!s.run ==> !next.run)
  {
    hide Switch, AfterUnlock, SendLocked, Later, Blocks;
    if a.SendMessage? {
      SendIdle(cfg, s, a);
    }
  }

  lemma ClosedLastStep(cfg: Config, s: State, a: Action)
    requires cfg.bufferSize > 0
    requires ClosedLast(s)
    ensures ClosedLast(Step(cfg, s, a))
  {
    hide NoClosed, Enabled;
    if !NoClosed(s.log) {
      hide Step;
      OverStays(cfg, s, a);
    } else if a.RunUnlocked? {
      hide AfterUnlock;
      UnlockedClosedLast(s, a.poll, a.closedPoll);
    } else {
      hide Step;
      StepNoClosed(cfg, s, a);
    }
  }

  lemma {:induction false} ClosedLastRun(cfg: Config, s: State, actions: seq<Action>)
    requires cfg.bufferSize > 0
    requires ClosedLast(s)
    ensures ClosedLast(Run(cfg, s, actions))
    decreases |actions|
  {
    hide ClosedLast, Step;
    if actions != [] {
      ClosedLastStep(cfg, s, actions[0]);
      ClosedLastRun(cfg, Step(cfg, s, actions[0]), actions[1..]);
    }
  }

  /** Main result: in every run CLOSED occurs at most once, and nothing is logged after it. */
  lemma ClosedIsFinal(cfg: Config, s: State, actions: seq<Action>, more: seq<Action>)
    requires cfg.bufferSize > 0
    requires Entering(cfg, s)
    ensures var end := Run(cfg, s, actions);
            && ClosedLast(end)
            && (!NoClosed(end.log) ==> Run(cfg, end, more).log == end.log)
  {
    ClosedLastRun(cfg, s, actions);
    var end := Run(cfg, s, actions);
    if !NoClosed(end.log) {
      OverIsOver(cfg, end, more);
    }
  }

  lemma {:induction false} OverIsOver(cfg: Config, s: State, actions: seq<Action>)
    requires cfg.bufferSize > 0
    requires (s.pc == Leaving || s.pc == Gone) && s.conn == Unknown
    ensures Run(cfg, s, actions).log == s.log
    decreases |actions|
  {
    if actions != [] {
      var next := Step(cfg, s, actions[0]);
      hide Step;
      OverStays(cfg, s, actions[0]);
      OverIsOver(cfg, next, actions[1..]);
    }
  }

  lemma QuietUnlessFinishes(cfg: Config, s: State, a: Action)
    requires cfg.bufferSize > 0
    requires NoClosed(s.log) && !Finishes(s, a)
    ensures NoClosed(Step(cfg, s, a).log)
  {
    hide NoClosed, Later, Blocks, Switch, SendLocked;
    if !a.RunUnlocked? {
      hide Step;
      StepNoClosed(cfg, s, a);
    }
  }

  lemma FinishLogs(cfg: Config, s: State, a: Action)
    requires cfg.bufferSize > 0
    requires Finishes(s, a)
    ensures var next := Step(cfg, s, a);
            !NoClosed(next.log) && next.pc == Leaving && next.conn == Unknown
  {
    var log := s.log + [Event(ClosedEvent)];
    assert log[|s.log|] == Event(ClosedEvent);
    hide NoClosed, Switch, SendLocked;
  }

  /** Main result: a run dispatches CLOSED if and only if, after a CLOSE was received and with the close bit set, a
      poll for the server's TCP close ended otherwise than by its timeout. */
  lemma {:induction false} ClosedIff(cfg: Config, s: State, actions: seq<Action>)
    requires cfg.bufferSize > 0
    requires NoClosed(s.log)
    ensures NoClosed(Run(cfg, s, actions).log) <==> !FinishIn(cfg, s, actions)
    decreases |actions|
  {
    hide NoClosed, Finishes, Step;
    if actions != [] {
      var next := Step(cfg, s, actions[0]);
      if Finishes(s, actions[0]) {
        FinishLogs(cfg, s, actions[0]);
        OverIsOver(cfg, next, actions[1..]);
      } else {
        QuietUnlessFinishes(cfg, s, actions[0]);
        ClosedIff(cfg, next, actions[1..]);
      }
    }
  }

  // --- Still waiting -----------------------------------------------------------------------------------------

  /** Past the loop and not connected, no step changes the log. */
  lemma LeftStays(cfg: Config, s: State, a: Action)
    requires cfg.bufferSize > 0
    requires (s.pc == Leaving || s.pc == Gone) && s.conn != Connected
    ensures var next := Step(cfg, s, a);
            (next.pc == Leaving || next.pc == Gone) && next.conn != Connected && next.log == s.log
  {
    hide Switch, AfterUnlock, SendLocked, Later, Blocks;
    if a.SendMessage? {
      SendIdle(cfg, s, a);
    }
  }

  lemma {:induction false} LeftIsLeft(cfg: Config, s: State, actions: seq<Action>)
    requires cfg.bufferSize > 0
    requires (s.pc == Leaving || s.pc == Gone) && s.conn != Connected
    ensures Run(cfg, s, actions).log == s.log
    ensures Run(cfg, s, actions).pc == Leaving || Run(cfg, s, actions).pc == Gone
    decreases |actions|
  {
    if actions != [] {
      hide Step;
      LeftStays(cfg, s, actions[0]);
      LeftIsLeft(cfg, Step(cfg, s, actions[0]), actions[1..]);
    }
  }

  /** A timeout of the wait for the server's TCP close leaves the loop for good with `run` untouched, and in no
      continuation is CLOSED, or anything else, ever logged. */
  lemma StillWaitingLeaves(cfg: Config, s: State, poll: int, actions: seq<Action>)
    requires cfg.bufferSize > 0
    requires CloseReceived(s) && s.closeFrameSent
    ensures var left := Step(cfg, s, RunUnlocked(poll, 0));
            && left.pc == Leaving && left.run == s.run
            && Run(cfg, left, actions).log == s.log
            && (Run(cfg, left, actions).pc == Leaving || Run(cfg, left, actions).pc == Gone)
  {
    var left := Step(cfg, s, RunUnlocked(poll, 0));
    assert left == s.(pc := Leaving);
    hide Step, Run;
    LeftIsLeft(cfg, left, actions);
  }
}
