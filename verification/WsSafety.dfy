/** What every schedule of the session engine keeps: event order, freshness of poll results, reconnect
    spacing and PONG timeouts. */
module WsSafety {
  import opened WsFrames
  import opened WsLog
  import opened WsSession
  import WsSender
  import WsReceiver

  // --- The invariant ----------------------------------------------------------------------------------

  ghost predicate Shape(s: State) {
    && (s.conn == Unknown ==> (s.pc == Leaving || s.pc == Gone))
    && (s.pc == Gone ==> s.conn == Unknown)
    && (s.pc == Polled || s.pc == AbortCheck || s.pc == AbortStamp || s.pc == AbortState ==>
          s.conn == Connected || s.conn == WaitTimeout)
    && (s.pc == AbortEvent ==> s.conn == WaitTimeout)
    && s.reconnectTick <= s.now && s.pingTick <= s.now && s.pingpongTick <= s.now
  }

  /** A poll result that the switch may act on was taken on the present connection and is not an error. */
  ghost predicate PollFresh(s: State) {
    && (s.conn == Connected && (s.pc == LoopTest || s.pc == Switching) ==>
          s.readSelect >= 0 && s.polledSession == s.session)
    && (s.conn == Connected && s.pc == Polled ==> s.polledSession == s.session)
  }

  ghost predicate Settled(s: State) {
    && (s.conn == Init || (s.conn == WaitTimeout && s.pc != AbortEvent) ==> ConnectionsSettled(s.log))
    && ((s.conn == Init || s.conn == WaitTimeout) ==> AttemptsSettled(s.log))
  }

  function LastAttempt(log: Log): int {
    var times := AttemptTimes(log);
    if times == [] then -1 else times[|times| - 1]
  }

  ghost predicate AttemptsPaced(cfg: Config, s: State) {
    var times := AttemptTimes(s.log);
    && Spaced(times, cfg.waitTimeoutMs + 1)
    && (!cfg.autoReconnect ==> |times| <= 1)
    && (times != [] ==>
          && LastAttempt(s.log) <= s.now
          && (s.conn == Init ==> cfg.autoReconnect && s.now >= LastAttempt(s.log) + cfg.waitTimeoutMs + 1)
          && (cfg.autoReconnect && (s.conn == WaitTimeout || s.pc == AbortState) ==>
                s.reconnectTick >= LastAttempt(s.log)))
  }

  ghost predicate PongAwaited(cfg: Config, s: State) {
    s.conn == Connected && s.waitForPong ==>
      PongChecked(cfg) && UnansweredPing(s.log, |s.log|, s.session, s.pingpongTick)
  }

  predicate PongChecked(cfg: Config) {
    cfg.pingpongTimeoutSec != 0
  }

  ghost predicate Ordered(cfg: Config, s: State) {
    LogInv(s.log, PongLimitMs(cfg), PongChecked(cfg), s.pingTick)
  }

  ghost predicate Inv(cfg: Config, s: State) {
    && Shape(s)
    && PollFresh(s)
    && Ordered(cfg, s)
    && Settled(s)
    && AttemptsPaced(cfg, s)
    && PongAwaited(cfg, s)
  }

  lemma PacedOn(cfg: Config, s: State, next: State)
    requires next.now >= s.now && (next.conn == Init ==> s.conn == Init)
    requires cfg.autoReconnect && (next.conn == WaitTimeout || next.pc == AbortState) ==>
               || next.reconnectTick >= s.now
               || ((s.conn == WaitTimeout || s.pc == AbortState) && next.reconnectTick == s.reconnectTick)
    ensures AttemptsPaced(cfg, s) && AttemptTimes(next.log) == AttemptTimes(s.log) ==> AttemptsPaced(cfg, next)
  {
    hide AttemptTimes, Spaced;
  }

  lemma PongOn(cfg: Config, s: State, next: State, more: Log)
    requires PongAwaited(cfg, s) && next.log == s.log + more
    requires forall k :: 0 <= k < |more| ==> !Completes(more[k], PONG)
    requires next.conn == Connected && next.waitForPong ==>
               s.conn == Connected && s.waitForPong && next.session == s.session && next.pingpongTick == s.pingpongTick
    ensures PongAwaited(cfg, next)
  {
    hide UnansweredPing;
    if next.conn == Connected && next.waitForPong {
      StillUnanswered(s.log, more, s.session, s.pingpongTick);
    }
  }

  /** A step keeps the invariant when the entries it logs do not bear on later attempts and the wait state is entered
      with everything settled. */
  lemma InvOn(cfg: Config, s: State, next: State, more: Log)
    requires Inv(cfg, s) && Shape(next) && PollFresh(next) && Ordered(cfg, next)
    requires next.log == s.log + more && Continues(s.log, next.log) && next.now >= s.now
    requires forall k :: 0 <= k < |more| ==> !Completes(more[k], PONG)
    requires next.conn == Init ==> s.conn == Init
    requires next.conn == Connected && next.waitForPong ==>
               s.conn == Connected && s.waitForPong && next.session == s.session && next.pingpongTick == s.pingpongTick
    requires next.conn == WaitTimeout ==> s.conn == WaitTimeout || AttemptsSettled(next.log)
    requires next.conn == WaitTimeout && next.pc != AbortEvent ==>
               (s.conn == WaitTimeout && s.pc != AbortEvent) || ConnectionsSettled(next.log)
    requires cfg.autoReconnect && (next.conn == WaitTimeout || next.pc == AbortState) ==>
               || next.reconnectTick >= s.now
               || ((s.conn == WaitTimeout || s.pc == AbortState) && next.reconnectTick == s.reconnectTick)
    ensures Inv(cfg, next)
  {
    hide Shape, PollFresh, Ordered, PongAwaited, AttemptsPaced, AttemptTimes, ConnectionsSettled, AttemptsSettled;
    PacedOn(cfg, s, next);
    PongOn(cfg, s, next, more);
  }

  /** A step that only moves the client task on. */
  lemma MoveKeeps(cfg: Config, s: State, next: State)
    requires Inv(cfg, s) && Shape(next) && PollFresh(next)
    requires next == s.(pc := next.pc, readSelect := next.readSelect, polledSession := next.polledSession)
    requires s.pc != AbortEvent && next.pc != AbortState
    ensures Inv(cfg, next)
  {
    hide LogInv, ConnectionsSettled, AttemptsSettled, UnansweredPing, AttemptTimes, PongLimitMs, Spaced;
  }

  lemma SameLog(log: Log)
    ensures log + [] == log && Continues(log, log)
  {
    ContinuesOn(log, log, log);
  }

  // --- The client task's steps ---------------------------------------------------------------------------------

  lemma ElapsedExact(now: nat, since: nat)
    requires since <= now <= CLOCK_LIMIT
    ensures Elapsed(now, since) == now - since
  {
  }

  lemma FailSettles(cfg: Config, s: State, why: AbortReason, at: nat)
    requires Ordered(cfg, s) && s.conn != Unknown
    requires why == PongTimeout ==>
               && PongChecked(cfg) && at > PongLimitMs(cfg)
               && UnansweredPing(s.log, |s.log|, s.session, at - PongLimitMs(cfg) - 1)
    ensures var after := Fail(cfg, s, why, at);
            && Ordered(cfg, after)
            && AttemptTimes(after.log) == AttemptTimes(s.log)
            && ConnectionsSettled(after.log)
            && AttemptsSettled(after.log)
  {
    hide LogInv, ConnectionsSettled, AttemptsSettled, UnansweredPing, AttemptTimes;
    GrowAbort(s.log, Aborted(why, s.session, at), PongLimitMs(cfg), PongChecked(cfg), s.pingTick);
  }

  /** BEFORE_CONNECT and the attempt itself. */
  lemma TryingKeeps(cfg: Config, s: State, t: Readings)
    requires Ordered(cfg, s) && ConnectionsSettled(s.log) && AttemptsSettled(s.log)
    ensures var trying := Add(Add(s, Event(BeforeConnectEvent)), Attempt(t[0]));
            && Ordered(cfg, trying) && ConnectionsSettled(trying.log)
            && AttemptTimes(trying.log) == AttemptTimes(s.log) + [t[0]]
  {
    hide LogInv, ConnectionsSettled, AttemptsSettled, UnansweredPing, AttemptTimes, PongLimitMs, FollowsBeforeConnect;
    var b := Event(BeforeConnectEvent);
    GrowPlain(s.log, b, PongLimitMs(cfg), PongChecked(cfg), s.pingTick);
    Grow(s.log + [b], Attempt(t[0]), PongLimitMs(cfg), PongChecked(cfg), s.pingTick, s.pingTick);
  }

  lemma ConnectFails(cfg: Config, s: State, t: Readings, connect: int)
    requires Inv(cfg, s) && s.pc == Switching && s.conn == Init && Later(s.now, t)
    requires cfg.hasTransport && connect < 0
    ensures Inv(cfg, SwitchInit(cfg, s, t, connect).(pc := Unlocked, now := t[5]))
  {
    hide LogInv, ConnectionsSettled, AttemptsSettled, UnansweredPing, AttemptTimes, PongLimitMs, Spaced;
    TryingKeeps(cfg, s, t);
    SpacedOne(AttemptTimes(s.log), cfg.waitTimeoutMs + 1, t[0]);
    FailSettles(cfg, Add(Add(s, Event(BeforeConnectEvent)), Attempt(t[0])), TcpTransport, t[1]);
  }

  lemma ConnectSucceeds(cfg: Config, s: State, t: Readings, connect: int)
    requires Inv(cfg, s) && s.pc == Switching && s.conn == Init && Later(s.now, t)
    requires cfg.hasTransport && connect >= 0
    ensures Inv(cfg, SwitchInit(cfg, s, t, connect).(pc := Unlocked, now := t[5]))
  {
    hide LogInv, ConnectionsSettled, AttemptsSettled, UnansweredPing, AttemptTimes, PongLimitMs, Spaced,
         FollowsBeforeConnect;
    var trying := Add(Add(s, Event(BeforeConnectEvent)), Attempt(t[0]));
    TryingKeeps(cfg, s, t);
    SpacedOne(AttemptTimes(s.log), cfg.waitTimeoutMs + 1, t[0]);
    Announced(s.log, Event(BeforeConnectEvent), Attempt(t[0]), Event(ConnectedEvent));
    Grow(trying.log, Event(ConnectedEvent), PongLimitMs(cfg), PongChecked(cfg), s.pingTick, s.pingTick);
  }

  lemma ConnectKeeps(cfg: Config, s: State, t: Readings, connect: int)
    requires Inv(cfg, s) && s.pc == Switching && s.conn == Init && Later(s.now, t)
    ensures Inv(cfg, SwitchInit(cfg, s, t, connect).(pc := Unlocked, now := t[5]))
  {
    hide LogInv, ConnectionsSettled, AttemptsSettled, UnansweredPing, AttemptTimes, PongLimitMs, Spaced;
    if cfg.hasTransport {
      if connect < 0 {
        ConnectFails(cfg, s, t, connect);
      } else {
        ConnectSucceeds(cfg, s, t, connect);
      }
    }
  }

  lemma Announced(log: Log, b: Entry, a: Entry, c: Entry)
    requires b == Event(BeforeConnectEvent) && !a.Event?
    ensures FollowsBeforeConnect(log + [b] + [a] + [c], |log + [b] + [a]|)
  {
    assert (log + [b] + [a] + [c])[|log|] == b;
  }

  lemma PingKeeps(cfg: Config, s: State, t: Readings)
    requires Ordered(cfg, s) && PongAwaited(cfg, s) && s.conn == Connected
    requires s.pingTick <= s.now && s.pingpongTick <= s.now && Later(s.now, t)
    ensures var p := MaybePing(cfg, s, t);
            && Ordered(cfg, p) && PongAwaited(cfg, p) && AttemptTimes(p.log) == AttemptTimes(s.log)
            && p.pingTick <= t[1] && p.pingpongTick <= t[2]
  {
    ElapsedExact(t[0], s.pingTick);
    hide LogInv, ConnectionsSettled, AttemptsSettled, UnansweredPing, AttemptTimes, PongLimitMs, Elapsed,
      PingIntervalMs;
    var p := MaybePing(cfg, s, t);
    if p != s {
      var stamp := PingStamp(t[1], PingIntervalMs(s.pingIntervalSec));
      var ping := Sent(Frame(true, PING, []), s.session, t[2]);
      Grow(s.log, stamp, PongLimitMs(cfg), PongChecked(cfg), s.pingTick, t[1]);
      GrowPlain(s.log + [stamp], ping, PongLimitMs(cfg), PongChecked(cfg), t[1]);
      JustPinged(s.log + [stamp], s.session, t[2]);
      if s.waitForPong {
        StillUnanswered(s.log, [stamp] + [ping], s.session, s.pingpongTick);
        assert s.log + [stamp] + [ping] == s.log + ([stamp] + [ping]);
      }
    }
  }

  lemma JustPinged(log: Log, session: nat, at: nat)
    ensures var after := log + [Sent(Frame(true, PING, []), session, at)];
            UnansweredPing(after, |after|, session, at)
  {
    var after := log + [Sent(Frame(true, PING, []), session, at)];
    assert after[|log|].Sent?;
  }

  /** A PONG in answer to a PING. */
  lemma PongKeeps(cfg: Config, s: State, e: Entry)
    requires Ordered(cfg, s) && PongAwaited(cfg, s) && e.Sent?
    ensures var next := Add(s, e);
            Ordered(cfg, next) && PongAwaited(cfg, next) && AttemptTimes(next.log) == AttemptTimes(s.log)
  {
    hide LogInv, UnansweredPing, AttemptTimes, PongLimitMs, ConnectionsSettled, AttemptsSettled;
    Grow(s.log, e, PongLimitMs(cfg), PongChecked(cfg), s.pingTick, s.pingTick);
    if s.conn == Connected && s.waitForPong {
      StillUnanswered(s.log, [e], s.session, s.pingpongTick);
    }
  }

  lemma AnswerCases(s: State, echo: seq<Byte>, at: nat)
    ensures Answer(s, echo, at) ==
              if s.header.code == PING then
                Add(s, Sent(Frame(true, PONG, if s.header.payloadLen == 0 then [] else echo), s.session, at))
              else s.(waitForPong := s.waitForPong && s.header.code != PONG,
                      conn := if s.header.code == CLOSE then Closing else s.conn)
  {
    if s.header.code == PING {
    } else if s.header.code == PONG {
    } else if s.header.code == CLOSE {
    }
  }

  /** Of the DATA events of one call, only the last of a frame read whole completes a frame, that of its header. */
  lemma DataCompletes(replies: seq<WsReceiver.Read>, header: WsReceiver.Header, code: nat)
    ensures var r := WsReceiver.RecvLoop(replies, header, 0);
            && (r.status == WsReceiver.Whole ==> r.events != [])
            && forall k :: 0 <= k < |r.events| ==>
                 (Completes(DataEntries(r.events)[k], code) <==>
                  r.status == WsReceiver.Whole && k == |r.events| - 1 && r.header.code == code)
  {
    hide WsReceiver.RecvLoop;
    WsReceiver.OnlyLastCompletes(replies, header, 0);
  }

  lemma ReceiveKeeps(cfg: Config, s: State, t: Readings, replies: seq<WsReceiver.Read>)
    requires Ordered(cfg, s) && PongAwaited(cfg, s) && s.conn == Connected
    requires s.pingTick <= t[4]
    ensures var r := Receive(cfg, s, t, replies);
            && Ordered(cfg, r) && PongAwaited(cfg, r)
            && AttemptTimes(r.log) == AttemptTimes(s.log)
            && (r.conn == Connected || r.conn == WaitTimeout || r.conn == Closing)
            && (r.conn == WaitTimeout ==> ConnectionsSettled(r.log) && AttemptsSettled(r.log))
            && (r.conn == WaitTimeout && cfg.autoReconnect ==> r.reconnectTick == t[5])
            && (r.conn != WaitTimeout || !cfg.autoReconnect ==> r.reconnectTick == s.reconnectTick)
            && r.pingTick == t[4] && r.pingpongTick == s.pingpongTick && r.session == s.session
  {
    hide Receive, Ordered, ConnectionsSettled, AttemptsSettled, AttemptTimes, WsReceiver.RecvLoop, Answer, Fail,
         DataEntries, LastPiece, UnansweredPing, Completes;
    var r := WsReceiver.RecvLoop(replies, s.header, 0);
    var read := s.(pingTick := t[4], header := r.header, payloadOffset := r.offset,
                   log := s.log + DataEntries(r.events));
    ReceiveCases(cfg, s, t, replies);
    DataCompletes(replies, s.header, PONG);
    DataKeeps(cfg, s, read, DataEntries(r.events));
    if r.status == WsReceiver.Broken {
      FailSettles(cfg, read, TcpTransport, t[5]);
      FailCases(cfg, read, TcpTransport, t[5]);
    } else if r.status == WsReceiver.Whole {
      AnswerCases(read, LastPiece(r.events), t[5]);
      if r.header.code == PING {
        var echo := if r.header.payloadLen == 0 then [] else LastPiece(r.events);
        PongKeeps(cfg, read, Sent(Frame(true, PONG, echo), s.session, t[5]));
      } else {
        AnsweredKeeps(cfg, read, Answer(read, LastPiece(r.events), t[5]));
      }
    } else {
      assert Receive(cfg, s, t, replies) == read;
    }
  }

  /** An answer that sends nothing. */
  lemma AnsweredKeeps(cfg: Config, s: State, next: State)
    requires Ordered(cfg, s) && next == s.(waitForPong := next.waitForPong, conn := next.conn)
    requires next.conn == Connected && next.waitForPong ==> PongAwaited(cfg, s) && s.conn == Connected && s.waitForPong
    ensures Ordered(cfg, next) && PongAwaited(cfg, next)
  {
    hide LogInv, UnansweredPing, PongLimitMs;
  }

  lemma DataKeeps(cfg: Config, s: State, read: State, more: Log)
    requires Ordered(cfg, s) && PongAwaited(cfg, s) && s.conn == Connected
    requires forall k :: 0 <= k < |more| ==> more[k].Event? && more[k].id.DataEvent?
    requires read == s.(pingTick := read.pingTick, header := read.header, payloadOffset := read.payloadOffset,
                        log := s.log + more)
    requires s.pingTick <= read.pingTick
    ensures Ordered(cfg, read) && AttemptTimes(read.log) == AttemptTimes(s.log)
    ensures (forall k :: 0 <= k < |more| ==> !Completes(more[k], PONG)) ==> PongAwaited(cfg, read)
  {
    hide LogInv, ConnectionsSettled, AttemptsSettled, UnansweredPing, AttemptTimes, PongLimitMs, Completes;
    GrowNeutral(s.log, more, PongLimitMs(cfg), PongChecked(cfg), s.pingTick, read.pingTick);
    if s.waitForPong && forall k :: 0 <= k < |more| ==> !Completes(more[k], PONG) {
      StillUnanswered(s.log, more, s.session, s.pingpongTick);
    }
  }

  /** What a failure makes of the state. */
  lemma FailCases(cfg: Config, s: State, why: AbortReason, at: nat)
    ensures Fail(cfg, s, why, at) ==
              if s.conn == Unknown then Add(s, Event(ErrorEvent))
              else
                s.(reconnectTick := if cfg.autoReconnect then at else s.reconnectTick, conn := WaitTimeout,
                   log := s.log + [Event(ErrorEvent)] + [Aborted(why, s.session, at)] + [Event(DisconnectedEvent)])
  {
  }

  lemma ReceiveCases(cfg: Config, s: State, t: Readings, replies: seq<WsReceiver.Read>)
    ensures var r := WsReceiver.RecvLoop(replies, s.header, 0);
            var read := s.(pingTick := t[4], header := r.header, payloadOffset := r.offset,
                           log := s.log + DataEntries(r.events));
            Receive(cfg, s, t, replies) ==
              match r.status
              case Broken => Fail(cfg, read, TcpTransport, t[5])
              case Whole => Answer(read, LastPiece(r.events), t[5])
              case _ => read
  {
    hide WsReceiver.RecvLoop, Answer, Abort, Add, DataEntries, LastPiece;
  }

  lemma OverdueIsUnanswered(cfg: Config, p: State, t: Readings)
    requires p.conn == Connected && p.waitForPong && PongAwaited(cfg, p)
    requires p.pingpongTick <= t[3] <= t[4] && t[3] - p.pingpongTick > PongLimitMs(cfg)
    ensures t[4] > PongLimitMs(cfg)
    ensures UnansweredPing(p.log, |p.log|, p.session, t[4] - PongLimitMs(cfg) - 1)
  {
    assert p.pingpongTick <= t[4] - PongLimitMs(cfg) - 1;
  }

  lemma ConnectedKeeps(cfg: Config, s: State, t: Readings, replies: seq<WsReceiver.Read>)
    requires Inv(cfg, s) && s.pc == Switching && s.conn == Connected && Later(s.now, t)
    ensures Inv(cfg, SwitchConnected(cfg, s, t, replies).(pc := Unlocked, now := t[5]))
  {
    hide LogInv, ConnectionsSettled, AttemptsSettled, UnansweredPing, AttemptTimes, PongLimitMs, Spaced,
         Receive, Elapsed, MaybePing, Fail;
    var p := if s.closeFrameSent then s else MaybePing(cfg, s, t);
    PingKeeps(cfg, s, t);
    PingFrame(cfg, s, t);
    ElapsedExact(t[3], p.pingpongTick);
    if !s.closeFrameSent && PongOverdue(cfg, p, t) {
      OverdueIsUnanswered(cfg, p, t);
      FailSettles(cfg, p, PongTimeout, t[4]);
      FailCases(cfg, p, PongTimeout, t[4]);
    } else if s.readSelect != 0 {
      ReceiveKeeps(cfg, p, t, replies);
    }
  }

  lemma PingFrame(cfg: Config, s: State, t: Readings)
    ensures var p := MaybePing(cfg, s, t);
            p.conn == s.conn && p.session == s.session && p.reconnectTick == s.reconnectTick
  {
    hide Elapsed, PingIntervalMs;
  }

  lemma WaitEnds(cfg: Config, s: State, t: Readings)
    requires Inv(cfg, s) && s.pc == Switching && s.conn == WaitTimeout && Later(s.now, t)
    requires cfg.autoReconnect && Elapsed(t[0], s.reconnectTick) > cfg.waitTimeoutMs
    ensures Inv(cfg, s.(conn := Init, reconnectTick := t[1], pc := Unlocked, now := t[5]))
  {
    hide LogInv, ConnectionsSettled, AttemptsSettled, UnansweredPing, AttemptTimes, PongLimitMs, Spaced;
    ElapsedExact(t[0], s.reconnectTick);
  }

  lemma WaitKeeps(cfg: Config, s: State, t: Readings)
    requires Inv(cfg, s) && s.pc == Switching && s.conn == WaitTimeout && Later(s.now, t)
    ensures Inv(cfg, SwitchWait(cfg, s, t).(pc := Unlocked, now := t[5]))
  {
    hide LogInv, Settled, AttemptsPaced, PongAwaited, ConnectionsSettled, AttemptsSettled, PongLimitMs, Elapsed;
    SameLog(s.log);
    if cfg.autoReconnect && Elapsed(t[0], s.reconnectTick) > cfg.waitTimeoutMs {
      WaitEnds(cfg, s, t);
    } else {
      InvOn(cfg, s, SwitchWait(cfg, s, t).(pc := Unlocked, now := t[5]), []);
    }
  }

  lemma ClosingKeeps(cfg: Config, s: State, t: Readings)
    requires Inv(cfg, s) && s.pc == Switching && s.conn == Closing && Later(s.now, t)
    ensures Inv(cfg, SwitchClosing(s, t).(pc := Unlocked, now := t[5]))
  {
    hide LogInv, Settled, AttemptsPaced, PongAwaited, ConnectionsSettled, AttemptsSettled, PongLimitMs;
    var next := SwitchClosing(s, t).(pc := Unlocked, now := t[5]);
    if s.closeFrameSent {
      SameLog(s.log);
      InvOn(cfg, s, next, []);
    } else {
      var echo := Sent(Frame(true, CLOSE, []), s.session, t[0]);
      GrowPlain(s.log, echo, PongLimitMs(cfg), PongChecked(cfg), s.pingTick);
      InvOn(cfg, s, next, [echo]);
    }
  }

  lemma PollChecked(cfg: Config, s: State)
    requires cfg.bufferSize > 0
    ensures Perform(cfg, s, CheckPoll) ==
              if s.readSelect < 0 then Add(s.(pc := AbortCheck), Event(ErrorEvent)) else s.(pc := LoopTest)
  {
    hide Switch, AfterUnlock, SendLocked;
  }

  lemma PollBrokeKeeps(cfg: Config, s: State)
    requires Inv(cfg, s) && s.pc == Polled && cfg.bufferSize > 0
    ensures Inv(cfg, Add(s.(pc := AbortCheck), Event(ErrorEvent)))
  {
    hide LogInv, Settled, AttemptsPaced, PongAwaited, ConnectionsSettled, AttemptsSettled, PongLimitMs;
    GrowPlain(s.log, Event(ErrorEvent), PongLimitMs(cfg), PongChecked(cfg), s.pingTick);
    InvOn(cfg, s, Add(s.(pc := AbortCheck), Event(ErrorEvent)), [Event(ErrorEvent)]);
  }

  lemma CheckPollKeeps(cfg: Config, s: State)
    requires Inv(cfg, s) && s.pc == Polled && cfg.bufferSize > 0
    ensures Inv(cfg, Perform(cfg, s, CheckPoll))
  {
    hide Ordered, Settled, AttemptsPaced, PongAwaited, Perform, Add;
    PollChecked(cfg, s);
    if s.readSelect < 0 {
      PollBrokeKeeps(cfg, s);
    } else {
      MoveKeeps(cfg, s, s.(pc := LoopTest));
    }
  }

  /** The two steps of the unlocked abort that log nothing. */
  lemma AbortBeginsKeeps(cfg: Config, s: State, a: Action)
    requires Inv(cfg, s) && Enabled(s, a) && cfg.bufferSize > 0
    requires a.BeginAbort? || a.StampAbort?
    ensures Inv(cfg, Perform(cfg, s, a))
  {
    hide LogInv, Settled, AttemptsPaced, PongAwaited, ConnectionsSettled, AttemptsSettled, PongLimitMs,
         Switch, AfterUnlock, SendLocked;
    SameLog(s.log);
    InvOn(cfg, s, Perform(cfg, s, a), []);
  }

  /** And the two that do. */
  lemma AbortEndsKeeps(cfg: Config, s: State, a: Action)
    requires Inv(cfg, s) && Enabled(s, a) && cfg.bufferSize > 0
    requires a.StateAbort? || a.EventAbort?
    ensures Inv(cfg, Perform(cfg, s, a))
  {
    hide LogInv, Settled, AttemptsPaced, PongAwaited, ConnectionsSettled, AttemptsSettled, PongLimitMs,
         Switch, AfterUnlock, SendLocked;
    var e := if a.StateAbort? then Aborted(TcpTransport, s.session, AbortTime(cfg, s)) else Event(DisconnectedEvent);
    GrowPlain(s.log, e, PongLimitMs(cfg), PongChecked(cfg), s.pingTick);
    InvOn(cfg, s, Perform(cfg, s, a), [e]);
  }

  lemma ClosedKeeps(cfg: Config, s: State)
    requires Inv(cfg, s) && s.pc == Unlocked && s.conn == Closing
    ensures Inv(cfg, Add(s.(run := false, conn := Unknown, pc := Leaving), Event(ClosedEvent)))
  {
    hide LogInv, Settled, AttemptsPaced, PongAwaited, ConnectionsSettled, AttemptsSettled, PongLimitMs;
    GrowPlain(s.log, Event(ClosedEvent), PongLimitMs(cfg), PongChecked(cfg), s.pingTick);
    InvOn(cfg, s, Add(s.(run := false, conn := Unknown, pc := Leaving), Event(ClosedEvent)), [Event(ClosedEvent)]);
  }

  lemma UnlockKeeps(cfg: Config, s: State, poll: int, closedPoll: int)
    requires Inv(cfg, s) && s.pc == Unlocked
    ensures Inv(cfg, AfterUnlock(s, poll, closedPoll))
  {
    hide Ordered, Settled, AttemptsPaced, PongAwaited;
    if s.conn == Closing && s.closeFrameSent && closedPoll != 0 {
      ClosedKeeps(cfg, s);
    } else {
      MoveKeeps(cfg, s, AfterUnlock(s, poll, closedPoll));
    }
  }

  // --- The other tasks' steps ------------------------------------------------------------------------

  /** The frames of a send, and the new time. */
  lemma SentKeeps(cfg: Config, s: State, frames: seq<Frame>, at: nat)
    requires Inv(cfg, s) && s.now <= at
    ensures Inv(cfg, s.(log := s.log + SentEntries(frames, s.session, at), now := at))
  {
    hide LogInv, Settled, AttemptsPaced, PongAwaited, ConnectionsSettled, AttemptsSettled, PongLimitMs, Continues;
    var more := SentEntries(frames, s.session, at);
    GrowNeutral(s.log, more, PongLimitMs(cfg), PongChecked(cfg), s.pingTick, s.pingTick);
    InvOn(cfg, s, s.(log := s.log + more, now := at), more);
  }

  lemma FailKeeps(cfg: Config, s: State, at: nat)
    requires Inv(cfg, s.(now := at)) && s.conn == Connected
    ensures Inv(cfg, Fail(cfg, s, TcpTransport, at).(now := at))
  {
    hide LogInv, ConnectionsSettled, AttemptsSettled, AttemptTimes, PongLimitMs, Spaced, UnansweredPing, Fail;
    FailSettles(cfg, s, TcpTransport, at);
    FailCases(cfg, s, TcpTransport, at);
  }

  lemma SendKeeps(cfg: Config, s: State, code: nat, data: seq<Byte>, net: WsSender.Transport, at: nat)
    requires cfg.bufferSize > 0
    requires Inv(cfg, s) && s.now <= at
    ensures Inv(cfg, SendLocked(cfg, s, code, data, net, at).(now := at))
  {
    hide Inv, WsSender.SendExact, SentEntries, Fail;
    if s.conn == Connected && cfg.hasTransport {
      var r := WsSender.SendExact(cfg.bufferSize, OpWord(true, code), data, net);
      SentKeeps(cfg, s, r.frames, at);
      FailKeeps(cfg, s.(log := s.log + SentEntries(r.frames, s.session, at)), at);
    } else {
      SentKeeps(cfg, s, [], at);
      assert s.log + SentEntries([], s.session, at) == s.log;
    }
  }

  // --- Every step, every run -----------------------------------------------------------------------------

  lemma SwitchKeeps(cfg: Config, s: State, t: Readings, connect: int, replies: seq<WsReceiver.Read>)
    requires Inv(cfg, s) && s.pc == Switching && Later(s.now, t)
    ensures Inv(cfg, Switch(cfg, s, t, connect, replies).(pc := Unlocked, now := t[5]))
  {
    hide Inv, SwitchInit, SwitchConnected, SwitchWait, SwitchClosing;
    match s.conn {
      case Init => ConnectKeeps(cfg, s, t, connect);
      case Connected => ConnectedKeeps(cfg, s, t, replies);
      case WaitTimeout => WaitKeeps(cfg, s, t);
      case Closing => ClosingKeeps(cfg, s, t);
      case Unknown => KnownWhileLooping(cfg, s);
    }
  }

  lemma KnownWhileLooping(cfg: Config, s: State)
    requires Inv(cfg, s) && s.pc == Switching
    ensures s.conn != Unknown
  {
  }

  lemma FlagsKeep(cfg: Config, s: State, a: Action)
    requires cfg.bufferSize > 0
    requires Inv(cfg, s) && Enabled(s, a)
    requires a.TestRun? || a.Leave? || a.SetCloseBit? || a.ClearRun? || a.StartReturns? || a.SetPingInterval? ||
             a.ForceUnknown?
    ensures Inv(cfg, Perform(cfg, s, a))
  {
    hide LogInv, Settled, AttemptsPaced, PongAwaited, ConnectionsSettled, AttemptsSettled, PongLimitMs,
         Switch, AfterUnlock, SendLocked;
    SameLog(s.log);
    InvOn(cfg, s, Perform(cfg, s, a), []);
  }

  lemma StepKeeps(cfg: Config, s: State, a: Action)
    requires cfg.bufferSize > 0
    requires Inv(cfg, s)
    ensures Inv(cfg, Step(cfg, s, a))
  {
    hide Inv, Switch, AfterUnlock, SendLocked, Later;
    if Enabled(s, a) {
      match a
      case RunSwitch(t, connect, replies) => SwitchKeeps(cfg, s, t, connect, replies);
      case RunUnlocked(poll, closedPoll) => UnlockKeeps(cfg, s, poll, closedPoll);
      case SendMessage(code, data, net, at) => SendKeeps(cfg, s, code, data, net, at);
      case CheckPoll => CheckPollKeeps(cfg, s);
      case BeginAbort => AbortBeginsKeeps(cfg, s, a);
      case StampAbort(_) => AbortBeginsKeeps(cfg, s, a);
      case StateAbort => AbortEndsKeeps(cfg, s, a);
      case EventAbort => AbortEndsKeeps(cfg, s, a);
      case _ => FlagsKeep(cfg, s, a);
    }
  }

  lemma EnteringInv(cfg: Config, s: State)
    requires Entering(cfg, s)
    ensures Inv(cfg, s)
  {
  }

  lemma {:induction false} RunKeeps(cfg: Config, s: State, actions: seq<Action>)
    requires cfg.bufferSize > 0
    requires Inv(cfg, s)
    ensures Inv(cfg, Run(cfg, s, actions))
    decreases |actions|
  {
    hide Inv, Step;
    if actions != [] {
      StepKeeps(cfg, s, actions[0]);
      RunKeeps(cfg, Step(cfg, s, actions[0]), actions[1..]);
    }
  }

  // --- What is promised of every run ----------------------------------------------------------------------

  /** Main result: event order. Each CONNECTED directly follows a BEFORE_CONNECT, two CONNECTEDs have a
      DISCONNECTED between them, and two connection attempts have an abort between them. */
  lemma EventOrder(cfg: Config, s: State, actions: seq<Action>)
    requires cfg.bufferSize > 0
    requires Entering(cfg, s)
    ensures var log := Run(cfg, s, actions).log;
            ConnectedAnnounced(log) && ConnectionsSeparated(log) && AttemptsSeparated(log)
  {
    EnteringInv(cfg, s);
    RunKeeps(cfg, s, actions);
  }

  // --- What a step logs ----------------------------------------------------------------------------------

  /** Entries of the client task's own PINGs: a stamp, or an abort for want of a PONG. */
  ghost predicate Pingless(more: Log) {
    forall k :: 0 <= k < |more| ==> !more[k].PingStamp? && !(more[k].Aborted? && more[k].why == PongTimeout)
  }

  /** No CLOSED among them. */
  ghost predicate Unclosed(more: Log) {
    forall k :: 0 <= k < |more| ==> more[k] != Event(ClosedEvent)
  }

  lemma FailGrows(cfg: Config, s: State, why: AbortReason, at: nat) returns (more: Log)
    ensures Fail(cfg, s, why, at).log == s.log + more
    ensures (why != PongTimeout ==> Pingless(more)) && Unclosed(more)
  {
    more := if s.conn == Unknown then [Event(ErrorEvent)]
            else [Event(ErrorEvent), Aborted(why, s.session, at), Event(DisconnectedEvent)];
  }

  lemma AnswerGrows(s: State, echo: seq<Byte>, at: nat) returns (more: Log)
    ensures Answer(s, echo, at).log == s.log + more && Pingless(more) && Unclosed(more)
  {
    if s.header.code == PING {
      more := [Sent(Frame(true, PONG, if s.header.payloadLen == 0 then [] else echo), s.session, at)];
    } else {
      more := [];
      assert s.log + [] == s.log;
    }
  }

  lemma PinglessBoth(a: Log, b: Log)
    ensures Pingless(a) && Pingless(b) ==> Pingless(a + b)
    ensures Unclosed(a) && Unclosed(b) ==> Unclosed(a + b)
  {
  }

  lemma DataPingless(events: seq<WsReceiver.DataEvent>)
    ensures Pingless(DataEntries(events)) && Pingless([]) && Unclosed(DataEntries(events)) && Unclosed([])
  {
  }

  lemma ReceiveGrows(cfg: Config, s: State, t: Readings, replies: seq<WsReceiver.Read>) returns (more: Log)
    ensures Receive(cfg, s, t, replies).log == s.log + more && Pingless(more) && Unclosed(more)
  {
    hide Receive, WsReceiver.RecvLoop, Fail, Answer, LastPiece, DataEntries, Pingless, Unclosed;
    var r := WsReceiver.RecvLoop(replies, s.header, 0);
    var read := s.(pingTick := t[4], header := r.header, payloadOffset := r.offset,
                   log := s.log + DataEntries(r.events));
    ReceiveCases(cfg, s, t, replies);
    DataPingless(r.events);
    if r.status == WsReceiver.Broken {
      var last := FailGrows(cfg, read, TcpTransport, t[5]);
      more := DataEntries(r.events) + last;
      PinglessBoth(DataEntries(r.events), last);
    } else if r.status == WsReceiver.Whole {
      var last := AnswerGrows(read, LastPiece(r.events), t[5]);
      more := DataEntries(r.events) + last;
      PinglessBoth(DataEntries(r.events), last);
    } else {
      more := DataEntries(r.events);
      assert Receive(cfg, s, t, replies) == read;
    }
  }

  lemma PingGrows(cfg: Config, s: State, t: Readings) returns (more: Log)
    ensures MaybePing(cfg, s, t).log == s.log + more && Unclosed(more)
  {
    hide Elapsed;
    if Elapsed(t[0], s.pingTick) > PingIntervalMs(s.pingIntervalSec) {
      more := [PingStamp(t[1], PingIntervalMs(s.pingIntervalSec))] + [Sent(Frame(true, PING, []), s.session, t[2])];
    } else {
      more := [];
      assert s.log + [] == s.log;
    }
  }

  lemma ConnectedGrows(cfg: Config, s: State, t: Readings, replies: seq<WsReceiver.Read>) returns (more: Log)
    ensures SwitchConnected(cfg, s, t, replies).log == s.log + more
    ensures (s.closeFrameSent ==> Pingless(more)) && Unclosed(more)
  {
    hide Fail, Receive, PongOverdue, MaybePing, Pingless, Unclosed;
    DataPingless([]);
    assert s.log + [] == s.log;
    if s.closeFrameSent {
      more := [];
      if s.readSelect != 0 {
        more := ReceiveGrows(cfg, s, t, replies);
      }
    } else {
      var p := MaybePing(cfg, s, t);
      var pinged := PingGrows(cfg, s, t);
      var rest: Log := [];
      assert p.log + [] == p.log;
      if PongOverdue(cfg, p, t) {
        rest := FailGrows(cfg, p, PongTimeout, t[4]);
      } else if s.readSelect != 0 {
        rest := ReceiveGrows(cfg, p, t, replies);
      }
      more := pinged + rest;
      PinglessBoth(pinged, rest);
      assert (s.log + pinged) + rest == s.log + more;
    }
  }

  lemma InitGrows(cfg: Config, s: State, t: Readings, connect: int) returns (more: Log)
    ensures SwitchInit(cfg, s, t, connect).log == s.log + more && Pingless(more) && Unclosed(more)
  {
    hide Fail;
    var begun := [Event(BeforeConnectEvent)] + [Attempt(t[0])];
    var trying := Add(Add(s, Event(BeforeConnectEvent)), Attempt(t[0]));
    assert trying.log == s.log + begun;
    if !cfg.hasTransport {
      more := [];
      assert s.log + [] == s.log;
    } else if connect < 0 {
      var rest := FailGrows(cfg, trying, TcpTransport, t[1]);
      more := begun + rest;
      assert (s.log + begun) + rest == s.log + more;
    } else {
      more := begun + [Event(ConnectedEvent)];
      assert (s.log + begun) + [Event(ConnectedEvent)] == s.log + more;
    }
  }

  lemma ClosingGrows(s: State, t: Readings) returns (more: Log)
    ensures SwitchClosing(s, t).log == s.log + more && Pingless(more) && Unclosed(more)
  {
    more := if s.closeFrameSent then [] else [Sent(Frame(true, CLOSE, []), s.session, t[0])];
    assert s.log + [] == s.log;
  }

  lemma SwitchGrows(cfg: Config, s: State, t: Readings, connect: int, replies: seq<WsReceiver.Read>) returns (more: Log)
    ensures Switch(cfg, s, t, connect, replies).log == s.log + more
    ensures (s.closeFrameSent ==> Pingless(more)) && Unclosed(more)
  {
    hide SwitchInit, SwitchConnected, SwitchClosing, Pingless, Unclosed;
    match s.conn {
      case Init => more := InitGrows(cfg, s, t, connect);
      case Connected => more := ConnectedGrows(cfg, s, t, replies);
      case Closing => more := ClosingGrows(s, t);
      case _ =>
        more := [];
        DataPingless([]);
        assert s.log + [] == s.log;
    }
  }

  lemma SendGrows(cfg: Config, s: State, code: nat, data: seq<Byte>, net: WsSender.Transport, at: nat)
    returns (more: Log)
    requires cfg.bufferSize > 0
    ensures SendLocked(cfg, s, code, data, net, at).log == s.log + more && Pingless(more) && Unclosed(more)
  {
    more := [];
    assert s.log + [] == s.log;
    hide WsSender.SendExact, Fail;
    if s.conn == Connected && cfg.hasTransport {
      var r := WsSender.SendExact(cfg.bufferSize, OpWord(true, code), data, net);
      var entries := SentEntries(r.frames, s.session, at);
      var sent := s.(log := s.log + entries);
      var rest := FailGrows(cfg, sent, TcpTransport, at);
      more := if r.failed then entries + rest else entries;
      assert sent.log + rest == s.log + (entries + rest);
    }
  }

  lemma UnlockGrows(s: State, poll: int, closedPoll: int) returns (more: Log)
    ensures AfterUnlock(s, poll, closedPoll).log == s.log + more && Pingless(more)
  {
    assert s.log + [] == s.log;
    more := if s.conn == Closing && s.closeFrameSent && closedPoll != 0 then [Event(ClosedEvent)] else [];
  }

  /** What the remaining steps log. */
  lemma SimpleLog(cfg: Config, s: State, a: Action)
    requires cfg.bufferSize > 0
    requires !a.RunSwitch? && !a.SendMessage?
    ensures Perform(cfg, s, a).log ==
              match a
              case RunUnlocked(poll, closedPoll) => AfterUnlock(s, poll, closedPoll).log
              case CheckPoll => if s.readSelect < 0 then s.log + [Event(ErrorEvent)] else s.log
              case StateAbort => s.log + [Aborted(TcpTransport, s.session, AbortTime(cfg, s))]
              case EventAbort => s.log + [Event(DisconnectedEvent)]
              case _ => s.log
  {
    hide Switch, SendLocked, AfterUnlock, AbortTime;
  }

  lemma SimpleGrows(cfg: Config, s: State, a: Action) returns (more: Log)
    requires cfg.bufferSize > 0
    requires !a.RunSwitch? && !a.SendMessage?
    ensures Perform(cfg, s, a).log == s.log + more && Pingless(more) && (!a.RunUnlocked? ==> Unclosed(more))
  {
    hide Perform, AfterUnlock, AbortTime;
    SimpleLog(cfg, s, a);
    assert s.log + [] == s.log;
    match a {
      case RunUnlocked(poll, closedPoll) => more := UnlockGrows(s, poll, closedPoll);
      case CheckPoll => more := if s.readSelect < 0 then [Event(ErrorEvent)] else [];
      case StateAbort => more := [Aborted(TcpTransport, s.session, AbortTime(cfg, s))];
      case EventAbort => more := [Event(DisconnectedEvent)];
      case _ => more := [];
    }
  }

  /** A step only adds to the log; once the close bit is set, neither a PING nor a PONG timeout. CLOSED comes from no
      other step than the one that polls for the server's TCP close. */
  lemma StepGrows(cfg: Config, s: State, a: Action) returns (more: Log)
    requires cfg.bufferSize > 0
    ensures Step(cfg, s, a).log == s.log + more
    ensures s.closeFrameSent ==> Pingless(more)
    ensures !a.RunUnlocked? ==> Unclosed(more)
  {
    DataPingless([]);
    hide Switch, SendLocked, AfterUnlock, Enabled, Pingless, Unclosed;
    if !Enabled(s, a) {
      more := [];
      assert s.log + [] == s.log;
    } else if a.RunSwitch? {
      more := SwitchGrows(cfg, s, a.t, a.connect, a.replies);
    } else if a.SendMessage? {
      more := SendGrows(cfg, s, a.code, a.data, a.net, a.at);
    } else {
      hide Perform;
      more := SimpleGrows(cfg, s, a);
    }
  }

  lemma ReceiveGoesTo(cfg: Config, s: State, t: Readings, replies: seq<WsReceiver.Read>)
    requires s.conn == Connected
    ensures var after := Receive(cfg, s, t, replies);
            && (after.conn == Connected || after.conn == WaitTimeout || after.conn == Closing)
            && (after.conn == Closing ==> after.log != [] && Completes(after.log[|after.log| - 1], CLOSE))
  {
    hide Receive, WsReceiver.RecvLoop, Answer, Fail, DataEntries, LastPiece, Completes;
    var r := WsReceiver.RecvLoop(replies, s.header, 0);
    var read := s.(pingTick := t[4], header := r.header, payloadOffset := r.offset,
                   log := s.log + DataEntries(r.events));
    ReceiveCases(cfg, s, t, replies);
    if r.status == WsReceiver.Broken {
      FailCases(cfg, read, TcpTransport, t[5]);
    } else if r.status == WsReceiver.Whole {
      DataCompletes(replies, s.header, CLOSE);
      AnswerCases(read, LastPiece(r.events), t[5]);
    } else {
      assert Receive(cfg, s, t, replies) == read;
    }
  }

  /** Where the switch can take a connected client, and what the log ends with if it is closing. */
  lemma SwitchConnectedGoesTo(cfg: Config, s: State, t: Readings, replies: seq<WsReceiver.Read>)
    requires s.conn == Connected
    ensures var after := SwitchConnected(cfg, s, t, replies);
            && (after.conn == Connected || after.conn == WaitTimeout || after.conn == Closing)
            && (after.conn == Closing ==> after.log != [] && Completes(after.log[|after.log| - 1], CLOSE))
  {
    hide MaybePing, Receive, PongOverdue, Fail;
    var pinged := if s.closeFrameSent then s else MaybePing(cfg, s, t);
    PingFrame(cfg, s, t);
    if !s.closeFrameSent && PongOverdue(cfg, pinged, t) {
      FailCases(cfg, pinged, PongTimeout, t[4]);
    } else if s.readSelect != 0 {
      ReceiveGoesTo(cfg, pinged, t, replies);
    }
  }

  lemma SwitchInitGoesTo(cfg: Config, s: State, t: Readings, connect: int)
    requires s.conn == Init
    ensures var after := SwitchInit(cfg, s, t, connect);
            after.conn == Init || after.conn == Connected || after.conn == WaitTimeout
  {
    hide Fail;
    FailCases(cfg, Add(Add(s, Event(BeforeConnectEvent)), Attempt(t[0])), TcpTransport, t[1]);
  }

  lemma SwitchGoesTo(cfg: Config, s: State, t: Readings, connect: int, replies: seq<WsReceiver.Read>)
    ensures var after := Switch(cfg, s, t, connect, replies);
            && (s.conn != Init && after.conn == Init ==> s.conn == WaitTimeout)
            && (s.conn != Closing && after.conn == Closing ==>
                  after.log != [] && Completes(after.log[|after.log| - 1], CLOSE))
  {
    hide SwitchConnected, SwitchInit, Elapsed;
    if s.conn == Connected {
      SwitchConnectedGoesTo(cfg, s, t, replies);
    } else if s.conn == Init {
      SwitchInitGoesTo(cfg, s, t, connect);
    }
  }

  lemma OthersGoTo(cfg: Config, s: State, a: Action)
    requires cfg.bufferSize > 0
    requires !a.RunSwitch?
    ensures var after := Perform(cfg, s, a);
            (after.conn == s.conn || after.conn == WaitTimeout || after.conn == Unknown)
  {
    hide SendLocked, Switch;
    if a.SendMessage? {
      SendGoesTo(cfg, s, a.code, a.data, a.net, a.at);
    }
  }

  /** INIT is entered only from the wait state; CLOSING only by the receiver's processing of a CLOSE frame. */
  lemma EntersInitOrClosing(cfg: Config, s: State, a: Action)
    requires cfg.bufferSize > 0
    ensures s.conn != Init && Step(cfg, s, a).conn == Init ==>
              a.RunSwitch? && Enabled(s, a) && s.conn == WaitTimeout
    ensures s.conn != Closing && Step(cfg, s, a).conn == Closing ==>
              && Step(cfg, s, a).pc == Unlocked
              && Step(cfg, s, a).log != []
              && Completes(Step(cfg, s, a).log[|Step(cfg, s, a).log| - 1], CLOSE)
  {
    hide Enabled, Switch, SendLocked, AfterUnlock;
    if !Enabled(s, a) {
    } else if a.RunSwitch? {
      SwitchGoesTo(cfg, s, a.t, a.connect, a.replies);
    } else {
      OthersGoTo(cfg, s, a);
      hide Perform;
    }
  }

  lemma SendGoesTo(cfg: Config, s: State, code: nat, data: seq<Byte>, net: WsSender.Transport, at: nat)
    requires cfg.bufferSize > 0
    ensures var after := SendLocked(cfg, s, code, data, net, at);
            after.conn == s.conn || after.conn == WaitTimeout
  {
    hide WsSender.SendExact, SentEntries, Fail;
    var r := WsSender.SendExact(cfg.bufferSize, OpWord(true, code), data, net);
    if s.conn == Connected {
      FailCases(cfg, s.(log := s.log + SentEntries(r.frames, s.session, at)), TcpTransport, at);
    }
  }

  /** Main result: in every schedule the switch only ever acts on a poll of the present connection, and never
      on a failed one; so the receiver runs only when that poll reported data. */
  lemma PollResultFresh(cfg: Config, s: State, actions: seq<Action>)
    requires cfg.bufferSize > 0
    requires Entering(cfg, s)
    ensures var now := Run(cfg, s, actions);
            now.conn == Connected && (now.pc == LoopTest || now.pc == Switching) ==>
              now.polledSession == now.session && now.readSelect >= 0
  {
    EnteringInv(cfg, s);
    RunKeeps(cfg, s, actions);
  }

  /** Main result: N connection attempts span at least (N - 1) * (wait_timeout_ms + 1) milliseconds; without
      auto-reconnect there is at most one. */
  lemma ReconnectRate(cfg: Config, s: State, actions: seq<Action>)
    requires cfg.bufferSize > 0
    requires Entering(cfg, s)
    ensures var times := AttemptTimes(Run(cfg, s, actions).log);
            && (!cfg.autoReconnect ==> |times| <= 1)
            && forall i, k :: 0 <= i <= k < |times| ==> times[k] - times[i] >= (k - i) * (cfg.waitTimeoutMs + 1)
  {
    EnteringInv(cfg, s);
    RunKeeps(cfg, s, actions);
    var times := AttemptTimes(Run(cfg, s, actions).log);
    forall i, k | 0 <= i <= k < |times|
      ensures times[k] - times[i] >= (k - i) * (cfg.waitTimeoutMs + 1)
    {
      SpacedSpan(times, cfg.waitTimeoutMs + 1, i, k);
    }
  }

  /** Main result: a PONG_TIMEOUT abort means a PING of the same connection, handed over more than the limit
      ago, that no PONG has answered; none happens when the check is disabled; and PING stamps are further
      apart than the interval in force, across reconnects. */
  lemma PongTimeoutSound(cfg: Config, s: State, actions: seq<Action>)
    requires cfg.bufferSize > 0
    requires Entering(cfg, s)
    ensures var log := Run(cfg, s, actions).log;
            && PongTimeoutsSound(log, cfg.pingpongTimeoutSec * 1000 % 0x1_0000_0000_0000_0000)
            && (cfg.pingpongTimeoutSec == 0 ==> NoPongTimeout(log))
            && PingsSpaced(log)
  {
    EnteringInv(cfg, s);
    RunKeeps(cfg, s, actions);
  }
}
