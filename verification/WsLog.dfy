/** The history of a session: dispatched events, frames handed to the transport, connection attempts
    and aborts, in the order they happen, and the ordering properties promised of it. */
module WsLog {
  import opened WsFrames
  import WsReceiver

  datatype EventId =
    | ErrorEvent
    | ConnectedEvent
    | DisconnectedEvent
    | DataEvent(data: WsReceiver.DataEvent)
    | ClosedEvent
    | BeforeConnectEvent

  datatype AbortReason = TcpTransport | PongTimeout

  datatype Entry =
    | Event(id: EventId)
    // esp_transport_connect was called
    | Attempt(at: nat)
    // a frame was handed to the transport of connection number `session`, no later than `at`
    | Sent(frame: Frame, session: nat, at: nat)
    // ping_tick_ms was set for a PING while the configured interval was `intervalMs`
    | PingStamp(at: nat, intervalMs: nat)
    | Aborted(why: AbortReason, session: nat, at: nat)

  type Log = seq<Entry>

  // --- CONNECTED and BEFORE_CONNECT -------------------------------------------------------------

  /** Entry `i` is an event whose preceding event is BEFORE_CONNECT. */
  ghost predicate FollowsBeforeConnect(log: Log, i: nat)
    requires i < |log|
  {
    exists j :: 0 <= j < i && log[j] == Event(BeforeConnectEvent) && forall k :: j < k < i ==> !log[k].Event?
  }

  ghost predicate ConnectedAnnounced(log: Log) {
    forall i :: 0 <= i < |log| && log[i] == Event(ConnectedEvent) ==> FollowsBeforeConnect(log, i)
  }

  /** Some entry strictly between `i` and `k` is `e`. */
  ghost predicate Between(log: Log, i: int, k: int, e: Entry) {
    exists j :: 0 <= i < j < k <= |log| && log[j] == e
  }

  ghost predicate AbortBetween(log: Log, i: int, k: int) {
    exists j :: 0 <= i < j < k <= |log| && log[j].Aborted?
  }

  ghost predicate ConnectionsSeparated(log: Log) {
    forall i, k :: 0 <= i < k < |log| && log[i] == Event(ConnectedEvent) && log[k] == Event(ConnectedEvent) ==>
      Between(log, i, k, Event(DisconnectedEvent))
  }

  /** Every CONNECTED so far has been followed by a DISCONNECTED. */
  ghost predicate ConnectionsSettled(log: Log) {
    forall i :: 0 <= i < |log| && log[i] == Event(ConnectedEvent) ==>
      Between(log, i, |log|, Event(DisconnectedEvent))
  }

  ghost predicate AttemptsSeparated(log: Log) {
    forall i, k :: 0 <= i < k < |log| && log[i].Attempt? && log[k].Attempt? ==> AbortBetween(log, i, k)
  }

  ghost predicate AttemptsSettled(log: Log) {
    forall i :: 0 <= i < |log| && log[i].Attempt? ==> AbortBetween(log, i, |log|)
  }

  // --- PING and PONG ------------------------------------------------------------------------------

  /** A DATA event with the last bytes of a frame of this opcode. */
  predicate Completes(e: Entry, code: nat) {
    && e.Event? && e.id.DataEvent? && e.id.data.header.code == code
    && e.id.data.offset + |e.id.data.data| >= e.id.data.header.payloadLen
  }

  /** A PING of connection `session`, handed over no later than `latest`, after which and before entry `end` no PONG has
      arrived. */
  ghost predicate UnansweredPing(log: Log, end: int, session: nat, latest: nat) {
    exists j :: 0 <= j < end <= |log|
      && log[j].Sent? && log[j].frame == Frame(true, PING, []) && log[j].session == session && log[j].at <= latest
      && forall k :: j < k < end ==> !Completes(log[k], PONG)
  }

  /** Every PONG_TIMEOUT abort is due to a PING of the same connection left unanswered for more than `limit` ms. */
  ghost predicate PongTimeoutsSound(log: Log, limit: nat) {
    forall i :: 0 <= i < |log| && log[i].Aborted? && log[i].why == PongTimeout ==>
      log[i].at > limit && UnansweredPing(log, i, log[i].session, log[i].at - limit - 1)
  }

  ghost predicate NoPongTimeout(log: Log) {
    forall i :: 0 <= i < |log| && log[i].Aborted? ==> log[i].why != PongTimeout
  }

  ghost predicate PingsSpaced(log: Log) {
    forall i, k :: 0 <= i < k < |log| && log[i].PingStamp? && log[k].PingStamp? ==>
      log[k].at - log[i].at > log[k].intervalMs
  }

  ghost predicate PingsBy(log: Log, at: nat) {
    forall i :: 0 <= i < |log| && log[i].PingStamp? ==> log[i].at <= at
  }

  // --- Attempts -----------------------------------------------------------------------------------

  function AttemptTimes(log: Log): seq<nat> {
    if log == [] then []
    else
      var e := log[|log| - 1];
      AttemptTimes(log[..|log| - 1]) + if e.Attempt? then [e.at] else []
  }

  ghost predicate Spaced(times: seq<nat>, gap: nat) {
    forall i :: 0 <= i < |times| - 1 ==> times[i + 1] >= times[i] + gap
  }

  lemma SpacedOne(times: seq<nat>, gap: nat, at: nat)
    requires Spaced(times, gap)
    requires times != [] ==> at >= times[|times| - 1] + gap
    ensures Spaced(times + [at], gap)
  {
  }

  lemma {:induction false} SpacedSpan(times: seq<nat>, gap: nat, i: nat, k: nat)
    requires Spaced(times, gap) && i <= k < |times|
    ensures times[k] - times[i] >= (k - i) * gap
  {
    if i < k {
      SpacedSpan(times, gap, i, k - 1);
      assert times[k] >= times[k - 1] + gap;
      assert (k - i) * gap == (k - 1 - i) * gap + gap;
    }
  }

  // --- Growing the log ----------------------------------------------------------------------------

  /** An entry that none of the ordering properties constrains. */
  predicate Neutral(e: Entry) {
    && e != Event(ConnectedEvent)
    && !e.Attempt?
    && !e.PingStamp?
    && (e.Aborted? ==> e.why != PongTimeout)
  }

  /** The ordering properties kept at every moment of a session. */
  ghost predicate WellOrdered(log: Log, limit: nat) {
    && ConnectedAnnounced(log)
    && ConnectionsSeparated(log)
    && AttemptsSeparated(log)
    && PongTimeoutsSound(log, limit)
    && PingsSpaced(log)
  }

  lemma BetweenGrows(log: Log, more: Log, i: int, k: int, e: Entry)
    requires Between(log, i, k, e)
    ensures Between(log + more, i, k, e)
    ensures forall n :: k <= n <= |log + more| ==> Between(log + more, i, n, e)
  {
    var j :| 0 <= i < j < k <= |log| && log[j] == e;
    assert (log + more)[j] == e;
  }

  lemma AbortBetweenGrows(log: Log, more: Log, i: int, k: int)
    requires AbortBetween(log, i, k)
    ensures AbortBetween(log + more, i, k)
    ensures forall n :: k <= n <= |log + more| ==> AbortBetween(log + more, i, n)
  {
    var j :| 0 <= i < j < k <= |log| && log[j].Aborted?;
    assert (log + more)[j].Aborted?;
  }

  lemma UnansweredGrows(log: Log, more: Log, end: int, session: nat, latest: nat)
    requires UnansweredPing(log, end, session, latest)
    ensures UnansweredPing(log + more, end, session, latest)
    ensures end == |log| && (forall k :: 0 <= k < |more| ==> !Completes(more[k], PONG)) ==>
              UnansweredPing(log + more, |log + more|, session, latest)
  {
    var j :| 0 <= j < end <= |log|
      && log[j].Sent? && log[j].frame == Frame(true, PING, []) && log[j].session == session && log[j].at <= latest
      && forall k :: j < k < end ==> !Completes(log[k], PONG);
    assert (log + more)[j] == log[j];
  }

  lemma AnnouncedGrows(log: Log, more: Log, i: nat)
    requires i < |log| && FollowsBeforeConnect(log, i)
    ensures FollowsBeforeConnect(log + more, i)
  {
    var j :| 0 <= j < i && log[j] == Event(BeforeConnectEvent) && forall k :: j < k < i ==> !log[k].Event?;
    assert (log + more)[j] == Event(BeforeConnectEvent);
  }

  lemma SettledGrows(log: Log, e: Entry)
    ensures ConnectionsSettled(log) && e != Event(ConnectedEvent) ==> ConnectionsSettled(log + [e])
    ensures AttemptsSettled(log) && !e.Attempt? ==> AttemptsSettled(log + [e])
    ensures e == Event(DisconnectedEvent) ==> ConnectionsSettled(log + [e])
    ensures e.Aborted? ==> AttemptsSettled(log + [e])
  {
    var all := log + [e];
    assert all[|log|] == e;
    forall i | 0 <= i < |all| && all[i] == Event(ConnectedEvent) && e != Event(ConnectedEvent) &&
               (ConnectionsSettled(log) || e == Event(DisconnectedEvent))
      ensures Between(all, i, |all|, Event(DisconnectedEvent))
    {
      if ConnectionsSettled(log) {
        assert log[i] == Event(ConnectedEvent);
        BetweenGrows(log, [e], i, |log|, Event(DisconnectedEvent));
      }
    }
    forall i | 0 <= i < |all| && all[i].Attempt? && !e.Attempt? && (AttemptsSettled(log) || e.Aborted?)
      ensures AbortBetween(all, i, |all|)
    {
      if AttemptsSettled(log) {
        assert log[i].Attempt?;
        AbortBetweenGrows(log, [e], i, |log|);
      }
    }
  }

  /** One more entry keeps the ordering provided the entry itself is in order. */
  lemma OneMore(log: Log, e: Entry, limit: nat, was: nat)
    requires WellOrdered(log, limit)
    requires e == Event(ConnectedEvent) ==> ConnectionsSettled(log) && FollowsBeforeConnect(log + [e], |log|)
    requires e.Attempt? ==> AttemptsSettled(log)
    requires e.Aborted? && e.why == PongTimeout ==>
               e.at > limit && UnansweredPing(log, |log|, e.session, e.at - limit - 1)
    requires PingsBy(log, was) && (e.PingStamp? ==> e.at - was > e.intervalMs)
    ensures WellOrdered(log + [e], limit)
  {
    var all := log + [e];
    forall i | 0 <= i < |all| && all[i] == Event(ConnectedEvent)
      ensures FollowsBeforeConnect(all, i)
    {
      if i < |log| {
        AnnouncedGrows(log, [e], i);
      }
    }
    forall i, k | 0 <= i < k < |all| && all[i] == Event(ConnectedEvent) && all[k] == Event(ConnectedEvent)
      ensures Between(all, i, k, Event(DisconnectedEvent))
    {
      assert log[i] == Event(ConnectedEvent);
      BetweenGrows(log, [e], i, k, Event(DisconnectedEvent));
    }
    forall i, k | 0 <= i < k < |all| && all[i].Attempt? && all[k].Attempt?
      ensures AbortBetween(all, i, k)
    {
      assert log[i].Attempt?;
      AbortBetweenGrows(log, [e], i, k);
    }
    forall i | 0 <= i < |all| && all[i].Aborted? && all[i].why == PongTimeout
      ensures all[i].at > limit && UnansweredPing(all, i, all[i].session, all[i].at - limit - 1)
    {
      UnansweredGrows(log, [e], i, all[i].session, all[i].at - limit - 1);
    }
  }

  lemma AttemptTimesOne(log: Log, e: Entry)
    ensures AttemptTimes(log + [e]) == if e.Attempt? then AttemptTimes(log) + [e.at] else AttemptTimes(log)
  {
    assert (log + [e])[..|log + [e]| - 1] == log;
  }

  /** All that is kept of the log: its order, no PONG_TIMEOUT when the check is disabled, and no PING
      stamped later than `pingTick`. */
  ghost predicate LogInv(log: Log, limit: nat, pongChecked: bool, pingTick: nat) {
    && WellOrdered(log, limit)
    && (!pongChecked ==> NoPongTimeout(log))
    && PingsBy(log, pingTick)
  }

  /** Two logs agree on what later steps depend on. */
  ghost predicate Continues(log: Log, after: Log) {
    && AttemptTimes(after) == AttemptTimes(log)
    && (ConnectionsSettled(log) ==> ConnectionsSettled(after))
    && (AttemptsSettled(log) ==> AttemptsSettled(after))
  }

  lemma PingsGrow(log: Log, e: Entry, was: nat, pingTick: nat)
    requires PingsBy(log, was) && was <= pingTick && (e.PingStamp? ==> e.at <= pingTick)
    ensures PingsBy(log + [e], pingTick)
  {
  }

  lemma TimeoutsGrow(log: Log, e: Entry)
    ensures NoPongTimeout(log) && (e.Aborted? ==> e.why != PongTimeout) ==> NoPongTimeout(log + [e])
  {
  }

  /** One entry of any kind. */
  lemma Grow(log: Log, e: Entry, limit: nat, pongChecked: bool, was: nat, pingTick: nat)
    requires LogInv(log, limit, pongChecked, was) && was <= pingTick
    requires e == Event(ConnectedEvent) ==> ConnectionsSettled(log) && FollowsBeforeConnect(log + [e], |log|)
    requires e.Attempt? ==> AttemptsSettled(log)
    requires e.Aborted? && e.why == PongTimeout ==>
               pongChecked && e.at > limit && UnansweredPing(log, |log|, e.session, e.at - limit - 1)
    requires e.PingStamp? ==> e.at - was > e.intervalMs && e.at <= pingTick
    ensures LogInv(log + [e], limit, pongChecked, pingTick)
    ensures AttemptTimes(log + [e]) == if e.Attempt? then AttemptTimes(log) + [e.at] else AttemptTimes(log)
    ensures (ConnectionsSettled(log) && e != Event(ConnectedEvent)) || e == Event(DisconnectedEvent) ==>
              ConnectionsSettled(log + [e])
    ensures (AttemptsSettled(log) && !e.Attempt?) || e.Aborted? ==> AttemptsSettled(log + [e])
  {
    OneMore(log, e, limit, was);
    AttemptTimesOne(log, e);
    SettledGrows(log, e);
    PingsGrow(log, e, was, pingTick);
    TimeoutsGrow(log, e);
    hide WellOrdered, NoPongTimeout, PingsBy, AttemptTimes, ConnectionsSettled, AttemptsSettled, UnansweredPing,
      FollowsBeforeConnect;
  }

  lemma StillUnanswered(log: Log, more: Log, session: nat, latest: nat)
    requires UnansweredPing(log, |log|, session, latest)
    requires forall k :: 0 <= k < |more| ==> !Completes(more[k], PONG)
    ensures UnansweredPing(log + more, |log + more|, session, latest)
  {
    UnansweredGrows(log, more, |log|, session, latest);
  }

  /** One neutral entry. */
  lemma GrowPlain(log: Log, e: Entry, limit: nat, pongChecked: bool, pingTick: nat)
    requires LogInv(log, limit, pongChecked, pingTick)
    requires Neutral(e)
    ensures LogInv(log + [e], limit, pongChecked, pingTick) && Continues(log, log + [e])
    ensures e == Event(DisconnectedEvent) ==> ConnectionsSettled(log + [e])
    ensures e.Aborted? ==> AttemptsSettled(log + [e])
  {
    Grow(log, e, limit, pongChecked, pingTick, pingTick);
  }

  /** Any number of neutral entries. */
  lemma {:induction false} GrowNeutral(log: Log, more: Log, limit: nat, pongChecked: bool, was: nat, pingTick: nat)
    requires LogInv(log, limit, pongChecked, was) && was <= pingTick
    requires forall k :: 0 <= k < |more| ==> Neutral(more[k])
    ensures LogInv(log + more, limit, pongChecked, pingTick) && Continues(log, log + more)
    decreases |more|
  {
    hide LogInv, Continues, Neutral;
    LogInvLater(log, limit, pongChecked, was, pingTick);
    if more == [] {
      assert log + more == log;
      ContinuesOn(log, log, log);
    } else {
      var once := log + [more[0]];
      GrowPlain(log, more[0], limit, pongChecked, pingTick);
      GrowNeutral(once, more[1..], limit, pongChecked, pingTick, pingTick);
      assert once + more[1..] == log + more;
      ContinuesOn(log, once, log + more);
    }
  }

  lemma LogInvLater(log: Log, limit: nat, pongChecked: bool, was: nat, pingTick: nat)
    requires LogInv(log, limit, pongChecked, was) && was <= pingTick
    ensures LogInv(log, limit, pongChecked, pingTick)
  {
    hide WellOrdered, NoPongTimeout;
  }

  lemma ContinuesOn(a: Log, b: Log, c: Log)
    ensures Continues(a, a)
    ensures Continues(a, b) && Continues(b, c) ==> Continues(a, c)
  {
    hide AttemptTimes, ConnectionsSettled, AttemptsSettled;
  }

  /** ERROR, then an abort for any reason that is in order, and its DISCONNECTED settle everything. */
  lemma GrowAbort(log: Log, a: Entry, limit: nat, pongChecked: bool, pingTick: nat)
    requires LogInv(log, limit, pongChecked, pingTick) && a.Aborted?
    requires a.why == PongTimeout ==>
               pongChecked && a.at > limit && UnansweredPing(log, |log|, a.session, a.at - limit - 1)
    ensures var after := log + [Event(ErrorEvent)] + [a] + [Event(DisconnectedEvent)];
            && LogInv(after, limit, pongChecked, pingTick)
            && AttemptTimes(after) == AttemptTimes(log)
            && ConnectionsSettled(after)
            && AttemptsSettled(after)
  {
    hide LogInv, ConnectionsSettled, AttemptsSettled, UnansweredPing, AttemptTimes;
    var error := Event(ErrorEvent);
    GrowPlain(log, error, limit, pongChecked, pingTick);
    if a.why == PongTimeout {
      StillUnanswered(log, [error], a.session, a.at - limit - 1);
    }
    Grow(log + [error], a, limit, pongChecked, pingTick, pingTick);
    GrowPlain(log + [error] + [a], Event(DisconnectedEvent), limit, pongChecked, pingTick);
  }
}
