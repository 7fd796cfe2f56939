/** What a send under the lock puts on the wire of a connected client, and what it does when it fails. */
module WsSends {
  import opened WsFrames
  import opened WsLog
  import opened WsSession
  import WsDecisions
  import WsSender

  /** The send is over: nothing changed but what was sent. */
  ghost predicate Delivered(s: State, after: State, frames: seq<Frame>, at: nat) {
    after == s.(log := s.log + SentEntries(frames, s.session, at))
  }

  /** The send failed after these frames: an ERROR, the abort and a DISCONNECTED follow them. */
  ghost predicate GaveUp(s: State, after: State, frames: seq<Frame>, at: nat) {
    && after.conn == WaitTimeout
    && after.log == s.log + SentEntries(frames, s.session, at)
                    + [Event(ErrorEvent), Aborted(TcpTransport, s.session, at), Event(DisconnectedEvent)]
  }

  /** Main result: over any transport, a locked text or binary send puts frames of its own opcode, on the first only,
      and of its own data on the wire. It has delivered all of the data and left the client connected, as one message
      if and only if the transport took every FIN chunk whole; or it has given up after a part of it. */
  lemma SendPutsOnWire(cfg: Config, s: State, code: nat, data: seq<Byte>, net: WsSender.Transport, at: nat)
    returns (frames: seq<Frame>)
    requires cfg.bufferSize > 0 && s.conn == Connected && cfg.hasTransport && code in {TEXT, BINARY}
    ensures var after := SendLocked(cfg, s, code, data, net, at);
            && OpcodeFirst(frames, code)
            && Payload(frames) <= data
            && (Delivered(s, after, frames, at) || GaveUp(s, after, frames, at))
            && (after.conn == Connected ==>
                  && Payload(frames) == data
                  && (IsMessage(frames, code) <==> WsSender.FinTakenWhole(cfg.bufferSize, data, 0, 0, net)))
            && (WsSender.SendExact(cfg.bufferSize, OpWord(true, code), data, net).ret == |data| <==>
                  after.conn == Connected)
            && (WsSender.WholeOrFail(net, cfg.bufferSize) && after.conn != Connected ==> NoFin(frames))
            && (WsSender.Whole(net, cfg.bufferSize) ==>
                  && after.conn == Connected && IsMessage(frames, code)
                  && |frames| == WsSender.FrameCount(cfg.bufferSize, |data|))
  {
    hide WsSender.SendLoop, WsSender.FinTakenWhole, WsSender.Whole, WsSender.WholeOrFail, WsSender.FrameCount, Fail,
         SentEntries, OpcodeFirst, NoFin, IsMessage, Payload;
    var r := WsSender.SendExact(cfg.bufferSize, OpWord(true, code), data, net);
    frames := r.frames;
    WsSender.LoopCarriesData(cfg.bufferSize, OpWord(true, code), true, data, 0, 0, net);
    WsSender.SendIsMessageIff(cfg.bufferSize, code, data, net);
    assert data[0..] == data;
    WholeFails(net, cfg.bufferSize);
    if WsSender.WholeOrFail(net, cfg.bufferSize) {
      WsSender.SendFragments(cfg.bufferSize, code, data, net);
    }
    WsDecisions.FailureEffect(cfg, s.(log := s.log + SentEntries(frames, s.session, at)), TcpTransport, at);
  }

  /** The frames of a send stand on the log, with the message's opcode and data. */
  ghost predicate OnWire(was: Log, now: Log, frames: seq<Frame>, code: nat, data: seq<Byte>, session: nat, at: nat) {
    was + SentEntries(frames, session, at) <= now && OpcodeFirst(frames, code) && Payload(frames) <= data
  }

  /** The same of the returned value. */
  lemma SendReturns(cfg: Config, s: State, code: nat, data: seq<Byte>, net: WsSender.Transport, at: nat)
    requires cfg.bufferSize > 0 && s.conn == Connected && cfg.hasTransport && code in {TEXT, BINARY}
    ensures var after := SendLocked(cfg, s, code, data, net, at);
            var ret := WsSender.SendExact(cfg.bufferSize, OpWord(true, code), data, net).ret;
            && (ret == |data| <==> after.conn == Connected)
            && (WsSender.Whole(net, cfg.bufferSize) ==> ret == |data|)
            && exists frames ::
                 && OnWire(s.log, after.log, frames, code, data, s.session, at)
                 && (ret == |data| ==> Payload(frames) == data)
                 && (WsSender.Whole(net, cfg.bufferSize) ==> IsMessage(frames, code))
  {
    hide SendLocked, WsSender.SendExact, WsSender.FinTakenWhole, WsSender.Whole, WsSender.WholeOrFail,
         WsSender.FrameCount, SentEntries, OpcodeFirst, NoFin, IsMessage, Payload;
    var frames := SendPutsOnWire(cfg, s, code, data, net, at);
    assert OnWire(s.log, SendLocked(cfg, s, code, data, net, at).log, frames, code, data, s.session, at);
  }

  lemma WholeFails(net: WsSender.Transport, bufferSize: nat)
    ensures WsSender.Whole(net, bufferSize) ==> WsSender.WholeOrFail(net, bufferSize)
  {
  }

  /** Without a connection, or a transport, nothing is sent and nothing changes. */
  lemma SendNeedsConnection(cfg: Config, s: State, code: nat, data: seq<Byte>, net: WsSender.Transport, at: nat)
    requires cfg.bufferSize > 0
    ensures s.conn != Connected || !cfg.hasTransport ==> SendLocked(cfg, s, code, data, net, at) == s
  {
    hide SendExact;
  }
}
