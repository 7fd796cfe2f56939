/** The fragmenting sender (esp_websocket_client_send_with_exact_opcode) as a function of the
    transport's answers, and what it puts on the wire. */
module WsSender {
  import opened WsFrames
  import Arith

  /** What one call of the sender did: the frames the transport took, whether it failed,
      the value returned, and how many transport calls it made. */
  datatype SendResult = SendResult(frames: seq<Frame>, failed: bool, ret: int, calls: nat)

  /** The transport's answer to its n-th call is an oracle; it never takes more than it is offered. */
  type Transport = nat -> int

  function Accepted(answer: int, offered: nat): (wlen: int)
    ensures wlen <= offered
    ensures answer <= offered ==> wlen == answer
  {
    if answer > offered then offered else answer
  }

  function Min(a: nat, b: nat): nat {
    if a < b then a else b
  }

  /** The opcode word of the chunk about to be sent: FIN is dropped while more than a buffer remains
      and put back on the last chunk of a send that asked for it. */
  function ChunkOp(bufferSize: nat, op: OpWord, wantFin: bool, remaining: nat): OpWord {
    if remaining > bufferSize then op.(fin := false)
    else if wantFin then op.(fin := true)
    else op
  }

  predicate WriteFails(wlen: int, offered: nat) {
    wlen < 0 || (wlen == 0 && offered != 0)
  }

  /** The sender's loop from position `widx`, at the transport's call number `call`. */
  function SendLoop(bufferSize: nat, op: OpWord, wantFin: bool, data: seq<Byte>, widx: nat,
                    call: nat, net: Transport): SendResult
    requires bufferSize > 0 && widx <= |data|
    decreases |data| - widx, op.NonZero()
  {
    if widx == |data| && !op.NonZero() then SendResult([], false, widx, call)
    else
      var remaining := |data| - widx;
      var offered := Min(remaining, bufferSize);
      var chunkOp := ChunkOp(bufferSize, op, wantFin, remaining);
      var wlen := Accepted(net(call), offered);
      if WriteFails(wlen, offered) then SendResult([], true, wlen, call + 1)
      else
        var frame := Frame(chunkOp.fin, chunkOp.code, data[widx..widx + wlen]);
        Prepend([frame], SendLoop(bufferSize, ZERO_OP, wantFin, data, widx + wlen, call + 1, net))
  }

  function Prepend(frames: seq<Frame>, r: SendResult): SendResult {
    r.(frames := frames + r.frames)
  }

  /** One turn of the loop, with `sent` already on the wire. */
  lemma SendLoopTurn(bufferSize: nat, op: OpWord, wantFin: bool, data: seq<Byte>, widx: nat,
                     call: nat, net: Transport, sent: seq<Frame>)
    requires bufferSize > 0 && widx <= |data|
    ensures var now := Prepend(sent, SendLoop(bufferSize, op, wantFin, data, widx, call, net));
            if widx == |data| && !op.NonZero() then now == SendResult(sent, false, widx, call)
            else
              var offered := Min(|data| - widx, bufferSize);
              var chunkOp := ChunkOp(bufferSize, op, wantFin, |data| - widx);
              var wlen := Accepted(net(call), offered);
              if WriteFails(wlen, offered) then now == SendResult(sent, true, wlen, call + 1)
              else
                now == Prepend(sent + [Frame(chunkOp.fin, chunkOp.code, data[widx..widx + wlen])],
                               SendLoop(bufferSize, ZERO_OP, wantFin, data, widx + wlen, call + 1, net))
  {
    assert sent + [] == sent;
    if widx < |data| || op.NonZero() {
      var offered := Min(|data| - widx, bufferSize);
      var chunkOp := ChunkOp(bufferSize, op, wantFin, |data| - widx);
      var wlen := Accepted(net(call), offered);
      if !WriteFails(wlen, offered) {
        var frame := Frame(chunkOp.fin, chunkOp.code, data[widx..widx + wlen]);
        var rest := SendLoop(bufferSize, ZERO_OP, wantFin, data, widx + wlen, call + 1, net);
        assert (sent + [frame]) + rest.frames == sent + ([frame] + rest.frames);
      }
    }
  }

  /** The first transport call of the loop, the position after it, and the frame it put on the wire. */
  lemma SendLoopStep(bufferSize: nat, op: OpWord, wantFin: bool, data: seq<Byte>, widx: nat, call: nat, net: Transport)
    returns (fails: bool, next: nat, frame: Frame)
    requires bufferSize > 0 && widx <= |data| && (widx < |data| || op.NonZero())
    ensures widx <= next <= |data| && (next > widx || widx == |data| || fails)
    ensures frame.code == op.code && frame.payload == data[widx..next]
    ensures frame.fin == if |data| - widx > bufferSize then false else op.fin || wantFin
    ensures fails == WriteFails(Accepted(net(call), Min(|data| - widx, bufferSize)), Min(|data| - widx, bufferSize))
    ensures !fails ==> next == widx + Accepted(net(call), Min(|data| - widx, bufferSize))
    ensures var r := SendLoop(bufferSize, op, wantFin, data, widx, call, net);
            var rest := SendLoop(bufferSize, ZERO_OP, wantFin, data, next, call + 1, net);
            if fails then
              r.failed && r.frames == [] && r.ret == Accepted(net(call), Min(|data| - widx, bufferSize))
            else r.failed == rest.failed && r.ret == rest.ret && r.frames == [frame] + rest.frames
  {
    var offered := Min(|data| - widx, bufferSize);
    var chunkOp := ChunkOp(bufferSize, op, wantFin, |data| - widx);
    var wlen := Accepted(net(call), offered);
    fails := WriteFails(wlen, offered);
    next := if fails then |data| else widx + wlen;
    frame := Frame(chunkOp.fin, chunkOp.code, data[widx..next]);
  }

  lemma SendLoopEnd(bufferSize: nat, wantFin: bool, data: seq<Byte>, call: nat, net: Transport)
    requires bufferSize > 0
    ensures SendLoop(bufferSize, ZERO_OP, wantFin, data, |data|, call, net) == SendResult([], false, |data|, call)
  {
  }

  /** esp_websocket_client_send_with_exact_opcode. */
  function SendExact(bufferSize: nat, op: OpWord, data: seq<Byte>, net: Transport): SendResult
    requires bufferSize > 0
  {
    SendLoop(bufferSize, op, op.fin, data, 0, 0, net)
  }

  /** With `sent` on the wire, the loop at position `widx` is on its way to `goal`. */
  predicate SendsTo(goal: SendResult, bufferSize: nat, op: OpWord, wantFin: bool, data: seq<Byte>, widx: nat,
                    call: nat, net: Transport, sent: seq<Frame>)
    requires bufferSize > 0 && widx <= |data|
  {
    goal == Prepend(sent, SendLoop(bufferSize, op, wantFin, data, widx, call, net))
  }

  lemma SendStarts(bufferSize: nat, op: OpWord, data: seq<Byte>, net: Transport)
    requires bufferSize > 0
    ensures SendsTo(SendExact(bufferSize, op, data, net), bufferSize, op, op.fin, data, 0, 0, net, [])
  {
    var r := SendLoop(bufferSize, op, op.fin, data, 0, 0, net);
    assert [] + r.frames == r.frames;
    hide SendLoop;
  }

  lemma SendsOn(goal: SendResult, bufferSize: nat, op: OpWord, wantFin: bool, data: seq<Byte>, widx: nat,
                call: nat, net: Transport, sent: seq<Frame>)
    returns (wlen: int, fails: bool, frame: Frame)
    requires bufferSize > 0 && widx <= |data| && (widx < |data| || op.NonZero())
    requires SendsTo(goal, bufferSize, op, wantFin, data, widx, call, net, sent)
    ensures wlen == Accepted(net(call), Min(|data| - widx, bufferSize))
    ensures fails == WriteFails(wlen, Min(|data| - widx, bufferSize))
    ensures fails ==> goal == SendResult(sent, true, wlen, call + 1)
    ensures !fails ==> 0 <= wlen && widx + wlen <= |data| && (wlen > 0 || op.NonZero())
    ensures !fails ==>
              var chunkOp := ChunkOp(bufferSize, op, wantFin, |data| - widx);
              frame == Frame(chunkOp.fin, chunkOp.code, data[widx..widx + wlen])
    ensures !fails ==> SendsTo(goal, bufferSize, ZERO_OP, wantFin, data, widx + wlen, call + 1, net, sent + [frame])
  {
    SendLoopTurn(bufferSize, op, wantFin, data, widx, call, net, sent);
    hide SendLoop, Prepend;
    var chunkOp := ChunkOp(bufferSize, op, wantFin, |data| - widx);
    wlen := Accepted(net(call), Min(|data| - widx, bufferSize));
    fails := WriteFails(wlen, Min(|data| - widx, bufferSize));
    frame := Frame(chunkOp.fin, chunkOp.code, if fails then [] else data[widx..widx + wlen]);
  }

  lemma SendsDone(goal: SendResult, bufferSize: nat, op: OpWord, wantFin: bool, data: seq<Byte>,
                  call: nat, net: Transport, sent: seq<Frame>)
    requires bufferSize > 0 && !op.NonZero()
    requires SendsTo(goal, bufferSize, op, wantFin, data, |data|, call, net, sent)
    ensures goal == SendResult(sent, false, |data|, call)
  {
    SendLoopTurn(bufferSize, op, wantFin, data, |data|, call, net, sent);
    hide SendLoop;
  }

  // ---------------------------------------------------------------------------------------------
  // Every send that does not fail carries exactly its data, whatever the transport takes per call.

  lemma NoFrames(code: nat)
    ensures OpcodeFirst([], code) && NoFin([]) && Payload([]) == []
  {
  }

  lemma FrameThen(frame: Frame, rest: seq<Frame>)
    ensures Payload([frame] + rest) == frame.payload + Payload(rest)
    ensures OpcodeFirst(rest, CONT) ==> OpcodeFirst([frame] + rest, frame.code)
    ensures !frame.fin && NoFin(rest) ==> NoFin([frame] + rest)
  {
    assert ([frame] + rest)[1..] == rest;
  }

  lemma {:induction false} LoopCarriesData(bufferSize: nat, op: OpWord, wantFin: bool, data: seq<Byte>,
                                           widx: nat, call: nat, net: Transport)
    requires bufferSize > 0 && widx <= |data|
    requires op.fin ==> wantFin
    ensures var r := SendLoop(bufferSize, op, wantFin, data, widx, call, net);
            && OpcodeFirst(r.frames, op.code)
            && Payload(r.frames) <= data[widx..]
            && (!r.failed ==> Payload(r.frames) == data[widx..] && r.ret == |data|)
            && (!r.failed && op.NonZero() ==> r.frames != [])
            && (!wantFin ==> NoFin(r.frames))
    decreases |data| - widx, op.NonZero()
  {
    hide SendLoop, OpcodeFirst, NoFin, Payload, WriteFails, Accepted, Min;
    if widx < |data| || op.NonZero() {
      var fails, next, frame := SendLoopStep(bufferSize, op, wantFin, data, widx, call, net);
      if !fails {
        LoopCarriesData(bufferSize, ZERO_OP, wantFin, data, next, call + 1, net);
        FrameThen(frame, SendLoop(bufferSize, ZERO_OP, wantFin, data, next, call + 1, net).frames);
        assert data[widx..] == data[widx..next] + data[next..];
      }
    } else {
      SendLoopEnd(bufferSize, wantFin, data, call, net);
    }
    NoFrames(op.code);
  }

  /** The value returned tells success from failure: the length of the data, or an error of zero or less, which is
      never the length. */
  lemma {:induction false} LoopReturns(bufferSize: nat, op: OpWord, wantFin: bool, data: seq<Byte>,
                                       widx: nat, call: nat, net: Transport)
    requires bufferSize > 0 && widx <= |data|
    ensures var r := SendLoop(bufferSize, op, wantFin, data, widx, call, net);
            && (!r.failed ==> r.ret == |data|)
            && (r.failed ==> r.ret <= 0 && r.ret != |data|)
    decreases |data| - widx, op.NonZero()
  {
    hide SendLoop;
    if widx < |data| || op.NonZero() {
      var fails, next, frame := SendLoopStep(bufferSize, op, wantFin, data, widx, call, net);
      if !fails {
        LoopReturns(bufferSize, ZERO_OP, wantFin, data, next, call + 1, net);
      }
    } else {
      SendLoopEnd(bufferSize, wantFin, data, call, net);
    }
  }

  /** No call that carries the FIN bit is answered with fewer bytes than it was offered. */
  predicate FinTakenWhole(bufferSize: nat, data: seq<Byte>, widx: nat, call: nat, net: Transport)
    requires bufferSize > 0 && widx <= |data|
    decreases |data| - widx
  {
    var remaining := |data| - widx;
    if remaining <= bufferSize then net(call) >= remaining
    else
      var wlen := Accepted(net(call), bufferSize);
      wlen > 0 ==> FinTakenWhole(bufferSize, data, widx + wlen, call + 1, net)
  }

  lemma PrependOneFin(frame: Frame, rest: seq<Frame>)
    requires rest != []
    ensures FinLast([frame] + rest) <==> !frame.fin && FinLast(rest)
  {
    var all := [frame] + rest;
    assert all[..|all| - 1] == [frame] + rest[..|rest| - 1];
    if FinLast(all) {
      assert forall i :: 0 <= i < |rest| - 1 ==> rest[i] == all[..|all| - 1][i + 1];
      assert all[..|all| - 1][0] == frame;
    }
  }

  lemma FinalOffer(remaining: nat, bufferSize: nat, answer: int)
    requires bufferSize > 0
    ensures var offered := Min(remaining, bufferSize);
            var wlen := Accepted(answer, offered);
            && (wlen == remaining ==> remaining <= bufferSize)
            && (remaining <= bufferSize ==> (wlen == remaining <==> answer >= remaining))
  {
  }

  /** A send that asks for FIN. A completed one has a single FIN, on its last frame, exactly when no FIN
      chunk was cut short; a failed one has none unless a FIN chunk was cut short. */
  lemma {:induction false} LoopFin(bufferSize: nat, op: OpWord, data: seq<Byte>,
                                   widx: nat, call: nat, net: Transport)
    requires bufferSize > 0 && widx <= |data|
    requires op.NonZero() || widx < |data|
    ensures var r := SendLoop(bufferSize, op, true, data, widx, call, net);
            var whole := FinTakenWhole(bufferSize, data, widx, call, net);
            && (!r.failed ==> |r.frames| > 0 && (whole <==> FinLast(r.frames)))
            && (r.failed && whole ==> NoFin(r.frames))
    decreases |data| - widx, op.NonZero()
  {
    hide SendLoop, NoFin, FinLast, FinTakenWhole;
    var fails, next, frame := SendLoopStep(bufferSize, op, true, data, widx, call, net);
    NoFrames(op.code);
    if !fails && next == |data| {
      LoopFinLastChunk(bufferSize, op, data, widx, call, net);
    } else if !fails {
      hide *;
      FinTakenStep(bufferSize, data, widx, next, call, net);
      LoopFin(bufferSize, ZERO_OP, data, next, call + 1, net);
      var rest := SendLoop(bufferSize, ZERO_OP, true, data, next, call + 1, net);
      FrameThen(frame, rest.frames);
      if !rest.failed {
        PrependOneFin(frame, rest.frames);
      }
    }
  }

  lemma FinTakenStep(bufferSize: nat, data: seq<Byte>, widx: nat, next: nat, call: nat, net: Transport)
    requires bufferSize > 0 && widx < next < |data|
    requires next == widx + Accepted(net(call), Min(|data| - widx, bufferSize))
    ensures FinTakenWhole(bufferSize, data, widx, call, net) <==>
            |data| - widx > bufferSize && FinTakenWhole(bufferSize, data, next, call + 1, net)
  {
  }

  lemma LoopFinLastChunk(bufferSize: nat, op: OpWord, data: seq<Byte>, widx: nat, call: nat, net: Transport)
    requires bufferSize > 0 && widx <= |data|
    requires op.NonZero() || widx < |data|
    requires Accepted(net(call), Min(|data| - widx, bufferSize)) == |data| - widx
    ensures var r := SendLoop(bufferSize, op, true, data, widx, call, net);
            !r.failed && |r.frames| > 0 && FinLast(r.frames)
    ensures FinTakenWhole(bufferSize, data, widx, call, net)
  {
    FinalOffer(|data| - widx, bufferSize, net(call));
    hide SendLoop;
    var fails, next, frame := SendLoopStep(bufferSize, op, true, data, widx, call, net);
    SendLoopEnd(bufferSize, true, data, call + 1, net);
    assert [frame] + [] == [frame] && [frame][..0] == [];
  }

  /** Main result on short writes: a completed FIN-bearing text or binary send is one well-formed
      message carrying the data if and only if the transport took every FIN chunk whole; and a send has completed if
      and only if it returns the length of its data, a failed one returning zero or less. */
  lemma SendIsMessageIff(bufferSize: nat, code: nat, data: seq<Byte>, net: Transport)
    requires bufferSize > 0 && code in {TEXT, BINARY}
    ensures var r := SendExact(bufferSize, OpWord(true, code), data, net);
            && (r.ret == |data| <==> !r.failed)
            && (r.failed ==> r.ret <= 0)
            && (!r.failed ==>
                  && Payload(r.frames) == data
                  && (IsMessage(r.frames, code) <==> FinTakenWhole(bufferSize, data, 0, 0, net)))
  {
    LoopReturns(bufferSize, OpWord(true, code), true, data, 0, 0, net);
    LoopCarriesData(bufferSize, OpWord(true, code), true, data, 0, 0, net);
    LoopFin(bufferSize, OpWord(true, code), data, 0, 0, net);
    assert data[0..] == data;
  }

  /** Such a transport is one that takes a byte at a time: two bytes then complete as no message. */
  lemma ShortWriteBreaks(data: seq<Byte>, net: Transport)
    requires |data| == 2 && forall i :: net(i) == 1
    ensures var r := SendExact(2, OpWord(true, TEXT), data, net);
            && !r.failed && r.frames == [Frame(true, TEXT, data[..1]), Frame(true, CONT, data[1..])]
            && !IsMessage(r.frames, TEXT)
  {
    SendLoopEnd(2, true, data, 2, net);
    var fails0, next0, frame0 := SendLoopStep(2, OpWord(true, TEXT), true, data, 0, 0, net);
    var fails1, next1, frame1 := SendLoopStep(2, ZERO_OP, true, data, 1, 1, net);
    assert data[0..1] == data[..1] && data[1..2] == data[1..];
    hide SendLoop;
    var frames := [frame0] + ([frame1] + []);
    assert frames == [frame0, frame1];
    assert frames[..1][0] == frame0;
  }

  // ---------------------------------------------------------------------------------------------
  // A transport that takes a chunk whole or fails.

  ghost predicate WholeOrFail(net: Transport, bufferSize: nat) {
    forall i :: net(i) >= bufferSize || net(i) < 0
  }

  ghost predicate Whole(net: Transport, bufferSize: nat) {
    forall i :: net(i) >= bufferSize
  }

  /** The reference split of the data: full buffers, then the rest. */
  function Chunks(bufferSize: nat, data: seq<Byte>): seq<seq<Byte>>
    requires bufferSize > 0
  {
    if |data| <= bufferSize then [data]
    else [data[..bufferSize]] + Chunks(bufferSize, data[bufferSize..])
  }

  function Fragments(bufferSize: nat, code: nat, fin: bool, data: seq<Byte>): seq<Frame>
    requires bufferSize > 0
  {
    var chunks := Chunks(bufferSize, data);
    seq(|chunks|, i requires 0 <= i < |chunks| =>
      Frame(fin && i == |chunks| - 1, if i == 0 then code else CONT, chunks[i]))
  }

  /** max(1, ceil(n / bufferSize)). */
  function FrameCount(bufferSize: nat, n: nat): nat
    requires bufferSize > 0
  {
    if n == 0 then 1 else (n + bufferSize - 1) / bufferSize
  }

  lemma FrameCountStep(bufferSize: nat, n: nat)
    requires bufferSize > 0
    ensures n <= bufferSize ==> FrameCount(bufferSize, n) == 1
    ensures n > bufferSize ==> FrameCount(bufferSize, n) == 1 + FrameCount(bufferSize, n - bufferSize)
  {
    Arith.DivStep(n + bufferSize - 1, bufferSize);
    if 0 < n <= bufferSize {
      Arith.DivUnique(n - 1, bufferSize, 0, n - 1);
    }
  }

  lemma {:induction false} ChunkCount(bufferSize: nat, data: seq<Byte>)
    requires bufferSize > 0
    ensures var chunks := Chunks(bufferSize, data);
            && |chunks| == FrameCount(bufferSize, |data|)
            && (forall i :: 0 <= i < |chunks| - 1 ==> |chunks[i]| == bufferSize)
  {
    FrameCountStep(bufferSize, |data|);
    if |data| > bufferSize {
      ChunkCount(bufferSize, data[bufferSize..]);
    }
  }

  lemma FragmentsStep(bufferSize: nat, code: nat, fin: bool, data: seq<Byte>)
    requires bufferSize > 0
    ensures Fragments(bufferSize, code, fin, data) ==
              if |data| <= bufferSize then [Frame(fin, code, data)]
              else [Frame(false, code, data[..bufferSize])] + Fragments(bufferSize, CONT, fin, data[bufferSize..])
  {
  }

  lemma PrefixCons(frame: Frame, a: seq<Frame>, b: seq<Frame>)
    ensures a < b ==> [frame] + a < [frame] + b
    ensures b != [] ==> [] < b
  {
  }

  /** With whole writes the loop is the reference split; with a failing one, a strict part of it. */
  lemma {:induction false} LoopRefinesFragments(bufferSize: nat, op: OpWord, wantFin: bool, data: seq<Byte>,
                                                widx: nat, call: nat, net: Transport)
    requires bufferSize > 0 && widx <= |data|
    requires WholeOrFail(net, bufferSize)
    requires op.NonZero() || widx < |data|
    requires op.fin ==> wantFin
    ensures var r := SendLoop(bufferSize, op, wantFin, data, widx, call, net);
            var full := Fragments(bufferSize, op.code, wantFin, data[widx..]);
            && (r.failed ==> r.frames < full)
            && (!r.failed ==> r.frames == full)
            && (Whole(net, bufferSize) ==> !r.failed)
    decreases |data| - widx, op.NonZero()
  {
    var todo := data[widx..];
    assert net(call) >= bufferSize || net(call) < 0;
    hide SendLoop, Fragments;
    FragmentsStep(bufferSize, op.code, wantFin, todo);
    var fails, next, frame := SendLoopStep(bufferSize, op, wantFin, data, widx, call, net);
    if !fails {
      assert next == if |data| - widx <= bufferSize then |data| else widx + bufferSize;
      hide Accepted, Min, WriteFails, Whole, WholeOrFail;
      assert todo[..next - widx] == data[widx..next] && todo[next - widx..] == data[next..];
      var rest := SendLoop(bufferSize, ZERO_OP, wantFin, data, next, call + 1, net);
      if next == |data| {
        SendLoopEnd(bufferSize, wantFin, data, call + 1, net);
        assert [frame] + [] == [frame] && data[widx..next] == todo;
      } else {
        LoopRefinesFragments(bufferSize, ZERO_OP, wantFin, data, next, call + 1, net);
        PrefixCons(frame, rest.frames, Fragments(bufferSize, CONT, wantFin, data[next..]));
      }
    }
  }

  /** Main result: the frames of a FIN-bearing send over a transport that takes chunks whole or fails. */
  lemma SendFragments(bufferSize: nat, code: nat, data: seq<Byte>, net: Transport)
    requires bufferSize > 0 && code in {TEXT, BINARY}
    requires WholeOrFail(net, bufferSize)
    ensures var r := SendExact(bufferSize, OpWord(true, code), data, net);
            && (Whole(net, bufferSize) ==> !r.failed)
            && (!r.failed ==>
                  && |r.frames| == FrameCount(bufferSize, |data|)
                  && IsMessage(r.frames, code)
                  && Payload(r.frames) == data
                  && forall i :: 0 <= i < |r.frames| - 1 ==> |r.frames[i].payload| == bufferSize)
            && (r.failed ==>
                  && NoFin(r.frames)
                  && OpcodeFirst(r.frames, code)
                  && |r.frames| < FrameCount(bufferSize, |data|)
                  && r.frames < Fragments(bufferSize, code, true, data))
  {
    hide SendLoop, WholeOrFail, Whole, FrameCount, Payload;
    var op := OpWord(true, code);
    LoopRefinesFragments(bufferSize, op, true, data, 0, 0, net);
    LoopCarriesData(bufferSize, op, true, data, 0, 0, net);
    assert data[0..] == data;
    ChunkCount(bufferSize, data);
    var r := SendExact(bufferSize, op, data, net);
    var full := Fragments(bufferSize, code, true, data);
    if r.failed {
      assert forall i :: 0 <= i < |r.frames| ==> r.frames[i] == full[i];
    }
  }

  // ---------------------------------------------------------------------------------------------
  // Messages the caller fragments: one partial send, any number of continuations, one FIN.

  /** The frames of successive esp_websocket_client_send_cont_msg calls, one transport per call. */
  function SendConts(bufferSize: nat, pieces: seq<seq<Byte>>, nets: seq<Transport>): SendResult
    requires bufferSize > 0 && |pieces| == |nets|
  {
    if pieces == [] then SendResult([], false, 0, 0)
    else
      var r := SendExact(bufferSize, ZERO_OP, pieces[0], nets[0]);
      if r.failed then r
      else Prepend(r.frames, SendConts(bufferSize, pieces[1..], nets[1..]))
  }

  function Flatten(pieces: seq<seq<Byte>>): seq<Byte> {
    if pieces == [] then [] else pieces[0] + Flatten(pieces[1..])
  }

  lemma {:induction false} ContsCarryPieces(bufferSize: nat, pieces: seq<seq<Byte>>, nets: seq<Transport>)
    requires bufferSize > 0 && |pieces| == |nets|
    ensures var r := SendConts(bufferSize, pieces, nets);
            !r.failed ==> OpcodeFirst(r.frames, CONT) && NoFin(r.frames) && Payload(r.frames) == Flatten(pieces)
  {
    if pieces != [] {
      var r := SendExact(bufferSize, ZERO_OP, pieces[0], nets[0]);
      LoopCarriesData(bufferSize, ZERO_OP, false, pieces[0], 0, 0, nets[0]);
      assert pieces[0][0..] == pieces[0];
      if !r.failed {
        ContsCarryPieces(bufferSize, pieces[1..], nets[1..]);
        PayloadConcat(r.frames, SendConts(bufferSize, pieces[1..], nets[1..]).frames);
      }
    }
  }

  /** Main result: an uninterrupted, successful partial / continuation / FIN sequence is one message. */
  lemma PartialSequenceIsMessage(bufferSize: nat, code: nat, first: seq<Byte>, pieces: seq<seq<Byte>>,
                                 firstNet: Transport, nets: seq<Transport>, finNet: Transport)
    requires bufferSize > 0 && |pieces| == |nets| && code in {TEXT, BINARY}
    ensures var a := SendExact(bufferSize, OpWord(false, code), first, firstNet);
            var b := SendConts(bufferSize, pieces, nets);
            var c := SendExact(bufferSize, OpWord(true, CONT), [], finNet);
            !a.failed && !b.failed && !c.failed ==>
              && IsMessage(a.frames + b.frames + c.frames, code)
              && Payload(a.frames + b.frames + c.frames) == first + Flatten(pieces)
              && |c.frames| == 1
  {
    var a := SendExact(bufferSize, OpWord(false, code), first, firstNet);
    var b := SendConts(bufferSize, pieces, nets);
    var c := SendExact(bufferSize, OpWord(true, CONT), [], finNet);
    LoopCarriesData(bufferSize, OpWord(false, code), false, first, 0, 0, firstNet);
    assert first[0..] == first;
    ContsCarryPieces(bufferSize, pieces, nets);
    if !a.failed && !b.failed && !c.failed {
      assert c.frames == [Frame(true, CONT, [])];
      PayloadConcat(a.frames + b.frames, c.frames);
      PayloadConcat(a.frames, b.frames);
      var all := a.frames + b.frames + c.frames;
      assert all[..|all| - 1] == a.frames + b.frames;
    }
  }
}
