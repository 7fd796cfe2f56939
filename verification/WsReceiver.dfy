/** The chunked receiver (esp_websocket_client_recv): one incoming frame read in pieces, each piece
    posted as a DATA event, and the round trip with the fragmenting sender. */
module WsReceiver {
  import opened WsFrames
  import WsSender

  /** One answer of esp_transport_read together with the frame header the transport reports after it. */
  datatype Read =
    | ReadFailed
    | Got(data: seq<Byte>, header: Header)

  datatype Header = Header(fin: bool, code: nat, payloadLen: int)

  /** The payload of WEBSOCKET_EVENT_DATA. */
  datatype DataEvent = DataEvent(offset: nat, header: Header, data: seq<Byte>)

  /** How the read loop ended. `Blocked` means it is still waiting for the transport. */
  datatype RecvStatus = Blocked | Broken | TimedOut | Whole

  datatype RecvResult = RecvResult(events: seq<DataEvent>, status: RecvStatus, header: Header, offset: nat)

  /** The do-while loop from payload offset `offset`, given the header left by the previous read. */
  function RecvLoop(replies: seq<Read>, header: Header, offset: nat): RecvResult {
    if replies == [] then RecvResult([], Blocked, header, offset)
    else if replies[0].ReadFailed? then RecvResult([], Broken, header, offset)
    else
      var Got(data, now) := replies[0];
      if data == [] && now.code == NONE then RecvResult([], TimedOut, now, offset)
      else
        var event := DataEvent(offset, now, data);
        var end := offset + |data|;
        if end < now.payloadLen then
          var rest := RecvLoop(replies[1..], now, end);
          rest.(events := [event] + rest.events)
        else RecvResult([event], Whole, now, end)
  }

  function PrependEvents(got: seq<DataEvent>, r: RecvResult): RecvResult {
    r.(events := got + r.events)
  }

  lemma RecvStart(replies: seq<Read>, header: Header)
    ensures RecvLoop(replies, header, 0) == PrependEvents([], RecvLoop(replies[0..], header, 0))
  {
    var r := RecvLoop(replies, header, 0);
    assert replies[0..] == replies && [] + r.events == r.events;
    hide RecvLoop;
  }

  /** One turn of the read loop, with `got` already posted. */
  lemma RecvTurn(replies: seq<Read>, i: nat, header: Header, offset: nat, got: seq<DataEvent>)
    requires i <= |replies|
    ensures var r := PrependEvents(got, RecvLoop(replies[i..], header, offset));
            if i == |replies| then r.status == Blocked
            else if replies[i].ReadFailed? then r == RecvResult(got, Broken, header, offset)
            else
              var Got(data, now) := replies[i];
              if data == [] && now.code == NONE then r == RecvResult(got, TimedOut, now, offset)
              else
                var more := got + [DataEvent(offset, now, data)];
                var end := offset + |data|;
                if end < now.payloadLen then r == PrependEvents(more, RecvLoop(replies[i + 1..], now, end))
                else r == RecvResult(more, Whole, now, end)
  {
    assert got + [] == got;
    if i < |replies| && replies[i].Got? {
      var Got(data, now) := replies[i];
      var event := DataEvent(offset, now, data);
      assert replies[i..][1..] == replies[i + 1..];
      var rest := RecvLoop(replies[i + 1..], now, offset + |data|);
      assert got + ([event] + rest.events) == (got + [event]) + rest.events;
    }
  }

  function EventBytes(events: seq<DataEvent>): seq<Byte> {
    if events == [] then [] else events[0].data + EventBytes(events[1..])
  }

  /** The events cover `[from, to)` in order, without gap or overlap. */
  ghost predicate Tiles(events: seq<DataEvent>, from: int, to: int) {
    if events == [] then from == to
    else events[0].offset == from && Tiles(events[1..], from + |events[0].data|, to)
  }

  /** The events of one call: only the last of a frame read whole reaches the frame's end. */
  lemma {:induction false} OnlyLastCompletes(replies: seq<Read>, header: Header, offset: nat)
    ensures var r := RecvLoop(replies, header, offset);
            && (forall i :: 0 <= i < |r.events| ==>
                  (r.events[i].offset + |r.events[i].data| >= r.events[i].header.payloadLen <==>
                   r.status == Whole && i == |r.events| - 1))
            && (r.status == Whole ==> r.events != [] && r.events[|r.events| - 1].header == r.header)
  {
    if replies != [] && replies[0].Got? {
      var Got(data, now) := replies[0];
      OnlyLastCompletes(replies[1..], now, offset + |data|);
    }
  }

  /** How a call ends after some pieces of a frame, none empty and together short of it: a failed read breaks it, an
      empty read without an opcode times it out, a read that reaches the frame's end makes it whole, and before any of
      these it still waits. */
  lemma {:induction false} ReadsEnd(pieces: seq<Read>, last: Read, was: Header, now: Header, offset: nat)
    requires forall i :: 0 <= i < |pieces| ==> pieces[i].Got? && pieces[i].header == now && pieces[i].data != []
    requires offset + |ReadBytes(pieces)| < now.payloadLen
    ensures RecvLoop(pieces, was, offset).status == Blocked
    ensures var r := RecvLoop(pieces + [last], was, offset);
            && (r.status == Broken <==> last.ReadFailed?)
            && (r.status == TimedOut <==> last.Got? && last.data == [] && last.header.code == NONE)
            && (r.status == Whole <==>
                  && last.Got? && !(last.data == [] && last.header.code == NONE)
                  && offset + |ReadBytes(pieces)| + |last.data| >= last.header.payloadLen)
            && |r.events| == |pieces| + if r.status == Broken || r.status == TimedOut then 0 else 1
  {
    var all := pieces + [last];
    if pieces == [] {
      assert all == [last] && [last][1..] == [];
    } else {
      var next := offset + |pieces[0].data|;
      assert all[0] == pieces[0] && all[1..] == pieces[1..] + [last];
      ReadsEnd(pieces[1..], last, now, now, next);
    }
  }

  /** Every event lies strictly further on in the payload than the one before. */
  ghost predicate Advances(events: seq<DataEvent>) {
    forall i :: 0 <= i < |events| - 1 ==> events[i].offset < events[i + 1].offset
  }

  lemma AdvancesOn(event: DataEvent, rest: seq<DataEvent>)
    requires Advances(rest) && (rest != [] ==> event.offset < rest[0].offset)
    ensures Advances([event] + rest)
  {
  }

  /** What a transport may return for one frame, reads of 1..bufferSize bytes; an empty frame is one empty read. */
  ghost predicate Delivers(replies: seq<Read>, frame: Frame, bufferSize: nat) {
    && |replies| > 0
    && (forall i :: 0 <= i < |replies| ==>
          && replies[i].Got?
          && replies[i].header == Header(frame.fin, frame.code, |frame.payload|)
          && |replies[i].data| <= bufferSize
          && (replies[i].data == [] ==> frame.payload == [] && |replies| == 1))
    && ReadBytes(replies) == frame.payload
  }

  function ReadBytes(replies: seq<Read>): seq<Byte> {
    if replies == [] then []
    else (if replies[0].Got? then replies[0].data else []) + ReadBytes(replies[1..])
  }

  lemma {:induction false} LoopDelivers(replies: seq<Read>, was: Header, now: Header, offset: nat)
    requires |replies| > 0
    requires forall i :: 0 <= i < |replies| ==> replies[i].Got? && replies[i].header == now
    requires forall i :: 0 <= i < |replies| ==> replies[i].data != [] || (|replies| == 1 && now.payloadLen == offset)
    requires offset + |ReadBytes(replies)| == now.payloadLen
    requires now.code != NONE
    ensures var r := RecvLoop(replies, was, offset);
            && r.status == Whole
            && r.header == now
            && Tiles(r.events, offset, now.payloadLen)
            && EventBytes(r.events) == ReadBytes(replies)
            && (forall i :: 0 <= i < |r.events| ==> r.events[i].header == now)
            && |r.events| == |replies| && r.events[0].offset == offset && Advances(r.events)
            && (|replies| > 1 ==> |replies| <= now.payloadLen - offset)
  {
    var r := RecvLoop(replies, was, offset);
    if |replies| == 1 {
      assert ReadBytes(replies[1..]) == [];
      assert r.events == [DataEvent(offset, now, replies[0].data)];
      assert EventBytes(r.events[1..]) == [];
    } else {
      ReadsLeft(replies[1..]);
      var rest := RecvLoop(replies[1..], now, offset + |replies[0].data|);
      LoopDelivers(replies[1..], now, now, offset + |replies[0].data|);
      assert r.events[1..] == rest.events;
      AdvancesOn(r.events[0], rest.events);
    }
  }

  lemma ReadsLeft(replies: seq<Read>)
    requires |replies| > 0 && replies[0].Got? && replies[0].data != []
    ensures |ReadBytes(replies)| > 0
  {
  }

  /** Main result for one frame: its DATA events tile the payload and carry its bytes and header. There is one for each
      read, each further on in the payload, so a frame takes at most as many reads as it has bytes, an empty one just
      one. */
  lemma FrameReceived(replies: seq<Read>, frame: Frame, bufferSize: nat, was: Header)
    requires Delivers(replies, frame, bufferSize) && frame.code != NONE
    ensures var r := RecvLoop(replies, was, 0);
            && r.status == Whole
            && Tiles(r.events, 0, |frame.payload|)
            && EventBytes(r.events) == frame.payload
            && (forall i :: 0 <= i < |r.events| ==>
                  r.events[i].header == Header(frame.fin, frame.code, |frame.payload|))
            && |r.events| == |replies| && Advances(r.events)
            && |replies| <= (if frame.payload == [] then 1 else |frame.payload|)
  {
    LoopDelivers(replies, was, Header(frame.fin, frame.code, |frame.payload|), 0);
  }

  ghost predicate DeliversAll(replies: seq<seq<Read>>, frames: seq<Frame>, bufferSize: nat) {
    && |replies| == |frames|
    && forall i :: 0 <= i < |frames| ==> Delivers(replies[i], frames[i], bufferSize)
  }

  /** The DATA events of successive receiver calls, one per frame. */
  function RecvAll(replies: seq<seq<Read>>, was: Header): seq<DataEvent> {
    if replies == [] then []
    else
      var r := RecvLoop(replies[0], was, 0);
      r.events + RecvAll(replies[1..], r.header)
  }

  lemma {:induction false} EventBytesConcat(a: seq<DataEvent>, b: seq<DataEvent>)
    ensures EventBytes(a + b) == EventBytes(a) + EventBytes(b)
  {
    if a == [] {
      assert a + b == b;
    } else {
      EventBytesConcat(a[1..], b);
      assert (a + b)[0] == a[0] && (a + b)[1..] == a[1..] + b;
      WsFrames.Assoc(a[0].data, EventBytes(a[1..]), EventBytes(b));
    }
  }

  lemma {:induction false} AllReceived(replies: seq<seq<Read>>, frames: seq<Frame>, bufferSize: nat, was: Header)
    requires DeliversAll(replies, frames, bufferSize)
    requires forall i :: 0 <= i < |frames| ==> frames[i].code != NONE
    ensures EventBytes(RecvAll(replies, was)) == Payload(frames)
  {
    if frames != [] {
      FrameReceived(replies[0], frames[0], bufferSize, was);
      var r := RecvLoop(replies[0], was, 0);
      AllReceived(replies[1..], frames[1..], bufferSize, r.header);
      EventBytesConcat(r.events, RecvAll(replies[1..], r.header));
    }
  }

  /** Of the frames received, the last has FIN and no other. */
  predicate FinOnLastOnly(replies: seq<seq<Read>>, was: Header) {
    forall i :: 0 <= i < |replies| ==> (RecvLoop(replies[i], was, 0).header.fin <==> i == |replies| - 1)
  }

  /** One frame of a message, as the receiver reports it. */
  ghost predicate FrameReported(replies: seq<Read>, was: Header, code: nat) {
    var r := RecvLoop(replies, was, 0);
    && r.status == Whole
    && r.header.code == code
    && Tiles(r.events, 0, r.header.payloadLen)
    && (forall j :: 0 <= j < |r.events| ==> r.events[j].header == r.header)
  }

  lemma FrameIsReported(replies: seq<Read>, frame: Frame, bufferSize: nat, was: Header)
    requires Delivers(replies, frame, bufferSize) && frame.code != NONE
    ensures FrameReported(replies, was, frame.code) && RecvLoop(replies, was, 0).header.fin == frame.fin
  {
    LoopDelivers(replies, was, Header(frame.fin, frame.code, |frame.payload|), 0);
  }

  function CodeAt(code: nat, i: nat): nat {
    if i == 0 then code else CONT
  }

  /** Every frame of a message is reported, whatever the receiver saw before: the opcode on the first only. */
  ghost predicate MessageReported(replies: seq<seq<Read>>, code: nat) {
    forall i: nat, was :: i < |replies| ==> FrameReported(replies[i], was, CodeAt(code, i))
  }

  lemma FramesAreReported(replies: seq<seq<Read>>, frames: seq<Frame>, bufferSize: nat, code: nat)
    requires DeliversAll(replies, frames, bufferSize) && OpcodeFirst(frames, code) && code in {TEXT, BINARY}
    ensures MessageReported(replies, code)
    ensures forall i :: 0 <= i < |frames| ==> frames[i].code != NONE
  {
    hide Delivers, FrameReported, RecvLoop;
    forall i: nat, was | i < |replies|
      ensures FrameReported(replies[i], was, CodeAt(code, i))
    {
      FrameIsReported(replies[i], frames[i], bufferSize, was);
    }
  }

  lemma FinArrives(replies: seq<seq<Read>>, frames: seq<Frame>, bufferSize: nat, was: Header)
    requires DeliversAll(replies, frames, bufferSize) && frames != []
    requires forall i :: 0 <= i < |frames| ==> frames[i].code != NONE
    ensures FinOnLastOnly(replies, was) <==> FinLast(frames)
  {
    hide Delivers, FrameReported, RecvLoop;
    forall i | 0 <= i < |replies|
      ensures RecvLoop(replies[i], was, 0).header.fin == frames[i].fin
    {
      FrameIsReported(replies[i], frames[i], bufferSize, was);
    }
    var init := frames[..|frames| - 1];
    assert forall i :: 0 <= i < |init| ==> init[i] == frames[i];
  }

  /** Main result, end to end: a message sent through a transmit buffer of one size and read back through a receive
      buffer of another, over a transport that may take a part of what it is offered. What arrives is a prefix of
      the message, all of it unless the send failed; every frame is tiled by its events and has the opcode on the
      first only; and a completed message arrives with FIN on its last frame only if and only if the transport took
      every FIN chunk whole. */
  lemma EndToEnd(txSize: nat, rxSize: nat, code: nat, data: seq<Byte>, net: WsSender.Transport,
                 replies: seq<seq<Read>>, was: Header)
    requires txSize > 0 && code in {TEXT, BINARY}
    requires DeliversAll(replies, WsSender.SendExact(txSize, OpWord(true, code), data, net).frames, rxSize)
    ensures var r := WsSender.SendExact(txSize, OpWord(true, code), data, net);
            && EventBytes(RecvAll(replies, was)) <= data
            && MessageReported(replies, code)
            && (!r.failed ==>
                  && EventBytes(RecvAll(replies, was)) == data
                  && (FinOnLastOnly(replies, was) <==> WsSender.FinTakenWhole(txSize, data, 0, 0, net)))
            && (!r.failed && WsSender.WholeOrFail(net, txSize) ==> |replies| == WsSender.FrameCount(txSize, |data|))
  {
    hide WsSender.SendLoop, WsSender.FinTakenWhole, WsSender.WholeOrFail, WsSender.FrameCount, RecvLoop, RecvAll,
      EventBytes,
      FinLast, OpcodeFirst, Payload, Delivers, FinOnLastOnly, MessageReported;
    var op := OpWord(true, code);
    var r := WsSender.SendExact(txSize, op, data, net);
    WsSender.LoopCarriesData(txSize, op, true, data, 0, 0, net);
    WsSender.LoopFin(txSize, op, data, 0, 0, net);
    assert data[0..] == data;
    FramesAreReported(replies, r.frames, rxSize, code);
    AllReceived(replies, r.frames, rxSize, was);
    if !r.failed {
      FinArrives(replies, r.frames, rxSize, was);
      if WsSender.WholeOrFail(net, txSize) {
        WsSender.SendFragments(txSize, code, data, net);
      }
    }
  }

  function ChunkReads(chunks: seq<seq<Byte>>, header: Header): seq<Read> {
    if chunks == [] then [] else [Got(chunks[0], header)] + ChunkReads(chunks[1..], header)
  }

  /** Every frame can be delivered through every positive receive buffer. */
  lemma {:induction false} CanDeliver(frame: Frame, payload: seq<Byte>, bufferSize: nat)
    requires bufferSize > 0
    requires payload == [] ==> frame.payload == []
    ensures var header := Header(frame.fin, frame.code, |frame.payload|);
            var replies := ChunkReads(WsSender.Chunks(bufferSize, payload), header);
            && ReadBytes(replies) == payload
            && |replies| > 0
            && (forall i :: 0 <= i < |replies| ==>
                  && replies[i].Got? && replies[i].header == header && |replies[i].data| <= bufferSize
                  && (replies[i].data == [] ==> frame.payload == [] && |replies| == 1))
            && (payload == frame.payload ==> Delivers(replies, frame, bufferSize))
  {
    var header := Header(frame.fin, frame.code, |frame.payload|);
    var chunks := WsSender.Chunks(bufferSize, payload);
    if |payload| > bufferSize {
      var first, left := payload[..bufferSize], payload[bufferSize..];
      CanDeliver(frame, left, bufferSize);
      assert chunks == [first] + WsSender.Chunks(bufferSize, left);
      ChunkReadsStep(first, WsSender.Chunks(bufferSize, left), header);
      assert payload == first + left;
    } else {
      assert chunks == [payload] + [];
      ChunkReadsStep(payload, [], header);
      assert payload + [] == payload;
    }
  }

  lemma ChunkReadsStep(chunk: seq<Byte>, chunks: seq<seq<Byte>>, header: Header)
    ensures ChunkReads([], header) == [] && ReadBytes([]) == []
    ensures ChunkReads([chunk] + chunks, header) == [Got(chunk, header)] + ChunkReads(chunks, header)
    ensures ReadBytes(ChunkReads([chunk] + chunks, header)) == chunk + ReadBytes(ChunkReads(chunks, header))
  {
    assert ([chunk] + chunks)[1..] == chunks;
    assert ([Got(chunk, header)] + ChunkReads(chunks, header))[1..] == ChunkReads(chunks, header);
  }
}
