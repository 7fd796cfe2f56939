/** Frames of the WebSocket protocol as this client hands them to its transport,
    and what section 5.4 of RFC 6455 asks of a fragmented message. */
module WsFrames {

  type Byte = b: int | 0 <= b < 256

  // Opcodes, section 5.2 of RFC 6455.
  const CONT: nat := 0x0
  const TEXT: nat := 0x1
  const BINARY: nat := 0x2
  const CLOSE: nat := 0x8
  const PING: nat := 0x9
  const PONG: nat := 0xA
  // The transport's "no frame was read" marker; it is outside the 4-bit opcode range.
  const NONE: nat := 0x100

  /** An opcode word: the 4-bit opcode and the FIN bit that is or-ed into it. */
  datatype OpWord = OpWord(fin: bool, code: nat) {
    predicate NonZero() {
      fin || code != 0
    }
  }

  const ZERO_OP := OpWord(false, CONT)

  datatype Frame = Frame(fin: bool, code: nat, payload: seq<Byte>)

  function Payload(frames: seq<Frame>): seq<Byte> {
    if frames == [] then [] else frames[0].payload + Payload(frames[1..])
  }

  /** The opcode is on the first frame only. */
  ghost predicate OpcodeFirst(frames: seq<Frame>, code: nat) {
    forall i :: 0 <= i < |frames| ==> frames[i].code == if i == 0 then code else CONT
  }

  ghost predicate NoFin(frames: seq<Frame>) {
    forall i :: 0 <= i < |frames| ==> !frames[i].fin
  }

  /** FIN is on the last frame and on no other. */
  ghost predicate FinLast(frames: seq<Frame>) {
    |frames| > 0 && frames[|frames| - 1].fin && NoFin(frames[..|frames| - 1])
  }

  /** One complete message: opcode on the first frame only, FIN on the last frame only. */
  ghost predicate IsMessage(frames: seq<Frame>, code: nat) {
    OpcodeFirst(frames, code) && FinLast(frames)
  }

  lemma Assoc(a: seq<Byte>, b: seq<Byte>, c: seq<Byte>)
    ensures (a + b) + c == a + (b + c)
  {
  }

  lemma {:induction false} PayloadConcat(a: seq<Frame>, b: seq<Frame>)
    ensures Payload(a + b) == Payload(a) + Payload(b)
  {
    if a == [] {
      assert a + b == b;
    } else {
      PayloadConcat(a[1..], b);
      assert (a + b)[0] == a[0] && (a + b)[1..] == a[1..] + b;
      Assoc(a[0].payload, Payload(a[1..]), Payload(b));
    }
  }
}
