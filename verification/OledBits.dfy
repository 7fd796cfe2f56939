/** The byte-level operations of the display driver: bits, masks, byte reversal, bit copying and the
    tripling of a glyph column. A byte is a column of eight pixels, bit 0 on top. */
module OledBits {

  /** 0x01 << k in uint8_t. */
  function Mask(k: nat): bv8
    requires k < 8
  {
    match k
    case 0 => 0x01
    case 1 => 0x02
    case 2 => 0x04
    case 3 => 0x08
    case 4 => 0x10
    case 5 => 0x20
    case 6 => 0x40
    case _ => 0x80
  }

  predicate Bit(b: bv8, k: nat)
    requires k < 8
  {
    b & Mask(k) != 0
  }

  /** A byte shifted down by `k`. */
  function ShiftedBy(b: bv8, k: nat): bv8
    requires k < 8
  {
    match k
    case 0 => b
    case 1 => b >> 1
    case 2 => b >> 2
    case 3 => b >> 3
    case 4 => b >> 4
    case 5 => b >> 5
    case 6 => b >> 6
    case _ => b >> 7
  }

  /** Bit `k` of a byte is what the shift by `k` brings to the bottom, and the mask of `k` has that bit and no other. */
  lemma BitIsShift(b: bv8, k: nat, i: nat)
    requires k < 8 && i < 8
    ensures Bit(b, k) <==> ShiftedBy(b, k) & 0x01 == 0x01
    ensures Bit(Mask(k), i) <==> i == k
  {
    if k < 4 {
      if k == 0 {
      } else if k == 1 {
      } else if k == 2 {
      } else {
      }
    } else {
      if k == 4 {
      } else if k == 5 {
      } else if k == 6 {
      } else {
      }
    }
  }

  lemma BytesEqual(a: bv8, b: bv8)
    requires forall k :: 0 <= k < 8 ==> Bit(a, k) == Bit(b, k)
    ensures a == b
  {
    assert Bit(a, 0) == Bit(b, 0) && Bit(a, 1) == Bit(b, 1) && Bit(a, 2) == Bit(b, 2) && Bit(a, 3) == Bit(b, 3);
    assert Bit(a, 4) == Bit(b, 4) && Bit(a, 5) == Bit(b, 5) && Bit(a, 6) == Bit(b, 6) && Bit(a, 7) == Bit(b, 7);
  }

  lemma SetBit(b: bv8, i: nat, k: nat)
    requires i < 8 && k < 8
    ensures Bit(b | Mask(i), k) == (k == i || Bit(b, k))
  {
  }

  lemma ClearBit(b: bv8, i: nat, k: nat)
    requires i < 8 && k < 8
    ensures Bit(b & !Mask(i), k) == (k != i && Bit(b, k))
  {
  }

  lemma NotBit(b: bv8, k: nat)
    requires k < 8
    ensures Bit(!b, k) == !Bit(b, k)
  {
  }

  // --- ssd1306_rotate_byte ----------------------------------------------------------------------------

  /** The loop with `n` turns to go. */
  function RotateLoop(ch1: bv8, ch2: bv8, n: nat): bv8
    decreases n
  {
    if n == 0 then ch2 else RotateLoop(ch1 >> 1, (ch2 << 1) + (ch1 & 0x01), n - 1)
  }

  /** The byte turned upside down. */
  function Rotated(b: bv8): bv8 {
    ((b & 0x01) << 7) | ((b & 0x02) << 5) | ((b & 0x04) << 3) | ((b & 0x08) << 1)
    | ((b & 0x10) >> 1) | ((b & 0x20) >> 3) | ((b & 0x40) >> 5) | ((b & 0x80) >> 7)
  }

  method RotateByte(b: bv8) returns (ch2: bv8)
    ensures ch2 == Rotated(b)
  {
    var ch1 := b;
    ch2 := 0;
    LoopRotates(b);
    for j := 0 to 8
      invariant RotateLoop(ch1, ch2, 8 - j) == Rotated(b)
    {
      hide Rotated;
      ch2 := (ch2 << 1) + (ch1 & 0x01);
      ch1 := ch1 >> 1;
    }
  }

  lemma TwoTurns(a: bv8, c: bv8, n: nat)
    requires n >= 2
    ensures RotateLoop(a, c, n) == RotateLoop(a >> 2, (((c << 1) + (a & 0x01)) << 1) + ((a >> 1) & 0x01), n - 2)
  {
    assert (a >> 1) >> 1 == a >> 2;
    assert RotateLoop(a, c, n) == RotateLoop(a >> 1, (c << 1) + (a & 0x01), n - 1);
  }

  function Twice(a: bv8, c: bv8): bv8 {
    (((c << 1) + (a & 0x01)) << 1) + ((a >> 1) & 0x01)
  }

  lemma EightTurns(b: bv8)
    ensures RotateLoop(b, 0, 8) ==
            Twice(b >> 2 >> 2 >> 2, Twice(b >> 2 >> 2, Twice(b >> 2, Twice(b, 0))))
  {
    TwoTurns(b, 0, 8);
    TwoTurns(b >> 2, Twice(b, 0), 6);
    TwoTurns(b >> 2 >> 2, Twice(b >> 2, Twice(b, 0)), 4);
    TwoTurns(b >> 2 >> 2 >> 2, Twice(b >> 2 >> 2, Twice(b >> 2, Twice(b, 0))), 2);
  }

  /** Eight turns of the loop turn the byte upside down. */
  lemma LoopRotates(b: bv8)
    ensures RotateLoop(b, 0, 8) == Rotated(b)
  {
    EightTurns(b);
    hide RotateLoop;
  }

  /** ssd1306_rotate_byte turns a byte upside down. */
  lemma RotatedBit(b: bv8, k: nat)
    requires k < 8
    ensures Bit(Rotated(b), k) == Bit(b, 7 - k)
  {
  }

  lemma RotatedTwice(b: bv8)
    ensures Rotated(Rotated(b)) == b
  {
  }

  // --- The pieces of the vertical scroll ----------------------------------------------------------------

  lemma OrBit(a: bv8, b: bv8, k: nat)
    requires k < 8
    ensures Bit(a | b, k) == (Bit(a, k) || Bit(b, k))
  {
  }

  lemma RightOneBit(b: bv8, k: nat)
    requires k < 8
    ensures Bit(b >> 1, k) == (k < 7 && Bit(b, k + 1))
    ensures Bit((b & 0x80) >> 7, k) == (k == 0 && Bit(b, 7))
  {
  }

  lemma LeftOneBit(b: bv8, k: nat)
    requires k < 8
    ensures Bit(b << 1, k) == (k > 0 && Bit(b, k - 1))
    ensures Bit((b & 0x01) << 7, k) == (k == 7 && Bit(b, 0))
  {
  }

  /** The pixels of `wk0` move up one and the top pixel of `wk1` comes in at the bottom. */
  function ShiftUp(wk0: bv8, wk1: bv8): bv8 {
    (wk0 >> 1) | ((wk1 & 0x01) << 7)
  }

  lemma ShiftUpBit(wk0: bv8, wk1: bv8, k: nat)
    requires k < 8
    ensures Bit(ShiftUp(wk0, wk1), k) == if k < 7 then Bit(wk0, k + 1) else Bit(wk1, 0)
  {
    OrBit(wk0 >> 1, (wk1 & 0x01) << 7, k);
    RightOneBit(wk0, k);
    LeftOneBit(wk1, k);
    hide Bit;
  }

  /** The pixels of `wk0` move down one and the bottom pixel of `wk1` comes in at the top. */
  function ShiftDown(wk0: bv8, wk1: bv8): bv8 {
    (wk0 << 1) | ((wk1 & 0x80) >> 7)
  }

  lemma ShiftDownBit(wk0: bv8, wk1: bv8, k: nat)
    requires k < 8
    ensures Bit(ShiftDown(wk0, wk1), k) == if k > 0 then Bit(wk0, k - 1) else Bit(wk1, 7)
  {
    OrBit(wk0 << 1, (wk1 & 0x80) >> 7, k);
    LeftOneBit(wk0, k);
    RightOneBit(wk1, k);
    hide Bit;
  }

  // --- ssd1306_copy_bit -----------------------------------------------------------------------------------

  function CopyBit(src: bv8, srcBits: nat, dst: bv8, dstBits: nat): bv8
    requires srcBits < 8 && dstBits < 8
  {
    if src & Mask(srcBits) != 0 then dst | Mask(dstBits) else dst & !Mask(dstBits)
  }

  lemma CopyBitBit(src: bv8, srcBits: nat, dst: bv8, dstBits: nat, k: nat)
    requires srcBits < 8 && dstBits < 8 && k < 8
    ensures Bit(CopyBit(src, srcBits, dst, dstBits), k) == if k == dstBits then Bit(src, srcBits) else Bit(dst, k)
  {
    SetBit(dst, dstBits, k);
    ClearBit(dst, dstBits, k);
  }

  // --- The tripling of a glyph column -----------------------------------------------------------------------

  /** The loop of ssd1306_display_text_x3 over the rows of one column, with `n` turns to go. */
  function TripleLoop(column: bv8, inMask: bv8, outMask: bv32, out: bv32, n: nat): bv32
    decreases n
  {
    if n == 0 then out
    else TripleLoop(column, inMask << 1, outMask << 3, if column & inMask != 0 then out | outMask else out, n - 1)
  }

  function Tripled(column: bv8): bv32 {
    TripleLoop(column, 0x01, 0x7, 0, 8)
  }

  method TripleColumn(column: bv8) returns (out: bv32)
    ensures out == Tripled(column)
  {
    out := 0;
    var inMask: bv8, outMask: bv32 := 0x01, 0x7;
    for yy := 0 to 8
      invariant TripleLoop(column, inMask, outMask, out, 8 - yy) == Tripled(column)
    {
      if column & inMask != 0 {
        out := out | outMask;
      }
      inMask := inMask << 1;
      outMask := outMask << 3;
    }
  }

  /** Byte `n` of a little-endian uint32_t. */
  function ByteOf(w: bv32, n: nat): bv8
    requires n < 3
  {
    if n == 0 then (w & 0xFF) as bv8
    else if n == 1 then ((w >> 8) & 0xFF) as bv8
    else ((w >> 16) & 0xFF) as bv8
  }

  function OutMask(k: nat): bv32
    requires k <= 8
  {
    match k
    case 0 => 0x7
    case 1 => 0x38
    case 2 => 0x1C0
    case 3 => 0xE00
    case 4 => 0x7000
    case 5 => 0x38000
    case 6 => 0x1C0000
    case 7 => 0xE00000
    case _ => 0x7000000
  }

  function InMask(k: nat): bv8
    requires k <= 8
  {
    if k < 8 then Mask(k) else 0
  }

  /** The three rows that glyph row `k` becomes. */
  function Rows(column: bv8, k: nat): bv32
    requires k < 8
  {
    if Bit(column, k) then OutMask(k) else 0
  }

  lemma MasksMove(k: nat)
    requires k < 8
    ensures InMask(k) << 1 == InMask(k + 1) && OutMask(k) << 3 == OutMask(k + 1)
  {
  }

  lemma TripleTurn(column: bv8, out: bv32, k: nat)
    requires k < 8
    ensures TripleLoop(column, InMask(k), OutMask(k), out, 8 - k) ==
              TripleLoop(column, InMask(k + 1), OutMask(k + 1), out | Rows(column, k), 7 - k)
  {
    var next := if column & InMask(k) != 0 then out | OutMask(k) else out;
    assert TripleLoop(column, InMask(k), OutMask(k), out, 8 - k) ==
           TripleLoop(column, InMask(k) << 1, OutMask(k) << 3, next, 7 - k);
    hide TripleLoop;
    RowsOr(column, out, k);
    MasksMove(k);
    hide *;
  }

  lemma RowsOr(column: bv8, out: bv32, k: nat)
    requires k < 8
    ensures (if column & InMask(k) != 0 then out | OutMask(k) else out) == out | Rows(column, k)
  {
    hide OutMask, Mask;
    if Bit(column, k) {
      assert column & InMask(k) != 0;
    } else {
      assert !(column & InMask(k) != 0);
      OrZero(out);
    }
  }

  lemma OrZero(w: bv32)
    ensures w | 0 == w
  {
  }

  /** What the loop has gathered after `k` rows. */
  function Gathered(column: bv8, k: nat): bv32
    requires k <= 8
  {
    if k == 0 then 0 else Gathered(column, k - 1) | Rows(column, k - 1)
  }

  lemma {:induction false} LoopGathers(column: bv8, k: nat)
    requires k <= 8
    ensures TripleLoop(column, InMask(k), OutMask(k), Gathered(column, k), 8 - k) == Tripled(column)
    decreases k
  {
    if k > 0 {
      LoopGathers(column, k - 1);
      TripleTurn(column, Gathered(column, k - 1), k - 1);
    }
  }

  lemma LoopDone(column: bv8)
    ensures Tripled(column) == Gathered(column, 8)
  {
    LoopGathers(column, 8);
    hide Gathered, InMask, OutMask;
  }

  lemma ByteOfOr(a: bv32, b: bv32, n: nat)
    requires n < 3
    ensures ByteOf(a | b, n) == ByteOf(a, n) | ByteOf(b, n)
  {
    if n == 0 {
      assert ((a | b) & 0xFF) as bv8 == ((a & 0xFF) as bv8) | ((b & 0xFF) as bv8);
    } else if n == 1 {
      assert (((a | b) >> 8) & 0xFF) as bv8 == (((a >> 8) & 0xFF) as bv8) | (((b >> 8) & 0xFF) as bv8);
    } else {
      assert (((a | b) >> 16) & 0xFF) as bv8 == (((a >> 16) & 0xFF) as bv8) | (((b >> 16) & 0xFF) as bv8);
    }
  }

  lemma RowsBit(column: bv8, i: nat, n: nat, k: nat)
    requires i < 8 && n < 3 && k < 8
    ensures Bit(ByteOf(Rows(column, i), n), k) == (Bit(column, i) && (8 * n + k) / 3 == i)
  {
  }

  lemma NoneGathered(column: bv8, n: nat, k: nat)
    requires n < 3 && k < 8
    ensures !Bit(ByteOf(Gathered(column, 0), n), k)
  {
    assert ByteOf(0, n) == 0;
    assert !Bit(0, k);
    hide Bit, ByteOf;
  }

  lemma GatheredUnfold(column: bv8, m: nat)
    requires 0 < m <= 8
    ensures Gathered(column, m) == Gathered(column, m - 1) | Rows(column, m - 1)
  {
    hide Rows, Bit, OutMask;
  }

  lemma OrBytes(was: bv32, more: bv32, n: nat, k: nat)
    requires n < 3 && k < 8
    ensures Bit(ByteOf(was | more, n), k) == (Bit(ByteOf(was, n), k) || Bit(ByteOf(more, n), k))
  {
    hide *;
    ByteOfOr(was, more, n);
    OrBit(ByteOf(was, n), ByteOf(more, n), k);
  }

  /** Gathering one more row changes the three rows it becomes. */
  lemma GatheredStep(column: bv8, m: nat, n: nat, k: nat)
    requires 0 < m <= 8 && n < 3 && k < 8
    ensures Bit(ByteOf(Gathered(column, m), n), k) ==
              (Bit(ByteOf(Gathered(column, m - 1), n), k) || (Bit(column, m - 1) && (8 * n + k) / 3 == m - 1))
  {
    hide *;
    GatheredUnfold(column, m);
    OrBytes(Gathered(column, m - 1), Rows(column, m - 1), n, k);
    RowsBit(column, m - 1, n, k);
  }

  lemma ThirdOf(n: nat, k: nat)
    requires n < 3 && k < 8
    ensures 0 <= (8 * n + k) / 3 < 8
  {
  }

  lemma {:induction false} GatheredBit(column: bv8, m: nat, n: nat, k: nat)
    requires m <= 8 && n < 3 && k < 8
    ensures 0 <= (8 * n + k) / 3 < 8
    ensures Bit(ByteOf(Gathered(column, m), n), k) == ((8 * n + k) / 3 < m && Bit(column, (8 * n + k) / 3))
  {
    hide *;
    ThirdOf(n, k);
    if m == 0 {
      NoneGathered(column, n, k);
    } else {
      GatheredBit(column, m - 1, n, k);
      GatheredStep(column, m, n, k);
    }
  }

  /** Row 8n + k of the tripled column is row (8n + k) / 3 of the glyph column. */
  lemma TripledBit(column: bv8, n: nat, k: nat)
    requires n < 3 && k < 8
    ensures 0 <= (8 * n + k) / 3 < 8
    ensures Bit(ByteOf(Tripled(column), n), k) == Bit(column, (8 * n + k) / 3)
  {
    hide *;
    LoopDone(column);
    GatheredBit(column, 8, n, k);
  }
}
