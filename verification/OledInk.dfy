/** Drawing on the shadow pixel by pixel: what a plotted sequence of points and a bitmap leave in the picture. */
module OledInk {
  import opened OledBits
  import opened OledController
  import opened OledShadow
  import OledLine

  /** One byte of the shadow replaced. */
  function SetByte(bytes: Bytes, page: nat, seg: nat, b: bv8): (r: Bytes)
    requires Shaped(bytes, |bytes|) && page < |bytes| && seg < COLUMNS
    ensures Shaped(r, |bytes|)
  {
    bytes[page := bytes[page][seg := b]]
  }

  lemma SetBytePixel(bytes: Bytes, page: nat, seg: nat, b: bv8, flip: bool, x: nat, y: nat)
    requires Shaped(bytes, |bytes|) && page < |bytes| && seg < COLUMNS && x < COLUMNS && y < 8 * |bytes|
    ensures PixelOf(SetByte(bytes, page, seg, b), flip, x, y) ==
              if y / 8 == page && x == seg then Bit(Turned(flip, b), y % 8) else PixelOf(bytes, flip, x, y)
  {
    hide Bit, Turned;
  }

  // --- Points ------------------------------------------------------------------------------------------------

  predicate OnPanel(p: OledLine.Point, pages: nat) {
    0 <= p.x < COLUMNS && 0 <= p.y < 8 * pages
  }

  ghost predicate AllOnPanel(points: seq<OledLine.Point>, pages: nat) {
    forall i :: 0 <= i < |points| ==> OnPanel(points[i], pages)
  }

  /** One call of _ssd1306_pixel. */
  function PlotOne(bytes: Bytes, p: OledLine.Point, flip: bool, invert: bool): (r: Bytes)
    requires Shaped(bytes, |bytes|) && OnPanel(p, |bytes|)
    ensures Shaped(r, |bytes|)
  {
    SetByte(bytes, p.y / 8, p.x, PixelByte(flip, bytes[p.y / 8][p.x], p.y % 8, invert))
  }

  ghost function Plotted(bytes: Bytes, points: seq<OledLine.Point>, flip: bool, invert: bool): (r: Bytes)
    requires Shaped(bytes, |bytes|) && AllOnPanel(points, |bytes|)
    ensures Shaped(r, |bytes|)
    decreases |points|
  {
    if points == [] then bytes else Plotted(PlotOne(bytes, points[0], flip, invert), points[1..], flip, invert)
  }

  /** The byte stored for a pixel: on a turned panel the eight pixels of the byte are turned over as well. */
  lemma PixelByteBit(flip: bool, b: bv8, bit: nat, invert: bool, k: nat)
    requires bit < 8 && k < 8
    ensures Bit(Turned(flip, PixelByte(flip, b, bit, invert)), k) ==
              if k == bit then !invert else Bit(Turned(flip, b), if flip then 7 - k else k)
  {
    hide Bit, PixelByte, Rotated;
    PixelByteBits(flip, b, bit, invert, k);
    RotatedBit(b, 7 - k);
  }

  /** Main result: what plotting one pixel does, either way up: the pixel gets the ink; on a turned panel the other
      seven pixels of its byte change places, the first with the last; every other pixel stays. */
  lemma PlotOnePixel(bytes: Bytes, p: OledLine.Point, flip: bool, invert: bool, x: nat, y: nat)
    requires Shaped(bytes, |bytes|) && OnPanel(p, |bytes|) && x < COLUMNS && y < 8 * |bytes|
    ensures PixelOf(PlotOne(bytes, p, flip, invert), flip, x, y) ==
              if p == OledLine.Point(x, y) then !invert
              else if flip && p.x == x && p.y / 8 == y / 8 then PixelOf(bytes, flip, x, 8 * (y / 8) + 7 - y % 8)
              else PixelOf(bytes, flip, x, y)
  {
    var b := bytes[p.y / 8][p.x];
    SetBytePixel(bytes, p.y / 8, p.x, PixelByte(flip, b, p.y % 8, invert), flip, x, y);
    PixelByteBit(flip, b, p.y % 8, invert, y % 8);
    hide Bit, Mask, SetByte, Turned, PixelByte;
    assert (8 * (y / 8) + 7 - y % 8) / 8 == y / 8 && (8 * (y / 8) + 7 - y % 8) % 8 == 7 - y % 8;
  }

  /** Main result: on a panel that is not turned, plotting sets (or clears) exactly the given points. */
  lemma {:induction false} PlottedPixel(bytes: Bytes, points: seq<OledLine.Point>, invert: bool, x: nat, y: nat)
    requires Shaped(bytes, |bytes|) && AllOnPanel(points, |bytes|) && x < COLUMNS && y < 8 * |bytes|
    ensures PixelOf(Plotted(bytes, points, false, invert), false, x, y) ==
              if OledLine.Point(x, y) in points then !invert else PixelOf(bytes, false, x, y)
    decreases |points|
  {
    if points != [] {
      PlotOnePixel(bytes, points[0], false, invert, x, y);
      hide PixelOf, PlotOne;
      PlottedPixel(PlotOne(bytes, points[0], false, invert), points[1..], invert, x, y);
    }
  }

  lemma PlottedTurn(bytes: Bytes, p: OledLine.Point, rest: seq<OledLine.Point>, flip: bool, invert: bool)
    requires Shaped(bytes, |bytes|) && AllOnPanel([p] + rest, |bytes|)
    ensures OnPanel(p, |bytes|) && AllOnPanel(rest, |bytes|)
    ensures Plotted(bytes, [p] + rest, flip, invert) == Plotted(PlotOne(bytes, p, flip, invert), rest, flip, invert)
  {
    var points := [p] + rest;
    assert points[0] == p && points[1..] == rest;
    assert forall i :: 0 <= i < |rest| ==> rest[i] == points[i + 1];
  }

  /** With `n` turns of a line's loop to go, the shadow is on its way to `goal`. */
  ghost predicate PlotsTo(bytes: Bytes, goal: Bytes, flip: bool, invert: bool,
                          steep: bool, a: int, b: int, sa: int, sb: int, da: int, db: int, e: int, n: nat)
    requires Shaped(bytes, |bytes|)
  {
    var rest := OledLine.AsPoints(steep, OledLine.Trace(a, b, sa, sb, da, db, e, n));
    AllOnPanel(rest, |bytes|) && Plotted(bytes, rest, flip, invert) == goal
  }

  lemma LineStarts(bytes: Bytes, x1: int, y1: int, x2: int, y2: int, dx: int, dy: int, sx: int, sy: int, flip: bool,
                   invert: bool)
    requires dx == (if x2 > x1 then x2 - x1 else x1 - x2) && dy == (if y2 > y1 then y2 - y1 else y1 - y2)
    requires sx == (if x2 > x1 then 1 else -1) && sy == (if y2 > y1 then 1 else -1)
    requires Shaped(bytes, |bytes|) && AllOnPanel(OledLine.LinePoints(x1, y1, x2, y2), |bytes|)
    ensures dx >= 0 && dy >= 0
    ensures var goal := Plotted(bytes, OledLine.LinePoints(x1, y1, x2, y2), flip, invert);
            if dx > dy then PlotsTo(bytes, goal, flip, invert, false, x1, y1, sx, sy, dx, dy, -dx, dx + 1)
            else PlotsTo(bytes, goal, flip, invert, true, y1, x1, sy, sx, dy, dx, -dy, dy + 1)
  {
    hide OledLine.Trace, OledLine.AsPoints, AllOnPanel, Plotted;
  }

  lemma PlotsDone(bytes: Bytes, goal: Bytes, flip: bool, invert: bool,
                  steep: bool, a: int, b: int, sa: int, sb: int, da: int, db: int, e: int)
    requires Shaped(bytes, |bytes|) && PlotsTo(bytes, goal, flip, invert, steep, a, b, sa, sb, da, db, e, 0)
    ensures bytes == goal
  {
  }

  lemma PlotsOn(bytes: Bytes, goal: Bytes, flip: bool, invert: bool,
                steep: bool, a: int, b: int, sa: int, sb: int, da: int, db: int, e: int, n: nat)
    requires Shaped(bytes, |bytes|) && n > 0 && PlotsTo(bytes, goal, flip, invert, steep, a, b, sa, sb, da, db, e, n)
    ensures var p := OledLine.AsPoint(steep, (a, b));
            && OnPanel(p, |bytes|)
            && var b1, e1 := OledLine.NextMinor(b, sb, db, e), OledLine.NextError(da, db, e);
            PlotsTo(PlotOne(bytes, p, flip, invert), goal, flip, invert, steep, a + sa, b1, sa, sb, da, db, e1, n - 1)
  {
    OledLine.TraceTurn(steep, a, b, sa, sb, da, db, e, n);
    var b1, e1 := OledLine.NextMinor(b, sb, db, e), OledLine.NextError(da, db, e);
    PlottedTurn(bytes, OledLine.AsPoint(steep, (a, b)),
                OledLine.AsPoints(steep, OledLine.Trace(a + sa, b1, sa, sb, da, db, e1, n - 1)), flip, invert);
    hide OledLine.Trace, OledLine.AsPoints, Plotted, AllOnPanel, OnPanel, PlotOne;
  }

  /** A line between points of the panel stays on the panel. */
  lemma LineOnPanel(x1: int, y1: int, x2: int, y2: int, pages: nat)
    requires OnPanel(OledLine.Point(x1, y1), pages) && OnPanel(OledLine.Point(x2, y2), pages)
    ensures AllOnPanel(OledLine.LinePoints(x1, y1, x2, y2), pages)
  {
    var points := OledLine.LinePoints(x1, y1, x2, y2);
    hide OledLine.LinePoints;
    forall i | 0 <= i < |points|
      ensures OnPanel(points[i], pages)
    {
      OledLine.LineShape(x1, y1, x2, y2, i);
    }
  }

  /** Main result: a line between two points of a panel that is not turned sets (or clears) exactly the pixels that
      LinePoints plots. */
  lemma LineInk(bytes: Bytes, x1: int, y1: int, x2: int, y2: int, invert: bool, x: nat, y: nat)
    requires Shaped(bytes, |bytes|) && x < COLUMNS && y < 8 * |bytes|
    requires OnPanel(OledLine.Point(x1, y1), |bytes|) && OnPanel(OledLine.Point(x2, y2), |bytes|)
    ensures var points := OledLine.LinePoints(x1, y1, x2, y2);
            && AllOnPanel(points, |bytes|)
            && PixelOf(Plotted(bytes, points, false, invert), false, x, y) ==
                 if OledLine.Point(x, y) in points then !invert else PixelOf(bytes, false, x, y)
  {
    LineOnPanel(x1, y1, x2, y2, |bytes|);
    PlottedPixel(bytes, OledLine.LinePoints(x1, y1, x2, y2), invert, x, y);
    hide OledLine.LinePoints, Plotted, PixelOf, OnPanel, AllOnPanel;
  }

  // --- Bitmaps -----------------------------------------------------------------------------------------------

  /** A bitmap of `width` by `height` pixels, one bit each, rows first, the leftmost pixel in bit 7. */
  datatype Bitmap = Bitmap(bits: seq<bv8>, width: nat, height: nat) {
    predicate Fits(xpos: nat, ypos: nat, pages: nat) {
      && width % 8 == 0
      && |bits| >= width / 8 * height
      && xpos + width <= COLUMNS && ypos + height <= 8 * pages
    }

    lemma ByteInside(row: nat, col: nat)
      requires width % 8 == 0 && |bits| >= width / 8 * height && row < height && col < width
      ensures 0 <= row * (width / 8) + col / 8 < |bits|
    {
      var w := width / 8;
      assert row * w + w == (row + 1) * w;
      assert (row + 1) * w <= height * w;
    }

    /** Pixel (col, row) of the picture. */
    predicate Ink(row: nat, col: nat, invert: bool)
      requires width % 8 == 0 && |bits| >= width / 8 * height && row < height && col < width
    {
      ByteInside(row, col);
      Bit(bits[row * (width / 8) + col / 8], 7 - col % 8) != invert
    }
  }

  /** The first `rows` rows and the first `cols` pixels of the next one have been drawn. */
  predicate Drawn(rows: nat, cols: nat, row: int, col: int) {
    row < rows || (row == rows && col < cols)
  }

  /** Pixel (x, y) while the bitmap is being drawn at (xpos, ypos). */
  ghost predicate StampedAt(was: Bytes, now: Bytes, flip: bool, bitmap: Bitmap, xpos: nat, ypos: nat, invert: bool,
                            rows: nat, cols: nat, x: nat, y: nat)
    requires bitmap.Fits(xpos, ypos, |was|) && Shaped(was, |was|) && Shaped(now, |was|) && x < COLUMNS && y < 8 * |was|
  {
    PixelOf(now, flip, x, y) ==
      if xpos <= x < xpos + bitmap.width && ypos <= y < ypos + bitmap.height && Drawn(rows, cols, y - ypos, x - xpos)
      then bitmap.Ink(y - ypos, x - xpos, invert) else PixelOf(was, flip, x, y)
  }

  ghost predicate Stamped(was: Bytes, now: Bytes, flip: bool, bitmap: Bitmap, xpos: nat, ypos: nat, invert: bool,
                          rows: nat, cols: nat)
    requires bitmap.Fits(xpos, ypos, |was|)
  {
    && Shaped(was, |was|) && Shaped(now, |was|)
    && forall x: nat, y: nat :: x < COLUMNS && y < 8 * |was| ==>
         StampedAt(was, now, flip, bitmap, xpos, ypos, invert, rows, cols, x, y)
  }

  /** The byte after ssd1306_copy_bit has put bit `srcBits` of `src` at bit `dstBits` of the picture. */
  function StampByte(flip: bool, src: bv8, srcBits: nat, was: bv8, dstBits: nat): bv8
    requires srcBits < 8 && dstBits < 8
  {
    Turned(flip, CopyBit(src, srcBits, Turned(flip, was), dstBits))
  }

  lemma StampByteBit(flip: bool, src: bv8, srcBits: nat, was: bv8, dstBits: nat, k: nat)
    requires srcBits < 8 && dstBits < 8 && k < 8
    ensures Bit(Turned(flip, StampByte(flip, src, srcBits, was, dstBits)), k) ==
              if k == dstBits then Bit(src, srcBits) else Bit(Turned(flip, was), k)
  {
    TurnedTwice(flip, CopyBit(src, srcBits, Turned(flip, was), dstBits));
    CopyBitBit(src, srcBits, Turned(flip, was), dstBits, k);
  }

  lemma StampBytePixel(bytes: Bytes, flip: bool, src: bv8, srcBits: nat, px: nat, py: nat, x: nat, y: nat)
    requires Shaped(bytes, |bytes|) && srcBits < 8 && px < COLUMNS && py < 8 * |bytes| && x < COLUMNS && y < 8 * |bytes|
    ensures PixelOf(SetByte(bytes, py / 8, px, StampByte(flip, src, srcBits, bytes[py / 8][px], py % 8)), flip, x, y) ==
              if x == px && y == py then Bit(src, srcBits) else PixelOf(bytes, flip, x, y)
  {
    var b := bytes[py / 8][px];
    SetBytePixel(bytes, py / 8, px, StampByte(flip, src, srcBits, b, py % 8), flip, x, y);
    StampByteBit(flip, src, srcBits, b, py % 8, y % 8);
    hide Bit, StampByte, SetByte, Turned;
  }

  lemma StampNextAt(was: Bytes, now: Bytes, flip: bool, bitmap: Bitmap, xpos: nat, ypos: nat, invert: bool, row: nat,
                    col: nat,
                    src: bv8, x: nat, y: nat)
    requires bitmap.Fits(xpos, ypos, |was|) && row < bitmap.height && col < bitmap.width
    requires Shaped(was, |was|) && Shaped(now, |was|) && x < COLUMNS && y < 8 * |was|
    ensures var px, py := xpos + col, ypos + row;
            var next := SetByte(now, py / 8, px, StampByte(flip, src, 7 - col % 8, now[py / 8][px], py % 8));
            && Bit(src, 7 - col % 8) == bitmap.Ink(row, col, invert)
            && StampedAt(was, now, flip, bitmap, xpos, ypos, invert, row, col, x, y)
            ==> StampedAt(was, next, flip, bitmap, xpos, ypos, invert, row, col + 1, x, y)
  {
    hide PixelOf, Bit, SetByte, StampByte, Bitmap.Ink;
    StampBytePixel(now, flip, src, 7 - col % 8, xpos + col, ypos + row, x, y);
    DrawnNext(row, col, y - ypos, x - xpos);
    hide Drawn;
  }

  lemma DrawnNext(rows: nat, cols: nat, row: int, col: int)
    ensures Drawn(rows, cols + 1, row, col) <==> Drawn(rows, cols, row, col) || (row == rows && col == cols)
    ensures !Drawn(rows, cols, rows, cols)
    ensures col < 0 ==> !(row == rows && col == cols)
  {
  }

  /** The bit copied for pixel (col, row) is the bitmap's ink there. */
  lemma SourceInk(bitmap: Bitmap, invert: bool, row: nat, col: nat)
    requires bitmap.width % 8 == 0 && |bitmap.bits| >= bitmap.width / 8 * bitmap.height
    requires row < bitmap.height && col < bitmap.width
    ensures 0 <= row * (bitmap.width / 8) + col / 8 < |bitmap.bits|
    ensures Bit(Inked(invert, bitmap.bits[row * (bitmap.width / 8) + col / 8]), 7 - col % 8) ==
              bitmap.Ink(row, col, invert)
  {
    hide Bit, Inked;
    bitmap.ByteInside(row, col);
    InkedBit(invert, bitmap.bits[row * (bitmap.width / 8) + col / 8], 7 - col % 8);
  }

  lemma StampedShaped(was: Bytes, now: Bytes, flip: bool, bitmap: Bitmap, xpos: nat, ypos: nat, invert: bool,
                      rows: nat, cols: nat)
    requires bitmap.Fits(xpos, ypos, |was|)
    ensures Stamped(was, now, flip, bitmap, xpos, ypos, invert, rows, cols) ==>
              Shaped(was, |was|) && Shaped(now, |was|) && Shaped(now, |now|)
  {
  }

  lemma StampNextFrom(was: Bytes, now: Bytes, flip: bool, bitmap: Bitmap, xpos: nat, ypos: nat, invert: bool, row: nat,
                      col: nat, src: bv8)
    requires bitmap.Fits(xpos, ypos, |was|) && row < bitmap.height && col < bitmap.width
    requires Shaped(was, |was|) && Shaped(now, |was|)
    ensures var px, py := xpos + col, ypos + row;
            var next := SetByte(now, py / 8, px, StampByte(flip, src, 7 - col % 8, now[py / 8][px], py % 8));
            && Bit(src, 7 - col % 8) == bitmap.Ink(row, col, invert)
            && Stamped(was, now, flip, bitmap, xpos, ypos, invert, row, col)
            ==> Stamped(was, next, flip, bitmap, xpos, ypos, invert, row, col + 1)
  {
    hide PixelOf, Bit, SetByte, StampByte, StampedAt, Bitmap.Ink;
    if Bit(src, 7 - col % 8) == bitmap.Ink(row, col, invert) {
      var px, py, further := xpos + col, ypos + row, col + 1;
      var next := SetByte(now, py / 8, px, StampByte(flip, src, 7 - col % 8, now[py / 8][px], py % 8));
      if Stamped(was, now, flip, bitmap, xpos, ypos, invert, row, col) {
        forall x: nat, y: nat | x < COLUMNS && y < 8 * |was|
          ensures StampedAt(was, next, flip, bitmap, xpos, ypos, invert, row, further, x, y)
        {
          StampNextAt(was, now, flip, bitmap, xpos, ypos, invert, row, col, src, x, y);
        }
      }
    }
  }

  /** One pixel further along a row. */
  lemma StampNext(was: Bytes, now: Bytes, flip: bool, bitmap: Bitmap, xpos: nat, ypos: nat, invert: bool, row: nat,
                  col: nat)
    requires bitmap.Fits(xpos, ypos, |was|) && row < bitmap.height && col < bitmap.width
    requires Stamped(was, now, flip, bitmap, xpos, ypos, invert, row, col)
    ensures 0 <= row * (bitmap.width / 8) + col / 8 < |bitmap.bits|
    ensures var src := Inked(invert, bitmap.bits[row * (bitmap.width / 8) + col / 8]);
            var px, py := xpos + col, ypos + row;
            var next := SetByte(now, py / 8, px, StampByte(flip, src, 7 - col % 8, now[py / 8][px], py % 8));
            Stamped(was, next, flip, bitmap, xpos, ypos, invert, row, col + 1)
  {
    StampedShaped(was, now, flip, bitmap, xpos, ypos, invert, row, col);
    hide Stamped, Bit, SetByte, StampByte, Inked, Bitmap.Ink;
    SourceInk(bitmap, invert, row, col);
    StampNextFrom(was, now, flip, bitmap, xpos, ypos, invert, row, col,
                  Inked(invert, bitmap.bits[row * (bitmap.width / 8) + col / 8]));
  }

  lemma InEights(q: nat, r: nat)
    requires r < 8
    ensures (8 * q + r) / 8 == q && (8 * q + r) % 8 == r
  {
  }

  lemma StampWhere(bitmap: Bitmap, xpos: nat, ypos: nat, pages: nat, row: nat, index: nat, srcBits: nat, offset: nat,
                   page: nat, dstBits: nat)
    requires bitmap.Fits(xpos, ypos, pages) && row < bitmap.height && 8 * index < bitmap.width && srcBits < 8
    requires offset == row * (bitmap.width / 8) && page * 8 + dstBits == ypos + row && dstBits < 8
    ensures var col := 8 * index + 7 - srcBits;
            && col < bitmap.width && xpos + col < COLUMNS && page < pages
            && col / 8 == index && 7 - col % 8 == srcBits && index + offset < |bitmap.bits|
            && (ypos + row) / 8 == page && (ypos + row) % 8 == dstBits
  {
    InEights(index, 7 - srcBits);
    InEights(page, dstBits);
    bitmap.ByteInside(row, 8 * index + 7 - srcBits);
  }

  /** The same in the code's variables: bit `srcBits` of byte `offset + index` goes to bit `dstBits` of page `page`. */
  lemma StampBits(was: Bytes, now: Bytes, flip: bool, bitmap: Bitmap, xpos: nat, ypos: nat, invert: bool, row: nat,
                  index: nat, srcBits: nat, offset: nat, page: nat, dstBits: nat)
    requires bitmap.Fits(xpos, ypos, |was|) && row < bitmap.height && 8 * index < bitmap.width && srcBits < 8
    requires offset == row * (bitmap.width / 8) && page * 8 + dstBits == ypos + row && dstBits < 8
    requires Stamped(was, now, flip, bitmap, xpos, ypos, invert, row, 8 * index + 7 - srcBits)
    ensures var seg := xpos + 8 * index + 7 - srcBits;
            && Shaped(now, |now|) && page < |now| == |was| && seg < COLUMNS && index + offset < |bitmap.bits|
            && var b := StampByte(flip, Inked(invert, bitmap.bits[index + offset]), srcBits, now[page][seg], dstBits);
            Stamped(was, SetByte(now, page, seg, b), flip, bitmap, xpos, ypos, invert, row, 8 * index + 8 - srcBits)
  {
    StampedShaped(was, now, flip, bitmap, xpos, ypos, invert, row, 8 * index + 7 - srcBits);
    StampWhere(bitmap, xpos, ypos, |was|, row, index, srcBits, offset, page, dstBits);
    hide *;
    StampNext(was, now, flip, bitmap, xpos, ypos, invert, row, 8 * index + 7 - srcBits);
  }

  lemma StampedNone(was: Bytes, flip: bool, bitmap: Bitmap, xpos: nat, ypos: nat, invert: bool)
    requires bitmap.Fits(xpos, ypos, |was|) && Shaped(was, |was|)
    ensures Stamped(was, was, flip, bitmap, xpos, ypos, invert, 0, 0)
  {
    hide PixelOf, Bitmap.Ink;
  }

  lemma StampRowEnds(was: Bytes, now: Bytes, flip: bool, bitmap: Bitmap, xpos: nat, ypos: nat, invert: bool, row: nat)
    requires bitmap.Fits(xpos, ypos, |was|) && row < bitmap.height
    requires Stamped(was, now, flip, bitmap, xpos, ypos, invert, row, bitmap.width)
    ensures Stamped(was, now, flip, bitmap, xpos, ypos, invert, row + 1, 0)
  {
    var below := row + 1;
    forall x: nat, y: nat | x < COLUMNS && y < 8 * |was|
      ensures StampedAt(was, now, flip, bitmap, xpos, ypos, invert, below, 0, x, y)
    {
      assert StampedAt(was, now, flip, bitmap, xpos, ypos, invert, row, bitmap.width, x, y);
      hide PixelOf, Stamped;
    }
  }

  /** The whole bitmap drawn: each pixel under it shows the bitmap's ink, every other pixel is unchanged. */
  lemma StampedWhole(was: Bytes, now: Bytes, flip: bool, bitmap: Bitmap, xpos: nat, ypos: nat, invert: bool, x: nat,
                     y: nat)
    requires bitmap.Fits(xpos, ypos, |was|) && x < COLUMNS && y < 8 * |was|
    requires Stamped(was, now, flip, bitmap, xpos, ypos, invert, bitmap.height, 0)
    ensures PixelOf(now, flip, x, y) ==
              if xpos <= x < xpos + bitmap.width && ypos <= y < ypos + bitmap.height then
                assert 0 <= (y - ypos) * (bitmap.width / 8) + (x - xpos) / 8 < |bitmap.bits| by {
                  bitmap.ByteInside(y - ypos, x - xpos);
                }
                Bit(bitmap.bits[(y - ypos) * (bitmap.width / 8) + (x - xpos) / 8], 7 - (x - xpos) % 8) != invert
              else PixelOf(was, flip, x, y)
  {
    assert StampedAt(was, now, flip, bitmap, xpos, ypos, invert, bitmap.height, 0, x, y);
    hide PixelOf, Bit;
  }
}
