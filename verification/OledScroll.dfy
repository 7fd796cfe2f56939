/** The scrolling text window: a range of pages, entered at `start`, whose rows move on towards `end`. */
module OledScroll {
  import opened OledBits
  import opened OledController
  import opened OledShadow
  import opened OledSync

  function Direction(start: int, end: int): int {
    if start > end then -1 else 1
  }

  /** What software_scroll accepts; it sets the direction along with the two pages. */
  predicate Window(start: int, end: int, direction: int, pages: nat) {
    0 <= start < pages && 0 <= end < pages && direction == Direction(start, end)
  }

  /** The source row of the k-th turn of scroll_text's loop, which leaves only at `start`. */
  function SourceAt(start: int, end: int, k: nat): int {
    if k == 0 then end - Direction(start, end) else SourceAt(start, end, k - 1) - Direction(start, end)
  }

  lemma SourceSteps(start: int, end: int, k: nat)
    ensures SourceAt(start, end, 0) == end - Direction(start, end)
    ensures SourceAt(start, end, k + 1) == SourceAt(start, end, k) - Direction(start, end)
  {
  }

  lemma {:induction false} SourceLine(start: int, end: int, k: nat)
    ensures SourceAt(start, end, k) == if start > end then end + 1 + k else end - 1 - k
  {
    if k > 0 {
      SourceLine(start, end, k - 1);
    }
  }

  /** The loop has an exit if and only if the window is longer than one page. software_scroll takes a one-page window
      too; the loop then reads row -1 after `start` turns, having met no exit. */
  lemma ScrollExits(start: nat, end: nat)
    ensures (exists k: nat :: SourceAt(start, end, k) == start) <==> start != end
    ensures start == end ==> SourceAt(start, end, start) == -1
  {
    if start != end {
      var k: nat := (if start > end then start - end else end - start) - 1;
      SourceLine(start, end, k);
      assert SourceAt(start, end, k) == start;
    } else {
      SourceLine(start, end, start);
      forall k: nat
        ensures SourceAt(start, end, k) != start
      {
        SourceLine(start, end, k);
      }
    }
  }

  /** The row that scroll_text's loop has put on page p when the next source row is `src`. */
  function Origin(p: int, end: int, direction: int, src: int): int {
    if direction == 1 then (if src + 1 < p <= end then p - 1 else p)
    else (if end <= p < src - 1 then p + 1 else p)
  }

  ghost function Moved(bytes: Bytes, end: int, direction: int, src: int): (r: Bytes)
    requires Shaped(bytes, |bytes|) && 0 <= end < |bytes| && (direction == 1 ==> src >= -1) &&
             (direction != 1 ==> src <= |bytes|)
    ensures Shaped(r, |bytes|)
    ensures forall p :: 0 <= p < |bytes| ==> r[p] == bytes[Origin(p, end, direction, src)]
  {
    seq(|bytes|, p requires 0 <= p < |bytes| => bytes[Origin(p, end, direction, src)])
  }

  /** Every page of the window but the first takes over the row of the page before it; the others stay. */
  ghost function Shifted(bytes: Bytes, start: int, end: int): (r: Bytes)
    requires Shaped(bytes, |bytes|) && 0 <= start < |bytes| && 0 <= end < |bytes|
    ensures Shaped(r, |bytes|)
    ensures forall p :: 0 <= p < |bytes| ==>
              r[p] == bytes[if start < p <= end then p - 1 else if end <= p < start then p + 1 else p]
  {
    seq(|bytes|, p requires 0 <= p < |bytes| =>
      bytes[if start < p <= end then p - 1 else if end <= p < start then p + 1 else p])
  }

  /** Main result: in the scrolled window each page but the first shows what the page before it showed, the first shows
      the new text over what it showed, and no other page changes. */
  lemma ScrolledTextPixel(bytes: Bytes, font: Font, start: int, end: int, text: seq<nat>, flip: bool, invert: bool,
                          x: nat, y: nat)
    requires ValidFont(font) && ValidText(text) && Shaped(bytes, |bytes|) && 0 <= start < |bytes| && 0 <= end < |bytes|
    requires x < COLUMNS && y < 8 * |bytes|
    ensures Shaped(TextShown(Shifted(bytes, start, end), font, start, text, flip, invert), |bytes|)
    ensures PixelOf(TextShown(Shifted(bytes, start, end), font, start, text, flip, invert), flip, x, y) ==
              if y / 8 == start && x / 8 < |text| then Bit(font[text[x / 8]][x % 8], y % 8) != invert
              else if start < y / 8 <= end then PixelOf(bytes, flip, x, y - 8)
              else if end <= y / 8 < start then PixelOf(bytes, flip, x, y + 8)
              else PixelOf(bytes, flip, x, y)
  {
    hide TextShown, Bit, Turned;
    TextPixel(Shifted(bytes, start, end), font, start, text, flip, invert, x, y);
    assert (y + 8) / 8 == y / 8 + 1 && (y + 8) % 8 == y % 8;
    if y >= 8 {
      assert (y - 8) / 8 == y / 8 - 1 && (y - 8) % 8 == y % 8;
    }
  }

  lemma MovedNone(bytes: Bytes, start: int, end: int)
    requires Shaped(bytes, |bytes|) && 0 <= start < |bytes| && 0 <= end < |bytes| && start != end
    ensures Moved(bytes, end, Direction(start, end), end - Direction(start, end)) == bytes
  {
  }

  lemma MovedNext(bytes: Bytes, start: int, end: int, d: int, src: int)
    requires Shaped(bytes, |bytes|) && 0 <= start < |bytes| && 0 <= end < |bytes| && start != end &&
             d == Direction(start, end)
    requires start <= src < end || end < src <= start
    ensures 0 <= src < |bytes| && 0 <= src + d < |bytes| && (if start < end then d == 1 else d == -1)
    ensures Moved(bytes, end, d, src)[src + d := Moved(bytes, end, d, src)[src]] == Moved(bytes, end, d, src - d)
  {
  }

  lemma MovedAll(bytes: Bytes, start: int, end: int)
    requires Shaped(bytes, |bytes|) && 0 <= start < |bytes| && 0 <= end < |bytes| && start != end
    ensures Moved(bytes, end, Direction(start, end), start - Direction(start, end)) == Shifted(bytes, start, end)
  {
  }

  /** The loop's state before its turn number `turn`. */
  ghost predicate ScrollsAt(was: Bytes, bytes: Bytes, start: int, end: int, src: int, turn: nat) {
    && Shaped(was, |was|) && 0 <= start < |was| && 0 <= end < |was| && start != end
    && (start <= src < end || end < src <= start)
    && src == SourceAt(start, end, turn)
    && bytes == Moved(was, end, Direction(start, end), src)
  }

  lemma ScrollsFirst(was: Bytes, start: int, end: int)
    requires Shaped(was, |was|) && 0 <= start < |was| && 0 <= end < |was| && start != end
    ensures ScrollsAt(was, was, start, end, end - Direction(start, end), 0)
  {
    MovedNone(was, start, end);
    hide Moved;
  }

  lemma ScrollsNext(was: Bytes, bytes: Bytes, start: int, end: int, src: int, turn: nat)
    requires ScrollsAt(was, bytes, start, end, src, turn)
    ensures var d := Direction(start, end);
            && |bytes| == |was| && 0 <= src < |was| && 0 <= src + d < |was| && d != 0
            && var next := bytes[src + d := bytes[src]];
               if src == start then next == Shifted(was, start, end)
               else ScrollsAt(was, next, start, end, src - d, turn + 1)
  {
    var d := Direction(start, end);
    MovedNext(was, start, end, d, src);
    SourceSteps(start, end, turn);
    if src == start {
      MovedAll(was, start, end);
    }
    hide Moved, Shifted, SourceAt;
  }

  function TurnsLeft(start: int, src: int): nat {
    if src < start then start - src else src - start
  }

  lemma FewerTurns(was: Bytes, bytes: Bytes, start: int, end: int, src: int, turn: nat)
    requires ScrollsAt(was, bytes, start, end, src, turn)
    ensures TurnsLeft(start, src) < TurnsLeft(start, src + Direction(start, end))
  {
  }

  lemma RowShows(ram: Bytes, bytes: Bytes, flip: bool, page: nat, row: Row)
    requires Shows(ram, bytes, flip) && page < |bytes| && |row| == COLUMNS
    ensures Shows(ram[Mirror(flip, |bytes|, page) := row], bytes[page := row], flip)
  {
  }

  // --- Fading ------------------------------------------------------------------------------------------------

  /** The byte of ssd1306_fadeout after `k` shifts of 0xFF. */
  function Faded(flip: bool, k: nat): bv8 {
    match k
    case 0 => 0xFF
    case 1 => if flip then 0x7F else 0xFE
    case 2 => if flip then 0x3F else 0xFC
    case 3 => if flip then 0x1F else 0xF8
    case 4 => if flip then 0x0F else 0xF0
    case 5 => if flip then 0x07 else 0xE0
    case 6 => if flip then 0x03 else 0xC0
    case 7 => if flip then 0x01 else 0x80
    case _ => 0
  }

  lemma FadesOn(flip: bool, k: nat)
    requires k < 8
    ensures (if flip then Faded(flip, k) >> 1 else Faded(flip, k) << 1) == Faded(flip, k + 1)
  {
  }
}
