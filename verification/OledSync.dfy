/** What it means for the controller's RAM to show the shadow buffer, and why drawing on both keeps it so. */
module OledSync {
  import opened OledBits
  import opened OledController
  import opened OledShadow

  /** Where a page of the shadow lies in the RAM: pages are mirrored on a turned panel. */
  function Mirror(flip: bool, pages: nat, page: nat): (q: nat)
    requires page < pages
    ensures q < pages
  {
    if flip then pages - page - 1 else page
  }

  /** The RAM shows the shadow. */
  ghost predicate Shows(ram: Bytes, bytes: Bytes, flip: bool) {
    && Shaped(ram, PAGES) && |bytes| <= PAGES
    && forall p :: 0 <= p < |bytes| ==> ram[Mirror(flip, |bytes|, p)] == bytes[p]
  }

  // What a viewer sees. The init commands remap the segments (0xA1) on an upright panel and leave them (0xA0) on a
  // turned one, and scan the commons downwards (0xC8) on both, over as many rows as the panel has (the multiplex
  // ratio), as the command table of the SSD1306 datasheet (section 9) describes.

  /** The RAM column that drives a segment. */
  function ColumnOfSegment(remapped: bool, segment: nat): (column: nat)
    requires segment < COLUMNS
    ensures column < COLUMNS
  {
    if remapped then COLUMNS - 1 - segment else segment
  }

  /** The RAM row that drives a common under the downward scan. */
  function RowOfCommon(pages: nat, common: nat): (row: nat)
    requires common < 8 * pages
    ensures row < 8 * pages
  {
    8 * pages - 1 - common
  }

  /** What a viewer sees at (x, y). The glass has segment 127 and the last common at the top left; mounted upside down,
      segment 0 and common 0 are there. */
  ghost predicate Seen(ram: Bytes, pages: nat, flip: bool, x: nat, y: nat)
    requires Shaped(ram, PAGES) && pages <= PAGES && x < COLUMNS && y < 8 * pages
  {
    var segment := if flip then x else COLUMNS - 1 - x;
    var common := if flip then y else 8 * pages - 1 - y;
    var column, row := ColumnOfSegment(!flip, segment), RowOfCommon(pages, common);
    Bit(ram[row / 8][column], row % 8)
  }

  /** Main result: when the RAM equals the shadow up to the order of the pages, the viewer sees the shadow's picture, on
      an upright panel and on one mounted upside down. */
  lemma ShowsSeen(ram: Bytes, bytes: Bytes, flip: bool, x: nat, y: nat)
    requires Shows(ram, bytes, flip) && Shaped(bytes, |bytes|) && x < COLUMNS && y < 8 * |bytes|
    ensures Seen(ram, |bytes|, flip, x, y) == PixelOf(bytes, flip, x, y)
  {
    hide Bit, Rotated;
    var q := Mirror(flip, |bytes|, y / 8);
    assert ram[q] == bytes[y / 8];
    if flip {
      RowFromBelow(|bytes|, y);
      RotatedBit(bytes[y / 8][x], y % 8);
    } else {
      assert 8 * |bytes| - 1 - (8 * |bytes| - 1 - y) == y;
    }
  }

  lemma RowFromBelow(pages: nat, y: nat)
    requires y < 8 * pages
    ensures (8 * pages - 1 - y) / 8 == pages - 1 - y / 8
    ensures (8 * pages - 1 - y) % 8 == 7 - y % 8
  {
  }

  /** The same blit on the shadow and on the mirrored page of the RAM. */
  lemma BlitShows(ram: Bytes, bytes: Bytes, flip: bool, page: nat, seg: nat, images: Row)
    requires Shows(ram, bytes, flip)
    requires Shaped(bytes, |bytes|) && page < |bytes| && seg + |images| <= COLUMNS
    ensures Shows(Blit(ram, Mirror(flip, |bytes|, page), seg, images), Blit(bytes, page, seg, images), flip)
  {
    assert ram[Mirror(flip, |bytes|, page)] == bytes[page];
  }

  lemma TextShows(ram: Bytes, bytes: Bytes, flip: bool, font: Font, page: nat, text: seq<nat>, invert: bool)
    requires Shows(ram, bytes, flip) && ValidFont(font) && ValidText(text) && |text| <= 16
    requires Shaped(bytes, |bytes|) && page < |bytes|
    ensures Shows(TextUpTo(ram, font, Mirror(flip, |bytes|, page), text, |text|, flip, invert),
                  TextUpTo(bytes, font, page, text, |text|, flip, invert), flip)
  {
    BlitShows(ram, bytes, flip, page, 0, Rendered(flip, invert, TextColumns(font, text[..|text|])));
    hide Blit, Mirror, Rendered, TextColumns, Shows;
  }

  /** `n` columns of one byte from the left. */
  function Run(b: bv8, n: nat): (r: Row)
    ensures |r| == n
    ensures forall i :: 0 <= i < n ==> r[i] == b
  {
    seq(n, _ => b)
  }

  lemma RunGrows(bytes: Bytes, page: nat, b: bv8, n: nat)
    requires page < |bytes| && n < |bytes[page]|
    ensures Blit(Blit(bytes, page, 0, Run(b, n)), page, n, [b]) == Blit(bytes, page, 0, Run(b, n + 1))
  {
    BlitTwice(bytes, page, 0, Run(b, n), [b]);
    assert Run(b, n) + [b] == Run(b, n + 1);
  }
}
