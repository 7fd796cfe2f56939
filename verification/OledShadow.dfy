/** The shadow buffer as a value: bytes by page and column, read as a picture through the optional byte
    reversal of an upside-down panel, and what text, pixels and scrolls mean in that picture. */
module OledShadow {
  import opened OledBits
  import opened OledController
  import OledPicture
  import Arith

  /** A byte as it is stored for, or read back from, a panel that may be mounted upside down. */
  function Turned(flip: bool, b: bv8): bv8 {
    if flip then Rotated(b) else b
  }

  lemma TurnedTwice(flip: bool, b: bv8)
    ensures Turned(flip, Turned(flip, b)) == b
  {
    RotatedTwice(b);
  }

  predicate PixelOf(bytes: Bytes, flip: bool, x: int, y: int)
    requires 0 <= y / 8 < |bytes| && 0 <= x < |bytes[y / 8]|
  {
    Bit(Turned(flip, bytes[y / 8][x]), y % 8)
  }

  ghost function PictureOf(bytes: Bytes, flip: bool): (pic: OledPicture.Picture)
    requires Shaped(bytes, |bytes|)
    ensures OledPicture.Rect(pic, COLUMNS, 8 * |bytes|)
    ensures forall x, y :: 0 <= x < COLUMNS && 0 <= y < 8 * |bytes| ==> pic[x][y] == PixelOf(bytes, flip, x, y)
  {
    seq(COLUMNS, x requires 0 <= x < COLUMNS =>
      seq(8 * |bytes|, y requires 0 <= x < COLUMNS && 0 <= y < 8 * |bytes| => PixelOf(bytes, flip, x, y)))
  }

  lemma PictureAt(bytes: Bytes, flip: bool, x: nat, y: nat)
    requires Shaped(bytes, |bytes|) && x < COLUMNS && y < 8 * |bytes|
    ensures PictureOf(bytes, flip)[x][y] == PixelOf(bytes, flip, x, y)
  {
    hide PixelOf;
  }

  /** A picture determines its bytes, either way up. */
  lemma PictureByte(a: Bytes, b: Bytes, flip: bool, p: nat, x: nat)
    requires Shaped(a, |a|) && Shaped(b, |a|) && PictureOf(a, flip) == PictureOf(b, flip)
    requires p < |a| && x < COLUMNS
    ensures a[p][x] == b[p][x]
  {
    hide Bit, Turned, PictureOf;
    forall k | 0 <= k < 8
      ensures Bit(Turned(flip, a[p][x]), k) == Bit(Turned(flip, b[p][x]), k)
    {
      PictureAt(a, flip, x, 8 * p + k);
      PictureAt(b, flip, x, 8 * p + k);
      assert (8 * p + k) / 8 == p && (8 * p + k) % 8 == k;
    }
    BytesEqual(Turned(flip, a[p][x]), Turned(flip, b[p][x]));
    TurnedTwice(flip, a[p][x]);
    TurnedTwice(flip, b[p][x]);
  }

  lemma PictureBytes(a: Bytes, b: Bytes, flip: bool)
    requires Shaped(a, |a|) && Shaped(b, |a|) && PictureOf(a, flip) == PictureOf(b, flip)
    ensures a == b
  {
    hide PictureOf;
    forall p | 0 <= p < |a|
      ensures a[p] == b[p]
    {
      forall x | 0 <= x < COLUMNS
        ensures a[p][x] == b[p][x]
      {
        PictureByte(a, b, flip, p, x);
      }
    }
  }

  /** A blit on the pages that are shown; the shadow has rows beyond them that are not. */
  function BlitIn(bytes: Bytes, page: nat, seg: nat, images: Row): (r: Bytes)
    requires Shaped(bytes, |bytes|) && seg + |images| <= COLUMNS
    ensures |r| == |bytes| && Shaped(r, |r|)
  {
    if page < |bytes| then Blit(bytes, page, seg, images) else bytes
  }

  // --- Blits -------------------------------------------------------------------------------------------

  lemma BlitTwice(bytes: Bytes, page: nat, seg: nat, a: Row, b: Row)
    requires page < |bytes| && seg + |a| + |b| <= |bytes[page]|
    ensures Blit(Blit(bytes, page, seg, a), page, seg + |a|, b) == Blit(bytes, page, seg, a + b)
  {
    var once := Blit(bytes, page, seg, a);
    assert once[page][..seg + |a|] == bytes[page][..seg] + a;
    assert once[page][seg + |a| + |b|..] == bytes[page][seg + |a| + |b|..];
    assert Blit(once, page, seg + |a|, b)[page] == bytes[page][..seg] + (a + b) + bytes[page][seg + |a| + |b|..];
  }

  lemma BlitNothing(bytes: Bytes, page: nat, seg: nat)
    requires page < |bytes| && seg <= |bytes[page]|
    ensures Blit(bytes, page, seg, []) == bytes
  {
    assert bytes[page][..seg] + [] + bytes[page][seg..] == bytes[page];
  }

  lemma BlitWhole(bytes: Bytes, page: nat, images: Row)
    requires page < |bytes| && |images| == |bytes[page]|
    ensures Blit(bytes, page, 0, images) == bytes[page := images]
  {
    assert bytes[page][..0] + images + bytes[page][|images|..] == images;
  }

  lemma BlitByte(bytes: Bytes, page: nat, seg: nat, images: Row, p: nat, x: nat)
    requires page < |bytes| && seg + |images| <= |bytes[page]| && p < |bytes| && x < |bytes[p]|
    ensures |Blit(bytes, page, seg, images)[p]| == |bytes[p]|
    ensures Blit(bytes, page, seg, images)[p][x] ==
              if p == page && seg <= x < seg + |images| then images[x - seg] else bytes[p][x]
  {
  }

  // --- Text ----------------------------------------------------------------------------------------------

  type Font = seq<Row>

  predicate ValidFont(font: Font) {
    |font| == 128 && forall c :: 0 <= c < 128 ==> |font[c]| == 8
  }

  function Inked(invert: bool, b: bv8): bv8 {
    if invert then !b else b
  }

  /** A run of columns as it goes to the panel: inverted, then turned. */
  function Rendered(flip: bool, invert: bool, columns: Row): (r: Row)
    ensures |r| == |columns|
    ensures forall i :: 0 <= i < |columns| ==> r[i] == Turned(flip, Inked(invert, columns[i]))
  {
    seq(|columns|, i requires 0 <= i < |columns| => Turned(flip, Inked(invert, columns[i])))
  }

  ghost predicate ValidText(text: seq<nat>) {
    forall i :: 0 <= i < |text| ==> text[i] < 128
  }

  function Shown(text: seq<nat>, most: nat): seq<nat> {
    if |text| > most then text[..most] else text
  }

  /** The glyphs of a text side by side. */
  ghost function TextColumns(font: Font, text: seq<nat>): (r: Row)
    requires ValidFont(font) && ValidText(text)
    ensures |r| == 8 * |text|
  {
    if text == [] then [] else font[text[0]] + TextColumns(font, text[1..])
  }

  lemma {:induction false} TextColumn(font: Font, text: seq<nat>, x: nat)
    requires ValidFont(font) && ValidText(text) && x < 8 * |text|
    ensures TextColumns(font, text)[x] == font[text[x / 8]][x % 8]
  {
    if x >= 8 {
      TextColumn(font, text[1..], x - 8);
      assert (x - 8) / 8 == x / 8 - 1;
    }
  }

  lemma {:induction false} TextColumnsGrow(font: Font, text: seq<nat>, c: nat)
    requires ValidFont(font) && ValidText(text) && c < 128
    ensures TextColumns(font, text + [c]) == TextColumns(font, text) + font[c]
  {
    if text == [] {
      assert text + [c] == [c] && [c][1..] == [];
      assert TextColumns(font, [c]) == font[c] + TextColumns(font, []);
    } else {
      TextColumnsGrow(font, text[1..], c);
      assert (text + [c])[0] == text[0] && (text + [c])[1..] == text[1..] + [c];
    }
  }

  lemma RenderedConcat(flip: bool, invert: bool, a: Row, b: Row)
    ensures Rendered(flip, invert, a + b) == Rendered(flip, invert, a) + Rendered(flip, invert, b)
  {
  }

  /** The first `n` characters from column 0 of the page. */
  ghost function TextUpTo(bytes: Bytes, font: Font, page: nat, text: seq<nat>, n: nat, flip: bool,
                          invert: bool): (r: Bytes)
    requires ValidFont(font) && ValidText(text) && Shaped(bytes, |bytes|)
    requires page < |bytes| && n <= |text| <= 16
    ensures Shaped(r, |bytes|)
  {
    Blit(bytes, page, 0, Rendered(flip, invert, TextColumns(font, text[..n])))
  }

  lemma TextNone(bytes: Bytes, font: Font, page: nat, text: seq<nat>, flip: bool, invert: bool)
    requires ValidFont(font) && ValidText(text) && Shaped(bytes, |bytes|) && page < |bytes| && |text| <= 16
    ensures TextUpTo(bytes, font, page, text, 0, flip, invert) == bytes
  {
    BlitNothing(bytes, page, 0);
    assert text[..0] == [] && Rendered(flip, invert, []) == [];
  }

  lemma TextGrows(bytes: Bytes, font: Font, page: nat, text: seq<nat>, i: nat, flip: bool, invert: bool)
    requires ValidFont(font) && ValidText(text) && Shaped(bytes, |bytes|) && page < |bytes| && i < |text| <= 16
    ensures TextUpTo(bytes, font, page, text, i + 1, flip, invert) ==
              Blit(TextUpTo(bytes, font, page, text, i, flip, invert), page, 8 * i,
                   Rendered(flip, invert, font[text[i]]))
  {
    var before, glyph := TextColumns(font, text[..i]), font[text[i]];
    assert text[..i + 1] == text[..i] + [text[i]];
    TextColumnsGrow(font, text[..i], text[i]);
    RenderedConcat(flip, invert, before, glyph);
    BlitTwice(bytes, page, 0, Rendered(flip, invert, before), Rendered(flip, invert, glyph));
    hide Blit, Rendered, TextColumns;
  }

  /** ssd1306_display_text on the shadow: the first 16 characters from column 0 of the page. */
  ghost function TextShown(bytes: Bytes, font: Font, page: nat, text: seq<nat>, flip: bool, invert: bool): (r: Bytes)
    requires ValidFont(font) && ValidText(text) && Shaped(bytes, |bytes|)
    ensures Shaped(r, |bytes|)
  {
    if page >= |bytes| then bytes
    else TextUpTo(bytes, font, page, Shown(text, 16), |Shown(text, 16)|, flip, invert)
  }

  /** The 16 zero characters of ssd1306_clear_line. */
  function Spaces(): (text: seq<nat>)
    ensures |text| == 16 && forall i :: 0 <= i < 16 ==> text[i] == 0
  {
    seq(16, _ => 0)
  }

  /** A full line covers the whole page, whatever was there. */
  lemma SpacesCover(bytes: Bytes, font: Font, page: nat, flip: bool, invert: bool)
    requires ValidFont(font) && Shaped(bytes, |bytes|) && page < |bytes|
    ensures TextUpTo(bytes, font, page, Spaces(), 16, flip, invert) ==
              bytes[page := Rendered(flip, invert, TextColumns(font, Spaces()))]
  {
    assert Spaces()[..16] == Spaces();
    BlitWhole(bytes, page, Rendered(flip, invert, TextColumns(font, Spaces())));
  }

  lemma InkedBit(invert: bool, b: bv8, k: nat)
    requires k < 8
    ensures Bit(Inked(invert, b), k) == (Bit(b, k) != invert)
  {
    NotBit(b, k);
  }

  lemma RenderedPixel(flip: bool, invert: bool, column: bv8, k: nat)
    requires k < 8
    ensures Bit(Turned(flip, Turned(flip, Inked(invert, column))), k) == (Bit(column, k) != invert)
  {
    TurnedTwice(flip, Inked(invert, column));
    InkedBit(invert, column, k);
  }

  /** Displayed text, byte by byte. */
  lemma TextByte(bytes: Bytes, font: Font, page: nat, text: seq<nat>, flip: bool, invert: bool, p: nat, x: nat)
    requires ValidFont(font) && ValidText(text) && Shaped(bytes, |bytes|)
    requires page < |bytes| && p < |bytes| && x < COLUMNS
    ensures TextShown(bytes, font, page, text, flip, invert)[p][x] ==
              if p == page && x / 8 < |text| then Turned(flip, Inked(invert, font[text[x / 8]][x % 8]))
              else bytes[p][x]
  {
    hide Blit, Turned, Inked;
    var shown := Shown(text, 16);
    assert shown[..|shown|] == shown;
    BlitByte(bytes, page, 0, Rendered(flip, invert, TextColumns(font, shown)), p, x);
    if x < 8 * |shown| {
      TextColumn(font, shown, x);
    }
  }

  /** Main result: displayed text shows each character's glyph, the first at the left edge, complemented when inverted,
      the same way for both orientations of the panel, and leaves every other pixel alone. */
  lemma TextPixel(bytes: Bytes, font: Font, page: nat, text: seq<nat>, flip: bool, invert: bool, x: nat, y: nat)
    requires ValidFont(font) && ValidText(text) && Shaped(bytes, |bytes|)
    requires x < COLUMNS && y < 8 * |bytes|
    ensures Shaped(TextShown(bytes, font, page, text, flip, invert), |bytes|)
    ensures PixelOf(TextShown(bytes, font, page, text, flip, invert), flip, x, y) ==
              if y / 8 == page && x / 8 < |text| then Bit(font[text[x / 8]][x % 8], y % 8) != invert
              else PixelOf(bytes, flip, x, y)
  {
    if page < |bytes| {
      hide TextShown, Turned, Inked, Bit;
      TextByte(bytes, font, page, text, flip, invert, y / 8, x);
      if y / 8 == page && x / 8 < |text| {
        RenderedPixel(flip, invert, font[text[x / 8]][x % 8], y % 8);
      }
    }
  }

  /** A cleared line shows the zero glyph sixteen times, from edge to edge; every other pixel stays. */
  lemma ClearedPixel(bytes: Bytes, font: Font, page: nat, flip: bool, invert: bool, x: nat, y: nat)
    requires ValidFont(font) && Shaped(bytes, |bytes|) && x < COLUMNS && y < 8 * |bytes|
    ensures PixelOf(TextShown(bytes, font, page, Spaces(), flip, invert), flip, x, y) ==
              if y / 8 == page then Bit(font[0][x % 8], y % 8) != invert else PixelOf(bytes, flip, x, y)
  {
    hide TextShown, PixelOf, Bit;
    TextPixel(bytes, font, page, Spaces(), flip, invert, x, y);
  }

  /** A page of the columns that a cleared line leaves. */
  lemma BlankPixel(bytes: Bytes, font: Font, flip: bool, invert: bool, x: nat, y: nat)
    requires ValidFont(font) && Shaped(bytes, |bytes|) && x < COLUMNS && y < 8 * |bytes|
    requires bytes[y / 8] == Rendered(flip, invert, TextColumns(font, Spaces()))
    ensures PixelOf(bytes, flip, x, y) == (Bit(font[0][x % 8], y % 8) != invert)
  {
    TextColumn(font, Spaces(), x);
    RenderedPixel(flip, invert, font[0][x % 8], y % 8);
    hide Bit, Turned, Inked, TextColumns;
  }

  // --- Pixels --------------------------------------------------------------------------------------------

  /** The byte _ssd1306_pixel stores: the raw byte is edited and, on a turned panel, reversed afterwards. */
  function PixelByte(flip: bool, b: bv8, bit: nat, invert: bool): bv8
    requires bit < 8
  {
    Turned(flip, if invert then b & !Mask(bit) else b | Mask(bit))
  }

  method EditByte(flip: bool, b: bv8, bits: nat, invert: bool) returns (wk0: bv8)
    requires bits < 8
    ensures wk0 == PixelByte(flip, b, bits, invert)
  {
    hide Mask, Rotated;
    wk0 := b;
    var wk1 := Mask(bits);
    if invert {
      wk0 := wk0 & !wk1;
    } else {
      wk0 := wk0 | wk1;
    }
    assert wk0 == if invert then b & !Mask(bits) else b | Mask(bits);
    if flip {
      wk0 := RotateByte(wk0);
    }
  }

  /** Writing one pixel means: that pixel gets the ink, the other seven keep theirs. */
  predicate PixelWritten(flip: bool, was: bv8, now: bv8, bit: nat, invert: bool)
    requires bit < 8
  {
    forall k :: 0 <= k < 8 ==> Bit(Turned(flip, now), k) == if k == bit then !invert else Bit(Turned(flip, was), k)
  }

  lemma EditedBit(b: bv8, bit: nat, invert: bool, k: nat)
    requires bit < 8 && k < 8
    ensures Bit(if invert then b & !Mask(bit) else b | Mask(bit), k) == if k == bit then !invert else Bit(b, k)
  {
    SetBit(b, bit, k);
    ClearBit(b, bit, k);
  }

  lemma PixelByteBits(flip: bool, b: bv8, bit: nat, invert: bool, k: nat)
    requires bit < 8 && k < 8
    ensures Bit(Turned(flip, PixelByte(flip, b, bit, invert)), k) == if k == bit then !invert else Bit(b, k)
  {
    TurnedTwice(flip, if invert then b & !Mask(bit) else b | Mask(bit));
    EditedBit(b, bit, invert, k);
  }

  lemma PixelWrittenWhen(flip: bool, b: bv8, bit: nat, invert: bool)
    requires bit < 8 && Turned(flip, b) == b
    ensures PixelWritten(flip, b, PixelByte(flip, b, bit, invert), bit, invert)
  {
    hide Bit, Turned, PixelByte;
    forall k | 0 <= k < 8
      ensures Bit(Turned(flip, PixelByte(flip, b, bit, invert)), k) == if k == bit then !invert
                                                                       else Bit(Turned(flip, b), k)
    {
      PixelByteBits(flip, b, bit, invert, k);
    }
  }

  lemma PixelWrittenAt(b: bv8, bit: nat, invert: bool, k: nat)
    requires bit < 8 && k < 8 && k != bit && PixelWritten(true, b, PixelByte(true, b, bit, invert), bit, invert)
    ensures Bit(Rotated(b), k) == Bit(b, k)
  {
    PixelByteBits(true, b, bit, invert, k);
    hide Bit, PixelByte, Rotated;
    assert Bit(Turned(true, PixelByte(true, b, bit, invert)), k) == Bit(Turned(true, b), k);
  }

  lemma PixelWrittenOnly(b: bv8, bit: nat, invert: bool)
    requires bit < 8 && PixelWritten(true, b, PixelByte(true, b, bit, invert), bit, invert)
    ensures Rotated(b) == b
  {
    hide Bit, PixelByte, Rotated, PixelWritten;
    forall k | 0 <= k < 8
      ensures Bit(Rotated(b), k) == Bit(b, k)
    {
      if k == bit {
        RotatedBit(b, k);
        RotatedBit(b, 7 - k);
        PixelWrittenAt(b, bit, invert, 7 - k);
      } else {
        PixelWrittenAt(b, bit, invert, k);
      }
    }
    BytesEqual(Rotated(b), b);
  }

  /** Main result on the order of edit and reversal: _ssd1306_pixel writes its pixel, and only it, if and only if
      the panel is not turned or the byte there reads the same upside down. */
  lemma PixelWrittenIff(flip: bool, b: bv8, bit: nat, invert: bool)
    requires bit < 8
    ensures PixelWritten(flip, b, PixelByte(flip, b, bit, invert), bit, invert) <==> !flip || Rotated(b) == b
  {
    hide PixelWritten, PixelByte, Rotated;
    if !flip || Rotated(b) == b {
      PixelWrittenWhen(flip, b, bit, invert);
    } else if PixelWritten(flip, b, PixelByte(flip, b, bit, invert), bit, invert) {
      PixelWrittenOnly(b, bit, invert);
    }
  }

  /** On a turned panel a second pixel in a column comes out wrong. */
  lemma TurnedPixelFails()
    ensures !PixelWritten(true, 0x01, PixelByte(true, 0x01, 1, false), 1, false)
  {
    PixelWrittenIff(true, 0x01, 1, false);
    RotatedBit(0x01, 0);
    assert Bit(0x01, 0) && !Bit(0x01, 7);
  }

  // --- Text three times as large ---------------------------------------------------------------------------

  /** Eight of the 24 rows of a tripled glyph, each column three times. */
  function TripleRow(glyph: Row, band: nat): (r: Row)
    requires |glyph| == 8 && band < 3
    ensures |r| == 24
    ensures forall i :: 0 <= i < 24 ==> r[i] == ByteOf(Tripled(glyph[i / 3]), band)
  {
    seq(24, i requires 0 <= i < 24 => ByteOf(Tripled(glyph[i / 3]), band))
  }

  lemma Thirds(n: nat)
    ensures n * 3 / 3 == n && (n * 3 + 1) / 3 == n && (n * 3 + 2) / 3 == n
  {
  }

  /** The first `bands` bands of one tripled character at column `seg`, as far as there are pages for them. */
  function TripleChar(bytes: Bytes, glyph: Row, page: nat, seg: nat, bands: nat, flip: bool, invert: bool): (r: Bytes)
    requires |glyph| == 8 && bands <= 3 && seg + 24 <= COLUMNS && Shaped(bytes, |bytes|)
    ensures |r| == |bytes| && Shaped(r, |r|)
  {
    if bands == 0 then bytes
    else
      BlitIn(TripleChar(bytes, glyph, page, seg, bands - 1, flip, invert), page + bands - 1, seg,
             Rendered(flip, invert, TripleRow(glyph, bands - 1)))
  }

  lemma TripleCharNone(bytes: Bytes, glyph: Row, page: nat, seg: nat, flip: bool, invert: bool)
    requires |glyph| == 8 && seg + 24 <= COLUMNS && Shaped(bytes, |bytes|)
    ensures TripleChar(bytes, glyph, page, seg, 0, flip, invert) == bytes
  {
  }

  lemma TripleCharNext(bytes: Bytes, glyph: Row, page: nat, seg: nat, bands: nat, flip: bool, invert: bool)
    requires |glyph| == 8 && bands < 3 && seg + 24 <= COLUMNS && Shaped(bytes, |bytes|)
    ensures TripleChar(bytes, glyph, page, seg, bands + 1, flip, invert) ==
            BlitIn(TripleChar(bytes, glyph, page, seg, bands, flip, invert), page + bands, seg,
                   Rendered(flip, invert, TripleRow(glyph, bands)))
  {
    hide BlitIn, TripleRow, Rendered;
  }

  /** The characters of `text` from column `seg` on. */
  ghost function TripleFrom(bytes: Bytes, font: Font, text: seq<nat>, page: nat, seg: nat, flip: bool,
                            invert: bool): (r: Bytes)
    requires ValidFont(font) && ValidText(text) && Shaped(bytes, |bytes|) && seg + 24 * |text| <= COLUMNS
    ensures |r| == |bytes| && Shaped(r, |r|)
    decreases |text|
  {
    if text == [] then bytes
    else
      TripleFrom(TripleChar(bytes, font[text[0]], page, seg, 3, flip, invert), font, text[1..], page, seg + 24, flip,
                 invert)
  }

  lemma {:induction false} TripleCharByte(bytes: Bytes, glyph: Row, page: nat, seg: nat, bands: nat, flip: bool,
                                          invert: bool,
                                          p: nat, x: nat)
    requires |glyph| == 8 && bands <= 3 && Shaped(bytes, |bytes|)
    requires seg + 24 <= COLUMNS && p < |bytes| && x < COLUMNS
    ensures TripleChar(bytes, glyph, page, seg, bands, flip, invert)[p][x] ==
              if page <= p < page + bands && seg <= x < seg + 24 then
                Turned(flip, Inked(invert, ByteOf(Tripled(glyph[(x - seg) / 3]), p - page)))
              else bytes[p][x]
    decreases bands
  {
    if bands > 0 {
      TripleCharByte(bytes, glyph, page, seg, bands - 1, flip, invert, p, x);
      TripleBandByte(bytes, glyph, page, seg, bands - 1, flip, invert, p, x);
      hide *;
    }
  }

  /** One band more. */
  lemma TripleBandByte(bytes: Bytes, glyph: Row, page: nat, seg: nat, band: nat, flip: bool, invert: bool, p: nat,
                       x: nat)
    requires |glyph| == 8 && band < 3 && Shaped(bytes, |bytes|)
    requires seg + 24 <= COLUMNS && p < |bytes| && x < COLUMNS
    ensures TripleChar(bytes, glyph, page, seg, band + 1, flip, invert)[p][x] ==
              if p == page + band && seg <= x < seg + 24 then
                Turned(flip, Inked(invert, ByteOf(Tripled(glyph[(x - seg) / 3]), band)))
              else TripleChar(bytes, glyph, page, seg, band, flip, invert)[p][x]
  {
    hide BlitIn, ByteOf, Tripled, Turned, Inked;
    TripleCharNext(bytes, glyph, page, seg, band, flip, invert);
    hide TripleChar;
    BlitInByte(TripleChar(bytes, glyph, page, seg, band, flip, invert), page + band, seg,
               Rendered(flip, invert, TripleRow(glyph, band)), p, x);
  }

  lemma BlitInByte(bytes: Bytes, page: nat, seg: nat, images: Row, p: nat, x: nat)
    requires Shaped(bytes, |bytes|) && seg + |images| <= COLUMNS && p < |bytes| && x < COLUMNS
    ensures BlitIn(bytes, page, seg, images)[p][x] ==
              if p == page && seg <= x < seg + |images| then images[x - seg] else bytes[p][x]
  {
    if page < |bytes| {
      BlitByte(bytes, page, seg, images, p, x);
      hide Blit;
    }
  }

  /** A byte of a tripled glyph, as a pixel. */
  lemma TripleBytePixel(flip: bool, invert: bool, column: bv8, band: nat, k: nat)
    requires band < 3 && k < 8
    ensures 0 <= (8 * band + k) / 3 < 8
    ensures Bit(Turned(flip, Turned(flip, Inked(invert, ByteOf(Tripled(column), band)))), k) ==
              (Bit(column, (8 * band + k) / 3) != invert)
  {
    RenderedPixel(flip, invert, ByteOf(Tripled(column), band), k);
    TripledBit(column, band, k);
  }

  lemma TripleCharBit(bytes: Bytes, glyph: Row, page: nat, seg: nat, flip: bool, invert: bool, p: nat, k: nat, x: nat)
    requires |glyph| == 8 && Shaped(bytes, |bytes|)
    requires seg + 24 <= COLUMNS && p < |bytes| && k < 8 && x < COLUMNS
    ensures page <= p < page + 3 ==> 0 <= (8 * (p - page) + k) / 3 < 8
    ensures Bit(Turned(flip, TripleChar(bytes, glyph, page, seg, 3, flip, invert)[p][x]), k) ==
              if page <= p < page + 3 && seg <= x < seg + 24 then
                Bit(glyph[(x - seg) / 3], (8 * (p - page) + k) / 3) != invert
              else Bit(Turned(flip, bytes[p][x]), k)
  {
    hide *;
    TripleCharByte(bytes, glyph, page, seg, 3, flip, invert, p, x);
    if page <= p < page + 3 && seg <= x < seg + 24 {
      TripleBytePixel(flip, invert, glyph[(x - seg) / 3], p - page, k);
    }
  }

  lemma TripleCharPixel(bytes: Bytes, glyph: Row, page: nat, seg: nat, flip: bool, invert: bool, x: nat, y: nat)
    requires |glyph| == 8 && Shaped(bytes, |bytes|)
    requires seg + 24 <= COLUMNS && y < 8 * |bytes| && x < COLUMNS
    ensures PixelOf(TripleChar(bytes, glyph, page, seg, 3, flip, invert), flip, x, y) ==
              if 8 * page <= y < 8 * page + 24 && seg <= x < seg + 24 then
                Bit(glyph[(x - seg) / 3], (y - 8 * page) / 3) != invert
              else PixelOf(bytes, flip, x, y)
  {
    hide TripleChar, Bit, Turned;
    TripleCharBit(bytes, glyph, page, seg, flip, invert, y / 8, y % 8, x);
    assert 8 * (y / 8 - page) + y % 8 == y - 8 * page;
  }

  /** One more character. */
  lemma TripleNext(bytes: Bytes, font: Font, text: seq<nat>, nn: nat, page: nat, seg: nat, flip: bool, invert: bool)
    requires ValidFont(font) && ValidText(text) && Shaped(bytes, |bytes|) && nn < |text|
    requires seg + 24 * (|text| - nn) <= COLUMNS
    ensures TripleFrom(bytes, font, text[nn..], page, seg, flip, invert) ==
            TripleFrom(TripleChar(bytes, font[text[nn]], page, seg, 3, flip, invert), font, text[nn + 1..], page,
                       seg + 24, flip,
                       invert)
  {
    hide TripleChar;
    assert text[nn..][0] == text[nn] && text[nn..][1..] == text[nn + 1..];
  }

  lemma TripleEnds(bytes: Bytes, font: Font, text: seq<nat>, page: nat, seg: nat, flip: bool, invert: bool)
    requires ValidFont(font) && ValidText(text) && Shaped(bytes, |bytes|) && seg <= COLUMNS
    ensures TripleFrom(bytes, font, text[|text|..], page, seg, flip, invert) == bytes
    ensures text[0..] == text
  {
  }

  lemma TwentyFours(d: int)
    requires d >= 24
    ensures d / 24 == (d - 24) / 24 + 1 && d % 24 == (d - 24) % 24
  {
  }

  /** Main result: text three times as large shows every pixel of each glyph as a 3 by 3 block. */
  lemma {:induction false} TriplePixel(bytes: Bytes, font: Font, text: seq<nat>, page: nat, seg: nat, flip: bool,
                                       invert: bool,
                                       x: nat, y: nat)
    requires ValidFont(font) && ValidText(text) && Shaped(bytes, |bytes|)
    requires seg + 24 * |text| <= COLUMNS && x < COLUMNS && y < 8 * |bytes|
    ensures PixelOf(TripleFrom(bytes, font, text, page, seg, flip, invert), flip, x, y) ==
              if 8 * page <= y < 8 * page + 24 && seg <= x < seg + 24 * |text| then
                Bit(font[text[(x - seg) / 24]][(x - seg) % 24 / 3], (y - 8 * page) / 3) != invert
              else PixelOf(bytes, flip, x, y)
    decreases |text|
  {
    hide TripleChar, PixelOf, Bit;
    if text != [] {
      var next := TripleChar(bytes, font[text[0]], page, seg, 3, flip, invert);
      TripleCharPixel(bytes, font[text[0]], page, seg, flip, invert, x, y);
      TriplePixel(next, font, text[1..], page, seg + 24, flip, invert, x, y);
      assert TripleFrom(bytes, font, text, page, seg, flip, invert) ==
             TripleFrom(next, font, text[1..], page, seg + 24, flip, invert);
      hide TripleFrom;
      if x >= seg + 24 {
        TwentyFours(x - seg);
      }
    }
  }

  /** ssd1306_display_text_x3 on the shadow: the first five characters from column 0 of the page. */
  ghost function TripleTextShown(bytes: Bytes, font: Font, page: nat, text: seq<nat>, flip: bool,
                                 invert: bool): (r: Bytes)
    requires ValidFont(font) && ValidText(text) && Shaped(bytes, |bytes|)
    ensures |r| == |bytes| && Shaped(r, |r|)
  {
    if page >= |bytes| then bytes else TripleFrom(bytes, font, Shown(text, 5), page, 0, flip, invert)
  }

  /** Main result: each of the first five characters is shown three times as large, the first at the left edge, over
      three pages, complemented when inverted, the same for both orientations; every other pixel stays. */
  lemma TripleTextPixel(bytes: Bytes, font: Font, page: nat, text: seq<nat>, flip: bool, invert: bool, x: nat, y: nat)
    requires ValidFont(font) && ValidText(text) && Shaped(bytes, |bytes|)
    requires x < COLUMNS && y < 8 * |bytes|
    ensures PixelOf(TripleTextShown(bytes, font, page, text, flip, invert), flip, x, y) ==
              if 8 * page <= y < 8 * page + 24 && x / 24 < |text| && x / 24 < 5 then
                Bit(font[text[x / 24]][x % 24 / 3], (y - 8 * page) / 3) != invert
              else PixelOf(bytes, flip, x, y)
  {
    hide PixelOf, Bit, TripleFrom;
    if page < |bytes| {
      var shown := Shown(text, 5);
      TriplePixel(bytes, font, shown, page, 0, flip, invert, x, y);
      assert x < 24 * |shown| <==> x / 24 < |text| && x / 24 < 5;
    }
  }

  // --- Wrap-around scrolls ---------------------------------------------------------------------------------

  /** The byte SCROLL_UP leaves, from the byte there and the one on the next page. */
  function UpByte(flip: bool, here: bv8, below: bv8): bv8 {
    Turned(flip, ShiftUp(Turned(flip, here), Turned(flip, below)))
  }

  /** The byte SCROLL_DOWN leaves, from the byte there and the one on the page before. */
  function DownByte(flip: bool, here: bv8, above: bv8): bv8 {
    Turned(flip, ShiftDown(Turned(flip, here), Turned(flip, above)))
  }

  ghost predicate ScrolledUp(was: Bytes, now: Bytes, flip: bool, start: int, end: int) {
    && Shaped(was, |was|) && Shaped(now, |was|)
    && forall p, x :: 0 <= p < |was| && 0 <= x < COLUMNS ==>
         now[p][x] == if start <= x <= end then UpByte(flip, was[p][x], was[if p == |was| - 1 then 0 else p + 1][x])
                      else was[p][x]
  }

  ghost predicate ScrolledDown(was: Bytes, now: Bytes, flip: bool, start: int, end: int) {
    && Shaped(was, |was|) && Shaped(now, |was|)
    && forall p, x :: 0 <= p < |was| && 0 <= x < COLUMNS ==>
         now[p][x] == if start <= x <= end then DownByte(flip, was[p][x], was[if p == 0 then |was| - 1 else p - 1][x])
                      else was[p][x]
  }

  ghost predicate ScrolledAcross(was: Bytes, now: Bytes, start: int, end: int, right: bool) {
    && Shaped(was, |was|) && Shaped(now, |was|)
    && forall p, x :: 0 <= p < |was| && 0 <= x < COLUMNS ==>
         now[p][x] == was[p][if !(start <= p <= end) then x
                             else if right then (if x == 0 then COLUMNS - 1 else x - 1)
                             else (if x == COLUMNS - 1 then 0 else x + 1)]
  }

  /** The four cases of ssd1306_wrap_arround. */
  ghost predicate Wrapped(scroll: OledPicture.Move, was: Bytes, now: Bytes, flip: bool, start: int, end: int) {
    match scroll
    case Right => ScrolledAcross(was, now, start, end, true)
    case Left => ScrolledAcross(was, now, start, end, false)
    case Up => ScrolledUp(was, now, flip, start, end)
    case Down => ScrolledDown(was, now, flip, start, end)
  }

  // The same, row by row.

  function UpRow(flip: bool, here: Row, below: Row, start: int, end: int): (r: Row)
    requires |here| == |below| == COLUMNS
    ensures |r| == COLUMNS
    ensures forall x :: 0 <= x < COLUMNS ==> r[x] == if start <= x <= end then UpByte(flip, here[x], below[x])
                                                     else here[x]
  {
    seq(COLUMNS, x requires 0 <= x < COLUMNS => if start <= x <= end then UpByte(flip, here[x], below[x]) else here[x])
  }

  function DownRow(flip: bool, here: Row, above: Row, start: int, end: int): (r: Row)
    requires |here| == |above| == COLUMNS
    ensures |r| == COLUMNS
    ensures forall x :: 0 <= x < COLUMNS ==> r[x] == if start <= x <= end then DownByte(flip, here[x], above[x])
                                                     else here[x]
  {
    seq(COLUMNS, x requires 0 <= x < COLUMNS => if start <= x <= end then DownByte(flip, here[x], above[x])
                                                else here[x])
  }

  function AcrossRow(row: Row, right: bool): (r: Row)
    requires |row| == COLUMNS
    ensures |r| == COLUMNS
    ensures forall x :: 0 <= x < COLUMNS ==>
              r[x] == row[if right then (if x == 0 then COLUMNS - 1 else x - 1)
                          else (if x == COLUMNS - 1 then 0 else x + 1)]
  {
    if right then [row[COLUMNS - 1]] + row[..COLUMNS - 1] else row[1..] + [row[0]]
  }

  /** Page p after the scroll: the page below it comes in, around the end of the panel. */
  function UpAt(was: Bytes, p: nat, flip: bool, start: int, last: int): (r: Row)
    requires Shaped(was, |was|) && p < |was|
    ensures |r| == COLUMNS
  {
    UpRow(flip, was[p], was[if p == |was| - 1 then 0 else p + 1], start, last)
  }

  /** The first `done` pages after the scroll, the others before it. */
  ghost function Ups(was: Bytes, done: nat, flip: bool, start: int, last: int): (r: Bytes)
    requires Shaped(was, |was|)
    ensures |r| == |was| && Shaped(r, |r|)
  {
    seq(|was|, p requires 0 <= p < |was| => if p < done then UpAt(was, p, flip, start, last) else was[p])
  }

  lemma UpsNone(was: Bytes, flip: bool, start: int, last: int)
    requires Shaped(was, |was|)
    ensures Ups(was, 0, flip, start, last) == was
  {
  }

  /** One page more, against the page below it. */
  lemma UpsNext(was: Bytes, p: nat, flip: bool, start: int, last: int)
    requires Shaped(was, |was|) && p < |was|
    ensures var so := Ups(was, p, flip, start, last);
            && so[p] == was[p] && (p + 1 < |was| ==> so[p + 1] == was[p + 1])
            && Ups(was, p + 1, flip, start, last) ==
                 so[p := UpRow(flip, was[p], was[if p == |was| - 1 then 0 else p + 1], start, last)]
  {
    hide UpRow;
  }

  lemma UpsAll(was: Bytes, flip: bool, start: int, end: int, last: int)
    requires Shaped(was, |was|) && |was| > 0 && last == if end >= COLUMNS then COLUMNS - 1 else end
    ensures ScrolledUp(was, Ups(was, |was|, flip, start, last), flip, start, end)
  {
    hide UpAt, ScrolledUp;
    UpByRows(was, Ups(was, |was|, flip, start, last), flip, start, end, last);
  }

  lemma UpByRows(was: Bytes, now: Bytes, flip: bool, start: int, end: int, last: int)
    requires Shaped(was, |was|) && |now| == |was| > 0 && last == if end >= COLUMNS then COLUMNS - 1 else end
    requires forall p :: 0 <= p < |was| ==> now[p] == UpAt(was, p, flip, start, last)
    ensures ScrolledUp(was, now, flip, start, end)
  {
    hide UpByte;
    assert Shaped(now, |was|);
    forall p, x | 0 <= p < |was| && 0 <= x < COLUMNS
      ensures now[p][x] ==
                if start <= x <= end then UpByte(flip, was[p][x], was[if p == |was| - 1 then 0 else p + 1][x])
                else was[p][x]
    {
      assert now[p] == UpAt(was, p, flip, start, last);
    }
  }

  /** Page p after the scroll: the page above it comes in, around the end of the panel. */
  function DownAt(was: Bytes, p: nat, flip: bool, start: int, last: int): (r: Row)
    requires Shaped(was, |was|) && p < |was|
    ensures |r| == COLUMNS
  {
    DownRow(flip, was[p], was[if p == 0 then |was| - 1 else p - 1], start, last)
  }

  /** The pages from `done` on after the scroll, the others before it. */
  ghost function Downs(was: Bytes, done: nat, flip: bool, start: int, last: int): (r: Bytes)
    requires Shaped(was, |was|)
    ensures |r| == |was| && Shaped(r, |r|)
  {
    seq(|was|, p requires 0 <= p < |was| => if p >= done then DownAt(was, p, flip, start, last) else was[p])
  }

  lemma DownsNone(was: Bytes, flip: bool, start: int, last: int)
    requires Shaped(was, |was|)
    ensures Downs(was, |was|, flip, start, last) == was
  {
  }

  /** One page more, against the page above it. */
  lemma DownsNext(was: Bytes, p: nat, flip: bool, start: int, last: int)
    requires Shaped(was, |was|) && p < |was|
    ensures var so := Downs(was, p + 1, flip, start, last);
            && so[p] == was[p] && (p > 0 ==> so[p - 1] == was[p - 1])
            && Downs(was, p, flip, start, last) ==
                 so[p := DownRow(flip, was[p], was[if p == 0 then |was| - 1 else p - 1], start, last)]
  {
    hide DownRow;
  }

  lemma DownsAll(was: Bytes, flip: bool, start: int, end: int, last: int)
    requires Shaped(was, |was|) && |was| > 0 && last == if end >= COLUMNS then COLUMNS - 1 else end
    ensures ScrolledDown(was, Downs(was, 0, flip, start, last), flip, start, end)
  {
    hide DownAt, ScrolledDown;
    DownByRows(was, Downs(was, 0, flip, start, last), flip, start, end, last);
  }

  lemma DownByRows(was: Bytes, now: Bytes, flip: bool, start: int, end: int, last: int)
    requires Shaped(was, |was|) && |now| == |was| > 0 && last == if end >= COLUMNS then COLUMNS - 1 else end
    requires forall p :: 0 <= p < |was| ==> now[p] == DownAt(was, p, flip, start, last)
    ensures ScrolledDown(was, now, flip, start, end)
  {
    hide DownByte;
    assert Shaped(now, |was|);
    forall p, x | 0 <= p < |was| && 0 <= x < COLUMNS
      ensures now[p][x] ==
                if start <= x <= end then DownByte(flip, was[p][x], was[if p == 0 then |was| - 1 else p - 1][x])
                else was[p][x]
    {
      assert now[p] == DownAt(was, p, flip, start, last);
    }
  }

  lemma AcrossByRows(was: Bytes, now: Bytes, start: int, end: int, right: bool)
    requires Shaped(was, |was|) && |now| == |was|
    requires forall p :: 0 <= p < |was| ==> now[p] == if start <= p <= end then AcrossRow(was[p], right) else was[p]
    ensures ScrolledAcross(was, now, start, end, right)
  {
    hide AcrossRow;
  }

  lemma UpByteBit(flip: bool, here: bv8, below: bv8, k: nat)
    requires k < 8
    ensures Bit(Turned(flip, UpByte(flip, here, below)), k) ==
              if k < 7 then Bit(Turned(flip, here), k + 1) else Bit(Turned(flip, below), 0)
  {
    TurnedTwice(flip, ShiftUp(Turned(flip, here), Turned(flip, below)));
    ShiftUpBit(Turned(flip, here), Turned(flip, below), k);
  }

  lemma DownByteBit(flip: bool, here: bv8, above: bv8, k: nat)
    requires k < 8
    ensures Bit(Turned(flip, DownByte(flip, here, above)), k) ==
              if k > 0 then Bit(Turned(flip, here), k - 1) else Bit(Turned(flip, above), 7)
  {
    TurnedTwice(flip, ShiftDown(Turned(flip, here), Turned(flip, above)));
    ShiftDownBit(Turned(flip, here), Turned(flip, above), k);
  }

  /** The row a pixel comes from in an upward scroll. */
  function RowBelow(start: int, end: int, h: nat, x: nat, y: nat): (from: nat)
    requires y < h
    ensures from < h
  {
    if !(start <= x <= end) then y else if y == h - 1 then 0 else y + 1
  }

  /** The row a pixel comes from in a downward scroll. */
  function RowAbove(start: int, end: int, h: nat, x: nat, y: nat): (from: nat)
    requires y < h
    ensures from < h
  {
    if !(start <= x <= end) then y else if y == 0 then h - 1 else y - 1
  }

  lemma ScrolledUpPixel(was: Bytes, now: Bytes, flip: bool, start: int, end: int, x: nat, y: nat)
    requires ScrolledUp(was, now, flip, start, end) && x < COLUMNS && y < 8 * |was|
    ensures PixelOf(now, flip, x, y) ==
              PixelOf(was, flip, x, RowBelow(start, end, 8 * |was|, x, y))
  {
    hide Bit, UpByte, Turned;
    var p := y / 8;
    if start <= x <= end {
      UpByteBit(flip, was[p][x], was[if p == |was| - 1 then 0 else p + 1][x], y % 8);
    }
  }

  lemma RotAt(col: OledPicture.Column, y: nat)
    requires y < |col|
    ensures OledPicture.RotUp(col)[y] == col[if y == |col| - 1 then 0 else y + 1]
    ensures OledPicture.RotDown(col)[y] == col[if y == 0 then |col| - 1 else y - 1]
  {
  }

  lemma ColumnAt(pic: OledPicture.Picture, start: int, end: int, h: nat, x: nat, y: nat)
    requires OledPicture.Rect(pic, COLUMNS, h) && x < COLUMNS && y < h
    ensures |OledPicture.ScrollUp(pic, start, end)[x]| == |OledPicture.ScrollDown(pic, start, end)[x]| == h
    ensures OledPicture.ScrollUp(pic, start, end)[x][y] == pic[x][RowBelow(start, end, h, x, y)]
    ensures OledPicture.ScrollDown(pic, start, end)[x][y] == pic[x][RowAbove(start, end, h, x, y)]
  {
    RotAt(pic[x], y);
  }

  lemma UpShaped(was: Bytes, now: Bytes, flip: bool, start: int, end: int)
    requires ScrolledUp(was, now, flip, start, end)
    ensures Shaped(was, |was|) && Shaped(now, |was|) && Shaped(now, |now|) && |now| == |was|
  {
  }

  lemma ScrolledUpAt(was: Bytes, now: Bytes, flip: bool, start: int, end: int, x: nat, y: nat)
    requires ScrolledUp(was, now, flip, start, end) && x < COLUMNS && y < 8 * |was|
    ensures PictureOf(now, flip)[x][y] == OledPicture.ScrollUp(PictureOf(was, flip), start, end)[x][y]
  {
    UpShaped(was, now, flip, start, end);
    hide *;
    var h := 8 * |was|;
    ScrolledUpPixel(was, now, flip, start, end, x, y);
    ColumnAt(PictureOf(was, flip), start, end, h, x, y);
    PictureAt(now, flip, x, y);
    PictureAt(was, flip, x, RowBelow(start, end, h, x, y));
  }

  /** Main result: on bytes stored either way up, SCROLL_UP rotates each selected column by one pixel. */
  lemma ScrolledUpPicture(was: Bytes, now: Bytes, flip: bool, start: int, end: int)
    requires ScrolledUp(was, now, flip, start, end) && |was| > 0
    ensures PictureOf(now, flip) == OledPicture.ScrollUp(PictureOf(was, flip), start, end)
  {
    var h := 8 * |was|;
    hide PixelOf, PictureOf;
    forall x, y | 0 <= x < COLUMNS && 0 <= y < h
      ensures PictureOf(now, flip)[x][y] == OledPicture.ScrollUp(PictureOf(was, flip), start, end)[x][y]
    {
      ScrolledUpAt(was, now, flip, start, end, x, y);
    }
    OledPicture.SamePicture(PictureOf(now, flip), OledPicture.ScrollUp(PictureOf(was, flip), start, end), COLUMNS, h);
  }

  lemma ScrolledDownPixel(was: Bytes, now: Bytes, flip: bool, start: int, end: int, x: nat, y: nat)
    requires ScrolledDown(was, now, flip, start, end) && x < COLUMNS && y < 8 * |was|
    ensures PixelOf(now, flip, x, y) ==
              PixelOf(was, flip, x, RowAbove(start, end, 8 * |was|, x, y))
  {
    hide Bit, DownByte, Turned;
    var p := y / 8;
    if start <= x <= end {
      DownByteBit(flip, was[p][x], was[if p == 0 then |was| - 1 else p - 1][x], y % 8);
    }
  }

  lemma DownShaped(was: Bytes, now: Bytes, flip: bool, start: int, end: int)
    requires ScrolledDown(was, now, flip, start, end)
    ensures Shaped(was, |was|) && Shaped(now, |was|) && Shaped(now, |now|) && |now| == |was|
  {
  }

  lemma ScrolledDownAt(was: Bytes, now: Bytes, flip: bool, start: int, end: int, x: nat, y: nat)
    requires ScrolledDown(was, now, flip, start, end) && x < COLUMNS && y < 8 * |was|
    ensures PictureOf(now, flip)[x][y] == OledPicture.ScrollDown(PictureOf(was, flip), start, end)[x][y]
  {
    DownShaped(was, now, flip, start, end);
    hide *;
    var h := 8 * |was|;
    ScrolledDownPixel(was, now, flip, start, end, x, y);
    ColumnAt(PictureOf(was, flip), start, end, h, x, y);
    PictureAt(now, flip, x, y);
    PictureAt(was, flip, x, RowAbove(start, end, h, x, y));
  }

  /** Main result: and SCROLL_DOWN rotates it the other way. */
  lemma ScrolledDownPicture(was: Bytes, now: Bytes, flip: bool, start: int, end: int)
    requires ScrolledDown(was, now, flip, start, end) && |was| > 0
    ensures PictureOf(now, flip) == OledPicture.ScrollDown(PictureOf(was, flip), start, end)
  {
    var h := 8 * |was|;
    hide PixelOf, PictureOf;
    forall x, y | 0 <= x < COLUMNS && 0 <= y < h
      ensures PictureOf(now, flip)[x][y] == OledPicture.ScrollDown(PictureOf(was, flip), start, end)[x][y]
    {
      ScrolledDownAt(was, now, flip, start, end, x, y);
    }
    OledPicture.SamePicture(PictureOf(now, flip), OledPicture.ScrollDown(PictureOf(was, flip), start, end), COLUMNS, h);
  }

  /** The column a pixel comes from in a horizontal scroll. */
  function Source(start: int, end: int, right: bool, x: nat, y: nat): (from: nat)
    requires x < COLUMNS
    ensures from < COLUMNS
  {
    if start <= y / 8 <= end then Arith.Wrap(x - if right then 1 else -1, COLUMNS) else x
  }

  lemma ScrolledAcrossPixel(was: Bytes, now: Bytes, flip: bool, start: int, end: int, right: bool, x: nat, y: nat)
    requires ScrolledAcross(was, now, start, end, right) && x < COLUMNS && y < 8 * |was|
    ensures PixelOf(now, flip, x, y) ==
              PixelOf(was, flip, Source(start, end, right, x, y), y)
  {
    hide Bit, Turned;
    Arith.WrapNear(x, COLUMNS);
  }

  lemma AcrossSource(pic: OledPicture.Picture, start: int, end: int, right: bool, h: nat, x: nat, y: nat)
    requires OledPicture.Rect(pic, COLUMNS, h) && x < COLUMNS && y < h
    ensures var shift := if right then 1 else -1;
            OledPicture.ScrollAcross(pic, start, end, shift, COLUMNS, h)[x][y] ==
              pic[Source(start, end, right, x, y)][y]
  {
    OledPicture.AcrossPixel(pic, start, end, if right then 1 else -1, COLUMNS, h, x, y);
    hide Arith.Wrap, OledPicture.ScrollAcross;
  }

  lemma ScrolledAcrossAt(was: Bytes, now: Bytes, flip: bool, start: int, end: int, right: bool, x: nat, y: nat)
    requires ScrolledAcross(was, now, start, end, right) && x < COLUMNS && y < 8 * |was|
    ensures var shift := if right then 1 else -1;
            PictureOf(now, flip)[x][y] ==
              OledPicture.ScrollAcross(PictureOf(was, flip), start, end, shift, COLUMNS, 8 * |was|)[x][y]
  {
    AcrossShaped(was, now, start, end, right);
    hide *;
    ScrolledAcrossPixel(was, now, flip, start, end, right, x, y);
    AcrossSource(PictureOf(was, flip), start, end, right, 8 * |was|, x, y);
    PictureAt(now, flip, x, y);
    PictureAt(was, flip, Source(start, end, right, x, y), y);
  }

  lemma AcrossShaped(was: Bytes, now: Bytes, start: int, end: int, right: bool)
    requires ScrolledAcross(was, now, start, end, right)
    ensures Shaped(was, |was|) && Shaped(now, |was|) && Shaped(now, |now|) && |now| == |was|
  {
  }

  /** Main result: SCROLL_RIGHT and SCROLL_LEFT rotate each selected page by one column. */
  lemma ScrolledAcrossPicture(was: Bytes, now: Bytes, flip: bool, start: int, end: int, right: bool)
    requires ScrolledAcross(was, now, start, end, right)
    ensures PictureOf(now, flip) ==
              OledPicture.ScrollAcross(PictureOf(was, flip), start, end, if right then 1 else -1, COLUMNS, 8 * |was|)
  {
    var h := 8 * |was|;
    var after := OledPicture.ScrollAcross(PictureOf(was, flip), start, end, if right then 1 else -1, COLUMNS, h);
    hide PixelOf, PictureOf, OledPicture.ScrollAcross;
    forall x, y | 0 <= x < COLUMNS && 0 <= y < h
      ensures PictureOf(now, flip)[x][y] == after[x][y]
    {
      ScrolledAcrossAt(was, now, flip, start, end, right, x, y);
    }
    OledPicture.SamePicture(PictureOf(now, flip), after, COLUMNS, h);
  }

  lemma WrappedShaped(scroll: OledPicture.Move, was: Bytes, now: Bytes, flip: bool, start: int, end: int)
    requires Wrapped(scroll, was, now, flip, start, end)
    ensures Shaped(was, |was|) && Shaped(now, |now|) && |now| == |was|
  {
  }

  lemma AcrossFrom(was: Bytes, now: Bytes, flip: bool, start: int, end: int, right: bool, x: nat, y: nat)
    requires ScrolledAcross(was, now, start, end, right) && x < COLUMNS && y < 8 * |was|
    ensures PixelOf(now, flip, x, y) ==
              if !(start <= y / 8 <= end) then PixelOf(was, flip, x, y)
              else if right then PixelOf(was, flip, if x == 0 then 127 else x - 1, y)
              else PixelOf(was, flip, if x == 127 then 0 else x + 1, y)
  {
    hide PixelOf, ScrolledAcross, Arith.Wrap;
    AcrossShaped(was, now, start, end, right);
    ScrolledAcrossPixel(was, now, flip, start, end, right, x, y);
    Arith.WrapNear(x, COLUMNS);
  }

  /** Main result: what the four scrolls do, pixel by pixel. RIGHT and LEFT move the pixels of the pages start..end by
      one column, UP and DOWN those of the columns start..end by one row, around the edges; no other pixel moves. */
  lemma WrappedPixel(scroll: OledPicture.Move, was: Bytes, now: Bytes, flip: bool, start: int, end: int, x: nat, y: nat)
    requires Wrapped(scroll, was, now, flip, start, end) && x < COLUMNS && y < 8 * |was|
    ensures Shaped(was, |was|) && Shaped(now, |now|) && |now| == |was|
    ensures scroll.Right? ==>
              PixelOf(now, flip, x, y) ==
                PixelOf(was, flip, if !(start <= y / 8 <= end) then x else if x == 0 then 127 else x - 1, y)
    ensures scroll.Left? ==>
              PixelOf(now, flip, x, y) ==
                PixelOf(was, flip, if !(start <= y / 8 <= end) then x else if x == 127 then 0 else x + 1, y)
    ensures scroll.Up? ==>
              PixelOf(now, flip, x, y) ==
                PixelOf(was, flip, x, if !(start <= x <= end) then y else if y == 8 * |was| - 1 then 0 else y + 1)
    ensures scroll.Down? ==>
              PixelOf(now, flip, x, y) ==
                PixelOf(was, flip, x, if !(start <= x <= end) then y else if y == 0 then 8 * |was| - 1 else y - 1)
  {
    hide PixelOf, ScrolledUp, ScrolledDown, ScrolledAcross;
    WrappedShaped(scroll, was, now, flip, start, end);
    match scroll {
      case Right => AcrossFrom(was, now, flip, start, end, true, x, y);
      case Left => AcrossFrom(was, now, flip, start, end, false, x, y);
      case Up => ScrolledUpPixel(was, now, flip, start, end, x, y);
      case Down => ScrolledDownPixel(was, now, flip, start, end, x, y);
    }
  }

  /** A scroll over the full range is a move of the whole picture. */
  lemma WrappedPicture(scroll: OledPicture.Move, was: Bytes, now: Bytes, flip: bool, end: int)
    requires Wrapped(scroll, was, now, flip, 0, end) && |was| > 0
    requires end >= if scroll.Right? || scroll.Left? then |was| - 1 else COLUMNS - 1
    ensures Shaped(was, |was|) && Shaped(now, |was|) && |now| == |was|
    ensures PictureOf(now, flip) == OledPicture.Apply(PictureOf(was, flip), scroll, COLUMNS, 8 * |was|)
  {
    hide PictureOf, OledPicture.ScrollAcross, OledPicture.ScrollUp, OledPicture.ScrollDown;
    match scroll {
      case Right =>
        assert ScrolledAcross(was, now, 0, 8 * |was| / 8, true);
        ScrolledAcrossPicture(was, now, flip, 0, 8 * |was| / 8, true);
      case Left =>
        assert ScrolledAcross(was, now, 0, 8 * |was| / 8, false);
        ScrolledAcrossPicture(was, now, flip, 0, 8 * |was| / 8, false);
      case Up =>
        assert ScrolledUp(was, now, flip, 0, COLUMNS - 1);
        ScrolledUpPicture(was, now, flip, 0, COLUMNS - 1);
      case Down =>
        assert ScrolledDown(was, now, flip, 0, COLUMNS - 1);
        ScrolledDownPicture(was, now, flip, 0, COLUMNS - 1);
    }
  }

  function Opposite(scroll: OledPicture.Move): OledPicture.Move {
    match scroll
    case Right => OledPicture.Left
    case Left => OledPicture.Right
    case Up => OledPicture.Down
    case Down => OledPicture.Up
  }

  /** The picture's side of a scroll over any range. */
  ghost function Scrolled(scroll: OledPicture.Move, pic: OledPicture.Picture, start: int, end: int, h: nat)
    : (r: OledPicture.Picture)
    requires OledPicture.Rect(pic, COLUMNS, h)
    ensures OledPicture.Rect(r, COLUMNS, h)
  {
    match scroll
    case Right => OledPicture.ScrollRight(pic, start, end, COLUMNS, h)
    case Left => OledPicture.ScrollLeft(pic, start, end, COLUMNS, h)
    case Up => OledPicture.ScrollUp(pic, start, end)
    case Down => OledPicture.ScrollDown(pic, start, end)
  }

  lemma WrappedScrolls(scroll: OledPicture.Move, was: Bytes, now: Bytes, flip: bool, start: int, end: int)
    requires Wrapped(scroll, was, now, flip, start, end) && |was| > 0
    requires Shaped(was, |was|) && Shaped(now, |now|) && |now| == |was|
    ensures PictureOf(now, flip) == Scrolled(scroll, PictureOf(was, flip), start, end, 8 * |was|)
  {
    hide PictureOf, ScrolledUp, ScrolledDown, ScrolledAcross;
    hide OledPicture.ScrollAcross, OledPicture.ScrollUp, OledPicture.ScrollDown;
    match scroll {
      case Right => ScrolledAcrossPicture(was, now, flip, start, end, true);
      case Left => ScrolledAcrossPicture(was, now, flip, start, end, false);
      case Up => ScrolledUpPicture(was, now, flip, start, end);
      case Down => ScrolledDownPicture(was, now, flip, start, end);
    }
  }

  lemma ScrolledBack(scroll: OledPicture.Move, pic: OledPicture.Picture, start: int, end: int, h: nat)
    requires OledPicture.Rect(pic, COLUMNS, h)
    ensures Scrolled(Opposite(scroll), Scrolled(scroll, pic, start, end, h), start, end, h) == pic
  {
    hide OledPicture.ScrollRight, OledPicture.ScrollLeft, OledPicture.ScrollUp, OledPicture.ScrollDown;
    OledPicture.HorizontalInverse(pic, start, end, COLUMNS, h);
    OledPicture.VerticalInverse(pic, start, end);
  }

  /** Main result: on any range, a scroll followed by the opposite one gives back every byte of the shadow. */
  lemma WrappedBack(scroll: OledPicture.Move, was: Bytes, there: Bytes, back: Bytes, flip: bool, start: int, end: int)
    requires |was| > 0 && Wrapped(scroll, was, there, flip, start, end)
    requires Wrapped(Opposite(scroll), there, back, flip, start, end)
    ensures back == was
  {
    hide *;
    WrappedShaped(scroll, was, there, flip, start, end);
    WrappedShaped(Opposite(scroll), there, back, flip, start, end);
    WrappedScrolls(scroll, was, there, flip, start, end);
    WrappedScrolls(Opposite(scroll), there, back, flip, start, end);
    ScrolledBack(scroll, PictureOf(was, flip), start, end, 8 * |was|);
    PictureBytes(back, was, flip);
  }
}
