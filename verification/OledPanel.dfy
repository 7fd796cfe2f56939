/** The display driver (SSD1306_t): a shadow buffer of bytes by page and column that the drawing calls update
    in place, and the controller's RAM that it is kept equal to. */
module OledPanel {
  import opened OledBits
  import opened OledController
  import opened OledShadow
  import opened OledSync
  import OledLine
  import OledPicture
  import opened OledInk
  import opened OledScroll

  class Panel {
    const width: int
    const pages: nat
    const flip: bool
    const spi: bool
    const font: Font
    // _page[8]._segs[128]; only the first `pages` rows belong to the panel
    const segs: array2<bv8>
    const ctrl: Controller

    var scEnable: bool
    var scStart: int
    var scEnd: int
    var scDirection: int

    ghost predicate Valid() {
      && width == COLUMNS
      && 1 <= pages <= PAGES
      && segs.Length0 == PAGES && segs.Length1 == COLUMNS
      && ctrl.Valid() && ctrl.ram != segs
      && ValidFont(font)
    }

    ghost function Bytes(): (bytes: OledController.Bytes)
      requires Valid()
      reads segs
      ensures |bytes| == pages && Shaped(bytes, |bytes|)
    {
      seq(pages, p requires 0 <= p < pages && Valid() reads segs =>
        seq(COLUMNS, x requires 0 <= p < pages && 0 <= x < COLUMNS && Valid() reads segs => segs[p, x]))
    }

    ghost predicate Synced()
      requires Valid()
      reads segs, ctrl.ram
    {
      Shows(ctrl.Ram(), Bytes(), flip)
    }

    /** ssd1306_init: the shadow starts out dark. */
    constructor (pages: nat, flip: bool, spi: bool, font: Font, ctrl: Controller)
      requires 1 <= pages <= PAGES && ValidFont(font) && ctrl.Valid()
      ensures Valid() && this.pages == pages && this.flip == flip && this.font == font && this.ctrl == ctrl
      ensures fresh(segs) && !scEnable
      ensures forall p, x :: 0 <= p < pages && 0 <= x < COLUMNS ==> segs[p, x] == 0
    {
      this.width, this.pages, this.flip, this.spi, this.font, this.ctrl := COLUMNS, pages, flip, spi, font, ctrl;
      segs := new bv8[PAGES, COLUMNS];
      scEnable, scStart, scEnd, scDirection := false, 0, 0, 0;
      new;
      forall p, x | 0 <= p < pages && 0 <= x < COLUMNS {
        segs[p, x] := 0;
      }
    }

    lemma BytesAre(want: OledController.Bytes)
      requires Valid() && Shaped(want, pages)
      requires forall p, x :: 0 <= p < pages && 0 <= x < COLUMNS ==> segs[p, x] == want[p][x]
      ensures Bytes() == want
    {
      assert forall p :: 0 <= p < pages ==> Bytes()[p] == want[p];
    }

    // --- The two buses --------------------------------------------------------------------------------------

    method I2cDisplayImage(page: int, seg: int, images: Row)
      requires Valid() && 0 <= page && 0 <= seg
      requires page < pages && seg < width ==> seg + |images| <= COLUMNS
      modifies ctrl`page, ctrl`column, ctrl.ram
      ensures page >= pages || seg >= width ==> ctrl.Ram() == old(ctrl.Ram())
      ensures page < pages && seg < width ==>
                ctrl.Ram() == Blit(old(ctrl.Ram()), Mirror(flip, pages, page), seg, images)
    {
      if page >= pages || seg >= width {
        return;
      }
      var columLow, columHigh := seg % 16, seg / 16 % 16;
      var target := page;
      if flip {
        target := pages - page - 1;
      }
      hide PointersAfter, Blit;
      AddressSets(target, seg, ctrl.page, ctrl.column);
      ctrl.I2cTransaction(CommandStream([0x00 + columLow, 0x10 + columHigh, 0xB0 + target]));
      ctrl.I2cTransaction(DataStream(images));
    }

    method SpiDisplayImage(page: int, seg: int, images: Row)
      requires Valid() && 0 <= page && 0 <= seg
      requires page < pages && seg < width ==> seg + |images| <= COLUMNS
      modifies ctrl`page, ctrl`column, ctrl.ram
      ensures page >= pages || seg >= width ==> ctrl.Ram() == old(ctrl.Ram())
      ensures page < pages && seg < width ==>
                ctrl.Ram() == Blit(old(ctrl.Ram()), Mirror(flip, pages, page), seg, images)
    {
      if page >= pages || seg >= width {
        return;
      }
      var columLow, columHigh := seg % 16, seg / 16 % 16;
      var target := page;
      if flip {
        target := pages - page - 1;
      }
      AddressSteps(target, seg, ctrl.page, ctrl.column);
      hide PageAfter, ColumnAfter, Blit;
      ctrl.SpiCommand(0x00 + columLow);
      ctrl.SpiCommand(0x10 + columHigh);
      ctrl.SpiCommand(0xB0 + target);
      ctrl.SpiData(images);
    }

    method BusDisplayImage(page: int, seg: int, images: Row)
      requires Valid() && 0 <= page && 0 <= seg
      requires page < pages && seg < width ==> seg + |images| <= COLUMNS
      modifies ctrl`page, ctrl`column, ctrl.ram
      ensures page >= pages || seg >= width ==> ctrl.Ram() == old(ctrl.Ram())
      ensures page < pages && seg < width ==>
                ctrl.Ram() == Blit(old(ctrl.Ram()), Mirror(flip, pages, page), seg, images)
    {
      if spi {
        SpiDisplayImage(page, seg, images);
      } else {
        I2cDisplayImage(page, seg, images);
      }
    }

    // --- Images ---------------------------------------------------------------------------------------------

    method SetSegs(page: nat, seg: nat, images: Row)
      requires Valid() && page < PAGES && seg + |images| <= COLUMNS
      modifies segs
      ensures Bytes() == BlitIn(old(Bytes()), page, seg, images)
    {
      forall i | 0 <= i < |images| {
        segs[page, seg + i] := images[i];
      }
      ghost var want := BlitIn(old(Bytes()), page, seg, images);
      assert forall p :: 0 <= p < pages ==> Bytes()[p] == want[p];
    }

    /** ssd1306_display_image; on a page past the panel it only writes the rows of the shadow that are not shown. */
    method DisplayImage(page: nat, seg: nat, images: Row)
      requires Valid() && page < PAGES && seg < COLUMNS && seg + |images| <= COLUMNS
      modifies segs, ctrl`page, ctrl`column, ctrl.ram
      ensures Bytes() == BlitIn(old(Bytes()), page, seg, images)
      ensures ctrl.Ram() == if page < pages then Blit(old(ctrl.Ram()), Mirror(flip, pages, page), seg, images)
                            else old(ctrl.Ram())
      ensures old(Synced()) ==> Synced()
    {
      hide Shows, Blit, Mirror;
      if Synced() && page < pages {
        BlitShows(ctrl.Ram(), Bytes(), flip, page, seg, images);
      }
      BusDisplayImage(page, seg, images);
      SetSegs(page, seg, images);
    }

    method PageRow(page: nat) returns (row: Row)
      requires Valid() && page < pages
      ensures row == Bytes()[page] && |row| == COLUMNS
    {
      row := seq(COLUMNS, x requires 0 <= x < COLUMNS && page < segs.Length0 && COLUMNS == segs.Length1 reads segs =>
        segs[page, x]);
    }

    /** One page of the shadow to the RAM. */
    method ShowPage(page: nat)
      requires Valid() && page < pages
      modifies ctrl`page, ctrl`column, ctrl.ram
      ensures ctrl.Ram() == old(ctrl.Ram())[Mirror(flip, pages, page) := Bytes()[page]]
    {
      var row := PageRow(page);
      BlitWhole(ctrl.Ram(), Mirror(flip, pages, page), row);
      BusDisplayImage(page, 0, row);
    }

    /** ssd1306_show_buffer: whatever the RAM held, it shows the shadow afterwards. */
    method ShowBuffer()
      requires Valid()
      modifies ctrl`page, ctrl`column, ctrl.ram
      ensures Synced()
    {
      for page := 0 to pages
        invariant forall p :: 0 <= p < page ==> ctrl.Ram()[Mirror(flip, pages, p)] == Bytes()[p]
      {
        ShowPage(page);
      }
    }

    // --- Text -----------------------------------------------------------------------------------------------

    /** ssd1306_invert and ssd1306_flip on a copy of some columns. */
    method RenderColumns(columns: Row, invert: bool) returns (image: Row)
      ensures image == Rendered(flip, invert, columns)
    {
      var buf := new bv8[|columns|](i requires 0 <= i < |columns| => columns[i]);
      for i := 0 to |columns|
        invariant forall k :: 0 <= k < |columns| ==> buf[k] == if k < i then Inked(invert, columns[k]) else columns[k]
      {
        if invert {
          buf[i] := !buf[i];
        }
      }
      for i := 0 to |columns|
        invariant forall k :: 0 <= k < |columns| ==>
                    buf[k] == if k < i then Turned(flip, Inked(invert, columns[k])) else Inked(invert, columns[k])
      {
        if flip {
          var b := RotateByte(buf[i]);
          buf[i] := b;
        }
      }
      image := buf[..];
    }

    /** One more character of a text on the bytes `was` and on the RAM `ram`. */
    method DisplayGlyph(ghost was: OledController.Bytes, ghost ram: OledController.Bytes, page: nat, text: seq<nat>,
                        i: nat, seg: nat, invert: bool)
      requires Valid() && ValidText(text) && i < |text| <= 16 && page < pages && seg == 8 * i
      requires |was| == pages && Shaped(was, |was|) && |ram| == PAGES && Shaped(ram, |ram|)
      requires Bytes() == TextUpTo(was, font, page, text, i, flip, invert)
      requires ctrl.Ram() == TextUpTo(ram, font, Mirror(flip, pages, page), text, i, flip, invert)
      modifies segs, ctrl`page, ctrl`column, ctrl.ram
      ensures Bytes() == TextUpTo(was, font, page, text, i + 1, flip, invert)
      ensures ctrl.Ram() == TextUpTo(ram, font, Mirror(flip, pages, page), text, i + 1, flip, invert)
    {
      hide TextUpTo, Rendered, Shows, Mirror, Blit;
      TextGrows(was, font, page, text, i, flip, invert);
      TextGrows(ram, font, Mirror(flip, pages, page), text, i, flip, invert);
      var image := RenderColumns(font[text[i]], invert);
      DisplayImage(page, seg, image);
    }

    /** The loop of ssd1306_display_text. */
    method DisplayShown(page: nat, text: seq<nat>, invert: bool)
      requires Valid() && ValidText(text) && |text| <= 16 && page < pages
      modifies segs, ctrl`page, ctrl`column, ctrl.ram
      ensures Bytes() == TextUpTo(old(Bytes()), font, page, text, |text|, flip, invert)
      ensures ctrl.Ram() == TextUpTo(old(ctrl.Ram()), font, Mirror(flip, pages, page), text, |text|, flip, invert)
    {
      ghost var was, ram, q := Bytes(), ctrl.Ram(), Mirror(flip, pages, page);
      TextNone(was, font, page, text, flip, invert);
      TextNone(ram, font, q, text, flip, invert);
      var seg := 0;
      hide TextUpTo, Rendered, Shows, Mirror, Blit;
      for i := 0 to |text|
        invariant seg == 8 * i
        invariant Bytes() == TextUpTo(was, font, page, text, i, flip, invert)
        invariant ctrl.Ram() == TextUpTo(ram, font, q, text, i, flip, invert)
      {
        DisplayGlyph(was, ram, page, text, i, seg, invert);
        seg := seg + 8;
      }
    }

    /** ssd1306_display_text: at most 16 characters from column 0 of the page. */
    method DisplayText(page: nat, text: seq<nat>, invert: bool)
      requires Valid() && ValidText(text)
      modifies segs, ctrl`page, ctrl`column, ctrl.ram
      ensures Bytes() == TextShown(old(Bytes()), font, page, text, flip, invert)
      ensures old(Synced()) ==> Synced()
    {
      if page >= pages {
        return;
      }
      var textLen := if |text| > 16 then 16 else |text|;
      hide Shows, TextUpTo, Mirror;
      assert text[..textLen] == Shown(text, 16);
      if Synced() {
        TextShows(ctrl.Ram(), Bytes(), flip, font, page, text[..textLen], invert);
      }
      DisplayShown(page, text[..textLen], invert);
    }

    /** ssd1306_clear_line. */
    method ClearLine(page: nat, invert: bool)
      requires Valid()
      modifies segs, ctrl`page, ctrl`column, ctrl.ram
      ensures Bytes() == TextShown(old(Bytes()), font, page, Spaces(), flip, invert)
      ensures old(Synced()) ==> Synced()
    {
      DisplayText(page, Spaces(), invert);
    }

    /** ssd1306_clear_screen: whatever the RAM and the shadow held, they agree afterwards. */
    method ClearScreen(invert: bool)
      requires Valid()
      modifies segs, ctrl`page, ctrl`column, ctrl.ram
      ensures Synced()
      ensures forall x: nat, y: nat :: x < COLUMNS && y < 8 * pages ==>
                PixelOf(Bytes(), flip, x, y) == (Bit(font[0][x % 8], y % 8) != invert)
    {
      ghost var blank := Rendered(flip, invert, TextColumns(font, Spaces()));
      for page := 0 to pages
        invariant forall p :: 0 <= p < page ==> ctrl.Ram()[Mirror(flip, pages, p)] == Bytes()[p] == blank
      {
        hide TextColumns, Rendered;
        ClearPage(page, invert);
      }
      AllBlank(invert);
    }

    lemma AllBlank(invert: bool)
      requires Valid()
      requires forall p :: 0 <= p < pages ==> Bytes()[p] == Rendered(flip, invert, TextColumns(font, Spaces()))
      ensures forall x: nat, y: nat :: x < COLUMNS && y < 8 * pages ==>
                PixelOf(Bytes(), flip, x, y) == (Bit(font[0][x % 8], y % 8) != invert)
    {
      hide PixelOf, Bit, Rendered, TextColumns;
      forall x: nat, y: nat | x < COLUMNS && y < 8 * pages
        ensures PixelOf(Bytes(), flip, x, y) == (Bit(font[0][x % 8], y % 8) != invert)
      {
        BlankPixel(Bytes(), font, flip, invert, x, y);
      }
    }

    /** One page, whatever the RAM and the shadow held there. */
    method ClearPage(page: nat, invert: bool)
      requires Valid() && page < pages
      modifies segs, ctrl`page, ctrl`column, ctrl.ram
      ensures var blank := Rendered(flip, invert, TextColumns(font, Spaces()));
              && Bytes() == old(Bytes())[page := blank]
              && ctrl.Ram() == old(ctrl.Ram())[Mirror(flip, pages, page) := blank]
    {
      hide TextUpTo, TextColumns, Rendered;
      SpacesCover(Bytes(), font, page, flip, invert);
      SpacesCover(ctrl.Ram(), font, Mirror(flip, pages, page), flip, invert);
      DisplayShown(page, Spaces(), invert);
    }

    // --- Text three times as large --------------------------------------------------------------------------

    method TripleColumns(glyph: Row) returns (outColumns: seq<bv32>)
      requires |glyph| == 8
      ensures |outColumns| == 8 && forall i :: 0 <= i < 8 ==> outColumns[i] == Tripled(glyph[i])
    {
      outColumns := [];
      for xx := 0 to 8
        invariant |outColumns| == xx && forall i :: 0 <= i < xx ==> outColumns[i] == Tripled(glyph[i])
      {
        var out := TripleColumn(glyph[xx]);
        outColumns := outColumns + [out];
      }
    }

    method TripleBand(glyph: Row, outColumns: seq<bv32>, band: nat) returns (image: Row)
      requires |glyph| == 8 && |outColumns| == 8 && band < 3
      requires forall i :: 0 <= i < 8 ==> outColumns[i] == Tripled(glyph[i])
      ensures image == TripleRow(glyph, band)
    {
      hide Tripled, ByteOf;
      var buf := new bv8[24];
      ghost var row := TripleRow(glyph, band);
      for xx := 0 to 8
        invariant forall i :: 0 <= i < 3 * xx ==> buf[i] == row[i]
      {
        var b := ByteOf(outColumns[xx], band);
        assert row[xx * 3] == b && row[xx * 3 + 1] == b && row[xx * 3 + 2] == b by {
          Thirds(xx);
        }
        hide TripleRow;
        buf[xx * 3], buf[xx * 3 + 1], buf[xx * 3 + 2] := b, b, b;
      }
      image := buf[..];
    }

    method DisplayBand(page: nat, seg: nat, glyph: Row, outColumns: seq<bv32>, band: nat, invert: bool)
      requires Valid() && |glyph| == 8 && |outColumns| == 8 && band < 3 && page < PAGES && seg + 24 <= COLUMNS
      requires forall i :: 0 <= i < 8 ==> outColumns[i] == Tripled(glyph[i])
      modifies segs, ctrl`page, ctrl`column, ctrl.ram
      ensures Bytes() == BlitIn(old(Bytes()), page, seg, Rendered(flip, invert, TripleRow(glyph, band)))
      ensures old(Synced()) ==> Synced()
    {
      hide *;
      var image := TripleBand(glyph, outColumns, band);
      image := RenderColumns(image, invert);
      DisplayImage(page, seg, image);
    }

    /** One character of ssd1306_display_text_x3. */
    method DisplayTriple(page: nat, seg: nat, glyph: Row, invert: bool)
      requires Valid() && |glyph| == 8 && page + 3 <= PAGES && seg + 24 <= COLUMNS
      modifies segs, ctrl`page, ctrl`column, ctrl.ram
      ensures Bytes() == TripleChar(old(Bytes()), glyph, page, seg, 3, flip, invert)
      ensures old(Synced()) ==> Synced()
    {
      hide *;
      ghost var was, synced := Bytes(), Synced();
      var outColumns := TripleColumns(glyph);
      TripleCharNone(was, glyph, page, seg, flip, invert);
      for yy := 0 to 3
        invariant Bytes() == TripleChar(was, glyph, page, seg, yy, flip, invert)
        invariant synced ==> Synced()
      {
        TripleCharNext(was, glyph, page, seg, yy, flip, invert);
        DisplayBand(page + yy, seg, glyph, outColumns, yy, invert);
      }
    }

    /** ssd1306_display_text_x3: at most five characters; bands below the panel are not shown. */
    method DisplayTextX3(page: nat, text: seq<nat>, invert: bool)
      requires Valid() && ValidText(text) && (page < pages ==> page + 3 <= PAGES)
      modifies segs, ctrl`page, ctrl`column, ctrl.ram
      ensures Bytes() == TripleTextShown(old(Bytes()), font, page, text, flip, invert)
      ensures old(Synced()) ==> Synced()
    {
      if page >= pages {
        return;
      }
      DisplayTripleText(page, Shown(text, 5), invert);
    }

    /** The loop over the characters. */
    method DisplayTripleText(page: nat, text: seq<nat>, invert: bool)
      requires Valid() && ValidText(text) && |text| <= 5 && page + 3 <= PAGES
      modifies segs, ctrl`page, ctrl`column, ctrl.ram
      ensures Bytes() == TripleFrom(old(Bytes()), font, text, page, 0, flip, invert)
      ensures old(Synced()) ==> Synced()
    {
      hide Synced, TripleChar, TripleFrom;
      ghost var goal := TripleFrom(Bytes(), font, text, page, 0, flip, invert);
      TripleEnds(Bytes(), font, text, page, 0, flip, invert);
      var seg := 0;
      for nn := 0 to |text|
        invariant seg == 24 * nn
        invariant TripleFrom(Bytes(), font, text[nn..], page, seg, flip, invert) == goal
        invariant old(Synced()) ==> Synced()
      {
        TripleNext(Bytes(), font, text, nn, page, seg, flip, invert);
        DisplayTriple(page, seg, font[text[nn]], invert);
        seg := seg + 24;
      }
      TripleEnds(Bytes(), font, text, page, seg, flip, invert);
    }

    // --- The scrolling text window --------------------------------------------------------------------------

    /** The window is what software_scroll left: off, or within the panel. */
    predicate Windowed()
      reads this
    {
      scEnable ==> Window(scStart, scEnd, scDirection, pages)
    }

    lemma WithinWindow()
      requires Windowed() && scEnable
      ensures 0 <= scStart < pages && 0 <= scEnd < pages && scDirection == Direction(scStart, scEnd)
    {
    }

    /** ssd1306_software_scroll. */
    method SoftwareScroll(start: int, end: int)
      requires Valid()
      modifies this`scEnable, this`scStart, this`scEnd, this`scDirection
      ensures scEnable <==> 0 <= start < pages && 0 <= end < pages
      ensures scEnable ==> scStart == start && scEnd == end
      ensures Windowed()
    {
      if start < 0 || end < 0 {
        scEnable := false;
      } else if start >= pages || end >= pages {
        scEnable := false;
      } else {
        scEnable := true;
        scStart := start;
        scEnd := end;
        scDirection := 1;
        if start > end {
          scDirection := -1;
        }
      }
    }

    method CopyRow(dst: nat, src: nat)
      requires Valid() && dst < pages && src < pages && dst != src
      modifies segs
      ensures Bytes() == old(Bytes())[dst := old(Bytes())[src]]
    {
      ghost var was := Bytes();
      for seg := 0 to width
        invariant forall p, x :: 0 <= p < pages && 0 <= x < COLUMNS ==>
                    segs[p, x] == was[if p == dst && x < seg then src else p][x]
      {
        segs[dst, seg] := segs[src, seg];
      }
      ghost var want := was[dst := was[src]];
      assert forall p :: 0 <= p < pages ==> Bytes()[p] == want[p];
    }

    /** One turn of ssd1306_scroll_text's loop. */
    method ScrollRow(srcIndex: int, direction: int, start: int, ghost end: int, ghost was: OledController.Bytes,
                     ghost turn: nat)
      requires Valid() && |was| == pages && direction == Direction(start, end)
      requires ScrollsAt(was, Bytes(), start, end, srcIndex, turn)
      modifies segs, ctrl`page, ctrl`column, ctrl.ram
      ensures if srcIndex == start then Bytes() == Shifted(was, start, end)
              else ScrollsAt(was, Bytes(), start, end, srcIndex - direction, turn + 1)
      ensures old(Synced()) ==> Synced()
    {
      hide *;
      ScrollsNext(was, Bytes(), start, end, srcIndex, turn);
      var dstIndex := srcIndex + direction;
      NowSynced();
      if Synced() {
        CopyShows(dstIndex, srcIndex);
      }
      CopyRow(dstIndex, srcIndex);
      ShowPage(dstIndex);
      NowSynced();
    }

    lemma CopyShows(dstIndex: nat, srcIndex: nat)
      requires Valid() && dstIndex < pages && srcIndex < pages && Synced()
      ensures var row := Bytes()[srcIndex];
              Shows(ctrl.Ram()[Mirror(flip, pages, dstIndex) := row], Bytes()[dstIndex := row], flip)
    {
      hide Shows, Mirror;
      RowShows(ctrl.Ram(), Bytes(), flip, dstIndex, Bytes()[srcIndex]);
    }

    lemma NowSynced()
      requires Valid()
      ensures ctrl.ram != segs
      ensures Synced() <==> Shows(ctrl.Ram(), Bytes(), flip)
    {
    }

    /** The loop of ssd1306_scroll_text; its k-th source row is SourceAt(scStart, scEnd, k). */
    method ScrollRows() returns (srcIndex: int)
      requires Valid() && scEnable && Windowed() && scStart != scEnd
      modifies segs, ctrl`page, ctrl`column, ctrl.ram
      ensures srcIndex == scStart
      ensures Bytes() == Shifted(old(Bytes()), scStart, scEnd)
      ensures old(Synced()) ==> Synced()
    {
      hide *;
      WithinWindow();
      var start, end, direction := scStart, scEnd, scDirection;
      ghost var was, synced := Bytes(), Synced();
      ScrollsFirst(was, start, end);
      ghost var turn: nat := 0;
      srcIndex := end - direction;
      while true
        invariant ScrollsAt(was, Bytes(), start, end, srcIndex, turn)
        invariant synced ==> Synced()
        decreases TurnsLeft(start, srcIndex)
      {
        ScrollRow(srcIndex, direction, start, end, was, turn);
        if srcIndex == start {
          break;
        }
        FewerTurns(was, Bytes(), start, end, srcIndex - direction, turn + 1);
        srcIndex := srcIndex - direction;
        turn := turn + 1;
      }
    }

    /** ssd1306_scroll_text: the window moves on by one row and the text enters at its start. */
    method ScrollText(text: seq<nat>, invert: bool)
      requires Valid() && ValidText(text) && Windowed() && (scEnable ==> scStart != scEnd)
      modifies segs, ctrl`page, ctrl`column, ctrl.ram
      ensures !scEnable ==> Bytes() == old(Bytes())
      ensures scEnable ==>
                Bytes() == TextShown(Shifted(old(Bytes()), scStart, scEnd), font, scStart, text, flip, invert)
      ensures old(Synced()) ==> Synced()
    {
      if !scEnable {
        return;
      }
      var srcIndex := ScrollRows();
      DisplayText(srcIndex, text, invert);
    }

    // --- Fading out -----------------------------------------------------------------------------------------

    /** One pass over the columns of a page. */
    method FillPage(page: nat, b: bv8)
      requires Valid() && page < pages
      modifies segs, ctrl`page, ctrl`column, ctrl.ram
      ensures Bytes() == old(Bytes())[page := Run(b, COLUMNS)]
      ensures ctrl.Ram() == old(ctrl.Ram())[Mirror(flip, pages, page) := Run(b, COLUMNS)]
    {
      ghost var was, ram, q := Bytes(), ctrl.Ram(), Mirror(flip, pages, page);
      BlitNothing(was, page, 0);
      BlitNothing(ram, q, 0);
      assert Run(b, 0) == [];
      for seg := 0 to COLUMNS
        invariant Bytes() == Blit(was, page, 0, Run(b, seg))
        invariant ctrl.Ram() == Blit(ram, q, 0, Run(b, seg))
      {
        hide Shows, Blit, Mirror;
        RunGrows(was, page, b, seg);
        RunGrows(ram, q, b, seg);
        DisplayImage(page, seg, [b]);
      }
      BlitWhole(was, page, Run(b, COLUMNS));
      BlitWhole(ram, q, Run(b, COLUMNS));
    }

    /** ssd1306_fadeout: the panel ends dark, whatever the RAM and the shadow held. */
    method FadeOut()
      requires Valid()
      modifies segs, ctrl`page, ctrl`column, ctrl.ram
      ensures Synced()
      ensures forall p, x :: 0 <= p < pages && 0 <= x < COLUMNS ==> Bytes()[p][x] == 0
    {
      for page := 0 to pages
        invariant forall p :: 0 <= p < page ==> ctrl.Ram()[Mirror(flip, pages, p)] == Bytes()[p] == Run(0, COLUMNS)
      {
        FadePage(page);
      }
    }

    method FadePage(page: nat)
      requires Valid() && page < pages
      modifies segs, ctrl`page, ctrl`column, ctrl.ram
      ensures Bytes() == old(Bytes())[page := Run(0, COLUMNS)]
      ensures ctrl.Ram() == old(ctrl.Ram())[Mirror(flip, pages, page) := Run(0, COLUMNS)]
    {
      ghost var was, ram, q := Bytes(), ctrl.Ram(), Mirror(flip, pages, page);
      var image: bv8 := 0xFF;
      for line := 0 to 8
        invariant image == Faded(flip, line)
        invariant line > 0 ==> Bytes() == was[page := Run(image, COLUMNS)]
        invariant line > 0 ==> ctrl.Ram() == ram[q := Run(image, COLUMNS)]
        invariant line == 0 ==> Bytes() == was && ctrl.Ram() == ram
      {
        FadesOn(flip, line);
        hide Faded, Run;
        if flip {
          image := image >> 1;
        } else {
          image := image << 1;
        }
        FillPage(page, image);
      }
    }

    // --- Pixels, lines and bitmaps --------------------------------------------------------------------------

    /** _ssd1306_pixel: only the shadow changes. */
    method Pixel(xpos: int, ypos: int, invert: bool)
      requires Valid() && OnPanel(OledLine.Point(xpos, ypos), pages)
      modifies segs
      ensures Bytes() == PlotOne(old(Bytes()), OledLine.Point(xpos, ypos), flip, invert)
    {
      hide PixelByte;
      var page, bits, seg := ypos / 8, ypos % 8, xpos;
      var wk0 := EditByte(flip, segs[page, seg], bits, invert);
      SetSeg(page, seg, wk0);
    }

    method SetSeg(page: nat, seg: nat, b: bv8)
      requires Valid() && page < pages && seg < COLUMNS
      modifies segs
      ensures Bytes() == SetByte(old(Bytes()), page, seg, b)
    {
      segs[page, seg] := b;
      ghost var want := SetByte(old(Bytes()), page, seg, b);
      assert forall p :: 0 <= p < pages ==> Bytes()[p] == want[p];
    }

    method PlotPoint(steep: bool, a: int, b: int, invert: bool)
      requires Valid() && OnPanel(OledLine.AsPoint(steep, (a, b)), pages)
      modifies segs
      ensures Bytes() == PlotOne(old(Bytes()), OledLine.AsPoint(steep, (a, b)), flip, invert)
    {
      if steep {
        Pixel(b, a, invert);
      } else {
        Pixel(a, b, invert);
      }
    }

    /** One loop of _ssd1306_line, along the axis of the longer side. */
    method PlotLoop(ghost goal: OledController.Bytes, steep: bool, a0: int, b0: int, sa: int, sb: int, da: int, db: int,
                    invert: bool)
      requires Valid() && 0 <= da
      requires PlotsTo(Bytes(), goal, flip, invert, steep, a0, b0, sa, sb, da, db, -da, da + 1)
      modifies segs
      ensures Bytes() == goal
    {
      hide *;
      var a, b, e := a0, b0, -da;
      for i := 0 to da + 1
        invariant PlotsTo(Bytes(), goal, flip, invert, steep, a, b, sa, sb, da, db, e, da + 1 - i)
      {
        PlotsOn(Bytes(), goal, flip, invert, steep, a, b, sa, sb, da, db, e, da + 1 - i);
        OledLine.Turn(b, sb, da, db, e);
        PlotPoint(steep, a, b, invert);
        a := a + sa;
        e := e + 2 * db;
        if e >= 0 {
          b := b + sb;
          e := e - 2 * da;
        }
      }
      PlotsDone(Bytes(), goal, flip, invert, steep, a, b, sa, sb, da, db, e);
    }

    /** _ssd1306_line: the shadow gets the line's points; the RAM is not touched. */
    method Line(x1: int, y1: int, x2: int, y2: int, invert: bool)
      requires Valid() && OnPanel(OledLine.Point(x1, y1), pages) && OnPanel(OledLine.Point(x2, y2), pages)
      modifies segs
      ensures AllOnPanel(OledLine.LinePoints(x1, y1, x2, y2), pages)
      ensures Bytes() == Plotted(old(Bytes()), OledLine.LinePoints(x1, y1, x2, y2), flip, invert)
    {
      LineOnPanel(x1, y1, x2, y2, pages);
      ghost var goal := Plotted(Bytes(), OledLine.LinePoints(x1, y1, x2, y2), flip, invert);
      hide *;
      var dx := if x2 > x1 then x2 - x1 else x1 - x2;
      var dy := if y2 > y1 then y2 - y1 else y1 - y2;
      var sx := if x2 > x1 then 1 else -1;
      var sy := if y2 > y1 then 1 else -1;
      LineStarts(Bytes(), x1, y1, x2, y2, dx, dy, sx, sy, flip, invert);
      if dx > dy {
        PlotLoop(goal, false, x1, y1, sx, sy, dx, dy, invert);
      } else {
        PlotLoop(goal, true, y1, x1, sy, sx, dy, dx, invert);
      }
    }

    /** The innermost loop body of ssd1306_bitmaps. */
    method StampPixel(page: nat, seg: nat, src: bv8, srcBits: nat, dstBits: nat)
      requires Valid() && page < pages && seg < COLUMNS && srcBits < 8 && dstBits < 8
      modifies segs
      ensures Bytes() ==
                SetByte(old(Bytes()), page, seg, StampByte(flip, src, srcBits, old(Bytes())[page][seg], dstBits))
    {
      var wk0 := segs[page, seg];
      if flip {
        wk0 := RotateByte(wk0);
      }
      var wk2 := CopyBit(src, srcBits, wk0, dstBits);
      if flip {
        wk2 := RotateByte(wk2);
      }
      assert wk2 == StampByte(flip, src, srcBits, Bytes()[page][seg], dstBits);
      hide StampByte, CopyBit, Rotated;
      SetSeg(page, seg, wk2);
    }

    /** Eight pixels of a row of a bitmap, from one byte of it. */
    method StampEight(ghost was: OledController.Bytes, bitmap: Bitmap, xpos: nat, ghost ypos: nat, invert: bool,
                      row: nat, index: nat, offset: nat, page: nat, dstBits: nat)
      requires Valid() && |was| == pages && bitmap.Fits(xpos, ypos, pages) && row < bitmap.height &&
               8 * index < bitmap.width
      requires offset == row * (bitmap.width / 8) && page * 8 + dstBits == ypos + row && dstBits < 8
      requires Stamped(was, Bytes(), flip, bitmap, xpos, ypos, invert, row, 8 * index)
      modifies segs
      ensures Stamped(was, Bytes(), flip, bitmap, xpos, ypos, invert, row, 8 * (index + 1))
    {
      hide *;
      var seg := xpos + 8 * index;
      for srcBits := 8 downto 0
        invariant seg == xpos + 8 * index + 8 - srcBits
        invariant Stamped(was, Bytes(), flip, bitmap, xpos, ypos, invert, row, 8 * index + 8 - srcBits)
      {
        StampBits(was, Bytes(), flip, bitmap, xpos, ypos, invert, row, index, srcBits, offset, page, dstBits);
        var wk1 := Inked(invert, bitmap.bits[index + offset]);
        StampPixel(page, seg, wk1, srcBits, dstBits);
        seg := seg + 1;
      }
    }

    method StampRow(ghost was: OledController.Bytes, bitmap: Bitmap, xpos: nat, ghost ypos: nat, invert: bool, row: nat,
                    offset: nat, page: nat, dstBits: nat)
      requires Valid() && |was| == pages && bitmap.Fits(xpos, ypos, pages) && row < bitmap.height
      requires offset == row * (bitmap.width / 8) && page * 8 + dstBits == ypos + row && dstBits < 8
      requires Stamped(was, Bytes(), flip, bitmap, xpos, ypos, invert, row, 0)
      modifies segs
      ensures Stamped(was, Bytes(), flip, bitmap, xpos, ypos, invert, row + 1, 0)
    {
      hide Stamped;
      for index := 0 to bitmap.width / 8
        invariant Stamped(was, Bytes(), flip, bitmap, xpos, ypos, invert, row, 8 * index)
      {
        StampEight(was, bitmap, xpos, ypos, invert, row, index, offset, page, dstBits);
      }
      StampRowEnds(was, Bytes(), flip, bitmap, xpos, ypos, invert, row);
    }

    /** The drawing loops of ssd1306_bitmaps. */
    method StampBitmap(xpos: nat, ypos: nat, bitmap: Bitmap, invert: bool)
      requires Valid() && bitmap.Fits(xpos, ypos, pages)
      modifies segs
      ensures Stamped(old(Bytes()), Bytes(), flip, bitmap, xpos, ypos, invert, bitmap.height, 0)
    {
      ghost var was := Bytes();
      var w := bitmap.width / 8;
      var page: nat, dstBits: nat, offset: nat := ypos / 8, ypos % 8, 0;
      StampedNone(was, flip, bitmap, xpos, ypos, invert);
      hide Stamped;
      for row := 0 to bitmap.height
        invariant page * 8 + dstBits == ypos + row && dstBits < 8 && offset == row * w
        invariant Stamped(was, Bytes(), flip, bitmap, xpos, ypos, invert, row, 0)
      {
        StampRow(was, bitmap, xpos, ypos, invert, row, offset, page, dstBits);
        assert (row + 1) * w == row * w + w;
        offset := offset + w;
        dstBits := dstBits + 1;
        if dstBits == 8 {
          page := page + 1;
          dstBits := 0;
        }
      }
    }

    /** ssd1306_bitmaps: the bitmap is drawn and the panel shows it; a width that is not a multiple of 8 is refused. */
    method Bitmaps(xpos: nat, ypos: nat, bitmap: Bitmap, invert: bool)
      requires Valid() && (bitmap.width % 8 == 0 ==> bitmap.Fits(xpos, ypos, pages))
      modifies segs, ctrl`page, ctrl`column, ctrl.ram
      ensures bitmap.width % 8 != 0 ==> Bytes() == old(Bytes()) && ctrl.Ram() == old(ctrl.Ram())
      ensures bitmap.width % 8 == 0 ==>
                Stamped(old(Bytes()), Bytes(), flip, bitmap, xpos, ypos, invert, bitmap.height, 0) && Synced()
    {
      if bitmap.width % 8 != 0 {
        return;
      }
      hide Stamped;
      StampBitmap(xpos, ypos, bitmap, invert);
      ShowBuffer();
    }

    // --- Wrap-around scrolls --------------------------------------------------------------------------------

    /** One page of SCROLL_RIGHT. */
    method RotateRight(page: nat)
      requires Valid() && page < pages
      modifies segs
      ensures Bytes() == old(Bytes())[page := AcrossRow(old(Bytes())[page], true)]
    {
      ghost var was := Bytes();
      var wk := segs[page, 127];
      for seg := 127 downto 0
        invariant forall p, x :: 0 <= p < pages && 0 <= x < COLUMNS ==>
                    segs[p, x] == was[p][if p == page && x > seg then x - 1 else x]
      {
        segs[page, seg + 1] := segs[page, seg];
      }
      segs[page, 0] := wk;
      hide AcrossRow;
      BytesAre(was[page := AcrossRow(was[page], true)]);
    }

    /** One page of SCROLL_LEFT. */
    method RotateLeft(page: nat)
      requires Valid() && page < pages
      modifies segs
      ensures Bytes() == old(Bytes())[page := AcrossRow(old(Bytes())[page], false)]
    {
      ghost var was := Bytes();
      var wk := segs[page, 0];
      for seg := 0 to 127
        invariant forall p, x :: 0 <= p < pages && 0 <= x < COLUMNS ==>
                    segs[p, x] == was[p][if p == page && x < seg then x + 1 else x]
      {
        segs[page, seg] := segs[page, seg + 1];
      }
      segs[page, 127] := wk;
      hide AcrossRow;
      BytesAre(was[page := AcrossRow(was[page], false)]);
    }

    method WrapAcross(start: nat, end: int, right: bool)
      requires Valid()
      modifies segs
      ensures ScrolledAcross(old(Bytes()), Bytes(), start, end, right)
    {
      hide AcrossRow, ScrolledAcross;
      ghost var was := Bytes();
      var last := if end >= pages then pages - 1 else end;
      var page := start;
      while page <= last
        invariant start <= page && (page <= last + 1 || page == start)
        invariant forall p :: 0 <= p < pages ==>
                    Bytes()[p] == if start <= p < page && p <= last then AcrossRow(was[p], right) else was[p]
      {
        if right {
          RotateRight(page);
        } else {
          RotateLeft(page);
        }
        page := page + 1;
      }
      AcrossByRows(was, Bytes(), start, end, right);
    }

    /** One byte of an upward scroll. */
    method MergeUp(here: bv8, below: bv8) returns (wk2: bv8)
      ensures wk2 == UpByte(flip, here, below)
    {
      var wk0, wk1 := here, below;
      if flip {
        wk0 := RotateByte(wk0);
        wk1 := RotateByte(wk1);
      }
      wk0 := wk0 >> 1;
      wk1 := wk1 & 0x01;
      wk1 := wk1 << 7;
      wk2 := wk0 | wk1;
      if flip {
        wk2 := RotateByte(wk2);
      }
    }

    method MergeDown(here: bv8, above: bv8) returns (wk2: bv8)
      ensures wk2 == DownByte(flip, here, above)
    {
      var wk0, wk1 := here, above;
      if flip {
        wk0 := RotateByte(wk0);
        wk1 := RotateByte(wk1);
      }
      wk0 := wk0 << 1;
      wk1 := wk1 & 0x80;
      wk1 := wk1 >> 7;
      wk2 := wk0 | wk1;
      if flip {
        wk2 := RotateByte(wk2);
      }
    }

    /** One page of an upward scroll, against the page below it or the saved first one. */
    method UpPage(page: nat, below: Row, start: nat, last: int)
      requires Valid() && page < pages && |below| == COLUMNS && last < COLUMNS
      modifies segs
      ensures Bytes() == old(Bytes())[page := UpRow(flip, old(Bytes())[page], below, start, last)]
    {
      hide UpByte;
      ghost var was := Bytes();
      var seg := start;
      while seg <= last
        invariant start <= seg
        invariant forall p, x :: 0 <= p < pages && 0 <= x < COLUMNS ==>
                    segs[p, x] == if p == page && start <= x < seg && x <= last then UpByte(flip, was[p][x], below[x])
                                  else was[p][x]
      {
        var wk2 := MergeUp(segs[page, seg], below[seg]);
        segs[page, seg] := wk2;
        seg := seg + 1;
      }
      ghost var want := was[page := UpRow(flip, was[page], below, start, last)];
      assert forall p :: 0 <= p < pages ==> Bytes()[p] == want[p];
    }

    method DownPage(page: nat, above: Row, start: nat, last: int)
      requires Valid() && page < pages && |above| == COLUMNS && last < COLUMNS
      modifies segs
      ensures Bytes() == old(Bytes())[page := DownRow(flip, old(Bytes())[page], above, start, last)]
    {
      hide DownByte;
      ghost var was := Bytes();
      var seg := start;
      while seg <= last
        invariant start <= seg
        invariant forall p, x :: 0 <= p < pages && 0 <= x < COLUMNS ==>
                    segs[p, x] == if p == page && start <= x < seg && x <= last then DownByte(flip, was[p][x], above[x])
                                  else was[p][x]
      {
        var wk2 := MergeDown(segs[page, seg], above[seg]);
        segs[page, seg] := wk2;
        seg := seg + 1;
      }
      ghost var want := was[page := DownRow(flip, was[page], above, start, last)];
      assert forall p :: 0 <= p < pages ==> Bytes()[p] == want[p];
    }

    /** The next page of an upward scroll of the bytes `was`. */
    method UpStep(ghost was: OledController.Bytes, page: nat, below: Row, start: nat, last: int)
      requires Valid() && page < pages && |was| == pages && Shaped(was, |was|) && last < COLUMNS
      requires below == was[if page == pages - 1 then 0 else page + 1]
      requires Bytes() == Ups(was, page, flip, start, last)
      modifies segs
      ensures Bytes() == Ups(was, page + 1, flip, start, last)
    {
      hide Ups, UpRow;
      UpsNext(was, page, flip, start, last);
      UpPage(page, below, start, last);
    }

    method WrapUp(start: nat, end: int)
      requires Valid()
      modifies segs
      ensures ScrolledUp(old(Bytes()), Bytes(), flip, start, end)
    {
      hide ScrolledUp, Ups, UpRow;
      ghost var was := Bytes();
      var last := if end >= width then width - 1 else end;
      UpsNone(was, flip, start, last);
      var save := PageRow(0);
      for page := 0 to pages - 1
        invariant Bytes() == Ups(was, page, flip, start, last)
      {
        UpsNext(was, page, flip, start, last);
        var below := PageRow(page + 1);
        UpStep(was, page, below, start, last);
      }
      UpStep(was, pages - 1, save, start, last);
      UpsAll(was, flip, start, end, last);
    }

    /** The next page of a downward scroll of the bytes `was`. */
    method DownStep(ghost was: OledController.Bytes, page: nat, above: Row, start: nat, last: int)
      requires Valid() && page < pages && |was| == pages && Shaped(was, |was|) && last < COLUMNS
      requires above == was[if page == 0 then pages - 1 else page - 1]
      requires Bytes() == Downs(was, page + 1, flip, start, last)
      modifies segs
      ensures Bytes() == Downs(was, page, flip, start, last)
    {
      hide Downs, DownRow;
      DownsNext(was, page, flip, start, last);
      DownPage(page, above, start, last);
    }

    method WrapDown(start: nat, end: int)
      requires Valid()
      modifies segs
      ensures ScrolledDown(old(Bytes()), Bytes(), flip, start, end)
    {
      hide ScrolledDown, Downs, DownRow;
      ghost var was := Bytes();
      var last := if end >= width then width - 1 else end;
      DownsNone(was, flip, start, last);
      var save := PageRow(pages - 1);
      for page := pages - 1 downto 0
        invariant Bytes() == Downs(was, page + 1, flip, start, last)
      {
        DownsNext(was, page + 1, flip, start, last);
        var above := PageRow(page);
        DownStep(was, page + 1, above, start, last);
      }
      DownStep(was, 0, save, start, last);
      DownsAll(was, flip, start, end, last);
    }

    /** ssd1306_wrap_arround: a negative delay draws on the shadow only. */
    method WrapArround(scroll: OledPicture.Move, start: nat, end: int, delay: int)
      requires Valid()
      modifies segs, ctrl`page, ctrl`column, ctrl.ram
      ensures Wrapped(scroll, old(Bytes()), Bytes(), flip, start, end)
      ensures delay >= 0 ==> Synced()
      ensures delay < 0 ==> ctrl.Ram() == old(ctrl.Ram())
    {
      hide ScrolledUp, ScrolledDown, ScrolledAcross;
      match scroll {
        case Right => WrapAcross(start, end, true);
        case Left => WrapAcross(start, end, false);
        case Up => WrapUp(start, end);
        case Down => WrapDown(start, end);
      }
      if delay >= 0 {
        ShowBuffer();
      }
    }
  }
}
