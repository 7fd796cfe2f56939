/** Whole runs of drawing calls on one panel, and when the glass shows what the shadow buffer holds. */
module OledSession {
  import opened OledController
  import opened OledShadow
  import opened OledSync
  import opened OledInk
  import opened OledPanel
  import OledLine
  import OledPicture

  datatype Call =
    | Image(page: nat, seg: nat, images: Row)
    | Text(page: nat, text: seq<nat>, invert: bool)
    | TextX3(page: nat, text: seq<nat>, invert: bool)
    | ClearLine(page: nat, invert: bool)
    | ClearScreen(invert: bool)
    | SoftwareScroll(first: int, last: int)
    | ScrollText(text: seq<nat>, invert: bool)
    | FadeOut
    | Bitmaps(xpos: nat, ypos: nat, bitmap: Bitmap, invert: bool)
    | WrapArround(scroll: OledPicture.Move, start: nat, end: int, delay: int)
    | Pixel(point: OledLine.Point, invert: bool)
    | Line(from: OledLine.Point, to: OledLine.Point, invert: bool)
    | ShowBuffer

  /** What the driver leaves to its callers: indices within the panel, 7-bit text, a scroll window of two pages
      or more. */
  ghost predicate Proper(call: Call, pages: nat) {
    match call
    case Image(page, seg, images) => page < PAGES && seg < COLUMNS && seg + |images| <= COLUMNS
    case Text(_, text, _) => ValidText(text)
    case TextX3(page, text, _) => ValidText(text) && (page < pages ==> page + 3 <= PAGES)
    case SoftwareScroll(first, last) => first != last
    case ScrollText(text, _) => ValidText(text)
    case Bitmaps(xpos, ypos, bitmap, _) => bitmap.width % 8 == 0 ==> bitmap.Fits(xpos, ypos, pages)
    case Pixel(point, _) => OnPanel(point, pages)
    case Line(from, to, _) => OnPanel(from, pages) && OnPanel(to, pages)
    case _ => true
  }

  /** Whether a call draws on the shadow without showing it. */
  predicate ShadowOnly(call: Call) {
    call.Pixel? || call.Line? || (call.WrapArround? && call.delay < 0)
  }

  /** Whether a call transfers every page. */
  predicate ShowsAll(call: Call) {
    || call.ClearScreen? || call.FadeOut? || call.ShowBuffer?
    || (call.Bitmaps? && call.bitmap.width % 8 == 0)
    || (call.WrapArround? && call.delay >= 0)
  }

  /** Whether a run of calls from power-on leaves the glass up to date: some call showed the whole shadow and
      none has since drawn on the shadow alone. */
  predicate UpToDate(calls: seq<Call>)
    decreases |calls|
  {
    calls != [] &&
    var last := calls[|calls| - 1];
    ShowsAll(last) || (!ShadowOnly(last) && UpToDate(calls[..|calls| - 1]))
  }

  /** The text window is off or can be scrolled. */
  predicate Scrollable(panel: Panel)
    reads panel
  {
    panel.Windowed() && (panel.scEnable ==> panel.scStart != panel.scEnd)
  }

  method Perform(panel: Panel, call: Call)
    requires panel.Valid() && Proper(call, panel.pages) && Scrollable(panel)
    modifies panel`scEnable, panel`scStart, panel`scEnd, panel`scDirection
    modifies panel.segs, panel.ctrl`page, panel.ctrl`column, panel.ctrl.ram
    ensures Scrollable(panel)
    ensures ShowsAll(call) || (old(panel.Synced()) && !ShadowOnly(call)) ==> panel.Synced()
  {
    hide Shows, Mirror, TextShown, TripleFrom, Stamped, ScrolledUp, ScrolledDown, ScrolledAcross, Plotted;
    match call {
      case Image(page, seg, images) => panel.DisplayImage(page, seg, images);
      case Text(page, text, invert) => panel.DisplayText(page, text, invert);
      case TextX3(page, text, invert) => panel.DisplayTextX3(page, text, invert);
      case ClearLine(page, invert) => panel.ClearLine(page, invert);
      case ClearScreen(invert) => panel.ClearScreen(invert);
      case SoftwareScroll(first, last) => panel.SoftwareScroll(first, last);
      case ScrollText(text, invert) => panel.ScrollText(text, invert);
      case FadeOut => panel.FadeOut();
      case Bitmaps(xpos, ypos, bitmap, invert) => panel.Bitmaps(xpos, ypos, bitmap, invert);
      case WrapArround(scroll, start, end, delay) => panel.WrapArround(scroll, start, end, delay);
      case Pixel(point, invert) => panel.Pixel(point.x, point.y, invert);
      case Line(from, to, invert) => panel.Line(from.x, from.y, to.x, to.y, invert);
      case ShowBuffer => panel.ShowBuffer();
    }
  }

  /** Main result: over any run of proper calls from power-on, with the RAM's contents unknown, on either bus and
      either way up, an up-to-date run ends with the RAM equal to the shadow. */
  method Session(pages: nat, flip: bool, spi: bool, font: Font, ctrl: Controller, calls: seq<Call>)
    returns (panel: Panel)
    requires 1 <= pages <= PAGES && ValidFont(font) && ctrl.Valid()
    requires forall i :: 0 <= i < |calls| ==> Proper(calls[i], pages)
    modifies ctrl`page, ctrl`column, ctrl.ram
    ensures panel.Valid() && panel.pages == pages && panel.flip == flip && panel.ctrl == ctrl
    ensures UpToDate(calls) ==> panel.Synced()
  {
    panel := new Panel(pages, flip, spi, font, ctrl);
    assert calls[..0] == [];
    for i := 0 to |calls|
      invariant Scrollable(panel)
      invariant UpToDate(calls[..i]) ==> panel.Synced()
    {
      hide Shows, Proper, ShowsAll, ShadowOnly;
      var before, done := calls[..i], calls[..i + 1];
      assert done[|done| - 1] == calls[i] && done[..|done| - 1] == before;
      Perform(panel, calls[i]);
    }
    assert calls[..|calls|] == calls;
  }

  /** After a clear_screen, any calls but the three that draw on the shadow alone keep the glass up to date. */
  lemma {:induction false} ClearedStaysUpToDate(calls: seq<Call>)
    requires calls != [] && calls[0].ClearScreen?
    requires forall i :: 0 <= i < |calls| ==> !ShadowOnly(calls[i])
    ensures UpToDate(calls)
    decreases |calls|
  {
    if |calls| > 1 {
      ClearedStaysUpToDate(calls[..|calls| - 1]);
    }
  }

  /** Main result: any sequence of full-range scrolls moves the picture on the torus by the net displacement, and a
      delay of zero or more shows it. */
  method WrapAll(panel: Panel, moves: seq<OledPicture.Move>, delay: int)
    requires panel.Valid() && moves != []
    modifies panel.segs, panel.ctrl`page, panel.ctrl`column, panel.ctrl.ram
    ensures PictureOf(panel.Bytes(), panel.flip) ==
              OledPicture.Translate(old(PictureOf(panel.Bytes(), panel.flip)), OledPicture.NetX(moves),
                                    OledPicture.NetY(moves),
                                    COLUMNS, 8 * panel.pages)
    ensures delay >= 0 ==> panel.Synced()
  {
    ghost var w, h := COLUMNS, 8 * panel.pages;
    ghost var was := PictureOf(panel.Bytes(), panel.flip);
    OledPicture.MovesTranslate(was, moves, w, h);
    assert moves[0..] == moves;
    hide PictureOf, OledPicture.Apply, OledPicture.Translate, OledPicture.Rect, Wrapped, Shows;
    for i := 0 to |moves|
      invariant OledPicture.Rect(PictureOf(panel.Bytes(), panel.flip), w, h)
      invariant OledPicture.ApplyAll(PictureOf(panel.Bytes(), panel.flip), moves[i..], w, h) ==
                OledPicture.ApplyAll(was, moves, w, h)
      invariant i > 0 && delay >= 0 ==> panel.Synced()
    {
      assert moves[i..][0] == moves[i] && moves[i..][1..] == moves[i + 1..];
      ghost var before := panel.Bytes();
      panel.WrapArround(moves[i], 0, if moves[i].Right? || moves[i].Left? then panel.pages - 1 else COLUMNS - 1, delay);
      WrappedPicture(moves[i], before, panel.Bytes(), panel.flip,
                     if moves[i].Right? || moves[i].Left? then panel.pages - 1 else COLUMNS - 1);
    }
  }

  /** Main result: a scroll over any range and back gives every byte of the shadow back. */
  method WrapBack(panel: Panel, scroll: OledPicture.Move, start: nat, end: int, delay: int)
    requires panel.Valid()
    modifies panel.segs, panel.ctrl`page, panel.ctrl`column, panel.ctrl.ram
    ensures panel.Bytes() == old(panel.Bytes())
    ensures delay >= 0 ==> panel.Synced()
    ensures delay < 0 ==> panel.ctrl.Ram() == old(panel.ctrl.Ram())
  {
    hide Wrapped, Shows;
    ghost var was := panel.Bytes();
    panel.WrapArround(scroll, start, end, delay);
    ghost var there := panel.Bytes();
    panel.WrapArround(Opposite(scroll), start, end, delay);
    WrappedBack(scroll, was, there, panel.Bytes(), panel.flip, start, end);
  }
}
