/** The picture on the panel as columns of lit and dark pixels, and what the four wrap-around scrolls do to
    it: inverses, periods, conservation, and their composition as translations of a torus. */
module OledPicture {
  import opened Arith

  type Column = seq<bool>
  type Picture = seq<Column>

  /** `w` columns of `h` pixels. */
  ghost predicate Rect(pic: Picture, w: nat, h: nat) {
    |pic| == w && forall x :: 0 <= x < w ==> |pic[x]| == h
  }

  // --- One pixel up and one pixel down --------------------------------------------------------------

  function RotUp(col: Column): Column {
    if col == [] then [] else col[1..] + [col[0]]
  }

  function RotDown(col: Column): Column {
    if col == [] then [] else [col[|col| - 1]] + col[..|col| - 1]
  }

  /** SCROLL_UP of the columns `start`..`end`. */
  function ScrollUp(pic: Picture, start: int, end: int): Picture {
    seq(|pic|, x requires 0 <= x < |pic| => if start <= x <= end then RotUp(pic[x]) else pic[x])
  }

  /** SCROLL_DOWN of the columns `start`..`end`. */
  function ScrollDown(pic: Picture, start: int, end: int): Picture {
    seq(|pic|, x requires 0 <= x < |pic| => if start <= x <= end then RotDown(pic[x]) else pic[x])
  }

  lemma RotInverse(col: Column)
    ensures RotDown(RotUp(col)) == col && RotUp(RotDown(col)) == col
  {
    if col != [] {
      var up, down := RotUp(col), RotDown(col);
      assert up[..|up| - 1] == col[1..] && up[|up| - 1] == col[0];
      assert down[1..] == col[..|col| - 1] && down[0] == col[|col| - 1];
    }
  }

  /** Main result: the vertical scrolls undo each other on any column range. */
  lemma VerticalInverse(pic: Picture, start: int, end: int)
    ensures ScrollDown(ScrollUp(pic, start, end), start, end) == pic
    ensures ScrollUp(ScrollDown(pic, start, end), start, end) == pic
  {
    forall x | 0 <= x < |pic|
      ensures ScrollDown(ScrollUp(pic, start, end), start, end)[x] == pic[x]
      ensures ScrollUp(ScrollDown(pic, start, end), start, end)[x] == pic[x]
    {
      RotInverse(pic[x]);
    }
  }

  function UpTimes(pic: Picture, start: int, end: int, n: nat): Picture {
    if n == 0 then pic else ScrollUp(UpTimes(pic, start, end, n - 1), start, end)
  }

  lemma {:induction false} UpTimesColumn(pic: Picture, start: int, end: int, n: nat, x: nat)
    requires x < |pic| && n <= |pic[x]|
    ensures |UpTimes(pic, start, end, n)| == |pic|
    ensures UpTimes(pic, start, end, n)[x] == if start <= x <= end then pic[x][n..] + pic[x][..n] else pic[x]
  {
    if n == 0 {
      assert pic[x][0..] + pic[x][..0] == pic[x];
    } else {
      UpTimesColumn(pic, start, end, n - 1, x);
      var was := UpTimes(pic, start, end, n - 1);
      if start <= x <= end {
        var col := pic[x][n - 1..] + pic[x][..n - 1];
        assert was[x] == col;
        assert RotUp(col) == pic[x][n..] + pic[x][..n];
      }
    }
  }

  /** Main result: as many scrolls as the picture is high restore it. */
  lemma VerticalPeriod(pic: Picture, start: int, end: int, w: nat, h: nat)
    requires Rect(pic, w, h)
    ensures UpTimes(pic, start, end, h) == pic
  {
    if w == 0 {
      UpTimesEmpty(pic, start, end, h);
    } else {
      UpTimesColumn(pic, start, end, h, 0);
      forall x | 0 <= x < w
        ensures UpTimes(pic, start, end, h)[x] == pic[x]
      {
        UpTimesColumn(pic, start, end, h, x);
        assert pic[x][h..] + pic[x][..h] == pic[x];
      }
    }
  }

  lemma {:induction false} UpTimesEmpty(pic: Picture, start: int, end: int, n: nat)
    requires pic == []
    ensures UpTimes(pic, start, end, n) == []
  {
    if n > 0 {
      UpTimesEmpty(pic, start, end, n - 1);
    }
  }

  function LitIn(col: Column): nat {
    if col == [] then 0 else (if col[0] then 1 else 0) + LitIn(col[1..])
  }

  function Lit(pic: Picture): nat {
    if pic == [] then 0 else LitIn(pic[0]) + Lit(pic[1..])
  }

  lemma {:induction false} LitAppend(a: Column, b: bool)
    ensures LitIn(a + [b]) == LitIn(a) + if b then 1 else 0
  {
    if a == [] {
      assert a + [b] == [b] && [b][1..] == [];
    } else {
      LitAppend(a[1..], b);
      assert (a + [b])[1..] == a[1..] + [b];
    }
  }

  lemma LitRotate(col: Column)
    ensures LitIn(RotUp(col)) == LitIn(col) && LitIn(RotDown(col)) == LitIn(col)
  {
    if col != [] {
      LitAppend(col[1..], col[0]);
      var last := |col| - 1;
      LitAppend(col[..last], col[last]);
      assert col[..last] + [col[last]] == col;
      assert RotDown(col)[1..] == col[..last];
    }
  }

  lemma {:induction false} LitPointwise(a: Picture, b: Picture)
    requires |a| == |b| && forall x :: 0 <= x < |a| ==> LitIn(a[x]) == LitIn(b[x])
    ensures Lit(a) == Lit(b)
  {
    if a != [] {
      LitPointwise(a[1..], b[1..]);
    }
  }

  /** Main result: the vertical scrolls conserve lit pixels. */
  lemma VerticalConserves(pic: Picture, start: int, end: int)
    ensures Lit(ScrollUp(pic, start, end)) == Lit(pic) && Lit(ScrollDown(pic, start, end)) == Lit(pic)
  {
    forall x | 0 <= x < |pic|
      ensures LitIn(ScrollUp(pic, start, end)[x]) == LitIn(pic[x])
      ensures LitIn(ScrollDown(pic, start, end)[x]) == LitIn(pic[x])
    {
      LitRotate(pic[x]);
    }
    LitPointwise(ScrollUp(pic, start, end), pic);
    LitPointwise(ScrollDown(pic, start, end), pic);
  }

  // --- One pixel right and one pixel left ------------------------------------------------------------

  /** Pixels of the pages `start`..`end` come from `shift` columns to the left, around the edge. */
  ghost function ScrollAcross(pic: Picture, start: int, end: int, shift: int, w: nat, h: nat): (r: Picture)
    requires Rect(pic, w, h)
    ensures Rect(r, w, h)
  {
    seq(w, x requires 0 <= x < w =>
      seq(h, y requires 0 <= x < w && 0 <= y < h =>
        if start <= y / 8 <= end then pic[Wrap(x - shift, w)][y] else pic[x][y]))
  }

  /** SCROLL_RIGHT, and SCROLL_LEFT, of the pages `start`..`end`. */
  ghost function ScrollRight(pic: Picture, start: int, end: int, w: nat, h: nat): (r: Picture)
    requires Rect(pic, w, h)
    ensures Rect(r, w, h)
  {
    ScrollAcross(pic, start, end, 1, w, h)
  }

  ghost function ScrollLeft(pic: Picture, start: int, end: int, w: nat, h: nat): (r: Picture)
    requires Rect(pic, w, h)
    ensures Rect(r, w, h)
  {
    ScrollAcross(pic, start, end, -1, w, h)
  }

  lemma SamePicture(a: Picture, b: Picture, w: nat, h: nat)
    requires Rect(a, w, h) && Rect(b, w, h)
    requires forall x, y :: 0 <= x < w && 0 <= y < h ==> a[x][y] == b[x][y]
    ensures a == b
  {
    forall x | 0 <= x < w
      ensures a[x] == b[x]
    {
      assert forall y :: 0 <= y < h ==> a[x][y] == b[x][y];
    }
  }

  lemma AcrossPixel(pic: Picture, start: int, end: int, shift: int, w: nat, h: nat, x: nat, y: nat)
    requires Rect(pic, w, h) && x < w && y < h
    ensures ScrollAcross(pic, start, end, shift, w, h)[x][y] ==
              pic[if start <= y / 8 <= end then Wrap(x - shift, w) else x][y]
  {
    hide Wrap;
  }

  lemma AcrossCompose(pic: Picture, start: int, end: int, a: int, b: int, w: nat, h: nat)
    requires Rect(pic, w, h)
    ensures ScrollAcross(ScrollAcross(pic, start, end, a, w, h), start, end, b, w, h) ==
              ScrollAcross(pic, start, end, a + b, w, h)
  {
    hide ScrollAcross;
    var twice := ScrollAcross(ScrollAcross(pic, start, end, a, w, h), start, end, b, w, h);
    var sum := ScrollAcross(pic, start, end, a + b, w, h);
    forall x, y | 0 <= x < w && 0 <= y < h
      ensures twice[x][y] == sum[x][y]
    {
      AcrossTwice(pic, start, end, a, b, w, h, x, y);
    }
    SamePicture(twice, sum, w, h);
  }

  lemma AcrossTwice(pic: Picture, start: int, end: int, a: int, b: int, w: nat, h: nat, x: nat, y: nat)
    requires Rect(pic, w, h) && x < w && y < h
    ensures ScrollAcross(ScrollAcross(pic, start, end, a, w, h), start, end, b, w, h)[x][y] ==
              ScrollAcross(pic, start, end, a + b, w, h)[x][y]
  {
    hide ScrollAcross, Wrap;
    var once := ScrollAcross(pic, start, end, a, w, h);
    AcrossPixel(once, start, end, b, w, h, x, y);
    AcrossPixel(pic, start, end, a + b, w, h, x, y);
    if start <= y / 8 <= end {
      AcrossPixel(pic, start, end, a, w, h, Wrap(x - b, w), y);
      WrapSub(x - b, a, w);
      assert x - b - a == x - (a + b);
    } else {
      AcrossPixel(pic, start, end, a, w, h, x, y);
    }
  }

  lemma AcrossNone(pic: Picture, start: int, end: int, w: nat, h: nat)
    requires Rect(pic, w, h)
    ensures ScrollAcross(pic, start, end, 0, w, h) == pic
  {
    hide ScrollAcross, Wrap;
    var still := ScrollAcross(pic, start, end, 0, w, h);
    forall x, y | 0 <= x < w && 0 <= y < h
      ensures still[x][y] == pic[x][y]
    {
      WrapNear(x, w);
      AcrossPixel(pic, start, end, 0, w, h, x, y);
    }
    SamePicture(still, pic, w, h);
  }

  /** Main result: the horizontal scrolls undo each other on any page range. */
  lemma HorizontalInverse(pic: Picture, start: int, end: int, w: nat, h: nat)
    requires Rect(pic, w, h)
    ensures ScrollLeft(ScrollRight(pic, start, end, w, h), start, end, w, h) == pic
    ensures ScrollRight(ScrollLeft(pic, start, end, w, h), start, end, w, h) == pic
  {
    AcrossCompose(pic, start, end, 1, -1, w, h);
    AcrossCompose(pic, start, end, -1, 1, w, h);
    AcrossNone(pic, start, end, w, h);
  }

  // --- The torus -----------------------------------------------------------------------------------------

  /** Every pixel moves `dx` columns right and `dy` rows down, around both edges. */
  ghost function Translate(pic: Picture, dx: int, dy: int, w: nat, h: nat): (r: Picture)
    requires Rect(pic, w, h)
    ensures Rect(r, w, h)
  {
    seq(w, x requires 0 <= x < w =>
      seq(h, y requires 0 <= x < w && 0 <= y < h => pic[Wrap(x - dx, w)][Wrap(y - dy, h)]))
  }

  lemma TranslatePixel(pic: Picture, dx: int, dy: int, w: nat, h: nat, x: nat, y: nat)
    requires Rect(pic, w, h) && x < w && y < h
    ensures Translate(pic, dx, dy, w, h)[x][y] == pic[Wrap(x - dx, w)][Wrap(y - dy, h)]
  {
    hide Wrap;
  }

  lemma TranslateCompose(pic: Picture, a: int, b: int, c: int, d: int, w: nat, h: nat)
    requires Rect(pic, w, h)
    ensures Translate(Translate(pic, a, b, w, h), c, d, w, h) == Translate(pic, a + c, b + d, w, h)
  {
    hide Translate, Wrap;
    var once := Translate(pic, a, b, w, h);
    var twice := Translate(once, c, d, w, h);
    var sum := Translate(pic, a + c, b + d, w, h);
    forall x, y | 0 <= x < w && 0 <= y < h
      ensures twice[x][y] == sum[x][y]
    {
      TranslatePixel(once, c, d, w, h, x, y);
      TranslatePixel(pic, a, b, w, h, Wrap(x - c, w), Wrap(y - d, h));
      TranslatePixel(pic, a + c, b + d, w, h, x, y);
      WrapSub(x - c, a, w);
      WrapSub(y - d, b, h);
      assert x - c - a == x - (a + c) && y - d - b == y - (b + d);
    }
    SamePicture(twice, sum, w, h);
  }

  datatype Move = Right | Left | Up | Down

  /** A scroll over the full range, as the driver performs it. */
  ghost function Apply(pic: Picture, m: Move, w: nat, h: nat): (r: Picture)
    requires Rect(pic, w, h)
    ensures Rect(r, w, h)
  {
    match m
    case Right => ScrollRight(pic, 0, h / 8, w, h)
    case Left => ScrollLeft(pic, 0, h / 8, w, h)
    case Up => ScrollUp(pic, 0, w - 1)
    case Down => ScrollDown(pic, 0, w - 1)
  }

  function StepX(m: Move): int {
    match m
    case Right => 1
    case Left => -1
    case _ => 0
  }

  function StepY(m: Move): int {
    match m
    case Down => 1
    case Up => -1
    case _ => 0
  }

  lemma MoveAlong(pic: Picture, w: nat, h: nat, x: nat, y: nat)
    requires Rect(pic, w, h) && x < w && y < h
    ensures Apply(pic, Up, w, h)[x][y] == pic[x][if y == h - 1 then 0 else y + 1]
    ensures Apply(pic, Down, w, h)[x][y] == pic[x][if y == 0 then h - 1 else y - 1]
  {
    hide ScrollAcross;
  }

  lemma MoveAcross(pic: Picture, w: nat, h: nat, x: nat, y: nat)
    requires Rect(pic, w, h) && x < w && y < h
    ensures Apply(pic, Right, w, h)[x][y] == pic[Wrap(x - 1, w)][y]
    ensures Apply(pic, Left, w, h)[x][y] == pic[Wrap(x + 1, w)][y]
  {
    AcrossPixel(pic, 0, h / 8, 1, w, h, x, y);
    AcrossPixel(pic, 0, h / 8, -1, w, h, x, y);
    hide Wrap, ScrollAcross, ScrollUp, ScrollDown;
  }

  lemma MovePixel(pic: Picture, m: Move, w: nat, h: nat, x: nat, y: nat)
    requires Rect(pic, w, h) && x < w && y < h
    ensures Apply(pic, m, w, h)[x][y] == pic[Wrap(x - StepX(m), w)][Wrap(y - StepY(m), h)]
  {
    hide Wrap, Apply, Rect;
    WrapNear(x, w);
    WrapNear(y, h);
    MoveAlong(pic, w, h, x, y);
    MoveAcross(pic, w, h, x, y);
  }

  lemma MoveTranslates(pic: Picture, m: Move, w: nat, h: nat)
    requires Rect(pic, w, h)
    ensures Apply(pic, m, w, h) == Translate(pic, StepX(m), StepY(m), w, h)
  {
    hide Apply, Translate, Wrap;
    var moved, shifted := Apply(pic, m, w, h), Translate(pic, StepX(m), StepY(m), w, h);
    forall x, y | 0 <= x < w && 0 <= y < h
      ensures moved[x][y] == shifted[x][y]
    {
      MovePixel(pic, m, w, h, x, y);
      TranslatePixel(pic, StepX(m), StepY(m), w, h, x, y);
    }
    SamePicture(moved, shifted, w, h);
  }

  ghost function ApplyAll(pic: Picture, moves: seq<Move>, w: nat, h: nat): (r: Picture)
    requires Rect(pic, w, h)
    ensures Rect(r, w, h)
    decreases |moves|
  {
    if moves == [] then pic else ApplyAll(Apply(pic, moves[0], w, h), moves[1..], w, h)
  }

  function NetX(moves: seq<Move>): int {
    if moves == [] then 0 else StepX(moves[0]) + NetX(moves[1..])
  }

  function NetY(moves: seq<Move>): int {
    if moves == [] then 0 else StepY(moves[0]) + NetY(moves[1..])
  }

  /** Main result: any sequence of full-range scrolls is one translation of the torus by its net displacement;
      so the order of the scrolls does not matter. */
  lemma {:induction false} MovesTranslate(pic: Picture, moves: seq<Move>, w: nat, h: nat)
    requires Rect(pic, w, h)
    ensures ApplyAll(pic, moves, w, h) == Translate(pic, NetX(moves), NetY(moves), w, h)
    decreases |moves|
  {
    hide Translate, Apply, Rect;
    if moves == [] {
      TranslateNone(pic, w, h);
    } else {
      MovesTranslate(Apply(pic, moves[0], w, h), moves[1..], w, h);
      MoveTranslates(pic, moves[0], w, h);
      TranslateCompose(pic, StepX(moves[0]), StepY(moves[0]), NetX(moves[1..]), NetY(moves[1..]), w, h);
    }
  }

  lemma TranslateNone(pic: Picture, w: nat, h: nat)
    requires Rect(pic, w, h)
    ensures Translate(pic, 0, 0, w, h) == pic
  {
    hide Translate, Wrap;
    var still := Translate(pic, 0, 0, w, h);
    forall x, y | 0 <= x < w && 0 <= y < h
      ensures pic[x][y] == still[x][y]
    {
      WrapNear(x, w);
      WrapNear(y, h);
      TranslatePixel(pic, 0, 0, w, h, x, y);
    }
    SamePicture(pic, still, w, h);
  }

  /** Horizontal and vertical scrolls commute. */
  lemma Commute(pic: Picture, across: Move, along: Move, w: nat, h: nat)
    requires Rect(pic, w, h)
    ensures Apply(Apply(pic, across, w, h), along, w, h) == Apply(Apply(pic, along, w, h), across, w, h)
  {
    hide Translate, Apply, Rect;
    MoveTranslates(pic, across, w, h);
    MoveTranslates(pic, along, w, h);
    MoveTranslates(Apply(pic, across, w, h), along, w, h);
    MoveTranslates(Apply(pic, along, w, h), across, w, h);
    TranslateCompose(pic, StepX(across), StepY(across), StepX(along), StepY(along), w, h);
    TranslateCompose(pic, StepX(along), StepY(along), StepX(across), StepY(across), w, h);
  }
}
