/** The terminal by line and column: what each command does to what stands where, and which pixels show it. */
module TermCells {
  import opened Words
  import opened Options
  import opened TermSpec

  /** What stands in column `x` of line `y`. */
  function CellAt(g: Geometry, cells: seq<Char>, x: int, y: int): Char
    requires g.cols > 0 && OnGrid(g, x, y) && |cells| == g.Cells()
  {
    cells[IdxOf(g, x, y)]
  }

  /** Storing at one place changes that place and no other. */
  lemma StoredCell(g: Geometry, cells: seq<Char>, ch: Char, x: int, y: int, x': int, y': int)
    requires g.cols > 0 && OnGrid(g, x, y) && OnGrid(g, x', y') && |cells| == g.Cells()
    ensures CellAt(g, cells[IdxOf(g, x, y) := ch], x', y') == if x == x' && y == y' then ch else CellAt(g, cells, x', y')
  {
    IdxFacts(g, x, y);
    IdxFacts(g, x', y');
  }

  /** The place lies in a range of lines if its line does. */
  lemma LineOf(g: Geometry, x: int, y: int, n: int)
    requires g.cols > 0 && OnGrid(g, x, y) && 0 <= n <= g.rows
    ensures Idx(g, x, y) < n * g.cols <==> y < n
    ensures y + 1 < g.rows ==> Idx(g, x, y + 1) == Idx(g, x, y) + g.cols
    ensures y > 0 ==> Idx(g, x, y - 1) == Idx(g, x, y) - g.cols
  {
    if y < n { MulOrder(y + 1, n, g.cols); } else { MulOrder(n, y, g.cols); }
    assert (y + 1) * g.cols == y * g.cols + g.cols && (y - 1) * g.cols == y * g.cols - g.cols;
  }

  /** `fbterm_scroll`: every line of the region shows the next one, the last is blank. */
  lemma ScrolledCell(g: Geometry, cells: seq<Char>, top: int, bottom: int, blank: Char, x: int, y: int)
    requires g.cols > 0 && OnGrid(g, x, y) && |cells| == g.Cells() && 0 <= top < bottom <= g.rows && bottom * g.cols <= |cells|
    ensures CellAt(g, Scrolled(cells, g.cols, top, bottom, blank), x, y) ==
            if top <= y < bottom - 1 then CellAt(g, cells, x, y + 1)
            else if y == bottom - 1 then blank else CellAt(g, cells, x, y)
  {
    LineOf(g, x, y, top);
    LineOf(g, x, y, bottom - 1);
    LineOf(g, x, y, bottom);
    LineBounds(g, top, bottom);
    if y + 1 < g.rows { IdxFacts(g, x, y + 1); }
  }

  /** `fbterm_revscroll`: every line of the region shows the one before, the first is blank. */
  lemma RevScrolledCell(g: Geometry, cells: seq<Char>, top: int, bottom: int, blank: Char, x: int, y: int)
    requires g.cols > 0 && OnGrid(g, x, y) && |cells| == g.Cells() && 0 <= top < bottom <= g.rows && bottom * g.cols <= |cells|
    ensures CellAt(g, RevScrolled(cells, g.cols, top, bottom, blank), x, y) ==
            if top < y < bottom then CellAt(g, cells, x, y - 1)
            else if y == top then blank else CellAt(g, cells, x, y)
  {
    LineOf(g, x, y, top);
    LineOf(g, x, y, top + 1);
    LineOf(g, x, y, bottom);
    LineBounds(g, top, bottom);
    if y > 0 { IdxFacts(g, x, y - 1); }
  }

  // ---------- typing ----------

  /** What stands at (x, y) once the letter is in. */
  ghost function WithLetter(g: Geometry, s: Screen, c: int, x: int, y: int): Char
    requires WellFormed(g, s) && OnGrid(g, x, y)
  {
    if x == s.x && y == s.y then Char(c, s.fg, s.bg) else CellAt(g, s.cells, x, y)
  }

  /** Only the letter's place changes. */
  ghost predicate OneCellChanged(g: Geometry, s: Screen, c: int, cells: seq<Char>)
    requires WellFormed(g, s) && |cells| == g.Cells()
  {
    forall x, y {:trigger CellAt(g, cells, x, y)} :: OnGrid(g, x, y) ==> CellAt(g, cells, x, y) == WithLetter(g, s, c, x, y)
  }

  /** The letter goes in and the region moves up: every line shows the next, the last is blank. */
  ghost predicate RegionMovedUp(g: Geometry, s: Screen, c: int, cells: seq<Char>)
    requires WellFormed(g, s) && |cells| == g.Cells()
  {
    forall x, y {:trigger CellAt(g, cells, x, y)} :: OnGrid(g, x, y) ==> CellAt(g, cells, x, y) == MovedUp(g, s, c, x, y)
  }

  ghost function MovedUp(g: Geometry, s: Screen, c: int, x: int, y: int): Char
    requires WellFormed(g, s) && OnGrid(g, x, y)
  {
    if s.top <= y < s.bottom - 1 then WithLetter(g, s, c, x, y + 1)
    else if y == s.bottom - 1 then Char(32, s.fg, s.bg) else WithLetter(g, s, c, x, y)
  }

  /** The letter fills the line, and the cursor may go on to the next. */
  predicate FillsLine(g: Geometry, s: Screen) { s.x + 1 == g.cols && (s.y < s.bottom - 1 || s.scrolls) }

  /**
   What typing a letter means. Filling the region's last line moves the region up and puts the cursor at
   the start of that line; filling another goes on to the next line; elsewhere the cursor advances by one.
   Below the region's last line, too, the region moves up.
   */
  ghost predicate LetterTyped(g: Geometry, s: Screen, c: int, s': Screen)
    requires WellFormed(g, s)
  {
    && |s'.cells| == g.Cells() && s' == s.(cells := s'.cells, x := s'.x, y := s'.y)
    && if FillsLine(g, s) && s.y == s.bottom - 1 then
         s'.x == 0 && s'.y == s.y && RegionMovedUp(g, s, c, s'.cells)
       else if FillsLine(g, s) then
         s'.x == 0 && s'.y == s.y + 1 && OneCellChanged(g, s, c, s'.cells)
       else if s.y == s.bottom then
         s'.x == s.x + 1 && s'.y == s.y - 1 && RegionMovedUp(g, s, c, s'.cells)
       else
         s'.x == s.x + 1 && s'.y == s.y && OneCellChanged(g, s, c, s'.cells)
  }

  lemma TypedIsLetter(g: Geometry, s: Screen, c: int)
    requires WellFormed(g, s)
    ensures LetterTyped(g, s, c, Typed(g, s, c))
  {
    hide Scrolled;
    var cells := if OnGrid(g, s.x, s.y) then s.cells[IdxOf(g, s.x, s.y) := Char(c, s.fg, s.bg)] else s.cells;
    forall x, y | OnGrid(g, x, y) ensures CellAt(g, cells, x, y) == WithLetter(g, s, c, x, y) {
      if OnGrid(g, s.x, s.y) { StoredCell(g, s.cells, Char(c, s.fg, s.bg), s.x, s.y, x, y); }
    }
    var up := Scrolled(cells, g.cols, s.top, s.bottom, Blank(s.fg, s.bg));
    assert OneCellChanged(g, s, c, cells);
    RegionUp(g, s, c, cells);
    hide OneCellChanged, RegionMovedUp, CellAt;
    var r := Typed(g, s, c);
    assert r == s.(cells := r.cells, x := r.x, y := r.y);
    assert FillsLine(g, s) && s.y == s.bottom - 1 ==> r.cells == up && r.x == 0 && r.y == s.y;
    assert FillsLine(g, s) && s.y != s.bottom - 1 ==> r.cells == cells && r.x == 0 && r.y == s.y + 1;
    assert !FillsLine(g, s) && s.y == s.bottom ==> r.cells == up && r.x == s.x + 1 && r.y == s.y - 1;
    assert !FillsLine(g, s) && s.y != s.bottom ==> r.cells == cells && r.x == s.x + 1 && r.y == s.y;
  }

  lemma RegionUp(g: Geometry, s: Screen, c: int, cells: seq<Char>)
    requires WellFormed(g, s) && |cells| == g.Cells() && OneCellChanged(g, s, c, cells)
    ensures RegionMovedUp(g, s, c, Scrolled(cells, g.cols, s.top, s.bottom, Blank(s.fg, s.bg)))
  {
    hide Scrolled, CellAt;
    var up := Scrolled(cells, g.cols, s.top, s.bottom, Blank(s.fg, s.bg));
    forall x, y | OnGrid(g, x, y) ensures CellAt(g, up, x, y) == MovedUp(g, s, c, x, y) {
      ScrolledCell(g, cells, s.top, s.bottom, Blank(s.fg, s.bg), x, y);
    }
  }

  /** Below the region the cursor can leave the grid: filling the screen's last line there moves it past the end. */
  lemma TypedOffGrid(g: Geometry, s: Screen, c: int)
    requires WellFormed(g, s) && OnGrid(g, s.x, s.y)
    ensures Typed(g, s, c).y == g.rows <==> FillsLine(g, s) && s.y == g.rows - 1 && s.bottom < g.rows
  {
    hide Scrolled;
  }

  // ---------- the other commands ----------

  /** Scrolling by command moves the region, blanks one line and leaves the rest and the cursor alone. */
  lemma ScrollCommands(g: Geometry, s: Screen, x: int, y: int)
    requires WellFormed(g, s) && OnGrid(g, x, y)
    ensures var up := After(g, s, ScrollUp);
            && up == s.(cells := up.cells)
            && CellAt(g, up.cells, x, y) == if s.top <= y < s.bottom - 1 then CellAt(g, s.cells, x, y + 1)
                                            else if y == s.bottom - 1 then Char(32, s.fg, s.bg) else CellAt(g, s.cells, x, y)
    ensures var down := After(g, s, ScrollDown);
            && down == s.(cells := down.cells)
            && CellAt(g, down.cells, x, y) == if s.top < y < s.bottom then CellAt(g, s.cells, x, y - 1)
                                              else if y == s.top then Char(32, s.fg, s.bg) else CellAt(g, s.cells, x, y)
  {
    hide Scrolled, RevScrolled, CellAt;
    ScrolledCell(g, s.cells, s.top, s.bottom, Blank(s.fg, s.bg), x, y);
    RevScrolledCell(g, s.cells, s.top, s.bottom, Blank(s.fg, s.bg), x, y);
  }

  /** Erasing blanks every place; the cursor goes home if asked to, else stays. */
  lemma ErasedCell(g: Geometry, s: Screen, home: bool, x: int, y: int)
    requires WellFormed(g, s) && OnGrid(g, x, y)
    ensures var r := After(g, s, Erase(home));
            && CellAt(g, r.cells, x, y) == Char(32, s.fg, s.bg)
            && (if home then r.x == 0 && r.y == 0 else r.x == s.x && r.y == s.y)
  {
  }

  /** Copying changes the target, if both places are on the grid, and nothing else. */
  lemma CopiedCell(g: Geometry, s: Screen, nx: nat, ny: nat, ox: nat, oy: nat, x: int, y: int)
    requires WellFormed(g, s) && OnGrid(g, x, y)
    ensures CellAt(g, After(g, s, Copy(nx, ny, ox, oy)).cells, x, y) ==
            if OnGrid(g, ox, oy) && x == nx && y == ny then CellAt(g, s.cells, ox, oy) else CellAt(g, s.cells, x, y)
  {
    if OnGrid(g, ox, oy) && OnGrid(g, nx, ny) { StoredCell(g, s.cells, CellAt(g, s.cells, ox, oy), nx, ny, x, y); }
  }

  /** The cursor goes where it is sent; too far means the last column or line, a negative `int` the first. */
  lemma MovedCursor(g: Geometry, s: Screen, x: nat, y: nat)
    requires WellFormed(g, s) && g.rows > 0
    ensures var r := After(g, s, MoveTo(x, y));
            && r == s.(x := r.x, y := r.y) && OnGrid(g, r.x, r.y)
            && (x < g.cols ==> r.x == x) && (y < g.rows ==> r.y == y)
            && (g.cols <= x < 0x8000_0000 ==> r.x == g.cols - 1) && (g.rows <= y < 0x8000_0000 ==> r.y == g.rows - 1)
            && (g.cols <= x && 0x8000_0000 <= x < 0x1_0000_0000 ==> r.x == 0)
            && (g.rows <= y && 0x8000_0000 <= y < 0x1_0000_0000 ==> r.y == 0)
  {
  }

  /** A letter typed inside a line after setting colours stands there in these colours. */
  lemma ColouredLetter(g: Geometry, s: Screen, fg: int, bg: int, c: int)
    requires WellFormed(g, s) && OnGrid(g, s.x, s.y) && s.x + 1 < g.cols && s.y != s.bottom
    ensures CellAt(g, AfterAll(g, s, [Colours(fg, bg), Put(c)]).cells, s.x, s.y) == Char(c, fg, bg)
  {
    hide Typed;
    var cmds := [Colours(fg, bg), Put(c)];
    assert cmds[..1] == [Colours(fg, bg)] && cmds[..1][..0] == [];
    assert AfterAll(g, s, cmds[..1]) == After(g, AfterAll(g, s, []), Colours(fg, bg));
    var t := AfterAll(g, s, cmds[..1]);
    TypedIsLetter(g, t, c);
    assert OneCellChanged(g, t, c, Typed(g, t, c).cells);
  }

  // ---------- pixels ----------

  /** Where pixel (i, j) of the cell in column `x` of line `y` lies in the framebuffer. */
  function PixelOf(g: Geometry, x: int, y: int, i: int, j: int): int {
    (g.offsetY + y * (g.fontHeight * g.scaleY) + j) * g.pitch + g.offsetX + x * (g.fontWidth * g.scaleX) + i
  }

  /**
   The full redraw pixel by pixel: foreground where the glyph is set and background where not, the other way
   round under the cursor; a transparent colour shows the canvas.
   */
  lemma RedrawPixel(k: Look, fb: seq<int>, cells: seq<Char>, on: bool, cx: int, cy: int, x: int, y: int, i: int, j: int)
    requires k.g.Fits() && |fb| == k.g.pitch * k.g.height && |cells| == k.g.Cells() && OnGrid(k.g, x, y)
    requires 0 <= i < k.g.fontWidth * k.g.scaleX && 0 <= j < k.g.fontHeight * k.g.scaleY
    ensures var a, ch := PixelOf(k.g, x, y, i, j), CellAt(k.g, cells, x, y);
            var ink := if k.font(ch.c, i / k.g.scaleX, j / k.g.scaleY) != (on && x == cx && y == cy) then ch.fg else ch.bg;
            && 0 <= a < |fb|
            && PlotAll(k, fb, Visible(k.g, cells, on, cx, cy), |cells|)[a] ==
               (if ink == TRANSPARENT then k.canvas(a % k.g.pitch, a / k.g.pitch) else ink)
  {
    hide PlotAll, Geometry.Fits, Geometry.Cells, Visible, ColourAt, CellAt;
    Positive(k.g);
    var a, n := PixelOf(k.g, x, y, i, j), IdxOf(k.g, x, y);
    assert a == Position(k.g, x, y, i, j);
    PositionFacts(k.g, x, y, i, j);
    IdxFacts(k.g, x, y);
    var seen := Visible(k.g, cells, on, cx, cy);
    SeenCell(k.g, cells, on, cx, cy, x, y);
    PlotAllShows(k, fb, seen, |seen|, n);
    assert CellHas(k.g, n, a);
    assert CellColour(k, n, seen[n], a) == ColourAt(k.g, k.font, k.canvas, seen[n], x, y, a);
    InkOf(k, seen[n], x, y, i, j, a);
  }

  /** What is to be seen at (x, y): the character there, inverted under the enabled cursor. */
  lemma SeenCell(g: Geometry, cells: seq<Char>, on: bool, cx: int, cy: int, x: int, y: int)
    requires g.cols > 0 && |cells| == g.Cells() && OnGrid(g, x, y)
    ensures var ch := CellAt(g, cells, x, y);
            Visible(g, cells, on, cx, cy)[IdxOf(g, x, y)] ==
            if on && x == cx && y == cy then Char(ch.c, ch.bg, ch.fg) else ch
  {
    IdxFacts(g, x, y);
    if OnGrid(g, cx, cy) { IdxFacts(g, cx, cy); }
  }

  lemma InkOf(k: Look, ch: Char, x: int, y: int, i: int, j: int, a: int)
    requires k.g.pitch > 0 && k.g.scaleX > 0 && k.g.scaleY > 0
    requires a % k.g.pitch == Left(k.g, x) + i && a / k.g.pitch == Top(k.g, y) + j
    ensures var ink := if k.font(ch.c, i / k.g.scaleX, j / k.g.scaleY) then ch.fg else ch.bg;
            ColourAt(k.g, k.font, k.canvas, ch, x, y, a) ==
            if ink == TRANSPARENT then k.canvas(a % k.g.pitch, a / k.g.pitch) else ink
  {
    hide Left, Top;
  }
}
