/**
 The framebuffer terminal as values: where a character cell lies in the framebuffer, what plotting a
 character does to it, and what the pending queue means.
 */
module TermSpec {
  import opened Options
  import opened Words

  /** A colour of this value lets the canvas show through. */
  const TRANSPARENT: int := 0xffffffff

  datatype Char = Char(c: int, fg: int, bg: int)

  function Inverted(ch: Char): Char { Char(ch.c, ch.bg, ch.fg) }

  datatype Item = Item(x: int, y: int, c: Char)

  /** Sizes in cells and pixels; `pitch` is the framebuffer's line length in pixels. */
  datatype Geometry = Geometry(
    rows: int, cols: int, fontWidth: int, fontHeight: int, scaleX: int, scaleY: int,
    offsetX: int, offsetY: int, width: int, height: int, pitch: int)
  {
    function GlyphWidth(): int { fontWidth * scaleX }

    function GlyphHeight(): int { fontHeight * scaleY }

    function Cells(): int { rows * cols }

    /** The grid and its margins fit the framebuffer, as `fbterm_init` arranges. */
    ghost predicate Fits() {
      && rows > 0 && cols > 0 && fontWidth > 0 && 0 < fontHeight <= 256 && scaleX > 0 && scaleY > 0
      && offsetX >= 0 && offsetY >= 0 && 0 < width <= pitch && height > 0
      && offsetX + cols * GlyphWidth() <= width && offsetY + rows * GlyphHeight() <= height
    }
  }

  /** `font_bool`: is pixel (fx, fy) of glyph `c` set? */
  type Font = (int, int, int) -> bool

  /** What is painted where no cell decides: the canvas, one pixel per framebuffer position. */
  type Canvas = (int, int) -> int

  // ---------- cells ----------

  function Left(g: Geometry, x: int): int { g.offsetX + x * g.GlyphWidth() }

  function Top(g: Geometry, y: int): int { g.offsetY + y * g.GlyphHeight() }

  /** Framebuffer position `a` belongs to cell (x, y). */
  predicate InCell(g: Geometry, x: int, y: int, a: int)
    requires g.pitch > 0
  {
    && Left(g, x) <= a % g.pitch < Left(g, x) + g.GlyphWidth()
    && Top(g, y) <= a / g.pitch < Top(g, y) + g.GlyphHeight()
  }

  /** The colour of glyph pixel (gx, gy) of `ch` over canvas colour `under`. */
  function Colour(g: Geometry, font: Font, ch: Char, gx: int, gy: int, under: int): int
    requires g.scaleX > 0 && g.scaleY > 0
  {
    var bg := if ch.bg == TRANSPARENT then under else ch.bg;
    var fg := if ch.fg == TRANSPARENT then under else ch.fg;
    if font(ch.c, gx / g.scaleX, gy / g.scaleY) then fg else bg
  }

  /** The colour that cell (x, y) holding `ch` has at position `a`. */
  function ColourAt(g: Geometry, font: Font, canvas: Canvas, ch: Char, x: int, y: int, a: int): int
    requires g.pitch > 0 && g.scaleX > 0 && g.scaleY > 0
  {
    Colour(g, font, ch, a % g.pitch - Left(g, x), a / g.pitch - Top(g, y), canvas(a % g.pitch, a / g.pitch))
  }

  /**
   Is glyph pixel (gx, gy) written? Always when plotting afresh; when a character `was` is being
   replaced in the same colours, only where the two glyphs differ.
   */
  predicate Drawn(g: Geometry, font: Font, was: Option<Char>, ch: Char, gx: int, gy: int)
    requires g.scaleX > 0 && g.scaleY > 0
  {
    || was.None?
    || font(was.value.c, gx / g.scaleX, gy / g.scaleY) != font(ch.c, gx / g.scaleX, gy / g.scaleY)
  }

  /** Pixels of cell (x, y) before glyph row `gy`, or in that row and before column `gx`. */
  predicate Reached(g: Geometry, x: int, y: int, gx: int, gy: int, a: int)
    requires g.pitch > 0
  {
    InCell(g, x, y, a) && (a / g.pitch - Top(g, y) < gy || (a / g.pitch - Top(g, y) == gy && a % g.pitch - Left(g, x) < gx))
  }

  /** The framebuffer after plotting `ch` over `was` up to glyph pixel (gx, gy). */
  ghost function PlotTo(g: Geometry, font: Font, canvas: Canvas, fb: seq<int>, was: Option<Char>, ch: Char,
                        x: int, y: int, gx: int, gy: int): (r: seq<int>)
    requires g.pitch > 0 && g.scaleX > 0 && g.scaleY > 0
    ensures |r| == |fb|
  {
    seq(|fb|, a requires 0 <= a < |fb| =>
      if Reached(g, x, y, gx, gy, a) && Drawn(g, font, was, ch, a % g.pitch - Left(g, x), a / g.pitch - Top(g, y))
      then ColourAt(g, font, canvas, ch, x, y, a) else fb[a])
  }

  /** `plot_char` as a whole, and `plot_char_fast` when `was` is given. */
  ghost function Plot(g: Geometry, font: Font, canvas: Canvas, fb: seq<int>, was: Option<Char>, ch: Char,
                      x: int, y: int): (r: seq<int>)
    requires g.pitch > 0 && g.scaleX > 0 && g.scaleY > 0
    ensures |r| == |fb|
  {
    PlotTo(g, font, canvas, fb, was, ch, x, y, 0, g.GlyphHeight())
  }

  /** Where glyph pixel (gx, gy) of cell (x, y) lies. */
  function Position(g: Geometry, x: int, y: int, gx: int, gy: int): int {
    Left(g, x) + gx + (Top(g, y) + gy) * g.pitch
  }

  lemma CellInside(g: Geometry, x: int, y: int)
    requires g.Fits() && 0 <= x < g.cols && 0 <= y < g.rows
    ensures g.GlyphWidth() > 0 && g.GlyphHeight() > 0
    ensures 0 <= Left(g, x) && Left(g, x) + g.GlyphWidth() <= g.pitch
    ensures 0 <= Top(g, y) && Top(g, y) + g.GlyphHeight() <= g.height
  {
    CellInsideLine(g.GlyphWidth(), x, g.cols);
    CellInsideLine(g.GlyphHeight(), y, g.rows);
  }

  lemma CellInsideLine(w: int, x: int, n: int)
    requires w > 0 && 0 <= x < n
    ensures 0 <= x * w && x * w + w <= n * w
  {
    assert (n - x - 1) * w >= 0;
    assert n * w == x * w + w + (n - x - 1) * w;
  }

  /** A position determines its row and column, and lies inside the framebuffer. */
  lemma PositionFacts(g: Geometry, x: int, y: int, gx: int, gy: int)
    requires g.Fits() && 0 <= x < g.cols && 0 <= y < g.rows
    requires 0 <= gx < g.GlyphWidth() && 0 <= gy < g.GlyphHeight()
    ensures var a := Position(g, x, y, gx, gy);
            && a % g.pitch == Left(g, x) + gx && a / g.pitch == Top(g, y) + gy && InCell(g, x, y, a)
            && 0 <= a < g.pitch * g.height
  {
    CellInside(g, x, y);
    var a, r, c := Position(g, x, y, gx, gy), Top(g, y) + gy, Left(g, x) + gx;
    Remainder(a, g.pitch, r, c);
    CellInsideLine(g.pitch, r, g.height);
  }

  /** Writing one more pixel. */
  lemma PlotStep(g: Geometry, font: Font, canvas: Canvas, fb: seq<int>, was: Option<Char>, ch: Char,
                 x: int, y: int, gx: int, gy: int)
    requires g.Fits() && |fb| == g.pitch * g.height && 0 <= x < g.cols && 0 <= y < g.rows
    requires 0 <= gx < g.GlyphWidth() && 0 <= gy < g.GlyphHeight()
    ensures var a := Position(g, x, y, gx, gy);
            && 0 <= a < |fb|
            && PlotTo(g, font, canvas, fb, was, ch, x, y, gx + 1, gy)
            == if Drawn(g, font, was, ch, gx, gy)
               then PlotTo(g, font, canvas, fb, was, ch, x, y, gx, gy)
                    [a := Colour(g, font, ch, gx, gy, canvas(Left(g, x) + gx, Top(g, y) + gy))]
               else PlotTo(g, font, canvas, fb, was, ch, x, y, gx, gy)
  {
    hide Left, Top, Colour, Drawn;
    var a := Position(g, x, y, gx, gy);
    PositionFacts(g, x, y, gx, gy);
    forall b | 0 <= b < |fb| && b != a
      ensures Reached(g, x, y, gx + 1, gy, b) <==> Reached(g, x, y, gx, gy, b)
    {
      DivisionPair(g.pitch, a, b);
    }
  }

  lemma DivisionPair(p: int, a: int, b: int)
    requires p > 0 && a != b
    ensures a / p != b / p || a % p != b % p
  {
    assert a == p * (a / p) + a % p && b == p * (b / p) + b % p;
  }

  /** The end of one glyph row is the beginning of the next. */
  lemma PlotRow(g: Geometry, font: Font, canvas: Canvas, fb: seq<int>, was: Option<Char>, ch: Char,
                x: int, y: int, gy: int)
    requires g.Fits()
    ensures PlotTo(g, font, canvas, fb, was, ch, x, y, g.GlyphWidth(), gy)
         == PlotTo(g, font, canvas, fb, was, ch, x, y, 0, gy + 1)
  {
    hide Left, Top, ColourAt, Drawn;
  }

  lemma PlotStart(g: Geometry, font: Font, canvas: Canvas, fb: seq<int>, was: Option<Char>, ch: Char, x: int, y: int)
    requires g.Fits()
    ensures PlotTo(g, font, canvas, fb, was, ch, x, y, 0, 0) == fb
  {
    hide Left, Top, ColourAt, Drawn;
  }

  lemma {:induction false} OneColumn(w: int, x: int, x': int, c: int)
    requires w > 0 && x * w <= c < x * w + w && x' * w <= c < x' * w + w
    ensures x == x'
  {
    Remainder(c, w, x, c - x * w);
    Remainder(c, w, x', c - x' * w);
  }

  /** Different cells share no pixel. */
  lemma CellsApart(g: Geometry, x: int, y: int, x': int, y': int, a: int)
    requires g.Fits() && InCell(g, x, y, a) && InCell(g, x', y', a)
    ensures x == x' && y == y'
  {
    assert g.GlyphWidth() > 0 && g.GlyphHeight() > 0;
    OneColumn(g.GlyphWidth(), x, x', a % g.pitch - g.offsetX);
    OneColumn(g.GlyphHeight(), y, y', a / g.pitch - g.offsetY);
  }

  /** Scaled column `i` of font column `fx`. */
  lemma ScaledColumn(g: Geometry, fx: int, i: int)
    requires g.Fits() && 0 <= fx < g.fontWidth && 0 <= i < g.scaleX
    ensures 0 <= g.scaleX * fx + i < g.GlyphWidth() && (g.scaleX * fx + i) / g.scaleX == fx
  {
    CellInsideLine(g.scaleX, fx, g.fontWidth);
    Remainder(g.scaleX * fx + i, g.scaleX, fx, i);
  }

  /** A font column where nothing differs is skipped whole. */
  lemma {:induction false} SkipColumn(g: Geometry, font: Font, canvas: Canvas, fb: seq<int>, was: Option<Char>, ch: Char,
                                      x: int, y: int, fx: int, gy: int, i: int)
    requires g.Fits() && |fb| == g.pitch * g.height && 0 <= x < g.cols && 0 <= y < g.rows
    requires 0 <= fx < g.fontWidth && 0 <= gy < g.GlyphHeight() && 0 <= i <= g.scaleX
    requires was.Some? && font(was.value.c, fx, gy / g.scaleY) == font(ch.c, fx, gy / g.scaleY)
    ensures PlotTo(g, font, canvas, fb, was, ch, x, y, g.scaleX * fx + i, gy)
         == PlotTo(g, font, canvas, fb, was, ch, x, y, g.scaleX * fx, gy)
  {
    hide PlotTo;
    if i > 0 {
      SkipColumn(g, font, canvas, fb, was, ch, x, y, fx, gy, i - 1);
      ScaledColumn(g, fx, i - 1);
      PlotStep(g, font, canvas, fb, was, ch, x, y, g.scaleX * fx + i - 1, gy);
    }
  }

  lemma Positive(g: Geometry)
    requires g.Fits()
    ensures g.rows > 0 && g.cols > 0 && g.fontWidth > 0 && g.scaleX > 0 && g.scaleY > 0 && g.pitch > 0
  {
  }

  lemma NextColumn(w: int, x: int)
    ensures w * x + w == w * (x + 1)
  {
  }

  // ---------- cells in order ----------

  function Idx(g: Geometry, x: int, y: int): int { y * g.cols + x }

  predicate OnGrid(g: Geometry, x: int, y: int) { 0 <= x < g.cols && 0 <= y < g.rows }

  lemma IdxFacts(g: Geometry, x: int, y: int)
    requires g.cols > 0 && OnGrid(g, x, y)
    ensures 0 <= Idx(g, x, y) < g.Cells() && Idx(g, x, y) % g.cols == x && Idx(g, x, y) / g.cols == y
  {
    Remainder(Idx(g, x, y), g.cols, y, x);
    CellInsideLine(g.cols, y, g.rows);
  }

  lemma CellOfIdx(g: Geometry, i: int)
    requires g.cols > 0 && 0 <= i < g.Cells()
    ensures OnGrid(g, i % g.cols, i / g.cols) && Idx(g, i % g.cols, i / g.cols) == i
  {
    var x, y := i % g.cols, i / g.cols;
    assert i == y * g.cols + x;
    if y >= g.rows { MulOrder(g.rows, y, g.cols); }
    if y < 0 { MulOrder(y, -1, g.cols); }
  }

  lemma MulOrder(x: int, y: int, w: int)
    requires x <= y && w > 0
    ensures x * w <= y * w
  {
    assert (y - x) * w >= 0;
    assert y * w == x * w + (y - x) * w;
  }

  // ---------- pending changes ----------

  ghost predicate ItemOk(g: Geometry, queue: seq<Item>, qmap: seq<int>, k: int)
    requires 0 <= k < |queue|
  {
    && OnGrid(g, queue[k].x, queue[k].y)
    && 0 <= Idx(g, queue[k].x, queue[k].y) < |qmap| && qmap[Idx(g, queue[k].x, queue[k].y)] == k
  }

  ghost predicate SlotOk(g: Geometry, queue: seq<Item>, qmap: seq<int>, qi: int, i: int)
    requires 0 <= i < |qmap|
  {
    qmap[i] != -1 ==> 0 <= qmap[i] < qi <= |queue| && Idx(g, queue[qmap[i]].x, queue[qmap[i]].y) == i
  }

  /** Queue and map describe the same pending changes, at most one per cell. */
  ghost predicate Pending(g: Geometry, queue: seq<Item>, qmap: seq<int>, qi: int) {
    && |queue| == g.Cells() && |qmap| == g.Cells() && 0 <= qi <= g.Cells()
    && (forall k {:trigger ItemOk(g, queue, qmap, k)} :: 0 <= k < qi ==> ItemOk(g, queue, qmap, k))
    && (forall i {:trigger SlotOk(g, queue, qmap, qi, i)} :: 0 <= i < |qmap| ==> SlotOk(g, queue, qmap, qi, i))
  }

  /** The cells as the user sees them: pending changes over the grid. */
  ghost function Logical(grid: seq<Char>, queue: seq<Item>, qmap: seq<int>): (r: seq<Char>)
    ensures |r| == |grid|
  {
    seq(|grid|, i requires 0 <= i < |grid| =>
      if i < |qmap| && 0 <= qmap[i] < |queue| then queue[qmap[i]].c else grid[i])
  }

  lemma {:induction false} DistinctElements(f: seq<int>, n: nat)
    requires forall k :: 0 <= k < |f| ==> 0 <= f[k] < n
    requires forall j, k :: 0 <= j < k < |f| ==> f[j] != f[k]
    ensures |f| <= n
    decreases n
  {
    if |f| > 0 {
      assert 0 <= f[0] < n;
      if n - 1 in f {
        var k :| 0 <= k < |f| && f[k] == n - 1;
        DistinctElements(f[..k] + f[k + 1..], n - 1);
      } else {
        DistinctElements(f, n - 1);
      }
    }
  }

  /** A cell without a pending change leaves room in the queue. */
  lemma RoomForOne(g: Geometry, queue: seq<Item>, qmap: seq<int>, qi: int, i: int)
    requires Pending(g, queue, qmap, qi) && 0 <= i < |qmap| && qmap[i] == -1
    ensures qi < g.Cells()
  {
    var f := seq(qi, k requires 0 <= k < qi => Idx(g, queue[k].x, queue[k].y)) + [i];
    forall k | 0 <= k < qi ensures 0 <= f[k] < g.Cells() && f[k] != i && qmap[f[k]] == k {
      assert ItemOk(g, queue, qmap, k);
    }
    DistinctElements(f, g.Cells());
  }

  /** `push_to_queue` on values: a new item, or a new character in the item already there. */
  lemma PushNew(g: Geometry, grid: seq<Char>, queue: seq<Item>, qmap: seq<int>, qi: int, c: Char, x: int, y: int)
    requires g.cols > 0 && Pending(g, queue, qmap, qi) && |grid| == g.Cells() && OnGrid(g, x, y)
    requires qmap[IdxOf(g, x, y)] == -1
    ensures 0 <= qi < g.Cells()
    ensures var queue', qmap' := queue[qi := Item(x, y, c)], qmap[Idx(g, x, y) := qi];
            && Pending(g, queue', qmap', qi + 1)
            && Logical(grid, queue', qmap') == Logical(grid, queue, qmap)[Idx(g, x, y) := c]
  {
    hide Idx;
    var i := IdxOf(g, x, y);
    RoomForOne(g, queue, qmap, qi, i);
    var queue', qmap', qi' := queue[qi := Item(x, y, c)], qmap[i := qi], qi + 1;
    forall k | 0 <= k < qi' ensures ItemOk(g, queue', qmap', k) {
      if k < qi { assert ItemOk(g, queue, qmap, k); }
    }
    forall j | 0 <= j < |qmap'| ensures SlotOk(g, queue', qmap', qi', j) { assert SlotOk(g, queue, qmap, qi, j); }
    forall j | 0 <= j < |grid| ensures Logical(grid, queue', qmap')[j] == Logical(grid, queue, qmap)[i := c][j] {
      assert SlotOk(g, queue, qmap, qi, j);
    }
  }

  function IdxOf(g: Geometry, x: int, y: int): (i: int)
    requires g.cols > 0 && OnGrid(g, x, y)
    ensures i == Idx(g, x, y) && 0 <= i < g.Cells()
  {
    IdxFacts(g, x, y);
    Idx(g, x, y)
  }

  lemma PushAgain(g: Geometry, grid: seq<Char>, queue: seq<Item>, qmap: seq<int>, qi: int, c: Char, i: int)
    requires g.cols > 0 && Pending(g, queue, qmap, qi) && |grid| == g.Cells() && 0 <= i < |qmap| && qmap[i] != -1
    ensures 0 <= qmap[i] < qi <= |queue|
    ensures var queue' := queue[qmap[i] := queue[qmap[i]].(c := c)];
            Pending(g, queue', qmap, qi) && Logical(grid, queue', qmap) == Logical(grid, queue, qmap)[i := c]
  {
    hide Idx;
    assert SlotOk(g, queue, qmap, qi, i);
    var queue' := queue[qmap[i] := queue[qmap[i]].(c := c)];
    forall k | 0 <= k < qi ensures ItemOk(g, queue', qmap, k) { assert ItemOk(g, queue, qmap, k); }
    forall j | 0 <= j < |qmap| ensures SlotOk(g, queue', qmap, qi, j) { assert SlotOk(g, queue, qmap, qi, j); }
    forall j | 0 <= j < |grid| ensures Logical(grid, queue', qmap)[j] == Logical(grid, queue, qmap)[i := c][j] {
      assert SlotOk(g, queue, qmap, qi, j);
    }
  }

  lemma LogicalAt(grid: seq<Char>, queue: seq<Item>, qmap: seq<int>, i: int)
    requires 0 <= i < |grid| == |qmap|
    ensures qmap[i] == -1 ==> Logical(grid, queue, qmap)[i] == grid[i]
    ensures 0 <= qmap[i] < |queue| ==> Logical(grid, queue, qmap)[i] == queue[qmap[i]].c
  {
  }

  // ---------- what the operations do to the cells ----------

  function Blank(fg: int, bg: int): Char { Char(' ' as int, fg, bg) }

  /** Lines [top, bottom) move up by one and the last of them becomes blank. */
  function Scrolled(cells: seq<Char>, cols: int, top: int, bottom: int, blank: Char): (r: seq<Char>)
    requires 0 <= cols && 0 <= top < bottom && bottom * cols <= |cells|
    ensures |r| == |cells|
  {
    seq(|cells|, i requires 0 <= i < |cells| =>
      if top * cols <= i < (bottom - 1) * cols && i + cols < |cells| then cells[i + cols]
      else if (bottom - 1) * cols <= i < bottom * cols then blank
      else cells[i])
  }

  /** Lines [top, bottom) move down by one and the first of them becomes blank. */
  function RevScrolled(cells: seq<Char>, cols: int, top: int, bottom: int, blank: Char): (r: seq<Char>)
    requires 0 <= cols && 0 <= top < bottom && bottom * cols <= |cells|
    ensures |r| == |cells|
  {
    seq(|cells|, i requires 0 <= i < |cells| =>
      if (top + 1) * cols <= i < bottom * cols && 0 <= i - cols then cells[i - cols]
      else if top * cols <= i < (top + 1) * cols then blank
      else cells[i])
  }

  /** Lines as index ranges. */
  lemma LineBounds(g: Geometry, top: int, bottom: int)
    requires g.cols > 0 && 0 <= top < bottom <= g.rows
    ensures 0 <= top * g.cols && (top + 1) * g.cols == top * g.cols + g.cols
    ensures (bottom - 1) * g.cols == bottom * g.cols - g.cols
    ensures (top + 1) * g.cols <= bottom * g.cols <= g.Cells()
  {
    MulOrder(0, top, g.cols);
    MulOrder(top + 1, bottom, g.cols);
    MulOrder(bottom, g.rows, g.cols);
  }

  // The loops behind the operations, up to cell `n`.

  ghost function Blanked(cells: seq<Char>, lo: int, n: int, blank: Char): (r: seq<Char>)
    ensures |r| == |cells|
  {
    seq(|cells|, j requires 0 <= j < |cells| => if lo <= j < n then blank else cells[j])
  }

  ghost function ShiftedUp(cells: seq<Char>, cols: int, lo: int, n: int): (r: seq<Char>)
    ensures |r| == |cells|
  {
    seq(|cells|, j requires 0 <= j < |cells| => if lo <= j < n && 0 <= j + cols < |cells| then cells[j + cols] else cells[j])
  }

  ghost function ShiftedDown(cells: seq<Char>, cols: int, n: int, hi: int): (r: seq<Char>)
    ensures |r| == |cells|
  {
    seq(|cells|, j requires 0 <= j < |cells| => if n <= j < hi && 0 <= j - cols < |cells| then cells[j - cols] else cells[j])
  }

  lemma BlankStep(cells: seq<Char>, lo: int, n: int, blank: Char)
    requires 0 <= lo <= n < |cells|
    ensures Blanked(cells, lo, n + 1, blank) == Blanked(cells, lo, n, blank)[n := blank]
  {
  }

  lemma BlankNothing(cells: seq<Char>, lo: int, blank: Char)
    ensures Blanked(cells, lo, lo, blank) == cells
  {
  }

  lemma UpStep(cells: seq<Char>, cols: int, lo: int, n: int)
    requires 0 < cols && 0 <= lo <= n && n + cols < |cells|
    ensures ShiftedUp(cells, cols, lo, n)[n + cols] == cells[n + cols]
    ensures ShiftedUp(cells, cols, lo, n + 1) == ShiftedUp(cells, cols, lo, n)[n := cells[n + cols]]
  {
  }

  lemma DownStep(cells: seq<Char>, cols: int, n: int, hi: int)
    requires 0 < cols < n <= hi <= |cells| && cols <= n - 1
    ensures ShiftedDown(cells, cols, n, hi)[n - 1 - cols] == cells[n - 1 - cols]
    ensures ShiftedDown(cells, cols, n - 1, hi) == ShiftedDown(cells, cols, n, hi)[n - 1 := cells[n - 1 - cols]]
  {
  }

  lemma ShiftNothing(cells: seq<Char>, cols: int, n: int)
    ensures ShiftedUp(cells, cols, n, n) == cells && ShiftedDown(cells, cols, n, n) == cells
  {
  }

  lemma ScrolledIs(cells: seq<Char>, g: Geometry, top: int, bottom: int, blank: Char)
    requires g.cols > 0 && 0 <= top < bottom <= g.rows && |cells| == g.Cells()
    ensures var lo, hi := top * g.cols, bottom * g.cols;
            && 0 <= lo && lo + g.cols <= hi <= |cells|
            && Scrolled(cells, g.cols, top, bottom, blank)
            == Blanked(ShiftedUp(cells, g.cols, lo, hi - g.cols), hi - g.cols, hi, blank)
  {
    LineBounds(g, top, bottom);
  }

  /** The index that `fbterm_revscroll` reads in turn `t`: it counts down, in 64 bits, from the last cell to move. */
  function RevScrollReads(g: Geometry, bottom: int, t: nat): int { ((bottom - 1) * g.cols - 1 - t) % TWO64 }

  /** Turn `t` happens: no turn before it met the first cell of the region, where alone the loop stops. */
  ghost predicate RevScrollTurn(g: Geometry, top: int, bottom: int, t: nat) {
    forall u: nat {:trigger RevScrollReads(g, bottom, u)} :: u < t ==> RevScrollReads(g, bottom, u) != top * g.cols
  }

  /** Every cell it reads belongs to the region. */
  ghost predicate RevScrollStays(g: Geometry, top: int, bottom: int) {
    forall t: nat {:trigger RevScrollReads(g, bottom, t)} :: RevScrollTurn(g, top, bottom, t)
      ==> top * g.cols <= RevScrollReads(g, bottom, t) < bottom * g.cols
  }

  /**
   The loop stays in its region if and only if the region has two lines. With one line it starts before the
   region, and in turn top * cols it reads index 2^64 - 1, which is no cell.
   */
  lemma RevScrollStopsInRegion(g: Geometry, top: int, bottom: int)
    requires g.cols > 0 && 0 <= top < bottom <= g.rows && g.Cells() < TWO64
    ensures RevScrollStays(g, top, bottom) <==> top + 1 < bottom
    ensures top + 1 == bottom ==> 0 <= top * g.cols && RevScrollTurn(g, top, bottom, top * g.cols)
                                  && RevScrollReads(g, bottom, top * g.cols) == TWO64 - 1 >= g.Cells()
  {
    LineBounds(g, top, bottom);
    var lo := top * g.cols;
    if top + 1 < bottom {
      LineBounds(g, top, bottom - 1);
      var first := (bottom - 1) * g.cols - 1;
      Remainder(lo, TWO64, 0, lo);
      assert RevScrollReads(g, bottom, first - lo) == lo;
      forall t: nat | RevScrollTurn(g, top, bottom, t) ensures lo <= RevScrollReads(g, bottom, t) < bottom * g.cols {
        Remainder(first - t, TWO64, 0, first - t);
      }
    } else {
      forall u: nat | u < lo ensures RevScrollReads(g, bottom, u) != lo { Remainder(lo - 1 - u, TWO64, 0, lo - 1 - u); }
      Remainder(-1, TWO64, -1, TWO64 - 1);
      assert RevScrollTurn(g, top, bottom, lo);
      assert !(RevScrollReads(g, bottom, lo) < bottom * g.cols);
    }
  }

  lemma RevScrolledIs(cells: seq<Char>, g: Geometry, top: int, bottom: int, blank: Char)
    requires g.cols > 0 && 0 <= top < bottom <= g.rows && |cells| == g.Cells()
    ensures var lo, hi := top * g.cols, bottom * g.cols;
            && 0 <= lo && lo + g.cols <= hi <= |cells|
            && RevScrolled(cells, g.cols, top, bottom, blank)
            == Blanked(ShiftedDown(cells, g.cols, lo + g.cols, hi), lo, lo + g.cols, blank)
  {
    LineBounds(g, top, bottom);
  }

  // ---------- the screen ----------

  datatype Look = Look(g: Geometry, font: Font, canvas: Canvas)

  /** Cell number `i` shows `ch`. */
  ghost predicate Shows(k: Look, fb: seq<int>, i: int, ch: Char)
    requires k.g.Fits()
  {
    forall a :: 0 <= a < |fb| && CellHas(k.g, i, a) ==> fb[a] == CellColour(k, i, ch, a)
  }

  ghost predicate CellHas(g: Geometry, i: int, a: int)
    requires g.Fits()
  {
    InCell(g, i % g.cols, i / g.cols, a)
  }

  ghost function CellColour(k: Look, i: int, ch: Char, a: int): int
    requires k.g.Fits()
  {
    ColourAt(k.g, k.font, k.canvas, ch, i % k.g.cols, i / k.g.cols, a)
  }

  /** Plot `ch` into cell `i`, over `was` if that is given. */
  ghost function PlotCell(k: Look, fb: seq<int>, was: Option<Char>, ch: Char, i: int): (r: seq<int>)
    requires k.g.Fits()
    ensures |r| == |fb|
  {
    Plot(k.g, k.font, k.canvas, fb, was, ch, i % k.g.cols, i / k.g.cols)
  }

  lemma PlotCellAt(k: Look, fb: seq<int>, was: Option<Char>, ch: Char, i: int, a: int)
    requires k.g.Fits() && 0 <= a < |fb|
    ensures !CellHas(k.g, i, a) ==> PlotCell(k, fb, was, ch, i)[a] == fb[a]
    ensures CellHas(k.g, i, a) && was.None? ==> PlotCell(k, fb, was, ch, i)[a] == CellColour(k, i, ch, a)
    ensures CellHas(k.g, i, a) && was.Some? && was.value.fg == ch.fg && was.value.bg == ch.bg
            && fb[a] == CellColour(k, i, was.value, a)
            ==> PlotCell(k, fb, was, ch, i)[a] == CellColour(k, i, ch, a)
  {
  }

  lemma OneCell(g: Geometry, i: int, j: int, a: int)
    requires g.Fits() && 0 <= i < g.Cells() && 0 <= j < g.Cells() && CellHas(g, i, a) && CellHas(g, j, a)
    ensures i == j
  {
    CellsApart(g, i % g.cols, i / g.cols, j % g.cols, j / g.cols, a);
    CellOfIdx(g, i);
    CellOfIdx(g, j);
  }

  /** Plotting afresh makes a cell show its character. */
  lemma PlotShows(k: Look, fb: seq<int>, ch: Char, i: int)
    requires k.g.Fits()
    ensures Shows(k, PlotCell(k, fb, None, ch, i), i, ch)
  {
    hide PlotCell, CellHas, CellColour;
    forall a | 0 <= a < |fb| && CellHas(k.g, i, a) ensures PlotCell(k, fb, None, ch, i)[a] == CellColour(k, i, ch, a) {
      PlotCellAt(k, fb, None, ch, i, a);
    }
  }

  /** So does plotting only the differences, over a character shown in the same colours. */
  lemma PlotFastShows(k: Look, fb: seq<int>, was: Char, ch: Char, i: int)
    requires k.g.Fits() && Shows(k, fb, i, was) && was.fg == ch.fg && was.bg == ch.bg
    ensures Shows(k, PlotCell(k, fb, Some(was), ch, i), i, ch)
  {
    hide PlotCell, CellHas, CellColour;
    forall a | 0 <= a < |fb| && CellHas(k.g, i, a) ensures PlotCell(k, fb, Some(was), ch, i)[a] == CellColour(k, i, ch, a) {
      PlotCellAt(k, fb, Some(was), ch, i, a);
    }
  }

  /** No plot disturbs another cell. */
  lemma PlotKeeps(k: Look, fb: seq<int>, was: Option<Char>, ch: Char, i: int, j: int, other: Char)
    requires k.g.Fits() && 0 <= i < k.g.Cells() && 0 <= j < k.g.Cells() && i != j && Shows(k, fb, j, other)
    ensures Shows(k, PlotCell(k, fb, was, ch, i), j, other)
  {
    hide PlotCell, CellHas, CellColour;
    forall a | 0 <= a < |fb| && CellHas(k.g, j, a) ensures PlotCell(k, fb, was, ch, i)[a] == CellColour(k, j, other, a) {
      if CellHas(k.g, i, a) { OneCell(k.g, i, j, a); }
      PlotCellAt(k, fb, was, ch, i, a);
    }
  }

  ghost predicate InMargin(g: Geometry, a: int)
    requires g.Fits()
  {
    forall i :: 0 <= i < g.Cells() ==> !CellHas(g, i, a)
  }

  /** Only pixels of cells differ. */
  ghost predicate MarginKept(g: Geometry, fb: seq<int>, fb': seq<int>)
    requires g.Fits()
  {
    |fb'| == |fb| && forall a :: 0 <= a < |fb| && InMargin(g, a) ==> fb'[a] == fb[a]
  }

  lemma PlotKeepsMargin(k: Look, fb0: seq<int>, fb: seq<int>, was: Option<Char>, ch: Char, i: int)
    requires k.g.Fits() && 0 <= i < k.g.Cells() && MarginKept(k.g, fb0, fb)
    ensures MarginKept(k.g, fb0, PlotCell(k, fb, was, ch, i))
  {
    hide PlotCell, CellHas, CellColour;
    forall a | 0 <= a < |fb0| && InMargin(k.g, a) ensures PlotCell(k, fb, was, ch, i)[a] == fb0[a] {
      PlotCellAt(k, fb, was, ch, i, a);
    }
  }

  // ---------- full redraw ----------

  /** The naive renderer: plot every one of the first `n` cells. */
  ghost function PlotAll(k: Look, fb: seq<int>, cells: seq<Char>, n: nat): (r: seq<int>)
    requires k.g.Fits() && n <= |cells|
    ensures |r| == |fb|
  {
    if n == 0 then fb else PlotCell(k, PlotAll(k, fb, cells, n - 1), None, cells[n - 1], n - 1)
  }

  lemma {:induction false} PlotAllShows(k: Look, fb: seq<int>, cells: seq<Char>, n: nat, i: int)
    requires k.g.Fits() && n <= |cells| == k.g.Cells() && 0 <= i < n
    ensures Shows(k, PlotAll(k, fb, cells, n), i, cells[i])
  {
    hide Shows, PlotCell;
    var before := PlotAll(k, fb, cells, n - 1);
    if i == n - 1 {
      PlotShows(k, before, cells[i], i);
    } else {
      PlotAllShows(k, fb, cells, n - 1, i);
      PlotKeeps(k, before, None, cells[n - 1], n - 1, i, cells[i]);
    }
  }

  lemma {:induction false} PlotAllMargin(k: Look, fb: seq<int>, cells: seq<Char>, n: nat)
    requires k.g.Fits() && n <= |cells| == k.g.Cells()
    ensures MarginKept(k.g, fb, PlotAll(k, fb, cells, n))
  {
    hide PlotCell, InMargin;
    if n > 0 {
      PlotAllMargin(k, fb, cells, n - 1);
      PlotKeepsMargin(k, fb, PlotAll(k, fb, cells, n - 1), None, cells[n - 1], n - 1);
    }
  }

  /** Showing every cell and keeping the margin is being the full redraw. */
  lemma ShowsAllIsRedraw(k: Look, fb: seq<int>, fb': seq<int>, cells: seq<Char>)
    requires k.g.Fits() && |cells| == k.g.Cells() && MarginKept(k.g, fb, fb')
    requires forall i :: 0 <= i < |cells| ==> Shows(k, fb', i, cells[i])
    ensures fb' == PlotAll(k, fb, cells, |cells|)
  {
    hide PlotAll, CellHas, CellColour;
    var all := PlotAll(k, fb, cells, |cells|);
    PlotAllMargin(k, fb, cells, |cells|);
    forall a | 0 <= a < |fb| ensures fb'[a] == all[a] {
      if i :| 0 <= i < |cells| && CellHas(k.g, i, a) {
        PlotAllShows(k, fb, cells, |cells|, i);
        assert Shows(k, fb', i, cells[i]);
      } else {
        assert InMargin(k.g, a);
      }
    }
  }

  // ---------- the flush ----------

  /** Queue items before `k` are painted; each later one is still mapped, or was taken by the cursor. */
  ghost predicate Flushing(g: Geometry, queue: seq<Item>, qmap: seq<int>, qi: int, k: int) {
    && |queue| == g.Cells() && |qmap| == g.Cells() && 0 <= k <= qi <= |queue|
    && (forall j {:trigger queue[j]} :: 0 <= j < qi ==> OnGrid(g, queue[j].x, queue[j].y))
    && (forall j, j' :: 0 <= j < j' < qi ==> ItemCell(g, queue[j]) != ItemCell(g, queue[j']))
    && (forall i :: 0 <= i < |qmap| ==> StillMapped(g, queue, qmap, qi, k, i))
  }

  ghost function ItemCell(g: Geometry, it: Item): int { Idx(g, it.x, it.y) }

  ghost predicate StillMapped(g: Geometry, queue: seq<Item>, qmap: seq<int>, qi: int, k: int, i: int)
    requires 0 <= i < |qmap|
  {
    qmap[i] != -1 ==> 0 <= k <= qmap[i] < qi <= |queue| && ItemCell(g, queue[qmap[i]]) == i
  }

  /** What a cell must look like during the flush: the cursor cell inverted, the cells `ex` anyhow. */
  ghost predicate Settled(l: Look, fb: seq<int>, grid: seq<Char>, on: bool, cur: int, ex: set<int>, i: int)
    requires l.g.Fits() && 0 <= i < |grid|
  {
    if on && i == cur then Shows(l, fb, i, Inverted(grid[i]))
    else i !in ex ==> Shows(l, fb, i, grid[i])
  }

  ghost predicate AllSettled(l: Look, fb: seq<int>, grid: seq<Char>, on: bool, cur: int, ex: set<int>)
    requires l.g.Fits()
  {
    forall i {:trigger Settled(l, fb, grid, on, cur, ex, i)} :: 0 <= i < |grid| ==> Settled(l, fb, grid, on, cur, ex, i)
  }

  /** Pixels agree with the grid, except perhaps in the cells `ex`. */
  ghost predicate Synced(l: Look, fb: seq<int>, grid: seq<Char>, ex: set<int>)
    requires l.g.Fits()
  {
    AllSettled(l, fb, grid, false, -1, ex)
  }

  lemma FlushBegins(g: Geometry, queue: seq<Item>, qmap: seq<int>, qi: int)
    requires g.cols > 0 && Pending(g, queue, qmap, qi)
    ensures Flushing(g, queue, qmap, qi, 0)
  {
    forall j | 0 <= j < qi ensures OnGrid(g, queue[j].x, queue[j].y) { assert ItemOk(g, queue, qmap, j); }
    forall j, j' | 0 <= j < j' < qi ensures ItemCell(g, queue[j]) != ItemCell(g, queue[j']) {
      assert ItemOk(g, queue, qmap, j) && ItemOk(g, queue, qmap, j');
    }
    forall i | 0 <= i < |qmap| ensures StillMapped(g, queue, qmap, qi, 0, i) { assert SlotOk(g, queue, qmap, qi, i); }
  }

  /** Taking cell `i` out of the map and its pending character into the grid. */
  lemma TakeCell(g: Geometry, grid: seq<Char>, queue: seq<Item>, qmap: seq<int>, qi: int, k: int, i: int)
    requires Flushing(g, queue, qmap, qi, k) && |grid| == g.Cells() && 0 <= i < |grid|
    ensures var c := Logical(grid, queue, qmap)[i];
            && Flushing(g, queue, qmap[i := -1], qi, k)
            && Logical(grid[i := c], queue, qmap[i := -1]) == Logical(grid, queue, qmap)
  {
    hide Idx;
    var qmap' := qmap[i := -1];
    forall j | 0 <= j < |qmap'| ensures StillMapped(g, queue, qmap', qi, k, j) {
      assert StillMapped(g, queue, qmap, qi, k, j);
    }
    var c := Logical(grid, queue, qmap)[i];
    forall j | 0 <= j < |grid| ensures Logical(grid[i := c], queue, qmap')[j] == Logical(grid, queue, qmap)[j] {
      assert StillMapped(g, queue, qmap, qi, k, j);
    }
  }

  /** Past item `k` once its cell is no longer mapped. */
  lemma FlushAdvances(g: Geometry, queue: seq<Item>, qmap: seq<int>, qi: int, k: int)
    requires g.cols > 0 && Flushing(g, queue, qmap, qi, k) && k < qi
    ensures var i := ItemCell(g, queue[k]);
            && 0 <= i < |qmap|
            && (qmap[i] == -1 ==> Flushing(g, queue, qmap, qi, k + 1))
            && (qmap[i] != -1 ==> qmap[i] == k)
  {
    assert OnGrid(g, queue[k].x, queue[k].y);
    IdxFacts(g, queue[k].x, queue[k].y);
    hide Idx;
    var i := ItemCell(g, queue[k]);
    assert StillMapped(g, queue, qmap, qi, k, i);
    if qmap[i] != -1 {
      assert ItemCell(g, queue[qmap[i]]) == ItemCell(g, queue[k]);
    } else {
      var k' := k + 1;
      forall j | 0 <= j < |qmap| ensures StillMapped(g, queue, qmap, qi, k', j) {
        assert StillMapped(g, queue, qmap, qi, k, j);
      }
    }
  }

  lemma FlushEnds(g: Geometry, grid: seq<Char>, queue: seq<Item>, qmap: seq<int>, qi: int)
    requires Flushing(g, queue, qmap, qi, qi) && |grid| == g.Cells()
    ensures (forall i :: 0 <= i < |qmap| ==> qmap[i] == -1) && Logical(grid, queue, qmap) == grid
    ensures Pending(g, queue, qmap, 0)
  {
    hide Idx;
    forall i | 0 <= i < |qmap| ensures qmap[i] == -1 && SlotOk(g, queue, qmap, 0, i) {
      assert StillMapped(g, queue, qmap, qi, qi, i);
    }
  }

  /** Replacing cell `i` in grid and framebuffer settles it and leaves the others settled. */
  lemma SettleCell(l: Look, fb: seq<int>, fb': seq<int>, grid: seq<Char>, on: bool, cur: int, ex: set<int>, i: int, c: Char,
                   was: Option<Char>, plotted: Char)
    requires l.g.Fits() && |grid| == l.g.Cells() && 0 <= i < |grid| && AllSettled(l, fb, grid, on, cur, ex)
    requires fb' == PlotCell(l, fb, was, plotted, i)
    requires if on && i == cur then plotted == Inverted(c) && was == None
             else plotted == c && (was == None || (i !in ex && was == Some(grid[i]) && c.fg == grid[i].fg && c.bg == grid[i].bg)
                                   || (i in ex && was.Some?))
    ensures AllSettled(l, fb', grid[i := c], on, cur, ex)
  {
    hide Shows, PlotCell;
    var grid' := grid[i := c];
    forall j | 0 <= j < |grid'| ensures Settled(l, fb', grid', on, cur, ex, j) {
      assert Settled(l, fb, grid, on, cur, ex, j);
      if j == i {
        if was == None { PlotShows(l, fb, plotted, i); }
        else if i !in ex { PlotFastShows(l, fb, was.value, plotted, i); }
      } else if on && j == cur {
        PlotKeeps(l, fb, was, plotted, i, j, Inverted(grid[j]));
      } else if j !in ex {
        PlotKeeps(l, fb, was, plotted, i, j, grid[j]);
      }
    }
  }

  /** The cells to be seen: the enabled cursor inverts its cell. */
  ghost function WithCursor(cells: seq<Char>, on: bool, cur: int): (r: seq<Char>)
    requires 0 <= cur < |cells|
    ensures |r| == |cells|
  {
    if on then cells[cur := Inverted(cells[cur])] else cells
  }

  /** The cells to be seen with the cursor at (x, y), which may be off the grid. */
  ghost function Visible(g: Geometry, cells: seq<Char>, on: bool, x: int, y: int): (r: seq<Char>)
    requires g.cols > 0 && |cells| == g.Cells()
    ensures |r| == |cells|
  {
    if on && OnGrid(g, x, y) then WithCursor(cells, true, IdxOf(g, x, y)) else cells
  }

  /** Cell `i` has the same pixels in both framebuffers. */
  ghost predicate CellKept(l: Look, fb: seq<int>, fb': seq<int>, i: int)
    requires l.g.Fits()
  {
    |fb'| == |fb| && forall a :: 0 <= a < |fb| && CellHas(l.g, i, a) ==> fb'[a] == fb[a]
  }

  lemma PlotKeepsCell(l: Look, fb0: seq<int>, fb: seq<int>, was: Option<Char>, ch: Char, i: int, z: int)
    requires l.g.Fits() && 0 <= i < l.g.Cells() && 0 <= z < l.g.Cells() && i != z && CellKept(l, fb0, fb, z)
    ensures CellKept(l, fb0, PlotCell(l, fb, was, ch, i), z)
  {
    hide PlotCell, CellHas, CellColour;
    forall a | 0 <= a < |fb0| && CellHas(l.g, z, a) ensures PlotCell(l, fb, was, ch, i)[a] == fb0[a] {
      if CellHas(l.g, i, a) { OneCell(l.g, i, z, a); }
      PlotCellAt(l, fb, was, ch, i, a);
    }
  }

  lemma KeptShows(l: Look, fb: seq<int>, fb': seq<int>, i: int, ch: Char)
    requires l.g.Fits() && CellKept(l, fb, fb', i)
    ensures Shows(l, fb', i, ch) <==> Shows(l, fb, i, ch)
  {
    hide CellHas, CellColour;
  }

  /** In cell `i` the character looks the same inverted. */
  ghost predicate SameLook(l: Look, fb: seq<int>, i: int, ch: Char)
    requires l.g.Fits()
  {
    forall a :: 0 <= a < |fb| && CellHas(l.g, i, a) ==> CellColour(l, i, Inverted(ch), a) == CellColour(l, i, ch, a)
  }

  /** A cell showing a character inverted shows it upright if and only if that looks the same. */
  lemma InvertedShows(l: Look, fb: seq<int>, i: int, ch: Char)
    requires l.g.Fits() && Shows(l, fb, i, Inverted(ch))
    ensures Shows(l, fb, i, ch) <==> SameLook(l, fb, i, ch)
  {
    hide CellHas, CellColour;
  }

  /** For opaque colours that is: foreground and background are the same colour. */
  lemma SameLookOpaque(l: Look, fb: seq<int>, i: int, ch: Char)
    requires l.g.Fits() && |fb| == l.g.pitch * l.g.height && 0 <= i < l.g.Cells()
    requires ch.fg != TRANSPARENT && ch.bg != TRANSPARENT
    ensures SameLook(l, fb, i, ch) <==> ch.fg == ch.bg
  {
    CellOfIdx(l.g, i);
    var x, y := i % l.g.cols, i / l.g.cols;
    CellInside(l.g, x, y);
    PositionFacts(l.g, x, y, 0, 0);
    var a := Position(l.g, x, y, 0, 0);
    assert CellHas(l.g, i, a);
    assert CellColour(l, i, ch, a) != CellColour(l, i, Inverted(ch), a) <==> ch.fg != ch.bg;
  }

  /** Drawing the cursor settles its cell inverted. */
  lemma CursorSettles(l: Look, fb: seq<int>, grid: seq<Char>, cur: int, ex: set<int>, c: Char)
    requires l.g.Fits() && |grid| == l.g.Cells() && 0 <= cur < |grid| && Synced(l, fb, grid, ex)
    ensures AllSettled(l, PlotCell(l, fb, None, Inverted(c), cur), grid[cur := c], true, cur, ex)
  {
    hide Shows, PlotCell;
    var fb', grid' := PlotCell(l, fb, None, Inverted(c), cur), grid[cur := c];
    forall j | 0 <= j < |grid'| ensures Settled(l, fb', grid', true, cur, ex, j) {
      assert Settled(l, fb, grid, false, -1, ex, j);
      if j == cur { PlotShows(l, fb, Inverted(c), cur); }
      else if j !in ex { PlotKeeps(l, fb, None, Inverted(c), cur, j, grid[j]); }
    }
  }

  lemma NoCursorSettles(l: Look, fb: seq<int>, grid: seq<Char>, cur: int, ex: set<int>)
    requires l.g.Fits() && Synced(l, fb, grid, ex)
    ensures AllSettled(l, fb, grid, false, cur, ex)
  {
    hide Shows;
    forall j | 0 <= j < |grid| ensures Settled(l, fb, grid, false, cur, ex, j) {
      assert Settled(l, fb, grid, false, -1, ex, j);
    }
  }

  /** A cell that shows its character after all needs no excuse. */
  lemma SettledBut(l: Look, fb: seq<int>, grid: seq<Char>, on: bool, cur: int, ex: set<int>, i: int)
    requires l.g.Fits() && 0 <= i < |grid| && AllSettled(l, fb, grid, on, cur, ex)
    requires Shows(l, fb, i, grid[i]) || (on && i == cur)
    ensures AllSettled(l, fb, grid, on, cur, ex - {i})
  {
    hide Shows;
    forall j | 0 <= j < |grid| ensures Settled(l, fb, grid, on, cur, ex - {i}, j) {
      assert Settled(l, fb, grid, on, cur, ex, j);
    }
  }

  /** More excuses excuse more. */
  lemma SyncedMore(l: Look, fb: seq<int>, grid: seq<Char>, ex: set<int>, ex': set<int>)
    requires l.g.Fits() && Synced(l, fb, grid, ex) && ex <= ex'
    ensures Synced(l, fb, grid, ex')
  {
    hide Shows;
    forall j | 0 <= j < |grid| ensures Settled(l, fb, grid, false, -1, ex', j) {
      assert Settled(l, fb, grid, false, -1, ex, j);
    }
  }

  /** Without the flag for the drawn cursor, its cell is one more that may not show its character. */
  lemma SettledSynced(l: Look, fb: seq<int>, grid: seq<Char>, on: bool, cur: int, ex: set<int>)
    requires l.g.Fits() && AllSettled(l, fb, grid, on, cur, ex)
    ensures Synced(l, fb, grid, if on then ex + {cur} else ex)
  {
    hide Shows;
    var ex' := if on then ex + {cur} else ex;
    forall j | 0 <= j < |grid| ensures Settled(l, fb, grid, false, -1, ex', j) {
      assert Settled(l, fb, grid, on, cur, ex, j);
    }
  }

  /** The cell under a cursor off the grid: its character changes in the grid and not on the screen. */
  lemma LostSettles(l: Look, fb: seq<int>, grid: seq<Char>, i: int, ex: set<int>, ex': set<int>, c: Char)
    requires l.g.Fits() && 0 <= i < |grid| && Synced(l, fb, grid, ex) && ex <= ex' && (c == grid[i] || i in ex')
    ensures AllSettled(l, fb, grid[i := c], false, i, ex')
  {
    hide Shows;
    var grid' := grid[i := c];
    forall j | 0 <= j < |grid'| ensures Settled(l, fb, grid', false, i, ex', j) {
      assert Settled(l, fb, grid, false, -1, ex, j);
    }
  }

  lemma LostShows(l: Look, fb: seq<int>, fb': seq<int>, grid: seq<Char>, ex: set<int>, i: int)
    requires l.g.Fits() && 0 <= i < |grid| && Synced(l, fb, grid, ex) && i !in ex && CellKept(l, fb, fb', i)
    ensures Shows(l, fb', i, grid[i])
  {
    hide Shows, CellKept;
    assert Settled(l, fb, grid, false, -1, ex, i);
    KeptShows(l, fb, fb', i, grid[i]);
  }

  lemma SettledShowsBut(l: Look, fb: seq<int>, grid: seq<Char>, i: int)
    requires l.g.Fits() && AllSettled(l, fb, grid, false, i, {i})
    ensures forall j :: 0 <= j < |grid| && j != i ==> Shows(l, fb, j, grid[j])
  {
    hide Shows;
    forall j | 0 <= j < |grid| && j != i ensures Shows(l, fb, j, grid[j]) {
      assert Settled(l, fb, grid, false, i, {i}, j);
    }
  }

  lemma PlotCellIs(l: Look, fb: seq<int>, was: Option<Char>, ch: Char, i: int, x: int, y: int)
    requires l.g.Fits() && i % l.g.cols == x && i / l.g.cols == y
    ensures PlotCell(l, fb, was, ch, i) == Plot(l.g, l.font, l.canvas, fb, was, ch, x, y)
  {
  }

  /** With no excuses left every cell shows what it should. */
  lemma SettledShows(l: Look, fb: seq<int>, grid: seq<Char>, on: bool, cur: int)
    requires l.g.Fits() && |grid| == l.g.Cells() && (on ==> 0 <= cur < |grid|) && AllSettled(l, fb, grid, on, cur, {})
    ensures forall i :: 0 <= i < |grid| ==> Shows(l, fb, i, if on && i == cur then Inverted(grid[i]) else grid[i])
  {
    hide Shows;
    forall i | 0 <= i < |grid| ensures Shows(l, fb, i, if on && i == cur then Inverted(grid[i]) else grid[i]) {
      assert Settled(l, fb, grid, on, cur, {}, i);
    }
  }

  lemma ItemCellIs(g: Geometry, it: Item)
    ensures ItemCell(g, it) == it.y * g.cols + it.x
  {
  }

  lemma ItemOnGrid(g: Geometry, queue: seq<Item>, qmap: seq<int>, qi: int, k: int)
    requires g.cols > 0 && Flushing(g, queue, qmap, qi, k) && k < qi
    ensures OnGrid(g, queue[k].x, queue[k].y)
    ensures ItemCell(g, queue[k]) % g.cols == queue[k].x && ItemCell(g, queue[k]) / g.cols == queue[k].y
  {
    assert OnGrid(g, queue[k].x, queue[k].y);
    IdxFacts(g, queue[k].x, queue[k].y);
  }

  // ---------- the terminal a user expects ----------

  /** Cells, cursor and settings; nothing about queues or pixels. */
  datatype Screen = Screen(cells: seq<Char>, x: int, y: int, on: bool, fg: int, bg: int,
                           top: int, bottom: int, scrolls: bool)

  datatype Command =
    | Put(c: int)
    | ScrollUp
    | ScrollDown
    | Erase(home: bool)
    | Copy(newX: nat, newY: nat, fromX: nat, fromY: nat)
    | MoveTo(px: nat, py: nat)
    | ShowCursor(shown: bool)
    | Colours(newFg: int, newBg: int)
    | Flush

  ghost predicate WellFormed(g: Geometry, s: Screen) {
    && g.cols > 0 && |s.cells| == g.Cells() && 0 <= s.top < s.bottom <= g.rows && 0 <= s.x && 0 <= s.y
    && s.bottom * g.cols <= |s.cells|
  }

  /** Clamp a coordinate as `fbterm_set_cursor_pos` does: `(int) v` is negative when bit 31 is set. */
  function Clamp(v: nat, n: int): int
    requires n > 0
  {
    if v < n then v else if v / 0x8000_0000 % 2 == 1 then 0 else n - 1
  }

  /** `fbterm_raw_putchar`: store, advance, wrap at the end of the line, scroll at the bottom margin. */
  ghost function Typed(g: Geometry, s: Screen, c: int): Screen
    requires WellFormed(g, s)
  {
    var cells := if OnGrid(g, s.x, s.y) then s.cells[IdxOf(g, s.x, s.y) := Char(c, s.fg, s.bg)] else s.cells;
    var wraps := s.x + 1 == g.cols && (s.y < s.bottom - 1 || s.scrolls);
    var x, y := if wraps then 0 else s.x + 1, if wraps then s.y + 1 else s.y;
    if y == s.bottom
    then s.(cells := Scrolled(cells, g.cols, s.top, s.bottom, Blank(s.fg, s.bg)), x := x, y := y - 1)
    else s.(cells := cells, x := x, y := y)
  }

  ghost function After(g: Geometry, s: Screen, cmd: Command): (r: Screen)
    requires WellFormed(g, s)
    ensures WellFormed(g, r)
  {
    match cmd
    case Put(c) => Typed(g, s, c)
    case ScrollUp => s.(cells := Scrolled(s.cells, g.cols, s.top, s.bottom, Blank(s.fg, s.bg)))
    case ScrollDown => s.(cells := RevScrolled(s.cells, g.cols, s.top, s.bottom, Blank(s.fg, s.bg)))
    case Erase(home) =>
      var blank := s.(cells := Blanked(s.cells, 0, |s.cells|, Blank(s.fg, s.bg)));
      if home then blank.(x := 0, y := 0) else blank
    case Copy(nx, ny, ox, oy) =>
      if OnGrid(g, ox, oy) && OnGrid(g, nx, ny)
      then s.(cells := s.cells[IdxOf(g, nx, ny) := s.cells[IdxOf(g, ox, oy)]]) else s
    case MoveTo(x, y) => if g.rows > 0 then s.(x := Clamp(x, g.cols), y := Clamp(y, g.rows)) else s
    case ShowCursor(on) => s.(on := on)
    case Colours(fg, bg) => s.(fg := fg, bg := bg)
    case Flush => s
  }

  /** What the source needs: two lines to scroll down, an enabled cursor on the grid to flush. */
  ghost predicate Ready(g: Geometry, s: Screen, cmd: Command) {
    match cmd
    case ScrollDown => s.top + 1 < s.bottom
    case Flush => s.on ==> OnGrid(g, s.x, s.y)
    case _ => true
  }

  ghost function AfterAll(g: Geometry, s: Screen, cmds: seq<Command>): (r: Screen)
    requires WellFormed(g, s)
    ensures WellFormed(g, r)
  {
    if cmds == [] then s else After(g, AfterAll(g, s, cmds[..|cmds| - 1]), cmds[|cmds| - 1])
  }

  ghost predicate AllReady(g: Geometry, s: Screen, cmds: seq<Command>)
    requires WellFormed(g, s)
  {
    forall n :: 0 <= n < |cmds| ==> Ready(g, AfterAll(g, s, cmds[..n]), cmds[n])
  }

  /**
   With scrolling off, typing in the last column of the last line of the region leaves the cursor behind
   that line; its index is then a cell (the first of the next line) if and only if there is a next line.
   */
  lemma TypedBehindLine(g: Geometry, s: Screen, c: int)
    requires WellFormed(g, s) && s.x == g.cols - 1 && s.y == s.bottom - 1 && !s.scrolls
    ensures var r := Typed(g, s, c);
            && r.x == g.cols && r.y == s.y && !OnGrid(g, r.x, r.y)
            && (r.y * g.cols + r.x < g.Cells() <==> s.y + 1 < g.rows)
  {
    LineBounds(g, s.top, s.bottom);
    if s.y + 1 < g.rows { LineBounds(g, s.y + 1, g.rows); }
  }

  /** A full redraw depends on what was there before only in the margin. */
  lemma RedrawFromMargin(l: Look, fb: seq<int>, fb': seq<int>, cells: seq<Char>)
    requires l.g.Fits() && |cells| == l.g.Cells() && MarginKept(l.g, fb, fb')
    ensures PlotAll(l, fb', cells, |cells|) == PlotAll(l, fb, cells, |cells|)
    ensures MarginKept(l.g, fb, PlotAll(l, fb', cells, |cells|))
  {
    hide PlotAll, Shows, InMargin;
    var all := PlotAll(l, fb', cells, |cells|);
    PlotAllMargin(l, fb', cells, |cells|);
    forall i | 0 <= i < |cells| ensures Shows(l, all, i, cells[i]) { PlotAllShows(l, fb', cells, |cells|, i); }
    ShowsAllIsRedraw(l, fb, all, cells);
  }

  // ---------- full refresh ----------

  /** Lines before `y`, and line `y` before column `x`, hold the canvas. */
  ghost function FilledTo(g: Geometry, canvas: Canvas, fb: seq<int>, x: int, y: int): (r: seq<int>)
    requires g.pitch > 0
    ensures |r| == |fb|
  {
    seq(|fb|, a requires 0 <= a < |fb| =>
      if FilledAt(g, x, y, a) then canvas(a % g.pitch, a / g.pitch) else fb[a])
  }

  /** Position `b` holds the canvas once lines before `y` and columns before `x` of line `y` are filled. */
  predicate FilledAt(g: Geometry, x: int, y: int, b: int)
    requires g.pitch > 0
  {
    b % g.pitch < g.width && (b / g.pitch < y || (b / g.pitch == y && b % g.pitch < x))
  }

  lemma FilledElsewhere(g: Geometry, x: int, y: int, b: int)
    requires g.pitch > 0 && 0 <= x < g.width <= g.pitch
    ensures b != y * g.pitch + x ==> (FilledAt(g, x + 1, y, b) <==> FilledAt(g, x, y, b))
    ensures b == y * g.pitch + x ==> FilledAt(g, x + 1, y, b) && !FilledAt(g, x, y, b) && b % g.pitch == x && b / g.pitch == y
  {
    assert b == b / g.pitch * g.pitch + b % g.pitch;
    if b == y * g.pitch + x { Remainder(b, g.pitch, y, x); }
  }

  lemma FilledToAt(g: Geometry, canvas: Canvas, fb: seq<int>, x: int, y: int, b: int)
    requires g.pitch > 0 && 0 <= b < |fb|
    ensures FilledTo(g, canvas, fb, x, y)[b] == if FilledAt(g, x, y, b) then canvas(b % g.pitch, b / g.pitch) else fb[b]
  {
    hide FilledAt;
  }

  lemma FillStep(g: Geometry, canvas: Canvas, fb: seq<int>, x: int, y: int)
    requires g.Fits() && |fb| == g.pitch * g.height && 0 <= x < g.width && 0 <= y < g.height
    ensures 0 <= y * g.pitch + x < |fb|
    ensures FilledTo(g, canvas, fb, x + 1, y) == FilledTo(g, canvas, fb, x, y)[y * g.pitch + x := canvas(x, y)]
  {
    hide FilledAt, FilledTo;
    var a := y * g.pitch + x;
    CellInsideLine(g.pitch, y, g.height);
    var before, after := FilledTo(g, canvas, fb, x, y), FilledTo(g, canvas, fb, x + 1, y);
    forall b | 0 <= b < |fb| ensures after[b] == before[a := canvas(x, y)][b] {
      FilledElsewhere(g, x, y, b);
      FilledToAt(g, canvas, fb, x, y, b);
      FilledToAt(g, canvas, fb, x + 1, y, b);
    }
  }

  lemma FillLine(g: Geometry, canvas: Canvas, fb: seq<int>, y: int)
    requires g.Fits()
    ensures FilledTo(g, canvas, fb, g.width, y) == FilledTo(g, canvas, fb, 0, y + 1)
  {
    hide FilledTo;
    forall b | 0 <= b < |fb| ensures FilledTo(g, canvas, fb, g.width, y)[b] == FilledTo(g, canvas, fb, 0, y + 1)[b] {
      FilledToAt(g, canvas, fb, g.width, y, b);
      FilledToAt(g, canvas, fb, 0, y + 1, b);
      assert b % g.pitch >= 0;
    }
  }

  lemma {:induction false} FillNothing(g: Geometry, canvas: Canvas, fb: seq<int>)
    requires g.Fits()
    ensures FilledTo(g, canvas, fb, 0, 0) == fb
  {
    hide FilledTo;
    forall b | 0 <= b < |fb| ensures FilledTo(g, canvas, fb, 0, 0)[b] == fb[b] {
      FilledToAt(g, canvas, fb, 0, 0, b);
      NotNegative(b, g.pitch);
    }
  }

  lemma NotNegative(b: int, p: int)
    requires 0 <= b && p > 0
    ensures 0 <= b / p && 0 <= b % p
  {
  }

  /**
   Drawing the cursor outside a flush drops its cell from the map but leaves the item in the queue:
   queue and map stay in step exactly when that cell had nothing pending.
   */
  lemma DroppedItem(g: Geometry, queue: seq<Item>, qmap: seq<int>, qi: int, i: int)
    requires Pending(g, queue, qmap, qi) && 0 <= i < |qmap|
    ensures Pending(g, queue, qmap[i := -1], qi) <==> qmap[i] == -1
  {
    hide Idx;
    var qmap' := qmap[i := -1];
    if qmap[i] == -1 {
      assert qmap' == qmap;
    } else {
      assert SlotOk(g, queue, qmap, qi, i);
      assert !ItemOk(g, queue, qmap', qmap[i]);
    }
  }

  /**
   When every cell is pending the queue is full; a cell dropped from the map then gets a fresh item, which
   `push_to_queue` would write one past the end of the queue.
   */
  lemma DroppedItemOverflows(g: Geometry, queue: seq<Item>, qmap: seq<int>, qi: int, i: int)
    requires Pending(g, queue, qmap, qi) && 0 <= i < |qmap| && (forall j :: 0 <= j < |qmap| ==> qmap[j] != -1)
    ensures qmap[i := -1][i] == -1 && qi == |queue|
  {
    hide Idx;
    if qi < |qmap| {
      forall j | 0 <= j < |qmap| ensures 0 <= qmap[j] < qi { assert SlotOk(g, queue, qmap, qi, j); }
      forall j, j' | 0 <= j < j' < |qmap| ensures qmap[j] != qmap[j'] {
        assert SlotOk(g, queue, qmap, qi, j) && SlotOk(g, queue, qmap, qi, j');
      }
      DistinctElements(qmap, qi);
    }
  }

  /** Such a state: one cell, pending. */
  lemma FullQueue(g: Geometry, c: Char)
    requires g.rows == 1 && g.cols == 1
    ensures Pending(g, [Item(0, 0, c)], [0], 1)
  {
    assert ItemOk(g, [Item(0, 0, c)], [0], 0);
  }

  lemma RefreshedShows(l: Look, fb: seq<int>, grid: seq<Char>, ex: set<int>)
    requires l.g.Fits() && |grid| == l.g.Cells()
    ensures Synced(l, PlotAll(l, fb, grid, |grid|), grid, ex)
  {
    hide Shows, PlotAll;
    var all := PlotAll(l, fb, grid, |grid|);
    forall i | 0 <= i < |grid| ensures Settled(l, all, grid, false, -1, ex, i) {
      PlotAllShows(l, fb, grid, |grid|, i);
    }
  }

  /** The cursor drawn over a freshly plotted grid gives the full redraw with the cursor inverted. */
  lemma CursorOverGrid(l: Look, fb: seq<int>, grid: seq<Char>, cur: int, c: Char)
    requires l.g.Fits() && |grid| == l.g.Cells() && 0 <= cur < |grid|
    ensures var fb', grid' := PlotCell(l, PlotAll(l, fb, grid, |grid|), None, Inverted(c), cur), grid[cur := c];
            && fb' == PlotAll(l, fb, WithCursor(grid', true, cur), |grid|)
            && Synced(l, fb', grid', {cur})
  {
    hide Shows, PlotAll, PlotCell, InMargin;
    var all := PlotAll(l, fb, grid, |grid|);
    var fb', grid' := PlotCell(l, all, None, Inverted(c), cur), grid[cur := c];
    var want := WithCursor(grid', true, cur);
    PlotAllMargin(l, fb, grid, |grid|);
    PlotKeepsMargin(l, fb, all, None, Inverted(c), cur);
    forall i | 0 <= i < |grid| ensures Shows(l, fb', i, want[i]) && Settled(l, fb', grid', false, -1, {cur}, i) {
      if i == cur {
        PlotShows(l, all, Inverted(c), cur);
      } else {
        PlotAllShows(l, fb, grid, |grid|, i);
        PlotKeeps(l, all, None, Inverted(c), cur, i, grid[i]);
      }
    }
    ShowsAllIsRedraw(l, fb, fb', want);
  }

  /** One excused cell: other excuses do if they cover it, or if it needs none. */
  lemma SyncedWithout(l: Look, fb: seq<int>, grid: seq<Char>, cur: int, ex: set<int>)
    requires l.g.Fits() && 0 <= cur < |grid| && Synced(l, fb, grid, {cur})
    ensures Synced(l, fb, grid, ex) <==> cur in ex || Shows(l, fb, cur, grid[cur])
  {
    hide Shows;
    if cur in ex || Shows(l, fb, cur, grid[cur]) {
      forall j | 0 <= j < |grid| ensures Settled(l, fb, grid, false, -1, ex, j) {
        assert Settled(l, fb, grid, false, -1, {cur}, j);
      }
    } else {
      assert !Settled(l, fb, grid, false, -1, ex, cur);
    }
  }

  /** No full redraw leaves an opaque two-coloured cell inverted. */
  lemma InvertedIsNoRedraw(l: Look, fb0: seq<int>, fb: seq<int>, cells: seq<Char>, i: int, ch: Char)
    requires l.g.Fits() && |cells| == l.g.Cells() && 0 <= i < |cells| && cells[i] == ch && |fb| == l.g.pitch * l.g.height
    requires ch.fg != TRANSPARENT && ch.bg != TRANSPARENT && ch.fg != ch.bg && Shows(l, fb, i, Inverted(ch))
    ensures fb != PlotAll(l, fb0, cells, |cells|)
  {
    hide Shows, PlotAll, SameLook;
    PlotAllShows(l, fb0, cells, |cells|, i);
    InvertedShows(l, fb, i, ch);
    SameLookOpaque(l, fb, i, ch);
  }

  lemma SameLookSize(l: Look, fb: seq<int>, fb': seq<int>, i: int, ch: Char)
    requires l.g.Fits() && |fb| == |fb'|
    ensures SameLook(l, fb, i, ch) <==> SameLook(l, fb', i, ch)
  {
    hide CellHas, CellColour;
  }

  lemma NothingPending(g: Geometry, queue: seq<Item>, qmap: seq<int>)
    requires |queue| == g.Cells() && |qmap| == g.Cells() && forall i :: 0 <= i < |qmap| ==> qmap[i] == -1
    ensures Pending(g, queue, qmap, 0)
  {
    forall i | 0 <= i < |qmap| ensures SlotOk(g, queue, qmap, 0, i) { }
  }

  /** Everything settled: the full redraw with the cursor, if it is shown. */
  lemma SettledIsRedraw(l: Look, fb0: seq<int>, fb: seq<int>, cells: seq<Char>, shown: bool, cur: int, want: seq<Char>)
    requires l.g.Fits() && |cells| == l.g.Cells() && (shown ==> 0 <= cur < |cells|) && MarginKept(l.g, fb0, fb)
    requires AllSettled(l, fb, cells, shown, cur, {}) && want == if shown then WithCursor(cells, true, cur) else cells
    ensures fb == PlotAll(l, fb0, want, |want|)
  {
    hide Shows, PlotAll, AllSettled, MarginKept;
    SettledShows(l, fb, cells, shown, cur);
    ShowsAllIsRedraw(l, fb0, fb, want);
  }

  /** Everything settled but a cell that still looks as before: the full redraw with its old character. */
  lemma SettledButOne(l: Look, fb0: seq<int>, fb: seq<int>, grid: seq<Char>, cells: seq<Char>, ex: set<int>, i: int)
    requires l.g.Fits() && |cells| == |grid| == l.g.Cells() && 0 <= i < |cells| && MarginKept(l.g, fb0, fb)
    requires AllSettled(l, fb, cells, false, i, {i}) && Synced(l, fb0, grid, ex) && i !in ex && CellKept(l, fb0, fb, i)
    ensures fb == PlotAll(l, fb0, cells[i := grid[i]], |cells|)
  {
    hide Shows, PlotAll, AllSettled, MarginKept, CellKept, Synced;
    SettledShowsBut(l, fb, cells, i);
    LostShows(l, fb0, fb, grid, ex, i);
    var want := cells[i := grid[i]];
    forall j | 0 <= j < |want| ensures Shows(l, fb, j, want[j]) { }
    ShowsAllIsRedraw(l, fb0, fb, want);
  }
}
