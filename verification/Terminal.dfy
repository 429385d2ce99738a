/**
 The framebuffer terminal: a grid of character cells, a queue of pending changes with a map from cells
 to queue items, and a flush that repaints only what changed.
 */
module Terminal {
  import opened Options
  import opened Words
  import opened TermSpec
  import opened TermCells

  class Terminal {
    const g: Geometry
    const font: Font
    const canvas: Canvas
    const fb: array<int>
    const grid: array<Char>
    const queue: array<Item>
    const qmap: array<int>    // index into the queue, -1 for NULL
    var queueI: int
    var textFg: int
    var textBg: int
    var cursorOn: bool
    var cursorX: int
    var cursorY: int
    var oldX: int
    var oldY: int
    var topMargin: int
    var bottomMargin: int
    var scrollEnabled: bool

    ghost predicate Framed()
      reads this
    {
      g.Fits() && fb.Length == g.pitch * g.height
    }

    /** Queue and map are in step, and nothing shares storage. */
    ghost predicate Queued()
      reads this, queue, qmap
    {
      && g.Fits() && fb != qmap
      && grid.Length == g.Cells() && queue.Length == g.Cells() && qmap.Length == g.Cells()
      && Pending(g, queue[..], qmap[..], queueI)
      && 0 <= topMargin < bottomMargin <= g.rows
    }

    ghost function Looks(): Look { Look(g, font, canvas) }

    /** The cell of the cursor last drawn, if that was on the grid. */
    ghost function OldCells(): set<int>
      reads this
      requires g.cols > 0
    {
      if OnGrid(g, oldX, oldY) then {IdxOf(g, oldX, oldY)} else {}
    }

    /** Everything the flush needs, with pixels that agree with the grid but for the cells `ex`. */
    ghost predicate ValidBut(ex: set<int>)
      reads this, fb, grid, queue, qmap
    {
      && Framed() && Queued() && 0 <= oldX && 0 <= oldY && 0 <= cursorX && 0 <= cursorY
      && Synced(Looks(), fb[..], grid[..], ex)
    }

    /** Between calls: pixels agree with the grid but for the cell of the cursor last drawn. */
    ghost predicate Valid()
      reads this, fb, grid, queue, qmap
    {
      g.Fits() && ValidBut(OldCells())
    }

    /** Where `draw_cursor` looks; off the grid when the cursor stands behind the last column. */
    function CursorCell(): int
      reads this
    {
      cursorY * g.cols + cursorX
    }

    ghost predicate CursorShown()
      reads this
    {
      cursorOn && OnGrid(g, cursorX, cursorY)
    }

    /** The source reads `map` at the enabled cursor: that must be a cell. */
    ghost predicate Drawable()
      reads this
    {
      cursorOn ==> CursorCell() < g.Cells()
    }

    /**
     A blank terminal as `fbterm_init` sets it up, with a null map and with the blank grid painted, neither
     of which `fbterm_init` does itself.
     */
    constructor (g: Geometry, font: Font, canvas: Canvas, fb: array<int>, fg: int, bg: int)
      requires g.Fits() && fb.Length == g.pitch * g.height
      modifies fb
      ensures Valid() && this.g == g && this.font == font && this.canvas == canvas && this.fb == fb
      ensures fresh(grid) && fresh(queue) && fresh(qmap) && queueI == 0 && textFg == fg && textBg == bg
      ensures cursorOn && cursorX == 0 && cursorY == 0 && oldX == 0 && oldY == 0 && scrollEnabled
      ensures topMargin == 0 && bottomMargin == g.rows && forall i :: 0 <= i < qmap.Length ==> qmap[i] == -1
      ensures Cells() == seq(g.Cells(), i => Blank(fg, bg)) && grid[..] == Cells()
    {
      Positive(g);
      MulOrder(0, g.rows, g.cols);
      var n := g.rows * g.cols;
      this.g, this.font, this.canvas, this.fb := g, font, canvas, fb;
      this.grid := new Char[n](_ => Blank(fg, bg));
      this.queue := new Item[n](_ => Item(0, 0, Blank(fg, bg)));
      this.qmap := new int[n](_ => -1);
      queueI, textFg, textBg, cursorOn, scrollEnabled := 0, fg, bg, true, true;
      cursorX, cursorY, oldX, oldY, topMargin, bottomMargin := 0, 0, 0, 0, 0, g.rows;
      new;
      hide PlotAll, Plot, Shows, Geometry.Fits;
      ghost var fb0 := fb[..];
      PlotGrid();
      RefreshedShows(Looks(), fb0, grid[..], OldCells());
      NothingPending(g, queue[..], qmap[..]);
      assert Cells() == grid[..];
    }

    /** The cells as the user sees them. */
    ghost function Cells(): (r: seq<Char>)
      reads this, grid, queue, qmap
      ensures |r| == grid.Length
    {
      Logical(grid[..], queue[..], qmap[..])
    }

    /** `plot_char`: every pixel of one cell. */
    method PlotChar(ch: Char, x: int, y: int)
      requires Framed() && 0 <= x && 0 <= y
      modifies fb
      ensures fb[..] == if x < g.cols && y < g.rows then Plot(g, font, canvas, old(fb[..]), None, ch, x, y)
                        else old(fb[..])
    {
      hide PlotTo;
      if x >= g.cols || y >= g.rows {
        return;
      }
      PlotGlyph(None, ch, x, y);
    }

    /** `plot_char_fast`: only the pixels where the glyph differs from the one before. */
    method PlotCharFast(was: Char, ch: Char, x: int, y: int)
      requires Framed() && 0 <= x && 0 <= y
      modifies fb
      ensures fb[..] == if x < g.cols && y < g.rows then Plot(g, font, canvas, old(fb[..]), Some(was), ch, x, y)
                        else old(fb[..])
    {
      hide PlotTo;
      if x >= g.cols || y >= g.rows {
        return;
      }
      PlotGlyph(Some(was), ch, x, y);
    }

    /** The glyph rows of either routine. */
    method PlotGlyph(was: Option<Char>, ch: Char, x: int, y: int)
      requires Framed() && 0 <= x < g.cols && 0 <= y < g.rows
      modifies fb
      ensures fb[..] == Plot(g, font, canvas, old(fb[..]), was, ch, x, y)
    {
      hide PlotTo, Left, Top;
      ghost var fb0 := fb[..];
      CellInside(g, x, y);
      PlotStart(g, font, canvas, fb0, was, ch, x, y);
      var gy := 0;
      while gy < g.GlyphHeight()
        invariant 0 <= gy <= g.GlyphHeight()
        invariant fb[..] == PlotTo(g, font, canvas, fb0, was, ch, x, y, 0, gy)
      {
        PlotGlyphRow(was, ch, x, y, gy, fb0);
        PlotRow(g, font, canvas, fb0, was, ch, x, y, gy);
        gy := gy + 1;
      }
    }

    /** One glyph row: font columns, each drawn `scaleX` pixels wide. */
    method PlotGlyphRow(was: Option<Char>, ch: Char, x: int, y: int, gy: int, ghost fb0: seq<int>)
      requires Framed() && 0 <= x < g.cols && 0 <= y < g.rows && 0 <= gy < g.GlyphHeight() && |fb0| == fb.Length
      requires fb[..] == PlotTo(g, font, canvas, fb0, was, ch, x, y, 0, gy)
      modifies fb
      ensures fb[..] == PlotTo(g, font, canvas, fb0, was, ch, x, y, g.GlyphWidth(), gy)
    {
      hide PlotTo, Left, Top, Drawn, Geometry.Fits;
      Positive(g);
      var fx := 0;
      ghost var gx := 0;
      while fx < g.fontWidth
        invariant 0 <= fx <= g.fontWidth && gx == g.scaleX * fx
        invariant fb[..] == PlotTo(g, font, canvas, fb0, was, ch, x, y, gx, gy)
      {
        PlotColumn(was, ch, x, y, fx, gy, fb0, gx);
        NextColumn(g.scaleX, fx);
        fx, gx := fx + 1, gx + g.scaleX;
      }
    }

    /** One font column of one glyph row; skipped when replacing a glyph that agrees there. */
    method PlotColumn(was: Option<Char>, ch: Char, x: int, y: int, fx: int, gy: int, ghost fb0: seq<int>, ghost gx: int)
      requires Framed() && 0 <= x < g.cols && 0 <= y < g.rows && 0 <= gy < g.GlyphHeight() && |fb0| == fb.Length
      requires 0 <= fx < g.fontWidth && gx == g.scaleX * fx
      requires fb[..] == PlotTo(g, font, canvas, fb0, was, ch, x, y, gx, gy)
      modifies fb
      ensures fb[..] == PlotTo(g, font, canvas, fb0, was, ch, x, y, gx + g.scaleX, gy)
    {
      hide PlotTo, Left, Top, Drawn, Geometry.Fits;
      Positive(g);
      var fy := gy / g.scaleY;
      var draw := font(ch.c, fx, fy);
      if was.Some? && font(was.value.c, fx, fy) == draw {
        SkipColumn(g, font, canvas, fb0, was, ch, x, y, fx, gy, g.scaleX);
        return;
      }
      var i := 0;
      while i < g.scaleX
        invariant 0 <= i <= g.scaleX
        invariant fb[..] == PlotTo(g, font, canvas, fb0, was, ch, x, y, gx + i, gy)
      {
        ScaledColumn(g, fx, i);
        DrawnHere(was, ch, fx, g.scaleX * fx + i, gy);
        PaintPixel(draw, ch, Left(g, x), Top(g, y), g.scaleX * fx + i, gy, fb0, was, x, y);
        i := i + 1;
      }
    }

    lemma DrawnHere(was: Option<Char>, ch: Char, fx: int, gx: int, gy: int)
      requires g.scaleX > 0 && g.scaleY > 0 && gx / g.scaleX == fx
      requires was.Some? ==> font(was.value.c, fx, gy / g.scaleY) != font(ch.c, fx, gy / g.scaleY)
      ensures Drawn(g, font, was, ch, gx, gy)
    {
    }

    /** The innermost assignment of both plotting routines. */
    method PaintPixel(draw: bool, ch: Char, px: int, py: int, gx: int, gy: int,
                      ghost fb0: seq<int>, ghost was: Option<Char>, ghost x: int, ghost y: int)
      requires Framed() && 0 <= x < g.cols && 0 <= y < g.rows && px == Left(g, x) && py == Top(g, y)
      requires |fb0| == fb.Length && 0 <= gx < g.GlyphWidth() && 0 <= gy < g.GlyphHeight()
      requires draw == font(ch.c, gx / g.scaleX, gy / g.scaleY) && Drawn(g, font, was, ch, gx, gy)
      requires fb[..] == PlotTo(g, font, canvas, fb0, was, ch, x, y, gx, gy)
      modifies fb
      ensures fb[..] == PlotTo(g, font, canvas, fb0, was, ch, x, y, gx + 1, gy)
    {
      hide PlotTo, Left, Top;
      PlotStep(g, font, canvas, fb0, was, ch, x, y, gx, gy);
      var under := canvas(px + gx, py + gy);
      var bg := if ch.bg == TRANSPARENT then under else ch.bg;
      var fg := if ch.fg == TRANSPARENT then under else ch.fg;
      fb[px + gx + (py + gy) * g.pitch] := if draw then fg else bg;
    }

    // ---------- changing cells ----------

    method PushToQueue(c: Char, x: int, y: int)
      requires Queued() && 0 <= x && 0 <= y
      modifies queue, qmap, `queueI
      ensures Queued()
      ensures Cells() == if OnGrid(g, x, y) then old(Cells())[IdxOf(g, x, y) := c] else old(Cells())
    {
      hide Idx, Pending, Logical, Geometry.Fits;
      Positive(g);
      if x >= g.cols || y >= g.rows {
        return;
      }
      var i := y * g.cols + x;
      assert i == IdxOf(g, x, y) by { IdxFacts(g, x, y); assert i == Idx(g, x, y); }
      LogicalAt(grid[..], queue[..], qmap[..], i);
      var q := qmap[i];
      if q == -1 {
        if grid[i] == c {
          return;
        }
        AddItem(i, c, x, y);
      } else {
        ReplaceItem(i, c);
      }
    }

    /** A fresh queue item for cell `i`. */
    method AddItem(i: int, c: Char, x: int, y: int)
      requires Queued() && OnGrid(g, x, y) && i == IdxOf(g, x, y) && qmap[i] == -1
      modifies queue, qmap, `queueI
      ensures Queued() && Cells() == old(Cells())[i := c]
    {
      hide Idx, Pending, Logical;
      PushNew(g, grid[..], queue[..], qmap[..], queueI, c, x, y);
      var q := queueI;
      queueI := queueI + 1;
      queue[q] := Item(x, y, c);
      qmap[i] := q;
      assert queue[..] == old(queue[..])[q := Item(x, y, c)] && qmap[..] == old(qmap[..])[i := q];
    }

    /** A new character in the queue item of cell `i`. */
    method ReplaceItem(i: int, c: Char)
      requires Queued() && 0 <= i < g.Cells() && qmap[i] != -1
      modifies queue
      ensures Queued() && Cells() == old(Cells())[i := c]
    {
      hide Idx, Pending, Logical;
      PushAgain(g, grid[..], queue[..], qmap[..], queueI, c, i);
      var q := qmap[i];
      queue[q] := queue[q].(c := c);
      assert queue[..] == old(queue[..])[q := old(queue[..])[q].(c := c)];
    }

    /** The character of cell `i`, pending or not. */
    method CharAt(i: int) returns (c: Char)
      requires Queued() && 0 <= i < g.Cells()
      ensures c == Cells()[i]
    {
      assert SlotOk(g, queue[..], qmap[..], queueI, i);
      c := if qmap[i] != -1 then queue[qmap[i]].c else grid[i];
    }

    /** Set cell number `i`, given by its coordinates `i % cols` and `i / cols`. */
    method SetCell(i: int, c: Char)
      requires Queued() && 0 <= i < g.Cells()
      modifies queue, qmap, `queueI
      ensures Queued() && Cells() == old(Cells())[i := c]
    {
      hide Pending, Logical, Geometry.Fits;
      Positive(g);
      CellOfIdx(g, i);
      PushToQueue(c, i % g.cols, i / g.cols);
    }

    /** Blank cells [lo, hi). */
    method BlankCells(lo: int, hi: int)
      requires Queued() && 0 <= lo <= hi <= g.Cells()
      modifies queue, qmap, `queueI
      ensures Queued()
      ensures Cells() == Blanked(old(Cells()), lo, hi, Blank(textFg, textBg))
    {
      hide Pending, Logical, Blanked;
      ghost var was := Cells();
      var i := lo;
      assert Blanked(was, lo, lo, Blank(textFg, textBg)) == was by { BlankNothing(was, lo, Blank(textFg, textBg)); }
      while i < hi
        invariant lo <= i <= hi && Queued()
        invariant Cells() == Blanked(was, lo, i, Blank(textFg, textBg))
      {
        BlankStep(was, lo, i, Blank(textFg, textBg));
        SetCell(i, Blank(textFg, textBg));
        i := i + 1;
      }
    }

    /** Copy cells [lo + cols, hi) one line up, in ascending order. */
    method ShiftUp(lo: int, hi: int)
      requires Queued() && 0 <= lo && lo + g.cols <= hi <= g.Cells()
      modifies queue, qmap, `queueI
      ensures Queued()
      ensures Cells() == ShiftedUp(old(Cells()), g.cols, lo, hi - g.cols)
    {
      hide Pending, Logical, ShiftedUp;
      ghost var was := Cells();
      var i := lo + g.cols;
      ShiftNothing(was, g.cols, lo);
      while i < hi
        invariant lo + g.cols <= i <= hi && Queued()
        invariant Cells() == ShiftedUp(was, g.cols, lo, i - g.cols)
      {
        UpStep(was, g.cols, lo, i - g.cols);
        var c := CharAt(i);
        SetCell(i - g.cols, c);
        i := i + 1;
      }
    }

    /** Copy cells [lo, hi - cols) one line down, in descending order. */
    method ShiftDown(lo: int, hi: int)
      requires Queued() && 0 <= lo && lo + g.cols < hi <= g.Cells()
      modifies queue, qmap, `queueI
      ensures Queued()
      ensures Cells() == ShiftedDown(old(Cells()), g.cols, lo + g.cols, hi)
    {
      hide Pending, Logical, ShiftedDown;
      ghost var was := Cells();
      var i := hi - g.cols - 1;
      ShiftNothing(was, g.cols, hi);
      while true
        invariant lo <= i < hi - g.cols && Queued()
        invariant Cells() == ShiftedDown(was, g.cols, i + g.cols + 1, hi)
        decreases i
      {
        DownStep(was, g.cols, i + g.cols + 1, hi);
        var c := CharAt(i);
        SetCell(i + g.cols, c);
        if i == lo {
          break;
        }
        i := i - 1;
      }
    }

    /** `fbterm_scroll`. */
    method Scroll()
      requires Queued()
      modifies queue, qmap, `queueI
      ensures Queued()
      ensures bottomMargin * g.cols <= |old(Cells())| && Cells() ==
                Scrolled(old(Cells()), g.cols, topMargin, bottomMargin, Blank(textFg, textBg))
    {
      hide Pending, Logical, Geometry.Fits, Scrolled;
      Positive(g);
      ScrolledIs(Cells(), g, topMargin, bottomMargin, Blank(textFg, textBg));
      var lo, hi := topMargin * g.cols, bottomMargin * g.cols;
      ShiftUp(lo, hi);
      BlankCells(hi - g.cols, hi);
    }

    /** `fbterm_revscroll`; with a region of one line its loop would start before the region. */
    method RevScroll()
      requires Queued() && topMargin + 1 < bottomMargin
      modifies queue, qmap, `queueI
      ensures Queued()
      ensures bottomMargin * g.cols <= |old(Cells())| && Cells() ==
                RevScrolled(old(Cells()), g.cols, topMargin, bottomMargin, Blank(textFg, textBg))
    {
      hide Pending, Logical, Geometry.Fits, RevScrolled;
      Positive(g);
      RevScrolledIs(Cells(), g, topMargin, bottomMargin, Blank(textFg, textBg));
      var lo, hi := topMargin * g.cols, bottomMargin * g.cols;
      assert lo + g.cols < hi by { LineBounds(g, topMargin, topMargin + 1); LineBounds(g, topMargin + 1, bottomMargin); }
      ShiftDown(lo, hi);
      BlankCells(lo, lo + g.cols);
    }

    /** `fbterm_clear`. */
    method Clear(move: bool)
      requires Queued()
      modifies queue, qmap, `queueI, `cursorX, `cursorY
      ensures Queued()
      ensures Cells() == Blanked(old(Cells()), 0, g.Cells(), Blank(textFg, textBg))
      ensures if move then cursorX == 0 && cursorY == 0 else unchanged(`cursorX) && unchanged(`cursorY)
    {
      hide Pending, Logical;
      BlankCells(0, g.Cells());
      if move {
        cursorX, cursorY := 0, 0;
      }
    }

    /** `fbterm_move_character`: copy one cell to another. */
    method MoveCharacter(newX: int, newY: int, fromX: int, fromY: int)
      requires Queued() && 0 <= newX && 0 <= newY && 0 <= fromX && 0 <= fromY
      modifies queue, qmap, `queueI
      ensures Queued()
      ensures Cells() == if OnGrid(g, fromX, fromY) && OnGrid(g, newX, newY)
                         then old(Cells())[IdxOf(g, newX, newY) := old(Cells())[IdxOf(g, fromX, fromY)]]
                         else old(Cells())
    {
      hide Pending, Logical, Geometry.Fits;
      Positive(g);
      if fromX >= g.cols || fromY >= g.rows || newX >= g.cols || newY >= g.rows {
        return;
      }
      IdxFacts(g, fromX, fromY);
      var c := CharAt(fromX + fromY * g.cols);
      PushToQueue(c, newX, newY);
    }

    // ---------- painting ----------

    /**
     `draw_cursor`: paint the cursor cell inverted and take its pending change into the grid. Off the grid
     nothing is painted, yet the cell at that index still loses its pending change.
     */
    method DrawCursor(ghost k: int)
      requires Framed() && grid.Length == g.Cells() && fb != qmap
      requires 0 <= cursorX && 0 <= cursorY && CursorCell() < g.Cells()
      requires queue.Length == g.Cells() && Flushing(g, queue[..], qmap[..], queueI, k)
      modifies fb, grid, qmap
      ensures 0 <= CursorCell() && (OnGrid(g, cursorX, cursorY) ==> CursorCell() == IdxOf(g, cursorX, cursorY))
      ensures var i := CursorCell();
              && fb[..] == (if OnGrid(g, cursorX, cursorY)
                            then PlotCell(Looks(), old(fb[..]), None, Inverted(old(Cells())[i]), i) else old(fb[..]))
              && grid[..] == old(grid[..])[i := old(Cells())[i]]
              && qmap[..] == old(qmap[..])[i := -1]
    {
      hide Plot;
      CursorIndex();
      var i := CursorCell();
      hide Idx;
      assert StillMapped(g, queue[..], qmap[..], queueI, k, i);
      var q := qmap[i];
      var c := if q != -1 then queue[q].c else grid[i];
      assert c == Cells()[i];
      PlotChar(Inverted(c), cursorX, cursorY);
      if q != -1 {
        grid[i] := queue[q].c;
        qmap[i] := -1;
      }
      assert grid[..] == old(grid[..])[i := c];
      assert qmap[..] == old(qmap[..])[i := -1];
    }

    lemma CursorIndex()
      requires g.Fits() && 0 <= cursorX && 0 <= cursorY
      ensures 0 <= CursorCell()
      ensures OnGrid(g, cursorX, cursorY) ==> CursorCell() == IdxOf(g, cursorX, cursorY)
                                              && CursorCell() % g.cols == cursorX && CursorCell() / g.cols == cursorY
    {
      if OnGrid(g, cursorX, cursorY) { IdxFacts(g, cursorX, cursorY); }
    }

    /** The framebuffer is `fb0` with every one of `cells` plotted, the enabled cursor inverted. */
    ghost predicate Redrawn(fb0: seq<int>, cells: seq<Char>)
      reads this, fb
    {
      && g.Fits() && |cells| == g.Cells()
      && fb[..] == PlotAll(Looks(), fb0, Visible(g, cells, cursorOn, cursorX, cursorY), |cells|)
    }

    twostate predicate SettingsKept()
      reads this
    {
      && cursorX == old(cursorX) && cursorY == old(cursorY) && cursorOn == old(cursorOn)
      && textFg == old(textFg) && textBg == old(textBg) && scrollEnabled == old(scrollEnabled)
      && topMargin == old(topMargin) && bottomMargin == old(bottomMargin)
    }

    /** What holds while the queue is being flushed, before item `k`; cell `z`, if any, is never painted. */
    ghost predicate Halfway(k: int, cells: seq<Char>, fb0: seq<int>, ex: set<int>, z: int)
      reads this, fb, grid, queue, qmap
    {
      && Framed() && fb != qmap && grid.Length == queue.Length == qmap.Length == g.Cells()
      && 0 <= cursorX && 0 <= cursorY && 0 <= oldX && 0 <= oldY
      && 0 <= k <= queueI <= g.Cells() && Flushing(g, queue[..], qmap[..], queueI, k)
      && Cells() == cells
      && AllSettled(Looks(), fb[..], grid[..], CursorShown(), CursorCell(), ex)
      && (CursorShown() ==> 0 <= CursorCell() < g.Cells() && qmap[CursorCell()] == -1)
      && MarginKept(g, fb0, fb[..])
      && (z != -1 ==> 0 <= z < g.Cells() && qmap[z] == -1 && CellKept(Looks(), fb0, fb[..], z))
    }

    /** The cell that an enabled cursor off the grid makes the flush forget to paint. */
    ghost function Lost(): set<int>
      reads this, qmap
    {
      if cursorOn && !OnGrid(g, cursorX, cursorY) && 0 <= CursorCell() < qmap.Length && qmap[CursorCell()] != -1
      then {CursorCell()} else {}
    }

    /** No part of the flush paints cell `z`, except that the old cursor may be there. */
    ghost predicate Unpainted(z: int)
      reads this, qmap
    {
      0 <= z < qmap.Length && (qmap[z] == -1 || z in Lost()) && !(CursorShown() && z == CursorCell())
    }

    /** The start of the flush: the cursor, if it is on. */
    method BeginFlush(ghost cells: seq<Char>, ghost fb0: seq<int>, ghost ex: set<int>, ghost z: int)
      requires ValidBut(ex) && Drawable() && cells == Cells() && fb0 == fb[..] && (z != -1 ==> Unpainted(z))
      modifies fb, grid, qmap
      ensures Halfway(0, cells, fb0, ex + old(Lost()), z)
    {
      hide Idx, Pending, Flushing, Logical, AllSettled, Plot, InMargin, CellHas, CellColour, PlotCell;
      Positive(g);
      ghost var grid0, qmap0 := grid[..], qmap[..];
      FlushBegins(g, queue[..], qmap[..], queueI);
      CursorIndex();
      ghost var cur := CursorCell();
      ghost var ex' := ex + Lost();
      if cursorOn {
        TakeCell(g, grid0, queue[..], qmap0, queueI, 0, cur);
        if CursorShown() {
          CursorSettles(Looks(), fb0, grid0, cur, ex, cells[cur]);
          PlotKeepsMargin(Looks(), fb0, fb0, None, Inverted(cells[cur]), cur);
          if z != -1 { PlotKeepsCell(Looks(), fb0, fb0, None, Inverted(cells[cur]), cur, z); }
          assert ex' == ex;
        } else {
          LogicalAt(grid0, queue[..], qmap0, cur);
          LostSettles(Looks(), fb0, grid0, cur, ex, ex', cells[cur]);
        }
        DrawCursor(0);
      } else {
        NoCursorSettles(Looks(), fb0, grid0, cur, ex);
        assert ex' == ex;
      }
    }

    /** Repaint where the cursor was, unless it still is there and on. */
    method RepaintOldCursor(ghost cells: seq<Char>, ghost fb0: seq<int>, ghost ex: set<int>, ghost z: int)
      requires Halfway(queueI, cells, fb0, ex, z)
      modifies fb
      ensures Halfway(queueI, cells, fb0, ex - OldCells(), if z in OldCells() then -1 else z)
    {
      hide Idx, Flushing, Logical, AllSettled, MarginKept, Plot, PlotCell, Shows, CellHas, CellColour, Geometry.Fits;
      Positive(g);
      CursorIndex();
      if oldX < g.cols && oldY < g.rows {
        ghost var oc := IdxOf(g, oldX, oldY);
        IdxFacts(g, oldX, oldY);
        assert OldCells() == {oc};
        if oldX != cursorX || oldY != cursorY || !cursorOn {
          ghost var fb1 := fb[..];
          var c := grid[IdxOf(g, oldX, oldY)];
          PlotChar(c, oldX, oldY);
          assert fb[..] == PlotCell(Looks(), fb1, None, c, oc) by { PlotCellIs(Looks(), fb1, None, c, oc, oldX, oldY); }
          SettleCell(Looks(), fb1, fb[..], grid[..], CursorShown(), CursorCell(), ex, oc, c, None, c);
          assert grid[..][oc := c] == grid[..];
          PlotShows(Looks(), fb1, c, oc);
          PlotKeepsMargin(Looks(), fb0, fb1, None, c, oc);
          if z != -1 && z != oc { PlotKeepsCell(Looks(), fb0, fb1, None, c, oc, z); }
        }
        SettledBut(Looks(), fb[..], grid[..], CursorShown(), CursorCell(), ex, oc);
      } else {
        assert OldCells() == {} && ex - OldCells() == ex; // `plot_char` returns at once
      }
    }

    /** The end of the flush: everything painted, nothing pending. */
    method EndFlush(ghost cells: seq<Char>, ghost fb0: seq<int>, ghost ex: set<int>, ghost z: int)
      requires Halfway(queueI, cells, fb0, ex, z) && 0 <= topMargin < bottomMargin <= g.rows
      modifies this, fb
      ensures ValidBut(if CursorShown() then ex - old(OldCells()) + {CursorCell()} else ex - old(OldCells()))
      ensures Cells() == cells && grid[..] == cells && queueI == 0 && oldX == cursorX && oldY == cursorY
      ensures forall i :: 0 <= i < qmap.Length ==> qmap[i] == -1
      ensures AllSettled(Looks(), fb[..], grid[..], CursorShown(), CursorCell(), ex - old(OldCells()))
      ensures MarginKept(g, fb0, fb[..]) && SettingsKept()
      ensures z != -1 && z !in old(OldCells()) ==> CellKept(Looks(), fb0, fb[..], z)
    {
      hide Idx, Pending, Flushing, Logical, AllSettled, MarginKept, CellKept, Plot, PlotAll, Shows;
      Positive(g);
      RepaintOldCursor(cells, fb0, ex, z);
      FlushEnds(g, grid[..], queue[..], qmap[..], queueI);
      SettledSynced(Looks(), fb[..], grid[..], CursorShown(), CursorCell(), ex - OldCells());
      oldX, oldY := cursorX, cursorY;
      queueI := 0;
    }

    /** The body of the flush loop. */
    method FlushItem(k: int, ghost cells: seq<Char>, ghost fb0: seq<int>, ghost ex: set<int>, ghost z: int)
      requires Halfway(k, cells, fb0, ex, z) && k < queueI
      modifies fb, grid, qmap
      ensures Halfway(k + 1, cells, fb0, ex, z)
    {
      hide Idx, Flushing, Logical, AllSettled, MarginKept, CellKept, Plot;
      FlushAdvances(g, queue[..], qmap[..], queueI, k);
      var q := queue[k];
      var offset := q.y * g.cols + q.x;
      assert offset == ItemCell(g, q) by { ItemCellIs(g, q); }
      if qmap[offset] == -1 {
        return;
      }
      PaintItem(k, offset, cells, fb0, ex, z);
    }

    /** Paint a mapped item and settle its cell. */
    method PaintItem(k: int, offset: int, ghost cells: seq<Char>, ghost fb0: seq<int>, ghost ex: set<int>, ghost z: int)
      requires Halfway(k, cells, fb0, ex, z) && k < queueI && 0 <= offset < g.Cells() && qmap[offset] == k
      requires offset == ItemCell(g, queue[k])
      modifies fb, grid, qmap
      ensures Halfway(k + 1, cells, fb0, ex, z)
    {
      hide Idx, Flushing, AllSettled, MarginKept, CellKept, Plot;
      Positive(g);
      ghost var grid0, qmap0, fb1 := grid[..], qmap[..], fb[..];
      ItemOnGrid(g, queue[..], qmap[..], queueI, k);
      TakeCell(g, grid0, queue[..], qmap0, queueI, k, offset);
      var q := queue[k];
      var was := grid[offset];
      ghost var over := None;
      if q.c.bg == was.bg && q.c.fg == was.fg {
        PlotCharFast(was, q.c, q.x, q.y);
        over := Some(was);
      } else {
        PlotChar(q.c, q.x, q.y);
      }
      SettleCell(Looks(), fb1, fb[..], grid0, CursorShown(), CursorCell(), ex, offset, q.c, over, q.c);
      PlotKeepsMargin(Looks(), fb0, fb1, over, q.c, offset);
      if z != -1 { PlotKeepsCell(Looks(), fb0, fb1, over, q.c, offset, z); }
      grid[offset] := q.c;
      qmap[offset] := -1;
      assert grid[..] == grid0[offset := q.c] && qmap[..] == qmap0[offset := -1];
      FlushAdvances(g, queue[..], qmap[..], queueI, k);
    }

    /**
     `fbterm_double_buffer_flush` from any state whose queue is in step: cells in `ex` may not show the
     grid. Afterwards the old cursor's cell does, and a cell that nothing painted has the pixels it had.
     */
    method FlushFrom(ghost ex: set<int>, ghost z: int)
      requires ValidBut(ex) && Drawable() && (z != -1 ==> Unpainted(z))
      modifies this, fb, grid, qmap
      ensures var rest := ex + old(Lost()) - old(OldCells());
              && AllSettled(Looks(), fb[..], grid[..], CursorShown(), CursorCell(), rest)
              && ValidBut(if CursorShown() then rest + {CursorCell()} else rest)
      ensures Cells() == old(Cells()) && grid[..] == Cells() && queueI == 0 && oldX == cursorX && oldY == cursorY
      ensures forall i :: 0 <= i < qmap.Length ==> qmap[i] == -1
      ensures MarginKept(g, old(fb[..]), fb[..]) && SettingsKept()
      ensures z != -1 && z !in old(OldCells()) ==> CellKept(Looks(), old(fb[..]), fb[..], z)
    {
      hide Idx, Pending, Flushing, Logical, AllSettled, MarginKept, CellKept, Plot, PlotCell, PlotAll;
      ghost var cells, fb0, ex' := Cells(), fb[..], ex + Lost();
      BeginFlush(cells, fb0, ex, z);
      var i := 0;
      while i < queueI
        invariant 0 <= i <= queueI && Halfway(i, cells, fb0, ex', z)
        modifies fb, grid, qmap
      {
        FlushItem(i, cells, fb0, ex', z);
        i := i + 1;
      }
      EndFlush(cells, fb0, ex', z);
    }

    /** What a flush leaves on the screen: a pending change under a cursor off the grid is forgotten. */
    ghost function Painted(): seq<Char>
      reads this, grid, queue, qmap
      requires g.Fits() && grid.Length == g.Cells() && Drawable() && 0 <= cursorX && 0 <= cursorY
    {
      CursorIndex();
      if cursorOn && !OnGrid(g, cursorX, cursorY) && CursorCell() !in OldCells()
      then Cells()[CursorCell() := grid[CursorCell()]]
      else Visible(g, Cells(), cursorOn, cursorX, cursorY)
    }

    /**
     `fbterm_double_buffer_flush`: after it the screen is the full redraw of the cells with the enabled
     cursor inverted. With the cursor behind the last column there is no cursor to see, and the cell at
     its index keeps its old look.
     */
    method Flush()
      requires Valid() && Drawable()
      modifies this, fb, grid, qmap
      ensures Queued() && Cells() == old(Cells()) && grid[..] == Cells() && queueI == 0 && 0 <= cursorX && 0 <= cursorY
      ensures forall i :: 0 <= i < qmap.Length ==> qmap[i] == -1
      ensures fb[..] == PlotAll(Looks(), old(fb[..]), old(Painted()), g.Cells()) && SettingsKept()
      ensures (cursorOn ==> OnGrid(g, cursorX, cursorY)) ==> Valid() && Redrawn(old(fb[..]), Cells())
    {
      hide Idx, Pending, Flushing, Logical, AllSettled, MarginKept, CellKept, Plot, PlotCell, PlotAll, Shows, Synced,
        Geometry.Fits, WithCursor, Painted, Lost;
      Positive(g);
      ghost var cells, fb0, grid0, lost, ocs := Cells(), fb[..], grid[..], Lost(), OldCells();
      ghost var i, want := CursorCell(), Painted();
      PaintedIs();
      ghost var forgotten := lost != {} && i !in ocs;
      FlushFrom(ocs, if lost != {} then i else -1);
      assert ocs + lost - ocs == if forgotten then {i} else {};
      if forgotten {
        SettledButOne(Looks(), fb0, fb[..], grid0, cells, ocs, i);
      } else {
        SettledIsRedraw(Looks(), fb0, fb[..], cells, CursorShown(), i, want);
      }
      if CursorShown() {
        assert OldCells() == {i} && {} + {i} == {i};
      } else if !cursorOn {
        SyncedMore(Looks(), fb[..], grid[..], {}, OldCells());
      }
    }

    lemma PaintedIs()
      requires Valid() && Drawable()
      ensures (CursorShown() || Lost() != {} ==> 0 <= CursorCell() < g.Cells()) && (!cursorOn ==> Lost() == {})
      ensures CursorShown() ==> OnGrid(g, cursorX, cursorY) && CursorCell() == IdxOf(g, cursorX, cursorY)
      ensures Lost() != {} ==> !CursorShown() && Lost() == {CursorCell()} && Unpainted(CursorCell())
      ensures Painted() == if Lost() != {} && CursorCell() !in OldCells() then Cells()[CursorCell() := grid[CursorCell()]]
                           else if CursorShown() then WithCursor(Cells(), true, CursorCell()) else Cells()
      ensures !cursorOn || CursorShown() ==> Painted() == Visible(g, Cells(), cursorOn, cursorX, cursorY)
    {
      hide Idx, Pending, Synced, Geometry.Fits;
      Positive(g);
      CursorIndex();
      if cursorOn { LogicalAt(grid[..], queue[..], qmap[..], CursorCell()); }
    }

    // ---------- commands ----------

    ghost function View(): Screen
      reads this, grid, queue, qmap
    {
      Screen(Cells(), cursorX, cursorY, cursorOn, textFg, textBg, topMargin, bottomMargin, scrollEnabled)
    }

    lemma ViewWellFormed()
      requires Queued() && 0 <= cursorX && 0 <= cursorY
      ensures WellFormed(g, View())
    {
      hide Pending, Logical;
      LineBounds(g, topMargin, bottomMargin);
    }

    /** `fbterm_raw_putchar`. */
    method RawPutchar(c: int)
      requires Queued() && 0 <= cursorX && 0 <= cursorY
      modifies queue, qmap, `queueI, `cursorX, `cursorY
      ensures Queued() && 0 <= cursorX && 0 <= cursorY
      ensures WellFormed(g, old(View())) && View() == Typed(g, old(View()), c) && LetterTyped(g, old(View()), c, View())
    {
      hide Pending, Logical, Geometry.Fits, Scrolled, LetterTyped;
      Positive(g);
      ViewWellFormed();
      TypedIsLetter(g, View(), c);
      PushToQueue(Char(c, textFg, textBg), cursorX, cursorY);
      cursorX := cursorX + 1;
      if cursorX == g.cols && (cursorY < bottomMargin - 1 || scrollEnabled) {
        cursorX := 0;
        cursorY := cursorY + 1;
      }
      if cursorY == bottomMargin {
        cursorY := cursorY - 1;
        Scroll();
      }
    }

    /** `fbterm_set_cursor_pos`: the cursor always ends up on the grid. */
    method SetCursorPos(x: nat, y: nat)
      requires g.cols > 0 && g.rows > 0
      modifies `cursorX, `cursorY
      ensures cursorX == Clamp(x, g.cols) && cursorY == Clamp(y, g.rows) && OnGrid(g, cursorX, cursorY)
    {
      cursorX, cursorY := x, y;
      if x >= g.cols {
        cursorX := if x / 0x8000_0000 % 2 == 1 then 0 else g.cols - 1;
      }
      if y >= g.rows {
        cursorY := if y / 0x8000_0000 % 2 == 1 then 0 else g.rows - 1;
      }
    }

    /** One command; whatever it does to queue, map and pixels, the user sees the specified screen. */
    method Do(cmd: Command)
      requires Valid() && Ready(g, View(), cmd)
      modifies this, fb, grid, queue, qmap
      ensures Valid()
      ensures WellFormed(g, old(View())) && View() == After(g, old(View()), cmd)
      ensures MarginKept(g, old(fb[..]), fb[..])
    {
      hide Pending, Logical, Geometry.Fits, Scrolled, RevScrolled, Synced, InMargin, Typed, PlotAll, Blanked;
      Positive(g);
      ViewWellFormed();
      match cmd
      case Put(c) => RawPutchar(c);
      case ScrollUp => Scroll();
      case ScrollDown => RevScroll();
      case Erase(home) => Clear(home);
      case Copy(nx, ny, ox, oy) => MoveCharacter(nx, ny, ox, oy);
      case MoveTo(x, y) => SetCursorPos(x, y);
      case ShowCursor(on) => cursorOn := on;
      case Colours(fg, bg) => textFg, textBg := fg, bg;
      case Flush =>
        CursorIndex();
        ghost var fb0 := fb[..];
        Flush();
        RedrawFromMargin(Looks(), fb0, fb0, Visible(g, Cells(), cursorOn, cursorX, cursorY));
    }

    /**
     Any run of commands, flushed at the end: the framebuffer is the full redraw, over the framebuffer
     the run began with, of the cells an ideal terminal would hold.
     */
    method Run(cmds: seq<Command>)
      requires Valid() && WellFormed(g, View()) && AllReady(g, View(), cmds + [Command.Flush])
      modifies this, fb, grid, queue, qmap
      ensures Valid() && queueI == 0
      ensures WellFormed(g, old(View())) && View() == AfterAll(g, old(View()), cmds)
      ensures Redrawn(old(fb[..]), AfterAll(g, old(View()), cmds).cells)
    {
      hide Pending, Logical, Geometry.Fits, Synced, InMargin, After, PlotAll;
      ghost var start, fb0 := View(), fb[..];
      ghost var all := cmds + [Command.Flush];
      var n := 0;
      while n < |cmds|
        invariant 0 <= n <= |cmds| && Valid() && View() == AfterAll(g, start, cmds[..n])
        invariant MarginKept(g, fb0, fb[..])
      {
        assert all[..n] == cmds[..n] && Ready(g, AfterAll(g, start, all[..n]), all[n]);
        assert cmds[..n + 1][..n] == cmds[..n];
        Do(cmds[n]);
        n := n + 1;
      }
      assert cmds[..n] == cmds && all[..n] == cmds && Ready(g, AfterAll(g, start, all[..n]), all[n]);
      RedrawFromMargin(Looks(), fb0, fb[..], Visible(g, Cells(), cursorOn, cursorX, cursorY));
      CursorIndex();
      Flush();
    }

    // ---------- full refresh ----------

    /** Copy the canvas over the visible part of the framebuffer. */
    method FillCanvas()
      requires Framed()
      modifies fb
      ensures fb[..] == FilledTo(g, canvas, old(fb[..]), 0, g.height)
    {
      hide FilledTo;
      ghost var fb0 := fb[..];
      FillNothing(g, canvas, fb0);
      var y := 0;
      while y < g.height
        invariant 0 <= y <= g.height && fb[..] == FilledTo(g, canvas, fb0, 0, y)
      {
        var x := 0;
        while x < g.width
          invariant 0 <= x <= g.width && fb[..] == FilledTo(g, canvas, fb0, x, y)
        {
          FillStep(g, canvas, fb0, x, y);
          fb[y * g.pitch + x] := canvas(x, y);
          x := x + 1;
        }
        FillLine(g, canvas, fb0, y);
        y := y + 1;
      }
    }

    /** Plot every grid cell. */
    method PlotGrid()
      requires Framed() && grid.Length == g.Cells()
      modifies fb
      ensures fb[..] == PlotAll(Looks(), old(fb[..]), grid[..], g.Cells())
    {
      hide Plot, Geometry.Fits;
      Positive(g);
      ghost var fb0 := fb[..];
      var i := 0;
      while i < g.Cells()
        invariant 0 <= i <= g.Cells() && fb[..] == PlotAll(Looks(), fb0, grid[..], i)
      {
        CellOfIdx(g, i);
        PlotChar(grid[i], i % g.cols, i / g.cols);
        i := i + 1;
      }
    }

    /** A cursor drawn now would be repainted by the next flush, or cannot be told from the upright cell. */
    ghost predicate Harmless()
      reads this, fb, grid, queue, qmap
      requires g.Fits() && 0 <= CursorCell() < grid.Length
    {
      CursorShown() ==> CursorCell() in OldCells() || SameLook(Looks(), fb[..], CursorCell(), Cells()[CursorCell()])
    }

    /**
     `fbterm_full_refresh`. It paints the grid, not the pending changes, and draws the cursor without
     remembering where. Queue and map survive exactly when the cursor is off or its cell had nothing
     pending; the renderer's invariant survives exactly when, besides, a cursor drawn away from where it
     was drawn last cannot be told from the upright cell.
     */
    method FullRefresh()
      requires Valid() && Drawable()
      modifies fb, grid, qmap
      ensures cursorOn ==> 0 <= CursorCell() < grid.Length
      ensures var i := CursorCell();
              && Cells() == old(Cells())
              && grid[..] == (if cursorOn then old(grid[..])[i := old(Cells())[i]] else old(grid[..]))
              && fb[..] == PlotAll(Looks(), FilledTo(g, canvas, old(fb[..]), 0, g.height),
                                   if CursorShown() then old(grid[..])[i := Inverted(old(Cells())[i])] else old(grid[..]),
                                   g.Cells())
      ensures Queued() <==> !cursorOn || old(qmap[CursorCell()]) == -1
      ensures qmap[..] == if cursorOn then old(qmap[..])[CursorCell() := -1] else old(qmap[..])
      ensures Valid() <==> (!cursorOn || old(qmap[CursorCell()] == -1 && Harmless()))
      ensures Queued() ==> ValidBut(if CursorShown() then {CursorCell()} else {})
      ensures CursorShown() ==> Shows(Looks(), fb[..], CursorCell(), Inverted(old(Cells())[CursorCell()]))
    {
      hide Idx, Pending, Flushing, Logical, FilledTo, PlotAll, Plot, PlotCell, Geometry.Fits, Shows, InMargin, SameLook, Synced;
      Positive(g);
      CursorIndex();
      ghost var i, ocs := CursorCell(), OldCells();
      ghost var grid0, qmap0, fb0 := grid[..], qmap[..], fb[..];
      FillCanvas();
      ghost var filled := fb[..];
      PlotGrid();
      RefreshedShows(Looks(), filled, grid0, ocs);
      RefreshedShows(Looks(), filled, grid0, {});
      if cursorOn {
        FlushBegins(g, queue[..], qmap[..], queueI);
        TakeCell(g, grid0, queue[..], qmap0, queueI, 0, i);
        DroppedItem(g, queue[..], qmap0, queueI, i);
        LogicalAt(grid0, queue[..], qmap0, i);
        ghost var c := Cells()[i];
        CursorOverGrid(Looks(), filled, grid0, i, c);
        ghost var all := fb[..];
        DrawCursor(0);
        assert qmap0[i] == -1 ==> grid[..] == grid0 && qmap[..] == qmap0;
        if CursorShown() {
          assert grid0[i := c][i := Inverted(c)] == grid0[i := Inverted(c)];
          PlotShows(Looks(), all, Inverted(c), i);
          SyncedWithout(Looks(), fb[..], grid[..], i, ocs);
          InvertedShows(Looks(), fb[..], i, c);
          SameLookSize(Looks(), fb0, fb[..], i, c);
        }
      }
    }

    /**
     The invariant broken: after a refresh with the cursor away from where it was last drawn, on a cell of
     two opaque colours, the next flush with the cursor elsewhere is no redraw of the screen whatever the
     framebuffer held before.
     */
    method StrayCursor(x: nat, y: nat)
      requires Valid() && CursorShown() && 0 <= CursorCell() < qmap.Length && qmap[CursorCell()] == -1
      requires CursorCell() !in OldCells() && x < g.cols && y < g.rows && y * g.cols + x != CursorCell()
      requires 0 <= CursorCell() < |Cells()|
      requires var c := Cells()[CursorCell()]; c.fg != TRANSPARENT && c.bg != TRANSPARENT && c.fg != c.bg
      modifies this, fb, grid, qmap
      ensures Queued() && Cells() == old(Cells()) && queueI == 0
      ensures forall fb0: seq<int> :: !Redrawn(fb0, Cells())
    {
      hide Idx, Pending, Flushing, Logical, FilledTo, PlotAll, Plot, PlotCell, Geometry.Fits, Shows, CellKept, InMargin, SameLook,
        Synced, AllSettled;
      Positive(g);
      CursorIndex();
      ghost var i := CursorCell();
      ghost var c := Cells()[i];
      LogicalAt(grid[..], queue[..], qmap[..], i);
      FullRefresh();
      assert qmap[i] == -1;
      SetCursorPos(x, y);
      CursorIndex();
      ghost var fb1 := fb[..];
      FlushFrom({i}, i);
      KeptShows(Looks(), fb1, fb[..], i, Inverted(c));
      ghost var seen := Visible(g, Cells(), cursorOn, cursorX, cursorY);
      assert seen[i] == c;
      forall fb0: seq<int> ensures !Redrawn(fb0, Cells()) {
        InvertedIsNoRedraw(Looks(), fb0, fb[..], seen, i, c);
      }
    }

    /** One such terminal: one line of two cells of one pixel, black on white. */
    static method StrayCursorExample() returns (t: Terminal)
      ensures t.Queued() && forall fb0: seq<int> :: !t.Redrawn(fb0, t.Cells())
    {
      var g := Geometry(1, 2, 1, 1, 1, 1, 0, 0, 2, 1, 2);
      var fb := new int[2](_ => 0);
      t := new Terminal(g, (c, x, y) => false, (x, y) => 0, fb, 0, 0xFFFFFF);
      t.SetCursorPos(1, 0);
      LogicalAt(t.grid[..], t.queue[..], t.qmap[..], 1);
      t.StrayCursor(0, 0);
    }

    /**
     A flush that forgets a cell: two lines of one cell of one pixel, scrolling off, the region only the
     first line. A letter typed into the second leaves the cursor behind the first, and is not painted.
     */
    static method ForgottenCellExample() returns (t: Terminal)
      ensures t.Queued() && |t.Cells()| == 2 && !Shows(t.Looks(), t.fb[..], 1, t.Cells()[1])
    {
      hide Pending, Logical, Synced, Shows, PlotAll, Plot, PlotCell, Typed, Geometry.Fits;
      TallFits();
      var fb := new int[2](_ => 0);
      t := new Terminal(TALL, (c, x, y) => c == 65, (x, y) => 0, fb, 0, 0xFFFFFF);
      t.bottomMargin, t.scrollEnabled := 1, false;
      t.SetCursorPos(0, 1);
      TypedTall(t.View(), 65);
      t.RawPutchar(65);
      ghost var fb0, painted := t.fb[..], t.Painted();
      assert painted[1] == Blank(0, 0xFFFFFF);
      t.Flush();
      PlotAllShows(t.Looks(), fb0, painted, 2, 1);
      TallPixel(t.Looks(), t.fb[..]);
    }
  }

  const TALL: Geometry := Geometry(2, 1, 1, 1, 1, 1, 0, 0, 1, 2, 1)

  lemma TallFits()
    ensures TALL.Fits()
  {
  }

  lemma TypedTall(s: Screen, c: int)
    requires WellFormed(TALL, s) && s.x == 0 && s.y == 1 && s.top == 0 && s.bottom == 1 && !s.scrolls
    ensures var r := Typed(TALL, s, c);
            r == s.(cells := r.cells, x := 1, y := 0) && |r.cells| == 2 && r.cells[1] == Char(c, s.fg, s.bg)
  {
  }

  lemma TallPixel(k: Look, fb: seq<int>)
    requires k.g == TALL && TALL.Fits() && |fb| == 2 && Shows(k, fb, 1, Blank(0, 0xFFFFFF))
    requires k.font(65, 0, 0) && !k.font(Blank(0, 0xFFFFFF).c, 0, 0)
    ensures !Shows(k, fb, 1, Char(65, 0, 0xFFFFFF))
  {
    hide Geometry.Fits, CellColour, CellHas;
    TallColour(k, Blank(0, 0xFFFFFF));
    TallColour(k, Char(65, 0, 0xFFFFFF));
  }

  lemma TallColour(k: Look, ch: Char)
    requires k.g == TALL && TALL.Fits() && ch.fg != TRANSPARENT && ch.bg != TRANSPARENT
    ensures CellHas(TALL, 1, 1) && CellColour(k, 1, ch, 1) == if k.font(ch.c, 0, 0) then ch.fg else ch.bg
  {
    hide Geometry.Fits;
  }
}
