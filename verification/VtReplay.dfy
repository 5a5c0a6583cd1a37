/** Every screen that a stream of bytes can produce in apps/terminal/vt100.c can be written out as
    bytes that reproduce it on any other terminal of its size. */
module VtReplay {
  import opened Bytes
  import opened VtModel
  import opened VtInvariant
  import opened VtCommands

  /** All that is on the screen, and all that would be written next, can be drawn. */
  predicate Inked(v: Vt) {
    Ok(v) && AllDrawable(v.grid) && PenOk(v.pen)
  }

  // ---------------------------------------------------------------- grids

  lemma LineErasedInk(g: seq<Row>, r: int, from: int, to: int, blank: Cell)
    requires AllDrawable(g) && Drawable(blank)
    ensures AllDrawable(LineErased(g, r, from, to, blank))
  {
    if 0 <= r < |g| {
      assert DrawableRow(g[r]);
      assert DrawableRow(ErasedIn(g[r], from, to, blank));
    }
  }

  lemma RowsErasedInk(g: seq<Row>, cols: int, from: int, to: int, blank: Cell)
    requires cols >= 0 && AllDrawable(g) && Drawable(blank)
    ensures AllDrawable(RowsErased(g, cols, from, to, blank))
  {
    assert DrawableRow(Repeated(cols, blank));
  }

  lemma ScrolledInk(g: seq<Row>, cols: nat, top: nat, bot: nat, n: nat, blank: Cell)
    requires top < |g| && bot < |g| && n >= 1 && AllDrawable(g) && Drawable(blank)
    ensures AllDrawable(ScrolledUp(g, cols, top, bot, n, blank))
    ensures AllDrawable(ScrolledDown(g, cols, top, bot, n, blank))
  {
    RowsErasedInk(MovedUp(g, top, bot, n), cols, bot - n + 1, bot, blank);
    RowsErasedInk(MovedDown(g, top, bot, n), cols, top, top + n - 1, blank);
  }

  lemma RowSetInk(g: seq<Row>, r: nat, row: Row)
    requires AllDrawable(g) && r < |g| && DrawableRow(row)
    ensures AllDrawable(g[r := row])
  {}

  lemma CellsMovedInk(row: Row, dst: nat, src: nat, n: nat)
    requires DrawableRow(row) && dst + n <= |row| && src + n <= |row|
    ensures DrawableRow(CellsMoved(row, dst, src, n))
  {}

  lemma RowOpenedInk(row: Row, col: nat)
    requires DrawableRow(row) && col < |row|
    ensures DrawableRow(RowOpened(row, col))
  {}

  // ---------------------------------------------------------------- one operation

  lemma ScrollInk(v: Vt, top: int, bot: int, n: int)
    requires Inked(v) && 0 <= top < v.rows && 0 <= bot < v.rows && n >= 1
    ensures AllDrawable(ScrollUp(v, top, bot, n).grid) && AllDrawable(ScrollDown(v, top, bot, n).grid)
  {
    ScrolledInk(v.grid, v.cols, top, bot, n, Erased(v.pen));
  }

  lemma NextLineInk(v: Vt)
    requires Inked(v)
    ensures Inked(NextLine(v))
  {
    NextLineOk(v);
    if v.row == v.bot {
      ScrollInk(v, v.top, v.bot, 1);
    }
  }

  lemma WriteInk(v: Vt, codepoint: int)
    requires AllDrawable(v.grid) && PenOk(v.pen) && 0x20 <= codepoint < 256
    requires GridOk(v.grid, v.cols, v.rows) && 0 <= v.row < v.rows && 0 <= v.col < v.cols
    ensures AllDrawable(Write(v, codepoint).grid)
  {
    var row := v.grid[v.row];
    RowOpenedInk(row, v.col);
    var line := if v.insert then RowOpened(row, v.col) else row;
    assert DrawableRow(line[v.col := Cell(codepoint, v.pen)]);
    RowSetInk(v.grid, v.row, line[v.col := Cell(codepoint, v.pen)]);
  }

  lemma PutCharInk(v: Vt, codepoint: int)
    requires Inked(v) && 0x20 <= codepoint < 256
    ensures Inked(PutChar(v, codepoint))
  {
    PutCharOk(v, codepoint);
    WrapInside(v);
    if v.pending {
      NextLineInk(v.(col := 0, pending := false));
    }
    WriteInk(Wrap(v), codepoint);
  }

  lemma ClearLineInk(v: Vt, r: int, from: int, to: int)
    requires AllDrawable(v.grid) && PenOk(v.pen)
    ensures AllDrawable(ClearLine(v, r, from, to).grid)
  {
    LineErasedInk(v.grid, r, from, to, Erased(v.pen));
  }

  lemma EraseDisplayInk(v: Vt, p: int)
    requires Inked(v)
    ensures AllDrawable(EraseDisplay(v, p).grid)
  {
    var g, blank, n := v.grid, Erased(v.pen), |v.grid|;
    LineErasedInk(g, v.row, v.col, v.cols - 1, blank);
    LineErasedInk(g, v.row, 0, v.col, blank);
    RowsErasedInk(LineErased(g, v.row, v.col, v.cols - 1, blank), v.cols, v.row + 1, n - 1, blank);
    RowsErasedInk(LineErased(g, v.row, 0, v.col, blank), v.cols, 0, v.row - 1, blank);
    RowsErasedInk(g, v.cols, 0, n - 1, blank);
  }

  lemma CsiEraseInk(v: Vt, f: char)
    requires Inked(v)
    ensures AllDrawable(CsiErase(v, f).grid)
  {
    if f == 'J' {
      EraseDisplayInk(v, Param(v, 0, 0));
    } else if f == 'K' {
      EraseLineInk(v, Param(v, 0, 0));
    } else {
      ClearLineInk(v, v.row, v.col, v.col + Param(v, 0, 1) - 1);
    }
  }

  lemma EraseLineInk(v: Vt, p: int)
    requires Inked(v)
    ensures AllDrawable(EraseLine(v, p).grid)
  {
    ClearLineInk(v, v.row, if p == 0 then v.col else 0, if p == 1 then v.col else v.cols - 1);
  }

  lemma DeleteCharsInk(v: Vt, p: int)
    requires Inked(v) && p >= 1
    ensures AllDrawable(DeleteChars(v, p).grid)
  {
    var n := if p > v.cols - v.col then v.cols - v.col else p;
    var row := CellsMoved(v.grid[v.row], v.col, v.col + n, v.cols - v.col - n);
    CellsMovedInk(v.grid[v.row], v.col, v.col + n, v.cols - v.col - n);
    RowSetInk(v.grid, v.row, row);
    ClearLineInk(v.(grid := v.grid[v.row := row]), v.row, v.cols - n, v.cols - 1);
  }

  lemma InsertCharsInk(v: Vt, p: int)
    requires Inked(v) && p >= 1
    ensures AllDrawable(InsertChars(v, p).grid)
  {
    var n := if p > v.cols - v.col then v.cols - v.col else p;
    var row := CellsMoved(v.grid[v.row], v.col + n, v.col, v.cols - v.col - n);
    CellsMovedInk(v.grid[v.row], v.col + n, v.col, v.cols - v.col - n);
    RowSetInk(v.grid, v.row, row);
    ClearLineInk(v.(grid := v.grid[v.row := row]), v.row, v.col, v.col + n - 1);
  }

  lemma CsiShiftInk(v: Vt, f: char)
    requires Inked(v)
    ensures AllDrawable(CsiShift(v, f).grid)
  {
    var p := Param(v, 0, 1);
    if f == 'P' {
      DeleteCharsInk(v, p);
    } else if f == '@' {
      InsertCharsInk(v, p);
    } else {
      CsiScrollInk(v, f, p);
    }
  }

  lemma CsiScrollInk(v: Vt, f: char, n: int)
    requires Inked(v) && n >= 1
    ensures AllDrawable(CsiScroll(v, f, n).grid)
  {
    if f == 'L' || f == 'M' {
      ScrollInk(v, v.row, v.bot, n);
    } else {
      ScrollInk(v, v.top, v.bot, n);
    }
  }

  lemma {:induction false} RenditionsInk(pen: Pen, ps: seq<int>, i: nat)
    requires PenOk(pen) && i <= |ps| && forall j :: 0 <= j < |ps| ==> ps[j] >= 0
    ensures PenOk(Renditions(pen, ps, i))
    decreases |ps| - i
  {
    if i < |ps| {
      RenditionInk(pen, ps, i);
      var (next, n) := Rendition(pen, ps, i);
      RenditionsInk(next, ps, i + n);
    }
  }

  lemma RenditionInk(pen: Pen, ps: seq<int>, i: nat)
    requires PenOk(pen) && i < |ps| && forall j :: 0 <= j < |ps| ==> ps[j] >= 0
    ensures PenOk(Rendition(pen, ps, i).0)
  {}

  /** What a control sequence does to the cells and the pen. */
  lemma DispatchCsiInk(v: Vt, f: char)
    requires Inked(v)
    ensures Inked(DispatchCsi(v, f))
  {
    DispatchCsiOk(v, f);
    if CursorFinal(f) {
    } else if EraseFinal(f) {
      CsiEraseInk(v, f);
    } else if ShiftFinal(f) {
      CsiShiftInk(v, f);
    } else if f == 'm' {
      RenditionsInk(v.pen, v.params[..v.paramCount], 0);
    }
  }

  lemma DispatchEscInk(v: Vt, f: char)
    requires Inked(v)
    ensures Inked(DispatchEsc(v, f))
  {
    DispatchEscOk(v, f);
    EscCells(v, f);
  }

  lemma EscCells(v: Vt, f: char)
    requires Inked(v)
    ensures AllDrawable(DispatchEsc(v, f).grid) && PenOk(DispatchEsc(v, f).pen)
  {
    match f
    case 'D' => NextLineInk(v);
    case 'E' => NextLineInk(v.(col := 0));
    case 'M' => ReverseIndexInk(v);
    case 'c' => FullResetInk(v);
    case _ =>
  }

  lemma ReverseIndexInk(v: Vt)
    requires Inked(v)
    ensures AllDrawable(ReverseIndex(v).grid) && ReverseIndex(v).pen == v.pen
  {
    ScrollInk(v, v.top, v.bot, 1);
  }

  lemma FullResetInk(v: Vt)
    requires Inked(v)
    ensures AllDrawable(FullReset(v).grid) && PenOk(FullReset(v).pen)
  {
    RowsErasedInk(v.grid, v.cols, 0, v.rows - 1, Erased(v.pen));
  }

  // ---------------------------------------------------------------- every stream

  lemma ControlInk(v: Vt, c: byte)
    requires Inked(v) && v.parse == Ground && c < 0x20
    ensures Inked(ControlStep(v, c))
  {
    ControlStepOk(v, c);
    NextLineInk(v);
  }

  lemma StepInk(v: Vt, c: byte)
    requires Inked(v)
    ensures Inked(Step(v, c))
  {
    StepOk(v, c);
    match v.parse
    case Osc =>
    case Ground =>
      if c < 0x20 {
        ControlInk(v, c);
      } else {
        PutCharInk(v, c);
      }
    case Escape => DispatchEscInk(v, c as char);
    case Csi => DispatchCsiInk(v, c as char);
  }

  lemma ResizeInk(v: Vt, cols: int, rows: int)
    requires Inked(v)
    ensures Inked(Resize(v, cols, rows))
  {
    ResizeOk(v, cols, rows);
    if cols > 0 && rows > 0 {
      forall r | 0 <= r < rows ensures DrawableRow(ResizedRow(v.grid, r, cols)) {
        assert r < |v.grid| ==> DrawableRow(v.grid[r]);
      }
    }
  }

  lemma {:induction false} RunInk(v: Vt, es: seq<Event>)
    requires Inked(v)
    ensures Inked(Run(v, es))
    decreases |es|
  {
    if es != [] {
      match es[0] {
        case Input(b) => StepInk(v, b);
        case Resized(cols, rows) => ResizeInk(v, cols, rows);
      }
      RunInk(React(v, es[0]), es[1..]);
    }
  }

  /** The screen of a terminal after any bytes and resizes, written out and fed to any other
      terminal of its size, is the same screen there. */
  lemma Replays(cols: int, rows: int, scrollback: int, es: seq<Event>, t: Vt)
    requires cols > 0 && rows > 0 && Ok(New(cols, rows, scrollback))
    requires var v := Run(New(cols, rows, scrollback), es); Ready(t) && t.cols == v.cols && t.rows == v.rows
    ensures var v := Run(New(cols, rows, scrollback), es);
            AllDrawable(v.grid) && Feed(t, ScreenBytes(v.grid, |v.grid|)).grid == v.grid
  {
    var v := New(cols, rows, scrollback);
    assert DrawableRow(Repeated(cols, Erased(PLAIN)));
    RunInk(v, es);
    Redraws(t, Run(v, es).grid);
  }
}
