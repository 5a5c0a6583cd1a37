/** What the editing commands of apps/terminal/vt100.c do to each cell of the screen, sent as bytes. */
module VtEffects {
  import opened Arith
  import opened VtModel
  import opened VtInvariant
  import opened VtCommands

  const CHT: final := 0x49
  const EL: final := 0x4B
  const IL: final := 0x4C
  const DL: final := 0x4D
  const DCH: final := 0x50
  const SU: final := 0x53
  const SD: final := 0x54
  const ECH: final := 0x58
  const CBT: final := 0x5A
  const ICH: final := 0x40
  const SM: final := 0x68
  const RM: final := 0x6C
  const STBM: final := 0x72

  /** The same but for cells, scrollback and parser registers. */
  predicate SameCursor(v: Vt, w: Vt) {
    && w.cols == v.cols && w.rows == v.rows && GridOk(w.grid, w.cols, w.rows)
    && w.col == v.col && w.row == v.row && w.pending == v.pending && w.pen == v.pen
    && w.top == v.top && w.bot == v.bot && w.insert == v.insert && w.parse == v.parse
  }

  predicate OnGrid(v: Vt, r: int, c: int) {
    0 <= r < v.rows && 0 <= c < v.cols
  }

  lemma FirstParam(v: Vt, n: nat)
    requires Ok(v)
    ensures Param(Reading(v, [n]), 0, 1) == (if n == 0 then 1 else n) && Param(Reading(v, [n]), 0, 0) == n
  {
    assert Padded([n])[0] == n;
  }

  // ---------------------------------------------------------------- erasing

  lemma DispatchErase(w: Vt, f: char)
    requires Ok(w) && EraseFinal(f)
    ensures DispatchCsi(w, f) == CsiErase(w, f)
  {
    assert !CursorFinal(f);
  }

  lemma CommandErases(v: Vt, n: nat, f: final)
    requires Ok(v) && v.parse == Ground && EraseFinal(f as char)
    ensures Feed(v, Command([n], f)) == CsiErase(Reading(v, [n]), f as char).(parse := Ground)
  {
    CommandRead(v, [n], f);
    DispatchErase(Reading(v, [n]), f as char);
  }

  lemma LineErasedAt(g: seq<Row>, row: int, from: int, to: int, blank: Cell, r: nat, c: nat)
    requires 0 <= row < |g| && r < |g| && c < |g[r]|
    ensures |LineErased(g, row, from, to, blank)[r]| == |g[r]|
    ensures LineErased(g, row, from, to, blank)[r][c] == if r == row && from <= c <= to then blank else g[r][c]
  {}

  /** Erasing in the line blanks the cells from the cursor on, up to it, or all, and no others. */
  lemma ErasesInLine(v: Vt, p: nat, r: nat, c: nat)
    requires Ok(v) && v.parse == Ground && p <= 2 && OnGrid(v, r, c)
    ensures var w := Feed(v, Command([p], EL));
            && SameCursor(v, w) && w.sb == v.sb
            && w.grid[r][c] == if r == v.row && (p == 0 ==> c >= v.col) && (p == 1 ==> c <= v.col) then Erased(v.pen)
                               else v.grid[r][c]
  {
    CommandErases(v, p, EL);
    FirstParam(v, p);
    LineErasedAt(v.grid, v.row, if p == 0 then v.col else 0, if p == 1 then v.col else v.cols - 1, Erased(v.pen), r, c);
  }

  /** The place is at or after the cursor in reading order. */
  predicate After(v: Vt, r: int, c: int) {
    r > v.row || (r == v.row && c >= v.col)
  }

  predicate Before(v: Vt, r: int, c: int) {
    r < v.row || (r == v.row && c <= v.col)
  }

  lemma DisplayErasedAt(v: Vt, p: nat, r: nat, c: nat)
    requires Ok(v) && p <= 1 && OnGrid(v, r, c)
    ensures var g := DisplayErased(v.grid, v.cols, v.row, v.col, p, Erased(v.pen));
            && GridOk(g, v.cols, v.rows)
            && g[r][c] == if (if p == 0 then After(v, r, c) else Before(v, r, c)) then Erased(v.pen) else v.grid[r][c]
  {
    LineErasedAt(v.grid, v.row, if p == 0 then v.col else 0, if p == 1 then v.col else v.cols - 1, Erased(v.pen), r, c);
  }

  /** Erasing in the display blanks the cells from the cursor to the end, or from the start to the
      cursor, and no others. */
  lemma ErasesInDisplay(v: Vt, p: nat, r: nat, c: nat)
    requires Ok(v) && v.parse == Ground && p <= 1 && OnGrid(v, r, c)
    ensures var w := Feed(v, Command([p], ED));
            && SameCursor(v, w) && w.sb == v.sb
            && w.grid[r][c] == if (if p == 0 then After(v, r, c) else Before(v, r, c)) then Erased(v.pen) else v.grid[r][c]
  {
    CommandErases(v, p, ED);
    FirstParam(v, p);
    DisplayErasedAt(v, p, r, c);
  }

  /** Erasing characters blanks that many from the cursor on, within the line. */
  lemma ErasesChars(v: Vt, n: nat, r: nat, c: nat)
    requires Ok(v) && v.parse == Ground && n > 0 && OnGrid(v, r, c)
    ensures var w := Feed(v, Command([n], ECH));
            && SameCursor(v, w) && w.sb == v.sb
            && w.grid[r][c] == if r == v.row && v.col <= c < v.col + n then Erased(v.pen) else v.grid[r][c]
  {
    CommandErases(v, n, ECH);
    FirstParam(v, n);
    LineErasedAt(v.grid, v.row, v.col, v.col + n - 1, Erased(v.pen), r, c);
  }

  // ---------------------------------------------------------------- shifting

  lemma DispatchShift(w: Vt, f: char)
    requires Ok(w) && ShiftFinal(f)
    ensures DispatchCsi(w, f) == CsiShift(w, f)
  {
    assert !CursorFinal(f) && !EraseFinal(f);
  }

  lemma CommandShifts(v: Vt, n: nat, f: final)
    requires Ok(v) && v.parse == Ground && ShiftFinal(f as char)
    ensures Feed(v, Command([n], f)) == CsiShift(Reading(v, [n]), f as char).(parse := Ground)
  {
    CommandRead(v, [n], f);
    DispatchShift(Reading(v, [n]), f as char);
  }

  lemma DeleteCharsAt(v: Vt, n: nat, r: nat, c: nat)
    requires Ok(v) && n > 0 && OnGrid(v, r, c)
    ensures var w, m := DeleteChars(v, n), Min(n, v.cols - v.col);
            && SameCursor(v, w) && w.sb == v.sb
            && w.grid[r][c] == if r != v.row || c < v.col then v.grid[r][c]
                               else if c + m < v.cols then v.grid[r][c + m] else Erased(v.pen)
  {
    DeleteCharsOk(v, n);
  }

  lemma InsertCharsAt(v: Vt, n: nat, r: nat, c: nat)
    requires Ok(v) && n > 0 && OnGrid(v, r, c)
    ensures var w, m := InsertChars(v, n), Min(n, v.cols - v.col);
            && SameCursor(v, w) && w.sb == v.sb
            && w.grid[r][c] == if r != v.row || c < v.col then v.grid[r][c]
                               else if c < v.col + m then Erased(v.pen) else v.grid[r][c - m]
  {
    InsertCharsOk(v, n);
  }

  lemma CommandShiftsChars(v: Vt, n: nat)
    requires Ok(v) && v.parse == Ground && n > 0
    ensures Feed(v, Command([n], DCH)) == DeleteChars(Reading(v, [n]), n).(parse := Ground)
    ensures Feed(v, Command([n], ICH)) == InsertChars(Reading(v, [n]), n).(parse := Ground)
  {
    CommandShifts(v, n, DCH);
    CommandShifts(v, n, ICH);
    FirstParam(v, n);
  }

  /** Deleting characters closes up the rest of the line and blanks its end. */
  lemma DeletesChars(v: Vt, n: nat, r: nat, c: nat)
    requires Ok(v) && v.parse == Ground && n > 0 && OnGrid(v, r, c)
    ensures var w, m := Feed(v, Command([n], DCH)), Min(n, v.cols - v.col);
            && SameCursor(v, w) && w.sb == v.sb
            && w.grid[r][c] == if r != v.row || c < v.col then v.grid[r][c]
                               else if c + m < v.cols then v.grid[r][c + m] else Erased(v.pen)
  {
    CommandShiftsChars(v, n);
    DeleteCharsAt(Reading(v, [n]), n, r, c);
  }

  /** Inserting characters moves the rest of the line on and blanks the gap. */
  lemma InsertsChars(v: Vt, n: nat, r: nat, c: nat)
    requires Ok(v) && v.parse == Ground && n > 0 && OnGrid(v, r, c)
    ensures var w, m := Feed(v, Command([n], ICH)), Min(n, v.cols - v.col);
            && SameCursor(v, w) && w.sb == v.sb
            && w.grid[r][c] == if r != v.row || c < v.col then v.grid[r][c]
                               else if c < v.col + m then Erased(v.pen) else v.grid[r][c - m]
  {
    CommandShiftsChars(v, n);
    InsertCharsAt(Reading(v, [n]), n, r, c);
  }

  // ---------------------------------------------------------------- scrolling

  /** The row that a scroll up by `n` leaves at `r`: rows blanked by it may lie above the region. */
  function UpRow(g: seq<Row>, cols: nat, top: int, bot: int, n: nat, blank: Cell, r: nat): Row
    requires 0 <= top < |g| && 0 <= bot < |g| && r < |g|
  {
    if bot - n < r <= bot then Repeated(cols, blank) else if top <= r <= bot then g[r + n] else g[r]
  }

  function DownRow(g: seq<Row>, cols: nat, top: int, bot: int, n: nat, blank: Cell, r: nat): Row
    requires 0 <= top < |g| && 0 <= bot < |g| && r < |g|
  {
    if top <= r < top + n then Repeated(cols, blank) else if top <= r <= bot then g[r - n] else g[r]
  }

  lemma ScrolledAt(g: seq<Row>, cols: nat, top: nat, bot: nat, n: nat, blank: Cell, r: nat)
    requires top < |g| && bot < |g| && n >= 1 && r < |g|
    ensures |ScrolledUp(g, cols, top, bot, n, blank)| == |ScrolledDown(g, cols, top, bot, n, blank)| == |g|
    ensures ScrolledUp(g, cols, top, bot, n, blank)[r] == UpRow(g, cols, top, bot, n, blank, r)
    ensures ScrolledDown(g, cols, top, bot, n, blank)[r] == DownRow(g, cols, top, bot, n, blank, r)
  {}

  /** Deleting lines, from the cursor's row on, and scrolling up, from the region's top on, move the
      rows up, blank what is freed and push the top row once for each line. */
  lemma ScrollsUp(v: Vt, n: nat, f: final, r: nat)
    requires Ok(v) && v.parse == Ground && n > 0 && (f == DL || f == SU) && r < v.rows
    ensures var w, top := Feed(v, Command([n], f)), if f == DL then v.row else v.top;
            && SameCursor(v, w) && w.sb == PushedTimes(v.sb, v.sbCap, v.grid[top], n)
            && w.grid[r] == UpRow(v.grid, v.cols, top, v.bot, n, Erased(v.pen), r)
  {
    var top := if f == DL then v.row else v.top;
    CommandShifts(v, n, f);
    FirstParam(v, n);
    ScrollUpOk(Reading(v, [n]), top, v.bot, n);
    ScrolledAt(v.grid, v.cols, top, v.bot, n, Erased(v.pen), r);
  }

  /** Inserting lines and scrolling down move the rows down and blank what is freed. */
  lemma ScrollsDown(v: Vt, n: nat, f: final, r: nat)
    requires Ok(v) && v.parse == Ground && n > 0 && (f == IL || f == SD) && r < v.rows
    ensures var w, top := Feed(v, Command([n], f)), if f == IL then v.row else v.top;
            && SameCursor(v, w) && w.sb == v.sb
            && w.grid[r] == DownRow(v.grid, v.cols, top, v.bot, n, Erased(v.pen), r)
  {
    var top := if f == IL then v.row else v.top;
    CommandShifts(v, n, f);
    FirstParam(v, n);
    ScrollDownOk(Reading(v, [n]), top, v.bot, n);
    ScrolledAt(v.grid, v.cols, top, v.bot, n, Erased(v.pen), r);
  }

  /** Scrolling leaves every row outside the region alone, whatever they show, exactly when the
      region is at least as high as the number of lines, or reaches the edge that is blanked past. */
  lemma ScrollStaysExactly(rows: nat, cols: nat, top: nat, bot: nat, n: nat, blank: Cell, other: Cell)
    requires top <= bot < rows && n >= 1 && cols > 0 && blank != other
    ensures (forall g: seq<Row>, r: nat :: |g| == rows && r < rows && !(top <= r <= bot) ==>
               UpRow(g, cols, top, bot, n, blank, r) == g[r])
            <==> n <= bot - top + 1 || top == 0
    ensures (forall g: seq<Row>, r: nat :: |g| == rows && r < rows && !(top <= r <= bot) ==>
               DownRow(g, cols, top, bot, n, blank, r) == g[r])
            <==> n <= bot - top + 1 || bot == rows - 1
  {
    var g := Repeated(rows, Repeated(cols, other));
    assert Repeated(cols, blank)[0] != Repeated(cols, other)[0];
    if n > bot - top + 1 {
      if top > 0 {
        assert UpRow(g, cols, top, bot, n, blank, top - 1) != g[top - 1];
      }
      if bot < rows - 1 {
        assert DownRow(g, cols, top, bot, n, blank, bot + 1) != g[bot + 1];
      }
    }
  }

  // ---------------------------------------------------------------- region, tabs and modes

  lemma DispatchCursor(w: Vt, f: char)
    requires Ok(w) && (f == 'I' || f == 'Z' || f == 'r')
    ensures DispatchCsi(w, f) == CsiCursor(w, f)
  {}

  /** Setting the region takes rows counted from one, cut to the screen, or all rows when none are
      left between them, and homes the cursor. */
  lemma SetsRegion(v: Vt, first: nat, last: nat)
    requires Ok(v) && v.parse == Ground && first > 0 && last > 0
    ensures var w := Feed(v, Command([first, last], STBM));
            && w.grid == v.grid && w.sb == v.sb && w.row == 0 && w.col == 0 && !w.pending && w.parse == Ground
            && (w.top, w.bot) == if first <= Min(last, v.rows) then (first - 1, Min(last, v.rows) - 1) else (0, v.rows - 1)
  {
    CommandRead(v, [first, last], STBM);
    DispatchCursor(Reading(v, [first, last]), 'r');
    assert Padded([first, last])[0] == first && Padded([first, last])[1] == last;
  }

  /** Tabs go to the n-th multiple of eight after the cursor, or the last column; back tabs to the
      last multiple of eight before it. */
  lemma Tabs(v: Vt, n: nat)
    requires Ok(v) && v.parse == Ground && n > 0
    ensures var w := Feed(v, Command([n], CHT));
            && SameScreen(v, w) && w.row == v.row
            && w.col == Min((v.col / 8 + n) * 8, v.cols - 1)
    ensures var w := Feed(v, Command([n], CBT));
            && SameScreen(v, w) && w.row == v.row && w.col % 8 == 0 && w.col <= v.col
            && (v.col > 0 ==> w.col < v.col <= w.col + 8)
  {
    FirstParam(v, n);
    CommandRead(v, [n], CHT);
    DispatchCursor(Reading(v, [n]), 'I');
    CommandRead(v, [n], CBT);
    DispatchCursor(Reading(v, [n]), 'Z');
  }

  lemma DispatchMode(w: Vt, f: char)
    requires Ok(w) && (f == 'h' || f == 'l')
    ensures DispatchCsi(w, f) == CsiMode(w, f)
  {
    assert !CursorFinal(f) && !EraseFinal(f) && !ShiftFinal(f);
  }

  /** Mode 4 turns insertion on and off; no other number does anything. */
  lemma SetsMode(v: Vt, p: nat, f: final)
    requires Ok(v) && v.parse == Ground && (f == SM || f == RM)
    ensures var w := Feed(v, Command([p], f));
            && w.grid == v.grid && w.sb == v.sb && w.col == v.col && w.row == v.row && w.parse == Ground
            && w.insert == if p == 4 then f == SM else v.insert
  {
    CommandRead(v, [p], f);
    DispatchMode(Reading(v, [p]), f as char);
    assert Reading(v, [p]).params[..1] == [p];
  }
}
