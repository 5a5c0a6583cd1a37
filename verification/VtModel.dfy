/** The terminal of apps/terminal/vt100.c as a value: a grid of cells, a cursor, a scroll region,
    the newest scrolled-off rows and the parser's registers.  `Step` is one byte of input. */
module VtModel {
  import opened Bytes

  const MAX_PARAMS: nat := 16
  const MAX_INTERM: nat := 4
  const MAX_OSC_LEN: nat := 512

  /** Colours and attribute bits (VT_COLOR_DEFAULT is -1). */
  datatype Pen = Pen(fg: int, bg: int, attrs: bv8)

  const PLAIN := Pen(-1, -1, 0)

  datatype Cell = Cell(codepoint: int, pen: Pen)

  type Row = seq<Cell>

  datatype ParseState = Ground | Escape | Csi | Osc

  datatype Vt = Vt(
    cols: int, rows: int, grid: seq<Row>,
    col: int, row: int, savedCol: int, savedRow: int,
    top: int, bot: int, pen: Pen, insert: bool, pending: bool,
    parse: ParseState, params: seq<int>, paramCount: int, interm: seq<byte>, osc: seq<byte>,
    sbCap: nat, sb: seq<Row>)

  predicate GridOk(g: seq<Row>, cols: int, rows: int) {
    |g| == rows && forall r :: 0 <= r < |g| ==> |g[r]| == cols
  }

  /** What every byte keeps: the cursor inside the grid, the region inside the rows, the
      counters inside their arrays, and nothing but true intermediates collected. */
  predicate Ok(v: Vt) {
    && v.cols > 0 && v.rows > 0 && GridOk(v.grid, v.cols, v.rows)
    && 0 <= v.col < v.cols && 0 <= v.row < v.rows
    && 0 <= v.top <= v.bot < v.rows
    && |v.params| == MAX_PARAMS && 0 <= v.paramCount <= MAX_PARAMS
    && (forall i :: 0 <= i < MAX_PARAMS ==> v.params[i] >= 0)
    && |v.interm| <= MAX_INTERM && (forall i :: 0 <= i < |v.interm| ==> 0x20 <= v.interm[i] <= 0x2F)
    && |v.osc| < MAX_OSC_LEN
    && |v.sb| <= v.sbCap
  }

  // ---------------------------------------------------------------- cells

  /** An erased cell keeps the current colours but no attributes. */
  function Erased(pen: Pen): Cell {
    Cell(0x20, Pen(pen.fg, pen.bg, 0))
  }

  function Repeated<T>(n: int, x: T): (r: seq<T>)
    requires n >= 0
    ensures |r| == n && forall i :: 0 <= i < n ==> r[i] == x
  {
    seq(n, _ => x)
  }

  function ErasedIn(row: Row, from: int, to: int, blank: Cell): (r: Row)
    ensures |r| == |row|
    ensures forall c :: 0 <= c < |row| ==> r[c] == if from <= c <= to then blank else row[c]
  {
    seq(|row|, c requires 0 <= c < |row| => if from <= c <= to then blank else row[c])
  }

  function LineErased(g: seq<Row>, r: int, from: int, to: int, blank: Cell): (h: seq<Row>)
    ensures |h| == |g|
  {
    if 0 <= r < |g| then g[r := ErasedIn(g[r], from, to, blank)] else g
  }

  function ClearLine(v: Vt, r: int, from: int, to: int): Vt {
    v.(grid := LineErased(v.grid, r, from, to, Erased(v.pen)))
  }

  function RowsErased(g: seq<Row>, cols: int, from: int, to: int, blank: Cell): (r: seq<Row>)
    requires cols >= 0
    ensures |r| == |g|
    ensures forall i :: 0 <= i < |g| ==> r[i] == if from <= i <= to then Repeated(cols, blank) else g[i]
  {
    seq(|g|, i requires 0 <= i < |g| => if from <= i <= to then Repeated(cols, blank) else g[i])
  }

  function ClearRows(v: Vt, from: int, to: int): Vt
    requires v.cols >= 0
  {
    v.(grid := RowsErased(v.grid, v.cols, from, to, Erased(v.pen)))
  }

  // ---------------------------------------------------------------- scrolling

  /** The scrolled-off rows, oldest first; a full store drops its oldest. */
  function Pushed(sb: seq<Row>, cap: nat, row: Row): seq<Row> {
    if cap == 0 then sb
    else (if |sb| == cap then sb[1..] else sb) + [row]
  }

  function PushedTimes(sb: seq<Row>, cap: nat, row: Row, n: nat): (r: seq<Row>)
    ensures |sb| <= cap ==> |r| <= cap
  {
    if n == 0 then sb else Pushed(PushedTimes(sb, cap, row, n - 1), cap, row)
  }

  /** Rows `src..src + n` copied over rows `dst..dst + n`. */
  function RowsMoved(g: seq<Row>, dst: nat, src: nat, n: nat): (r: seq<Row>)
    requires dst + n <= |g| && src + n <= |g|
    ensures |r| == |g|
    ensures forall i {:trigger r[i]} :: 0 <= i < |g| ==>
      r[i] == if dst <= i < dst + n then g[i - dst + src] else g[i]
  {
    g[..dst] + g[src..src + n] + g[dst + n..]
  }

  /** The rows that stay in the region, moved up by `n`. */
  function MovedUp(g: seq<Row>, top: nat, bot: nat, n: nat): seq<Row>
    requires top < |g| && bot < |g|
  {
    var lines := bot - top + 1 - n;
    if lines > 0 then RowsMoved(g, top, top + n, lines) else g
  }

  function MovedDown(g: seq<Row>, top: nat, bot: nat, n: nat): seq<Row>
    requires top < |g| && bot < |g|
  {
    var lines := bot - top + 1 - n;
    if lines > 0 then RowsMoved(g, top + n, top, lines) else g
  }

  function ScrolledUp(g: seq<Row>, cols: nat, top: nat, bot: nat, n: nat, blank: Cell): seq<Row>
    requires top < |g| && bot < |g| && n >= 1
  {
    RowsErased(MovedUp(g, top, bot, n), cols, bot - n + 1, bot, blank)
  }

  function ScrolledDown(g: seq<Row>, cols: nat, top: nat, bot: nat, n: nat, blank: Cell): seq<Row>
    requires top < |g| && bot < |g| && n >= 1
  {
    RowsErased(MovedDown(g, top, bot, n), cols, top, top + n - 1, blank)
  }

  /** The top row goes to the scrollback once for each line scrolled. */
  function ScrollUp(v: Vt, top: int, bot: int, n: int): Vt
    requires |v.grid| == v.rows && v.cols >= 0
    requires 0 <= top < v.rows && 0 <= bot < v.rows && n >= 1
  {
    v.(sb := PushedTimes(v.sb, v.sbCap, v.grid[top], n),
       grid := ScrolledUp(v.grid, v.cols, top, bot, n, Erased(v.pen)))
  }

  function ScrollDown(v: Vt, top: int, bot: int, n: int): Vt
    requires |v.grid| == v.rows && v.cols >= 0
    requires 0 <= top < v.rows && 0 <= bot < v.rows && n >= 1
  {
    v.(grid := ScrolledDown(v.grid, v.cols, top, bot, n, Erased(v.pen)))
  }

  // ---------------------------------------------------------------- cursor

  function Clamp(x: int, n: int): int {
    if x < 0 then 0 else if x >= n then n - 1 else x
  }

  function CursorMove(v: Vt, col: int, row: int): Vt {
    v.(col := Clamp(col, v.cols), row := Clamp(row, v.rows), pending := false)
  }

  function NextLine(v: Vt): Vt
    requires Ok(v)
  {
    if v.row == v.bot then ScrollUp(v, v.top, v.bot, 1)
    else v.(row := if v.row + 1 >= v.rows then v.rows - 1 else v.row + 1)
  }

  /** The row with everything from `col` on pushed one cell to the right. */
  function RowOpened(row: Row, col: nat): (r: Row)
    requires col < |row|
    ensures |r| == |row|
  {
    row[..col + 1] + row[col..|row| - 1]
  }

  /** A wrap put off by the last column happens now. */
  function Wrap(v: Vt): Vt
    requires Ok(v)
  {
    if v.pending then NextLine(v.(col := 0, pending := false)) else v
  }

  function Write(v: Vt, codepoint: int): Vt
    requires GridOk(v.grid, v.cols, v.rows) && 0 <= v.row < v.rows && 0 <= v.col < v.cols
  {
    var line := if v.insert then RowOpened(v.grid[v.row], v.col) else v.grid[v.row];
    v.(grid := v.grid[v.row := line[v.col := Cell(codepoint, v.pen)]],
       pending := v.pending || v.col >= v.cols - 1,
       col := if v.col >= v.cols - 1 then v.col else v.col + 1)
  }

  function PutChar(v: Vt, codepoint: int): Vt
    requires Ok(v)
  {
    WrapInside(v);
    Write(Wrap(v), codepoint)
  }

  lemma WrapInside(v: Vt)
    requires Ok(v)
    ensures var w := Wrap(v);
            GridOk(w.grid, w.cols, w.rows) && 0 <= w.row < w.rows && 0 <= w.col < w.cols
  {}

  // ---------------------------------------------------------------- rendition

  const BOLD: bv8 := 1
  const DIM: bv8 := 2
  const ITALIC: bv8 := 4
  const UNDERLINE: bv8 := 8
  const BLINK: bv8 := 16
  const REVERSE: bv8 := 32
  const HIDDEN: bv8 := 64
  const STRIKE: bv8 := 128

  function SetBits(pen: Pen, bits: bv8): Pen {
    pen.(attrs := pen.attrs | bits)
  }

  function ClearBits(pen: Pen, bits: bv8): Pen {
    pen.(attrs := pen.attrs & !bits)
  }

  function SimpleRendition(pen: Pen, p: int): Pen {
    match p
    case 0 => PLAIN
    case 1 => SetBits(pen, BOLD)
    case 2 => SetBits(pen, DIM)
    case 3 => SetBits(pen, ITALIC)
    case 4 => SetBits(pen, UNDERLINE)
    case 5 => SetBits(pen, BLINK)
    case 7 => SetBits(pen, REVERSE)
    case 8 => SetBits(pen, HIDDEN)
    case 9 => SetBits(pen, STRIKE)
    case 22 => ClearBits(pen, BOLD | DIM)
    case 23 => ClearBits(pen, ITALIC)
    case 24 => ClearBits(pen, UNDERLINE)
    case 25 => ClearBits(pen, BLINK)
    case 27 => ClearBits(pen, REVERSE)
    case 28 => ClearBits(pen, HIDDEN)
    case 29 => ClearBits(pen, STRIKE)
    case 39 => pen.(fg := -1)
    case 49 => pen.(bg := -1)
    case _ =>
      if 30 <= p <= 37 then pen.(fg := p - 30)
      else if 40 <= p <= 47 then pen.(bg := p - 40)
      else if 90 <= p <= 97 then pen.(fg := p - 90 + 8)
      else if 100 <= p <= 107 then pen.(bg := p - 100 + 8)
      else pen
  }

  function CubeColour(r: int, g: int, b: int): int {
    16 + 36 * (r / 43) + 6 * (g / 43) + b / 43
  }

  function Coloured(pen: Pen, p: int, colour: int): Pen {
    if p == 38 then pen.(fg := colour) else pen.(bg := colour)
  }

  /** One rendition parameter, and how many parameters it used up. */
  function Rendition(pen: Pen, ps: seq<int>, i: nat): (r: (Pen, nat))
    requires i < |ps|
    ensures 1 <= r.1 && i + r.1 <= |ps|
  {
    var p := ps[i];
    if (p == 38 || p == 48) && i + 2 < |ps| && ps[i + 1] == 5 then
      (Coloured(pen, p, ps[i + 2]), 3)
    else if (p == 38 || p == 48) && i + 4 < |ps| && ps[i + 1] == 2 then
      (Coloured(pen, p, CubeColour(ps[i + 2], ps[i + 3], ps[i + 4])), 5)
    else
      (SimpleRendition(pen, p), 1)
  }

  function Renditions(pen: Pen, ps: seq<int>, i: nat): Pen
    requires i <= |ps|
    decreases |ps| - i
  {
    if i == |ps| then pen
    else var (pen', n) := Rendition(pen, ps, i); Renditions(pen', ps, i + n)
  }

  // ---------------------------------------------------------------- control sequences

  function Param(v: Vt, i: nat, def: int): int
    requires Ok(v) && i < MAX_PARAMS
  {
    if i >= v.paramCount || v.params[i] == 0 then def else v.params[i]
  }

  function BackTab(col: int): int {
    if col == 0 then 0 else (col - 1) / 8 * 8
  }

  /** The scroll region asked for by a top and a bottom line, or the whole screen. */
  function Region(first: int, last: int, rows: int): (int, int) {
    var top := if first - 1 < 0 then 0 else first - 1;
    var bot := if last - 1 >= rows then rows - 1 else last - 1;
    if top > bot then (0, rows - 1) else (top, bot)
  }

  function SetRegion(v: Vt): Vt
    requires Ok(v)
  {
    var (top, bot) := Region(Param(v, 0, 1), Param(v, 1, v.rows), v.rows);
    CursorMove(v.(top := top, bot := bot), 0, 0)
  }

  /** Where a cursor movement leads, before clamping. */
  function MoveTarget(v: Vt, f: char): (int, int)
    requires Ok(v)
  {
    var p1, p2 := Param(v, 0, 1), Param(v, 1, 1);
    match f
    case 'A' => (v.col, v.row - p1)
    case 'B' => (v.col, v.row + p1)
    case 'C' => (v.col + p1, v.row)
    case 'D' => (v.col - p1, v.row)
    case 'E' => (0, v.row + p1)
    case 'F' => (0, v.row - p1)
    case 'G' => (p1 - 1, v.row)
    case 'd' => (v.col, p1 - 1)
    case 'u' => (v.savedCol, v.savedRow)
    case _ => (p2 - 1, p1 - 1)
  }

  function CsiMove(v: Vt, f: char): Vt
    requires Ok(v)
  {
    var (col, row) := MoveTarget(v, f);
    CursorMove(v, col, row)
  }

  function CsiTab(v: Vt, f: char): Vt
    requires Ok(v)
  {
    var col := if f == 'I' then (v.col / 8 + Param(v, 0, 1)) * 8 else BackTab(v.col);
    v.(col := Clamp(col, v.cols))
  }

  function CsiCursor(v: Vt, f: char): Vt
    requires Ok(v)
  {
    if f == 'I' || f == 'Z' then CsiTab(v, f)
    else if f == 'r' then SetRegion(v)
    else if f == 's' then v.(savedCol := v.col, savedRow := v.row)
    else CsiMove(v, f)
  }

  function DisplayErased(g: seq<Row>, cols: nat, row: int, col: int, p: int, blank: Cell): seq<Row> {
    if p == 0 then RowsErased(LineErased(g, row, col, cols - 1, blank), cols, row + 1, |g| - 1, blank)
    else if p == 1 then RowsErased(LineErased(g, row, 0, col, blank), cols, 0, row - 1, blank)
    else if p == 2 || p == 3 then RowsErased(g, cols, 0, |g| - 1, blank)
    else g
  }

  function EraseDisplay(v: Vt, p: int): Vt
    requires Ok(v)
  {
    v.(grid := DisplayErased(v.grid, v.cols, v.row, v.col, p, Erased(v.pen)),
       sb := if p == 3 then [] else v.sb)
  }

  function EraseLine(v: Vt, p: int): Vt
    requires Ok(v)
  {
    if p == 0 then ClearLine(v, v.row, v.col, v.cols - 1)
    else if p == 1 then ClearLine(v, v.row, 0, v.col)
    else if p == 2 then ClearLine(v, v.row, 0, v.cols - 1)
    else v
  }

  function CsiErase(v: Vt, f: char): Vt
    requires Ok(v)
  {
    if f == 'J' then EraseDisplay(v, Param(v, 0, 0))
    else if f == 'K' then EraseLine(v, Param(v, 0, 0))
    else ClearLine(v, v.row, v.col, v.col + Param(v, 0, 1) - 1)
  }

  /** Cells `src..src + n` of a row copied over cells `dst..dst + n`. */
  function CellsMoved(row: Row, dst: nat, src: nat, n: nat): (r: Row)
    requires dst + n <= |row| && src + n <= |row|
    ensures |r| == |row|
    ensures forall c {:trigger r[c]} :: 0 <= c < |row| ==>
      r[c] == if dst <= c < dst + n then row[c - dst + src] else row[c]
  {
    row[..dst] + row[src..src + n] + row[dst + n..]
  }

  function DeleteChars(v: Vt, p: int): Vt
    requires Ok(v) && p >= 1
  {
    var n := if p > v.cols - v.col then v.cols - v.col else p;
    var remain := v.cols - v.col - n;
    var w := v.(grid := v.grid[v.row := CellsMoved(v.grid[v.row], v.col, v.col + n, remain)]);
    ClearLine(w, w.row, w.cols - n, w.cols - 1)
  }

  function InsertChars(v: Vt, p: int): Vt
    requires Ok(v) && p >= 1
  {
    var n := if p > v.cols - v.col then v.cols - v.col else p;
    var remain := v.cols - v.col - n;
    var w := v.(grid := v.grid[v.row := CellsMoved(v.grid[v.row], v.col + n, v.col, remain)]);
    ClearLine(w, w.row, w.col, w.col + n - 1)
  }

  function CsiScroll(v: Vt, f: char, n: int): Vt
    requires Ok(v) && n >= 1
  {
    match f
    case 'L' => ScrollDown(v, v.row, v.bot, n)
    case 'M' => ScrollUp(v, v.row, v.bot, n)
    case 'S' => ScrollUp(v, v.top, v.bot, n)
    case 'T' => ScrollDown(v, v.top, v.bot, n)
    case _ => v
  }

  function CsiShift(v: Vt, f: char): Vt
    requires Ok(v)
  {
    var p1 := Param(v, 0, 1);
    if f == 'P' then DeleteChars(v, p1)
    else if f == '@' then InsertChars(v, p1)
    else CsiScroll(v, f, p1)
  }

  /** Mode 4 is the only public mode; private modes need a `?` that is never collected. */
  function CsiMode(v: Vt, f: char): Vt
    requires Ok(v)
  {
    if 4 in v.params[..v.paramCount] then v.(insert := f == 'h') else v
  }

  predicate MoveFinal(f: char) {
    'A' <= f <= 'H' || f == 'f' || f == 'd' || f == 'u'
  }

  predicate CursorFinal(f: char) {
    MoveFinal(f) || f == 'I' || f == 'Z' || f == 'r' || f == 's'
  }

  predicate EraseFinal(f: char) {
    f == 'J' || f == 'K' || f == 'X'
  }

  predicate ShiftFinal(f: char) {
    f == 'L' || f == 'M' || f == 'P' || f == '@' || f == 'S' || f == 'T'
  }

  function DispatchCsi(v: Vt, f: char): Vt
    requires Ok(v)
  {
    if CursorFinal(f) then CsiCursor(v, f)
    else if EraseFinal(f) then CsiErase(v, f)
    else if ShiftFinal(f) then CsiShift(v, f)
    else if f == 'm' then
      v.(pen := if v.paramCount == 0 then PLAIN else Renditions(v.pen, v.params[..v.paramCount], 0))
    else if f == 'h' || f == 'l' then CsiMode(v, f)
    else v
  }

  function ReverseIndex(v: Vt): Vt
    requires Ok(v)
  {
    if v.row == v.top then ScrollDown(v, v.top, v.bot, 1)
    else if v.row > 0 then v.(row := v.row - 1)
    else v
  }

  function FullReset(v: Vt): Vt
    requires Ok(v)
  {
    CursorMove(ClearRows(v, 0, v.rows - 1), 0, 0).(pen := PLAIN, top := 0, bot := v.rows - 1)
  }

  function DispatchEsc(v: Vt, f: char): Vt
    requires Ok(v)
  {
    match f
    case 'D' => NextLine(v)
    case 'E' => NextLine(v.(col := 0))
    case 'M' => ReverseIndex(v)
    case '7' => v.(savedCol := v.col, savedRow := v.row)
    case '8' => CursorMove(v, v.savedCol, v.savedRow)
    case 'c' => FullReset(v)
    case _ => v
  }

  // ---------------------------------------------------------------- the parser

  function Reset(v: Vt): Vt {
    v.(paramCount := 0, interm := [], params := Repeated(MAX_PARAMS, 0))
  }

  function PushDigit(v: Vt, c: byte): Vt
    requires Ok(v) && 0x30 <= c <= 0x39
  {
    var n := if v.paramCount == 0 then 1 else v.paramCount;
    v.(paramCount := n, params := v.params[n - 1 := v.params[n - 1] * 10 + (c - 0x30)])
  }

  function NextParam(v: Vt): Vt {
    if v.paramCount < MAX_PARAMS then v.(paramCount := v.paramCount + 1) else v
  }

  function Collect(v: Vt, c: byte): Vt {
    if |v.interm| < MAX_INTERM then v.(interm := v.interm + [c]) else v
  }

  predicate EndsWithEsc(osc: seq<byte>) {
    |osc| > 0 && osc[|osc| - 1] == 0x1B
  }

  function OscStep(v: Vt, c: byte): Vt {
    if c == 0x07 || c == 0x9C || (c == 0x5C && EndsWithEsc(v.osc)) then
      v.(osc := if EndsWithEsc(v.osc) then v.osc[..|v.osc| - 1] else v.osc, parse := Ground)
    else if |v.osc| < MAX_OSC_LEN - 1 then v.(osc := v.osc + [c])
    else v
  }

  function ControlStep(v: Vt, c: byte): Vt
    requires Ok(v)
  {
    match c
    case 0x08 => v.(col := if v.col > 0 then v.col - 1 else v.col, pending := false)
    case 0x09 =>
      var col := (v.col / 8 + 1) * 8;
      v.(col := if col >= v.cols then v.cols - 1 else col, pending := false)
    case 0x0A => NextLine(v)
    case 0x0B => NextLine(v)
    case 0x0C => NextLine(v)
    case 0x0D => v.(col := 0, pending := false)
    case 0x1B => Reset(v).(parse := Escape)
    case _ => v
  }

  function EscapeStep(v: Vt, c: byte): Vt
    requires Ok(v)
  {
    if c == 0x5B then Reset(v).(parse := Csi)
    else if c == 0x5D then v.(osc := [], parse := Osc)
    else if c == 0x50 || c == 0x58 || c == 0x5E || c == 0x5F then v.(osc := [], parse := Osc)
    else if 0x20 <= c <= 0x2F then Collect(v, c)
    else if 0x30 <= c <= 0x7E then DispatchEsc(v, c as char).(parse := Ground)
    else v.(parse := Ground)
  }

  function CsiStep(v: Vt, c: byte): Vt
    requires Ok(v)
  {
    if 0x30 <= c <= 0x39 then PushDigit(v, c)
    else if c == 0x3B || c == 0x3A then NextParam(v)
    else if 0x20 <= c <= 0x2F then Collect(v, c)
    else if 0x40 <= c <= 0x7E then DispatchCsi(v, c as char).(parse := Ground)
    else if c == 0x1B then Reset(v).(parse := Escape)
    else v.(parse := Ground)
  }

  /** One byte of input. */
  function Step(v: Vt, c: byte): Vt
    requires Ok(v)
  {
    match v.parse
    case Osc => OscStep(v, c)
    case Ground => if c < 0x20 then ControlStep(v, c) else PutChar(v, c)
    case Escape => EscapeStep(v, c)
    case Csi => CsiStep(v, c)
  }

  // ---------------------------------------------------------------- creation and resizing

  function New(cols: int, rows: int, scrollback: int): Vt
    requires cols > 0 && rows > 0
  {
    Vt(cols, rows, Repeated(rows, Repeated(cols, Erased(PLAIN))),
       0, 0, 0, 0, 0, rows - 1, PLAIN, false, false,
       Ground, Repeated(MAX_PARAMS, 0), 0, [], [],
       if scrollback > 0 then scrollback else 0, [])
  }

  function CellOr(g: seq<Row>, r: int, c: int): Cell
    requires r >= 0 && c >= 0
  {
    if r < |g| && c < |g[r]| then g[r][c] else Erased(PLAIN)
  }

  function ResizedRow(g: seq<Row>, r: nat, cols: nat): (row: Row)
    ensures |row| == cols
  {
    seq(cols, c requires 0 <= c < cols => CellOr(g, r, c))
  }

  function ResizedGrid(g: seq<Row>, cols: nat, rows: nat): (h: seq<Row>)
    ensures GridOk(h, cols, rows)
    ensures forall r :: 0 <= r < rows ==> h[r] == ResizedRow(g, r, cols)
  {
    seq(rows, r requires 0 <= r < rows => ResizedRow(g, r, cols))
  }

  function Resize(v: Vt, cols: int, rows: int): Vt {
    if cols <= 0 || rows <= 0 then v
    else v.(cols := cols, rows := rows, grid := ResizedGrid(v.grid, cols, rows),
            col := if v.col >= cols then cols - 1 else v.col,
            row := if v.row >= rows then rows - 1 else v.row,
            top := 0, bot := rows - 1)
  }
}
