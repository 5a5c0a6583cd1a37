/** The terminal object of apps/terminal/vt100.c: one flat cell array, a ring of scrolled-off rows
    and the parser's registers, changed byte by byte and proved to do what VtModel says. */
module VtTerminal {
  import opened Arith
  import opened Bytes
  import opened VtModel
  import opened VtInvariant
  import opened VtFlat

  /** Slot of the ring that holds row `i`, counting from the oldest. */
  function Slot(head: nat, i: nat, cap: nat): nat {
    if head + i < cap then head + i else head + i - cap
  }

  /** An index of the ring, reduced modulo its size. */
  method Wrapped(x: nat, cap: nat) returns (r: nat)
    requires 0 < cap && x < 2 * cap
    ensures r == if x < cap then x else x - cap
  {
    WrapMod(x, cap);
    r := x % cap;
  }

  predicate Ring(ring: seq<Row>, head: nat, sb: seq<Row>) {
    && |sb| <= |ring| && (if |ring| == 0 then head == 0 else head < |ring|)
    && forall i {:trigger sb[i]} :: 0 <= i < |sb| ==> ring[Slot(head, i, |ring|)] == sb[i]
  }

  /** Where the next row goes: after the newest, or over the oldest when the ring is full. */
  function NextSlot(head: nat, count: nat, cap: nat): nat {
    if head + count < cap then head + count else head + count - cap
  }

  function NextHead(head: nat, count: nat, cap: nat): nat {
    if count < cap then head else if head + 1 < cap then head + 1 else 0
  }

  lemma RingPushed(ring: seq<Row>, head: nat, sb: seq<Row>, row: Row)
    requires |ring| > 0 && Ring(ring, head, sb)
    ensures NextSlot(head, |sb|, |ring|) < |ring|
    ensures Ring(ring[NextSlot(head, |sb|, |ring|) := row],
                 NextHead(head, |sb|, |ring|), Pushed(sb, |ring|, row))
  {
    var ring', sb' := ring[NextSlot(head, |sb|, |ring|) := row], Pushed(sb, |ring|, row);
    var head' := NextHead(head, |sb|, |ring|);
    forall i {:trigger sb'[i]} | 0 <= i < |sb'|
      ensures ring'[Slot(head', i, |ring|)] == sb'[i]
    {
      var j := if |sb| == |ring| then i + 1 else i;
      if j < |sb| {
        assert ring[Slot(head, j, |ring|)] == sb[j];
      }
    }
  }

  class Terminal {
    var cols: int
    var rows: int
    var screen: array<Cell>
    var cursorCol: int
    var cursorRow: int
    var savedCol: int
    var savedRow: int
    var scrollTop: int
    var scrollBot: int
    var pen: Pen
    var modeInsert: bool
    var pendingWrap: bool
    var parseState: ParseState
    const params: array<int>
    var paramCount: int
    const interm: array<byte>
    var intermCount: nat
    const oscBuf: array<byte>
    var oscLen: nat
    const scrollback: array<Row>
    var sbCount: nat
    var sbHead: nat

    /** The rows stored in `screen`. */
    ghost var grid: seq<Row>
    /** The rows stored in the ring, oldest first. */
    ghost var sb: seq<Row>

    ghost predicate ScreenOk()
      reads this, screen
    {
      cols > 0 && rows > 0 && |grid| == rows && Stored(screen[..], grid, cols)
    }

    ghost predicate RingOk()
      reads this, scrollback
    {
      |sb| == sbCount && Ring(scrollback[..], sbHead, sb)
    }

    ghost predicate RegsOk()
      reads this
    {
      && params.Length == MAX_PARAMS && interm.Length == MAX_INTERM && oscBuf.Length == MAX_OSC_LEN
      && intermCount <= MAX_INTERM && oscLen < MAX_OSC_LEN
      && interm != oscBuf && params as object != interm && params as object != oscBuf
    }

    ghost function State(): Vt
      requires RegsOk()
      reads this, params, interm, oscBuf
    {
      Vt(cols, rows, grid, cursorCol, cursorRow, savedCol, savedRow, scrollTop, scrollBot,
         pen, modeInsert, pendingWrap, parseState,
         params[..], paramCount, interm[..intermCount], oscBuf[..oscLen],
         scrollback.Length, sb)
    }

    /** The arrays hold what the ghost fields say. */
    ghost predicate Sound()
      reads this, screen, scrollback
    {
      ScreenOk() && RingOk() && RegsOk()
    }

    ghost predicate Valid()
      reads this, screen, scrollback, params, interm, oscBuf
    {
      Sound() && Ok(State())
    }

    constructor (cols: int, rows: int, scrollback: int)
      requires cols > 0 && rows > 0
      ensures Valid() && State() == New(cols, rows, scrollback)
      ensures fresh(screen) && fresh(params) && fresh(interm) && fresh(oscBuf) && fresh(this.scrollback)
    {
      this.cols, this.rows := cols, rows;
      assert cols * rows >= 0;
      screen := new Cell[rows * cols](_ => Erased(PLAIN));
      grid := Repeated(rows, Repeated(cols, Erased(PLAIN)));
      cursorCol, cursorRow, savedCol, savedRow := 0, 0, 0, 0;
      scrollTop, scrollBot := 0, rows - 1;
      pen, modeInsert, pendingWrap, parseState := PLAIN, false, false, Ground;
      params := new int[MAX_PARAMS](_ => 0);
      paramCount, intermCount, oscLen := 0, 0, 0;
      interm := new byte[MAX_INTERM](_ => 0);
      oscBuf := new byte[MAX_OSC_LEN](_ => 0);
      this.scrollback := new Row[if scrollback > 0 then scrollback else 0](_ => []);
      sbCount, sbHead, sb := 0, 0, [];
      new;
      BlankStored(screen[..], cols, rows);
      assert params[..] == Repeated(MAX_PARAMS, 0);
      NewOk(cols, rows, scrollback);
    }

    // -------------------------------------------------------------- screen

    method WriteCell(r: int, c: int, x: Cell)
      requires ScreenOk() && 0 <= r < rows && 0 <= c < cols
      modifies screen, this`grid
      ensures ScreenOk() && grid == old(grid)[r := old(grid)[r][c := x]]
    {
      CellStored(screen[..], grid, cols, r, c, x);
      ghost var was := screen[..];
      screen[r * cols + c] := x;
      assert screen[..] == was[r * cols + c := x];
      grid := grid[r := grid[r][c := x]];
    }

    method ClearLine(r: int, from: int, to: int)
      requires ScreenOk() && from >= 0
      modifies screen, this`grid
      ensures ScreenOk() && grid == LineErased(old(grid), r, from, to, Erased(pen))
    {
      var blank := Erased(pen);
      if r < 0 || r >= rows {
        return;
      }
      ghost var was := grid[r];
      var c := from;
      assert ErasedIn(was, from, c - 1, blank) == was;
      while c <= to && c < cols
        invariant ScreenOk() && from <= c && (c == from || c <= to + 1) && |old(grid)| == rows
        invariant grid == old(grid)[r := ErasedIn(was, from, c - 1, blank)]
      {
        assert ErasedIn(was, from, c - 1, blank)[c := blank] == ErasedIn(was, from, c, blank);
        WriteCell(r, c, blank);
        c := c + 1;
      }
      assert ErasedIn(was, from, c - 1, blank) == ErasedIn(was, from, to, blank);
    }

    method ClearRows(from: int, to: int)
      requires ScreenOk()
      modifies screen, this`grid
      ensures ScreenOk() && grid == RowsErased(old(grid), cols, from, to, Erased(pen))
    {
      var r := from;
      ghost var g, blank := grid, Erased(pen);
      assert g == RowsErased(g, cols, from, from - 1, blank);
      while r <= to && r < rows
        invariant ScreenOk() && from <= r && (r == from || r <= to + 1) && GridOk(g, cols, rows)
        invariant grid == RowsErased(g, cols, from, r - 1, blank)
      {
        ClearRow(g, from, r);
        r := r + 1;
      }
      RowsErasedEnd(g, cols, from, r, to, blank);
    }

    method ClearRow(ghost g: seq<Row>, ghost from: int, r: int)
      requires ScreenOk() && GridOk(g, cols, rows) && from <= r < rows
      requires grid == RowsErased(g, cols, from, r - 1, Erased(pen))
      modifies screen, this`grid
      ensures ScreenOk() && grid == RowsErased(g, cols, from, r, Erased(pen))
    {
      RowsErasedNext(g, cols, from, r, Erased(pen));
      ClearLine(r, 0, cols - 1);
    }

    method MoveCells(dst: nat, src: nat, n: nat)
      requires dst + n <= screen.Length && src + n <= screen.Length
      modifies screen
      ensures CellsCopied(old(screen[..]), screen[..], dst, src, n)
    {
      forall i | 0 <= i < n {
        screen[dst + i] := screen[src + i];
      }
    }

    method MoveRows(dst: nat, src: nat, n: nat)
      requires ScreenOk() && dst + n <= rows && src + n <= rows
      modifies screen, this`grid
      ensures ScreenOk() && grid == RowsMoved(old(grid), dst, src, n)
    {
      RowSpan(dst, n, rows, cols);
      RowSpan(src, n, rows, cols);
      MoveCells(dst * cols, src * cols, n * cols);
      RowsCopied(old(screen[..]), screen[..], grid, cols, dst, src, n);
      grid := RowsMoved(grid, dst, src, n);
    }

    method MoveInRow(r: nat, dst: nat, src: nat, n: nat)
      requires ScreenOk() && r < rows && dst + n <= cols && src + n <= cols
      modifies screen, this`grid
      ensures ScreenOk() && grid == old(grid)[r := CellsMoved(old(grid)[r], dst, src, n)]
    {
      var base := r * cols;
      var to, from := base + dst, base + src;
      assert base + cols <= screen.Length by {
        OffBefore(r, rows, cols);
      }
      MoveCells(to, from, n);
      RowCellsCopied(old(screen[..]), screen[..], grid, cols, r, to, from, dst, src, n);
      grid := grid[r := CellsMoved(grid[r], dst, src, n)];
    }

    // -------------------------------------------------------------- scrollback ring

    method PushLine(r: nat)
      requires ScreenOk() && RingOk() && r < rows
      modifies scrollback, this`sb, this`sbCount, this`sbHead
      ensures RingOk() && sb == Pushed(old(sb), scrollback.Length, grid[r])
    {
      if scrollback.Length == 0 {
        return;
      }
      var base := r * cols;
      assert base + cols <= screen.Length && screen[..][base..base + cols] == grid[r] by {
        RowStored(screen[..], grid, cols, r);
      }
      var row := screen[base..base + cols];
      assert row == screen[..][base..base + cols];
      StoreLine(row);
    }

    /** Writes a row after the newest one, over the oldest when the ring is full. */
    method StoreLine(row: Row)
      requires RingOk() && scrollback.Length > 0
      modifies scrollback, this`sb, this`sbCount, this`sbHead
      ensures RingOk() && sb == Pushed(old(sb), scrollback.Length, row)
    {
      ghost var ring := scrollback[..];
      RingPushed(ring, sbHead, sb, row);
      var idx := TakeSlot();
      scrollback[idx] := row;
      assert scrollback[..] == ring[idx := row];
      sb := Pushed(sb, scrollback.Length, row);
    }

    /** The slot for the next row, counted in; the oldest row gives way in a full ring. */
    method TakeSlot() returns (idx: nat)
      requires RingOk() && scrollback.Length > 0
      modifies this`sbCount, this`sbHead
      ensures idx == NextSlot(old(sbHead), old(sbCount), scrollback.Length)
      ensures sbHead == NextHead(old(sbHead), old(sbCount), scrollback.Length)
      ensures sbCount == if old(sbCount) == scrollback.Length then old(sbCount) else old(sbCount) + 1
    {
      idx := Wrapped(sbHead + sbCount, scrollback.Length);
      if sbCount == scrollback.Length {
        sbHead := Wrapped(sbHead + 1, scrollback.Length);
        sbCount := sbCount - 1;
      }
      sbCount := sbCount + 1;
    }

    method PushLines(r: nat, n: nat)
      requires ScreenOk() && RingOk() && r < rows
      modifies scrollback, this`sb, this`sbCount, this`sbHead
      ensures RingOk() && sb == PushedTimes(old(sb), scrollback.Length, grid[r], n)
    {
      for i := 0 to n
        invariant ScreenOk() && RingOk()
        invariant sb == PushedTimes(old(sb), scrollback.Length, grid[r], i)
      {
        PushLine(r);
      }
    }

    // -------------------------------------------------------------- scrolling

    method ScrollUp(top: nat, bot: nat, n: nat)
      requires ScreenOk() && RingOk() && top < rows && bot < rows && n >= 1
      modifies screen, scrollback, this`grid, this`sb, this`sbCount, this`sbHead
      ensures ScreenOk() && grid == ScrolledUp(old(grid), cols, top, bot, n, Erased(pen))
      ensures RingOk() && sb == PushedTimes(old(sb), scrollback.Length, old(grid)[top], n)
    {
      PushLines(top, n);
      ShiftUp(top, bot, n);
    }

    method ShiftUp(top: nat, bot: nat, n: nat)
      requires ScreenOk() && top < rows && bot < rows && n >= 1
      modifies screen, this`grid
      ensures ScreenOk() && grid == ScrolledUp(old(grid), cols, top, bot, n, Erased(pen))
    {
      MoveUp(top, bot, n);
      ClearRows(bot - n + 1, bot);
    }

    method MoveUp(top: nat, bot: nat, n: nat)
      requires ScreenOk() && top < rows && bot < rows
      modifies screen, this`grid
      ensures ScreenOk() && grid == MovedUp(old(grid), top, bot, n)
    {
      var lines := bot - top + 1 - n;
      ghost var g := MovedUp(grid, top, bot, n);
      if lines > 0 {
        assert g == RowsMoved(grid, top, top + n, lines);
        MoveRows(top, top + n, lines);
      }
      assert grid == g;
    }

    method ScrollDown(top: nat, bot: nat, n: nat)
      requires ScreenOk() && top < rows && bot < rows && n >= 1
      modifies screen, this`grid
      ensures ScreenOk() && grid == ScrolledDown(old(grid), cols, top, bot, n, Erased(pen))
    {
      MoveDown(top, bot, n);
      ClearRows(top, top + n - 1);
    }

    method MoveDown(top: nat, bot: nat, n: nat)
      requires ScreenOk() && top < rows && bot < rows
      modifies screen, this`grid
      ensures ScreenOk() && grid == MovedDown(old(grid), top, bot, n)
    {
      var lines := bot - top + 1 - n;
      ghost var g := MovedDown(grid, top, bot, n);
      if lines > 0 {
        assert g == RowsMoved(grid, top + n, top, lines);
        MoveRows(top + n, top, lines);
      }
      assert grid == g;
    }

    // -------------------------------------------------------------- cursor

    method CursorMove(col: int, row: int)
      modifies this`cursorCol, this`cursorRow, this`pendingWrap
      ensures cursorCol == Clamp(col, cols) && cursorRow == Clamp(row, rows) && !pendingWrap
    {
      cursorCol, cursorRow, pendingWrap := col, row, false;
      if cursorCol < 0 {
        cursorCol := 0;
      } else if cursorCol >= cols {
        cursorCol := cols - 1;
      }
      if cursorRow < 0 {
        cursorRow := 0;
      } else if cursorRow >= rows {
        cursorRow := rows - 1;
      }
    }

    method NextLine()
      requires Valid()
      modifies screen, scrollback, this`grid, this`sb, this`sbCount, this`sbHead, this`cursorRow
      ensures ScreenOk() && RingOk() && State() == VtModel.NextLine(old(State()))
    {
      if cursorRow == scrollBot {
        ScrollUp(scrollTop, scrollBot, 1);
      } else {
        cursorRow := cursorRow + 1;
        if cursorRow >= rows {
          cursorRow := rows - 1;
        }
      }
    }

    /** Opens a gap at the cursor by moving the rest of the row right, last cell first. */
    method OpenCell()
      requires ScreenOk() && 0 <= cursorRow < rows && 0 <= cursorCol < cols
      modifies screen, this`grid
      ensures ScreenOk()
      ensures grid == old(grid)[cursorRow := RowOpened(old(grid)[cursorRow], cursorCol)]
    {
      ghost var line := grid[cursorRow];
      var c := cols - 1;
      assert line[..c + 1] + line[c..cols - 1] == line;
      while c > cursorCol
        invariant ScreenOk() && cursorCol <= c < cols && |old(grid)| == rows
        invariant grid == old(grid)[cursorRow := line[..c + 1] + line[c..cols - 1]]
      {
        CellStored(screen[..], grid, cols, cursorRow, c - 1, Erased(PLAIN));
        assert grid[cursorRow][c - 1] == line[c - 1];
        assert (line[..c + 1] + line[c..cols - 1])[c := line[c - 1]] == line[..c] + line[c - 1..cols - 1];
        WriteCell(cursorRow, c, screen[cursorRow * cols + (c - 1)]);
        c := c - 1;
      }
    }

    method WriteAtCursor(codepoint: int)
      requires ScreenOk() && 0 <= cursorRow < rows && 0 <= cursorCol < cols
      modifies screen, this`grid, this`cursorCol, this`pendingWrap
      ensures ScreenOk()
      ensures cursorCol == if old(cursorCol) >= cols - 1 then old(cursorCol) else old(cursorCol) + 1
      ensures pendingWrap == (old(pendingWrap) || old(cursorCol) >= cols - 1)
      ensures var r, c := cursorRow, old(cursorCol);
              var line := if modeInsert then RowOpened(old(grid)[r], c) else old(grid)[r];
              grid == old(grid)[r := line[c := Cell(codepoint, pen)]]
    {
      if modeInsert {
        OpenCell();
      }
      WriteCell(cursorRow, cursorCol, Cell(codepoint, pen));
      if cursorCol >= cols - 1 {
        pendingWrap := true;
      } else {
        cursorCol := cursorCol + 1;
      }
    }

    method WrapIfPending()
      requires Valid()
      modifies screen, scrollback, this`grid, this`sb, this`sbCount, this`sbHead,
               this`cursorRow, this`cursorCol, this`pendingWrap
      ensures ScreenOk() && RingOk() && State() == VtModel.Wrap(old(State()))
    {
      if pendingWrap {
        cursorCol := 0;
        pendingWrap := false;
        NextLine();
      }
    }

    method PutChar(codepoint: int)
      requires Valid()
      modifies screen, scrollback, this`grid, this`sb, this`sbCount, this`sbHead,
               this`cursorRow, this`cursorCol, this`pendingWrap
      ensures ScreenOk() && RingOk() && State() == VtModel.PutChar(old(State()), codepoint)
    {
      WrapInside(State());
      WrapIfPending();
      WriteAtCursor(codepoint);
    }

    // -------------------------------------------------------------- control sequences

    function ParamOr(i: nat, def: int): (p: int)
      requires Valid() && i < MAX_PARAMS
      reads this, screen, scrollback, params, interm, oscBuf
      ensures p == Param(State(), i, def)
    {
      if i >= paramCount || params[i] == 0 then def else params[i]
    }

    method SetRegion(first: int, last: int)
      modifies this`scrollTop, this`scrollBot
      ensures (scrollTop, scrollBot) == Region(first, last, rows)
    {
      scrollTop, scrollBot := first - 1, last - 1;
      if scrollTop < 0 {
        scrollTop := 0;
      }
      if scrollBot >= rows {
        scrollBot := rows - 1;
      }
      if scrollTop > scrollBot {
        scrollTop, scrollBot := 0, rows - 1;
      }
    }

    method CsiMove(f: char)
      requires Valid()
      modifies this`cursorCol, this`cursorRow, this`pendingWrap
      ensures State() == VtModel.CsiMove(old(State()), f)
    {
      var p1, p2 := ParamOr(0, 1), ParamOr(1, 1);
      var col, row := cursorCol, cursorRow;
      match f {
        case 'A' => row := row - p1;
        case 'B' => row := row + p1;
        case 'C' => col := col + p1;
        case 'D' => col := col - p1;
        case 'E' => col, row := 0, row + p1;
        case 'F' => col, row := 0, row - p1;
        case 'G' => col := p1 - 1;
        case 'd' => row := p1 - 1;
        case 'u' => col, row := savedCol, savedRow;
        case _ => col, row := p2 - 1, p1 - 1;
      }
      assert (col, row) == MoveTarget(State(), f);
      CursorMove(col, row);
    }

    method RegionSequence()
      requires Valid()
      modifies this`scrollTop, this`scrollBot, this`cursorCol, this`cursorRow, this`pendingWrap
      ensures State() == VtModel.SetRegion(old(State()))
    {
      SetRegion(ParamOr(0, 1), ParamOr(1, rows));
      CursorMove(0, 0);
    }

    method CsiCursor(f: char)
      requires Valid()
      modifies this`scrollTop, this`scrollBot, this`cursorCol, this`cursorRow, this`pendingWrap,
               this`savedCol, this`savedRow
      ensures State() == VtModel.CsiCursor(old(State()), f)
    {
      if f == 'I' {
        cursorCol := Clamp((cursorCol / 8 + ParamOr(0, 1)) * 8, cols);
      } else if f == 'Z' {
        cursorCol := Clamp(BackTab(cursorCol), cols);
      } else if f == 'r' {
        RegionSequence();
      } else if f == 's' {
        savedCol, savedRow := cursorCol, cursorRow;
      } else {
        CsiMove(f);
      }
    }

    method EraseScreen(p: int)
      requires ScreenOk() && cursorCol >= 0
      modifies screen, this`grid
      ensures ScreenOk() && grid == DisplayErased(old(grid), cols, cursorRow, cursorCol, p, Erased(pen))
    {
      if p == 0 {
        ClearLine(cursorRow, cursorCol, cols - 1);
        ClearRows(cursorRow + 1, rows - 1);
      } else if p == 1 {
        ClearLine(cursorRow, 0, cursorCol);
        ClearRows(0, cursorRow - 1);
      } else if p == 2 || p == 3 {
        ClearRows(0, rows - 1);
      }
    }

    method EraseDisplay(p: int)
      requires ScreenOk() && RingOk() && cursorCol >= 0
      modifies screen, this`grid, this`sb, this`sbCount, this`sbHead
      ensures ScreenOk() && grid == DisplayErased(old(grid), cols, cursorRow, cursorCol, p, Erased(pen))
      ensures RingOk() && sb == if p == 3 then [] else old(sb)
    {
      EraseScreen(p);
      if p == 3 {
        sbCount, sbHead, sb := 0, 0, [];
      }
    }

    method EraseLine(p: int)
      requires Valid()
      modifies screen, this`grid
      ensures ScreenOk() && State() == VtModel.EraseLine(old(State()), p)
    {
      if p == 0 {
        ClearLine(cursorRow, cursorCol, cols - 1);
      } else if p == 1 {
        ClearLine(cursorRow, 0, cursorCol);
      } else if p == 2 {
        ClearLine(cursorRow, 0, cols - 1);
      }
    }

    method DeleteChars(p: int)
      requires Valid() && p >= 1
      modifies screen, this`grid
      ensures ScreenOk() && State() == VtModel.DeleteChars(old(State()), p)
    {
      var n := if p > cols - cursorCol then cols - cursorCol else p;
      var remain := cols - cursorCol - n;
      MoveInRow(cursorRow, cursorCol, cursorCol + n, remain);
      ClearLine(cursorRow, cols - n, cols - 1);
    }

    method InsertChars(p: int)
      requires Valid() && p >= 1
      modifies screen, this`grid
      ensures ScreenOk() && State() == VtModel.InsertChars(old(State()), p)
    {
      var n := if p > cols - cursorCol then cols - cursorCol else p;
      var remain := cols - cursorCol - n;
      MoveInRow(cursorRow, cursorCol + n, cursorCol, remain);
      ClearLine(cursorRow, cursorCol, cursorCol + n - 1);
    }

    method CsiShift(f: char)
      requires Valid()
      modifies screen, scrollback, this`grid, this`sb, this`sbCount, this`sbHead
      ensures ScreenOk() && RingOk() && State() == VtModel.CsiShift(old(State()), f)
    {
      var p1 := ParamOr(0, 1);
      if f == 'P' {
        DeleteChars(p1);
      } else if f == '@' {
        InsertChars(p1);
      } else {
        CsiScroll(f, p1);
      }
    }

    method CsiScroll(f: char, n: int)
      requires Valid() && n >= 1
      modifies screen, scrollback, this`grid, this`sb, this`sbCount, this`sbHead
      ensures ScreenOk() && RingOk() && State() == VtModel.CsiScroll(old(State()), f, n)
    {
      match f {
        case 'L' => ScrollDown(cursorRow, scrollBot, n);
        case 'M' => ScrollUp(cursorRow, scrollBot, n);
        case 'S' => ScrollUp(scrollTop, scrollBot, n);
        case 'T' => ScrollDown(scrollTop, scrollBot, n);
        case _ =>
      }
    }

    method ApplySgr()
      requires Valid()
      modifies this`pen
      ensures pen == if paramCount == 0 then PLAIN else Renditions(old(pen), params[..paramCount], 0)
    {
      if paramCount == 0 {
        pen := PLAIN;
        return;
      }
      var ps := params[..paramCount];
      var i := 0;
      while i < paramCount
        invariant 0 <= i <= paramCount && Renditions(pen, ps, i) == Renditions(old(pen), ps, 0)
      {
        var (p, used) := Rendition(pen, ps, i);
        pen := p;
        i := i + used;
      }
    }

    /** No byte stream gets a `?` among the intermediates, so the private modes are unreachable. */
    method CsiMode(f: char)
      requires Valid() && (f == 'h' || f == 'l')
      modifies this`modeInsert
      ensures State() == VtModel.CsiMode(old(State()), f)
    {
      assert intermCount > 0 ==> State().interm[0] <= 0x2F;
      for i := 0 to paramCount
        invariant RegsOk() && 0 <= paramCount <= MAX_PARAMS
        invariant intermCount > 0 ==> interm[0] <= 0x2F
        invariant modeInsert == if 4 in params[..i] then f == 'h' else old(modeInsert)
      {
        if intermCount > 0 && interm[0] == 0x3F {
          assert false;
        } else if params[i] == 4 {
          modeInsert := f == 'h';
        }
      }
    }

    method CsiErase(f: char)
      requires Valid() && EraseFinal(f)
      modifies screen, this`grid, this`sb, this`sbCount, this`sbHead
      ensures ScreenOk() && RingOk() && State() == VtModel.CsiErase(old(State()), f)
    {
      if f == 'J' {
        EraseDisplay(ParamOr(0, 0));
      } else if f == 'K' {
        EraseLine(ParamOr(0, 0));
      } else {
        ClearLine(cursorRow, cursorCol, cursorCol + ParamOr(0, 1) - 1);
      }
    }

    method DispatchCsi(f: char)
      requires Valid()
      modifies screen, scrollback, this`grid, this`sb, this`sbCount, this`sbHead,
               this`scrollTop, this`scrollBot, this`cursorCol, this`cursorRow, this`pendingWrap,
               this`savedCol, this`savedRow, this`pen, this`modeInsert
      ensures ScreenOk() && RingOk() && State() == VtModel.DispatchCsi(old(State()), f)
    {
      if CursorFinal(f) {
        CsiCursor(f);
      } else if EraseFinal(f) {
        CsiErase(f);
      } else if ShiftFinal(f) {
        CsiShift(f);
      } else if f == 'm' {
        ApplySgr();
      } else if f == 'h' || f == 'l' {
        CsiMode(f);
      }
    }

    method ReverseIndex()
      requires Valid()
      modifies screen, this`grid, this`cursorRow
      ensures ScreenOk() && State() == VtModel.ReverseIndex(old(State()))
    {
      if cursorRow == scrollTop {
        ScrollDown(scrollTop, scrollBot, 1);
      } else if cursorRow > 0 {
        cursorRow := cursorRow - 1;
      }
    }

    method IndexEscape(f: char)
      requires Valid() && (f == 'D' || f == 'E')
      modifies screen, scrollback, this`grid, this`sb, this`sbCount, this`sbHead, this`cursorCol, this`cursorRow
      ensures ScreenOk() && RingOk() && State() == VtModel.DispatchEsc(old(State()), f)
    {
      if f == 'E' {
        cursorCol := 0;
      }
      NextLine();
    }

    method DispatchEsc(f: char)
      requires Valid()
      modifies screen, scrollback, this`grid, this`sb, this`sbCount, this`sbHead,
               this`scrollTop, this`scrollBot, this`cursorCol, this`cursorRow, this`pendingWrap,
               this`savedCol, this`savedRow, this`pen
      ensures ScreenOk() && RingOk() && State() == VtModel.DispatchEsc(old(State()), f)
    {
      if f == 'D' || f == 'E' {
        IndexEscape(f);
      } else if f == 'M' {
        ReverseIndex();
      } else if f == '7' {
        savedCol, savedRow := cursorCol, cursorRow;
      } else if f == '8' {
        CursorMove(savedCol, savedRow);
      } else if f == 'c' {
        FullReset();
      }
    }

    method FullReset()
      requires Valid()
      modifies screen, this`grid, this`scrollTop, this`scrollBot,
               this`cursorCol, this`cursorRow, this`pendingWrap, this`pen
      ensures ScreenOk() && State() == VtModel.FullReset(old(State()))
    {
      ClearRows(0, rows - 1);
      CursorMove(0, 0);
      pen := PLAIN;
      scrollTop, scrollBot := 0, rows - 1;
    }

    // -------------------------------------------------------------- the parser

    method ParserReset()
      requires RegsOk()
      modifies params, interm, this`paramCount, this`intermCount
      ensures RegsOk() && State() == Reset(old(State()))
    {
      paramCount, intermCount := 0, 0;
      forall i | 0 <= i < params.Length {
        params[i] := 0;
      }
      forall i | 0 <= i < interm.Length {
        interm[i] := 0;
      }
      assert params[..] == Repeated(MAX_PARAMS, 0);
    }

    method PushDigit(c: byte)
      requires Valid() && 0x30 <= c <= 0x39
      modifies params, this`paramCount
      ensures State() == VtModel.PushDigit(old(State()), c)
    {
      if paramCount == 0 {
        paramCount := 1;
      }
      params[paramCount - 1] := params[paramCount - 1] * 10 + (c - 0x30);
    }

    method Collect(c: byte)
      requires RegsOk()
      modifies interm, this`intermCount
      ensures RegsOk() && State() == VtModel.Collect(old(State()), c)
    {
      if intermCount < MAX_INTERM {
        ghost var was := interm[..intermCount];
        interm[intermCount] := c;
        intermCount := intermCount + 1;
        assert interm[..intermCount] == was + [c];
      }
    }

    method OscStep(c: byte)
      requires RegsOk()
      modifies oscBuf, this`oscLen, this`parseState
      ensures RegsOk() && State() == VtModel.OscStep(old(State()), c)
    {
      ghost var osc := oscBuf[..oscLen];
      var escaped := oscLen > 0 && oscBuf[oscLen - 1] == 0x1B;
      assert escaped == EndsWithEsc(osc);
      if c == 0x07 || c == 0x9C || (c == 0x5C && escaped) {
        if escaped {
          oscLen := oscLen - 1;
        }
        oscBuf[oscLen] := 0;
        assert oscBuf[..oscLen] == osc[..oscLen];
        parseState := Ground;
      } else if oscLen < MAX_OSC_LEN - 1 {
        oscBuf[oscLen] := c;
        oscLen := oscLen + 1;
        assert oscBuf[..oscLen] == osc + [c];
      }
    }

    /** Control characters that only move the cursor within its row. */
    method MoveInLine(c: byte)
      requires Valid() && c in {0x08, 0x09, 0x0D}
      modifies this`cursorCol, this`pendingWrap
      ensures State() == VtModel.ControlStep(old(State()), c)
    {
      match c {
        case 0x08 =>
          if cursorCol > 0 {
            cursorCol := cursorCol - 1;
          }
        case 0x09 =>
          cursorCol := (cursorCol / 8 + 1) * 8;
          if cursorCol >= cols {
            cursorCol := cols - 1;
          }
        case _ => cursorCol := 0;
      }
      pendingWrap := false;
    }

    method ControlStep(c: byte)
      requires Valid()
      modifies screen, scrollback, params, interm, this`grid, this`sb, this`sbCount, this`sbHead,
               this`cursorCol, this`cursorRow, this`pendingWrap,
               this`paramCount, this`intermCount, this`parseState
      ensures Sound() && State() == VtModel.ControlStep(old(State()), c)
    {
      if c in {0x08, 0x09, 0x0D} {
        MoveInLine(c);
      } else if c == 0x0A || c == 0x0B || c == 0x0C {
        NextLine();
      } else if c == 0x1B {
        ParserReset();
        parseState := Escape;
      }
    }

    predicate EscFinal(c: byte) {
      0x30 <= c <= 0x7E && c !in {0x5B, 0x5D, 0x50, 0x58, 0x5E, 0x5F}
    }

    /** A byte after an escape that starts or continues a longer sequence, or ends it. */
    method EscapeRegister(c: byte)
      requires Valid() && !EscFinal(c)
      modifies params, interm, this`paramCount, this`intermCount, this`oscLen, this`parseState
      ensures RegsOk() && State() == VtModel.EscapeStep(old(State()), c)
    {
      if c == 0x5B {
        ParserReset();
        parseState := Csi;
      } else if c == 0x5D || c == 0x50 || c == 0x58 || c == 0x5E || c == 0x5F {
        oscLen := 0;
        parseState := Osc;
      } else if 0x20 <= c <= 0x2F {
        Collect(c);
      } else {
        parseState := Ground;
      }
    }

    method EscapeStep(c: byte)
      requires Valid()
      modifies screen, scrollback, params, interm, this`grid, this`sb, this`sbCount, this`sbHead,
               this`scrollTop, this`scrollBot, this`cursorCol, this`cursorRow, this`pendingWrap,
               this`savedCol, this`savedRow, this`pen,
               this`paramCount, this`intermCount, this`oscLen, this`parseState
      ensures Sound() && State() == VtModel.EscapeStep(old(State()), c)
    {
      if EscFinal(c) {
        DispatchEsc(c as char);
        parseState := Ground;
      } else {
        EscapeRegister(c);
      }
    }

    /** A byte inside a control sequence: a digit, a separator or an intermediate. */
    method CsiRegister(c: byte)
      requires Valid() && !(0x40 <= c <= 0x7E)
      modifies params, interm, this`paramCount, this`intermCount, this`parseState
      ensures RegsOk() && State() == VtModel.CsiStep(old(State()), c)
    {
      if 0x30 <= c <= 0x39 {
        PushDigit(c);
      } else if c == 0x3B || c == 0x3A {
        if paramCount < MAX_PARAMS {
          paramCount := paramCount + 1;
        }
      } else if 0x20 <= c <= 0x2F {
        Collect(c);
      } else if c == 0x1B {
        ParserReset();
        parseState := Escape;
      } else {
        parseState := Ground;
      }
    }

    method CsiStep(c: byte)
      requires Valid()
      modifies screen, scrollback, params, interm, this`grid, this`sb, this`sbCount, this`sbHead,
               this`scrollTop, this`scrollBot, this`cursorCol, this`cursorRow, this`pendingWrap,
               this`savedCol, this`savedRow, this`pen, this`modeInsert,
               this`paramCount, this`intermCount, this`parseState
      ensures Sound() && State() == VtModel.CsiStep(old(State()), c)
    {
      if 0x40 <= c <= 0x7E {
        DispatchCsi(c as char);
        parseState := Ground;
      } else {
        CsiRegister(c);
      }
    }

    method Step(c: byte)
      requires Valid()
      modifies this, screen, scrollback, params, interm, oscBuf
      ensures Valid() && screen == old(screen)
      ensures State() == VtModel.Step(old(State()), c)
    {
      StepOk(State(), c);
      match parseState {
        case Osc => OscStep(c);
        case Ground =>
          if c < 0x20 {
            ControlStep(c);
          } else {
            PutChar(c);
          }
        case Escape => EscapeStep(c);
        case Csi => CsiStep(c);
      }
    }

    /** A stream of any bytes keeps the terminal valid and computes what the model says. */
    method Feed(bytes: seq<byte>)
      requires Valid()
      modifies this, screen, scrollback, params, interm, oscBuf
      ensures Valid() && screen == old(screen)
      ensures State() == VtInvariant.Feed(old(State()), bytes)
    {
      var rest := bytes;
      while rest != []
        invariant Valid() && screen == old(screen)
        invariant VtInvariant.Feed(State(), rest) == VtInvariant.Feed(old(State()), bytes)
        decreases |rest|
      {
        FeedNext(State(), rest);
        Step(rest[0]);
        rest := rest[1..];
      }
    }

    // -------------------------------------------------------------- resizing

    /** Copies the part of the screen that fits into a new array of blanks. */
    method CopyScreen(into: array<Cell>, w: nat, h: nat)
      requires ScreenOk() && into != screen && w > 0 && h > 0
      requires Stored(into[..], Patched(grid, w, h, 0, 0), w)
      modifies into
      ensures Stored(into[..], ResizedGrid(grid, w, h), w)
    {
      var copyRows, copyCols := if h < rows then h else rows, if w < cols then w else cols;
      ghost var g := grid;
      for r := 0 to copyRows
        invariant grid == g && ScreenOk() && Stored(into[..], Patched(g, w, h, r, 0), w)
      {
        CopyWholeRow(into, w, h, r, copyCols, g);
      }
      PatchedAll(g, w, h, copyRows, cols);
    }

    method CopyWholeRow(into: array<Cell>, w: nat, h: nat, r: nat, n: nat, ghost g: seq<Row>)
      requires grid == g && ScreenOk() && into != screen && r < h && r < rows && n == if w < cols then w else cols
      requires Stored(into[..], Patched(g, w, h, r, 0), w)
      modifies into
      ensures Stored(into[..], Patched(g, w, h, r + 1, 0), w)
    {
      CopyRow(into, w, h, r, n, g);
      PatchedRow(g, w, h, r, n, cols);
    }

    method CopyRow(into: array<Cell>, w: nat, h: nat, r: nat, n: nat, ghost g: seq<Row>)
      requires grid == g && ScreenOk() && into != screen && r < h && r < rows && n <= w && n <= cols
      requires Stored(into[..], Patched(g, w, h, r, 0), w)
      modifies into
      ensures Stored(into[..], Patched(g, w, h, r, n), w)
    {
      for c := 0 to n
        invariant grid == g && screen[..] == old(screen[..]) && Stored(into[..], Patched(g, w, h, r, c), w)
      {
        CopyCell(into, w, h, r, c, g);
      }
    }

    method CopyCell(into: array<Cell>, w: nat, h: nat, r: nat, c: nat, ghost g: seq<Row>)
      requires grid == g && ScreenOk() && into != screen && r < h && r < rows && c < w && c < cols
      requires Stored(into[..], Patched(g, w, h, r, c), w)
      modifies into
      ensures screen[..] == old(screen[..]) && Stored(into[..], Patched(g, w, h, r, c + 1), w)
    {
      CellRead(screen[..], g, cols, r, c);
      ghost var was := into[..];
      CellStored(was, Patched(g, w, h, r, c), w, r, c, g[r][c]);
      PatchedCell(g, w, h, r, c);
      into[r * w + c] := screen[r * cols + c];
      assert into[..] == was[r * w + c := g[r][c]];
    }

    method ResizeScreen(w: int, h: int)
      requires ScreenOk() && w > 0 && h > 0
      modifies this`screen, this`cols, this`rows, this`grid
      ensures ScreenOk() && fresh(screen) && cols == w && rows == h
      ensures grid == ResizedGrid(old(grid), w, h)
    {
      assert w * h >= 0;
      var newScreen := new Cell[h * w](_ => Erased(PLAIN));
      PatchedNone(grid, w, h);
      BlankStored(newScreen[..], w, h);
      CopyScreen(newScreen, w, h);
      grid := ResizedGrid(grid, w, h);
      screen := newScreen;
      cols, rows := w, h;
    }

    method ResizeCursor()
      modifies this`cursorCol, this`cursorRow, this`scrollTop, this`scrollBot
      ensures cursorCol == if old(cursorCol) >= cols then cols - 1 else old(cursorCol)
      ensures cursorRow == if old(cursorRow) >= rows then rows - 1 else old(cursorRow)
      ensures scrollTop == 0 && scrollBot == rows - 1
    {
      if cursorCol >= cols {
        cursorCol := cols - 1;
      }
      if cursorRow >= rows {
        cursorRow := rows - 1;
      }
      scrollTop, scrollBot := 0, rows - 1;
    }

    /** Resizing keeps the top left part of the screen and the whole scrollback. */
    method Resize(w: int, h: int)
      requires Valid()
      modifies this`screen, this`cols, this`rows, this`grid, this`cursorCol, this`cursorRow,
               this`scrollTop, this`scrollBot
      ensures Valid() && State() == VtModel.Resize(old(State()), w, h)
      ensures screen == old(screen) || fresh(screen)
    {
      if w <= 0 || h <= 0 {
        return;
      }
      ResizeOk(State(), w, h);
      ResizeScreen(w, h);
      ResizeCursor();
    }

    /** Row `index` of the scrollback, counting from the newest. */
    method ScrollbackLine(index: int) returns (found: bool, cells: Row)
      requires RingOk()
      ensures found == (0 <= index < |sb|)
      ensures found ==> cells == sb[|sb| - 1 - index]
    {
      if index < 0 || index >= sbCount {
        return false, [];
      }
      var idx := Wrapped(sbHead + sbCount - 1 - index, scrollback.Length);
      assert sb[|sb| - 1 - index] == sb[sbCount - 1 - index];
      return true, scrollback[idx];
    }
  }

  lemma RowsErasedNext(g: seq<Row>, cols: nat, from: int, r: int, blank: Cell)
    requires from <= r < |g| && forall i :: 0 <= i < |g| ==> |g[i]| == cols
    ensures RowsErased(g, cols, from, r, blank)
         == LineErased(RowsErased(g, cols, from, r - 1, blank), r, 0, cols - 1, blank)
  {
    if 0 <= r {
      var h := RowsErased(g, cols, from, r - 1, blank);
      assert ErasedIn(h[r], 0, cols - 1, blank) == Repeated(cols, blank);
    }
  }

  lemma RowsErasedEnd(g: seq<Row>, cols: nat, from: int, r: int, to: int, blank: Cell)
    requires from <= r && (r == from || r <= to + 1) && (r > to || r >= |g|)
    ensures RowsErased(g, cols, from, r - 1, blank) == RowsErased(g, cols, from, to, blank)
  {}

  lemma RowSpan(r: nat, n: nat, rows: nat, cols: nat)
    requires r + n <= rows
    ensures r * cols + n * cols <= rows * cols
  {
    var d := rows - r - n;
    assert d * cols >= 0;
    assert rows * cols == r * cols + n * cols + d * cols;
  }

  /** An array of blanks stores a grid of blank rows. */
  lemma BlankStored(a: seq<Cell>, cols: nat, rows: nat)
    requires |a| == rows * cols && forall i :: 0 <= i < |a| ==> a[i] == Erased(PLAIN)
    ensures Stored(a, Repeated(rows, Repeated(cols, Erased(PLAIN))), cols)
  {}

  /** A new grid into which rows before `r`, and row `r` up to column `c`, have been copied. */
  function Patched(g: seq<Row>, w: nat, h: nat, r: nat, c: nat): (p: seq<Row>)
    ensures GridOk(p, w, h)
    ensures forall i, j {:trigger p[i][j]} :: 0 <= i < h && 0 <= j < w ==>
      p[i][j] == if i < r || (i == r && j < c) then CellOr(g, i, j) else Erased(PLAIN)
  {
    seq(h, i requires 0 <= i < h =>
      seq(w, j requires 0 <= j < w =>
        if i < r || (i == r && j < c) then CellOr(g, i, j) else Erased(PLAIN)))
  }

  lemma SameGrid(a: seq<Row>, b: seq<Row>, w: nat, h: nat)
    requires GridOk(a, w, h) && GridOk(b, w, h)
    requires forall i, j {:trigger a[i][j]} :: 0 <= i < h && 0 <= j < w ==> a[i][j] == b[i][j]
    ensures a == b
  {
    forall i | 0 <= i < h
      ensures a[i] == b[i]
    {
      assert forall j :: 0 <= j < w ==> a[i][j] == b[i][j];
    }
  }

  lemma PatchedNone(g: seq<Row>, w: nat, h: nat)
    ensures Patched(g, w, h, 0, 0) == Repeated(h, Repeated(w, Erased(PLAIN)))
  {
    SameGrid(Patched(g, w, h, 0, 0), Repeated(h, Repeated(w, Erased(PLAIN))), w, h);
  }

  lemma PatchedCell(g: seq<Row>, w: nat, h: nat, r: nat, c: nat)
    requires r < h && c < w && r < |g| && c < |g[r]|
    ensures var p := Patched(g, w, h, r, c);
            p[r := p[r][c := g[r][c]]] == Patched(g, w, h, r, c + 1)
  {
    var p := Patched(g, w, h, r, c);
    SameGrid(p[r := p[r][c := g[r][c]]], Patched(g, w, h, r, c + 1), w, h);
  }

  /** A row copied up to the narrower width is a whole row: the rest of it is blank anyway. */
  lemma PatchedRow(g: seq<Row>, w: nat, h: nat, r: nat, n: nat, cols: nat)
    requires r < |g| && |g[r]| == cols && n == if w < cols then w else cols
    ensures Patched(g, w, h, r, n) == Patched(g, w, h, r + 1, 0)
  {
    SameGrid(Patched(g, w, h, r, n), Patched(g, w, h, r + 1, 0), w, h);
  }

  lemma PatchedAll(g: seq<Row>, w: nat, h: nat, n: nat, cols: nat)
    requires GridOk(g, cols, |g|) && n == if h < |g| then h else |g|
    ensures Patched(g, w, h, n, 0) == ResizedGrid(g, w, h)
  {
    SameGrid(Patched(g, w, h, n, 0), ResizedGrid(g, w, h), w, h);
  }
}
