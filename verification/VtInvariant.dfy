/** What every byte stream, interleaved with any resizes, keeps true of the terminal. */
module VtInvariant {
  import opened Bytes
  import opened VtModel

  lemma ClearLineOk(v: Vt, r: int, from: int, to: int)
    requires Ok(v)
    ensures Ok(ClearLine(v, r, from, to))
  {}

  lemma ClearRowsOk(v: Vt, from: int, to: int)
    requires Ok(v)
    ensures Ok(ClearRows(v, from, to))
  {}

  lemma ScrolledOk(g: seq<Row>, cols: nat, rows: nat, top: nat, bot: nat, n: nat, blank: Cell)
    requires GridOk(g, cols, rows) && top < rows && bot < rows && n >= 1
    ensures GridOk(ScrolledUp(g, cols, top, bot, n, blank), cols, rows)
    ensures GridOk(ScrolledDown(g, cols, top, bot, n, blank), cols, rows)
  {}

  lemma ScrollUpOk(v: Vt, top: int, bot: int, n: int)
    requires Ok(v) && 0 <= top < v.rows && 0 <= bot < v.rows && n >= 1
    ensures Ok(ScrollUp(v, top, bot, n))
  {
    assert |PushedTimes(v.sb, v.sbCap, v.grid[top], n)| <= v.sbCap;
    ScrolledOk(v.grid, v.cols, v.rows, top, bot, n, Erased(v.pen));
  }

  lemma ScrollDownOk(v: Vt, top: int, bot: int, n: int)
    requires Ok(v) && 0 <= top < v.rows && 0 <= bot < v.rows && n >= 1
    ensures Ok(ScrollDown(v, top, bot, n))
  {
    ScrolledOk(v.grid, v.cols, v.rows, top, bot, n, Erased(v.pen));
  }

  lemma NextLineOk(v: Vt)
    requires Ok(v)
    ensures Ok(NextLine(v))
  {
    if v.row == v.bot {
      ScrollUpOk(v, v.top, v.bot, 1);
    }
  }

  lemma PutCharOk(v: Vt, codepoint: int)
    requires Ok(v)
    ensures Ok(PutChar(v, codepoint))
  {
    if v.pending {
      NextLineOk(v.(col := 0, pending := false));
    }
  }

  lemma CursorMoveOk(v: Vt, col: int, row: int)
    requires Ok(v)
    ensures Ok(CursorMove(v, col, row))
  {}

  lemma SetRegionOk(v: Vt)
    requires Ok(v)
    ensures Ok(SetRegion(v))
  {
    assert Param(v, 0, 1) >= 1 && Param(v, 1, v.rows) >= 1;
  }

  lemma EraseDisplayOk(v: Vt, p: int)
    requires Ok(v)
    ensures Ok(EraseDisplay(v, p))
  {}

  lemma EraseLineOk(v: Vt, p: int)
    requires Ok(v)
    ensures Ok(EraseLine(v, p))
  {
    ClearLineOk(v, v.row, if p == 0 then v.col else 0, if p == 1 then v.col else v.cols - 1);
  }

  lemma CsiCursorOk(v: Vt, f: char)
    requires Ok(v)
    ensures Ok(CsiCursor(v, f))
  {
    CursorMoveOk(v, MoveTarget(v, f).0, MoveTarget(v, f).1);
    SetRegionOk(v);
  }

  lemma CsiEraseOk(v: Vt, f: char)
    requires Ok(v)
    ensures Ok(CsiErase(v, f))
  {
    EraseDisplayOk(v, Param(v, 0, 0));
    EraseLineOk(v, Param(v, 0, 0));
    ClearLineOk(v, v.row, v.col, v.col + Param(v, 0, 1) - 1);
  }

  lemma DeleteCharsOk(v: Vt, p: int)
    requires Ok(v) && p >= 1
    ensures Ok(DeleteChars(v, p))
  {
    var n := if p > v.cols - v.col then v.cols - v.col else p;
    var w := v.(grid := v.grid[v.row := CellsMoved(v.grid[v.row], v.col, v.col + n, v.cols - v.col - n)]);
    ClearLineOk(w, w.row, w.cols - n, w.cols - 1);
  }

  lemma InsertCharsOk(v: Vt, p: int)
    requires Ok(v) && p >= 1
    ensures Ok(InsertChars(v, p))
  {
    var n := if p > v.cols - v.col then v.cols - v.col else p;
    var w := v.(grid := v.grid[v.row := CellsMoved(v.grid[v.row], v.col + n, v.col, v.cols - v.col - n)]);
    ClearLineOk(w, w.row, w.col, w.col + n - 1);
  }

  lemma CsiScrollOk(v: Vt, f: char, n: int)
    requires Ok(v) && n >= 1
    ensures Ok(CsiScroll(v, f, n))
  {
    match f
    case 'L' => ScrollDownOk(v, v.row, v.bot, n);
    case 'M' => ScrollUpOk(v, v.row, v.bot, n);
    case 'S' => ScrollUpOk(v, v.top, v.bot, n);
    case 'T' => ScrollDownOk(v, v.top, v.bot, n);
    case _ =>
  }

  lemma CsiShiftOk(v: Vt, f: char)
    requires Ok(v)
    ensures Ok(CsiShift(v, f))
  {
    var p1 := Param(v, 0, 1);
    if f == 'P' {
      DeleteCharsOk(v, p1);
    } else if f == '@' {
      InsertCharsOk(v, p1);
    } else {
      CsiScrollOk(v, f, p1);
    }
  }

  lemma DispatchCsiOk(v: Vt, f: char)
    requires Ok(v)
    ensures Ok(DispatchCsi(v, f))
  {
    if CursorFinal(f) {
      CsiCursorOk(v, f);
    } else if EraseFinal(f) {
      CsiEraseOk(v, f);
    } else if ShiftFinal(f) {
      CsiShiftOk(v, f);
    }
  }

  lemma ReverseIndexOk(v: Vt)
    requires Ok(v)
    ensures Ok(ReverseIndex(v))
  {
    if v.row == v.top {
      ScrollDownOk(v, v.top, v.bot, 1);
    }
  }

  lemma FullResetOk(v: Vt)
    requires Ok(v)
    ensures Ok(FullReset(v))
  {
    ClearRowsOk(v, 0, v.rows - 1);
  }

  lemma DispatchEscOk(v: Vt, f: char)
    requires Ok(v)
    ensures Ok(DispatchEsc(v, f))
  {
    match f
    case 'D' => NextLineOk(v);
    case 'E' => NextLineOk(v.(col := 0));
    case 'M' => ReverseIndexOk(v);
    case '8' => CursorMoveOk(v, v.savedCol, v.savedRow);
    case 'c' => FullResetOk(v);
    case _ =>
  }

  lemma ControlStepOk(v: Vt, c: byte)
    requires Ok(v)
    ensures Ok(ControlStep(v, c))
  {
    if c == 0x0A || c == 0x0B || c == 0x0C {
      NextLineOk(v);
    }
  }

  lemma EscapeStepOk(v: Vt, c: byte)
    requires Ok(v)
    ensures Ok(EscapeStep(v, c))
  {
    if 0x20 <= c <= 0x2F {
      CollectOk(v, c);
    } else if 0x30 <= c <= 0x7E {
      DispatchEscOk(v, c as char);
    }
    ResetOk(v);
  }

  lemma ResetOk(v: Vt)
    requires Ok(v)
    ensures Ok(Reset(v))
  {}

  lemma CollectOk(v: Vt, c: byte)
    requires Ok(v) && 0x20 <= c <= 0x2F
    ensures Ok(Collect(v, c))
  {}

  lemma PushDigitOk(v: Vt, c: byte)
    requires Ok(v) && 0x30 <= c <= 0x39
    ensures Ok(PushDigit(v, c))
  {}

  lemma CsiStepOk(v: Vt, c: byte)
    requires Ok(v)
    ensures Ok(CsiStep(v, c))
  {
    if 0x30 <= c <= 0x39 {
      PushDigitOk(v, c);
    } else if 0x20 <= c <= 0x2F {
      CollectOk(v, c);
    } else if 0x40 <= c <= 0x7E {
      DispatchCsiOk(v, c as char);
    }
    ResetOk(v);
  }

  /** Every byte keeps the terminal well formed, whatever the parser is in the middle of. */
  lemma StepOk(v: Vt, c: byte)
    requires Ok(v)
    ensures Ok(Step(v, c))
  {
    match v.parse
    case Osc =>
    case Ground =>
      if c < 0x20 {
        ControlStepOk(v, c);
      } else {
        PutCharOk(v, c);
      }
    case Escape => EscapeStepOk(v, c);
    case Csi => CsiStepOk(v, c);
  }

  lemma ResizeOk(v: Vt, cols: int, rows: int)
    requires Ok(v)
    ensures Ok(Resize(v, cols, rows))
  {}

  lemma NewOk(cols: int, rows: int, scrollback: int)
    requires cols > 0 && rows > 0
    ensures Ok(New(cols, rows, scrollback))
  {}

  // ---------------------------------------------------------------- whole runs

  datatype Event = Input(byte: byte) | Resized(cols: int, rows: int)

  function React(v: Vt, e: Event): (w: Vt)
    requires Ok(v)
    ensures Ok(w)
  {
    match e
    case Input(b) => StepOk(v, b); Step(v, b)
    case Resized(cols, rows) => ResizeOk(v, cols, rows); Resize(v, cols, rows)
  }

  function Run(v: Vt, es: seq<Event>): (w: Vt)
    requires Ok(v)
    ensures Ok(w)
    decreases |es|
  {
    if es == [] then v else Run(React(v, es[0]), es[1..])
  }

  /** The terminal after a stream of bytes. In three steps, so that a proof about a stream takes
      its first byte only where it says so. */
  function Feed(v: Vt, bytes: seq<byte>): (w: Vt)
    requires Ok(v)
    ensures Ok(w)
    decreases |bytes|, 2
  {
    if bytes == [] then v else FeedSome(v, bytes)
  }

  function FeedSome(v: Vt, bytes: seq<byte>): (w: Vt)
    requires Ok(v) && bytes != []
    ensures Ok(w)
    decreases |bytes|, 1
  {
    FeedFirst(v, bytes[0], bytes[1..])
  }

  function FeedFirst(v: Vt, b: byte, rest: seq<byte>): (w: Vt)
    requires Ok(v)
    ensures Ok(w)
    decreases |rest| + 1, 0
  {
    StepOk(v, b);
    Feed(Step(v, b), rest)
  }

  lemma FeedNext(v: Vt, bytes: seq<byte>)
    requires Ok(v) && bytes != []
    ensures Ok(Step(v, bytes[0])) && Feed(v, bytes) == Feed(Step(v, bytes[0]), bytes[1..])
  {
    StepOk(v, bytes[0]);
    assert FeedSome(v, bytes) == FeedFirst(v, bytes[0], bytes[1..]);
  }

  lemma FeedByte(v: Vt, b: byte)
    requires Ok(v)
    ensures Ok(Step(v, b)) && Feed(v, [b]) == Step(v, b)
  {
    FeedNext(v, [b]);
  }

  /** From a new terminal, no stream and no resizing puts the cursor outside the grid, the region
      outside the rows, a counter outside its array, or more rows in the scrollback than it holds. */
  lemma StreamKeepsBounds(cols: int, rows: int, scrollback: int, es: seq<Event>)
    requires cols > 0 && rows > 0
    ensures Ok(New(cols, rows, scrollback))
    ensures var v := Run(New(cols, rows, scrollback), es);
            && 0 <= v.col < v.cols && 0 <= v.row < v.rows && 0 <= v.top <= v.bot < v.rows
            && GridOk(v.grid, v.cols, v.rows) && |v.sb| <= v.sbCap
            && v.paramCount <= MAX_PARAMS && |v.interm| <= MAX_INTERM && |v.osc| < MAX_OSC_LEN
  {}

  lemma {:induction false} FeedAppend(v: Vt, a: seq<byte>, b: seq<byte>)
    requires Ok(v)
    ensures Feed(v, a + b) == Feed(Feed(v, a), b)
    decreases |a|
  {
    if a == [] {
      assert a + b == b;
    } else {
      assert (a + b)[1..] == a[1..] + b;
      FeedNext(v, a);
      FeedNext(v, a + b);
      FeedAppend(Step(v, a[0]), a[1..], b);
    }
  }
}
