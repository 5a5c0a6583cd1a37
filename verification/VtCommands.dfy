/** Control sequences as bytes: what a program writes to the terminal of apps/terminal/vt100.c is
    read with the parameters it was written with, and does what it is for. */
module VtCommands {
  import opened Bytes
  import opened Numerals
  import opened VtModel
  import opened VtInvariant

  const ESC: byte := 0x1B
  const BRACKET: byte := 0x5B
  const SEMICOLON: byte := 0x3B

  /** Parameters in decimal, with semicolons between them. */
  function Written(ps: seq<nat>): seq<byte> {
    if ps == [] then []
    else if |ps| == 1 then Numeral(ps[0], 10)
    else Written(ps[..|ps| - 1]) + [SEMICOLON] + Numeral(ps[|ps| - 1], 10)
  }

  type final = f: byte | 0x40 <= f <= 0x7E witness 0x40

  /** A control sequence. */
  function Command(ps: seq<nat>, f: final): seq<byte> {
    [ESC, BRACKET] + Written(ps) + [f]
  }

  // ---------------------------------------------------------------- reading parameters

  /** The terminal in the middle of a control sequence, with these parameters read. */
  function Reading(v: Vt, ps: seq<nat>): (w: Vt)
    requires Ok(v) && |ps| <= MAX_PARAMS
    ensures Ok(w)
  {
    v.(parse := Csi, interm := [], paramCount := |ps|, params := Padded(ps))
  }

  function Padded(ps: seq<nat>): (r: seq<int>)
    requires |ps| <= MAX_PARAMS
    ensures |r| == MAX_PARAMS
    ensures forall i :: 0 <= i < MAX_PARAMS ==> r[i] == if i < |ps| then ps[i] else 0
  {
    seq(MAX_PARAMS, i requires 0 <= i < MAX_PARAMS => if i < |ps| then ps[i] else 0)
  }

  lemma Starts(v: Vt)
    requires Ok(v) && v.parse == Ground
    ensures Feed(v, [ESC, BRACKET]) == Reading(v, [])
  {
    assert [ESC] + [BRACKET] == [ESC, BRACKET];
    FeedAppend(v, [ESC], [BRACKET]);
    FeedByte(v, ESC);
    FeedByte(Step(v, ESC), BRACKET);
    assert Padded([]) == Repeated(MAX_PARAMS, 0);
  }

  /** The slot digits go to. */
  function Slot(v: Vt): int {
    if v.paramCount == 0 then 0 else v.paramCount - 1
  }

  /** Digits are read into one parameter. */
  lemma {:induction false} ReadDigits(v: Vt, s: seq<byte>, i: nat)
    requires Ok(v) && v.parse == Csi && i <= |s| && forall j :: 0 <= j < |s| ==> IsDigit(s[j], 10)
    requires i < |s| || v.paramCount > 0
    ensures Feed(v, s[i..]) ==
            v.(paramCount := Slot(v) + 1, params := v.params[Slot(v) := NumberFrom(v.params[Slot(v)], s, i, 10)])
    decreases |s| - i
  {
    if i == |s| {
      assert s[i..] == [] && v.params[Slot(v) := v.params[Slot(v)]] == v.params;
    } else {
      var w := PushDigit(v, s[i]);
      FeedNext(v, s[i..]);
      assert Step(v, s[i]) == w && s[i..][1..] == s[i + 1..];
      ReadDigits(w, s, i + 1);
    }
  }

  lemma ReadNumeral(v: Vt, ps: seq<nat>, p: nat)
    requires Ok(v) && |ps| < MAX_PARAMS
    ensures Ok(NextParam(Reading(v, ps))) && Feed(NextParam(Reading(v, ps)), Numeral(p, 10)) == Reading(v, ps + [p])
    ensures ps == [] ==> Feed(Reading(v, ps), Numeral(p, 10)) == Reading(v, [p])
  {
    var s, w := Numeral(p, 10), NextParam(Reading(v, ps));
    assert s[0..] == s;
    NumeralRead(p, 10);
    ReadDigits(w, s, 0);
    assert Padded(ps)[|ps| := p] == Padded(ps + [p]);
    if ps == [] {
      ReadDigits(Reading(v, ps), s, 0);
      assert ps + [p] == [p];
    }
  }

  /** Parameters are read as they were written. */
  lemma {:induction false} ReadParams(v: Vt, ps: seq<nat>)
    requires Ok(v) && |ps| <= MAX_PARAMS
    ensures Feed(Reading(v, []), Written(ps)) == Reading(v, ps)
    decreases |ps|
  {
    if |ps| == 1 {
      ReadNumeral(v, [], ps[0]);
      assert ps == [ps[0]];
    } else if |ps| > 1 {
      var init, p := ps[..|ps| - 1], ps[|ps| - 1];
      ReadParams(v, init);
      FeedAppend(Reading(v, []), Written(init) + [SEMICOLON], Numeral(p, 10));
      FeedAppend(Reading(v, []), Written(init), [SEMICOLON]);
      FeedByte(Reading(v, init), SEMICOLON);
      ReadNumeral(v, init, p);
      assert init + [p] == ps;
    }
  }

  /** A control sequence is carried out with exactly the parameters it was written with. */
  lemma CommandRead(v: Vt, ps: seq<nat>, f: final)
    requires Ok(v) && v.parse == Ground && |ps| <= MAX_PARAMS
    ensures Feed(v, Command(ps, f)) == DispatchCsi(Reading(v, ps), f as char).(parse := Ground)
  {
    FeedAppend(v, [ESC, BRACKET] + Written(ps), [f]);
    FeedAppend(v, [ESC, BRACKET], Written(ps));
    Starts(v);
    ReadParams(v, ps);
    FeedByte(Reading(v, ps), f);
  }

  // ---------------------------------------------------------------- what commands do

  const CUP: final := 0x48
  const CUU: final := 0x41
  const CUD: final := 0x42
  const ED: final := 0x4A
  const SGR: final := 0x6D
  const SCP: final := 0x73
  const RCP: final := 0x75

  /** The same but for cursor, pen and parser registers. */
  predicate SameScreen(v: Vt, w: Vt) {
    && w.grid == v.grid && w.sb == v.sb && w.cols == v.cols && w.rows == v.rows
    && w.top == v.top && w.bot == v.bot && w.insert == v.insert && w.parse == v.parse
  }

  lemma DispatchMove(w: Vt, f: char, col: int, row: int)
    requires Ok(w) && MoveFinal(f) && MoveTarget(w, f) == (col, row)
    ensures DispatchCsi(w, f) == CursorMove(w, col, row)
  {}

  /** A command that moves the cursor does nothing else. */
  lemma CommandMoves(v: Vt, ps: seq<nat>, f: final, col: int, row: int)
    requires Ok(v) && v.parse == Ground && |ps| <= MAX_PARAMS && MoveFinal(f as char)
    requires MoveTarget(Reading(v, ps), f as char) == (col, row)
    ensures var w := Feed(v, Command(ps, f));
            && SameScreen(v, w) && w.pen == v.pen && !w.pending && w.savedCol == v.savedCol && w.savedRow == v.savedRow
            && w.row == Clamp(row, v.rows) && w.col == Clamp(col, v.cols)
  {
    CommandRead(v, ps, f);
    DispatchMove(Reading(v, ps), f as char, col, row);
  }

  lemma Targets(v: Vt, r: nat, c: nat)
    requires Ok(v) && r > 0 && c > 0
    ensures MoveTarget(Reading(v, [r, c]), 'H') == (c - 1, r - 1)
    ensures MoveTarget(Reading(v, [r]), 'A') == (v.col, v.row - r)
    ensures MoveTarget(Reading(v, [r]), 'B') == (v.col, v.row + r)
    ensures MoveTarget(Reading(v, [r]), 'C') == (v.col + r, v.row)
    ensures MoveTarget(Reading(v, [r]), 'D') == (v.col - r, v.row)
    ensures MoveTarget(Reading(v, [r]), 'E') == (0, v.row + r)
    ensures MoveTarget(Reading(v, [r]), 'F') == (0, v.row - r)
    ensures MoveTarget(Reading(v, [r]), 'G') == (r - 1, v.row)
    ensures MoveTarget(Reading(v, [r]), 'd') == (v.col, r - 1)
    ensures MoveTarget(Reading(v, []), 'u') == (v.savedCol, v.savedRow)
  {
    assert Padded([r, c])[0] == r && Padded([r, c])[1] == c && Padded([r])[0] == r;
  }

  /** Cursor addressing goes where it says, counting from one, or to the nearest place on the screen. */
  lemma MovesTo(v: Vt, r: nat, c: nat)
    requires Ok(v) && v.parse == Ground && r > 0 && c > 0
    ensures var w := Feed(v, Command([r, c], CUP));
            && SameScreen(v, w) && w.pen == v.pen && !w.pending && w.savedCol == v.savedCol && w.savedRow == v.savedRow
            && w.row == Clamp(r - 1, v.rows) && w.col == Clamp(c - 1, v.cols)
  {
    Targets(v, r, c);
    CommandMoves(v, [r, c], CUP, c - 1, r - 1);
  }

  /** Relative moves and moves within a row or column go where they say, or to the nearest place. */
  lemma Moves(v: Vt, n: nat, f: final)
    requires Ok(v) && v.parse == Ground && n > 0 && ('A' <= f as char <= 'G' || f as char == 'd')
    ensures var w := Feed(v, Command([n], f));
            && SameScreen(v, w) && w.pen == v.pen && !w.pending
            && w.row == Clamp(if f as char == 'A' || f as char == 'F' then v.row - n
                              else if f as char == 'B' || f as char == 'E' then v.row + n
                              else if f as char == 'd' then n - 1 else v.row, v.rows)
            && w.col == Clamp(if f as char == 'E' || f as char == 'F' then 0 else if f as char == 'C' then v.col + n
                              else if f as char == 'D' then v.col - n else if f as char == 'G' then n - 1 else v.col, v.cols)
  {
    Targets(v, n, 1);
    var (col, row) := MoveTarget(Reading(v, [n]), f as char);
    CommandMoves(v, [n], f, col, row);
  }

  lemma Saves(v: Vt)
    requires Ok(v) && v.parse == Ground
    ensures var w := Feed(v, Command([], SCP));
            SameScreen(v, w) && w.savedCol == w.col == v.col && w.savedRow == w.row == v.row
  {
    CommandRead(v, [], SCP);
  }

  lemma Restores(v: Vt)
    requires Ok(v) && v.parse == Ground
    ensures var w := Feed(v, Command([], RCP));
            SameScreen(v, w) && w.col == Clamp(v.savedCol, v.cols) && w.row == Clamp(v.savedRow, v.rows)
  {
    Targets(v, 1, 1);
    CommandMoves(v, [], RCP, v.savedCol, v.savedRow);
  }

  /** Saving the cursor, moving it anywhere and restoring it brings it back. */
  lemma SaveMoveRestore(v: Vt, r: nat, c: nat)
    requires Ok(v) && v.parse == Ground && r > 0 && c > 0
    ensures var w := Feed(v, Command([], SCP) + Command([r, c], CUP) + Command([], RCP));
            SameScreen(v, w) && w.col == v.col && w.row == v.row
  {
    var a := Feed(v, Command([], SCP));
    var b := Feed(a, Command([r, c], CUP));
    FeedAppend(v, Command([], SCP) + Command([r, c], CUP), Command([], RCP));
    FeedAppend(v, Command([], SCP), Command([r, c], CUP));
    Saves(v);
    MovesTo(a, r, c);
    Restores(b);
  }

  lemma MovesUp(v: Vt, n: nat)
    requires Ok(v) && v.parse == Ground && n > 0
    ensures var w := Feed(v, Command([n], CUU)); SameScreen(v, w) && w.col == v.col && w.row == Clamp(v.row - n, v.rows)
  {
    Targets(v, n, 1);
    CommandMoves(v, [n], CUU, v.col, v.row - n);
  }

  lemma MovesDown(v: Vt, n: nat)
    requires Ok(v) && v.parse == Ground && n > 0
    ensures var w := Feed(v, Command([n], CUD)); SameScreen(v, w) && w.col == v.col && w.row == Clamp(v.row + n, v.rows)
  {
    Targets(v, n, 1);
    CommandMoves(v, [n], CUD, v.col, v.row + n);
  }

  /** Up and down again comes back exactly when the top was not hit, or the start was the last row. */
  lemma UpThenDown(v: Vt, n: nat)
    requires Ok(v) && v.parse == Ground && n > 0
    ensures var w := Feed(v, Command([n], CUU) + Command([n], CUD));
            SameScreen(v, w) && w.col == v.col && (w.row == v.row <==> n <= v.row || v.row == v.rows - 1)
  {
    FeedAppend(v, Command([n], CUU), Command([n], CUD));
    MovesUp(v, n);
    MovesDown(Feed(v, Command([n], CUU)), n);
  }

  /** Erasing the display blanks every cell in the current colours and leaves the cursor. */
  lemma ErasesAll(v: Vt, p: nat)
    requires Ok(v) && v.parse == Ground && (p == 2 || p == 3)
    ensures var w := Feed(v, Command([p], ED));
            && w.cols == v.cols && w.rows == v.rows && w.col == v.col && w.row == v.row
            && w.sb == (if p == 3 then [] else v.sb)
            && forall r, c {:trigger w.grid[r][c]} ::
                 0 <= r < v.rows && 0 <= c < v.cols ==> w.grid[r][c] == Erased(v.pen)
  {
    CommandRead(v, [p], ED);
    assert Padded([p])[0] == p;
  }

  // ---------------------------------------------------------------- pens

  function Code(attrs: bv8, bit: bv8, p: nat): seq<nat> {
    if attrs & bit != 0 then [p] else []
  }

  function ColourCodes(p: nat, colour: int): seq<nat>
    requires colour >= -1
  {
    if colour < 0 then [] else [p, 5, colour]
  }

  function LowCodes(attrs: bv8, tail: seq<nat>): (r: seq<nat>)
    ensures |r| <= 4 + |tail|
  {
    Code(attrs, BOLD, 1) + (Code(attrs, DIM, 2) + (Code(attrs, ITALIC, 3) + (Code(attrs, UNDERLINE, 4) + tail)))
  }

  function HighCodes(attrs: bv8, tail: seq<nat>): (r: seq<nat>)
    ensures |r| <= 4 + |tail|
  {
    Code(attrs, BLINK, 5) + (Code(attrs, REVERSE, 7) + (Code(attrs, HIDDEN, 8) + (Code(attrs, STRIKE, 9) + tail)))
  }

  predicate PenOk(pen: Pen) {
    pen.fg >= -1 && pen.bg >= -1
  }

  /** The rendition parameters that select a pen, whatever pen was in use. */
  function PenCodes(pen: Pen): (r: seq<nat>)
    requires PenOk(pen)
    ensures 0 < |r| <= MAX_PARAMS
  {
    [0] + LowCodes(pen.attrs, HighCodes(pen.attrs, ColourCodes(38, pen.fg) + ColourCodes(48, pen.bg)))
  }

  /** Renditions look at nothing before the place they have reached. */
  lemma {:induction false} RenditionsShift(pen: Pen, a: seq<int>, b: seq<int>, i: nat)
    requires i <= |b|
    ensures Renditions(pen, a + b, |a| + i) == Renditions(pen, b, i)
    decreases |b| - i
  {
    if i < |b| {
      RenditionShift(pen, a, b, i);
      var (next, n) := Rendition(pen, b, i);
      RenditionsShift(next, a, b, i + n);
    }
  }

  lemma RenditionShift(pen: Pen, a: seq<int>, b: seq<int>, i: nat)
    requires i < |b|
    ensures Rendition(pen, a + b, |a| + i) == Rendition(pen, b, i)
  {
    var t := a + b;
    assert forall j :: 0 <= j < |b| ==> t[|a| + j] == b[j];
    assert t[|a| + i] == b[i];
    assert i + 2 < |b| ==> t[|a| + i + 1] == b[i + 1] && t[|a| + i + 2] == b[i + 2];
    assert i + 4 < |b| ==> t[|a| + i + 3] == b[i + 3] && t[|a| + i + 4] == b[i + 4];
  }

  lemma OneRendition(pen: Pen, p: int, rest: seq<int>)
    requires p != 38 && p != 48
    ensures Renditions(pen, [p] + rest, 0) == Renditions(SimpleRendition(pen, p), rest, 0)
  {
    RenditionsShift(SimpleRendition(pen, p), [p], rest, 0);
  }

  lemma ColourRendition(pen: Pen, p: nat, colour: int, rest: seq<int>)
    requires (p == 38 || p == 48) && colour >= -1
    ensures Renditions(pen, ColourCodes(p, colour) + rest, 0) ==
            Renditions(if colour < 0 then pen else Coloured(pen, p, colour), rest, 0)
  {
    if colour < 0 {
      assert ColourCodes(p, colour) + rest == rest;
    } else {
      var codes: seq<int> := [p, 5, colour];
      var t := codes + rest;
      assert t[0] == p && t[1] == 5 && t[2] == colour;
      RenditionsShift(Coloured(pen, p, colour), codes, rest, 0);
    }
  }

  function WithBit(pen: Pen, attrs: bv8, bit: bv8): Pen {
    if attrs & bit != 0 then SetBits(pen, bit) else pen
  }

  lemma CodeRendition(pen: Pen, attrs: bv8, bit: bv8, p: nat, rest: seq<int>)
    requires p < 38 && SimpleRendition(pen, p) == SetBits(pen, bit)
    ensures Renditions(pen, Code(attrs, bit, p) + rest, 0) == Renditions(WithBit(pen, attrs, bit), rest, 0)
  {
    if attrs & bit != 0 {
      OneRendition(pen, p, rest);
    } else {
      assert Code(attrs, bit, p) + rest == rest;
    }
  }

  lemma TwoAttrs(pen: Pen, attrs: bv8, bit: bv8, p: nat, bit': bv8, p': nat, tail: seq<int>)
    requires p < 38 && p' < 38 && SimpleRendition(pen, p) == SetBits(pen, bit)
    requires var q := WithBit(pen, attrs, bit); SimpleRendition(q, p') == SetBits(q, bit')
    ensures Renditions(pen, Code(attrs, bit, p) + (Code(attrs, bit', p') + tail), 0)
         == Renditions(WithBit(WithBit(pen, attrs, bit), attrs, bit'), tail, 0)
  {
    CodeRendition(pen, attrs, bit, p, Code(attrs, bit', p') + tail);
    CodeRendition(WithBit(pen, attrs, bit), attrs, bit', p', tail);
  }

  function WithLowBits(pen: Pen, attrs: bv8): Pen {
    WithBit(WithBit(WithBit(WithBit(pen, attrs, BOLD), attrs, DIM), attrs, ITALIC), attrs, UNDERLINE)
  }

  function WithHighBits(pen: Pen, attrs: bv8): Pen {
    WithBit(WithBit(WithBit(WithBit(pen, attrs, BLINK), attrs, REVERSE), attrs, HIDDEN), attrs, STRIKE)
  }

  lemma LowAttrs(pen: Pen, attrs: bv8, tail: seq<nat>)
    ensures Renditions(pen, LowCodes(attrs, tail), 0) == Renditions(WithLowBits(pen, attrs), tail, 0)
  {
    TwoAttrs(pen, attrs, BOLD, 1, DIM, 2, Code(attrs, ITALIC, 3) + (Code(attrs, UNDERLINE, 4) + tail));
    TwoAttrs(WithBit(WithBit(pen, attrs, BOLD), attrs, DIM), attrs, ITALIC, 3, UNDERLINE, 4, tail);
  }

  lemma HighAttrs(pen: Pen, attrs: bv8, tail: seq<nat>)
    ensures Renditions(pen, HighCodes(attrs, tail), 0) == Renditions(WithHighBits(pen, attrs), tail, 0)
  {
    TwoAttrs(pen, attrs, BLINK, 5, REVERSE, 7, Code(attrs, HIDDEN, 8) + (Code(attrs, STRIKE, 9) + tail));
    TwoAttrs(WithBit(WithBit(pen, attrs, BLINK), attrs, REVERSE), attrs, HIDDEN, 8, STRIKE, 9, tail);
  }

  /** The attribute bits make up the attributes. */
  lemma AllBits(attrs: bv8)
    ensures WithHighBits(WithLowBits(PLAIN, attrs), attrs) == PLAIN.(attrs := attrs)
  {}

  lemma AttrsSelected(attrs: bv8, tail: seq<nat>)
    ensures Renditions(PLAIN, LowCodes(attrs, HighCodes(attrs, tail)), 0) == Renditions(PLAIN.(attrs := attrs), tail, 0)
  {
    LowAttrs(PLAIN, attrs, HighCodes(attrs, tail));
    HighAttrs(WithLowBits(PLAIN, attrs), attrs, tail);
    AllBits(attrs);
  }

  lemma ColoursSelected(attrs: bv8, fg: int, bg: int)
    requires fg >= -1 && bg >= -1
    ensures Renditions(PLAIN.(attrs := attrs), ColourCodes(38, fg) + ColourCodes(48, bg), 0) == Pen(fg, bg, attrs)
  {
    var p := PLAIN.(attrs := attrs);
    var q := if fg < 0 then p else Coloured(p, 38, fg);
    ColourRendition(p, 38, fg, ColourCodes(48, bg));
    assert ColourCodes(48, bg) == ColourCodes(48, bg) + [];
    ColourRendition(q, 48, bg, []);
  }

  /** Every pen, any colours and attributes, is selected by its codes. */
  lemma PenSelected(before: Pen, pen: Pen)
    requires PenOk(pen)
    ensures Renditions(before, PenCodes(pen), 0) == pen
  {
    var tail := ColourCodes(38, pen.fg) + ColourCodes(48, pen.bg);
    OneRendition(before, 0, LowCodes(pen.attrs, HighCodes(pen.attrs, tail)));
    AttrsSelected(pen.attrs, tail);
    ColoursSelected(pen.attrs, pen.fg, pen.bg);
  }

  /** The command for a pen selects it and does nothing else. */
  lemma SelectsPen(v: Vt, pen: Pen)
    requires Ok(v) && v.parse == Ground && PenOk(pen)
    ensures var w := Feed(v, Command(PenCodes(pen), SGR));
            SameScreen(v, w) && w.pen == pen && w.col == v.col && w.row == v.row && w.pending == v.pending
  {
    var ps := PenCodes(pen);
    PenSelected(v.pen, pen);
    CommandRead(v, ps, SGR);
    DispatchPen(v, ps, pen);
  }

  lemma DispatchPen(v: Vt, ps: seq<nat>, pen: Pen)
    requires Ok(v) && 0 < |ps| <= MAX_PARAMS && Renditions(v.pen, ps, 0) == pen
    ensures DispatchCsi(Reading(v, ps), 'm') == Reading(v, ps).(pen := pen)
  {
    assert Reading(v, ps).params[..|ps|] == ps;
    DispatchSgr(Reading(v, ps));
  }

  lemma DispatchSgr(w: Vt)
    requires Ok(w) && w.paramCount > 0
    ensures DispatchCsi(w, 'm') == w.(pen := Renditions(w.pen, w.params[..w.paramCount], 0))
  {}

  // ---------------------------------------------------------------- redrawing a screen

  predicate Ready(v: Vt) {
    Ok(v) && v.parse == Ground && !v.insert
  }

  /** A cell that some byte and pen can write. */
  predicate Drawable(x: Cell) {
    0x20 <= x.codepoint < 256 && PenOk(x.pen)
  }

  predicate DrawableRow(row: Row) {
    forall c :: 0 <= c < |row| ==> Drawable(row[c])
  }

  predicate AllDrawable(g: seq<Row>) {
    forall r :: 0 <= r < |g| ==> DrawableRow(g[r])
  }

  /** Addresses a cell, selects its pen and writes it. */
  function CellBytes(r: nat, c: nat, x: Cell): seq<byte>
    requires Drawable(x)
  {
    Command([r + 1, c + 1], CUP) + Command(PenCodes(x.pen), SGR) + [x.codepoint]
  }

  /** The bytes that draw the first `c` cells of a row, in three steps as `Feed` is. */
  function RowBytes(row: Row, r: nat, c: nat): seq<byte>
    requires c <= |row| && DrawableRow(row)
    decreases c, 2
  {
    if c == 0 then [] else SomeBytes(row, r, c)
  }

  function SomeBytes(row: Row, r: nat, c: nat): seq<byte>
    requires 0 < c <= |row| && DrawableRow(row)
    decreases c, 1
  {
    BytesAndCell(row, r, c - 1, row[c - 1])
  }

  function BytesAndCell(row: Row, r: nat, c: nat, x: Cell): seq<byte>
    requires c < |row| && DrawableRow(row) && Drawable(x)
    decreases c + 1, 0
  {
    RowBytes(row, r, c) + CellBytes(r, c, x)
  }

  lemma RowBytesNext(row: Row, r: nat, c: nat)
    requires 0 < c <= |row| && DrawableRow(row)
    ensures RowBytes(row, r, c) == RowBytes(row, r, c - 1) + CellBytes(r, c - 1, row[c - 1])
  {
    assert SomeBytes(row, r, c) == BytesAndCell(row, r, c - 1, row[c - 1]);
  }

  /** The bytes that draw the first `n` rows of a screen. */
  function ScreenBytes(g: seq<Row>, n: nat): seq<byte>
    requires n <= |g| && AllDrawable(g)
  {
    if n == 0 then [] else ScreenBytes(g, n - 1) + RowBytes(g[n - 1], n - 1, |g[n - 1]|)
  }

  /** Ready as before, with the same size and scrollback. */
  predicate StillReady(v: Vt, w: Vt) {
    Ready(w) && w.cols == v.cols && w.rows == v.rows && w.sb == v.sb
  }

  lemma PutPlain(v: Vt, b: byte)
    requires Ready(v) && !v.pending && b >= 0x20
    ensures var w := Feed(v, [b]);
            StillReady(v, w) && w.grid == v.grid[v.row := v.grid[v.row][v.col := Cell(b, v.pen)]]
  {
    FeedByte(v, b);
  }

  /** Drawing a cell changes that cell and no other. */
  lemma DrawsCell(v: Vt, r: nat, c: nat, x: Cell)
    requires Ready(v) && r < v.rows && c < v.cols && Drawable(x)
    ensures var w := Feed(v, CellBytes(r, c, x));
            StillReady(v, w) && w.grid == v.grid[r := v.grid[r][c := x]]
  {
    var start := Command([r + 1, c + 1], CUP) + Command(PenCodes(x.pen), SGR);
    FeedAppend(v, start, [x.codepoint]);
    Positions(v, r, c, x.pen);
    PutPlain(Feed(v, start), x.codepoint);
  }

  /** Addressing a cell and selecting a pen leave the screen alone. */
  lemma Positions(v: Vt, r: nat, c: nat, pen: Pen)
    requires Ready(v) && r < v.rows && c < v.cols && PenOk(pen)
    ensures var w := Feed(v, Command([r + 1, c + 1], CUP) + Command(PenCodes(pen), SGR));
            StillReady(v, w) && w.grid == v.grid && w.row == r && w.col == c && w.pen == pen && !w.pending
  {
    var move, pick := Command([r + 1, c + 1], CUP), Command(PenCodes(pen), SGR);
    FeedAppend(v, move, pick);
    MovesTo(v, r + 1, c + 1);
    SelectsPen(Feed(v, move), pen);
  }

  lemma {:induction false} DrawsRow(v: Vt, row: Row, r: nat, c: nat)
    requires Ready(v) && r < v.rows && |row| == v.cols && c <= |row| && DrawableRow(row)
    ensures var w := Feed(v, RowBytes(row, r, c));
            StillReady(v, w) && w.grid == v.grid[r := row[..c] + v.grid[r][c..]]
    decreases c
  {
    if c == 0 {
      assert v.grid[r] == row[..0] + v.grid[r][0..];
    } else {
      DrawsRow(v, row, r, c - 1);
      RowBytesNext(row, r, c);
      FeedAppend(v, RowBytes(row, r, c - 1), CellBytes(r, c - 1, row[c - 1]));
      DrawsNextCell(Feed(v, RowBytes(row, r, c - 1)), row, v.grid, r, c);
    }
  }

  lemma DrawsNextCell(v: Vt, row: Row, was: seq<Row>, r: nat, c: nat)
    requires Ready(v) && GridOk(was, v.cols, v.rows) && r < v.rows && DrawableRow(row) && 0 < c <= |row| == v.cols
    requires v.grid == was[r := row[..c - 1] + was[r][c - 1..]]
    ensures var w := Feed(v, CellBytes(r, c - 1, row[c - 1]));
            StillReady(v, w) && w.grid == was[r := row[..c] + was[r][c..]]
  {
    DrawsCell(v, r, c - 1, row[c - 1]);
    OneMoreCell(row, was[r], c);
  }

  lemma OneMoreCell(row: Row, was: Row, c: nat)
    requires 0 < c <= |row| == |was|
    ensures (row[..c - 1] + was[c - 1..])[c - 1 := row[c - 1]] == row[..c] + was[c..]
  {}

  lemma {:induction false} DrawsRows(v: Vt, g: seq<Row>, n: nat) returns (w: Vt)
    requires Ready(v) && GridOk(g, v.cols, v.rows) && AllDrawable(g) && n <= |g|
    ensures w == Feed(v, ScreenBytes(g, n)) && RowsDrawn(v, w, g, n)
    decreases n
  {
    if n == 0 {
      w := v;
      assert v.grid == g[..0] + v.grid[0..];
    } else {
      var k := n - 1;
      var u := DrawsRows(v, g, k);
      FeedAppend(v, ScreenBytes(g, k), RowBytes(g[k], k, |g[k]|));
      DrawsNextRow(v, u, g, k, n);
      w := Feed(u, RowBytes(g[k], k, |g[k]|));
    }
  }

  /** The first `n` rows have been drawn, and nothing else has changed. */
  predicate RowsDrawn(v: Vt, w: Vt, g: seq<Row>, n: nat)
    requires n <= |g| && n <= |v.grid|
  {
    StillReady(v, w) && w.grid == g[..n] + v.grid[n..]
  }

  lemma DrawsNextRow(v: Vt, w: Vt, g: seq<Row>, k: nat, n: nat)
    requires Ready(v) && GridOk(g, v.cols, v.rows) && AllDrawable(g) && k < n == k + 1 <= |g| && RowsDrawn(v, w, g, k)
    ensures RowsDrawn(v, Feed(w, RowBytes(g[k], k, |g[k]|)), g, n)
  {
    var row := g[k];
    DrawsRow(w, row, k, |row|);
    assert row[..|row|] + w.grid[k][|row|..] == row;
    OneMoreRow(g, v.grid, n);
  }

  lemma OneMoreRow(g: seq<Row>, was: seq<Row>, n: nat)
    requires 0 < n <= |g| == |was|
    ensures (g[..n - 1] + was[n - 1..])[n - 1 := g[n - 1]] == g[..n] + was[n..]
  {}

  /** Any screen of drawable cells can be drawn on any terminal of its size, whatever that showed,
      and nothing scrolls. */
  lemma Redraws(v: Vt, g: seq<Row>)
    requires Ready(v) && GridOk(g, v.cols, v.rows) && AllDrawable(g)
    ensures var w := Feed(v, ScreenBytes(g, |g|)); StillReady(v, w) && w.grid == g
  {
    var _ := DrawsRows(v, g, |g|);
    WholeGrid(g, v.grid);
  }

  lemma WholeGrid(g: seq<Row>, was: seq<Row>)
    requires |was| == |g|
    ensures g[..|g|] + was[|g|..] == g
  {}
}
