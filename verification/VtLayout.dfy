/** Printable text on a fresh terminal: the screen and the scrollback together show the text cut
    at line breaks and then into pieces as wide as the screen. */
module VtLayout {
  import opened Bytes
  import opened VtModel
  import opened VtInvariant

  type glyph = b: int | 0x20 <= b < 256 witness 0x20

  /** Input made of printable bytes and CR-LF pairs. */
  datatype Item = Glyph(code: glyph) | LineBreak

  type Line = seq<glyph>

  function Sent(items: seq<Item>): seq<byte> {
    if items == [] then []
    else Sent(items[..|items| - 1]) + ItemBytes(items[|items| - 1])
  }

  function ItemBytes(item: Item): seq<byte> {
    match item
    case Glyph(b) => var c: byte := b; [c]
    case LineBreak => [0x0D, 0x0A]
  }

  // ---------------------------------------------------------------- the layout

  /** The lines of the input. */
  function Lines(items: seq<Item>): (r: seq<Line>)
    ensures |r| >= 1
  {
    if items == [] then [[]]
    else
      var before := Lines(items[..|items| - 1]);
      match items[|items| - 1]
      case LineBreak => before + [[]]
      case Glyph(b) => before[..|before| - 1] + [before[|before| - 1] + [b]]
  }

  /** A line cut into pieces of `cols`; an empty line is one empty piece. */
  function Pieces(line: Line, cols: nat): (r: seq<Line>)
    requires cols > 0
    ensures |r| >= 1
    ensures forall i :: 0 <= i < |r| ==> |r[i]| <= cols
  {
    if |line| <= cols then [line] else [line[..cols]] + Pieces(line[cols..], cols)
  }

  function AllPieces(lines: seq<Line>, cols: nat): (r: seq<Line>)
    requires cols > 0
    ensures forall i :: 0 <= i < |r| ==> |r[i]| <= cols
  {
    if lines == [] then []
    else AllPieces(lines[..|lines| - 1], cols) + Pieces(lines[|lines| - 1], cols)
  }

  function Layout(items: seq<Item>, cols: nat): seq<Line>
    requires cols > 0
  {
    AllPieces(Lines(items), cols)
  }

  /** How a layout grows by one item. */
  function Grown(rows: seq<Line>, item: Item, cols: nat): seq<Line>
    requires |rows| >= 1
  {
    var last := rows[|rows| - 1];
    match item
    case LineBreak => rows + [[]]
    case Glyph(b) =>
      if |last| >= cols then rows + [[b]] else rows[..|rows| - 1] + [last + [b]]
  }

  lemma {:induction false} PiecesGrow(line: Line, b: glyph, cols: nat)
    requires cols > 0
    ensures Pieces(line + [b], cols) == Grown(Pieces(line, cols), Glyph(b), cols)
    decreases |line|
  {
    if |line| < cols {
    } else if |line| == cols {
      assert (line + [b])[..cols] == line && (line + [b])[cols..] == [b];
    } else {
      assert (line + [b])[..cols] == line[..cols] && (line + [b])[cols..] == line[cols..] + [b];
      PiecesGrow(line[cols..], b, cols);
      var rest := Pieces(line[cols..], cols);
      assert Pieces(line, cols) == [line[..cols]] + rest;
      assert ([line[..cols]] + rest)[..|rest|] == [line[..cols]] + rest[..|rest| - 1];
    }
  }

  lemma LayoutGrows(items: seq<Item>, item: Item, cols: nat)
    requires cols > 0
    ensures |Layout(items, cols)| >= 1
    ensures Layout(items + [item], cols) == Grown(Layout(items, cols), item, cols)
  {
    assert (items + [item])[..|items|] == items;
    match item
    case LineBreak => LinesBreak(Lines(items), cols);
    case Glyph(b) => LinesGlyph(Lines(items), b, cols);
  }

  lemma LinesBreak(lines: seq<Line>, cols: nat)
    requires cols > 0
    ensures AllPieces(lines + [[]], cols) == AllPieces(lines, cols) + [[]]
  {
    assert (lines + [[]])[..|lines|] == lines;
    assert Pieces([], cols) == [[]];
  }

  lemma LinesGlyph(lines: seq<Line>, b: glyph, cols: nat)
    requires cols > 0 && |lines| >= 1
    ensures var init, last := lines[..|lines| - 1], lines[|lines| - 1];
            |AllPieces(lines, cols)| >= 1 &&
            AllPieces(init + [last + [b]], cols) == Grown(AllPieces(lines, cols), Glyph(b), cols)
  {
    var init, last := lines[..|lines| - 1], lines[|lines| - 1];
    assert (init + [last + [b]])[..|init|] == init;
    PiecesGrow(last, b, cols);
    GrownAfter(AllPieces(init, cols), Pieces(last, cols), b, cols);
  }

  lemma GrownAfter(a: seq<Line>, p: seq<Line>, b: glyph, cols: nat)
    requires |p| >= 1
    ensures a + Grown(p, Glyph(b), cols) == Grown(a + p, Glyph(b), cols)
  {
    assert (a + p)[..|a + p| - 1] == a + p[..|p| - 1];
  }

  lemma LayoutEmpty(cols: nat)
    requires cols > 0
    ensures Layout([], cols) == [[]]
  {
    var none: Line := [];
    assert Lines([]) == [none] && [none][..0] == [];
    assert AllPieces([none][..0], cols) == [];
  }

  // ---------------------------------------------------------------- the screen

  function Drawn(line: Line, cols: nat): (row: Row)
    requires |line| <= cols
    ensures |row| == cols
  {
    seq(cols, c requires 0 <= c < cols =>
      if c < |line| then Cell(line[c], PLAIN) else Erased(PLAIN))
  }

  function DrawnAll(rows: seq<Line>, cols: nat): (r: seq<Row>)
    requires forall i :: 0 <= i < |rows| ==> |rows[i]| <= cols
    ensures |r| == |rows|
    ensures forall i :: 0 <= i < |r| ==> r[i] == Drawn(rows[i], cols)
  {
    seq(|rows|, i requires 0 <= i < |rows| => Drawn(rows[i], cols))
  }

  /** The newest `cap` of a sequence. */
  function Newest<T>(s: seq<T>, cap: nat): seq<T> {
    if |s| <= cap then s else s[|s| - cap..]
  }

  function Scrolled(count: nat, rows: nat): nat {
    if count <= rows then 0 else count - rows
  }

  predicate Narrow(text: seq<Line>, cols: int) {
    forall i :: 0 <= i < |text| ==> |text[i]| <= cols
  }

  /** What the screen shows of a text: its last rows, then blank ones. */
  predicate Screen(grid: seq<Row>, rows: nat, cols: nat, text: seq<Line>)
    requires Narrow(text, cols)
  {
    var n := Scrolled(|text|, rows);
    |grid| == rows &&
    forall r :: 0 <= r < rows ==>
      grid[r] == if n + r < |text| then Drawn(text[n + r], cols) else Drawn([], cols)
  }

  /** The screen and the scrollback of a terminal that shows `text`. */
  ghost predicate Content(grid: seq<Row>, sb: seq<Row>, cap: nat, rows: nat, cols: nat, text: seq<Line>) {
    && Narrow(text, cols) && Screen(grid, rows, cols, text)
    && sb == Newest(DrawnAll(text[..Scrolled(|text|, rows)], cols), cap)
  }

  predicate Idle(v: Vt) {
    v.parse == Ground && v.pen == PLAIN && !v.insert && v.top == 0 && v.bot == v.rows - 1
  }

  predicate CursorAfter(v: Vt, text: seq<Line>) {
    && |text| >= 1 && v.rows >= 0
    && v.row == |text| - 1 - Scrolled(|text|, v.rows)
    && var n := |text[|text| - 1]|;
       v.pending == (n == v.cols) && v.col == if n == v.cols then v.cols - 1 else n
  }

  /** The terminal shows `text`: the last rows on the screen, the newest of the others in the
      scrollback, and the cursor after the last glyph. */
  ghost predicate Shows(v: Vt, text: seq<Line>) {
    v.cols > 0 && v.rows > 0 && Idle(v) && CursorAfter(v, text) && Content(v.grid, v.sb, v.sbCap, v.rows, v.cols, text)
  }

  lemma FreshShows(cols: int, rows: int, scrollback: int)
    requires cols > 0 && rows > 0
    ensures Ok(New(cols, rows, scrollback))
    ensures Shows(New(cols, rows, scrollback), [[]])
  {
    assert Repeated(cols, Erased(PLAIN)) == Drawn([], cols);
  }

  lemma NewestPush(s: seq<Row>, x: Row, cap: nat)
    ensures Newest(s + [x], cap) == Pushed(Newest(s, cap), cap, x)
  {}

  // ---------------------------------------------------------------- one more row

  lemma ScreenScrolled(g: seq<Row>, h: seq<Row>, rows: nat, cols: nat, text: seq<Line>)
    requires rows > 0 && Narrow(text, cols) && Screen(g, rows, cols, text) && |text| >= rows
    requires |h| == rows && h[rows - 1] == Drawn([], cols)
    requires forall r :: 0 <= r < rows - 1 ==> h[r] == g[r + 1]
    ensures Narrow(text + [[]], cols) && Screen(h, rows, cols, text + [[]])
  {
    var text' := text + [[]];
    var n := Scrolled(|text|, rows);
    assert Scrolled(|text'|, rows) == n + 1;
    forall r | 0 <= r < rows
      ensures h[r] == Drawn(text'[n + 1 + r], cols)
    {
      if r < rows - 1 {
        assert h[r] == g[r + 1];
      }
    }
  }

  lemma ContentScrolled(g: seq<Row>, h: seq<Row>, sb: seq<Row>, cap: nat, rows: nat, cols: nat, text: seq<Line>)
    requires rows > 0 && Content(g, sb, cap, rows, cols, text) && |text| >= rows
    requires |h| == rows && h[rows - 1] == Drawn([], cols)
    requires forall r :: 0 <= r < rows - 1 ==> h[r] == g[r + 1]
    ensures Content(h, Pushed(sb, cap, g[0]), cap, rows, cols, text + [[]])
  {
    ScreenScrolled(g, h, rows, cols, text);
    ScrollbackScrolled(cap, cols, text, Scrolled(|text|, rows));
  }

  lemma ScrollbackScrolled(cap: nat, cols: nat, text: seq<Line>, n: nat)
    requires Narrow(text, cols) && Narrow(text + [[]], cols) && n < |text|
    ensures Newest(DrawnAll((text + [[]])[..n + 1], cols), cap)
         == Pushed(Newest(DrawnAll(text[..n], cols), cap), cap, Drawn(text[n], cols))
  {
    var before := DrawnAll(text[..n], cols);
    assert (text + [[]])[..n + 1] == text[..n] + [text[n]];
    assert DrawnAll(text[..n] + [text[n]], cols) == before + [Drawn(text[n], cols)];
    NewestPush(before, Drawn(text[n], cols), cap);
  }

  lemma ContentExtended(g: seq<Row>, sb: seq<Row>, cap: nat, rows: nat, cols: nat, text: seq<Line>)
    requires Content(g, sb, cap, rows, cols, text) && |text| < rows
    ensures Content(g, sb, cap, rows, cols, text + [[]])
  {
    assert (text + [[]])[..0] == text[..0];
  }

  /** A scroll by one line moves the top row into the scrollback and blanks the bottom row. */
  lemma ScrollByOne(v: Vt) returns (w: Vt)
    requires Ok(v) && v.top == 0 && v.row == v.bot == v.rows - 1 && v.pen == PLAIN
    ensures w == NextLine(v) == v.(grid := w.grid, sb := Pushed(v.sb, v.sbCap, v.grid[0]))
    ensures |w.grid| == v.rows && w.grid[v.rows - 1] == Drawn([], v.cols)
    ensures forall r :: 0 <= r < v.rows - 1 ==> w.grid[r] == v.grid[r + 1]
  {
    w := ScrollUp(v, 0, v.rows - 1, 1);
    assert PushedTimes(v.sb, v.sbCap, v.grid[0], 1) == Pushed(v.sb, v.sbCap, v.grid[0]) by {
      assert PushedTimes(v.sb, v.sbCap, v.grid[0], 0) == v.sb;
    }
    assert Repeated(v.cols, Erased(PLAIN)) == Drawn([], v.cols);
  }

  lemma NextLineScrolls(v: Vt, text: seq<Line>)
    requires Ok(v) && Shows(v, text) && v.row == v.bot
    ensures Shows(NextLine(v.(col := 0, pending := false)), text + [[]])
  {
    var u := v.(col := 0, pending := false);
    var w := ScrollByOne(u);
    ContentScrolled(v.grid, w.grid, v.sb, v.sbCap, v.rows, v.cols, text);
    assert Shows(w, text + [[]]);
  }

  /** Going to the start of the next line adds an empty row to the text. */
  lemma NextLineShows(v: Vt, text: seq<Line>)
    requires Ok(v) && Shows(v, text)
    ensures Shows(NextLine(v.(col := 0, pending := false)), text + [[]])
  {
    if v.row == v.bot {
      NextLineScrolls(v, text);
    } else {
      ContentExtended(v.grid, v.sb, v.sbCap, v.rows, v.cols, text);
    }
  }

  // ---------------------------------------------------------------- one more glyph

  function WithGlyph(text: seq<Line>, b: glyph): seq<Line>
    requires |text| >= 1
  {
    text[..|text| - 1] + [text[|text| - 1] + [b]]
  }

  lemma GlyphOnEmpty(text: seq<Line>, b: glyph)
    ensures WithGlyph(text + [[]], b) == text + [[b]]
  {
    var none: Line := [];
    assert (text + [none])[..|text|] == text && (text + [none])[|text|] == none;
    assert none + [b] == [b];
  }

  lemma ContentPut(g: seq<Row>, sb: seq<Row>, cap: nat, rows: nat, cols: nat, text: seq<Line>, b: glyph, r: int)
    returns (h: seq<Row>)
    requires rows > 0 && Content(g, sb, cap, rows, cols, text)
    requires |text| >= 1 && |text[|text| - 1]| < cols && r == |text| - 1 - Scrolled(|text|, rows)
    ensures 0 <= r < |g| && |g[r]| == cols && h == g[r := g[r][|text[|text| - 1]| := Cell(b, PLAIN)]]
    ensures Content(h, sb, cap, rows, cols, WithGlyph(text, b))
  {
    var n, last := Scrolled(|text|, rows), text[|text| - 1];
    DrawnPut(last, b, cols);
    ScreenPut(g, rows, cols, text, b);
    assert WithGlyph(text, b)[..n] == text[..n];
    h := g[r := Drawn(last + [b], cols)];
  }

  lemma DrawnPut(line: Line, b: glyph, cols: nat)
    requires |line| < cols
    ensures Drawn(line, cols)[|line| := Cell(b, PLAIN)] == Drawn(line + [b], cols)
  {}

  lemma ScreenPut(g: seq<Row>, rows: nat, cols: nat, text: seq<Line>, b: glyph)
    requires rows > 0 && Narrow(text, cols) && Screen(g, rows, cols, text)
    requires |text| >= 1 && |text[|text| - 1]| < cols
    ensures var n, last := Scrolled(|text|, rows), text[|text| - 1];
            var r := |text| - 1 - n;
            && 0 <= r < |g| && g[r] == Drawn(last, cols) && Narrow(WithGlyph(text, b), cols)
            && Screen(g[r := Drawn(last + [b], cols)], rows, cols, WithGlyph(text, b))
  {}

  /** A glyph after a row that is not full. */
  lemma PutShows(v: Vt, text: seq<Line>, b: glyph)
    requires Ok(v) && Shows(v, text) && |text[|text| - 1]| < v.cols
    ensures Shows(PutChar(v, b), WithGlyph(text, b))
  {
    var h := ContentPut(v.grid, v.sb, v.sbCap, v.rows, v.cols, text, b, v.row);
    var w := PutAtCursor(v, text, b, h);
    assert Shows(w, WithGlyph(text, b));
  }

  lemma PutAtCursor(v: Vt, text: seq<Line>, b: glyph, h: seq<Row>) returns (w: Vt)
    requires Ok(v) && Idle(v) && CursorAfter(v, text) && |text[|text| - 1]| < v.cols
    requires h == v.grid[v.row := v.grid[v.row][|text[|text| - 1]| := Cell(b, PLAIN)]]
    ensures w == PutChar(v, b) && Idle(w) && CursorAfter(w, WithGlyph(text, b)) && w.grid == h
    ensures w.cols == v.cols && w.rows == v.rows && w.sb == v.sb && w.sbCap == v.sbCap
  {
    w := PutChar(v, b);
  }

  lemma WrapIsNextLine(v: Vt, b: glyph)
    requires Ok(v) && v.pending
    ensures var w := NextLine(v.(col := 0, pending := false));
            Ok(w) && PutChar(w, b) == PutChar(v, b) && w.cols == v.cols
  {
    NextLineOk(v.(col := 0, pending := false));
  }

  /** A pending wrap is the start of the next line. */
  lemma WrapShows(v: Vt, text: seq<Line>, b: glyph)
    requires Ok(v) && Shows(v, text) && v.pending
    ensures Shows(PutChar(v, b), text + [[b]])
  {
    var w := NextLine(v.(col := 0, pending := false));
    assert Shows(w, text + [[]]) by {
      NextLineShows(v, text);
    }
    WrapIsNextLine(v, b);
    LastIsEmpty(text);
    assert Shows(PutChar(w, b), WithGlyph(text + [[]], b)) by {
      PutShows(w, text + [[]], b);
    }
    GlyphOnEmpty(text, b);
  }

  lemma LastIsEmpty(text: seq<Line>)
    ensures var t := text + [[]]; t[|t| - 1] == []
  {}

  lemma ItemShows(v: Vt, text: seq<Line>, item: Item)
    requires Ok(v) && Shows(v, text)
    ensures Shows(Feed(v, ItemBytes(item)), Grown(text, item, v.cols))
  {
    match item
    case Glyph(b) =>
      FeedOne(v, b);
      if v.pending {
        WrapShows(v, text, b);
      } else {
        PutShows(v, text, b);
      }
    case LineBreak =>
      FeedBreak(v);
      NextLineShows(v, text);
  }

  lemma FeedOne(v: Vt, b: glyph)
    requires Ok(v) && v.parse == Ground
    ensures Feed(v, [b]) == PutChar(v, b)
  {
    FeedByte(v, b);
  }

  lemma FeedBreak(v: Vt)
    requires Ok(v) && v.parse == Ground
    ensures Feed(v, [0x0D, 0x0A]) == NextLine(v.(col := 0, pending := false))
  {
    assert [0x0D] + [0x0A] == [0x0D, 0x0A];
    FeedAppend(v, [0x0D], [0x0A]);
    StepBreak(v);
    FeedByte(v, 0x0D);
    FeedByte(v.(col := 0, pending := false), 0x0A);
  }

  lemma StepBreak(v: Vt)
    requires Ok(v) && v.parse == Ground
    ensures var u := v.(col := 0, pending := false);
            Step(v, 0x0D) == u && Step(u, 0x0A) == NextLine(u)
  {}

  lemma {:induction false} FeedShows(cols: int, rows: int, scrollback: int, items: seq<Item>)
    requires cols > 0 && rows > 0
    ensures Ok(New(cols, rows, scrollback))
    ensures var v := Feed(New(cols, rows, scrollback), Sent(items));
            Shows(v, Layout(items, cols)) && v.cols == cols && v.rows == rows
            && v.sbCap == New(cols, rows, scrollback).sbCap
    decreases |items|
  {
    var v0 := New(cols, rows, scrollback);
    FreshShows(cols, rows, scrollback);
    if items == [] {
      LayoutEmpty(cols);
    } else {
      var init, item := items[..|items| - 1], items[|items| - 1];
      FeedShows(cols, rows, scrollback, init);
      FeedAppend(v0, Sent(init), ItemBytes(item));
      LaidOutNext(Feed(v0, Sent(init)), init, item);
      assert init + [item] == items;
    }
  }

  lemma LaidOutNext(v: Vt, items: seq<Item>, item: Item)
    requires Ok(v) && Shows(v, Layout(items, v.cols))
    ensures var w := Feed(v, ItemBytes(item));
            && Shows(w, Layout(items + [item], v.cols))
            && w.cols == v.cols && w.rows == v.rows && w.sbCap == v.sbCap
  {
    ItemShows(v, Layout(items, v.cols), item);
    LayoutGrows(items, item, v.cols);
    ItemKeepsSize(v, item);
  }

  lemma FeedKeepsSize(cols: int, rows: int, scrollback: int, items: seq<Item>)
    requires cols > 0 && rows > 0
    ensures Ok(New(cols, rows, scrollback))
    ensures var v := Feed(New(cols, rows, scrollback), Sent(items)); v.cols == cols && v.rows == rows
  {
    FeedShows(cols, rows, scrollback, items);
  }

  lemma ItemKeepsSize(v: Vt, item: Item)
    requires Ok(v) && v.parse == Ground
    ensures var w := Feed(v, ItemBytes(item));
            w.cols == v.cols && w.rows == v.rows && w.sbCap == v.sbCap
  {
    match item
    case Glyph(b) => FeedOne(v, b);
    case LineBreak => FeedBreak(v);
  }

  /** The drawn rows that no longer fit the screen. */
  function ScrolledOff(drawn: seq<Row>, rows: nat): seq<Row> {
    if |drawn| <= rows then [] else drawn[..|drawn| - rows]
  }

  /** The drawn rows, padded with blank ones, are those scrolled off and those of the screen; the
      scrollback holds the newest of the former. */
  predicate Split(g: seq<Row>, sb: seq<Row>, cap: nat, rows: nat, cols: nat, drawn: seq<Row>) {
    var off := ScrolledOff(drawn, rows);
    && sb == Newest(off, cap)
    && off + g == drawn + Repeated(|off| + rows - |drawn|, Drawn([], cols))
  }

  /** The layout theorem: for any printable input, the rows scrolled off followed by the rows of
      the screen are the layout of the input, padded with blank rows; the scrollback keeps the
      newest of the rows scrolled off, as many as it has room for. */
  lemma LayoutTheorem(cols: int, rows: int, scrollback: int, items: seq<Item>)
    requires cols > 0 && rows > 0
    ensures Ok(New(cols, rows, scrollback))
    ensures var v := Feed(New(cols, rows, scrollback), Sent(items));
            Split(v.grid, v.sb, if scrollback > 0 then scrollback else 0, rows, cols, DrawnAll(Layout(items, cols), cols))
  {
    var v := FeedContent(cols, rows, scrollback, items);
    ContentIsLayout(v.grid, v.sb, if scrollback > 0 then scrollback else 0, rows, cols, Layout(items, cols));
  }

  lemma FeedContent(cols: int, rows: int, scrollback: int, items: seq<Item>) returns (v: Vt)
    requires cols > 0 && rows > 0
    ensures Ok(New(cols, rows, scrollback)) && v == Feed(New(cols, rows, scrollback), Sent(items))
    ensures Content(v.grid, v.sb, if scrollback > 0 then scrollback else 0, rows, cols, Layout(items, cols))
  {
    FeedShows(cols, rows, scrollback, items);
    v := Feed(New(cols, rows, scrollback), Sent(items));
  }

  lemma ContentIsLayout(g: seq<Row>, sb: seq<Row>, cap: nat, rows: nat, cols: nat, text: seq<Line>)
    requires Content(g, sb, cap, rows, cols, text)
    ensures Split(g, sb, cap, rows, cols, DrawnAll(text, cols))
  {
    var drawn, n := DrawnAll(text, cols), Scrolled(|text|, rows);
    DrawnTake(text, n, cols);
    ScreenRows(g, rows, cols, text);
    SplitAt(g, sb, cap, rows, cols, drawn, n);
  }

  lemma DrawnTake(text: seq<Line>, n: nat, cols: nat)
    requires Narrow(text, cols) && n <= |text|
    ensures DrawnAll(text[..n], cols) == DrawnAll(text, cols)[..n]
  {}

  lemma SplitAt(g: seq<Row>, sb: seq<Row>, cap: nat, rows: nat, cols: nat, drawn: seq<Row>, n: nat)
    requires n == Scrolled(|drawn|, rows) && sb == Newest(drawn[..n], cap)
    requires g == drawn[n..] + Repeated(n + rows - |drawn|, Drawn([], cols))
    ensures Split(g, sb, cap, rows, cols, drawn)
  {
    assert drawn[..n] == ScrolledOff(drawn, rows);
    Rejoined(drawn, n, Repeated(n + rows - |drawn|, Drawn([], cols)));
  }

  lemma ScreenRows(g: seq<Row>, rows: nat, cols: nat, text: seq<Line>)
    requires Narrow(text, cols) && Screen(g, rows, cols, text)
    ensures var drawn, n := DrawnAll(text, cols), Scrolled(|text|, rows);
            g == drawn[n..] + Repeated(n + rows - |drawn|, Drawn([], cols))
  {}

  lemma Rejoined(drawn: seq<Row>, n: nat, blanks: seq<Row>)
    requires n <= |drawn|
    ensures drawn[..n] + (drawn[n..] + blanks) == drawn + blanks
  {
    assert drawn[..n] + drawn[n..] == drawn;
  }
}
