/** The layout theorem on the terminal object itself, and its scrollback read newest first. */
module VtSession {
  import opened VtInvariant
  import opened VtModel
  import opened VtLayout
  import opened VtTerminal

  /** A new terminal fed any printable text shows its layout: the rows scrolled off followed by
      the rows of the screen are the layout padded with blank rows. */
  method Show(cols: int, rows: int, scrollback: int, items: seq<Item>) returns (t: Terminal)
    requires cols > 0 && rows > 0
    ensures fresh(t) && t.Valid() && t.cols == cols && t.rows == rows
    ensures Split(t.grid, t.sb, if scrollback > 0 then scrollback else 0, rows, cols, DrawnAll(Layout(items, cols), cols))
  {
    t := new Terminal(cols, rows, scrollback);
    ghost var v := LaidOut(cols, rows, scrollback, items);
    t.Feed(Sent(items));
    assert t.State() == v;
  }

  lemma LaidOut(cols: int, rows: int, scrollback: int, items: seq<Item>) returns (v: Vt)
    requires cols > 0 && rows > 0
    ensures Ok(New(cols, rows, scrollback)) && v == Feed(New(cols, rows, scrollback), Sent(items))
    ensures v.cols == cols && v.rows == rows
    ensures Split(v.grid, v.sb, if scrollback > 0 then scrollback else 0, rows, cols, DrawnAll(Layout(items, cols), cols))
  {
    LayoutTheorem(cols, rows, scrollback, items);
    FeedKeepsSize(cols, rows, scrollback, items);
    v := Feed(New(cols, rows, scrollback), Sent(items));
  }

  lemma NewestAt<T>(s: seq<T>, cap: nat, index: int)
    ensures |Newest(s, cap)| == if |s| < cap then |s| else cap
    ensures 0 <= index < |Newest(s, cap)| ==> Newest(s, cap)[|Newest(s, cap)| - 1 - index] == s[|s| - 1 - index]
  {}

  /** Line `index` of the scrollback is the row scrolled off `index` rows before the last one. */
  method ShowScrollback(cols: int, rows: int, scrollback: int, items: seq<Item>, index: int)
    returns (found: bool, cells: Row)
    requires cols > 0 && rows > 0
    ensures var off := ScrolledOff(DrawnAll(Layout(items, cols), cols), rows);
            && found == (0 <= index < |off| && index < scrollback)
            && (found ==> cells == off[|off| - 1 - index])
  {
    ghost var drawn := DrawnAll(Layout(items, cols), cols);
    var t := Show(cols, rows, scrollback, items);
    assert t.RingOk() && Split(t.grid, t.sb, if scrollback > 0 then scrollback else 0, rows, cols, drawn);
    found, cells := ReadBack(t, scrollback, index, rows, cols, drawn);
  }

  method ReadBack(t: Terminal, ghost scrollback: int, index: int, ghost rows: nat, ghost cols: nat, ghost drawn: seq<Row>)
    returns (found: bool, cells: Row)
    requires t.RingOk() && Split(t.grid, t.sb, if scrollback > 0 then scrollback else 0, rows, cols, drawn)
    ensures var off := ScrolledOff(drawn, rows);
            && found == (0 <= index < |off| && index < scrollback)
            && (found ==> cells == off[|off| - 1 - index])
  {
    found, cells := t.ScrollbackLine(index);
    NewestAt(ScrolledOff(drawn, rows), if scrollback > 0 then scrollback else 0, index);
  }
}
