/** The text area of graphics/widgets/textarea.c: an array of lines shifted in place. */
module TextArea {
  import opened TextLines

  /** line_insert: the column is clamped to the line. */
  function LineInsert(s: string, col: int, t: string): string {
    var c := if col < 0 then 0 else if col > |s| then |s| else col;
    s[..c] + t + s[c..]
  }

  /** line_delete: nothing past the end, and no more than there is. */
  function LineDelete(s: string, col: int, count: int): string
    requires count >= 0
  {
    var c := if col < 0 then 0 else col;
    if c >= |s| then s
    else s[..c] + s[c + (if c + count > |s| then |s| - c else count)..]
  }

  class Textarea {
    const lines: array<string>
    var lineCount: nat
    var cursor: Pos
    var mark: Pos
    var hasSelection: bool

    ghost predicate Shaped()
      reads this
    {
      lines.Length == TEXTAREA_MAX_LINES && 1 <= lineCount <= lines.Length
    }

    ghost function Content(): Lines
      requires Shaped()
      reads this, lines
    {
      lines[..lineCount]
    }

    ghost predicate Valid()
      reads this, lines
    {
      Shaped() && Ok(Content()) && In(Content(), cursor) && In(Content(), mark)
    }

    constructor ()
      ensures Valid() && fresh(lines) && Content() == [""] && !hasSelection
    {
      lines := new string[TEXTAREA_MAX_LINES](_ => "");
      lineCount := 1;
      cursor, mark, hasSelection := Pos(0, 0), Pos(0, 0), false;
      new;
      assert lines[..1] == [""];
    }

    method ClampPos(p: Pos) returns (q: Pos)
      requires Shaped()
      ensures q == Clamped(Content(), p)
    {
      var row, col := p.row, p.col;
      if row < 0 {
        row := 0;
      }
      if row >= lineCount {
        row := lineCount - 1;
      }
      if col < 0 {
        col := 0;
      }
      if col > |lines[row]| {
        col := |lines[row]|;
      }
      q := Pos(row, col);
    }

    // -------------------------------------------------------------- inserting

    /** Opens a slot for a line after `row` by moving the lines below down. */
    method OpenSlot(row: nat)
      requires Shaped() && row < lineCount < lines.Length
      modifies lines, this`lineCount
      ensures Shaped() && lineCount == old(lineCount) + 1
      ensures lines[..row + 1] == old(lines[..row + 1])
      ensures lines[row + 2..lineCount] == old(lines[row + 1..lineCount])
    {
      forall k | row + 1 <= k < lineCount {
        lines[k + 1] := lines[k];
      }
      lineCount := lineCount + 1;
    }

    /** Breaks a line in two. */
    method SplitLine(row: nat, col: nat)
      requires Shaped() && row < lineCount < lines.Length && col <= |lines[row]|
      modifies lines, this`lineCount
      ensures Shaped() && Content() == Typed(old(Content()), Pos(row, col), '\n')
    {
      ghost var was := Content();
      OpenSlot(row);
      assert lines[row] == lines[..row + 1][row] == was[row];
      assert lines[..row] == lines[..row + 1][..row] == was[..row];
      lines[row + 1] := "";
      var tail := |lines[row]| - col;
      if tail > 0 {
        lines[row + 1] := LineInsert(lines[row + 1], 0, lines[row][col..]);
        lines[row] := LineDelete(lines[row], col, tail);
      }
      assert lines[row] == was[row][..col] && lines[row + 1] == was[row][col..];
      SplitsInTwo(was, Content(), row, col);
    }

    method InsertChar(row: nat, col: nat, c: char)
      requires Shaped() && row < lineCount && col <= |lines[row]| && c != '\n'
      modifies lines
      ensures Shaped() && Content() == Typed(old(Content()), Pos(row, col), c)
    {
      lines[row] := LineInsert(lines[row], col, [c]);
    }

    /** Inserts a text at a clamped position, a character at a time, up to the newline that would
        leave the array. */
    method InsertAt(pos: Pos, text: string)
      requires Shaped() && Ok(Content()) && SlotsFree(lineCount, Clamped(Content(), pos).row, text)
      modifies lines, this`lineCount
      ensures Shaped() && Ok(Content())
      ensures var p := Clamped(old(Content()), pos);
              Content() == TypedAll(old(Content()), p, Reaching(text, TEXTAREA_MAX_LINES - 1 - p.row))
    {
      var p := ClampPos(pos);
      ghost var goal := TypedAll(Content(), p, Reaching(text, TEXTAREA_MAX_LINES - 1 - p.row));
      var rest := text;
      while rest != "" && !(rest[0] == '\n' && p.row + 1 >= TEXTAREA_MAX_LINES)
        invariant Shaped() && Typing(Content(), p, rest, goal)
        decreases |rest|
      {
        TypingStep(Content(), p, rest, goal);
        TypeChar(p, rest[0]);
        p := if rest[0] == '\n' then Pos(p.row + 1, 0) else Pos(p.row, p.col + 1);
        rest := rest[1..];
      }
    }

    method TypeChar(p: Pos, c: char)
      requires Shaped() && In(Content(), p) && (c == '\n' ==> lineCount < lines.Length)
      modifies lines, this`lineCount
      ensures Shaped() && Content() == Typed(old(Content()), p, c)
    {
      if c == '\n' {
        SplitLine(p.row, p.col);
      } else {
        InsertChar(p.row, p.col, c);
      }
    }

    // -------------------------------------------------------------- deleting

    /** Drops the lines after `from` up to and including `to`. */
    method DropLines(from: nat, to: nat)
      requires Shaped() && from < to < lineCount
      modifies lines, this`lineCount
      ensures Shaped() && Content() == old(Content())[..from + 1] + old(Content())[to + 1..]
    {
      var removed := to - from;
      forall k | from + 1 <= k < lineCount - removed {
        lines[k] := lines[k + removed];
      }
      lineCount := lineCount - removed;
    }

    method DeleteRange(start: Pos, end: Pos)
      requires Shaped() && Ok(Content())
      modifies lines, this`lineCount
      ensures Shaped()
      ensures var s, e := Clamped(old(Content()), start), Clamped(old(Content()), end);
              Content() == if Before(s, e) then Removed(old(Content()), s, e) else old(Content())
    {
      var s := ClampPos(start);
      var e := ClampPos(end);
      if !(s.row < e.row || (s.row == e.row && s.col < e.col)) {
        return;
      }
      if s.row == e.row {
        DeleteInLine(s, e);
      } else {
        DeleteAcross(s, e);
      }
    }

    method DeleteAcross(s: Pos, e: Pos)
      requires Shaped() && In(Content(), s) && In(Content(), e) && s.row < e.row
      modifies lines, this`lineCount
      ensures Shaped() && Content() == Removed(old(Content()), s, e)
    {
      ghost var was := Content();
      JoinEnds(s, e);
      DropLines(s.row, e.row);
      JoinedThenDropped(was, s, e);
    }

    method DeleteInLine(s: Pos, e: Pos)
      requires Shaped() && In(Content(), s) && In(Content(), e) && s.row == e.row && s.col < e.col
      modifies lines
      ensures Shaped() && Content() == Removed(old(Content()), s, e)
    {
      lines[s.row] := LineDelete(lines[s.row], s.col, e.col - s.col);
      assert lines[s.row] == old(lines[s.row][..s.col] + lines[s.row][e.col..]);
    }

    /** Replaces the rest of the first line by the rest of the last. */
    method JoinEnds(s: Pos, e: Pos)
      requires Shaped() && In(Content(), s) && In(Content(), e) && s.row < e.row
      modifies lines
      ensures Shaped()
      ensures Content() == old(Content())[s.row := old(Content())[s.row][..s.col] + old(Content())[e.row][e.col..]]
    {
      var firstTail := |lines[s.row]| - s.col;
      lines[s.row] := LineDelete(lines[s.row], s.col, firstTail);
      assert lines[s.row] == old(lines[s.row])[..s.col];
      if e.col < |lines[e.row]| {
        lines[s.row] := LineInsert(lines[s.row], s.col, lines[e.row][e.col..]);
      }
      assert lines[s.row] == old(lines[s.row])[..s.col] + old(lines[e.row])[e.col..];
    }

    // -------------------------------------------------------------- selecting

    /** The text between two positions, one line after the other. */
    method TextBetween(start: Pos, end: Pos) returns (out: string)
      requires Shaped() && In(Content(), start) && In(Content(), end) && !Before(end, start)
      ensures out == Between(Content(), start, end)
    {
      ghost var ls := Content();
      out := "";
      for r := start.row to end.row
        invariant out == if r == start.row then "" else Between(ls, start, Pos(r, 0))
      {
        var c0 := if r == start.row then start.col else 0;
        BetweenGrows(ls, start, r);
        out := out + lines[r][c0..] + "\n";
      }
      var c0 := if end.row == start.row then start.col else 0;
      out := out + lines[end.row][c0..end.col];
    }

    method SelectedText() returns (out: string)
      requires Valid()
      ensures out == if !hasSelection then ""
                     else if Before(cursor, mark) then Between(Content(), cursor, mark)
                     else Between(Content(), mark, cursor)
    {
      if !hasSelection {
        return "";
      }
      if cursor.row < mark.row || (cursor.row == mark.row && cursor.col < mark.col) {
        out := TextBetween(cursor, mark);
      } else {
        out := TextBetween(mark, cursor);
      }
    }

    // -------------------------------------------------------------- whole texts

    method GetText() returns (out: string)
      requires Shaped()
      ensures out == Join(Content())
    {
      ghost var ls := Content();
      out := "";
      assert ls[..0] == [];
      for i := 0 to lineCount
        invariant out == if i < lineCount then Lined(ls[..i]) else Join(ls)
      {
        assert ls[..i + 1][..i] == ls[..i];
        out := out + lines[i];
        if i < lineCount - 1 {
          out := out + "\n";
        }
      }
    }

    method SetText(text: string)
      requires Valid()
      modifies this, lines
      ensures Valid() && Content() == SetLines(text)
    {
      lines[0] := "";
      lineCount := 1;
      cursor, mark, hasSelection := Pos(0, 0), Pos(0, 0), false;
      assert lines[..1] == [""];
      if text == "" {
        return;
      }
      FillFrom(text);
    }

    /** Makes `s` the line after the first `row`; the first line exists already. */
    method PutLine(row: nat, s: string)
      requires Shaped() && row < lines.Length && lineCount == (if row == 0 then 1 else row)
      requires row == 0 ==> lines[0] == ""
      modifies lines, this`lineCount
      ensures Shaped() && lineCount == row + 1 && Content() == old(lines[..row]) + [s]
    {
      if row > 0 {
        lines[row] := "";
        lineCount := row + 1;
      }
      lines[row] := LineInsert(lines[row], 0, s);
      assert lines[row] == s;
    }

    method FillFrom(text: string)
      requires Shaped() && lineCount == 1 && lines[0] == "" && text != ""
      modifies lines, this`lineCount
      ensures Shaped() && Content() == Loaded(text, TEXTAREA_MAX_LINES)
    {
      var rest, row := text, 0;
      ghost var goal := Loaded(text, TEXTAREA_MAX_LINES);
      NothingBefore(goal);
      while rest != "" && row < TEXTAREA_MAX_LINES
        invariant 0 <= row <= TEXTAREA_MAX_LINES && Shaped()
        invariant lineCount == (if row == 0 then 1 else row)
        invariant row == 0 ==> rest != "" && lines[0] == ""
        invariant lines[..row] + Loaded(rest, TEXTAREA_MAX_LINES - row) == goal
        decreases |rest|
      {
        rest := FillLine(row, rest);
        row := row + 1;
      }
      assert Loaded(rest, TEXTAREA_MAX_LINES - row) == [];
    }

    /** Loads one line. */
    method FillLine(row: nat, rest: string) returns (rest': string)
      requires Shaped() && row < TEXTAREA_MAX_LINES && rest != "" && lineCount == (if row == 0 then 1 else row)
      requires row == 0 ==> lines[0] == ""
      modifies lines, this`lineCount
      ensures Shaped() && lineCount == row + 1 && |rest'| < |rest|
      ensures lines[..row + 1] + Loaded(rest', TEXTAREA_MAX_LINES - row - 1) ==
              old(lines[..row]) + Loaded(rest, TEXTAREA_MAX_LINES - row)
    {
      var n := FirstLine(rest);
      ghost var done := lines[..row];
      rest' := if n == |rest| then "" else rest[n + 1..];
      PutLine(row, rest[..n]);
      assert lines[..row + 1] == done + [rest[..n]];
      LoadedNext(done, rest, TEXTAREA_MAX_LINES - row);
    }

    /** The selection, whichever of its ends the cursor is at. */
    function SelectionStart(): Pos
      reads this
    {
      if Before(cursor, mark) then cursor else mark
    }

    function SelectionEnd(): Pos
      reads this
    {
      if Before(cursor, mark) then mark else cursor
    }

    /** Cutting out the selection and putting it back leaves every line as it was. */
    method CutAndPaste() returns (text: string)
      requires Valid() && hasSelection
      modifies lines, this`lineCount
      ensures Shaped() && Content() == old(Content())
      ensures text == Between(old(Content()), SelectionStart(), SelectionEnd())
    {
      ghost var ls := Content();
      text := CutSelection();
      Restore(ls, text);
    }

    /** Takes the selection out; what is returned is what was selected, and the lines left are the
        ones that it makes the old lines of again. */
    method CutSelection() returns (text: string)
      requires Valid() && hasSelection
      modifies lines, this`lineCount
      ensures Shaped() && text == Between(old(Content()), SelectionStart(), SelectionEnd())
      ensures SelectionStart() != SelectionEnd() ==>
        Content() == Removed(old(Content()), SelectionStart(), SelectionEnd())
      ensures PastesBack(Content(), SelectionStart(), text, old(Content()))
    {
      ghost var ls := Content();
      text := SelectedText();
      DeleteRange(SelectionStart(), SelectionEnd());
      if SelectionStart() == SelectionEnd() {
        NothingPasted(ls, SelectionStart());
      } else {
        PasteBack(ls, SelectionStart(), SelectionEnd(), Content(), text);
      }
    }

    /** Inserts a cut selection where it was. */
    method Restore(ghost ls: Lines, text: string)
      requires Shaped() && PastesBack(Content(), SelectionStart(), text, ls)
      modifies lines, this`lineCount
      ensures Shaped() && Content() == ls
    {
      assert Clamped(Content(), SelectionStart()) == SelectionStart();
      InsertAt(SelectionStart(), text);
    }
  }

  lemma NothingBefore(ls: Lines)
    ensures [] + ls == ls
  {}

  lemma LoadedNext(done: Lines, rest: string, k: nat)
    requires rest != "" && k > 0
    ensures var n := FirstLine(rest);
            done + Loaded(rest, k) ==
            (done + [rest[..n]]) + Loaded(if n == |rest| then "" else rest[n + 1..], k - 1)
  {}

  lemma SplitsInTwo(was: Lines, now: Lines, row: nat, col: nat)
    requires row < |was| && |now| == |was| + 1 && col <= |was[row]|
    requires now[..row] == was[..row] && now[row + 2..] == was[row + 1..]
    requires now[row] == was[row][..col] && now[row + 1] == was[row][col..]
    ensures now == Typed(was, Pos(row, col), '\n')
  {
    assert now == now[..row] + [now[row], now[row + 1]] + now[row + 2..];
  }

  lemma JoinedThenDropped(ls: Lines, s: Pos, e: Pos)
    requires In(ls, s) && In(ls, e) && s.row < e.row
    ensures var joined := ls[s.row := ls[s.row][..s.col] + ls[e.row][e.col..]];
            joined[..s.row + 1] + joined[e.row + 1..] == Removed(ls, s, e)
  {}

  lemma BetweenGrows(ls: Lines, from: Pos, r: nat)
    requires In(ls, from) && from.row <= r < |ls| && r + 1 < |ls|
    ensures var before := if r == from.row then "" else Between(ls, from, Pos(r, 0));
            var c0 := if r == from.row then from.col else 0;
            before + ls[r][c0..] + "\n" == Between(ls, from, Pos(r + 1, 0))
  {
    if r == from.row {
      BetweenFirst(ls, from);
    } else {
      BetweenNext(ls, from, r);
      assert ls[r][0..] == ls[r];
    }
  }

  lemma BetweenFirst(ls: Lines, from: Pos)
    requires In(ls, from) && from.row + 1 < |ls|
    ensures "" + ls[from.row][from.col..] + "\n" == Between(ls, from, Pos(from.row + 1, 0))
  {
    BetweenRow(ls, from, from.row + 1);
    assert ls[from.row + 1..from.row + 1] == [];
    var tail := ls[from.row][from.col..];
    assert "" + tail == tail && tail + "\n" + "" == tail + "\n";
  }

  lemma BetweenNext(ls: Lines, from: Pos, r: nat)
    requires In(ls, from) && from.row < r && r + 1 < |ls|
    ensures Between(ls, from, Pos(r, 0)) + ls[r] + "\n" == Between(ls, from, Pos(r + 1, 0))
  {
    BetweenRow(ls, from, r);
    BetweenRow(ls, from, r + 1);
    LinedNext(ls, from.row + 1, r);
    RowAdded(ls[from.row][from.col..] + "\n", Lined(ls[from.row + 1..r]), ls[r]);
  }

  lemma BetweenRow(ls: Lines, from: Pos, r: nat)
    requires In(ls, from) && from.row < r < |ls|
    ensures Between(ls, from, Pos(r, 0)) == ls[from.row][from.col..] + "\n" + Lined(ls[from.row + 1..r])
  {
    assert ls[r][..0] == "";
  }

  lemma RowAdded(head: string, middle: string, line: string)
    ensures (head + middle) + line + "\n" == head + (middle + line + "\n")
  {
    assert (head + middle) + line == head + (middle + line);
  }

  lemma LinedNext(ls: Lines, a: nat, r: nat)
    requires a <= r < |ls|
    ensures Lined(ls[a..r + 1]) == Lined(ls[a..r]) + ls[r] + "\n"
  {
    var m := ls[a..r + 1];
    assert m[..|m| - 1] == ls[a..r];
  }
}
