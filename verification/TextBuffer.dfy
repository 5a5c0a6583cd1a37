/** The gap buffer of apps/text_editor/buffer.c: fields updated in place, proved to behave as
    the values of EditHistory, LineIndex and TextSearch. */
module TextBuffer {
  import opened EditHistory
  import opened LineIndex
  import opened Options
  import opened TextSearch

  const GAP_INITIAL: nat := 4096
  const GAP_GROW: nat := 4096

  // ---------------------------------------------------------------- gap arrays as values

  /** The text of an array with a gap in it. */
  function GapText(a: seq<char>, gapStart: nat, gapEnd: nat): string
    requires gapStart <= gapEnd <= |a|
  {
    a[..gapStart] + a[gapEnd..]
  }

  /** `b` is `a` with `n` cells copied from `src` to `dst`, as memmove does. */
  predicate Moved(a: seq<char>, b: seq<char>, dst: nat, src: nat, n: nat) {
    && |a| == |b| && dst + n <= |a| && src + n <= |a|
    && b[..dst] == a[..dst] && b[dst..dst + n] == a[src..src + n] && b[dst + n..] == a[dst + n..]
  }

  lemma GapMovedLeft(a: seq<char>, b: seq<char>, gapStart: nat, gapEnd: nat, pos: nat)
    requires pos <= gapStart <= gapEnd <= |a|
    requires Moved(a, b, gapEnd - (gapStart - pos), pos, gapStart - pos)
    ensures GapText(b, pos, gapEnd - (gapStart - pos)) == GapText(a, gapStart, gapEnd)
  {
    var cut := gapEnd - (gapStart - pos);
    assert b[..pos] == b[..cut][..pos] == a[..cut][..pos] == a[..pos];
    assert b[cut..] == b[cut..gapEnd] + b[gapEnd..] == a[pos..gapStart] + a[gapEnd..];
    assert a[..gapStart] == a[..pos] + a[pos..gapStart];
  }

  lemma GapMovedRight(a: seq<char>, b: seq<char>, gapStart: nat, gapEnd: nat, pos: nat)
    requires gapStart <= pos && gapStart <= gapEnd && gapEnd + (pos - gapStart) <= |a|
    requires Moved(a, b, gapStart, gapEnd, pos - gapStart)
    ensures GapText(b, pos, gapEnd + (pos - gapStart)) == GapText(a, gapStart, gapEnd)
  {
    var end := gapEnd + (pos - gapStart);
    assert b[..pos] == b[..gapStart] + b[gapStart..pos] == a[..gapStart] + a[gapEnd..end];
    assert b[end..] == b[pos..][end - pos..] == a[pos..][end - pos..] == a[end..];
    assert a[gapEnd..] == a[gapEnd..end] + a[end..];
  }

  lemma GapGrown(a: seq<char>, b: seq<char>, gapStart: nat, gapEnd: nat, grow: nat)
    requires gapStart <= gapEnd <= |a| && |b| == |a| + grow
    requires forall i :: 0 <= i < gapEnd ==> b[i] == a[i]
    requires forall i :: gapEnd + grow <= i < |b| ==> b[i] == a[i - grow]
    ensures GapText(b, gapStart, gapEnd + grow) == GapText(a, gapStart, gapEnd)
  {
    assert b[..gapStart] == a[..gapStart];
    assert b[gapEnd + grow..] == a[gapEnd..];
  }

  class Buffer {
    var data: array<char>
    var gapStart: nat
    var gapEnd: nat
    var cursor: nat
    var modified: bool
    var undoStack: seq<Slot>
    var undoTop: nat
    var inUndo: bool
    var lineOffsets: seq<nat>
    var linesDirty: bool

    ghost predicate Shaped()
      reads this, data
    {
      gapStart <= gapEnd <= data.Length
    }

    ghost predicate Valid()
      reads this, data
    {
      Shaped() && (!linesDirty ==> lineOffsets == LineStarts(Text()))
    }

    /** The text the gap array stands for. */
    ghost function Text(): string
      requires Shaped()
      reads this, data
    {
      GapText(data[..], gapStart, gapEnd)
    }

    ghost function State(): Doc
      requires Shaped()
      reads this, data
    {
      Doc(Text(), cursor, undoStack, undoTop)
    }

    constructor ()
      ensures Valid() && fresh(data) && !inUndo
      ensures State() == FRESH
    {
      data := new char[GAP_INITIAL];
      gapStart, gapEnd := 0, GAP_INITIAL;
      cursor, modified := 0, false;
      undoStack, undoTop, inUndo := [], 0, false;
      lineOffsets, linesDirty := [], true;
      new;
      assert data[..0] + data[GAP_INITIAL..] == "";
    }

    function Length(): (n: nat)
      requires Valid()
      reads this, data
      ensures n == |Text()|
    {
      data.Length - (gapEnd - gapStart)
    }

    function Phys(pos: nat): nat
      requires Valid()
      reads this, data
    {
      if pos < gapStart then pos else pos + (gapEnd - gapStart)
    }

    /** The character at a logical position, NUL past the end. */
    function CharAt(pos: nat): (c: char)
      requires Valid()
      reads this, data
      ensures c == if pos < |Text()| then Text()[pos] else '\0'
    {
      if pos >= Length() then '\0' else data[Phys(pos)]
    }

    // -------------------------------------------------------------- gap

    method MemMove(dst: nat, src: nat, n: nat)
      requires dst + n <= data.Length && src + n <= data.Length
      modifies data
      ensures Moved(old(data[..]), data[..], dst, src, n)
    {
      forall i | 0 <= i < n {
        data[dst + i] := data[src + i];
      }
    }

    /** Moving the gap never changes the text. */
    method GapMove(pos: nat)
      requires Shaped() && pos <= |Text()|
      modifies this`gapStart, this`gapEnd, data
      ensures Shaped() && gapStart == pos && gapEnd - gapStart == old(gapEnd - gapStart)
      ensures Text() == old(Text())
    {
      if pos == gapStart {
        return;
      }
      if pos < gapStart {
        GapLeft(gapStart - pos);
      } else {
        GapRight(pos - gapStart);
      }
    }

    method GapLeft(move: nat)
      requires Shaped() && move <= gapStart
      modifies this`gapStart, this`gapEnd, data
      ensures Shaped() && gapStart == old(gapStart) - move && gapEnd == old(gapEnd) - move
      ensures Text() == old(Text())
    {
      MemMove(gapEnd - move, gapStart - move, move);
      GapMovedLeft(old(data[..]), data[..], gapStart, gapEnd, gapStart - move);
      gapEnd := gapEnd - move;
      gapStart := gapStart - move;
    }

    method GapRight(move: nat)
      requires Shaped() && gapEnd + move <= data.Length
      modifies this`gapStart, this`gapEnd, data
      ensures Shaped() && gapStart == old(gapStart) + move && gapEnd == old(gapEnd) + move
      ensures Text() == old(Text())
    {
      MemMove(gapStart, gapEnd, move);
      GapMovedRight(old(data[..]), data[..], gapStart, gapEnd, gapStart + move);
      gapStart := gapStart + move;
      gapEnd := gapEnd + move;
    }

    /** Growing the gap never changes the text. */
    method GapEnsure(needed: nat)
      requires Shaped()
      modifies this`data, this`gapEnd
      ensures Shaped() && gapEnd - gapStart >= needed
      ensures data == old(data) || fresh(data)
      ensures Text() == old(Text())
    {
      var gapSize := gapEnd - gapStart;
      if gapSize >= needed {
        return;
      }
      var grow := needed - gapSize + GAP_GROW;
      var newData := new char[data.Length + grow];
      forall i | 0 <= i < gapEnd {
        newData[i] := data[i];
      }
      forall i | gapEnd + grow <= i < newData.Length {
        newData[i] := data[i - grow];
      }
      GapGrown(data[..], newData[..], gapStart, gapEnd, grow);
      data := newData;
      gapEnd := gapEnd + grow;
    }

    // -------------------------------------------------------------- undo stack

    method UndoClearFrom(top: nat)
      requires top <= |undoStack|
      requires forall i :: top <= i < |undoStack| ==> undoStack[i] != Raw
      modifies this`undoStack
      ensures undoStack == old(undoStack)[..top] + Fill(|old(undoStack)| - top, Vacant)
    {
      for i := top to |undoStack|
        invariant |undoStack| == |old(undoStack)|
        invariant forall j :: 0 <= j < |undoStack| ==>
          undoStack[j] == if top <= j < i then Vacant else old(undoStack)[j]
      {
        undoStack := undoStack[i := Vacant];
      }
    }

    method UndoPush(e: Edit)
      requires Shaped() && (!inUndo ==> Clearable(State()))
      modifies this`undoStack, this`undoTop
      ensures State() == if inUndo then old(State()) else Push(old(State()), e)
    {
      if !inUndo {
        Stack(e);
      }
    }

    method Stack(e: Edit)
      requires undoTop <= |undoStack|
      requires forall i :: undoTop <= i < |undoStack| ==> undoStack[i] != Raw
      modifies this`undoStack, this`undoTop
      ensures undoStack == Stacked(old(undoStack), old(undoTop), e) && undoTop == old(undoTop) + 1
    {
      if undoStack == [] {
        undoStack := Fill(UNDO_CAP, Vacant);
        undoTop := 0;
      }
      UndoClearFrom(undoTop);
      if undoTop >= |undoStack| {
        undoStack := undoStack + Fill(|undoStack|, Raw);
      }
      undoStack := undoStack[undoTop := Holds(e)];
      undoTop := undoTop + 1;
    }

    // -------------------------------------------------------------- editing

    /** Opens room at `p`, writes `text` there and closes the gap behind it. */
    method SpliceIn(p: nat, text: string)
      requires Shaped() && p <= |Text()|
      modifies this`data, this`gapStart, this`gapEnd, data
      ensures Shaped() && (data == old(data) || fresh(data))
      ensures Text() == Spliced(old(Text()), p, text)
    {
      ghost var s := Text();
      GapEnsure(|text|);
      GapMove(p);
      assert data[..gapStart] == s[..p] && data[gapEnd..] == s[p..];
      WriteInGap(text);
    }

    method WriteInGap(text: string)
      requires Shaped() && |text| <= gapEnd - gapStart
      modifies this`gapStart, data
      ensures Shaped() && data[..gapStart] == old(data[..gapStart]) + text && data[gapEnd..] == old(data[gapEnd..])
    {
      forall i | 0 <= i < |text| {
        data[gapStart + i] := text[i];
      }
      gapStart := gapStart + |text|;
    }

    /** Widens the gap over `n` characters at `p`. */
    method CutOut(p: nat, n: nat)
      requires Shaped() && p + n <= |Text()|
      modifies this`gapStart, this`gapEnd, data
      ensures Shaped() && Text() == Cut(old(Text()), p, n)
    {
      ghost var s := Text();
      GapMove(p);
      assert data[..gapStart] == s[..p] && data[gapEnd..] == s[p..];
      assert data[gapEnd + n..] == s[p..][n..] == s[p + n..];
      gapEnd := gapEnd + n;
    }

    /** Insertion at a clamped position is splicing into the flat text. */
    method Insert(pos: nat, text: string) returns (ok: bool)
      requires Valid() && (!inUndo ==> Defined(State(), Op.Insert(pos, text)))
      modifies this, data
      ensures Valid() && inUndo == old(inUndo) && (data == old(data) || fresh(data))
      ensures ok == (text != "") && (ok ==> modified)
      ensures !inUndo ==> State() == Step(old(State()), Op.Insert(pos, text))
      ensures inUndo ==> State() == Quiet(old(State()), Op.Insert(pos, text))
    {
      if text == "" {
        return false;
      }
      var p := if pos > Length() then Length() else pos;
      SpliceIn(p, text);
      if cursor >= p {
        cursor := cursor + |text|;
      }
      modified := true;
      linesDirty := true;
      assert State() == Inserted(old(State()), pos, text);
      UndoPush(Insertion(p, text));
      ok := true;
    }

    /** Takes `n` characters out of the text and moves the cursor along. */
    method Remove(pos: nat, n: nat)
      requires Shaped() && pos < pos + n <= |Text()|
      modifies this`gapStart, this`gapEnd, this`cursor, data
      ensures Shaped() && State() == Deleted(old(State()), pos, n)
    {
      CutOut(pos, n);
      if cursor > pos {
        if cursor <= pos + n {
          cursor := pos;
        } else {
          cursor := cursor - n;
        }
      }
    }

    method Slice(pos: nat, n: nat) returns (t: string)
      requires Valid() && pos + n <= |Text()|
      ensures t == Text()[pos..pos + n]
    {
      t := "";
      for i := 0 to n
        invariant t == Text()[pos..pos + i]
      {
        t := t + [CharAt(pos + i)];
      }
    }

    /** Records a deletion, then makes it. */
    method DeleteWithin(pos: nat, n: nat)
      requires Shaped() && 0 < n && pos + n <= |Text()| && (!inUndo ==> Clearable(State()))
      modifies this, data
      ensures Valid() && inUndo == old(inUndo) && data == old(data) && modified
      ensures inUndo ==> State() == Deleted(old(State()), pos, n)
      ensures !inUndo ==>
        State() == Deleted(Push(old(State()), Deletion(pos, old(Text()[pos..pos + n]))), pos, n)
    {
      linesDirty, modified := true, true;
      RecordDeletion(pos, n);
      Remove(pos, n);
    }

    method RecordDeletion(pos: nat, n: nat)
      requires Valid() && pos + n <= |Text()| && (!inUndo ==> Clearable(State()))
      modifies this`undoStack, this`undoTop
      ensures State() == if inUndo then old(State()) else Push(old(State()), Deletion(pos, Text()[pos..pos + n]))
    {
      var deleted := Slice(pos, n);
      UndoPush(Deletion(pos, deleted));
    }

    /** Deletion of a clamped range is cutting it out of the flat text. */
    method Delete(pos: nat, len: nat) returns (ok: bool)
      requires Valid() && (!inUndo ==> Defined(State(), Op.Delete(pos, len)))
      modifies this, data
      ensures Valid() && inUndo == old(inUndo) && data == old(data)
      ensures ok == (len != 0 && pos < |old(Text())|) && (ok ==> modified)
      ensures !inUndo ==> State() == Step(old(State()), Op.Delete(pos, len))
      ensures inUndo ==> State() == Quiet(old(State()), Op.Delete(pos, len))
    {
      if len == 0 || pos >= Length() {
        return false;
      }
      PushThenDelete(State(), pos, len);
      DeleteWithin(pos, if pos + len > Length() then Length() - pos else len);
      ok := true;
    }

    /** Takes an edit back (or makes it again) without recording it. */
    method Replay(e: Edit, back: bool)
      requires Valid() && inUndo
      modifies this, data
      ensures Valid() && inUndo && (data == old(data) || fresh(data))
      ensures State() == if back then Undone(old(State()), e) else Redone(old(State()), e)
    {
      QuietReplay(State(), e);
      if e.Insertion? == back {
        TakeBack(e.pos, |e.text|);
      } else {
        PutBack(e.pos, e.text);
      }
    }

    method TakeBack(pos: nat, len: nat)
      requires Valid() && inUndo
      modifies this, data
      ensures Valid() && inUndo && data == old(data)
      ensures State() == Quiet(old(State()), Op.Delete(pos, len)).(cursor := pos)
    {
      var _ := Delete(pos, len);
      cursor := pos;
    }

    method PutBack(pos: nat, text: string)
      requires Valid() && inUndo
      modifies this, data
      ensures Valid() && inUndo && (data == old(data) || fresh(data))
      ensures State() == Quiet(old(State()), Op.Insert(pos, text)).(cursor := pos + |text|)
    {
      var _ := Insert(pos, text);
      cursor := pos + |text|;
    }

    /** Replays an edit without recording it, and moves on in the stack. */
    method ReplayQuietly(e: Edit, back: bool, top: nat)
      requires Valid() && !inUndo
      modifies this, data
      ensures Valid() && !inUndo && (data == old(data) || fresh(data))
      ensures State() == (if back then Undone(old(State()), e) else Redone(old(State()), e)).(top := top)
    {
      inUndo := true;
      Replay(e, back);
      inUndo := false;
      undoTop := top;
    }

    method Undo() returns (ok: bool)
      requires Valid() && !inUndo && Defined(State(), Op.Undo)
      modifies this, data
      ensures Valid() && !inUndo && (data == old(data) || fresh(data))
      ensures ok == (old(undoTop) != 0)
      ensures State() == Step(old(State()), Op.Undo)
    {
      if undoTop == 0 {
        return false;
      }
      ReplayQuietly(undoStack[undoTop - 1].edit, true, undoTop - 1);
      ok := true;
    }

    method Redo() returns (ok: bool)
      requires Valid() && !inUndo && Defined(State(), Op.Redo)
      modifies this, data
      ensures Valid() && !inUndo && (data == old(data) || fresh(data))
      ensures ok == Effective(old(State()), Op.Redo)
      ensures State() == Step(old(State()), Op.Redo)
    {
      if undoTop >= |undoStack| || undoStack[undoTop] == Vacant {
        return false;
      }
      ReplayQuietly(undoStack[undoTop].edit, false, undoTop + 1);
      ok := true;
    }

    /** Any sequence of calls on the buffer computes what the run of their values does. */
    method Perform(ops: seq<Op>)
      requires Valid() && !inUndo && DefinedRun(State(), ops)
      modifies this, data
      ensures Valid() && !inUndo && (data == old(data) || fresh(data))
      ensures State() == Run(old(State()), ops)
    {
      var rest := ops;
      while rest != []
        invariant Valid() && !inUndo && (data == old(data) || fresh(data))
        invariant DefinedRun(State(), rest) && Run(State(), rest) == Run(old(State()), ops)
        decreases |rest|
      {
        match rest[0] {
          case Insert(pos, t) => var _ := Insert(pos, t);
          case Delete(pos, n) => var _ := Delete(pos, n);
          case Undo => var _ := Undo();
          case Redo => var _ := Redo();
        }
        rest := rest[1..];
      }
    }

    // -------------------------------------------------------------- lines

    method LinesRebuild()
      requires Valid()
      modifies this`lineOffsets, this`linesDirty
      ensures Valid() && !linesDirty && lineOffsets == LineStarts(Text())
    {
      ghost var s := Text();
      var offsets: seq<nat> := [0];
      for i := 0 to Length()
        invariant offsets == LineStarts(s[..i])
      {
        assert s[..i + 1][..i] == s[..i];
        if data[Phys(i)] == '\n' {
          offsets := offsets + [i + 1];
        }
      }
      assert s[..|s|] == s;
      lineOffsets := offsets;
      linesDirty := false;
    }

    method LinesEnsure()
      requires Valid()
      modifies this`lineOffsets, this`linesDirty
      ensures Valid() && lineOffsets == LineStarts(Text())
    {
      if linesDirty {
        LinesRebuild();
      }
    }

    /** The binary search finds the line: the number of newlines before the position. */
    method PosToLc(pos: nat) returns (line: nat, col: nat)
      requires Valid()
      modifies this`lineOffsets, this`linesDirty
      ensures Valid()
      ensures line == LineOf(Text(), pos) && col == ColOf(Text(), pos)
    {
      LinesEnsure();
      ghost var s := Text();
      ghost var goal := LineOf(s, pos);
      LineStartsExact(s);
      var lo, hi: int, found: nat := 0, |lineOffsets| - 1, 0;
      while lo <= hi
        invariant 0 <= lo && hi < |lineOffsets| && lo <= goal <= hi
        invariant lineOffsets == LineStarts(s)
        decreases hi - lo
      {
        var mid := (lo + hi) / 2;
        BracketIsLine(s, mid, pos);
        BracketIsLine(s, goal, pos);
        if lineOffsets[mid] <= pos && (mid + 1 >= |lineOffsets| || lineOffsets[mid + 1] > pos) {
          found := mid;
          break;
        }
        if lineOffsets[mid] > pos {
          hi := mid - 1;
        } else {
          lo := mid + 1;
        }
      }
      line := found;
      BracketIsLine(s, goal, pos);
      col := pos - lineOffsets[found];
    }

    method LcToPos(line: int, col: int) returns (pos: nat)
      requires Valid()
      modifies this`lineOffsets, this`linesDirty
      ensures Valid() && pos == PosOf(Text(), line, col)
    {
      LinesEnsure();
      ghost var s := Text();
      var l := line;
      if l < 0 {
        l := 0;
      }
      if l >= |lineOffsets| {
        l := |lineOffsets| - 1;
      }
      var lineStart := lineOffsets[l];
      var lineEnd := if l + 1 < |lineOffsets| then lineOffsets[l + 1] - 1 else Length();
      var lineLen := lineEnd - lineStart;
      var c := if col < 0 || col > lineLen then lineLen else col;
      assert lineLen == LineLen(s, l);
      pos := lineStart + c;
    }

    // -------------------------------------------------------------- search

    /** Compares the needle with the text at `i`, which reads as NUL past its end. */
    method MatchAt(i: nat, needle: string, exact: bool) returns (found: bool)
      requires Valid()
      ensures found == MatchesAt(Padded(Text(), i + |needle|), i, needle, exact)
    {
      ghost var s := Padded(Text(), i + |needle|);
      for j := 0 to |needle|
        invariant SameText(s[i..i + j], needle[..j], exact)
      {
        var a, c := CharAt(i + j), needle[j];
        assert a == s[i..i + |needle|][j];
        if Fold(a, exact) != Fold(c, exact) {
          return false;
        }
        assert s[i..i + j + 1] == s[i..i + j] + [a] && needle[..j + 1] == needle[..j] + [c];
      }
      assert needle[..|needle|] == needle;
      found := true;
    }

    /** The first match at or after `from`, or none. */
    method Find(from: nat, needle: string, exact: bool) returns (r: Option<nat>)
      requires Valid()
      ensures needle == "" ==> r == None
      ensures r.Some? ==> FirstFrom(Text(), from, r.value, needle, exact)
      ensures r.None? && needle != "" ==> NoMatchIn(Text(), from, |Text()| + 1, needle, exact)
    {
      if needle == "" || from + |needle| > Length() {
        return None;
      }
      var i := from;
      while i + |needle| <= Length()
        invariant from <= i
        invariant NoMatchIn(Text(), from, i, needle, exact)
      {
        var m := MatchAt(i, needle, exact);
        assert Padded(Text(), i + |needle|) == Text();
        if m {
          return Some(i);
        }
        i := i + 1;
      }
      r := None;
    }

    /** The last match ending at or before `from` in the text padded with NULs to `from`. */
    method FindPrev(from: nat, needle: string, exact: bool) returns (r: Option<nat>)
      requires Valid()
      ensures needle == "" ==> r == None
      ensures r.Some? ==>
        r.value + |needle| <= from
        && MatchesAt(Padded(Text(), from), r.value, needle, exact)
        && NoMatchIn(Padded(Text(), from), r.value + 1, from - |needle| + 1, needle, exact)
      ensures r.None? && needle != "" && |needle| <= from ==>
        NoMatchIn(Padded(Text(), from), 0, from - |needle| + 1, needle, exact)
    {
      if needle == "" || from < |needle| {
        return None;
      }
      var i: nat := from - |needle|;
      while true
        invariant i + |needle| <= from
        invariant NoMatchIn(Padded(Text(), from), i + 1, from - |needle| + 1, needle, exact)
        decreases i
      {
        var m := MatchAt(i, needle, exact);
        PaddedMatch(Text(), i, from, needle, exact);
        if m {
          return Some(i);
        }
        if i == 0 {
          break;
        }
        i := i - 1;
      }
      r := None;
    }

    method ReplaceAt(p: nat, n: nat, repl: string)
      requires Valid() && !inUndo && RoundDefined(State(), p, n, repl)
      modifies this, data
      ensures Valid() && !inUndo && (data == old(data) || fresh(data))
      ensures State() == Round(old(State()), p, n, repl)
    {
      var _ := Delete(p, n);
      var _ := Insert(p, repl);
    }

    /** The search-and-replace loop, against the hits of the text `d` it started from. */
    method ReplaceHits(needle: string, repl: string, exact: bool, ghost d: Doc, ghost hits: seq<nat>)
      returns (count: nat)
      requires Valid() && !inUndo && needle != ""
      requires AllHits(d.text, needle, exact, hits) && Replacing(d, hits, |needle|, repl, 0, State())
      modifies this, data
      ensures Valid() && !inUndo && (data == old(data) || fresh(data))
      ensures count == |hits| && Replacing(d, hits, |needle|, repl, count, State())
    {
      count := 0;
      var pos := 0;
      var more := true;
      while more
        invariant Valid() && !inUndo && (data == old(data) || fresh(data))
        invariant Replacing(d, hits, |needle|, repl, count, State())
        invariant pos == |Rebuilt(d.text, hits, |needle|, repl, count)|
        invariant !more ==> count == |hits|
        decreases more, |hits| - count
      {
        more, pos := ReplaceNext(pos, needle, repl, exact, d, hits, count);
        count := if more then count + 1 else count;
      }
    }

    /** Replaces the next match, if there is one. */
    method ReplaceNext(pos: nat, needle: string, repl: string, exact: bool,
                       ghost d: Doc, ghost hits: seq<nat>, ghost k: nat)
      returns (more: bool, pos': nat)
      requires Valid() && !inUndo && AllHits(d.text, needle, exact, hits)
      requires Replacing(d, hits, |needle|, repl, k, State()) && pos == |Rebuilt(d.text, hits, |needle|, repl, k)|
      modifies this, data
      ensures Valid() && !inUndo && (data == old(data) || fresh(data))
      ensures more == (k < |hits|) && (!more ==> pos' == pos)
      ensures var k' := if more then k + 1 else k;
              Replacing(d, hits, |needle|, repl, k', State()) && pos' == |Rebuilt(d.text, hits, |needle|, repl, k')|
    {
      var found := Find(pos, needle, exact);
      ghost var e := State();
      NextReplaced(d, hits, needle, repl, exact, k, e, found);
      if found == None {
        return false, pos;
      }
      ReplaceAt(found.value, |needle|, repl);
      more, pos' := true, found.value + |repl|;
    }

    /** Replaces the leftmost non-overlapping matches of the original text, all of them, even
        when the replacement contains the needle. */
    method ReplaceAll(needle: string, repl: string, exact: bool) returns (count: nat, ghost hits: seq<nat>)
      requires Valid() && !inUndo
      requires forall hits :: AllHits(Text(), needle, exact, hits) ==>
        Room(State(), PerHit(repl, |hits|))
      modifies this, data
      ensures Valid() && !inUndo && (data == old(data) || fresh(data))
      ensures needle == "" ==> count == 0 && State() == old(State())
      ensures needle != "" ==>
        && AllHits(old(Text()), needle, exact, hits) && count == |hits|
        && Fit(old(Text()), hits, |needle|)
        && Text() == ReplacedText(old(Text()), hits, |needle|, repl)
        && Replacing(old(State()), hits, |needle|, repl, |hits|, State())
    {
      hits := [];
      count := 0;
      if needle == "" {
        return;
      }
      hits := HitsExist(Text(), needle, exact, []);
      LeftmostFit(Text(), needle, exact, hits);
      ReplacingStart(State(), hits, |needle|, repl);
      count := ReplaceHits(needle, repl, exact, State(), hits);
    }
  }

  /** A new buffer put through any calls that fit the undo stack shows the entry its reference
      history is at. */
  method Session(ops: seq<Op>) returns (b: Buffer)
    requires Fits(NO_PAST, ops)
    ensures fresh(b) && b.Valid()
    ensures b.Text() == PastRun(NO_PAST, ops).texts[PastRun(NO_PAST, ops).now]
    ensures b.cursor <= |b.Text()|
  {
    b := new Buffer();
    RunIsHistory(ops);
    b.Perform(ops);
  }

  function PerHit(repl: string, k: nat): nat {
    if repl == "" then k else 2 * k
  }

  /** `e` is `d` after the edits that replace its first `k` hits, with room for the others. */
  ghost predicate Replacing(d: Doc, hits: seq<nat>, n: nat, repl: string, k: nat, e: Doc) {
    && 0 < n && Fit(d.text, hits, n) && k <= |hits| && Resume(hits, k, n) <= |d.text|
    && Room(e, PerHit(repl, |hits| - k))
    && e.text == Rebuilt(d.text, hits, n, repl, k) + d.text[Resume(hits, k, n)..]
    && var ops := ReplaceOps(d.text, hits, n, repl, k);
       EffectiveEdits(d, ops) && DefinedRun(d, ops) && Run(d, ops) == e
  }

  lemma ReplacingStart(d: Doc, hits: seq<nat>, n: nat, repl: string)
    requires 0 < n && Fit(d.text, hits, n) && Room(d, PerHit(repl, |hits|))
    ensures Replacing(d, hits, n, repl, 0, d)
  {}

  lemma ReplacingMore(d: Doc, hits: seq<nat>, n: nat, repl: string, k: nat, e: Doc)
    requires Replacing(d, hits, n, repl, k, e) && k < |hits|
    ensures var p := HitPos(d.text, hits, n, repl, k);
            RoundDefined(e, p, n, repl)
            && Replacing(d, hits, n, repl, k + 1, Round(e, p, n, repl))
            && |Rebuilt(d.text, hits, n, repl, k + 1)| == p + |repl|
  {
    var p := HitPos(d.text, hits, n, repl, k);
    HitInText(d.text, hits, n, repl, k, e.text);
    RoundRoom(e, p, n, repl, PerHit(repl, |hits| - k - 1));
    RoundRebuilds(d.text, hits, n, repl, k, e);
    RoundRuns(d, ReplaceOps(d.text, hits, n, repl, k), p, n, repl);
  }

  /** The next hit lies in the text that is still to come. */
  lemma HitInText(s: string, hits: seq<nat>, n: nat, repl: string, k: nat, now: string)
    requires Fit(s, hits, n) && k < |hits| && Resume(hits, k, n) <= |s|
    requires now == Rebuilt(s, hits, n, repl, k) + s[Resume(hits, k, n)..]
    ensures HitPos(s, hits, n, repl, k) + n <= |now| && Resume(hits, k + 1, n) <= |s|
  {
    ResumeFits(s, hits, n, k + 1);
  }

  lemma RebuiltMore(s: string, hits: seq<nat>, n: nat, repl: string, k: nat, now: string, p: nat)
    requires Fit(s, hits, n) && k < |hits| && Resume(hits, k, n) <= |s| && p == HitPos(s, hits, n, repl, k)
    requires now == Rebuilt(s, hits, n, repl, k) + s[Resume(hits, k, n)..]
    ensures Resume(hits, k + 1, n) <= |s| && p + n <= |now| && |Rebuilt(s, hits, n, repl, k + 1)| == p + |repl|
    ensures Spliced(Cut(now, p, n), p, repl) == Rebuilt(s, hits, n, repl, k + 1) + s[Resume(hits, k + 1, n)..]
  {
    var done := Rebuilt(s, hits, n, repl, k);
    var from, h := Resume(hits, k, n), hits[k];
    ReplaceOne(done, s, from, h, n, repl);
    assert Rebuilt(s, hits, n, repl, k + 1) == done + s[from..h] + repl;
  }

  /** Replacing the next hit rebuilds one more. */
  lemma RoundRebuilds(s: string, hits: seq<nat>, n: nat, repl: string, k: nat, e: Doc)
    requires Fit(s, hits, n) && k < |hits| && Resume(hits, k, n) <= |s| && Resume(hits, k + 1, n) <= |s|
    requires e.text == Rebuilt(s, hits, n, repl, k) + s[Resume(hits, k, n)..]
    requires RoundDefined(e, HitPos(s, hits, n, repl, k), n, repl)
    ensures var p := HitPos(s, hits, n, repl, k);
            && |Rebuilt(s, hits, n, repl, k + 1)| == p + |repl|
            && Round(e, p, n, repl).text == Rebuilt(s, hits, n, repl, k + 1) + s[Resume(hits, k + 1, n)..]
  {
    var p := HitPos(s, hits, n, repl, k);
    RoundText(e, p, n, repl);
    RebuiltMore(s, hits, n, repl, k, e.text, p);
  }

  /** With room, the hits can be replaced one after the other. */
  lemma {:induction false} RoomReplaces(d: Doc, hits: seq<nat>, n: nat, repl: string, k: nat) returns (e: Doc)
    requires 0 < n && Fit(d.text, hits, n) && Room(d, PerHit(repl, |hits|)) && k <= |hits|
    ensures Replacing(d, hits, n, repl, k, e)
    decreases k
  {
    if k == 0 {
      ReplacingStart(d, hits, n, repl);
      e := d;
    } else {
      var c := RoomReplaces(d, hits, n, repl, k - 1);
      ReplacingMore(d, hits, n, repl, k - 1, c);
      e := Round(c, HitPos(d.text, hits, n, repl, k - 1), n, repl);
    }
  }

  /** The edits for the first `k` hits all take effect, and rebuild the text up to there. */
  ghost predicate Rebuilding(d: Doc, hits: seq<nat>, n: nat, repl: string, k: nat) {
    && Fit(d.text, hits, n) && k <= |hits| && Resume(hits, k, n) <= |d.text|
    && var ops := ReplaceOps(d.text, hits, n, repl, k);
       && EffectiveEdits(d, ops) && DefinedRun(d, ops)
       && Run(d, ops).text == Rebuilt(d.text, hits, n, repl, k) + d.text[Resume(hits, k, n)..]
  }

  lemma RebuildingStart(d: Doc, hits: seq<nat>, n: nat, repl: string)
    requires Fit(d.text, hits, n)
    ensures Rebuilding(d, hits, n, repl, 0)
  {}

  lemma {:induction false} DefinedReplaces(d: Doc, hits: seq<nat>, n: nat, repl: string, k: nat)
    requires 0 < n && Fit(d.text, hits, n) && k <= |hits|
    requires DefinedRun(d, ReplaceOps(d.text, hits, n, repl, k))
    ensures Rebuilding(d, hits, n, repl, k)
    decreases k
  {
    if k == 0 {
      RebuildingStart(d, hits, n, repl);
    } else {
      var ops, round := ReplaceOps(d.text, hits, n, repl, k - 1), RoundOps(HitPos(d.text, hits, n, repl, k - 1), n, repl);
      DefinedAppend(d, ops, round);
      DefinedReplaces(d, hits, n, repl, k - 1);
      RebuildingMore(d, hits, n, repl, k - 1, k, ops);
    }
  }

  lemma RebuildingMore(d: Doc, hits: seq<nat>, n: nat, repl: string, k: nat, next: nat, ops: seq<Op>)
    requires next == k + 1 && 0 < n && Rebuilding(d, hits, n, repl, k) && k < |hits|
    requires ops == ReplaceOps(d.text, hits, n, repl, k)
    requires DefinedRun(Run(d, ops), RoundOps(HitPos(d.text, hits, n, repl, k), n, repl))
    ensures Rebuilding(d, hits, n, repl, next)
  {
    var p, e := HitPos(d.text, hits, n, repl, k), Run(d, ops);
    HitInText(d.text, hits, n, repl, k, e.text);
    RoundOnRun(d, ops, p, n, repl);
    RoundRebuilds(d.text, hits, n, repl, k, e);
  }

  lemma RoundOnRun(d: Doc, ops: seq<Op>, p: nat, n: nat, repl: string)
    requires EffectiveEdits(d, ops) && DefinedRun(d, ops) && 0 < n && p + n <= |Run(d, ops).text|
    requires DefinedRun(Run(d, ops), RoundOps(p, n, repl))
    ensures var all := ops + RoundOps(p, n, repl);
            && EffectiveEdits(d, all) && DefinedRun(d, all) && RoundDefined(Run(d, ops), p, n, repl)
            && Run(d, all) == Round(Run(d, ops), p, n, repl)
  {
    RoundOpsDefined(Run(d, ops), p, n, repl);
    RoundRuns(d, ops, p, n, repl);
  }

  lemma RoundOpsDefined(e: Doc, p: nat, n: nat, repl: string)
    requires 0 < n && p + n <= |e.text| && DefinedRun(e, RoundOps(p, n, repl))
    ensures RoundDefined(e, p, n, repl)
  {
    var ops := RoundOps(p, n, repl);
    assert ops[0] == Op.Delete(p, n);
    if repl != "" {
      assert ops[1..] == [Op.Insert(p, repl)];
    }
  }

  /** Replacing all hits stays on initialised undo records exactly when there is room for its edits. */
  lemma ReplaceDefinedExactly(d: Doc, h: Past, hits: seq<nat>, n: nat, repl: string)
    requires Tells(d, h) && 0 < n && Fit(d.text, hits, n)
    ensures DefinedRun(d, ReplaceOps(d.text, hits, n, repl, |hits|)) <==> Room(d, PerHit(repl, |hits|))
  {
    if Room(d, PerHit(repl, |hits|)) {
      var _ := RoomReplaces(d, hits, n, repl, |hits|);
    }
    var ops := ReplaceOps(d.text, hits, n, repl, |hits|);
    if DefinedRun(d, ops) {
      DefinedReplaces(d, hits, n, repl, |hits|);
      EditsNeedRoom(d, h, ops);
      ReplaceOpsCount(d.text, hits, n, repl, |hits|);
    }
  }

  /** What a search from the end of the rebuilt part finds is the next hit of the original. */
  lemma NextIsHit(d: Doc, hits: seq<nat>, needle: string, repl: string, exact: bool, k: nat, e: Doc, found: Option<nat>)
    requires AllHits(d.text, needle, exact, hits) && Replacing(d, hits, |needle|, repl, k, e)
    requires var done := |Rebuilt(d.text, hits, |needle|, repl, k)|;
             match found
             case None => NoMatchIn(e.text, done, |e.text| + 1, needle, exact)
             case Some(f) => FirstFrom(e.text, done, f, needle, exact)
    ensures found == None <==> k == |hits|
    ensures found.Some? ==> found.value == HitPos(d.text, hits, |needle|, repl, k)
  {
    var done, s := Rebuilt(d.text, hits, |needle|, repl, k), d.text;
    var lo := Resume(hits, k, |needle|);
    assert k < |hits| ==> FirstFrom(s, lo, hits[k], needle, exact);
    match found
    case None =>
      NoMatchShift(done, s, lo, |s| + 1 - lo, needle, exact);
    case Some(f) =>
      FirstShift(done, s, lo, f, needle, exact);
      assert k < |hits|;
      FirstUnique(s, lo, lo + (f - |done|), hits[k], needle, exact);
  }

  lemma NextReplaced(d: Doc, hits: seq<nat>, needle: string, repl: string, exact: bool,
                     k: nat, e: Doc, found: Option<nat>)
    requires AllHits(d.text, needle, exact, hits) && Replacing(d, hits, |needle|, repl, k, e)
    requires var done := |Rebuilt(d.text, hits, |needle|, repl, k)|;
             match found
             case None => NoMatchIn(e.text, done, |e.text| + 1, needle, exact)
             case Some(f) => FirstFrom(e.text, done, f, needle, exact)
    ensures found == None <==> k == |hits|
    ensures found.Some? ==>
      && RoundDefined(e, found.value, |needle|, repl)
      && Replacing(d, hits, |needle|, repl, k + 1, Round(e, found.value, |needle|, repl))
      && |Rebuilt(d.text, hits, |needle|, repl, k + 1)| == found.value + |repl|
  {
    NextIsHit(d, hits, needle, repl, exact, k, e, found);
    if k < |hits| {
      ReplacingMore(d, hits, |needle|, repl, k, e);
    }
  }

  lemma FirstShift(done: string, s: string, lo: nat, f: nat, needle: string, exact: bool)
    requires lo <= |s| && FirstFrom(done + s[lo..], |done|, f, needle, exact)
    ensures FirstFrom(s, lo, lo + (f - |done|), needle, exact)
  {
    NoMatchShift(done, s, lo, f - |done|, needle, exact);
    MatchShift(done, s[lo..], f - |done|, needle, exact);
    MatchShift(s[..lo], s[lo..], f - |done|, needle, exact);
    assert s == s[..lo] + s[lo..];
  }

  /** Replace-all followed by as many undos as it made edits restores the text. */
  lemma ReplaceAllUndone(d: Doc, h: Past, needle: string, repl: string, exact: bool, hits: seq<nat>, e: Doc)
    requires Tells(d, h) && AllHits(d.text, needle, exact, hits)
    requires Replacing(d, hits, |needle|, repl, |hits|, e)
    ensures var n := PerHit(repl, |hits|);
            DefinedRun(e, Repeat(Op.Undo, n)) && Run(e, Repeat(Op.Undo, n)).text == d.text
  {
    EditsThenUndos(d, h, ReplaceOps(d.text, hits, |needle|, repl, |hits|));
    ReplaceOpsCount(d.text, hits, |needle|, repl, |hits|);
  }

  /** The text as CharAt shows it: NULs after its end. */
  function Padded(s: string, n: nat): (r: string)
    ensures |r| == if n > |s| then n else |s|
    ensures forall i :: 0 <= i < |r| ==> r[i] == if i < |s| then s[i] else '\0'
  {
    s + seq(if n > |s| then n - |s| else 0, _ => '\0')
  }

  lemma PaddedMatch(s: string, i: nat, n: nat, needle: string, exact: bool)
    requires i + |needle| <= n
    ensures MatchesAt(Padded(s, i + |needle|), i, needle, exact)
       <==> MatchesAt(Padded(s, n), i, needle, exact)
  {
    assert Padded(s, i + |needle|)[i..i + |needle|] == Padded(s, n)[i..i + |needle|];
  }
}
