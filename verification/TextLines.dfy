/** A text as an array of lines, the way graphics/widgets/textarea.c keeps it, against the same
    text as one flat string. */
module TextLines {
  import opened Arith
  import opened LineIndex

  type Lines = seq<string>

  datatype Pos = Pos(row: int, col: int)

  predicate NoNewline(s: string) {
    '\n' !in s
  }

  predicate Ok(ls: Lines) {
    |ls| >= 1 && forall i :: 0 <= i < |ls| ==> NoNewline(ls[i])
  }

  predicate In(ls: Lines, p: Pos) {
    0 <= p.row < |ls| && 0 <= p.col <= |ls[p.row]|
  }

  predicate Before(a: Pos, b: Pos) {
    a.row < b.row || (a.row == b.row && a.col < b.col)
  }

  /** Every line followed by a newline. */
  function Lined(ls: Lines): string {
    if ls == [] then "" else Lined(ls[..|ls| - 1]) + ls[|ls| - 1] + "\n"
  }

  /** The text: the lines with a newline between each two. */
  function Join(ls: Lines): string
    requires ls != []
  {
    Lined(ls[..|ls| - 1]) + ls[|ls| - 1]
  }

  /** The place of a (row, column) in the text. */
  function Offset(ls: Lines, p: Pos): nat
    requires In(ls, p)
  {
    |Lined(ls[..p.row])| + p.col
  }

  function Clamped(ls: Lines, p: Pos): (q: Pos)
    requires ls != []
    ensures In(ls, q) && (In(ls, p) ==> q == p)
  {
    var row := if p.row < 0 then 0 else if p.row >= |ls| then |ls| - 1 else p.row;
    var col := if p.col < 0 then 0 else p.col;
    Pos(row, if col > |ls[row]| then |ls[row]| else col)
  }

  // ---------------------------------------------------------------- flat and lined

  lemma JoinIsLined(ls: Lines)
    requires ls != []
    ensures Lined(ls) == Join(ls) + "\n"
  {}

  lemma {:induction false} LinedConcat(a: Lines, b: Lines)
    ensures Lined(a + b) == Lined(a) + Lined(b)
    decreases |b|
  {
    if b == [] {
      assert a + b == a;
    } else {
      assert (a + b)[..|a + b| - 1] == a + b[..|b| - 1];
      LinedConcat(a, b[..|b| - 1]);
    }
  }

  lemma LinedOne(s: string)
    ensures Lined([s]) == s + "\n"
  {
    assert [s][..0] == [];
  }

  lemma LinedSplit(a: Lines, s: string, b: Lines)
    ensures Lined(a + [s] + b) == Lined(a) + (s + "\n") + Lined(b)
  {
    LinedConcat(a + [s], b);
    LinedConcat(a, [s]);
    LinedOne(s);
  }

  lemma CutAt(a: string, b: string)
    ensures (a + b)[..|a|] == a && (a + b)[|a|..] == b
  {}

  lemma Rebracket(a: string, x: string, y: string, b: string)
    ensures a + (x + y) + b == (a + x) + (y + b)
  {}

  /** The text cut at a position. */
  lemma LinedCut(ls: Lines, p: Pos)
    requires In(ls, p)
    ensures Offset(ls, p) < |Lined(ls)|
    ensures Lined(ls)[..Offset(ls, p)] == Lined(ls[..p.row]) + ls[p.row][..p.col]
    ensures Lined(ls)[Offset(ls, p)..] == (ls[p.row][p.col..] + "\n") + Lined(ls[p.row + 1..])
  {
    var a, b := Lined(ls[..p.row]), Lined(ls[p.row + 1..]);
    var x, y := ls[p.row][..p.col], ls[p.row][p.col..] + "\n";
    LinedAround(ls, p.row);
    assert ls[p.row] + "\n" == x + y;
    Rebracket(a, x, y, b);
    CutAt(a + x, y + b);
  }

  lemma Around(ls: Lines, row: nat)
    requires row < |ls|
    ensures ls[..row] + [ls[row]] + ls[row + 1..] == ls
  {}

  lemma LinedAround(ls: Lines, row: nat)
    requires row < |ls|
    ensures Lined(ls) == Lined(ls[..row]) + (ls[row] + "\n") + Lined(ls[row + 1..])
  {
    Around(ls, row);
    LinedSplit(ls[..row], ls[row], ls[row + 1..]);
  }

  /** `k` is where the last line of a text that ends in a newline starts. */
  predicate LastStart(l: string, k: nat) {
    k < |l| && NoNewline(l[k..|l| - 1]) && (k == 0 || l[k - 1] == '\n')
  }

  lemma LastStartUnique(l: string, j: nat, k: nat)
    requires LastStart(l, j) && LastStart(l, k)
    ensures j == k
  {}

  lemma LinedLastStart(ls: Lines)
    requires ls != [] && NoNewline(ls[|ls| - 1])
    ensures LastStart(Lined(ls), |Lined(ls[..|ls| - 1])|)
    ensures Lined(ls)[|Lined(ls[..|ls| - 1])|..] == ls[|ls| - 1] + "\n"
  {
    var l, u, s := Lined(ls), Lined(ls[..|ls| - 1]), ls[|ls| - 1];
    assert l == u + (s + "\n") && l[|u|..|l| - 1] == s;
  }

  /** Lines without newlines in them are determined by the text. */
  lemma {:induction false} LinedInjective(a: Lines, b: Lines)
    requires forall i :: 0 <= i < |a| ==> NoNewline(a[i])
    requires forall i :: 0 <= i < |b| ==> NoNewline(b[i])
    requires Lined(a) == Lined(b)
    ensures a == b
    decreases |a|
  {
    if a != [] && b != [] {
      var u, v := Lined(a[..|a| - 1]), Lined(b[..|b| - 1]);
      LinedLastStart(a);
      LinedLastStart(b);
      LastStartUnique(Lined(a), |u|, |v|);
      SameLine(a[|a| - 1], b[|b| - 1]);
      assert Lined(a)[..|u|] == u && Lined(b)[..|v|] == v;
      LinedInjective(a[..|a| - 1], b[..|b| - 1]);
    }
  }

  lemma SameLine(s: string, t: string)
    requires s + "\n" == t + "\n"
    ensures s == t
  {
    CutAt(s, "\n");
    CutAt(t, "\n");
  }

  // ---------------------------------------------------------------- editing

  /** One character typed at a position, and where the next one goes. */
  function Typed(ls: Lines, p: Pos, c: char): Lines
    requires In(ls, p)
  {
    var s := ls[p.row];
    if c == '\n' then ls[..p.row] + [s[..p.col], s[p.col..]] + ls[p.row + 1..]
    else ls[p.row := s[..p.col] + [c] + s[p.col..]]
  }

  function After(p: Pos, c: char): Pos {
    if c == '\n' then Pos(p.row + 1, 0) else Pos(p.row, p.col + 1)
  }

  lemma BreakInLine(a: string, x: string, y: string, b: string)
    ensures (a + (x + "\n")) + (y + "\n") + b == (a + x) + "\n" + ((y + "\n") + b)
  {
    assert a + (x + "\n") == (a + x) + "\n";
    assert ((a + x) + "\n") + (y + "\n") + b == ((a + x) + "\n") + ((y + "\n") + b);
  }

  lemma NewlineRows(a: Lines, x: string, y: string, b: Lines)
    ensures a + [x, y] + b == (a + [x]) + [y] + b
    ensures (a + [x, y] + b)[..|a| + 1] == a + [x]
  {}

  lemma NewlineIsSplice(ls: Lines, p: Pos)
    requires In(ls, p)
    ensures var r, o := Typed(ls, p, '\n'), Offset(ls, p);
            && o < |Lined(ls)| && Lined(r) == Lined(ls)[..o] + "\n" + Lined(ls)[o..]
            && In(r, Pos(p.row + 1, 0)) && Offset(r, Pos(p.row + 1, 0)) == o + 1
  {
    LinedCut(ls, p);
    var a, b, r := ls[..p.row], ls[p.row + 1..], Typed(ls, p, '\n');
    var x, y := ls[p.row][..p.col], ls[p.row][p.col..];
    NewlineRows(a, x, y, b);
    LinedSplit(a + [x], y, b);
    LinedConcat(a, [x]);
    LinedOne(x);
    BreakInLine(Lined(a), x, y, Lined(b));
  }

  lemma CharIsSplice(ls: Lines, p: Pos, c: char)
    requires In(ls, p) && c != '\n'
    ensures var r, o := Typed(ls, p, c), Offset(ls, p);
            && o < |Lined(ls)| && Lined(r) == Lined(ls)[..o] + [c] + Lined(ls)[o..]
            && In(r, Pos(p.row, p.col + 1)) && Offset(r, Pos(p.row, p.col + 1)) == o + 1
  {
    LinedCut(ls, p);
    var a, b := ls[..p.row], ls[p.row + 1..];
    var x, y := ls[p.row][..p.col], ls[p.row][p.col..];
    CharInLine(ls, p, c);
    LinedSplit(a, x + [c] + y, b);
    SpliceInLine(Lined(a), x, c, y, Lined(b));
  }

  lemma CharInLine(ls: Lines, p: Pos, c: char)
    requires In(ls, p) && c != '\n'
    ensures var r, s := Typed(ls, p, c), ls[p.row];
            && r == ls[..p.row] + [s[..p.col] + [c] + s[p.col..]] + ls[p.row + 1..]
            && r[..p.row] == ls[..p.row] && In(r, Pos(p.row, p.col + 1))
  {}

  lemma SpliceInLine(a: string, x: string, c: char, y: string, b: string)
    ensures a + (x + [c] + y + "\n") + b == (a + x) + [c] + ((y + "\n") + b)
  {
    assert x + [c] + y + "\n" == x + ([c] + (y + "\n"));
    Rebracket(a, x, [c] + (y + "\n"), b);
    assert ([c] + (y + "\n")) + b == [c] + ((y + "\n") + b);
  }

  lemma TypedOk(ls: Lines, p: Pos, c: char)
    requires Ok(ls) && In(ls, p)
    ensures Ok(Typed(ls, p, c))
  {}

  lemma TypedIsSplice(ls: Lines, p: Pos, c: char)
    requires Ok(ls) && In(ls, p)
    ensures Ok(Typed(ls, p, c)) && In(Typed(ls, p, c), After(p, c))
    ensures var o := Offset(ls, p);
            o < |Lined(ls)| && Lined(Typed(ls, p, c)) == Lined(ls)[..o] + [c] + Lined(ls)[o..]
    ensures Offset(Typed(ls, p, c), After(p, c)) == Offset(ls, p) + 1
  {
    TypedOk(ls, p, c);
    if c == '\n' {
      NewlineIsSplice(ls, p);
    } else {
      CharIsSplice(ls, p, c);
    }
  }

  function TypedAll(ls: Lines, p: Pos, text: string): (r: Lines)
    requires Ok(ls) && In(ls, p)
    decreases |text|
  {
    if text == "" then ls
    else
      TypedIsSplice(ls, p, text[0]);
      TypedAll(Typed(ls, p, text[0]), After(p, text[0]), text[1..])
  }

  lemma SplicedOn(u: string, text: string, v: string)
    requires text != ""
    ensures var w := u + [text[0]] + v;
            w[..|u| + 1] + text[1..] + w[|u| + 1..] == u + text + v
  {
    CutAt(u + [text[0]], v);
    assert text == [text[0]] + text[1..];
    assert (u + [text[0]]) + text[1..] == u + text;
  }

  lemma {:induction false} TypedAllIsSplice(ls: Lines, p: Pos, text: string)
    requires Ok(ls) && In(ls, p)
    ensures Ok(TypedAll(ls, p, text))
    ensures var o := Offset(ls, p);
            o < |Lined(ls)| && Lined(TypedAll(ls, p, text)) == Lined(ls)[..o] + text + Lined(ls)[o..]
    decreases |text|
  {
    LinedCut(ls, p);
    var o := Offset(ls, p);
    if text != "" {
      TypedIsSplice(ls, p, text[0]);
      var m := Typed(ls, p, text[0]);
      TypedAllIsSplice(m, After(p, text[0]), text[1..]);
      SplicedOn(Lined(ls)[..o], text, Lined(ls)[o..]);
    } else {
      assert Lined(ls) == Lined(ls)[..o] + "" + Lined(ls)[o..];
    }
  }

  /** Removing what lies between two positions. */
  function Removed(ls: Lines, from: Pos, to: Pos): Lines
    requires In(ls, from) && In(ls, to) && from.row <= to.row
  {
    ls[..from.row] + [ls[from.row][..from.col] + ls[to.row][to.col..]] + ls[to.row + 1..]
  }

  lemma RemovedLined(ls: Lines, from: Pos, to: Pos)
    requires In(ls, from) && In(ls, to) && from.row <= to.row
    ensures Offset(ls, from) <= |Lined(ls)| && Offset(ls, to) <= |Lined(ls)|
    ensures Lined(Removed(ls, from, to)) == Lined(ls)[..Offset(ls, from)] + Lined(ls)[Offset(ls, to)..]
  {
    var head := LinedHead(ls, from);
    var tail := LinedTail(ls, to);
    RemovedParts(ls, from, to, head, tail);
  }

  lemma LinedHead(ls: Lines, p: Pos) returns (head: string)
    requires In(ls, p)
    ensures Offset(ls, p) < |Lined(ls)| && head == Lined(ls)[..Offset(ls, p)]
    ensures head == Lined(ls[..p.row]) + ls[p.row][..p.col]
  {
    LinedCut(ls, p);
    head := Lined(ls[..p.row]) + ls[p.row][..p.col];
  }

  lemma LinedTail(ls: Lines, p: Pos) returns (tail: string)
    requires In(ls, p)
    ensures Offset(ls, p) < |Lined(ls)| && tail == Lined(ls)[Offset(ls, p)..]
    ensures tail == (ls[p.row][p.col..] + "\n") + Lined(ls[p.row + 1..])
  {
    LinedCut(ls, p);
    tail := (ls[p.row][p.col..] + "\n") + Lined(ls[p.row + 1..]);
  }

  lemma RemovedParts(ls: Lines, from: Pos, to: Pos, head: string, tail: string)
    requires In(ls, from) && In(ls, to) && from.row <= to.row
    requires head == Lined(ls[..from.row]) + ls[from.row][..from.col]
    requires tail == (ls[to.row][to.col..] + "\n") + Lined(ls[to.row + 1..])
    ensures Lined(Removed(ls, from, to)) == head + tail
  {
    var a, b := ls[..from.row], ls[to.row + 1..];
    var x, y := ls[from.row][..from.col], ls[to.row][to.col..];
    LinedSplit(a, x + y, b);
    JoinedLine(Lined(a), x, y, Lined(b));
  }

  lemma RemovedIsCut(ls: Lines, from: Pos, to: Pos)
    requires Ok(ls) && In(ls, from) && In(ls, to) && Before(from, to)
    ensures Ok(Removed(ls, from, to)) && In(Removed(ls, from, to), from)
    ensures Offset(Removed(ls, from, to), from) == Offset(ls, from) < Offset(ls, to) < |Lined(ls)|
    ensures Lined(Removed(ls, from, to)) == Lined(ls)[..Offset(ls, from)] + Lined(ls)[Offset(ls, to)..]
  {
    RemovedLined(ls, from, to);
    LinedCut(ls, to);
    OffsetGrows(ls, from, to);
    RemovedOk(ls, from, to);
  }

  lemma JoinedLine(a: string, x: string, y: string, b: string)
    ensures a + (x + y + "\n") + b == (a + x) + ((y + "\n") + b)
  {
    assert x + y + "\n" == x + (y + "\n");
    Rebracket(a, x, y + "\n", b);
  }

  lemma RemovedOk(ls: Lines, from: Pos, to: Pos)
    requires Ok(ls) && In(ls, from) && In(ls, to) && from.row <= to.row
    ensures Ok(Removed(ls, from, to)) && In(Removed(ls, from, to), from)
    ensures Removed(ls, from, to)[..from.row] == ls[..from.row]
  {}

  lemma OffsetGrows(ls: Lines, p: Pos, q: Pos)
    requires In(ls, p) && In(ls, q) && Before(p, q)
    ensures Offset(ls, p) < Offset(ls, q)
  {
    if p.row < q.row {
      var a, s, m := ls[..p.row], ls[p.row], ls[p.row + 1..q.row];
      assert ls[..q.row] == a + [s] + m;
      LinedConcat(a + [s], m);
      LinedConcat(a, [s]);
      LinedOne(s);
    }
  }

  /** The text between two positions, put together line by line. */
  function Between(ls: Lines, from: Pos, to: Pos): string
    requires In(ls, from) && In(ls, to) && from.row <= to.row && (from.row == to.row ==> from.col <= to.col)
  {
    if from.row == to.row then ls[from.row][from.col..to.col]
    else ls[from.row][from.col..] + "\n" + Lined(ls[from.row + 1..to.row]) + ls[to.row][..to.col]
  }

  lemma BetweenIsSlice(ls: Lines, from: Pos, to: Pos)
    requires Ok(ls) && In(ls, from) && In(ls, to) && Before(from, to)
    ensures Offset(ls, from) < Offset(ls, to) < |Lined(ls)|
    ensures Between(ls, from, to) == Lined(ls)[Offset(ls, from)..Offset(ls, to)]
  {
    LinedCut(ls, from);
    LinedCut(ls, to);
    OffsetGrows(ls, from, to);
    var l, o, n := Lined(ls), Offset(ls, from), Offset(ls, to);
    assert l[..n][..o] == l[..o] && l[..n][o..] == l[o..n];
    BeforeTo(ls, from, to);
    CutAt(l[..o], Between(ls, from, to));
  }

  /** The text before the second position is the text before the first and what lies between. */
  lemma BeforeTo(ls: Lines, from: Pos, to: Pos)
    requires In(ls, from) && In(ls, to) && Before(from, to)
    ensures Lined(ls[..to.row]) + ls[to.row][..to.col]
         == (Lined(ls[..from.row]) + ls[from.row][..from.col]) + Between(ls, from, to)
  {
    var a, s, z := ls[..from.row], ls[from.row], ls[to.row][..to.col];
    var x, y := s[..from.col], s[from.col..] + "\n";
    if from.row < to.row {
      var m := ls[from.row + 1..to.row];
      assert ls[..to.row] == a + [s] + m && s + "\n" == x + y;
      LinedSplit(a, s, m);
      Rebracket(Lined(a), x, y, Lined(m));
      assert ((Lined(a) + x) + (y + Lined(m))) + z == (Lined(a) + x) + (y + Lined(m) + z);
    } else {
      assert z == x + s[from.col..to.col];
    }
  }

  // ---------------------------------------------------------------- what editing means

  lemma SpliceJoin(a: Lines, b: Lines, o: nat, text: string)
    requires a != [] && b != [] && o < |Lined(a)| && Lined(b) == Lined(a)[..o] + text + Lined(a)[o..]
    ensures o <= |Join(a)| && Join(b) == Join(a)[..o] + text + Join(a)[o..]
  {
    JoinIsLined(a);
    JoinIsLined(b);
    assert Lined(a)[o..] == Join(a)[o..] + "\n";
    assert Lined(b) == (Join(a)[..o] + text + Join(a)[o..]) + "\n";
    SameLine(Join(b), Join(a)[..o] + text + Join(a)[o..]);
  }

  /** Inserting a text at a (row, column) inserts it at that place of the flat text. */
  lemma InsertRefinesSplice(ls: Lines, p: Pos, text: string)
    requires Ok(ls) && In(ls, p)
    ensures var r := TypedAll(ls, p, text);
            var o := Offset(ls, p);
            Ok(r) && o <= |Join(ls)| && Join(r) == Join(ls)[..o] + text + Join(ls)[o..]
  {
    TypedAllIsSplice(ls, p, text);
    SpliceJoin(ls, TypedAll(ls, p, text), Offset(ls, p), text);
  }

  /** Removing a range of (row, column)s removes that range of the flat text. */
  lemma RemoveRefinesCut(ls: Lines, from: Pos, to: Pos)
    requires Ok(ls) && In(ls, from) && In(ls, to) && Before(from, to)
    ensures var r := Removed(ls, from, to);
            var o, n := Offset(ls, from), Offset(ls, to);
            Ok(r) && o < n <= |Join(ls)| && Join(r) == Join(ls)[..o] + Join(ls)[n..]
  {
    RemovedIsCut(ls, from, to);
    JoinIsLined(ls);
    var r := Removed(ls, from, to);
    JoinIsLined(r);
    var o, n := Offset(ls, from), Offset(ls, to);
    assert Lined(ls)[n..] == Join(ls)[n..] + "\n";
    assert Lined(r) == (Join(ls)[..o] + Join(ls)[n..]) + "\n";
    SameLine(Join(r), Join(ls)[..o] + Join(ls)[n..]);
  }

  /** Putting a removed selection back where it was restores every line. */
  lemma RemoveThenInsert(ls: Lines, from: Pos, to: Pos)
    requires Ok(ls) && In(ls, from) && In(ls, to) && Before(from, to)
    ensures var r := Removed(ls, from, to);
            Ok(r) && In(r, from) && TypedAll(r, from, Between(ls, from, to)) == ls
  {
    RemovedIsCut(ls, from, to);
    BetweenIsSlice(ls, from, to);
    var r, t := Removed(ls, from, to), Between(ls, from, to);
    TypedAllIsSplice(r, from, t);
    var l, o, n := Lined(ls), Offset(ls, from), Offset(ls, to);
    Mended(l, o, n);
    LinedInjective(TypedAll(r, from, t), ls);
  }

  lemma Mended(l: string, o: nat, n: nat)
    requires o <= n <= |l|
    ensures var c := l[..o] + l[n..]; c[..o] + l[o..n] + c[o..] == l
  {}

  // ---------------------------------------------------------------- loading a text

  const TEXTAREA_MAX_LINES: nat := 4096

  /** Newlines can be counted from the front. */
  lemma {:induction false} NewlinesHead(t: string)
    requires t != ""
    ensures Newlines(t) == (if t[0] == '\n' then 1 else 0) + Newlines(t[1..])
    decreases |t|
  {
    if |t| > 1 {
      NewlinesHead(t[..|t| - 1]);
      assert t[1..][..|t| - 2] == t[..|t| - 1][1..];
    }
  }

  /** Length of the first line. */
  function FirstLine(t: string): (n: nat)
    ensures n <= |t| && NoNewline(t[..n]) && (n < |t| ==> t[n] == '\n')
  {
    if t == "" || t[0] == '\n' then 0
    else
      var n := FirstLine(t[1..]);
      assert t[..n + 1] == [t[0]] + t[1..][..n];
      n + 1
  }

  /** The lines a loop over a text makes: it stops when the text runs out, so a newline at the
      end starts no line, and after `k` lines. */
  function Loaded(t: string, k: nat): (ls: Lines)
    ensures |ls| <= k && forall i :: 0 <= i < |ls| ==> NoNewline(ls[i])
    decreases k
  {
    if t == "" || k == 0 then []
    else
      var n := FirstLine(t);
      [t[..n]] + if n < |t| then Loaded(t[n + 1..], k - 1) else []
  }

  function SetLines(t: string): (ls: Lines)
    ensures Ok(ls) && |ls| <= TEXTAREA_MAX_LINES
  {
    if t == "" then [""] else Loaded(t, TEXTAREA_MAX_LINES)
  }

  lemma {:induction false} NewlinesFirst(t: string)
    ensures var n := FirstLine(t);
            Newlines(t) == if n < |t| then 1 + Newlines(t[n + 1..]) else 0
  {
    if t != "" {
      NewlinesHead(t);
      if t[0] != '\n' {
        NewlinesFirst(t[1..]);
        var n := FirstLine(t[1..]);
        assert n < |t[1..]| ==> t[1..][n + 1..] == t[n + 2..];
      }
    }
  }

  lemma JoinCons(s: string, ls: Lines)
    requires ls != []
    ensures Join([s] + ls) == s + "\n" + Join(ls)
  {
    LinedOne(s);
    LinedConcat([s], ls[..|ls| - 1]);
    assert ([s] + ls)[..|ls|] == [s] + ls[..|ls| - 1];
  }

  /** The last line loaded: nothing is left, or there is no room. */
  lemma LoadedLast(t: string, k: nat)
    requires t != "" && k > 0 && (FirstLine(t) + 1 >= |t| || k == 1)
    ensures Loaded(t, k) == [t[..FirstLine(t)]] && Join(Loaded(t, k)) == t[..FirstLine(t)]
    ensures Join(Loaded(t, k)) == t <==> FirstLine(t) == |t|
  {
    var n := FirstLine(t);
    assert n < |t| ==> Loaded(t[n + 1..], k - 1) == [];
    assert Lined([t[..n]][..0]) == "";
    assert t[..|t|] == t;
  }

  lemma {:induction false} LoadedExactly(t: string, k: nat)
    requires t != "" && k > 0
    ensures Loaded(t, k) != []
    ensures Join(Loaded(t, k)) == t <==> t[|t| - 1] != '\n' && Newlines(t) < k
    decreases k
  {
    var n := FirstLine(t);
    if n + 1 >= |t| || k == 1 {
      LoadedLastExactly(t, k);
    } else {
      LoadedExactly(t[n + 1..], k - 1);
      LoadedCons(t, k);
      LoadedMore(t, k);
      NewlinesFirst(t);
    }
  }

  lemma LoadedLastExactly(t: string, k: nat)
    requires t != "" && k > 0 && (FirstLine(t) + 1 >= |t| || k == 1)
    ensures Loaded(t, k) != []
    ensures Join(Loaded(t, k)) == t <==> t[|t| - 1] != '\n' && Newlines(t) < k
  {
    var n := FirstLine(t);
    NewlinesFirst(t);
    LoadedLast(t, k);
    assert n == |t| ==> t[..n][n - 1] == t[n - 1];
  }

  lemma LoadedCons(t: string, k: nat)
    requires k > 1 && FirstLine(t) + 1 < |t|
    ensures var n := FirstLine(t);
            Loaded(t, k) == [t[..n]] + Loaded(t[n + 1..], k - 1) && t == t[..n] + "\n" + t[n + 1..]
  {
    NewlineSplits(t, FirstLine(t));
  }

  lemma NewlineSplits(t: string, n: nat)
    requires n < |t| && t[n] == '\n'
    ensures t == t[..n] + "\n" + t[n + 1..]
  {
    assert t[n..n + 1] == "\n";
  }

  lemma LoadedMore(t: string, k: nat)
    requires k > 1 && FirstLine(t) + 1 < |t| && Loaded(t[FirstLine(t) + 1..], k - 1) != []
    ensures var rest := t[FirstLine(t) + 1..];
            Join(Loaded(t, k)) == t <==> Join(Loaded(rest, k - 1)) == rest
  {
    var n := FirstLine(t);
    var s, rest := t[..n], t[n + 1..];
    LoadedCons(t, k);
    JoinCons(s, Loaded(rest, k - 1));
    PrefixCancels(s + "\n", Join(Loaded(rest, k - 1)), rest);
  }

  lemma PrefixCancels(p: string, a: string, b: string)
    ensures p + a == p + b <==> a == b
  {
    CutAt(p, a);
    CutAt(p, b);
  }

  /** A text read back is the text that was set exactly when it does not end in a newline and has
      no more lines than the array holds. */
  lemma SetThenGet(t: string)
    ensures Join(SetLines(t)) == t <==>
      (t == "" || t[|t| - 1] != '\n') && Newlines(t) < TEXTAREA_MAX_LINES
  {
    if t != "" {
      LoadedExactly(t, TEXTAREA_MAX_LINES);
    }
  }

  /** Each newline typed adds one line. */
  lemma {:induction false} TypedAllCount(ls: Lines, p: Pos, text: string)
    requires Ok(ls) && In(ls, p)
    ensures |TypedAll(ls, p, text)| == |ls| + Newlines(text)
    decreases |text|
  {
    if text != "" {
      NewlinesHead(text);
      TypedIsSplice(ls, p, text[0]);
      TypedAllCount(Typed(ls, p, text[0]), After(p, text[0]), text[1..]);
    }
  }

  // ---------------------------------------------------------------- a full array

  /** What is typed of a text when only `k` more rows can be reached: it stops at the newline that
      would go further. */
  function Reaching(text: string, k: nat): string {
    if text == "" then ""
    else if text[0] != '\n' then [text[0]] + Reaching(text[1..], k)
    else if k == 0 then ""
    else "\n" + Reaching(text[1..], k - 1)
  }

  lemma {:induction false} ReachingAll(text: string, k: nat)
    requires Newlines(text) <= k
    ensures Reaching(text, k) == text
  {
    if text != "" {
      NewlinesHead(text);
      ReachingAll(text[1..], if text[0] == '\n' then k - 1 else k);
    }
  }

  /** Every line broken on the way finds a free slot, for `count` lines and typing from `row` on. */
  predicate SlotsFree(count: nat, row: nat, text: string)
    decreases |text|
  {
    text == "" ||
    if text[0] != '\n' then SlotsFree(count, row, text[1..])
    else row + 1 >= TEXTAREA_MAX_LINES || (count < TEXTAREA_MAX_LINES && SlotsFree(count + 1, row + 1, text[1..]))
  }

  /** Slots are free exactly when the rows that can be reached fit the array; at the last line
      they always are. */
  lemma {:induction false} SlotsFreeExactly(count: nat, row: nat, text: string)
    requires row < count <= TEXTAREA_MAX_LINES
    ensures SlotsFree(count, row, text) <==>
            count + Min(Newlines(text), TEXTAREA_MAX_LINES - 1 - row) <= TEXTAREA_MAX_LINES
    ensures row == count - 1 ==> SlotsFree(count, row, text)
    decreases |text|
  {
    if text != "" {
      NewlinesHead(text);
      if text[0] != '\n' {
        SlotsFreeExactly(count, row, text[1..]);
      } else if row + 1 < TEXTAREA_MAX_LINES && count < TEXTAREA_MAX_LINES {
        SlotsFreeExactly(count + 1, row + 1, text[1..]);
      }
    }
  }

  /** One character of a text that is typed as far as the array reaches. */
  lemma TypedReaching(ls: Lines, p: Pos, text: string, k: nat)
    requires Ok(ls) && In(ls, p) && text != "" && (text[0] == '\n' ==> k > 0)
    ensures var r, q := Typed(ls, p, text[0]), After(p, text[0]);
            && Ok(r) && In(r, q) && TypedAll(ls, p, Reaching(text, k)) ==
               TypedAll(r, q, Reaching(text[1..], if text[0] == '\n' then k - 1 else k))
  {
    var more := Reaching(text[1..], if text[0] == '\n' then k - 1 else k);
    ReachingFirst(text, k);
    TypedAllFirst(ls, p, text[0], more);
  }

  /** Lines and a place at which typing the rest of a text leads to `goal`. */
  ghost predicate Typing(ls: Lines, p: Pos, rest: string, goal: Lines) {
    && Ok(ls) && In(ls, p) && |ls| <= TEXTAREA_MAX_LINES && SlotsFree(|ls|, p.row, rest)
    && TypedAll(ls, p, Reaching(rest, TEXTAREA_MAX_LINES - 1 - p.row)) == goal
  }

  lemma TypingStep(ls: Lines, p: Pos, rest: string, goal: Lines)
    requires Typing(ls, p, rest, goal) && rest != "" && (rest[0] == '\n' ==> p.row + 1 < TEXTAREA_MAX_LINES)
    ensures rest[0] == '\n' ==> |ls| < TEXTAREA_MAX_LINES
    ensures Typing(Typed(ls, p, rest[0]), After(p, rest[0]), rest[1..], goal)
  {
    TypedReaching(ls, p, rest, TEXTAREA_MAX_LINES - 1 - p.row);
    TypedCount(ls, p, rest[0]);
  }

  lemma TypedCount(ls: Lines, p: Pos, c: char)
    requires In(ls, p)
    ensures |Typed(ls, p, c)| == |ls| + if c == '\n' then 1 else 0
  {}

  lemma ReachingFirst(text: string, k: nat)
    requires text != "" && (text[0] == '\n' ==> k > 0)
    ensures Reaching(text, k) == [text[0]] + Reaching(text[1..], if text[0] == '\n' then k - 1 else k)
  {}

  lemma TypedAllFirst(ls: Lines, p: Pos, c: char, more: string)
    requires Ok(ls) && In(ls, p)
    ensures Ok(Typed(ls, p, c)) && In(Typed(ls, p, c), After(p, c))
    ensures TypedAll(ls, p, [c] + more) == TypedAll(Typed(ls, p, c), After(p, c), more)
  {
    TypedIsSplice(ls, p, c);
    assert ([c] + more)[1..] == more;
  }

  /** Typing `t` at `from` makes the lines `ls`, and the array has room for it. */
  ghost predicate PastesBack(r: Lines, from: Pos, t: string, ls: Lines) {
    && Ok(r) && In(r, from) && |r| <= TEXTAREA_MAX_LINES && SlotsFree(|r|, from.row, t)
    && TypedAll(r, from, Reaching(t, TEXTAREA_MAX_LINES - 1 - from.row)) == ls
  }

  /** A removed selection can always be put back. */
  lemma PasteBack(ls: Lines, from: Pos, to: Pos, r: Lines, t: string)
    requires Ok(ls) && In(ls, from) && In(ls, to) && Before(from, to) && |ls| <= TEXTAREA_MAX_LINES
    requires r == Removed(ls, from, to) && t == Between(ls, from, to)
    ensures PastesBack(r, from, t, ls)
  {
    RemoveThenInsert(ls, from, to);
    PasteFits(ls, from, r, t);
  }

  lemma NothingPasted(ls: Lines, p: Pos)
    requires Ok(ls) && In(ls, p) && |ls| <= TEXTAREA_MAX_LINES
    ensures PastesBack(ls, p, "", ls) && Between(ls, p, p) == ""
  {}

  lemma PasteFits(ls: Lines, from: Pos, r: Lines, t: string)
    requires Ok(r) && In(r, from) && |ls| <= TEXTAREA_MAX_LINES && TypedAll(r, from, t) == ls
    ensures PastesBack(r, from, t, ls)
  {
    TypedAllCount(r, from, t);
    SlotsFreeExactly(|r|, from.row, t);
    ReachingAll(t, TEXTAREA_MAX_LINES - 1 - from.row);
  }
}
