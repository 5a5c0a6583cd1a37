/** Line numbers over a flat text: the line table of apps/text_editor/buffer.c as a value. */
module LineIndex {

  /** Start offsets of the lines of `s`: 0, then one past each newline. */
  function LineStarts(s: string): (r: seq<nat>)
    ensures |r| >= 1
  {
    if s == "" then [0]
    else LineStarts(s[..|s| - 1]) + if s[|s| - 1] == '\n' then [|s|] else []
  }

  function Newlines(s: string): nat {
    if s == "" then 0
    else Newlines(s[..|s| - 1]) + if s[|s| - 1] == '\n' then 1 else 0
  }

  predicate StartsLine(s: string, p: nat) {
    p <= |s| && (p == 0 || s[p - 1] == '\n')
  }

  lemma {:induction false} LineStartsMembers(s: string)
    ensures LineStarts(s)[0] == 0
    ensures forall p: nat :: p in LineStarts(s) <==> StartsLine(s, p)
  {
    if s != "" {
      var t := s[..|s| - 1];
      LineStartsMembers(t);
      forall p: nat
        ensures p in LineStarts(s) <==> StartsLine(s, p)
      {
        assert p in LineStarts(s) <==> p in LineStarts(t) || (p == |s| && s[|s| - 1] == '\n');
      }
    }
  }

  /** The table is strictly increasing, and lists exactly the positions where a line starts. */
  lemma {:induction false} LineStartsExact(s: string)
    ensures LineStarts(s)[0] == 0
    ensures forall i, j :: 0 <= i < j < |LineStarts(s)| ==> LineStarts(s)[i] < LineStarts(s)[j]
    ensures forall p: nat :: p in LineStarts(s) <==> StartsLine(s, p)
  {
    LineStartsMembers(s);
    if s != "" {
      var t := s[..|s| - 1];
      LineStartsExact(t);
      forall i | 0 <= i < |LineStarts(t)|
        ensures LineStarts(t)[i] < |s|
      {
        assert StartsLine(t, LineStarts(t)[i]);
      }
    }
  }

  /** Entry k of the table is the start of the line with k newlines before it. */
  lemma {:induction false} LineStartsCount(s: string)
    ensures |LineStarts(s)| == Newlines(s) + 1
    ensures forall k :: 0 <= k < |LineStarts(s)| ==>
      LineStarts(s)[k] <= |s| && Newlines(s[..LineStarts(s)[k]]) == k
  {
    if s != "" {
      var t := s[..|s| - 1];
      LineStartsCount(t);
      forall k | 0 <= k < |LineStarts(s)|
        ensures LineStarts(s)[k] <= |s| && Newlines(s[..LineStarts(s)[k]]) == k
      {
        if k < |LineStarts(t)| {
          assert s[..LineStarts(t)[k]] == t[..LineStarts(t)[k]];
        } else {
          assert s[..|s|] == s;
        }
      }
    }
  }

  lemma NewlinesNext(s: string, p: nat)
    requires p < |s|
    ensures Newlines(s[..p + 1]) == Newlines(s[..p]) + if s[p] == '\n' then 1 else 0
  {
    assert s[..p + 1][..p] == s[..p];
  }

  lemma {:induction false} NewlinesMonotone(s: string, a: nat, b: nat)
    requires a <= b <= |s|
    ensures Newlines(s[..a]) <= Newlines(s[..b])
    decreases b
  {
    if a < b {
      NewlinesMonotone(s, a, b - 1);
      NewlinesNext(s, b - 1);
    }
  }

  /** The line a position is on: the number of newlines before it. */
  function LineOf(s: string, pos: nat): (line: nat)
    ensures line < |LineStarts(s)|
  {
    var p := if pos < |s| then pos else |s|;
    LineStartsCount(s);
    NewlinesMonotone(s, p, |s|);
    assert s[..|s|] == s;
    Newlines(s[..p])
  }

  /** What a binary search over the table tests for. */
  predicate Brackets(starts: seq<nat>, k: nat, pos: nat)
    requires k < |starts|
  {
    starts[k] <= pos && (k + 1 >= |starts| || starts[k + 1] > pos)
  }

  /** The bracketing entry is unique: it is the line of the position. */
  lemma BracketIsLine(s: string, k: nat, pos: nat)
    requires k < |LineStarts(s)|
    ensures Brackets(LineStarts(s), k, pos) <==> k == LineOf(s, pos)
  {
    var p := if pos < |s| then pos else |s|;
    LineStartsCount(s);
    LineStartsExact(s);
    var line := LineOf(s, pos);
    if LineStarts(s)[k] <= pos {
      NewlinesMonotone(s, LineStarts(s)[k], p);
    } else {
      NewlineAt(s, LineStarts(s)[k], p);
    }
    if k + 1 < |LineStarts(s)| {
      if LineStarts(s)[k + 1] <= pos {
        NewlinesMonotone(s, LineStarts(s)[k + 1], p);
      } else {
        NewlineAt(s, LineStarts(s)[k + 1], p);
      }
    } else {
      assert s[..|s|] == s;
      NewlinesMonotone(s, p, |s|);
    }
  }

  /** A position before a line start has fewer newlines before it. */
  lemma NewlineAt(s: string, start: nat, p: nat)
    requires StartsLine(s, start) && p < start
    ensures Newlines(s[..p]) < Newlines(s[..start])
  {
    NewlinesMonotone(s, p, start - 1);
    NewlinesNext(s, start - 1);
  }

  function ColOf(s: string, pos: nat): (col: nat) {
    BracketIsLine(s, LineOf(s, pos), pos);
    pos - LineStarts(s)[LineOf(s, pos)]
  }

  /** Length of a line without its newline. */
  function LineLen(s: string, line: nat): (n: nat)
    requires line < |LineStarts(s)|
  {
    LineStartsExact(s);
    LineStartsCount(s);
    if line + 1 < |LineStarts(s)| then LineStarts(s)[line + 1] - 1 - LineStarts(s)[line]
    else |s| - LineStarts(s)[line]
  }

  /** Offset of a (line, column) pair; out-of-range lines clamp, and so do columns, with a
      negative column taken (as an unsigned value) to be past the end. */
  function PosOf(s: string, line: int, col: int): nat {
    var l := if line < 0 then 0 else if line >= |LineStarts(s)| then |LineStarts(s)| - 1 else line;
    LineStarts(s)[l] + if col < 0 || col > LineLen(s, l) then LineLen(s, l) else col
  }

  lemma PosOfLine(s: string, line: nat, col: nat)
    requires line < |LineStarts(s)| && col <= LineLen(s, line)
    ensures PosOf(s, line, col) <= |s|
    ensures LineOf(s, PosOf(s, line, col)) == line
    ensures ColOf(s, PosOf(s, line, col)) == col
  {
    LineStartsCount(s);
    LineStartsExact(s);
    BracketIsLine(s, line, PosOf(s, line, col));
  }

  /** Position to (line, column) and back is the identity on positions of the text. */
  lemma PositionRoundTrip(s: string, pos: nat)
    requires pos <= |s|
    ensures ColOf(s, pos) <= LineLen(s, LineOf(s, pos))
    ensures PosOf(s, LineOf(s, pos), ColOf(s, pos)) == pos
  {
    BracketIsLine(s, LineOf(s, pos), pos);
  }
}
