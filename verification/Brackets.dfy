/** Bracket matching of apps/text_editor/editor.c, over the text buffer. */
module Brackets {
  import opened Options
  import opened TextBuffer

  predicate IsOpen(c: char) {
    c == '(' || c == '[' || c == '{'
  }

  predicate IsClose(c: char) {
    c == ')' || c == ']' || c == '}'
  }

  function Closer(c: char): char
    requires IsOpen(c)
  {
    if c == '(' then ')' else if c == '[' then ']' else '}'
  }

  function Opener(c: char): char
    requires IsClose(c)
  {
    if c == ')' then '(' else if c == ']' then '[' else '{'
  }

  /** Nesting level of one kind of bracket before position `i`. */
  function Level(s: string, open: char, i: nat): int
    requires i <= |s| && IsOpen(open)
  {
    if i == 0 then 0
    else Level(s, open, i - 1)
         + (if s[i - 1] == open then 1 else if s[i - 1] == Closer(open) then -1 else 0)
  }

  /** `p` and `q` are a pair: the level returns to what it was at `p` for the first time at `q`. */
  ghost predicate Pair(s: string, open: char, p: nat, q: nat)
    requires IsOpen(open)
  {
    && p < q < |s| && s[p] == open && s[q] == Closer(open)
    && Level(s, open, q + 1) == Level(s, open, p)
    && forall j :: p < j <= q ==> Level(s, open, j) > Level(s, open, p)
  }

  lemma PairUnique(s: string, open: char, p: nat, q: nat, p': nat, q': nat)
    requires IsOpen(open) && Pair(s, open, p, q) && Pair(s, open, p', q')
    ensures p == p' <==> q == q'
  {}

  /** What the search from `p` may answer. */
  ghost predicate Answers(s: string, p: nat, r: Option<nat>) {
    if p < |s| && IsOpen(s[p]) then
      match r
      case Some(q) => Pair(s, s[p], p, q)
      case None => forall q :: !Pair(s, s[p], p, q)
    else if p < |s| && IsClose(s[p]) then
      match r
      case Some(q) => Pair(s, Opener(s[p]), q, p)
      case None => forall q :: !Pair(s, Opener(s[p]), q, p)
    else
      r == None
  }

  /** If the search from `p` answers `q` then the search from `q` answers `p`. */
  lemma MatchingIsInvolution(s: string, p: nat, q: nat, r: Option<nat>)
    requires Answers(s, p, Some(q)) && Answers(s, q, r)
    ensures r == Some(p)
  {
    if IsOpen(s[p]) {
      assert Pair(s, Opener(s[q]), p, q);
      if r.Some? {
        PairUnique(s, s[p], p, q, r.value, q);
      }
    } else {
      assert Pair(s, s[q], q, p);
      if r.Some? {
        PairUnique(s, s[q], q, p, q, r.value);
      }
    }
  }

  /** The forward search: the first position where the level falls back. */
  method SearchForward(b: Buffer, pos: nat, open: char) returns (r: Option<nat>)
    requires b.Valid() && pos < |b.Text()| && IsOpen(open) && b.Text()[pos] == open
    ensures Answers(b.Text(), pos, r)
  {
    ghost var s := b.Text();
    var depth := 1;
    var i := pos + 1;
    while i < b.Length()
      invariant pos < i <= |s|
      invariant depth == Level(s, open, i) - Level(s, open, pos)
      invariant forall j :: pos < j <= i ==> Level(s, open, j) > Level(s, open, pos)
    {
      var ch := b.CharAt(i);
      if ch == open {
        depth := depth + 1;
      }
      if ch == Closer(open) {
        depth := depth - 1;
        if depth == 0 {
          return Some(i);
        }
      }
      i := i + 1;
    }
    r := None;
  }

  /** The backward search: the last position where the level is what it becomes after `pos`. */
  method SearchBackward(b: Buffer, pos: nat, open: char) returns (r: Option<nat>)
    requires b.Valid() && pos < |b.Text()| && IsOpen(open) && b.Text()[pos] == Closer(open)
    ensures Answers(b.Text(), pos, r)
  {
    ghost var s := b.Text();
    var depth := 1;
    var i: nat := pos;
    while i > 0
      invariant i <= pos
      invariant depth == Level(s, open, i) - Level(s, open, pos + 1)
      invariant forall j :: i <= j <= pos ==> Level(s, open, j) > Level(s, open, pos + 1)
    {
      var ch := b.CharAt(i - 1);
      if ch == Closer(open) {
        depth := depth + 1;
      }
      if ch == open {
        depth := depth - 1;
        if depth == 0 {
          return Some(i - 1);
        }
      }
      i := i - 1;
    }
    r := None;
  }

  /** The bracket matching the one under the cursor. */
  method FindMatchingBracket(b: Buffer) returns (r: Option<nat>)
    requires b.Valid()
    ensures Answers(b.Text(), b.cursor, r)
  {
    var pos := b.cursor;
    var c := b.CharAt(pos);
    if IsOpen(c) {
      r := SearchForward(b, pos, c);
    } else if IsClose(c) {
      r := SearchBackward(b, pos, Opener(c));
    } else {
      r := None;
    }
  }
}
