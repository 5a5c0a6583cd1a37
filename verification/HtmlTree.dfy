/** Tree building in apps/browser/html_parser.c as a function: the open elements are the last
    children down to a depth, and a forest's tokens build that forest again. */
module HtmlTree {
  import opened HtmlText
  import opened HtmlLexer

  datatype Tree =
    | Element(tag: text, attrs: seq<Attr>, kids: seq<Tree>)
    | TextNode(text: text)
    | CommentNode(text: text)

  type forest = seq<Tree>

  // ---------------------------------------------------------------- open elements

  /** Elements lead from the top along last children to the given depth. */
  predicate Path(f: forest, depth: nat)
    decreases depth
  {
    depth > 0 ==> f != [] && f[|f| - 1].Element? && Path(f[|f| - 1].kids, depth - 1)
  }

  /** The innermost of the `depth` open elements. */
  function OpenAt(f: forest, depth: nat): (e: Tree)
    requires depth > 0 && Path(f, depth)
    ensures e.Element?
    decreases depth
  {
    var last := f[|f| - 1];
    if depth == 1 then last else OpenAt(last.kids, depth - 1)
  }

  /** The forest with `more` added inside its `depth`-th open element. */
  function Added(f: forest, depth: nat, more: forest): (r: forest)
    requires Path(f, depth)
    ensures Path(r, depth)
    decreases depth
  {
    if depth == 0 then f + more
    else
      var last := f[|f| - 1];
      f[..|f| - 1] + [Element(last.tag, last.attrs, Added(last.kids, depth - 1, more))]
  }

  lemma {:induction false} PathUp(f: forest, depth: nat, d: nat)
    requires Path(f, depth) && d <= depth
    ensures Path(f, d)
    decreases d
  {
    if d > 0 {
      PathUp(f[|f| - 1].kids, depth - 1, d - 1);
    }
  }

  /** The depth left after an end tag: the innermost open element of that name, at or above `d`,
      is closed with everything inside it; with none, nothing is. */
  function Closed(f: forest, depth: nat, d: nat, tag: text): (r: nat)
    requires Path(f, depth) && d <= depth
    ensures r <= depth
    decreases d
  {
    if d == 0 then depth
    else
      PathUp(f, depth, d);
      if SameName(OpenAt(f, d).tag, tag) then d - 1 else Closed(f, depth, d - 1, tag)
  }

  /** The open element at depth `k` has the given name. */
  predicate OpenNamed(f: forest, depth: nat, k: nat, tag: text)
    requires Path(f, depth) && 0 < k <= depth
  {
    PathUp(f, depth, k);
    SameName(OpenAt(f, k).tag, tag)
  }

  /** An end tag closes down to the innermost open element of its name, and nothing when none has it. */
  lemma {:induction false} ClosedIsInnermost(f: forest, depth: nat, d: nat, tag: text)
    requires Path(f, depth) && d <= depth
    ensures var r := Closed(f, depth, d, tag);
            if exists k :: 0 < k <= d && OpenNamed(f, depth, k, tag)
            then r < d && OpenNamed(f, depth, r + 1, tag) && forall k :: r + 1 < k <= d ==> !OpenNamed(f, depth, k, tag)
            else r == depth
    decreases d
  {
    if d > 0 {
      ClosedIsInnermost(f, depth, d - 1, tag);
      assert OpenNamed(f, depth, d, tag) || !OpenNamed(f, depth, d, tag);
    }
  }

  // ---------------------------------------------------------------- tokens to trees

  const VOID_COUNT := 14

  /** The names of elements that have no content. */
  function VoidName(i: nat): text
    requires i < VOID_COUNT
  {
    if i == 0 then [0x61, 0x72, 0x65, 0x61]  // area
    else if i == 1 then [0x62, 0x61, 0x73, 0x65]  // base
    else if i == 2 then [0x62, 0x72]  // br
    else if i == 3 then [0x63, 0x6F, 0x6C]  // col
    else if i == 4 then [0x65, 0x6D, 0x62, 0x65, 0x64]  // embed
    else if i == 5 then [0x68, 0x72]  // hr
    else if i == 6 then [0x69, 0x6D, 0x67]  // img
    else if i == 7 then [0x69, 0x6E, 0x70, 0x75, 0x74]  // input
    else if i == 8 then [0x6C, 0x69, 0x6E, 0x6B]  // link
    else if i == 9 then [0x6D, 0x65, 0x74, 0x61]  // meta
    else if i == 10 then [0x70, 0x61, 0x72, 0x61, 0x6D]  // param
    else if i == 11 then [0x73, 0x6F, 0x75, 0x72, 0x63, 0x65]  // source
    else if i == 12 then [0x74, 0x72, 0x61, 0x63, 0x6B]  // track
    else [0x77, 0x62, 0x72]  // wbr
  }

  const SCRIPT: text := [0x73, 0x63, 0x72, 0x69, 0x70, 0x74]
  const STYLE: text := [0x73, 0x74, 0x79, 0x6C, 0x65]

  predicate IsVoid(tag: text) {
    exists i :: 0 <= i < VOID_COUNT && SameName(tag, VoidName(i))
  }

  predicate IsRaw(tag: text) {
    SameName(tag, SCRIPT) || SameName(tag, STYLE)
  }

  /** The tree so far and how many elements are open. */
  datatype Page = Page(trees: forest, depth: nat)

  predicate Good(p: Page) {
    Path(p.trees, p.depth)
  }

  function With(p: Page, t: Tree): (r: Page)
    requires Good(p)
    ensures Good(r)
  {
    Page(Added(p.trees, p.depth, [t]), p.depth)
  }

  /** An element is added and left open. */
  function Opened(p: Page, tag: text, attrs: seq<Attr>): (r: Page)
    requires Good(p)
    ensures Good(r)
  {
    AddedOpens(p.trees, p.depth, Element(tag, attrs, []));
    Page(Added(p.trees, p.depth, [Element(tag, attrs, [])]), p.depth + 1)
  }

  lemma {:induction false} AddedOpens(f: forest, depth: nat, e: Tree)
    requires Path(f, depth) && e.Element?
    ensures Path(Added(f, depth, [e]), depth + 1) && OpenAt(Added(f, depth, [e]), depth + 1) == e
    decreases depth
  {
    if depth > 0 {
      AddedOpens(f[|f| - 1].kids, depth - 1, e);
    }
  }

  /** What a token does to the page. The content of a raw-text element, which no token holds,
      is given beside it. */
  function Build(p: Page, t: Token, raw: text): (r: Page)
    requires Good(p)
    ensures Good(r)
  {
    match t
    case Comment(s) => With(p, CommentNode(s))
    case Text(s) => if Blank(s) then p else With(p, TextNode(s))
    case Tag(CloseTag, name, _) =>
      var d := Closed(p.trees, p.depth, p.depth, name);
      PathUp(p.trees, p.depth, d);
      Page(p.trees, d)
    case Tag(kind, name, attrs) =>
      if kind == SelfClosing || IsVoid(name) then With(p, Element(name, attrs, []))
      else if IsRaw(name) then With(p, Element(name, attrs, [TextNode(raw)]))
      else Opened(p, name, attrs)
    case _ => p
  }

  /** A token after which the input is taken as raw text. */
  predicate StartsRaw(t: Token) {
    t.Tag? && t.kind == OpenTag && !IsVoid(t.name) && IsRaw(t.name)
  }

  // ---------------------------------------------------------------- trees to tokens

  /** A token with the raw text it comes from or is followed by. */
  datatype Piece = Piece(token: Token, raw: text)

  function Built(p: Page, pieces: seq<Piece>): (r: Page)
    requires Good(p)
    ensures Good(r)
    decreases |pieces|
  {
    if pieces == [] then p else Built(Build(p, pieces[0].token, pieces[0].raw), pieces[1..])
  }

  /** Trees that pages are made of: a void element is empty, a raw-text element holds one text,
      and no text is blank. */
  predicate Proper(t: Tree) {
    match t
    case Element(tag, _, kids) =>
      if IsVoid(tag) then kids == []
      else if IsRaw(tag) then |kids| == 1 && kids[0].TextNode?
      else forall i :: 0 <= i < |kids| ==> Proper(kids[i])
    case TextNode(s) => !Blank(s)
    case CommentNode(_) => true
  }

  predicate AllProper(f: forest) {
    forall i :: 0 <= i < |f| ==> Proper(f[i])
  }

  function Pieces(t: Tree): seq<Piece>
    requires Proper(t)
    decreases t, 0
  {
    match t
    case Element(tag, attrs, kids) =>
      var open := Tag(OpenTag, tag, attrs);
      if IsVoid(tag) then [Piece(open, [])]
      else if IsRaw(tag) then [Piece(open, kids[0].text)]
      else [Piece(open, [])] + AllPieces(kids) + [Piece(Tag(CloseTag, tag, []), [])]
    case TextNode(s) => [Piece(Text(s), Escaped(s))]
    case CommentNode(s) => [Piece(Comment(s), [])]
  }

  function AllPieces(f: forest): seq<Piece>
    requires AllProper(f)
    decreases f, 1
  {
    if f == [] then [] else Pieces(f[0]) + AllPieces(f[1..])
  }

  lemma {:induction false} BuiltAppend(p: Page, a: seq<Piece>, b: seq<Piece>)
    requires Good(p)
    ensures Built(p, a + b) == Built(Built(p, a), b)
    decreases |a|
  {
    if a == [] {
      assert a + b == b;
    } else {
      assert (a + b)[1..] == a[1..] + b;
      BuiltAppend(Build(p, a[0].token, a[0].raw), a[1..], b);
    }
  }

  lemma {:induction false} AddedAppend(f: forest, depth: nat, a: forest, b: forest)
    requires Path(f, depth)
    ensures Added(Added(f, depth, a), depth, b) == Added(f, depth, a + b)
    decreases depth
  {
    if depth == 0 {
      assert (f + a) + b == f + (a + b);
    } else {
      AddedAppend(f[|f| - 1].kids, depth - 1, a, b);
    }
  }

  /** Adding inside an element just opened is adding the element with those children. */
  lemma {:induction false} AddedInside(f: forest, depth: nat, tag: text, attrs: seq<Attr>, kids: forest)
    requires Path(f, depth)
    ensures var g := Added(f, depth, [Element(tag, attrs, [])]);
            Path(g, depth + 1) && Added(g, depth + 1, kids) == Added(f, depth, [Element(tag, attrs, kids)])
    decreases depth
  {
    AddedOpens(f, depth, Element(tag, attrs, []));
    if depth == 0 {
      assert (f + [Element(tag, attrs, [])])[..|f|] == f && [] + kids == kids;
    } else {
      AddedInside(f[|f| - 1].kids, depth - 1, tag, attrs, kids);
    }
  }

  lemma {:induction false} AddedNothing(f: forest, depth: nat)
    requires Path(f, depth)
    ensures Added(f, depth, []) == f
    decreases depth
  {
    if depth == 0 {
      assert f + [] == f;
    } else {
      AddedNothing(f[|f| - 1].kids, depth - 1);
    }
  }

  /** A tree's tokens add the tree where the page stands, and leave open what was open. */
  lemma {:induction false} Rebuilt(p: Page, t: Tree)
    requires Good(p) && Proper(t)
    ensures Built(p, Pieces(t)) == With(p, t)
    decreases t, 0
  {
    if Nests(t) {
      AllRebuilt(Opened(p, t.tag, t.attrs), t.kids);
      Nested(p, t, AllPieces(t.kids));
    } else {
      assert t.Element? && IsRaw(t.tag) && !IsVoid(t.tag) ==> t.kids == [TextNode(t.kids[0].text)];
      Single(p, Pieces(t)[0]);
    }
  }

  predicate Nests(t: Tree) {
    t.Element? && !IsVoid(t.tag) && !IsRaw(t.tag)
  }

  lemma Single(p: Page, piece: Piece)
    requires Good(p)
    ensures Built(p, [piece]) == Build(p, piece.token, piece.raw)
  {
    assert [piece][1..] == [];
  }

  lemma Nested(p: Page, t: Tree, inner: seq<Piece>)
    requires Good(p) && Nests(t)
    requires var q := Opened(p, t.tag, t.attrs); Built(q, inner) == Page(Added(q.trees, q.depth, t.kids), q.depth)
    ensures var open, close := Piece(Tag(OpenTag, t.tag, t.attrs), []), Piece(Tag(CloseTag, t.tag, []), []);
            Built(p, [open] + inner + [close]) == With(p, t)
  {
    var open, close := Piece(Tag(OpenTag, t.tag, t.attrs), []), Piece(Tag(CloseTag, t.tag, []), []);
    BuiltAppend(p, [open] + inner, [close]);
    BuiltAppend(p, [open], inner);
    Single(p, open);
    AddedInside(p.trees, p.depth, t.tag, t.attrs, t.kids);
    Closing(p, t);
  }

  /** The end tag closes the element its start tag opened. */
  lemma Closing(p: Page, t: Tree)
    requires Good(p) && t.Element?
    ensures var q := Page(Added(p.trees, p.depth, [t]), p.depth + 1);
            Good(q) && Built(q, [Piece(Tag(CloseTag, t.tag, []), [])]) == With(p, t)
  {
    AddedOpens(p.trees, p.depth, t);
    Single(Page(Added(p.trees, p.depth, [t]), p.depth + 1), Piece(Tag(CloseTag, t.tag, []), []));
  }

  /** A forest's tokens build the forest again, for every forest and every page they come after. */
  lemma {:induction false} AllRebuilt(p: Page, f: forest)
    requires Good(p) && AllProper(f)
    ensures Built(p, AllPieces(f)) == Page(Added(p.trees, p.depth, f), p.depth)
    decreases f, 1
  {
    if f == [] {
      AddedNothing(p.trees, p.depth);
    } else {
      Rebuilt(p, f[0]);
      BuiltAppend(p, Pieces(f[0]), AllPieces(f[1..]));
      AllRebuilt(With(p, f[0]), f[1..]);
      AddedAppend(p.trees, p.depth, [f[0]], f[1..]);
      assert [f[0]] + f[1..] == f;
    }
  }
}
