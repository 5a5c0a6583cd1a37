/** The parser of apps/browser/html_parser.c: it links node records while it reads tokens, and
    keeps the stack of open elements. */
module HtmlParser {
  import opened Options
  import opened HtmlText
  import opened HtmlLexer
  import opened HtmlTree
  import opened HtmlArena
  import opened HtmlSource

  const DOCUMENT: text := [0x23, 0x64, 0x6F, 0x63, 0x75, 0x6D, 0x65, 0x6E, 0x74]

  class Parser {
    const lex: Lexer
    var nodes: seq<Node>
    var stack: seq<nat>

    constructor (lex: Lexer)
      requires lex.Valid()
      ensures this.lex == lex && Valid() && State() == Page([], 0)
    {
      this.lex := lex;
      nodes, stack := [Node(DocumentNode, DOCUMENT, [], [], [])], [];
      new;
      assert SoundNode(nodes, 0);
    }

    function OpenPath(): seq<nat>
      reads this
    {
      [0] + stack
    }

    ghost predicate Valid()
      reads this, lex
    {
      lex.Valid() && Sound(nodes) && Linked(nodes, OpenPath())
    }

    ghost function State(): (p: Page)
      requires Valid()
      reads this, lex
      ensures Good(p)
    {
      PathOf(nodes, OpenPath(), 0);
      Page(KidsAt(nodes, 0), |stack|)
    }

    function Current(): nat
      reads this
    {
      if stack == [] then 0 else stack[|stack| - 1]
    }

    /** Makes a node the last child of `at`, which ends a path of last children. */
    method AddChild(at: nat, n: Node, ghost path: seq<nat>) returns (id: nat)
      requires Sound(nodes) && Linked(nodes, path) && path[|path| - 1] == at && n.kids == []
      modifies `nodes
      ensures Sound(nodes) && Linked(nodes, path) && id == |old(nodes)|
      ensures Branch(n) ==> Linked(nodes, path + [id])
      ensures Path(old(KidsAt(nodes, 0)), |path| - 1)
      ensures KidsAt(nodes, 0) == Added(old(KidsAt(nodes, 0)), |path| - 1, [TreeAt([n], 0)])
    {
      GrownAt(nodes, path, n, 0);
      LinkedGrown(nodes, path, n);
      if Branch(n) {
        LinkedPush(nodes, path, n);
      }
      id := |nodes|;
      nodes := nodes[at := nodes[at].(kids := nodes[at].kids + [id])] + [n];
    }

    /** Makes a text or comment, or an element that is not opened, in the innermost open element. */
    method AddNode(n: Node) returns (id: nat)
      requires Valid() && n.kids == []
      modifies `nodes
      ensures Valid() && State() == With(old(State()), TreeAt([n], 0))
      ensures Branch(n) ==> Linked(nodes, OpenPath() + [id])
    {
      id := AddChild(Current(), n, OpenPath());
    }

    method AddElement(name: text, attrs: seq<Attr>) returns (id: nat)
      requires Valid()
      modifies `nodes
      ensures Valid() && State() == With(old(State()), Element(name, attrs, []))
      ensures Linked(nodes, OpenPath() + [id])
    {
      var n := Node(ElementNode, name, attrs, [], []);
      assert KidsAt([n], 0) == [];
      id := AddNode(n);
    }

    /** Makes an element and opens it. */
    method OpenElement(name: text, attrs: seq<Attr>)
      requires Valid()
      modifies this
      ensures Valid() && State() == Opened(old(State()), name, attrs)
    {
      var id := AddElement(name, attrs);
      assert [0] + (stack + [id]) == OpenPath() + [id];
      stack := stack + [id];
    }

    /** Makes a text in the element just made. */
    method AddText(id: nat, s: text)
      requires Valid() && Linked(nodes, OpenPath() + [id])
      modifies `nodes
      ensures Valid() && Path(old(State()).trees, |stack| + 1)
      ensures State().trees == Added(old(State()).trees, |stack| + 1, [TextNode(s)])
    {
      ghost var path := OpenPath();
      var child := AddChild(id, Node(TextLeaf, [], [], s, []), path + [id]);
      LinkedPop(nodes, path + [id], |path|);
      assert (path + [id])[..|path|] == path;
    }

    /** Makes a raw-text element with its text, and does not open it. */
    method AddRawElement(name: text, attrs: seq<Attr>, raw: text)
      requires Valid()
      modifies `nodes
      ensures Valid() && State() == With(old(State()), Element(name, attrs, [TextNode(raw)]))
    {
      ghost var p := State();
      var id := AddElement(name, attrs);
      AddText(id, raw);
      AddedInside(p.trees, p.depth, name, attrs, [TextNode(raw)]);
    }

    method CloseElement(name: text)
      requires Valid()
      modifies this
      ensures Valid()
      ensures var p := old(State()); State() == p.(depth := Closed(p.trees, p.depth, p.depth, name))
    {
      var i: nat := |stack|;
      while i > 0
        invariant i <= |stack| && Valid() && stack == old(stack) && nodes == old(nodes)
        invariant var p := State(); Closed(p.trees, p.depth, i, name) == Closed(p.trees, p.depth, p.depth, name)
      {
        OpenOf(nodes, OpenPath(), 0, i);
        if SameName(nodes[stack[i - 1]].tag, name) {
          LinkedPop(nodes, OpenPath(), i);
          assert OpenPath()[..i] == [0] + stack[..i - 1];
          stack := stack[..i - 1];
          return;
        }
        i := i - 1;
      }
    }

    /** Does what a token asks for. */
    method Take(t: Token)
      requires Valid() && !StartsRaw(t)
      modifies this
      ensures Valid() && lex.pos == old(lex.pos) && State() == Build(old(State()), t, [])
    {
      match t
      case Comment(s) =>
        var id := AddNode(Node(CommentLeaf, [], [], s, []));
      case Text(s) =>
        if !Blank(s) {
          var id := AddNode(Node(TextLeaf, [], [], s, []));
        }
      case Tag(kind, name, attrs) =>
        if kind == CloseTag {
          CloseElement(name);
        } else if kind == SelfClosing || IsVoid(name) {
          var id := AddElement(name, attrs);
        } else {
          OpenElement(name, attrs);
        }
      case _ =>
    }

    /** Reads the whole input. Every turn takes at least one byte, so it comes to an end. */
    method Run()
      requires Valid()
      modifies this, lex
      ensures Valid() && State() == Parsed(lex.src, old(lex.pos), old(State()))
    {
      var more := true;
      while more
        invariant Valid()
        invariant Parsed(lex.src, lex.pos, State()) == Parsed(lex.src, old(lex.pos), old(State()))
        invariant !more ==> lex.pos == |lex.src|
        decreases more, |lex.src| - lex.pos
      {
        more := Turn();
      }
    }

    /** Reads one token and takes it. */
    method Turn() returns (more: bool)
      requires Valid()
      modifies this, lex
      ensures Valid() && old(lex.pos) <= lex.pos
      ensures if more then old(lex.pos) < lex.pos else lex.pos == |lex.src|
      ensures Parsed(lex.src, lex.pos, State()) == Parsed(lex.src, old(lex.pos), old(State()))
    {
      var token := lex.ReadToken();
      if token == None {
        return true;
      }
      if token.value == End {
        return false;
      }
      more := true;
      if StartsRaw(token.value) {
        var raw := lex.ReadRaw(token.value.name);
        AddRawElement(token.value.name, token.value.attrs, CString(raw));
      } else {
        Take(token.value);
      }
    }
  }

  /** Parses a page, unless there is none. */
  method Parse(src: text) returns (parser: Option<Parser>)
    ensures parser.None? <==> src == []
    ensures parser.Some? ==> fresh(parser.value) && parser.value.Valid()
    ensures parser.Some? ==> parser.value.State() == Parsed(src, 0, Page([], 0))
  {
    if src == [] {
      return None;
    }
    var lex := new Lexer(src);
    var p := new Parser(lex);
    p.Run();
    parser := Some(p);
  }

  /** Parses the HTML of a page, and gets the page. */
  method Reparse(f: forest) returns (parser: Option<Parser>)
    requires AllProper(f) && AllExpressible(f)
    ensures parser.None? <==> f == []
    ensures parser.Some? ==> fresh(parser.value) && parser.value.Valid() && parser.value.State() == Page(f, 0)
  {
    HtmlRead(f);
    HtmlNotEmpty(f);
    parser := Parse(Html(f));
  }
}
