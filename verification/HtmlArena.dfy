/** The node records that apps/browser/html_parser.c links into a tree, each known by the place it
    was allocated at, and the path of open elements among them. */
module HtmlArena {
  import opened HtmlText
  import opened HtmlLexer
  import opened HtmlTree

  datatype NodeKind = DocumentNode | ElementNode | TextLeaf | CommentLeaf
  datatype Node = Node(kind: NodeKind, tag: text, attrs: seq<Attr>, text: text, kids: seq<nat>)

  predicate Branch(n: Node) {
    n.kind == DocumentNode || n.kind == ElementNode
  }

  /** Children come after their parent and in the order they were made. */
  predicate SoundNode(nodes: seq<Node>, i: nat)
    requires i < |nodes|
  {
    var kids := nodes[i].kids;
    && (forall k :: 0 <= k < |kids| ==> i < kids[k] < |nodes|)
    && (forall j, k :: 0 <= j < k < |kids| ==> kids[j] < kids[k])
  }

  predicate Sound(nodes: seq<Node>) {
    forall i :: 0 <= i < |nodes| ==> SoundNode(nodes, i)
  }

  /** The tree that hangs at a node. */
  function TreeAt(nodes: seq<Node>, id: nat): Tree
    requires Sound(nodes) && id < |nodes|
    decreases |nodes| - id, 1
  {
    var n := nodes[id];
    match n.kind
    case TextLeaf => TextNode(n.text)
    case CommentLeaf => CommentNode(n.text)
    case _ => Element(n.tag, n.attrs, KidsAt(nodes, id))
  }

  function KidsAt(nodes: seq<Node>, id: nat): (f: forest)
    requires Sound(nodes) && id < |nodes|
    ensures |f| == |nodes[id].kids|
    decreases |nodes| - id, 0
  {
    assert SoundNode(nodes, id);
    var kids := nodes[id].kids;
    seq(|kids|, k requires 0 <= k < |kids| => TreeAt(nodes, kids[k]))
  }

  /** The records after a new one is made and becomes the last child of `at`. */
  function Grown(nodes: seq<Node>, at: nat, n: Node): (r: seq<Node>)
    requires at < |nodes|
    ensures |r| == |nodes| + 1
  {
    nodes[at := nodes[at].(kids := nodes[at].kids + [|nodes|])] + [n]
  }

  /** The path of open elements: each is the last child of the one before, and what was finished
      beside it stays apart from it. */
  predicate Linked(nodes: seq<Node>, path: seq<nat>) {
    && path != [] && path[0] == 0
    && (forall i :: 0 <= i < |path| ==> path[i] < |nodes| && Branch(nodes[path[i]]))
    && (forall i :: 0 <= i < |path| - 1 ==>
          LastKid(nodes, path[i], path[i + 1]) && Bounded(nodes, path[i], path[i + 1]))
  }

  predicate LastKid(nodes: seq<Node>, at: nat, kid: nat)
    requires at < |nodes|
  {
    nodes[at].kids != [] && nodes[at].kids[|nodes[at].kids| - 1] == kid
  }

  /** Nodes made after `lo` and before `hi` have no children from `hi` on. */
  predicate Bounded(nodes: seq<Node>, lo: nat, hi: nat) {
    forall x, k :: lo < x < hi && x < |nodes| && 0 <= k < |nodes[x].kids| ==> nodes[x].kids[k] < hi
  }

  lemma SoundGrown(nodes: seq<Node>, at: nat, n: Node)
    requires Sound(nodes) && at < |nodes| && n.kids == []
    ensures Sound(Grown(nodes, at, n))
  {
    var g := Grown(nodes, at, n);
    forall i | 0 <= i < |g| ensures SoundNode(g, i) {
      if i < |nodes| {
        assert SoundNode(nodes, i);
      }
    }
  }

  /** A tree made of unchanged nodes is unchanged. */
  lemma {:induction false} SameTree(a: seq<Node>, b: seq<Node>, id: nat, hi: nat)
    requires Sound(a) && Sound(b) && id < hi <= |a| && hi <= |b|
    requires forall x :: id <= x < hi ==> a[x] == b[x]
    requires forall x, k :: id <= x < hi && 0 <= k < |a[x].kids| ==> a[x].kids[k] < hi
    ensures TreeAt(a, id) == TreeAt(b, id)
    decreases hi - id
  {
    var kids := a[id].kids;
    assert SoundNode(a, id);
    forall k | 0 <= k < |kids| ensures KidsAt(a, id)[k] == KidsAt(b, id)[k] {
      SameTree(a, b, kids[k], hi);
    }
    assert KidsAt(a, id) == KidsAt(b, id);
  }

  lemma {:induction false} Ascending(nodes: seq<Node>, path: seq<nat>, i: nat, j: nat)
    requires Sound(nodes) && Linked(nodes, path) && i <= j < |path|
    ensures path[i] <= path[j]
    decreases j - i
  {
    if i < j {
      assert LastKid(nodes, path[j - 1], path[j]) && SoundNode(nodes, path[j - 1]);
      Ascending(nodes, path, i, j - 1);
    }
  }

  /** The path of open elements is a path of last children in the tree. */
  lemma {:induction false} PathOf(nodes: seq<Node>, path: seq<nat>, i: nat)
    requires Sound(nodes) && Linked(nodes, path) && i < |path|
    ensures Path(KidsAt(nodes, path[i]), |path| - 1 - i)
    decreases |path| - i
  {
    if i < |path| - 1 {
      assert LastKid(nodes, path[i], path[i + 1]);
      PathOf(nodes, path, i + 1);
    }
  }

  lemma {:induction false} OpenOf(nodes: seq<Node>, path: seq<nat>, i: nat, j: nat)
    requires Sound(nodes) && Linked(nodes, path) && i < j < |path|
    ensures Path(KidsAt(nodes, path[i]), j - i) && OpenAt(KidsAt(nodes, path[i]), j - i) == TreeAt(nodes, path[j])
    decreases j - i
  {
    assert LastKid(nodes, path[i], path[i + 1]);
    if i + 1 < j {
      OpenOf(nodes, path, i + 1, j);
    }
  }

  lemma KidsInRange(nodes: seq<Node>)
    requires Sound(nodes)
    ensures forall x, k :: 0 <= x < |nodes| && 0 <= k < |nodes[x].kids| ==> nodes[x].kids[k] < |nodes|
  {
    forall x, k | 0 <= x < |nodes| && 0 <= k < |nodes[x].kids| ensures nodes[x].kids[k] < |nodes| {
      assert SoundNode(nodes, x);
    }
  }

  lemma GrownTop(nodes: seq<Node>, at: nat, n: Node)
    requires Sound(nodes) && at < |nodes| && n.kids == []
    ensures Sound(Grown(nodes, at, n))
    ensures KidsAt(Grown(nodes, at, n), at) == KidsAt(nodes, at) + [TreeAt([n], 0)]
  {
    var g := Grown(nodes, at, n);
    SoundGrown(nodes, at, n);
    assert SoundNode(nodes, at);
    KidsInRange(nodes);
    forall k | 0 <= k < |nodes[at].kids| ensures KidsAt(g, at)[k] == KidsAt(nodes, at)[k] {
      GrownSame(nodes, at, n, nodes[at].kids[k], |nodes|);
    }
    assert g[|nodes|] == n && TreeAt(g, |nodes|) == TreeAt([n], 0) by {
      assert KidsAt(g, |nodes|) == KidsAt([n], 0) == [];
    }
  }

  /** Trees that lie before or after the node that grows stay as they were. */
  lemma GrownSame(nodes: seq<Node>, at: nat, n: Node, id: nat, hi: nat)
    requires Sound(nodes) && at < |nodes| && n.kids == [] && id < hi <= |nodes| && (at < id || hi <= at)
    requires forall x, k :: id <= x < hi && 0 <= k < |nodes[x].kids| ==> nodes[x].kids[k] < hi
    ensures Sound(Grown(nodes, at, n)) && TreeAt(Grown(nodes, at, n), id) == TreeAt(nodes, id)
  {
    SoundGrown(nodes, at, n);
    SameTree(nodes, Grown(nodes, at, n), id, hi);
  }

  /** A child given to the innermost open element is added to the tree at that depth. */
  lemma {:induction false} GrownAt(nodes: seq<Node>, path: seq<nat>, n: Node, i: nat)
    requires Sound(nodes) && Linked(nodes, path) && n.kids == [] && i < |path|
    ensures var g := Grown(nodes, path[|path| - 1], n);
            && Sound(g) && Path(KidsAt(nodes, path[i]), |path| - 1 - i)
            && KidsAt(g, path[i]) == Added(KidsAt(nodes, path[i]), |path| - 1 - i, [TreeAt([n], 0)])
    decreases |path| - i
  {
    var at := path[|path| - 1];
    PathOf(nodes, path, i);
    if i == |path| - 1 {
      GrownTop(nodes, at, n);
    } else {
      GrownAt(nodes, path, n, i + 1);
      GrownBeside(nodes, path, n, i);
      GrownStep(nodes, path, n, i);
    }
  }

  /** Above the element that grows, only the last child changes. */
  lemma GrownBeside(nodes: seq<Node>, path: seq<nat>, n: Node, i: nat)
    requires Sound(nodes) && Linked(nodes, path) && n.kids == [] && i < |path| - 1
    ensures var g := Grown(nodes, path[|path| - 1], n);
            && Sound(g) && g[path[i]] == nodes[path[i]]
            && forall k :: 0 <= k < |nodes[path[i]].kids| - 1 ==> KidsAt(g, path[i])[k] == KidsAt(nodes, path[i])[k]
  {
    var at, p, next := path[|path| - 1], path[i], path[i + 1];
    SoundGrown(nodes, at, n);
    Ascending(nodes, path, i + 1, |path| - 1);
    assert LastKid(nodes, p, next) && Bounded(nodes, p, next) && SoundNode(nodes, p);
    forall k | 0 <= k < |nodes[p].kids| - 1
      ensures KidsAt(Grown(nodes, at, n), p)[k] == KidsAt(nodes, p)[k]
    {
      GrownSame(nodes, at, n, nodes[p].kids[k], next);
    }
  }

  lemma GrownStep(nodes: seq<Node>, path: seq<nat>, n: Node, i: nat)
    requires Sound(nodes) && Linked(nodes, path) && n.kids == [] && i < |path| - 1
    requires Path(KidsAt(nodes, path[i]), |path| - 1 - i) && Path(KidsAt(nodes, path[i + 1]), |path| - 2 - i)
    requires var g := Grown(nodes, path[|path| - 1], n);
             && Sound(g) && g[path[i]] == nodes[path[i]]
             && (forall k :: 0 <= k < |nodes[path[i]].kids| - 1 ==> KidsAt(g, path[i])[k] == KidsAt(nodes, path[i])[k])
             && KidsAt(g, path[i + 1]) == Added(KidsAt(nodes, path[i + 1]), |path| - 2 - i, [TreeAt([n], 0)])
    ensures KidsAt(Grown(nodes, path[|path| - 1], n), path[i]) ==
            Added(KidsAt(nodes, path[i]), |path| - 1 - i, [TreeAt([n], 0)])
  {
    var g, last := Grown(nodes, path[|path| - 1], n), |nodes[path[i]].kids| - 1;
    assert LastKid(nodes, path[i], path[i + 1]);
    var a, b := KidsAt(nodes, path[i]), KidsAt(g, path[i]);
    assert a[last] == TreeAt(nodes, path[i + 1]) && b[last] == TreeAt(g, path[i + 1]);
    assert b == a[..last] + [b[last]];
  }

  // ---------------------------------------------------------------- keeping the path

  lemma LinkedGrown(nodes: seq<Node>, path: seq<nat>, n: Node)
    requires Sound(nodes) && Linked(nodes, path) && n.kids == []
    ensures Linked(Grown(nodes, path[|path| - 1], n), path)
  {
    var at := path[|path| - 1];
    var g := Grown(nodes, at, n);
    forall i | 0 <= i < |path| - 1 ensures LastKid(g, path[i], path[i + 1]) && Bounded(g, path[i], path[i + 1]) {
      LinkKept(nodes, path, n, i);
    }
  }

  lemma LinkKept(nodes: seq<Node>, path: seq<nat>, n: Node, i: nat)
    requires Sound(nodes) && Linked(nodes, path) && n.kids == [] && i < |path| - 1
    ensures var g := Grown(nodes, path[|path| - 1], n);
            LastKid(g, path[i], path[i + 1]) && Bounded(g, path[i], path[i + 1])
  {
    Ascending(nodes, path, i + 1, |path| - 1);
    assert LastKid(nodes, path[i], path[i + 1]) && SoundNode(nodes, path[i]) && Bounded(nodes, path[i], path[i + 1]);
  }

  /** The node just made can be opened. */
  lemma LinkedPush(nodes: seq<Node>, path: seq<nat>, n: Node)
    requires Sound(nodes) && Linked(nodes, path) && n.kids == [] && Branch(n)
    ensures Linked(Grown(nodes, path[|path| - 1], n), path + [|nodes|])
  {
    var at := path[|path| - 1];
    var g, q := Grown(nodes, at, n), path + [|nodes|];
    LinkedGrown(nodes, path, n);
    KidsInRange(nodes);
    assert Bounded(g, at, |nodes|);
    forall i | 0 <= i < |q| - 1 ensures LastKid(g, q[i], q[i + 1]) && Bounded(g, q[i], q[i + 1]) {
      if i < |path| - 1 {
        assert LastKid(g, path[i], path[i + 1]) && Bounded(g, path[i], path[i + 1]);
      }
    }
  }

  lemma LinkedPop(nodes: seq<Node>, path: seq<nat>, k: nat)
    requires Linked(nodes, path) && 0 < k <= |path|
    ensures Linked(nodes, path[..k])
  {}
}
