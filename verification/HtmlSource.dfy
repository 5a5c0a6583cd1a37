/** Parsing in apps/browser/html_parser.c as a function of the input bytes: it takes every input,
    and a page written out as HTML is read back as the same page. */
module HtmlSource {
  import opened Bytes
  import opened HtmlText
  import opened Numerals
  import opened HtmlLexer
  import opened HtmlTree
  import opened Options

  /** What the parser makes of the input from `pos` on. */
  function Parsed(s: text, pos: nat, p: Page): (r: Page)
    requires pos <= |s| && Good(p)
    ensures Good(r)
    decreases |s| - pos, 0
  {
    var l := Next(s, pos);
    match l.token
    case None => Parsed(s, l.next, p)
    case Some(t) =>
      if t == End then p
      else if StartsRaw(t) then ParsedRaw(s, l.next, p, t)
      else Parsed(s, l.next, Build(p, t, []))
  }

  /** The same after the start tag of a raw-text element. */
  function ParsedRaw(s: text, pos: nat, p: Page, t: Token): (r: Page)
    requires pos <= |s| && Good(p) && t.Tag?
    ensures Good(r)
    decreases |s| - pos, 1
  {
    var k := RawEnd(s, pos, t.name);
    Parsed(s, Past(s, k, GREATER), Build(p, t, CString(s[pos..k])))
  }

  // ---------------------------------------------------------------- writing

  const COMMENT_START: text := [LESS, BANG, DASH, DASH]
  const COMMENT_END: text := [DASH, DASH, GREATER]

  function Quote(value: text): byte {
    if QUOTE in value then APOS else QUOTE
  }

  function WrittenValue(value: text): text {
    [EQUALS, Quote(value)] + (value + [Quote(value)])
  }

  function WrittenAttr(a: Attr): text {
    [SPACE] + (a.name + WrittenValue(a.value))
  }

  /** A start tag after its name. */
  function TagTail(attrs: seq<Attr>): (r: text)
    ensures r != [] && r[0] == (if attrs == [] then GREATER else SPACE) && r[|r| - 1] == GREATER
  {
    if attrs == [] then [GREATER] else WrittenAttr(attrs[0]) + TagTail(attrs[1..])
  }

  function EndTag(name: text): text {
    [LESS, SLASH] + (name + [GREATER])
  }

  function StartTag(name: text, attrs: seq<Attr>): text {
    [LESS] + (name + TagTail(attrs))
  }

  function Written(piece: Piece): text {
    match piece.token
    case Text(_) => piece.raw
    case Comment(s) => COMMENT_START + (s + COMMENT_END)
    case Tag(CloseTag, name, _) => EndTag(name)
    case Tag(_, name, attrs) =>
      if StartsRaw(piece.token) then StartTag(name, attrs) + (piece.raw + EndTag(name))
      else StartTag(name, attrs)
    case _ => []
  }

  predicate PlainText(s: text) {
    s != [] && LESS !in s && 0 !in s
  }

  predicate WritableName(name: text) {
    name != [] && forall i :: 0 <= i < |name| ==> InTagName(name[i]) && Lower(name[i]) == name[i]
  }

  predicate WritableAttr(a: Attr) {
    && a.name != [] && (forall i :: 0 <= i < |a.name| ==> InAttrName(a.name[i]) && Lower(a.name[i]) == a.name[i])
    && 0 !in a.value && !(QUOTE in a.value && APOS in a.value)
  }

  /** A comment's end mark does not occur within its text. */
  predicate QuietComment(s: text) {
    forall i :: 0 <= i < |s| ==> !ClosesComment(s + COMMENT_END, i)
  }

  /** A raw-text element's end tag does not occur within its text. */
  predicate QuietRaw(s: text, tag: text) {
    forall i :: 0 <= i < |s| ==> !EndsRaw(s + EndTag(tag), i, tag)
  }

  predicate Writable(piece: Piece) {
    match piece.token
    case Text(s) => PlainText(piece.raw) && Decode(piece.raw, 0) == s
    case Comment(s) => 0 !in s && QuietComment(s)
    case Tag(kind, name, attrs) =>
      && WritableName(name) && kind != SelfClosing && (kind == CloseTag ==> attrs == [])
      && (forall i :: 0 <= i < |attrs| ==> WritableAttr(attrs[i]))
      && (if StartsRaw(piece.token) then 0 !in piece.raw && QuietRaw(piece.raw, name) else piece.raw == [])
    case _ => false
  }

  // ---------------------------------------------------------------- scanning what was written

  lemma Stands(s: text, pos: nat, part: text)
    requires StandsAt(s, pos, part)
    ensures forall j :: pos <= j < pos + |part| ==> s[j] == part[j - pos]
  {
    assert forall j :: pos <= j < pos + |part| ==> s[j] == s[pos..pos + |part|][j - pos];
  }

  lemma {:induction false} UntilAt(s: text, i: nat, k: nat, b: byte)
    requires i <= k <= |s| && (k < |s| ==> s[k] == b) && forall j :: i <= j < k ==> s[j] != b
    ensures Until(s, i, b) == k
    decreases k - i
  {
    if i < k {
      UntilAt(s, i + 1, k, b);
    }
  }

  lemma UntilAfter(s: text, i: nat, part: text, b: byte)
    requires StandsAt(s, i, part) && b !in part && (i + |part| < |s| ==> s[i + |part|] == b)
    ensures Until(s, i, b) == i + |part|
  {
    Stands(s, i, part);
    UntilAt(s, i, i + |part|, b);
  }

  lemma {:induction false} TagNameEndAt(s: text, i: nat, k: nat)
    requires i <= k < |s| && !InTagName(s[k]) && forall j :: i <= j < k ==> InTagName(s[j])
    ensures TagNameEnd(s, i) == k
    decreases k - i
  {
    if i < k {
      TagNameEndAt(s, i + 1, k);
    }
  }

  lemma {:induction false} AttrNameEndAt(s: text, i: nat, k: nat)
    requires i <= k < |s| && !InAttrName(s[k]) && forall j :: i <= j < k ==> InAttrName(s[j])
    ensures AttrNameEnd(s, i) == k
    decreases k - i
  {
    if i < k {
      AttrNameEndAt(s, i + 1, k);
    }
  }

  lemma {:induction false} CommentEndAt(s: text, i: nat, k: nat)
    requires i <= k && ClosesComment(s, k) && forall j :: i <= j < k ==> !ClosesComment(s, j)
    ensures CommentEnd(s, i) == k
    decreases k - i
  {
    if i < k {
      CommentEndAt(s, i + 1, k);
    }
  }

  lemma {:induction false} RawEndAt(s: text, i: nat, k: nat, tag: text)
    requires i <= k < |s| && EndsRaw(s, k, tag) && forall j :: i <= j < k ==> !EndsRaw(s, j, tag)
    ensures RawEnd(s, i, tag) == k
    decreases k - i
  {
    if i < k {
      RawEndAt(s, i + 1, k, tag);
    }
  }

  // ---------------------------------------------------------------- tokens read back

  lemma TextNext(s: text, pos: nat, e: nat, raw: text)
    requires pos < |s| && s[pos] != LESS && Until(s, pos, LESS) == e && s[pos..e] == raw && CString(raw) == raw
    ensures Next(s, pos) == Lexed(Some(Text(Decode(raw, 0))), e)
  {}

  /** A text is read back, if markup or the end of input follows it. */
  lemma TextRead(s: text, pos: nat, raw: text)
    requires PlainText(raw) && StandsAt(s, pos, raw) && (pos + |raw| == |s| || s[pos + |raw|] == LESS)
    ensures Next(s, pos) == Lexed(Some(Text(Decode(raw, 0))), pos + |raw|)
  {
    TextBounds(s, pos, raw);
    TextNext(s, pos, pos + |raw|, raw);
  }

  lemma TextBounds(s: text, pos: nat, raw: text)
    requires PlainText(raw) && StandsAt(s, pos, raw) && (pos + |raw| == |s| || s[pos + |raw|] == LESS)
    ensures s[pos] != LESS && Until(s, pos, LESS) == pos + |raw| && CString(raw) == raw
  {
    UntilAfter(s, pos, raw, LESS);
    CStringWhole(raw);
    Stands(s, pos, raw);
    assert s[pos] == raw[0];
  }

  lemma CommentRead(s: text, pos: nat, t: text)
    requires 0 !in t && QuietComment(t) && StandsAt(s, pos, COMMENT_START + (t + COMMENT_END))
    ensures Next(s, pos) == Lexed(Some(Comment(t)), pos + |COMMENT_START + (t + COMMENT_END)|)
  {
    var p, k := pos + 4, pos + 4 + |t|;
    StandsSplit(s, pos, COMMENT_START, t + COMMENT_END);
    Stands(s, pos, COMMENT_START);
    StandsSplit(s, p, t, COMMENT_END);
    Stands(s, k, COMMENT_END);
    forall j | p <= j < k ensures !ClosesComment(s, j) {
      CommentShift(s, p, t, j);
    }
    CommentEndAt(s, p, k);
    CStringWhole(t);
  }

  lemma CommentShift(s: text, p: nat, t: text, j: nat)
    requires StandsAt(s, p, t + COMMENT_END) && p <= j < p + |t|
    ensures ClosesComment(s, j) <==> ClosesComment(t + COMMENT_END, j - p)
  {
    Stands(s, p, t + COMMENT_END);
  }

  lemma NameRead(s: text, p: nat, name: text)
    requires WritableName(name) && StandsAt(s, p, name) && p + |name| < |s| && !InTagName(s[p + |name|])
    ensures TagNameEnd(s, p) == p + |name| && Lowered(s[p..p + |name|]) == name && InTagName(s[p])
  {
    Stands(s, p, name);
    TagNameEndAt(s, p, p + |name|);
    assert Lowered(name) == name;
  }

  lemma NamedTagRead(s: text, p: nat, kind: Kind, name: text, rest: TagRest)
    requires p <= |s| && TagNameEnd(s, p) == p + |name| > p && Lowered(s[p..p + |name|]) == name
    requires Attributes(s, p + |name|, []) == rest && !rest.selfClosing && Peek(s, rest.next) == GREATER
    ensures NamedTag(s, p, kind) == Lexed(Some(Tag(kind, name, rest.attrs)), rest.next + 1)
  {}

  lemma MarkupOpens(s: text, p: nat)
    requires p < |s| && InTagName(s[p])
    ensures Markup(s, p) == NamedTag(s, p, OpenTag)
  {}

  lemma MarkupCloses(s: text, p: nat)
    requires p + 1 < |s| && s[p] == SLASH && InTagName(s[p + 1])
    ensures Markup(s, p) == NamedTag(s, p + 1, CloseTag)
  {}

  lemma OpenRead(s: text, p: nat, name: text, attrs: seq<Attr>, k: nat)
    requires WritableName(name) && StandsAt(s, p, name) && p + |name| < |s| && !InTagName(s[p + |name|])
    requires Attributes(s, p + |name|, []) == TagRest(attrs, false, k) && k < |s| && s[k] == GREATER
    ensures Markup(s, p) == Lexed(Some(Tag(OpenTag, name, attrs)), k + 1)
  {
    NameRead(s, p, name);
    NamedTagRead(s, p, OpenTag, name, TagRest(attrs, false, k));
    MarkupOpens(s, p);
  }

  lemma NoAttributes(s: text, e: nat, done: seq<Attr>)
    requires e < |s| && s[e] == GREATER
    ensures Attributes(s, e, done) == TagRest(done, false, e)
  {}

  lemma EndTagRead(s: text, pos: nat, name: text)
    requires WritableName(name) && StandsAt(s, pos, EndTag(name))
    ensures Next(s, pos) == Lexed(Some(Tag(CloseTag, name, [])), pos + |EndTag(name)|)
  {
    var e := pos + 2 + |name|;
    StandsSplit(s, pos, [LESS, SLASH], name + [GREATER]);
    Stands(s, pos, [LESS, SLASH]);
    StandsSplit(s, pos + 2, name, [GREATER]);
    Stands(s, e, [GREATER]);
    NameRead(s, pos + 2, name);
    NoAttributes(s, e, []);
    NamedTagRead(s, pos + 2, CloseTag, name, TagRest([], false, e));
    MarkupCloses(s, pos + 1);
  }

  lemma ValueStands(s: text, e: nat, value: text, q: byte)
    requires StandsAt(s, e, [EQUALS, q] + (value + [q]))
    ensures e + 2 + |value| < |s| && s[e] == EQUALS && s[e + 1] == q == s[e + 2 + |value|]
    ensures StandsAt(s, e + 2, value)
  {
    StandsSplit(s, e, [EQUALS, q], value + [q]);
    StandsSplit(s, e + 2, value, [q]);
    Stands(s, e, [EQUALS, q]);
    Stands(s, e + 2 + |value|, [q]);
  }

  lemma QuotedValue(s: text, e: nat, value: text, q: byte)
    requires e + 2 + |value| < |s| && s[e] == EQUALS && s[e + 1] == q && (q == QUOTE || q == APOS)
    requires Until(s, e + 2, q) == e + 2 + |value| && s[e + 2..e + 2 + |value|] == value == CString(value)
    requires s[e + 2 + |value|] == q
    ensures AttrValue(s, e) == (value, e + 3 + |value|)
  {}

  lemma ValueRead(s: text, e: nat, value: text, k: nat)
    requires 0 !in value && !(QUOTE in value && APOS in value) && StandsAt(s, e, WrittenValue(value))
    requires k == e + |WrittenValue(value)|
    ensures e < |s| && s[e] == EQUALS && AttrValue(s, e) == (value, k)
  {
    ValueBounds(s, e, value, Quote(value));
    QuotedValue(s, e, value, Quote(value));
  }

  lemma ValueBounds(s: text, e: nat, value: text, q: byte)
    requires 0 !in value && q !in value && StandsAt(s, e, [EQUALS, q] + (value + [q]))
    ensures e + 2 + |value| < |s| && s[e] == EQUALS && s[e + 1] == q == s[e + 2 + |value|]
    ensures Until(s, e + 2, q) == e + 2 + |value| && s[e + 2..e + 2 + |value|] == value == CString(value)
  {
    ValueStands(s, e, value, q);
    UntilAfter(s, e + 2, value, q);
    CStringWhole(value);
  }

  lemma AttrAtOf(s: text, j: nat, e: nat, v: (text, nat))
    requires j < e <= |s| && AttrNameEnd(s, j) == e && AttrValue(s, e) == v
    ensures AttrAt(s, j) == (Some(Attr(Lowered(s[j..e]), v.0)), v.1)
  {}

  lemma AttrNameRead(s: text, j: nat, a: Attr, e: nat)
    requires WritableAttr(a) && StandsAt(s, j, a.name) && e == j + |a.name| < |s| && s[e] == EQUALS
    ensures AttrNameEnd(s, j) == e && Lowered(s[j..e]) == a.name
  {
    Stands(s, j, a.name);
    AttrNameEndAt(s, j, e);
    assert Lowered(a.name) == a.name;
  }

  lemma AttrRead(s: text, j: nat, a: Attr, k: nat)
    requires WritableAttr(a) && StandsAt(s, j, a.name + WrittenValue(a.value))
    requires k == j + |a.name| + |WrittenValue(a.value)|
    ensures AttrAt(s, j) == (Some(a), k)
  {
    var e := j + |a.name|;
    StandsSplit(s, j, a.name, WrittenValue(a.value));
    ValueRead(s, e, a.value, k);
    AttrNameRead(s, j, a, e);
    AttrAtOf(s, j, e, (a.value, k));
  }

  lemma AttrStep(s: text, i: nat, k: nat, a: Attr, done: seq<Attr>)
    requires i + 1 < |s| && s[i] == SPACE && InAttrName(s[i + 1]) && AttrAt(s, i + 1) == (Some(a), k)
    ensures Attributes(s, i, done) == Attributes(s, k, done + [a])
  {
    assert SpaceEnd(s, i) == i + 1;
    assert AttributesAt(s, i + 1, done) == Attributes(s, k, done + [a]);
  }

  lemma NameStands(s: text, i: nat, a: Attr)
    requires WritableAttr(a) && StandsAt(s, i, WrittenAttr(a))
    ensures i + 1 < |s| && s[i] == SPACE && InAttrName(s[i + 1])
    ensures StandsAt(s, i + 1, a.name + WrittenValue(a.value))
  {
    StandsSplit(s, i, [SPACE], a.name + WrittenValue(a.value));
    Stands(s, i, [SPACE]);
    StandsSplit(s, i + 1, a.name, WrittenValue(a.value));
    Stands(s, i + 1, a.name);
    assert s[i + 1] == a.name[0];
  }

  lemma {:induction false} AttrsRead(s: text, i: nat, attrs: seq<Attr>, done: seq<Attr>)
    requires (forall j :: 0 <= j < |attrs| ==> WritableAttr(attrs[j])) && StandsAt(s, i, TagTail(attrs))
    ensures Attributes(s, i, done) == TagRest(done + attrs, false, i + |TagTail(attrs)| - 1)
    decreases |attrs|
  {
    if attrs == [] {
      Stands(s, i, [GREATER]);
      NoAttributes(s, i, done);
      assert done + attrs == done;
    } else {
      var k := i + |WrittenAttr(attrs[0])|;
      StandsSplit(s, i, WrittenAttr(attrs[0]), TagTail(attrs[1..]));
      AttrsRead(s, k, attrs[1..], done + [attrs[0]]);
      OneMoreAttr(done, attrs);
      AttrsMore(s, i, attrs[0], done, k, TagRest(done + attrs, false, i + |TagTail(attrs)| - 1));
    }
  }

  lemma AttrsMore(s: text, i: nat, a: Attr, done: seq<Attr>, k: nat, rest: TagRest)
    requires WritableAttr(a) && StandsAt(s, i, WrittenAttr(a)) && k == i + |WrittenAttr(a)|
    requires Attributes(s, k, done + [a]) == rest
    ensures Attributes(s, i, done) == rest
  {
    NameStands(s, i, a);
    AttrRead(s, i + 1, a, k);
    AttrStep(s, i, k, a, done);
  }

  lemma OneMoreAttr(done: seq<Attr>, attrs: seq<Attr>)
    requires attrs != []
    ensures (done + [attrs[0]]) + attrs[1..] == done + attrs
    ensures |WrittenAttr(attrs[0])| + |TagTail(attrs[1..])| == |TagTail(attrs)|
  {}

  lemma TailRead(s: text, e: nat, attrs: seq<Attr>, k: nat)
    requires (forall j :: 0 <= j < |attrs| ==> WritableAttr(attrs[j])) && StandsAt(s, e, TagTail(attrs))
    requires k == e + |TagTail(attrs)| - 1
    ensures e <= k < |s| && s[k] == GREATER && !InTagName(s[e]) && Attributes(s, e, []) == TagRest(attrs, false, k)
  {
    var w := TagTail(attrs);
    Stands(s, e, w);
    assert s[e] == w[0] && s[k] == w[|w| - 1];
    AttrsRead(s, e, attrs, []);
    assert [] + attrs == attrs;
  }

  lemma MarkupRead(s: text, p: nat, name: text, attrs: seq<Attr>, e: nat, k: nat)
    requires WritableName(name) && (forall j :: 0 <= j < |attrs| ==> WritableAttr(attrs[j]))
    requires StandsAt(s, p, name) && e == p + |name| && StandsAt(s, e, TagTail(attrs))
    requires k == e + |TagTail(attrs)| - 1
    ensures Markup(s, p) == Lexed(Some(Tag(OpenTag, name, attrs)), k + 1)
  {
    TailRead(s, e, attrs, k);
    OpenRead(s, p, name, attrs, k);
  }

  lemma StartTagRead(s: text, pos: nat, name: text, attrs: seq<Attr>)
    requires WritableName(name) && (forall j :: 0 <= j < |attrs| ==> WritableAttr(attrs[j]))
    requires StandsAt(s, pos, StartTag(name, attrs))
    ensures Next(s, pos) == Lexed(Some(Tag(OpenTag, name, attrs)), pos + |StartTag(name, attrs)|)
  {
    StandsSplit(s, pos, [LESS], name + TagTail(attrs));
    Stands(s, pos, [LESS]);
    StandsSplit(s, pos + 1, name, TagTail(attrs));
    var e := pos + 1 + |name|;
    MarkupRead(s, pos + 1, name, attrs, e, e + |TagTail(attrs)| - 1);
  }

  lemma RawShift(s: text, p: nat, raw: text, tag: text, j: nat)
    requires StandsAt(s, p, raw + EndTag(tag)) && p <= j < p + |raw| && EndsRaw(s, j, tag)
    ensures EndsRaw(raw + EndTag(tag), j - p, tag)
  {
    var w := raw + EndTag(tag);
    Stands(s, p, w);
    var after := j + 2 + |tag|;
    if after < p + |w| {
      assert s[j + 2..after] == w[j + 2 - p..after - p];
    }
  }

  lemma RawStops(s: text, k: nat, tag: text)
    requires StandsAt(s, k, EndTag(tag))
    ensures EndsRaw(s, k, tag)
  {
    Stands(s, k, EndTag(tag));
    assert s[k + 2..k + 2 + |tag|] == tag;
  }

  lemma RawRead(s: text, p: nat, raw: text, tag: text)
    requires WritableName(tag) && QuietRaw(raw, tag) && StandsAt(s, p, raw + EndTag(tag))
    ensures RawEnd(s, p, tag) == p + |raw| && Past(s, p + |raw|, GREATER) == p + |raw + EndTag(tag)|
    ensures s[p..p + |raw|] == raw
  {
    var k := p + |raw|;
    StandsSplit(s, p, raw, EndTag(tag));
    Stands(s, k, EndTag(tag));
    forall j | p <= j < k ensures !EndsRaw(s, j, tag) {
      if EndsRaw(s, j, tag) {
        RawShift(s, p, raw, tag, j);
      }
    }
    RawStops(s, k, tag);
    RawEndAt(s, p, k, tag);
    UntilAt(s, k, k + 2 + |tag|, GREATER);
  }

  // ---------------------------------------------------------------- pages read back

  /** The piece is what is read at `pos`, and it takes the input up to `end`. */
  predicate Reads(s: text, pos: nat, piece: Piece, end: nat)
    requires pos <= |s|
  {
    var l := Next(s, pos);
    && l.token == Some(piece.token)
    && if StartsRaw(piece.token) then
         var k := RawEnd(s, l.next, piece.token.name);
         CString(s[l.next..k]) == piece.raw && Past(s, k, GREATER) == end
       else l.next == end
  }

  /** Only raw-text start tags make use of the text beside a token. */
  lemma RawUnused(p: Page, t: Token, raw: text)
    requires Good(p) && !StartsRaw(t)
    ensures Build(p, t, raw) == Build(p, t, [])
  {}

  /** A piece that is read is taken as its token asks. */
  lemma PieceTaken(s: text, pos: nat, p: Page, piece: Piece, end: nat)
    requires Good(p) && pos <= |s| && piece.token != End && Reads(s, pos, piece, end)
    ensures end <= |s| && Parsed(s, pos, p) == Parsed(s, end, Build(p, piece.token, piece.raw))
  {
    if StartsRaw(piece.token) {
      var next := Next(s, pos).next;
      assert Parsed(s, pos, p) == ParsedRaw(s, next, p, piece.token);
    } else {
      RawUnused(p, piece.token, piece.raw);
    }
  }

  /** Where the parts of a raw-text element stand. */
  lemma RawStands(s: text, pos: nat, piece: Piece, next: nat)
    requires Writable(piece) && StartsRaw(piece.token) && StandsAt(s, pos, Written(piece))
    requires next == pos + |StartTag(piece.token.name, piece.token.attrs)|
    ensures Next(s, pos) == Lexed(Some(piece.token), next)
    ensures StandsAt(s, next, piece.raw + EndTag(piece.token.name))
    ensures next + |piece.raw + EndTag(piece.token.name)| == pos + |Written(piece)|
  {
    var name, attrs := piece.token.name, piece.token.attrs;
    StandsSplit(s, pos, StartTag(name, attrs), piece.raw + EndTag(name));
    StartTagRead(s, pos, name, attrs);
  }

  lemma RawContentRead(s: text, pos: nat, piece: Piece, next: nat, end: nat)
    requires pos <= |s| && Writable(piece) && StartsRaw(piece.token) && Next(s, pos) == Lexed(Some(piece.token), next)
    requires StandsAt(s, next, piece.raw + EndTag(piece.token.name))
    requires end == next + |piece.raw + EndTag(piece.token.name)|
    ensures Reads(s, pos, piece, end)
  {
    var raw, tag := piece.raw, piece.token.name;
    assert WritableName(tag) && QuietRaw(raw, tag) && 0 !in raw;
    RawRead(s, next, raw, tag);
    CStringWhole(raw);
  }

  /** What follows a text is not more text. */
  predicate Ends(s: text, pos: nat, piece: Piece) {
    piece.token.Text? ==> pos + |piece.raw| >= |s| || s[pos + |piece.raw|] == LESS
  }

  lemma PlainPieceRead(s: text, pos: nat, piece: Piece)
    requires Writable(piece) && !StartsRaw(piece.token) && StandsAt(s, pos, Written(piece)) && Ends(s, pos, piece)
    ensures Next(s, pos) == Lexed(Some(piece.token), pos + |Written(piece)|)
  {
    match piece.token
    case Text(_) => TextRead(s, pos, piece.raw);
    case Comment(t) => CommentRead(s, pos, t);
    case Tag(kind, name, attrs) =>
      if kind == CloseTag {
        EndTagRead(s, pos, name);
      } else {
        StartTagRead(s, pos, name, attrs);
      }
  }

  /** A piece as written is read as the token it stands for. */
  lemma PieceRead(s: text, pos: nat, piece: Piece, next: nat)
    requires Writable(piece) && StandsAt(s, pos, Written(piece)) && Ends(s, pos, piece)
    requires next == pos + |Written(piece)|
    ensures Reads(s, pos, piece, next)
  {
    if StartsRaw(piece.token) {
      var inside := pos + |StartTag(piece.token.name, piece.token.attrs)|;
      RawStands(s, pos, piece, inside);
      RawContentRead(s, pos, piece, inside, next);
    } else {
      PlainPieceRead(s, pos, piece);
    }
  }

  function AllWritten(pieces: seq<Piece>): text {
    if pieces == [] then [] else Written(pieces[0]) + AllWritten(pieces[1..])
  }

  predicate AllWritable(pieces: seq<Piece>) {
    forall i :: 0 <= i < |pieces| ==> Writable(pieces[i])
  }

  /** No two texts stand side by side. */
  predicate Apart(pieces: seq<Piece>) {
    forall i :: 0 <= i < |pieces| - 1 ==> !(pieces[i].token.Text? && pieces[i + 1].token.Text?)
  }

  lemma WrittenStarts(piece: Piece)
    requires Writable(piece)
    ensures Written(piece) != [] && (!piece.token.Text? ==> Written(piece)[0] == LESS)
  {}

  predicate Fine(pieces: seq<Piece>) {
    AllWritable(pieces) && Apart(pieces)
  }

  /** The first piece, and what stands after it. */
  lemma FirstStands(s: text, pos: nat, pieces: seq<Piece>)
    requires pieces != [] && Fine(pieces) && StandsAt(s, pos, AllWritten(pieces)) && pos + |AllWritten(pieces)| == |s|
    ensures StandsAt(s, pos, Written(pieces[0])) && Ends(s, pos, pieces[0])
    ensures var next := pos + |Written(pieces[0])|;
            StandsAt(s, next, AllWritten(pieces[1..])) && next + |AllWritten(pieces[1..])| == |s|
  {
    StandsSplit(s, pos, Written(pieces[0]), AllWritten(pieces[1..]));
    if pieces[0].token.Text? && |pieces| > 1 {
      MarkupFollows(s, pos + |Written(pieces[0])|, pieces[1..]);
    }
  }

  lemma MarkupFollows(s: text, pos: nat, pieces: seq<Piece>)
    requires pieces != [] && Writable(pieces[0]) && !pieces[0].token.Text? && StandsAt(s, pos, AllWritten(pieces))
    ensures pos < |s| && s[pos] == LESS
  {
    WrittenStarts(pieces[0]);
    StandsSplit(s, pos, Written(pieces[0]), AllWritten(pieces[1..]));
    Stands(s, pos, Written(pieces[0]));
    assert s[pos] == Written(pieces[0])[0];
  }

  /** Parsing what was written does what the tokens do. */
  lemma {:induction false} PiecesRead(s: text, pos: nat, p: Page, pieces: seq<Piece>)
    requires Good(p) && Fine(pieces) && StandsAt(s, pos, AllWritten(pieces)) && pos + |AllWritten(pieces)| == |s|
    ensures Parsed(s, pos, p) == Built(p, pieces)
    decreases |pieces|
  {
    if pieces == [] {
      NothingLeft(s, p);
    } else {
      FineTail(pieces);
      var next := FirstRead(s, pos, pieces);
      var q := FirstTaken(s, pos, p, pieces, next);
      PiecesRead(s, next, q, pieces[1..]);
    }
  }

  /** Where the first piece ends, and the others stand. */
  lemma FirstRead(s: text, pos: nat, pieces: seq<Piece>) returns (next: nat)
    requires pieces != [] && Fine(pieces) && StandsAt(s, pos, AllWritten(pieces)) && pos + |AllWritten(pieces)| == |s|
    ensures Reads(s, pos, pieces[0], next)
    ensures StandsAt(s, next, AllWritten(pieces[1..])) && next + |AllWritten(pieces[1..])| == |s|
  {
    next := pos + |Written(pieces[0])|;
    FirstStands(s, pos, pieces);
    PieceRead(s, pos, pieces[0], next);
  }

  lemma FineTail(pieces: seq<Piece>)
    requires pieces != [] && Fine(pieces)
    ensures Fine(pieces[1..]) && pieces[0].token != End
  {}

  /** The page after the first piece. */
  lemma FirstTaken(s: text, pos: nat, p: Page, pieces: seq<Piece>, next: nat) returns (q: Page)
    requires Good(p) && pieces != [] && pos <= |s| && pieces[0].token != End && Reads(s, pos, pieces[0], next)
    ensures next <= |s| && Good(q)
    ensures Parsed(s, pos, p) == Parsed(s, next, q) && Built(p, pieces) == Built(q, pieces[1..])
  {
    PieceTaken(s, pos, p, pieces[0], next);
    q := Build(p, pieces[0].token, pieces[0].raw);
  }

  lemma NothingLeft(s: text, p: Page)
    requires Good(p)
    ensures Parsed(s, |s|, p) == p
  {}

  // ---------------------------------------------------------------- forests

  /** Trees that can be written out. */
  predicate Expressible(t: Tree) {
    match t
    case Element(tag, attrs, kids) =>
      && WritableName(tag) && (forall i :: 0 <= i < |attrs| ==> WritableAttr(attrs[i]))
      && (if IsVoid(tag) then true
          else if IsRaw(tag) then |kids| == 1 && kids[0].TextNode? && 0 !in kids[0].text && QuietRaw(kids[0].text, tag)
          else AllExpressible(kids))
    case TextNode(s) => s != [] && 0 !in s
    case CommentNode(s) => 0 !in s && QuietComment(s)
  }

  predicate AllExpressible(f: forest) {
    && (forall i :: 0 <= i < |f| ==> Expressible(f[i]))
    && (forall i :: 0 <= i < |f| - 1 ==> !(f[i].TextNode? && f[i + 1].TextNode?))
  }

  /** A page as HTML. */
  function Html(f: forest): text
    requires AllProper(f)
  {
    AllWritten(AllPieces(f))
  }

  lemma FineAppend(a: seq<Piece>, b: seq<Piece>)
    requires Fine(a) && Fine(b)
    requires a == [] || b == [] || !a[|a| - 1].token.Text? || !b[0].token.Text?
    ensures Fine(a + b)
  {}

  lemma {:induction false} TreeFine(t: Tree)
    requires Proper(t) && Expressible(t)
    ensures Fine(Pieces(t)) && Pieces(t) != []
    ensures !t.TextNode? ==> !Pieces(t)[0].token.Text? && !Pieces(t)[|Pieces(t)| - 1].token.Text?
    decreases t, 0
  {
    match t
    case Element(tag, attrs, kids) =>
      if !IsVoid(tag) && !IsRaw(tag) {
        ForestFine(kids);
        FineAppend([Piece(Tag(OpenTag, tag, attrs), [])], AllPieces(kids));
        FineAppend([Piece(Tag(OpenTag, tag, attrs), [])] + AllPieces(kids), [Piece(Tag(CloseTag, tag, []), [])]);
      }
    case TextNode(s) =>
      EscapedIsPlain(s);
      assert Escaped(s)[0..] == Escaped(s);
      DecodeEscaped(s, Escaped(s), 0);
    case CommentNode(_) =>
  }

  lemma {:induction false} ForestFine(f: forest)
    requires AllProper(f) && AllExpressible(f)
    ensures Fine(AllPieces(f))
    ensures f != [] ==> AllPieces(f) != [] && (AllPieces(f)[0].token.Text? ==> f[0].TextNode?)
    decreases f, 1
  {
    if f != [] {
      TreeFine(f[0]);
      ForestFine(f[1..]);
      FineAppend(Pieces(f[0]), AllPieces(f[1..]));
    }
  }

  lemma HtmlNotEmpty(f: forest)
    requires AllProper(f) && AllExpressible(f)
    ensures Html(f) == [] <==> f == []
  {
    ForestFine(f);
    if f != [] {
      WrittenStarts(AllPieces(f)[0]);
    }
  }

  /** Parsing the HTML of a page gives the page back, with nothing left open. */
  lemma HtmlRead(f: forest)
    requires AllProper(f) && AllExpressible(f)
    ensures Parsed(Html(f), 0, Page([], 0)) == Page(f, 0)
  {
    var s, p := Html(f), Page([], 0);
    ForestFine(f);
    assert s[0..|s|] == s;
    PiecesRead(s, 0, p, AllPieces(f));
    AllRebuilt(p, f);
    assert [] + f == f;
  }
}
