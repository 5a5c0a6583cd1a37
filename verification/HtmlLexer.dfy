/** The tokenizer of apps/browser/html_parser.c: what it reads at a place as a function, and the
    scanner that moves `pos` along. */
module HtmlLexer {
  import opened Bytes
  import opened HtmlText
  import opened Numerals
  import opened Options

  const BANG: byte := 0x21
  const QUOTE: byte := 0x22
  const APOS: byte := 0x27
  const DASH: byte := 0x2D
  const SLASH: byte := 0x2F
  const EQUALS: byte := 0x3D
  const GREATER: byte := 0x3E

  datatype Attr = Attr(name: text, value: text)
  datatype Kind = OpenTag | CloseTag | SelfClosing
  datatype Token =
    | Doctype
    | Tag(kind: Kind, name: text, attrs: seq<Attr>)
    | Text(text: text)
    | Comment(text: text)
    | End

  // ---------------------------------------------------------------- places

  function Peek(s: text, i: nat): byte {
    if i < |s| then s[i] else 0
  }

  /** The first place from `i` on that holds `b`, or the length. */
  function Until(s: text, i: nat, b: byte): (k: nat)
    requires i <= |s|
    ensures i <= k <= |s|
    decreases |s| - i
  {
    if i < |s| && s[i] != b then Until(s, i + 1, b) else i
  }

  /** Just after the first `b` from `i` on, or the length. */
  function Past(s: text, i: nat, b: byte): (k: nat)
    requires i <= |s|
    ensures i <= k <= |s|
  {
    var k := Until(s, i, b);
    if k < |s| then k + 1 else k
  }

  predicate InTagName(b: byte) {
    IsAlnum(b) || b == DASH || b == 0x5F || b == 0x3A || b == 0x2E
  }

  function TagNameEnd(s: text, i: nat): (k: nat)
    requires i <= |s|
    ensures i <= k <= |s|
    decreases |s| - i
  {
    if i < |s| && InTagName(s[i]) then TagNameEnd(s, i + 1) else i
  }

  predicate InAttrName(b: byte) {
    !IsSpace(b) && b != EQUALS && b != GREATER && b != SLASH && b != 0
  }

  function AttrNameEnd(s: text, i: nat): (k: nat)
    requires i <= |s|
    ensures i <= k <= |s| && (i < |s| && InAttrName(s[i]) ==> i < k)
    decreases |s| - i
  {
    if i < |s| && InAttrName(s[i]) then AttrNameEnd(s, i + 1) else i
  }

  predicate InBareValue(b: byte) {
    !IsSpace(b) && b != GREATER && b != SLASH
  }

  function BareEnd(s: text, i: nat): (k: nat)
    requires i <= |s|
    ensures i <= k <= |s|
    decreases |s| - i
  {
    if i < |s| && InBareValue(s[i]) then BareEnd(s, i + 1) else i
  }

  predicate ClosesComment(s: text, i: nat) {
    i + 2 < |s| && s[i] == DASH && s[i + 1] == DASH && s[i + 2] == GREATER
  }

  /** Where a comment's text ends: before its end mark, or two bytes before the end of input. */
  function CommentEnd(s: text, i: nat): (k: nat)
    requires i <= |s|
    ensures i <= k <= |s|
    decreases |s| - i
  {
    if i + 2 < |s| && !ClosesComment(s, i) then CommentEnd(s, i + 1) else i
  }

  /** An end tag of the raw-text element `tag` stands at `i`. */
  predicate EndsRaw(s: text, i: nat, tag: text) {
    var after := i + 2 + |tag|;
    && after < |s| && s[i] == LESS && s[i + 1] == SLASH
    && SameName(s[i + 2..after], tag)
    && (s[after] == GREATER || IsSpace(s[after]))
  }

  function RawEnd(s: text, i: nat, tag: text): (k: nat)
    requires i <= |s|
    ensures i <= k <= |s|
    decreases |s| - i
  {
    if i < |s| && !EndsRaw(s, i, tag) then RawEnd(s, i + 1, tag) else i
  }

  // ---------------------------------------------------------------- tokens

  /** The value of an attribute whose name ends at `i`, and where the value ends. */
  function AttrValue(s: text, i: nat): (r: (text, nat))
    requires i <= |s|
    ensures i <= r.1 <= |s|
  {
    var j := SpaceEnd(s, i);
    if Peek(s, j) != EQUALS then ([], j)
    else
      var k := SpaceEnd(s, j + 1);
      var q := Peek(s, k);
      if q == QUOTE || q == APOS then (CString(s[k + 1..Until(s, k + 1, q)]), Past(s, k + 1, q))
      else (CString(s[k..BareEnd(s, k)]), BareEnd(s, k))
  }

  datatype TagRest = TagRest(attrs: seq<Attr>, selfClosing: bool, next: nat)

  /** The attributes from `i` on, up to where the tag's loop stops. */
  function Attributes(s: text, i: nat, attrs: seq<Attr>): (r: TagRest)
    requires i <= |s|
    ensures i <= r.next <= |s|
    decreases |s| - i, 1
  {
    AttributesAt(s, SpaceEnd(s, i), attrs)
  }

  function AttributesAt(s: text, j: nat, attrs: seq<Attr>): (r: TagRest)
    requires j <= |s|
    ensures j <= r.next <= |s|
    decreases |s| - j, 0
  {
    var c := Peek(s, j);
    if c == 0 || c == GREATER then TagRest(attrs, false, j)
    else if c == SLASH then
      var k := SpaceEnd(s, j + 1);
      TagRest(attrs, Peek(s, k) == GREATER, k)
    else
      var a := AttrAt(s, j);
      Attributes(s, a.1, if a.0.Some? then attrs + [a.0.value] else attrs)
  }

  /** The attribute at `j`, and where it ends; a byte that starts no name is passed over. */
  function AttrAt(s: text, j: nat): (r: (Option<Attr>, nat))
    requires j < |s|
    ensures j < r.1 <= |s|
  {
    var e := AttrNameEnd(s, j);
    if e == j then (None, j + 1)
    else
      var v := AttrValue(s, e);
      (Some(Attr(Lowered(s[j..e]), v.0)), v.1)
  }

  datatype Lexed = Lexed(token: Option<Token>, next: nat)

  /** A tag whose `<` ends at `p`, of the given kind until a `/` before `>` is seen. */
  function NamedTag(s: text, p: nat, kind: Kind): (r: Lexed)
    requires p <= |s|
    ensures p <= r.next <= |s|
  {
    var e := TagNameEnd(s, p);
    if e == p then Lexed(None, Past(s, p, GREATER))
    else
      var t := Attributes(s, e, []);
      Lexed(Some(Tag(if t.selfClosing then SelfClosing else kind, Lowered(s[p..e]), t.attrs)),
            if Peek(s, t.next) == GREATER then t.next + 1 else t.next)
  }

  predicate OpensComment(s: text, p: nat) {
    Peek(s, p) == BANG && Peek(s, p + 1) == DASH && Peek(s, p + 2) == DASH
  }

  /** Where a tag's name or `!` is looked for: a `!-` that opens no comment is passed over. */
  function AfterDash(s: text, p: nat): (q: nat)
    requires p <= |s|
    ensures p <= q <= |s|
  {
    if Peek(s, p) == BANG && Peek(s, p + 1) == DASH then p + 2 else p
  }

  /** What stands after a `<`. */
  function Markup(s: text, p: nat): (r: Lexed)
    requires p <= |s|
    ensures p <= r.next <= |s|
  {
    if OpensComment(s, p) then
      var k := CommentEnd(s, p + 3);
      Lexed(Some(Comment(CString(s[p + 3..k]))), if ClosesComment(s, k) then k + 3 else k)
    else
      TagOrDoctype(s, AfterDash(s, p))
  }

  function TagOrDoctype(s: text, q: nat): (r: Lexed)
    requires q <= |s|
    ensures q <= r.next <= |s|
  {
    if Peek(s, q) == BANG then Lexed(Some(Doctype), Past(s, q + 1, GREATER))
    else if Peek(s, q) == SLASH then NamedTag(s, SpaceEnd(s, q + 1), CloseTag)
    else NamedTag(s, q, OpenTag)
  }

  /** The token at `i` and where the next one starts. Every token before the end of input takes
      at least one byte, and none reaches past the end. */
  function Next(s: text, i: nat): (r: Lexed)
    requires i <= |s|
    ensures i <= r.next <= |s| && (i < |s| ==> i < r.next) && (r.token == Some(End) <==> i == |s|)
  {
    if i == |s| then Lexed(Some(End), i)
    else if s[i] == LESS then Markup(s, i + 1)
    else
      var e := Until(s, i, LESS);
      TextAdvances(s, i);
      Lexed(Some(Text(Decode(CString(s[i..e]), 0))), e)
  }

  lemma TextAdvances(s: text, i: nat)
    requires i < |s| && s[i] != LESS
    ensures i < Until(s, i, LESS)
  {}

  // ---------------------------------------------------------------- the scanner

  class Lexer {
    const src: text
    var pos: nat

    constructor (src: text)
      ensures this.src == src && pos == 0
    {
      this.src, pos := src, 0;
    }

    predicate Valid()
      reads this
    {
      pos <= |src|
    }

    method SkipSpace()
      requires Valid()
      modifies this
      ensures Valid() && pos == SpaceEnd(src, old(pos))
    {
      while pos < |src| && IsSpace(src[pos])
        invariant Valid() && SpaceEnd(src, pos) == SpaceEnd(src, old(pos))
      {
        pos := pos + 1;
      }
    }

    method SkipPast(b: byte)
      requires Valid()
      modifies this
      ensures Valid() && pos == Past(src, old(pos), b)
    {
      while pos < |src| && src[pos] != b
        invariant Valid() && Until(src, pos, b) == Until(src, old(pos), b)
      {
        pos := pos + 1;
      }
      if pos < |src| {
        pos := pos + 1;
      }
    }

    method ReadTagName() returns (name: text)
      requires Valid()
      modifies this
      ensures Valid() && pos == TagNameEnd(src, old(pos)) && name == Lowered(src[old(pos)..pos])
    {
      name := [];
      while pos < |src| && InTagName(src[pos])
        invariant Valid() && old(pos) <= pos && TagNameEnd(src, pos) == TagNameEnd(src, old(pos))
        invariant name == Lowered(src[old(pos)..pos])
      {
        name := name + [Lower(src[pos])];
        pos := pos + 1;
      }
    }

    method ReadAttrName() returns (name: text)
      requires Valid()
      modifies this
      ensures Valid() && pos == AttrNameEnd(src, old(pos)) && name == Lowered(src[old(pos)..pos])
    {
      name := [];
      while pos < |src| && InAttrName(src[pos])
        invariant Valid() && old(pos) <= pos && AttrNameEnd(src, pos) == AttrNameEnd(src, old(pos))
        invariant name == Lowered(src[old(pos)..pos])
      {
        name := name + [Lower(src[pos])];
        pos := pos + 1;
      }
    }

    /** Copies bytes up to `b`, which is not taken. */
    method ReadUntil(b: byte) returns (s: text)
      requires Valid()
      modifies this
      ensures Valid() && pos == Until(src, old(pos), b) && s == src[old(pos)..pos]
    {
      s := [];
      while pos < |src| && src[pos] != b
        invariant Valid() && old(pos) <= pos && Until(src, pos, b) == Until(src, old(pos), b)
        invariant s == src[old(pos)..pos]
      {
        s := s + [src[pos]];
        pos := pos + 1;
      }
    }

    method ReadBareValue() returns (s: text)
      requires Valid()
      modifies this
      ensures Valid() && pos == BareEnd(src, old(pos)) && s == src[old(pos)..pos]
    {
      s := [];
      while pos < |src| && InBareValue(src[pos])
        invariant Valid() && old(pos) <= pos && BareEnd(src, pos) == BareEnd(src, old(pos))
        invariant s == src[old(pos)..pos]
      {
        s := s + [src[pos]];
        pos := pos + 1;
      }
    }

    method ReadAttrValue() returns (value: text)
      requires Valid()
      modifies this
      ensures Valid() && (value, pos) == AttrValue(src, old(pos))
    {
      SkipSpace();
      if Peek(src, pos) != EQUALS {
        return [];
      }
      pos := pos + 1;
      SkipSpace();
      var quote := Peek(src, pos);
      var s;
      if quote == QUOTE || quote == APOS {
        pos := pos + 1;
        s := ReadUntil(quote);
        if pos < |src| {
          pos := pos + 1;
        }
      } else {
        s := ReadBareValue();
      }
      value := CString(s);
    }

    /** Reads one attribute, or nothing if there is no name; the place reached is the one from
        which the attributes go on. */
    method ReadAttribute(attrs: seq<Attr>) returns (attrs': seq<Attr>)
      requires Valid() && SpaceEnd(src, pos) == pos && Peek(src, pos) !in {0, GREATER, SLASH}
      modifies this
      ensures Valid() && old(pos) < pos
      ensures Attributes(src, pos, attrs') == Attributes(src, old(pos), attrs)
    {
      var name := ReadAttrName();
      if name == [] {
        pos := pos + 1;
        return attrs;
      }
      var value := ReadAttrValue();
      attrs' := attrs + [Attr(name, value)];
    }

    method ReadAttributes() returns (attrs: seq<Attr>, selfClosing: bool)
      requires Valid()
      modifies this
      ensures Valid() && TagRest(attrs, selfClosing, pos) == Attributes(src, old(pos), [])
    {
      attrs, selfClosing := [], false;
      while pos < |src|
        invariant Valid() && Attributes(src, pos, attrs) == Attributes(src, old(pos), [])
        decreases |src| - pos
      {
        SkipSpace();
        var c := Peek(src, pos);
        if c == GREATER || c == 0 {
          return;
        }
        if c == SLASH {
          pos := pos + 1;
          SkipSpace();
          selfClosing := Peek(src, pos) == GREATER;
          return;
        }
        attrs := ReadAttribute(attrs);
      }
    }

    method ReadComment() returns (text: text)
      requires Valid()
      modifies this
      ensures Valid()
      ensures var k := CommentEnd(src, old(pos));
              text == src[old(pos)..k] && pos == if ClosesComment(src, k) then k + 3 else k
    {
      text := [];
      while pos + 2 < |src|
        invariant Valid() && old(pos) <= pos && CommentEnd(src, pos) == CommentEnd(src, old(pos))
        invariant text == src[old(pos)..pos]
      {
        if src[pos] == DASH && src[pos + 1] == DASH && src[pos + 2] == GREATER {
          pos := pos + 3;
          return;
        }
        text := text + [src[pos]];
        pos := pos + 1;
      }
    }

    method ReadNamedTag(kind: Kind) returns (token: Option<Token>)
      requires Valid()
      modifies this
      ensures Valid() && Lexed(token, pos) == NamedTag(src, old(pos), kind)
    {
      var name := ReadTagName();
      if name == [] {
        SkipPast(GREATER);
        return None;
      }
      var attrs, selfClosing := ReadAttributes();
      token := Some(Tag(if selfClosing then SelfClosing else kind, name, attrs));
      if pos < |src| && src[pos] == GREATER {
        pos := pos + 1;
      }
    }

    method ReadMarkup() returns (token: Option<Token>)
      requires Valid()
      modifies this
      ensures Valid() && Lexed(token, pos) == Markup(src, old(pos))
    {
      if Peek(src, pos) == BANG && Peek(src, pos + 1) == DASH {
        pos := pos + 2;
        if Peek(src, pos) == DASH {
          pos := pos + 1;
          var text := ReadComment();
          return Some(Comment(CString(text)));
        }
      }
      token := ReadTagOrDoctype();
    }

    method ReadTagOrDoctype() returns (token: Option<Token>)
      requires Valid()
      modifies this
      ensures Valid() && Lexed(token, pos) == TagOrDoctype(src, old(pos))
    {
      if pos < |src| && src[pos] == BANG {
        pos := pos + 1;
        SkipPast(GREATER);
        return Some(Doctype);
      }
      if pos < |src| && src[pos] == SLASH {
        pos := pos + 1;
        SkipSpace();
        token := ReadNamedTag(CloseTag);
      } else {
        token := ReadNamedTag(OpenTag);
      }
    }

    method ReadToken() returns (token: Option<Token>)
      requires Valid()
      modifies this
      ensures Valid() && Lexed(token, pos) == Next(src, old(pos))
    {
      if pos >= |src| {
        return Some(End);
      }
      if src[pos] == LESS {
        pos := pos + 1;
        token := ReadMarkup();
        return;
      }
      var raw := ReadUntil(LESS);
      var text := DecodeText(CString(raw));
      token := Some(Text(text));
    }

    /** Takes everything up to and with the end tag of a raw-text element. */
    method ReadRaw(tag: text) returns (s: text)
      requires Valid()
      modifies this
      ensures Valid()
      ensures var k := RawEnd(src, old(pos), tag);
              s == src[old(pos)..k] && pos == Past(src, k, GREATER)
    {
      s := [];
      while pos < |src| && !EndsRaw(src, pos, tag)
        invariant Valid() && old(pos) <= pos && RawEnd(src, pos, tag) == RawEnd(src, old(pos), tag)
        invariant s == src[old(pos)..pos]
      {
        s := s + [src[pos]];
        pos := pos + 1;
      }
      SkipPast(GREATER);
    }
  }
}
