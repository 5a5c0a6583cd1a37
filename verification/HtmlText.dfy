/** The strings of apps/browser/html_parser.c: character classes, C strings and the decoding of
    character references, against the escaping it undoes. */
module HtmlText {
  import opened Bytes
  import opened Numerals
  import opened Options

  type text = seq<byte>

  const AMP: byte := 0x26
  const SEMI: byte := 0x3B
  const LESS: byte := 0x3C

  predicate IsAlnum(b: byte) {
    0x30 <= b <= 0x39 || 0x41 <= b <= 0x5A || 0x61 <= b <= 0x7A
  }

  function Lowered(s: text): (r: text)
    ensures |r| == |s|
  {
    seq(|s|, i requires 0 <= i < |s| => Lower(s[i]))
  }

  /** Equal but for case. */
  predicate SameName(a: text, b: text) {
    Lowered(a) == Lowered(b)
  }

  /** The part of a buffer that is seen when it is read as a C string. */
  function CString(s: text): (r: text)
    ensures r <= s && 0 !in r
  {
    if s == [] || s[0] == 0 then [] else [s[0]] + CString(s[1..])
  }

  lemma {:induction false} CStringWhole(s: text)
    requires 0 !in s
    ensures CString(s) == s
  {
    if s != [] {
      CStringWhole(s[1..]);
    }
  }

  predicate Blank(s: text) {
    forall i :: 0 <= i < |s| ==> IsSpace(s[i])
  }

  // ---------------------------------------------------------------- character references

  const AMP_NAME: text := [0x61, 0x6D, 0x70]
  const LT_NAME: text := [0x6C, 0x74]

  /** The character a reference stands for. */
  function Entity(s: text): (r: Option<byte>)
    ensures r.Some? ==> 0 < r.value < 128
  {
    if s == [] then None
    else if s[0] == 0x23 then
      var n := if |s| > 1 && Lower(s[1]) == 0x78 then Number(s, 2, 16) else Number(s, 1, 10);
      if 0 < n < 128 then Some(n) else None
    else Named(s)
  }

  function Named(s: text): (r: Option<byte>)
    ensures r.Some? ==> 0 < r.value < 128
  {
    if s == AMP_NAME then Some(AMP)
    else if s == LT_NAME then Some(LESS)
    else if s == [0x67, 0x74] then Some(0x3E)
    else if s == [0x71, 0x75, 0x6F, 0x74] then Some(0x22)
    else if s == [0x61, 0x70, 0x6F, 0x73] then Some(0x27)
    else if s == [0x6E, 0x62, 0x73, 0x70] then Some(SPACE)
    else if s == [0x63, 0x6F, 0x70, 0x79] then Some(0x63)
    else if s == [0x72, 0x65, 0x67] then Some(0x72)
    else None
  }

  /** Where the search for the end of the reference at `i` stops. */
  function ReferenceEnd(s: text, i: nat, j: nat): (k: nat)
    requires i < j <= |s|
    ensures j <= k <= |s|
    decreases |s| - j
  {
    if j < |s| && s[j] != SEMI && s[j] != SPACE && j - i < 16 then ReferenceEnd(s, i, j + 1) else j
  }

  /** The end of the reference at `i` and its character, if there is one. */
  function Reference(s: text, i: nat): (r: Option<(byte, nat)>)
    requires i < |s|
    ensures r.Some? ==> 0 < r.value.0 < 128 && i < r.value.1 <= |s|
  {
    if s[i] != AMP then None
    else
      var j := ReferenceEnd(s, i, i + 1);
      if j == |s| || s[j] != SEMI then None
      else match Entity(s[i + 1..j])
        case None => None
        case Some(c) => Some((c, j + 1))
  }

  /** A text with its character references replaced. */
  function Decode(s: text, i: nat): text
    decreases |s| - i, 1
  {
    if i >= |s| then [] else DecodeAt(s, i)
  }

  function DecodeAt(s: text, i: nat): text
    requires i < |s|
    decreases |s| - i, 0
  {
    match Reference(s, i)
    case None => [s[i]] + Decode(s, i + 1)
    case Some((c, next)) => [c] + Decode(s, next)
  }

  /** A text written so that it has no `<`, and no `&` that is not a reference. */
  function Escaped(t: text): text {
    if t == [] then [] else EscapedByte(t[0]) + Escaped(t[1..])
  }

  function EscapedByte(b: byte): text {
    if b == AMP then [AMP] + AMP_NAME + [SEMI] else if b == LESS then [AMP] + LT_NAME + [SEMI] else [b]
  }

  /** An escaped text has no `<` and no NUL. */
  lemma {:induction false} EscapedIsPlain(t: text)
    requires 0 !in t
    ensures LESS !in Escaped(t) && 0 !in Escaped(t) && (t != [] ==> Escaped(t) != [])
  {
    if t != [] {
      EscapedIsPlain(t[1..]);
      ByteIsPlain(t[0]);
    }
  }

  lemma ByteIsPlain(b: byte)
    requires b != 0
    ensures LESS !in EscapedByte(b) && 0 !in EscapedByte(b) && EscapedByte(b) != []
  {}

  // ---------------------------------------------------------------- numeric references

  /** A numeric reference stands for its character, if it is ASCII, and for none otherwise. */
  lemma NumericReference(n: nat)
    ensures Entity([0x23] + Numeral(n, 10)) == if 0 < n < 128 then Some(n) else None
    ensures Entity([0x23, 0x78] + Numeral(n, 16)) == if 0 < n < 128 then Some(n) else None
  {
    var d, h := [0x23] + Numeral(n, 10), [0x23, 0x78] + Numeral(n, 16);
    assert d[1..] == Numeral(n, 10) && h[2..] == Numeral(n, 16);
    assert IsDigit(d[1], 10);
    NumberRead(d, 1, n, 10);
    NumberRead(h, 2, n, 16);
  }

  /** A reference by name stands for its character. */
  lemma ReferenceRead(s: text, i: nat, name: text, b: byte)
    requires StandsAt(s, i, [AMP] + name + [SEMI]) && |name| < 16 && SEMI !in name && SPACE !in name
    requires Entity(name) == Some(b)
    ensures Reference(s, i) == Some((b, i + |name| + 2))
  {
    var j := i + 1 + |name|;
    StandsSplit(s, i, [AMP] + name, [SEMI]);
    StandsSplit(s, i, [AMP], name);
    assert s[i] == s[i..i + 1][0] && s[j] == s[j..j + 1][0];
    assert forall x :: i + 1 <= x < j ==> s[x] == s[i + 1..j][x - i - 1] == name[x - i - 1];
    EndsAt(s, i, i + 1, j);
  }

  lemma Names()
    ensures Entity(AMP_NAME) == Some(AMP) && SEMI !in AMP_NAME && SPACE !in AMP_NAME
    ensures Entity(LT_NAME) == Some(LESS) && SEMI !in LT_NAME && SPACE !in LT_NAME
  {}

  lemma {:induction false} EndsAt(s: text, i: nat, j: nat, k: nat)
    requires i < j <= k < |s| && k - i <= 16 && s[k] == SEMI
    requires forall x :: j <= x < k ==> s[x] != SEMI && s[x] != SPACE
    ensures ReferenceEnd(s, i, j) == k
    decreases k - j
  {
    if j < k {
      EndsAt(s, i, j + 1, k);
    }
  }

  lemma DecodeByte(b: byte, s: text, i: nat, next: nat)
    requires StandsAt(s, i, EscapedByte(b)) && next == i + |EscapedByte(b)|
    ensures Decode(s, i) == [b] + Decode(s, next)
  {
    if b == AMP || b == LESS {
      Names();
      ReferenceRead(s, i, if b == AMP then AMP_NAME else LT_NAME, b);
    } else {
      assert s[i] == s[i..i + 1][0];
    }
  }

  lemma DecodeMore(t: text, s: text, i: nat, next: nat)
    requires t != [] && StandsAt(s, i, EscapedByte(t[0])) && next == i + |EscapedByte(t[0])|
    requires Decode(s, next) == t[1..]
    ensures Decode(s, i) == t
  {
    DecodeByte(t[0], s, i, next);
  }

  /** Decoding undoes escaping. */
  lemma {:induction false} DecodeEscaped(t: text, s: text, i: nat)
    requires i <= |s| && s[i..] == Escaped(t)
    ensures Decode(s, i) == t
    decreases |t|
  {
    if t != [] {
      var e := EscapedByte(t[0]);
      HeadAndTail(s, i, e, Escaped(t[1..]));
      DecodeEscaped(t[1..], s, i + |e|);
      DecodeMore(t, s, i, i + |e|);
    }
  }

  lemma HeadAndTail(s: text, i: nat, a: text, b: text)
    requires i <= |s| && s[i..] == a + b
    ensures StandsAt(s, i, a) && s[i + |a|..] == b
  {
    assert s[i..i + |a|] == s[i..][..|a|];
    assert s[i + |a|..] == s[i..][|a|..];
  }

  method FindReferenceEnd(s: text, i: nat) returns (j: nat)
    requires i < |s|
    ensures j == ReferenceEnd(s, i, i + 1)
  {
    j := i + 1;
    while j < |s| && s[j] != SEMI && s[j] != SPACE && j - i < 16
      invariant i < j <= |s| && ReferenceEnd(s, i, i + 1) == ReferenceEnd(s, i, j)
    {
      j := j + 1;
    }
  }

  method DecodeText(raw: text) returns (out: text)
    ensures out == Decode(raw, 0)
  {
    out := [];
    var i := 0;
    while i < |raw|
      invariant 0 <= i <= |raw| && out + Decode(raw, i) == Decode(raw, 0)
      decreases |raw| - i
    {
      var c, next := raw[i], i + 1;
      if raw[i] == AMP {
        var j := FindReferenceEnd(raw, i);
        if j < |raw| && raw[j] == SEMI && Entity(raw[i + 1..j]).Some? {
          c, next := Entity(raw[i + 1..j]).value, j + 1;
        }
      }
      Regroup(out, [c], Decode(raw, next));
      out := out + [c];
      i := next;
    }
  }
}
