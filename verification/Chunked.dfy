/** Decoding of the chunked transfer coding (section 7.1 of RFC 9112) in
    apps/browser/http_client.c, against the encoding, whole or cut off anywhere. */
module Chunked {
  import opened Bytes
  import opened Numerals

  const CR: byte := 13
  const LF: byte := 10

  /** Where the first CR-LF from place `i` on is, if it comes before any NUL; else the length. */
  function FindCrlf(s: seq<byte>, i: nat): (k: nat)
    requires i <= |s|
    ensures i <= k <= |s|
    decreases |s| - i
  {
    if i + 1 >= |s| || s[i] == 0 then |s|
    else if s[i] == CR && s[i + 1] == LF then i
    else FindCrlf(s, i + 1)
  }

  lemma {:induction false} CrlfInside(s: seq<byte>, i: nat)
    requires i <= |s|
    ensures FindCrlf(s, i) < |s| ==> FindCrlf(s, i) + 2 <= |s|
    decreases |s| - i
  {
    if i + 1 < |s| {
      CrlfInside(s, i + 1);
    }
  }

  // ---------------------------------------------------------------- sizes

  /** The number of values of `size_t`. */
  const SIZES: nat := 0x1_0000_0000_0000_0000

  /** No object in memory is this long. */
  const OBJECT_MAX: nat := 0x8000_0000_0000_0000

  /** A number as `strtoul` returns it: negated when it has a sign, the largest when too large. */
  function Unsigned(n: int): (r: nat)
    ensures r < SIZES
  {
    if n >= SIZES || n + SIZES <= 0 then SIZES - 1 else if n < 0 then SIZES + n else n
  }

  function ChunkSize(s: seq<byte>, pos: nat): (r: nat)
    requires pos <= |s|
    ensures r < SIZES
  {
    Unsigned(Number(s, pos, 16))
  }

  /** The end of a chunk as the decoder adds it up. */
  function EndOf(start: nat, size: nat): nat {
    (start + size) % SIZES
  }

  /** The test whether a chunk is all there is right exactly for sizes that do not wrap around. */
  lemma EndExactly(start: nat, size: nat, length: nat)
    requires start <= length < OBJECT_MAX && size < SIZES
    ensures EndOf(start, size) <= length <==> start + size <= length || start + size >= SIZES
  {
    if start + size < SIZES {
      assert EndOf(start, size) == start + size;
    } else {
      assert EndOf(start, size) == start + size - SIZES;
    }
  }

  // ---------------------------------------------------------------- decoding

  /** A size line: none, one whose data is not all there, one whose data would reach past all
      memory, or one whose data can be taken. */
  datatype Header = Broken | Wild | Header(size: nat, start: nat)

  /** The size that the line at `pos` announces and where its data starts. */
  function ReadHeader(s: seq<byte>, pos: nat): (h: Header)
    requires pos <= |s|
    ensures h.Header? ==> 0 < h.size && pos < h.start && h.start + h.size <= |s|
  {
    var i, size := FindCrlf(s, pos), ChunkSize(s, pos);
    if i == |s| || size == 0 then Broken
    else if i + 2 + size >= SIZES then Wild
    else if i + 2 + size > |s| then Broken
    else Header(size, i + 2)
  }

  /** No size line that is reached announces data that reaches past all memory. */
  predicate InBounds(s: seq<byte>, pos: nat)
    decreases |s| - pos
  {
    pos >= |s| ||
    match ReadHeader(s, pos)
    case Broken => true
    case Wild => false
    case Header(size, start) => InBounds(s, start + size + 2)
  }

  lemma InBoundsStep(s: seq<byte>, pos: nat, next: nat)
    requires pos < |s|
    requires var h := ReadHeader(s, pos); h.Header? && next == h.start + h.size + 2
    ensures InBounds(s, pos) <==> InBounds(s, next)
  {}

  /** Sizes below half of memory never wrap around. */
  lemma SmallSizes(s: seq<byte>, pos: nat)
    requires pos <= |s| < OBJECT_MAX && ChunkSize(s, pos) < OBJECT_MAX - 1
    ensures ReadHeader(s, pos) != Wild
  {}

  /** What the decoder makes of the bytes from a chunk's size line on: never more than it was
      given, whatever the bytes are. */
  function Decoded(s: seq<byte>, pos: nat): (r: seq<byte>)
    ensures pos <= |s| ==> |r| <= |s| - pos
    decreases |s| - pos
  {
    if pos >= |s| then [] else DecodedChunk(s, ReadHeader(s, pos))
  }

  /** The data a header announces, then the following chunks. */
  function DecodedChunk(s: seq<byte>, h: Header): (r: seq<byte>)
    requires h.Header? ==> 0 < h.size && h.start + h.size <= |s|
    ensures |r| <= if h.Header? then |s| - h.start else 0
    decreases if h.Header? then |s| - h.start else 0
  {
    match h
    case Broken => []
    case Wild => []
    case Header(size, start) => s[start..start + size] + Decoded(s, start + size + 2)
  }

  lemma DecodedStep(s: seq<byte>, pos: nat, data: seq<byte>, next: nat)
    requires pos < |s|
    requires var h := ReadHeader(s, pos);
             h.Header? && data == s[h.start..h.start + h.size] && next == h.start + h.size + 2
    ensures Decoded(s, pos) == data + Decoded(s, next)
  {
    assert Decoded(s, pos) == DecodedChunk(s, ReadHeader(s, pos));
  }

  // ---------------------------------------------------------------- encoding

  /** A chunk: its size in hexadecimal, any extension after it, and its bytes. */
  datatype Chunk = Chunk(digits: seq<byte>, ext: seq<byte>, data: seq<byte>)

  predicate WellFormed(c: Chunk) {
    && c.digits != [] && (forall i :: 0 <= i < |c.digits| ==> IsHex(c.digits[i]))
    && (forall i :: 0 <= i < |c.ext| ==> c.ext[i] != CR && c.ext[i] != 0)
    && (c.ext != [] ==> !IsHex(c.ext[0]))
    && NumberFrom(0, c.digits, 0, 16) == |c.data| && 0 < |c.data| < OBJECT_MAX
  }

  predicate AllWellFormed(cs: seq<Chunk>) {
    forall i :: 0 <= i < |cs| ==> WellFormed(cs[i])
  }

  function SizeLine(c: Chunk): seq<byte> {
    c.digits + c.ext
  }

  function UpToData(c: Chunk): seq<byte> {
    SizeLine(c) + [CR, LF] + c.data
  }

  function Coded(c: Chunk): seq<byte> {
    UpToData(c) + [CR, LF]
  }

  /** The last chunk, of size zero, and an empty trailer. */
  const LAST: seq<byte> := [0x30, CR, LF, CR, LF]

  function Encoded(cs: seq<Chunk>): seq<byte> {
    if cs == [] then LAST else Coded(cs[0]) + Encoded(cs[1..])
  }

  function Payload(cs: seq<Chunk>): seq<byte> {
    if cs == [] then [] else cs[0].data + Payload(cs[1..])
  }

  /** How many chunks have all their data within the first `n` bytes of the encoding. */
  function Arrived(cs: seq<Chunk>, n: int): (k: nat)
    ensures k <= |cs|
  {
    if cs == [] || n < |UpToData(cs[0])| then 0
    else 1 + Arrived(cs[1..], n - |Coded(cs[0])|)
  }

  // ---------------------------------------------------------------- size lines

  lemma {:induction false} CrlfAt(s: seq<byte>, i: nat, k: nat)
    requires i <= k < |s| - 1 && s[k] == CR && s[k + 1] == LF
    requires forall j :: i <= j < k ==> s[j] != CR && s[j] != 0
    ensures FindCrlf(s, i) == k
    decreases k - i
  {
    if i < k {
      CrlfAt(s, i + 1, k);
    }
  }

  lemma {:induction false} NoCrlf(s: seq<byte>, i: nat)
    requires i <= |s| && forall j :: i <= j < |s| - 1 ==> s[j] != CR
    ensures FindCrlf(s, i) == |s|
    decreases |s| - i
  {
    if i + 1 < |s| {
      NoCrlf(s, i + 1);
    }
  }

  lemma SizeOf(c: Chunk, s: seq<byte>, pos: nat)
    requires WellFormed(c) && StandsAt(s, pos, SizeLine(c) + [CR, LF])
    ensures ChunkSize(s, pos) == |c.data|
  {
    assert SizeLine(c) + [CR, LF] == c.digits + (c.ext + [CR, LF]);
    StandsSplit(s, pos, c.digits, c.ext + [CR, LF]);
    assert s[pos + |c.digits|] == (c.ext + [CR, LF])[0];
    NumberAt(0, c.digits, s, pos, 0, 16);
    NoPrefix(c.digits, s, pos);
    PlainNumber(s, pos, 16);
  }

  lemma NoPrefix(d: seq<byte>, s: seq<byte>, pos: nat)
    requires d != [] && (forall i :: 0 <= i < |d| ==> IsHex(d[i])) && NumberFrom(0, d, 0, 16) > 0 && StandsAt(s, pos, d)
    ensures IsHex(s[pos]) && !HasPrefix(s, pos)
  {
    assert s[pos] == s[pos..pos + |d|][0] == d[0];
    if |d| > 1 {
      assert s[pos + 1] == s[pos..pos + |d|][1] == d[1];
    } else {
      assert NumberFrom(0, d, 0, 16) == Digit(d[0]);
    }
  }

  lemma LineEndOf(c: Chunk, s: seq<byte>, pos: nat)
    requires WellFormed(c) && StandsAt(s, pos, SizeLine(c) + [CR, LF])
    ensures FindCrlf(s, pos) == pos + |SizeLine(c)|
  {
    var line := SizeLine(c) + [CR, LF];
    var k := |SizeLine(c)|;
    assert forall j :: pos <= j < pos + |line| ==> s[j] == s[pos..pos + |line|][j - pos] == line[j - pos];
    assert s[pos + k] == line[k] == CR && s[pos + k + 1] == line[k + 1] == LF;
    CrlfAt(s, pos, pos + k);
  }

  /** The size line of a chunk is read as it was written, whatever the next bytes are. */
  lemma HeaderOf(c: Chunk, s: seq<byte>, pos: nat)
    requires WellFormed(c) && |s| < OBJECT_MAX && StandsAt(s, pos, SizeLine(c) + [CR, LF])
    ensures var start := pos + |SizeLine(c)| + 2;
            ReadHeader(s, pos) == if start + |c.data| > |s| then Broken else Header(|c.data|, start)
  {
    SizeOf(c, s, pos);
    LineEndOf(c, s, pos);
  }

  /** Any data can be sent in a chunk: its size in hexadecimal is one that is read back. */
  lemma ChunkExists(data: seq<byte>)
    requires 0 < |data| < OBJECT_MAX
    ensures WellFormed(Chunk(Numeral(|data|, 16), [], data))
  {
    NumeralRead(|data|, 16);
  }

  // ---------------------------------------------------------------- whole and cut-off encodings

  lemma WholeHeader(c: Chunk, s: seq<byte>, pos: nat, next: nat) returns (h: Header)
    requires WellFormed(c) && |s| < OBJECT_MAX && StandsAt(s, pos, UpToData(c)) && next == pos + |Coded(c)|
    ensures pos < |s| && h == ReadHeader(s, pos) && h.Header?
    ensures s[h.start..h.start + h.size] == c.data && next == h.start + h.size + 2
  {
    StandsSplit(s, pos, SizeLine(c) + [CR, LF], c.data);
    HeaderOf(c, s, pos);
    h := ReadHeader(s, pos);
  }

  /** A chunk whose data is all there is decoded, whatever follows. */
  lemma DecodeWhole(c: Chunk, s: seq<byte>, pos: nat, next: nat)
    requires WellFormed(c) && |s| < OBJECT_MAX && StandsAt(s, pos, UpToData(c)) && next == pos + |Coded(c)|
    ensures Decoded(s, pos) == c.data + Decoded(s, next)
    ensures InBounds(s, pos) <==> InBounds(s, next)
  {
    var _ := WholeHeader(c, s, pos, next);
    DecodedStep(s, pos, c.data, next);
    InBoundsStep(s, pos, next);
  }

  /** A chunk cut off before the end of its data yields nothing. */
  lemma DecodePart(c: Chunk, s: seq<byte>, pos: nat)
    requires WellFormed(c) && |s| < OBJECT_MAX && pos <= |s| < pos + |UpToData(c)| && s[pos..] <= UpToData(c)
    ensures InBounds(s, pos) && Decoded(s, pos) == []
  {
    var line := SizeLine(c) + [CR, LF];
    if |s| < pos + |line| {
      assert forall j :: pos <= j < |s| ==> s[j] == s[pos..][j - pos] == UpToData(c)[j - pos] == line[j - pos];
      NoCrlf(s, pos);
    } else {
      assert s[pos..pos + |line|] == s[pos..][..|line|] == UpToData(c)[..|line|] == line;
      HeaderOf(c, s, pos);
    }
  }

  lemma DecodeEnd(s: seq<byte>, pos: nat)
    requires pos <= |s| && s[pos..] <= LAST
    ensures InBounds(s, pos) && Decoded(s, pos) == []
  {
    assert forall j :: pos <= j < |s| ==> s[j] == s[pos..][j - pos] == LAST[j - pos];
    if |s| < pos + 3 {
      NoCrlf(s, pos);
    } else {
      PlainNumber(s, pos, 16);
      assert NumberFrom(0, s, pos, 16) == NumberFrom(0, s, pos + 1, 16) == 0;
    }
  }

  /** The decoder stays in bounds and yields the data of the chunks that have arrived. */
  ghost predicate Yields(cs: seq<Chunk>, s: seq<byte>, pos: nat) {
    InBounds(s, pos) && Decoded(s, pos) == Payload(cs[..Arrived(cs, |s| - pos)])
  }

  lemma NoneArrived(cs: seq<Chunk>, s: seq<byte>, pos: nat)
    requires cs != [] && WellFormed(cs[0]) && |s| < OBJECT_MAX
    requires pos <= |s| < pos + |UpToData(cs[0])| && s[pos..] <= UpToData(cs[0])
    ensures Yields(cs, s, pos)
  {
    DecodePart(cs[0], s, pos);
    assert cs[..0] == [];
  }

  lemma NothingLeft(cs: seq<Chunk>, s: seq<byte>, pos: nat)
    requires |s| < pos
    ensures Yields(cs, s, pos)
  {
    assert cs[..0] == [];
  }

  lemma OneMore(cs: seq<Chunk>, s: seq<byte>, pos: nat, next: nat)
    requires cs != [] && WellFormed(cs[0]) && |s| < OBJECT_MAX && StandsAt(s, pos, UpToData(cs[0]))
    requires next == pos + |Coded(cs[0])| && Yields(cs[1..], s, next)
    ensures Yields(cs, s, pos)
  {
    DecodeWhole(cs[0], s, pos, next);
    ArrivedMore(cs, |s| - pos, Arrived(cs[1..], |s| - next), Decoded(s, next));
  }

  lemma {:induction false} BeginningYields(cs: seq<Chunk>, s: seq<byte>, pos: nat)
    requires AllWellFormed(cs) && pos <= |s| < OBJECT_MAX && s[pos..] <= Encoded(cs)
    ensures Yields(cs, s, pos)
    decreases |cs|
  {
    if cs == [] {
      DecodeEnd(s, pos);
    } else {
      Cut(cs[0], Encoded(cs[1..]), s, pos);
      var next := pos + |Coded(cs[0])|;
      if |s| < next - 2 {
        NoneArrived(cs, s, pos);
      } else {
        if next <= |s| {
          BeginningYields(cs[1..], s, next);
        } else {
          NothingLeft(cs[1..], s, next);
        }
        OneMore(cs, s, pos, next);
      }
    }
  }

  /** Decoding any beginning of an encoding yields the data of the chunks that have arrived. */
  lemma DecodeTruncated(cs: seq<Chunk>, n: nat)
    requires AllWellFormed(cs) && n <= |Encoded(cs)| && n < OBJECT_MAX
    ensures InBounds(Encoded(cs)[..n], 0)
    ensures Decoded(Encoded(cs)[..n], 0) == Payload(cs[..Arrived(cs, n)])
  {
    var s := Encoded(cs)[..n];
    assert s[0..] == s;
    BeginningYields(cs, s, 0);
  }

  lemma ArrivedMore(cs: seq<Chunk>, n: int, k: nat, rest: seq<byte>)
    requires cs != [] && |UpToData(cs[0])| <= n
    requires k == Arrived(cs[1..], n - |Coded(cs[0])|) && rest == Payload(cs[1..][..k])
    ensures Payload(cs[..Arrived(cs, n)]) == cs[0].data + rest
  {
    TakeMore(cs, k, rest);
  }

  /** What is there of an encoding starts with what is there of its first chunk. */
  lemma Cut(c: Chunk, more: seq<byte>, s: seq<byte>, pos: nat)
    requires pos <= |s| && s[pos..] <= Coded(c) + more
    ensures var n := |UpToData(c)|;
            && (|s| < pos + n ==> s[pos..] <= UpToData(c))
            && (|s| >= pos + n ==> StandsAt(s, pos, UpToData(c)))
            && (|s| >= pos + n + 2 ==> s[pos + n + 2..] <= more)
  {
    var n, all := |UpToData(c)|, Coded(c) + more;
    assert s[pos..] == all[..|s| - pos];
    assert all[..n] == UpToData(c) && all[n + 2..] == more;
    if |s| < pos + n {
      assert s[pos..] == all[..n][..|s| - pos];
    } else {
      assert s[pos..pos + n] == s[pos..][..n] == all[..n];
      if |s| >= pos + n + 2 {
        assert s[pos + n + 2..] == s[pos..][n + 2..] == all[n + 2..][..|s| - pos - n - 2];
      }
    }
  }

  lemma TakeMore(cs: seq<Chunk>, k: nat, rest: seq<byte>)
    requires k < |cs| && rest == Payload(cs[1..][..k])
    ensures Payload(cs[..k + 1]) == cs[0].data + rest
  {
    assert cs[..k + 1][1..] == cs[1..][..k];
  }

  /** Decoding a whole encoding gives the payload back. */
  lemma RoundTrip(cs: seq<Chunk>)
    requires AllWellFormed(cs) && |Encoded(cs)| < OBJECT_MAX
    ensures InBounds(Encoded(cs), 0) && Decoded(Encoded(cs), 0) == Payload(cs)
  {
    DecodeTruncated(cs, |Encoded(cs)|);
    AllArrived(cs);
    assert Encoded(cs)[..|Encoded(cs)|] == Encoded(cs) && cs[..|cs|] == cs;
  }

  lemma {:induction false} AllArrived(cs: seq<Chunk>)
    ensures Arrived(cs, |Encoded(cs)|) == |cs|
    decreases |cs|
  {
    if cs != [] {
      AllArrived(cs[1..]);
    }
  }

  /** What a truncated encoding decodes to is the beginning of the payload. */
  lemma {:induction false} TruncationIsPrefix(cs: seq<Chunk>, k: nat)
    requires k <= |cs|
    ensures Payload(cs[..k]) <= Payload(cs)
    decreases k
  {
    if k > 0 {
      TruncationIsPrefix(cs[1..], k - 1);
      assert cs[..k][1..] == cs[1..][..k - 1];
    }
  }

  // ---------------------------------------------------------------- the decoder

  /** Fills an output buffer as long as the input, which has room for all that it copies. */
  method Decode(body: seq<byte>) returns (out: array<byte>, wpos: nat)
    requires |body| < OBJECT_MAX && InBounds(body, 0)
    ensures fresh(out) && wpos <= |body| < out.Length && out[..wpos] == Decoded(body, 0)
  {
    out := new byte[|body| + 1](_ => 0);
    var pos := 0;
    wpos := 0;
    var more := true;
    while more && pos < |body|
      invariant wpos <= pos && wpos <= |body| && fresh(out) && out.Length == |body| + 1
      invariant InBounds(body, pos) && out[..wpos] + Decoded(body, pos) == Decoded(body, 0)
      invariant !more ==> Decoded(body, pos) == []
      decreases more, |body| - pos
    {
      more, wpos, pos := DecodeOne(body, pos, out, wpos);
    }
    out[wpos] := 0;
  }

  /** Decodes the chunk at `pos`, unless there is none that is whole. */
  method DecodeOne(body: seq<byte>, pos: nat, out: array<byte>, wpos: nat)
    returns (more: bool, wpos': nat, pos': nat)
    requires wpos <= pos < |body| < out.Length && |body| < OBJECT_MAX && InBounds(body, pos)
    modifies out
    ensures wpos' <= pos' && wpos' <= |body| && (more ==> pos < pos') && InBounds(body, pos')
    ensures out[..wpos'] + Decoded(body, pos') == old(out[..wpos]) + Decoded(body, pos)
    ensures !more ==> Decoded(body, pos') == []
  {
    var data, next := ReadChunk(body, pos);
    if data == [] {
      return false, wpos, pos;
    }
    more, wpos', pos' := true, wpos + |data|, next;
    Regroup(out[..wpos], data, Decoded(body, next));
    CopyOut(out, wpos, data);
  }

  /** The data of the chunk at `pos` and where the next one starts. */
  method ReadChunk(body: seq<byte>, pos: nat) returns (data: seq<byte>, next: nat)
    requires pos < |body| < OBJECT_MAX && InBounds(body, pos)
    ensures data != [] ==>
      && pos + |data| < next && pos + |data| <= |body| && InBounds(body, next)
      && Decoded(body, pos) == data + Decoded(body, next)
    ensures data == [] ==> Decoded(body, pos) == []
  {
    var h := ReadLine(body, pos);
    if h == Broken {
      return [], pos;
    }
    data, next := body[h.start..h.start + h.size], h.start + h.size + 2;
    DecodedStep(body, pos, data, next);
  }

  /** Reads a size line, with the sum of place and size taken the way the decoder takes it. */
  method ReadLine(body: seq<byte>, pos: nat) returns (h: Header)
    requires pos < |body| < OBJECT_MAX && ReadHeader(body, pos) != Wild
    ensures h == ReadHeader(body, pos)
  {
    var crlf := FindCrlf(body, pos);
    if crlf == |body| {
      return Broken;
    }
    var size := ChunkSize(body, pos);
    CrlfInside(body, pos);
    EndExactly(crlf + 2, size, |body|);
    if size == 0 || EndOf(crlf + 2, size) > |body| {
      return Broken;
    }
    h := Header(size, crlf + 2);
  }

  method CopyOut(out: array<byte>, at: nat, data: seq<byte>)
    requires at + |data| <= out.Length
    modifies out
    ensures out[..at + |data|] == old(out[..at]) + data
  {
    forall i | 0 <= i < |data| {
      out[at + i] := data[i];
    }
  }
}
