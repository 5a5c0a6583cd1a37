/** Bytes, strings of bytes, and the 32-bit words stored in them. */
module Bytes {

  type byte = b: int | 0 <= b < 256

  type word = n: int | 0 <= n < 0x1_0000_0000

  /** A word in memory, lowest byte first. */
  function Store(n: word): (r: seq<byte>)
    ensures |r| == 4
  {
    [n % 256, n / 256 % 256, n / 256 / 256 % 256, n / 256 / 256 / 256]
  }

  function Load(s: seq<byte>): word
    requires |s| >= 4
  {
    var a: int, b: int, c: int, d: int := s[0], s[1], s[2], s[3];
    a + 256 * (b + 256 * (c + 256 * d))
  }

  lemma LoadStore(n: word, rest: seq<byte>)
    ensures Load(Store(n) + rest) == n
  {
    var m := n / 256;
    assert m == m % 256 + 256 * (m / 256) && n == n % 256 + 256 * m;
    assert (Store(n) + rest)[..4] == Store(n);
  }

  /** The whole of `part` stands at `pos`. */
  predicate StandsAt(s: seq<byte>, pos: nat, part: seq<byte>) {
    pos + |part| <= |s| && s[pos..pos + |part|] == part
  }

  lemma StandsSplit(s: seq<byte>, pos: nat, a: seq<byte>, b: seq<byte>)
    ensures StandsAt(s, pos, a + b) <==> StandsAt(s, pos, a) && StandsAt(s, pos + |a|, b)
  {
    if StandsAt(s, pos, a + b) {
      assert s[pos..pos + |a|] == (a + b)[..|a|] == a;
      assert s[pos + |a|..pos + |a + b|] == (a + b)[|a|..] == b;
    }
    if StandsAt(s, pos, a) && StandsAt(s, pos + |a|, b) {
      assert s[pos..pos + |a + b|] == s[pos..pos + |a|] + s[pos + |a|..pos + |a + b|];
    }
  }

  lemma Regroup<T>(a: seq<T>, b: seq<T>, c: seq<T>)
    ensures (a + b) + c == a + (b + c)
  {}
}
