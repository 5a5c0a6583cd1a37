/** Numbers written out in digits, and read back. */
module Numerals {
  import opened Bytes

  predicate IsHex(b: byte) {
    0x30 <= b <= 0x39 || 0x41 <= b <= 0x46 || 0x61 <= b <= 0x66
  }

  function Digit(b: byte): nat
    requires IsHex(b)
  {
    if b <= 0x39 then b - 0x30 else if b <= 0x46 then b - 0x41 + 10 else b - 0x61 + 10
  }

  predicate IsDigit(b: byte, base: nat) {
    IsHex(b) && Digit(b) < base
  }

  /** The number from place `i` on, added to what came before times the base. */
  function NumberFrom(acc: nat, s: seq<byte>, i: nat, base: nat): nat
    decreases |s| - i
  {
    if i >= |s| || !IsDigit(s[i], base) then acc
    else NumberFrom(acc * base + Digit(s[i]), s, i + 1, base)
  }

  function DigitByte(d: nat): (b: byte)
    requires d < 16
    ensures IsHex(b) && Digit(b) == d
  {
    if d < 10 then 0x30 + d else 0x61 + d - 10
  }

  /** A number written out in base 10 or 16. */
  function Numeral(n: nat, base: nat): (r: seq<byte>)
    requires base == 10 || base == 16
    ensures r != [] && forall i :: 0 <= i < |r| ==> IsDigit(r[i], base)
  {
    if n < base then [DigitByte(n)] else Numeral(n / base, base) + [DigitByte(n % base)]
  }

  lemma {:induction false} NumberAppend(acc: nat, s: seq<byte>, b: byte, i: nat, base: nat)
    requires i <= |s| && IsDigit(b, base) && forall j :: 0 <= j < |s| ==> IsDigit(s[j], base)
    ensures NumberFrom(acc, s + [b], i, base) == NumberFrom(acc, s, i, base) * base + Digit(b)
    decreases |s| - i
  {
    var t := s + [b];
    if i < |s| {
      assert t[i] == s[i];
      NumberAppend(acc * base + Digit(s[i]), s, b, i + 1, base);
    } else {
      assert t[i] == b;
    }
  }

  lemma {:induction false} NumeralRead(n: nat, base: nat)
    requires base == 10 || base == 16
    ensures NumberFrom(0, Numeral(n, base), 0, base) == n
    decreases n
  {
    if n >= base {
      NumeralRead(n / base, base);
      NumberAppend(0, Numeral(n / base, base), DigitByte(n % base), 0, base);
    }
  }

  lemma {:induction false} NumberAt(acc: nat, d: seq<byte>, s: seq<byte>, pos: nat, i: nat, base: nat)
    requires i <= |d| && StandsAt(s, pos, d) && forall j :: 0 <= j < |d| ==> IsDigit(d[j], base)
    requires pos + |d| == |s| || !IsDigit(s[pos + |d|], base)
    ensures NumberFrom(acc, s, pos + i, base) == NumberFrom(acc, d, i, base)
    decreases |d| - i
  {
    if i < |d| {
      assert s[pos + i] == s[pos..pos + |d|][i] == d[i];
      NumberAt(acc * base + Digit(d[i]), d, s, pos, i + 1, base);
    }
  }

  // ---------------------------------------------------------------- numbers in C strings

  const SPACE: byte := 0x20

  predicate IsSpace(b: byte) {
    b == SPACE || 9 <= b <= 13
  }

  function Lower(b: byte): byte {
    if 0x41 <= b <= 0x5A then b + 32 else b
  }

  /** The first place from `i` on that is not blank. */
  function SpaceEnd(s: seq<byte>, i: nat): (k: nat)
    requires i <= |s|
    ensures i <= k <= |s| && (k < |s| ==> !IsSpace(s[k]))
    decreases |s| - i
  {
    if i < |s| && IsSpace(s[i]) then SpaceEnd(s, i + 1) else i
  }


  predicate HasPrefix(s: seq<byte>, i: nat) {
    i + 2 < |s| && s[i] == 0x30 && Lower(s[i + 1]) == 0x78 && IsHex(s[i + 2])
  }

  predicate Signed(s: seq<byte>, i: nat) {
    i < |s| && (s[i] == 0x2B || s[i] == 0x2D)
  }

  /** The number at a place of a C string: blanks, a sign, "0x" in base 16, then digits. */
  function Number(s: seq<byte>, at: nat, base: nat): int
    requires at <= |s|
  {
    var i := SpaceEnd(s, at);
    var j := if Signed(s, i) then i + 1 else i;
    var n: int := NumberFrom(0, s, if base == 16 && HasPrefix(s, j) then j + 2 else j, base);
    if Signed(s, i) && s[i] == 0x2D then -n else n
  }

  /** A number that starts with a digit, and not with "0x", is what its digits say. */
  lemma PlainNumber(s: seq<byte>, at: nat, base: nat)
    requires at < |s| && IsDigit(s[at], base) && !(base == 16 && HasPrefix(s, at))
    ensures Number(s, at, base) == NumberFrom(0, s, at, base)
  {}

  /** A number is read as it was written. */
  lemma NumberRead(s: seq<byte>, at: nat, n: nat, base: nat)
    requires (base == 10 || base == 16) && at <= |s| && s[at..] == Numeral(n, base)
    ensures Number(s, at, base) == n
  {
    var d := Numeral(n, base);
    assert s[at..at + |d|] == d;
    assert s[at] == s[at..][0] && (|d| > 1 ==> s[at + 1] == s[at..][1]);
    PlainNumber(s, at, base);
    NumberAt(0, d, s, at, 0, base);
    NumeralRead(n, base);
  }
}
