/** Substring search and replacement on flat texts: what the search loops of
    apps/text_editor/buffer.c compute. */
module TextSearch {
  import opened EditHistory

  /** Letters compare as lower case unless the search is case sensitive. */
  function Fold(c: char, exact: bool): char {
    if !exact && 'A' <= c <= 'Z' then (c as int + 32) as char else c
  }

  predicate SameText(a: string, b: string, exact: bool) {
    |a| == |b| && forall j :: 0 <= j < |a| ==> Fold(a[j], exact) == Fold(b[j], exact)
  }

  predicate MatchesAt(s: string, i: nat, needle: string, exact: bool) {
    i + |needle| <= |s| && SameText(s[i..i + |needle|], needle, exact)
  }

  predicate NoMatchIn(s: string, lo: nat, hi: nat, needle: string, exact: bool) {
    forall i: nat :: lo <= i < hi ==> !MatchesAt(s, i, needle, exact)
  }

  lemma MatchShift(a: string, b: string, i: nat, needle: string, exact: bool)
    ensures MatchesAt(a + b, |a| + i, needle, exact) <==> MatchesAt(b, i, needle, exact)
  {
    if i + |needle| <= |b| {
      assert (a + b)[|a| + i..|a| + i + |needle|] == b[i..i + |needle|];
    }
  }

  /** Searching `s` from `from` on inside a buffer that shows `done` before it. */
  lemma NoMatchShift(done: string, s: string, from: nat, n: nat, needle: string, exact: bool)
    requires from <= |s|
    requires NoMatchIn(done + s[from..], |done|, |done| + n, needle, exact)
    ensures NoMatchIn(s, from, from + n, needle, exact)
  {
    forall i: nat | from <= i < from + n
      ensures !MatchesAt(s, i, needle, exact)
    {
      MatchShift(done, s[from..], i - from, needle, exact);
      MatchShift(s[..from], s[from..], i - from, needle, exact);
      assert s == s[..from] + s[from..];
    }
  }

  /** `i` is the first match at or after `lo`. */
  predicate FirstFrom(s: string, lo: nat, i: nat, needle: string, exact: bool) {
    lo <= i && MatchesAt(s, i, needle, exact) && NoMatchIn(s, lo, i, needle, exact)
  }

  lemma FirstUnique(s: string, lo: nat, i: nat, j: nat, needle: string, exact: bool)
    requires FirstFrom(s, lo, i, needle, exact) && FirstFrom(s, lo, j, needle, exact)
    ensures i == j
  {}

  // ---------------------------------------------------------------- replacement

  /** Where the search for hit `k` starts: after the hit before it. */
  function Resume(hits: seq<nat>, k: nat, n: nat): nat
    requires k <= |hits|
  {
    if k == 0 then 0 else hits[k - 1] + n
  }

  /** Hits found one after the other, each the first match after the one before it. */
  predicate LeftmostHits(s: string, needle: string, exact: bool, hits: seq<nat>) {
    forall k {:trigger Resume(hits, k, |needle|)} :: 0 <= k < |hits| ==>
      FirstFrom(s, Resume(hits, k, |needle|), hits[k], needle, exact)
  }

  /** All the leftmost non-overlapping matches of the text. */
  predicate AllHits(s: string, needle: string, exact: bool, hits: seq<nat>) {
    LeftmostHits(s, needle, exact, hits)
    && NoMatchIn(s, Resume(hits, |hits|, |needle|), |s| + 1, needle, exact)
  }

  lemma MatchBefore(s: string, lo: nat, i: nat, needle: string, exact: bool)
    requires NoMatchIn(s, lo, |s| + 1, needle, exact) && MatchesAt(s, i, needle, exact)
    ensures i < lo
  {}

  lemma {:induction false} HitsAgree(s: string, needle: string, exact: bool, a: seq<nat>, b: seq<nat>, k: nat)
    requires AllHits(s, needle, exact, a) && LeftmostHits(s, needle, exact, b) && k <= |b|
    ensures k <= |a| && forall i :: 0 <= i < k ==> a[i] == b[i]
  {
    if k > 0 {
      HitsAgree(s, needle, exact, a, b, k - 1);
      var lo := Resume(b, k - 1, |needle|);
      assert FirstFrom(s, lo, b[k - 1], needle, exact);
      MatchBefore(s, Resume(a, |a|, |needle|), b[k - 1], needle, exact);
      assert Resume(a, k - 1, |needle|) == lo;
      FirstUnique(s, lo, a[k - 1], b[k - 1], needle, exact);
    }
  }

  /** The leftmost non-overlapping matches are determined by the text and the needle. */
  lemma HitsUnique(s: string, needle: string, exact: bool, a: seq<nat>, b: seq<nat>)
    requires AllHits(s, needle, exact, a) && AllHits(s, needle, exact, b)
    ensures a == b
  {
    HitsAgree(s, needle, exact, a, b, |b|);
    HitsAgree(s, needle, exact, b, a, |a|);
  }

  /** Hits within the text, each after the one before it. */
  predicate Fit(s: string, hits: seq<nat>, n: nat) {
    forall k {:trigger Resume(hits, k, n)} :: 0 <= k < |hits| ==>
      Resume(hits, k, n) <= hits[k] && hits[k] + n <= |s|
  }

  lemma LeftmostFit(s: string, needle: string, exact: bool, hits: seq<nat>)
    requires LeftmostHits(s, needle, exact, hits)
    ensures Fit(s, hits, |needle|)
  {
    forall k {:trigger Resume(hits, k, |needle|)} | 0 <= k < |hits|
      ensures Resume(hits, k, |needle|) <= hits[k] && hits[k] + |needle| <= |s|
    {
      assert FirstFrom(s, Resume(hits, k, |needle|), hits[k], needle, exact);
    }
  }

  /** The text up to and including the replacement of hit `k - 1`. */
  function Rebuilt(s: string, hits: seq<nat>, n: nat, repl: string, k: nat): string
    requires Fit(s, hits, n) && k <= |hits|
  {
    if k == 0 then ""
    else Rebuilt(s, hits, n, repl, k - 1) + s[Resume(hits, k - 1, n)..hits[k - 1]] + repl
  }

  /** The whole text with every hit replaced at once. */
  function ReplacedText(s: string, hits: seq<nat>, n: nat, repl: string): string
    requires Fit(s, hits, n)
  {
    ResumeFits(s, hits, n, |hits|);
    Rebuilt(s, hits, n, repl, |hits|) + s[Resume(hits, |hits|, n)..]
  }

  lemma ResumeFits(s: string, hits: seq<nat>, n: nat, k: nat)
    requires Fit(s, hits, n) && k <= |hits|
    ensures Resume(hits, k, n) <= |s|
  {
    if k > 0 {
      assert Resume(hits, k - 1, n) <= hits[k - 1];
    }
  }

  lemma OneMore(n: int, d: int)
    ensures (n + 1) * d == n * d + d
  {}

  lemma {:induction false} RebuiltLength(s: string, hits: seq<nat>, n: nat, repl: string, k: nat)
    requires Fit(s, hits, n) && k <= |hits|
    ensures |Rebuilt(s, hits, n, repl, k)| == Resume(hits, k, n) + k * (|repl| - n)
  {
    if k > 0 {
      RebuiltLength(s, hits, n, repl, k - 1);
      OneMore(k - 1, |repl| - n);
    }
  }

  /** The text grows by the length difference once for each hit. */
  lemma ReplacedLength(s: string, hits: seq<nat>, n: nat, repl: string)
    requires Fit(s, hits, n)
    ensures |ReplacedText(s, hits, n, repl)| == |s| + |hits| * (|repl| - n)
  {
    ResumeFits(s, hits, n, |hits|);
    RebuiltLength(s, hits, n, repl, |hits|);
  }

  /** Where hit `k` is in the buffer once the hits before it have been replaced. */
  function HitPos(s: string, hits: seq<nat>, n: nat, repl: string, k: nat): nat
    requires Fit(s, hits, n) && k < |hits|
  {
    |Rebuilt(s, hits, n, repl, k)| + (hits[k] - Resume(hits, k, n))
  }

  /** The edits that replace one hit. */
  function RoundOps(p: nat, n: nat, repl: string): seq<Op> {
    [Delete(p, n)] + if repl == "" then [] else [Insert(p, repl)]
  }

  /** The edits that replace the first `k` hits, one after the other. */
  function ReplaceOps(s: string, hits: seq<nat>, n: nat, repl: string, k: nat): seq<Op>
    requires Fit(s, hits, n) && k <= |hits|
  {
    if k == 0 then []
    else
      ReplaceOps(s, hits, n, repl, k - 1) + RoundOps(HitPos(s, hits, n, repl, k - 1), n, repl)
  }

  /** Two edits for each hit, or one when the replacement is empty. */
  lemma {:induction false} ReplaceOpsCount(s: string, hits: seq<nat>, n: nat, repl: string, k: nat)
    requires Fit(s, hits, n) && k <= |hits|
    ensures |ReplaceOps(s, hits, n, repl, k)| == if repl == "" then k else 2 * k
  {
    if k > 0 {
      ReplaceOpsCount(s, hits, n, repl, k - 1);
    }
  }

  // ---------------------------------------------------------------- running the edits

  lemma LeftmostAppend(s: string, needle: string, exact: bool, hits: seq<nat>, h: nat)
    requires LeftmostHits(s, needle, exact, hits)
    requires FirstFrom(s, Resume(hits, |hits|, |needle|), h, needle, exact)
    ensures LeftmostHits(s, needle, exact, hits + [h])
  {
    forall k {:trigger Resume(hits + [h], k, |needle|)} | 0 <= k < |hits + [h]|
      ensures FirstFrom(s, Resume(hits + [h], k, |needle|), (hits + [h])[k], needle, exact)
    {
      assert Resume(hits + [h], k, |needle|) == Resume(hits, k, |needle|);
    }
  }

  lemma {:induction false} NextHit(s: string, needle: string, exact: bool, lo: nat, n: nat) returns (h: nat)
    requires !NoMatchIn(s, lo, lo + n, needle, exact)
    ensures FirstFrom(s, lo, h, needle, exact)
  {
    if NoMatchIn(s, lo, lo + n - 1, needle, exact) {
      h := lo + n - 1;
    } else {
      h := NextHit(s, needle, exact, lo, n - 1);
    }
  }

  /** Every text has a list of all its leftmost non-overlapping matches. */
  lemma {:induction false} HitsExist(s: string, needle: string, exact: bool, hits: seq<nat>) returns (all: seq<nat>)
    requires needle != "" && LeftmostHits(s, needle, exact, hits)
    ensures AllHits(s, needle, exact, all) && hits <= all
    decreases |s| + 1 - Resume(hits, |hits|, |needle|)
  {
    LeftmostFit(s, needle, exact, hits);
    ResumeFits(s, hits, |needle|, |hits|);
    var lo := Resume(hits, |hits|, |needle|);
    if NoMatchIn(s, lo, |s| + 1, needle, exact) {
      all := hits;
    } else {
      var h := NextHit(s, needle, exact, lo, |s| + 1 - lo);
      LeftmostAppend(s, needle, exact, hits, h);
      all := HitsExist(s, needle, exact, hits + [h]);
    }
  }

  /** One round of a replace-all: delete the hit, insert the replacement in its place. */
  predicate RoundDefined(d: Doc, p: nat, n: nat, repl: string) {
    && 0 < n && p + n <= |d.text| && Defined(d, Delete(p, n))
    && Defined(Step(d, Delete(p, n)), Insert(p, repl))
  }

  function Round(d: Doc, p: nat, n: nat, repl: string): Doc
    requires RoundDefined(d, p, n, repl)
  {
    Step(Step(d, Delete(p, n)), Insert(p, repl))
  }

  lemma RoundText(d: Doc, p: nat, n: nat, repl: string)
    requires RoundDefined(d, p, n, repl)
    ensures Round(d, p, n, repl).text == Spliced(Cut(d.text, p, n), p, repl)
  {
    if repl == "" {
      assert Spliced(Cut(d.text, p, n), p, "") == Cut(d.text, p, n);
    }
  }

  lemma RoundRoom(d: Doc, p: nat, n: nat, repl: string, more: nat)
    requires 0 < n && p + n <= |d.text| && Room(d, |RoundOps(p, n, repl)| + more)
    ensures RoundDefined(d, p, n, repl) && Room(Round(d, p, n, repl), more)
  {
    RoomAfterEdit(d, |RoundOps(p, n, repl)| + more, Delete(p, n));
    if repl != "" {
      RoomAfterEdit(Step(d, Delete(p, n)), 1 + more, Insert(p, repl));
    }
  }

  lemma RoundRuns(d: Doc, ops: seq<Op>, p: nat, n: nat, repl: string)
    requires EffectiveEdits(d, ops) && DefinedRun(d, ops) && RoundDefined(Run(d, ops), p, n, repl)
    ensures var all := ops + RoundOps(p, n, repl);
            EffectiveEdits(d, all) && DefinedRun(d, all)
            && Run(d, all) == Round(Run(d, ops), p, n, repl)
  {
    EffectiveAppend(d, ops, Delete(p, n));
    if repl != "" {
      EffectiveAppend(d, ops + [Delete(p, n)], Insert(p, repl));
      assert ops + [Delete(p, n)] + [Insert(p, repl)] == ops + RoundOps(p, n, repl);
    } else {
      assert RoundOps(p, n, repl) == [Delete(p, n)];
    }
  }

  /** The text after one more replacement in a buffer that shows `done` and then `s[from..]`. */
  lemma ReplaceOne(done: string, s: string, from: nat, h: nat, n: nat, repl: string)
    requires from <= h && h + n <= |s|
    ensures var p := |done| + (h - from);
            Spliced(Cut(done + s[from..], p, n), p, repl) == (done + s[from..h] + repl) + s[h + n..]
  {
    var a, b := done + s[from..h], s[h + n..];
    assert done + s[from..] == a + s[h..];
    assert Cut(a + s[h..], |a|, n) == a + b;
    assert (a + b)[..|a|] == a && (a + b)[|a|..] == b;
  }
}
