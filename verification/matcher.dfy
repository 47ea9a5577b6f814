/** `difflib.get_close_matches(query, dictionary, n, cutoff)`. The similarity
    score (difflib's `SequenceMatcher.ratio`) is foreign floating-point code,
    so it is an abstract function `ratio(candidate, query)` the caller passes
    in. Around it the model is exact: the candidates are the dictionary words
    scoring at least the cutoff, and the result is the n best of them,
    ranked like `heapq.nlargest` ranks `(score, word)` pairs: higher score
    first, and among equal scores the larger word first. */
module Matcher {

  /** Similarity of a candidate to the query */
  type Ratio = (string, string) -> real

  /** What the code relies on about difflib's ratio: it lies in [0, 1], and a
      nonempty candidate shares nothing with an empty query (2 * 0 / len) */
  ghost predicate IsSimilarityRatio(ratio: Ratio)
  {
    && (forall a, b :: 0.0 <= ratio(a, b) <= 1.0)
    && (forall a :: a != "" ==> ratio(a, "") == 0.0)
  }

  /** Python's `<` on str: code point by code point, a proper prefix first */
  predicate StrLess(a: string, b: string)
    decreases |a|
  {
    if |a| == 0 then |b| > 0
    else |b| > 0 && (a[0] < b[0] || (a[0] == b[0] && StrLess(a[1..], b[1..])))
  }

  lemma {:induction false} StrLessIrreflexive(a: string)
    ensures !StrLess(a, a)
    decreases |a|
  {
    if |a| > 0 {
      StrLessIrreflexive(a[1..]);
    }
  }

  lemma {:induction false} StrLessTransitive(a: string, b: string, c: string)
    requires StrLess(a, b) && StrLess(b, c)
    ensures StrLess(a, c)
    decreases |a|
  {
    if |a| > 0 && a[0] == b[0] && b[0] == c[0] {
      StrLessTransitive(a[1..], b[1..], c[1..]);
    }
  }

  lemma {:induction false} StrLessTotal(a: string, b: string)
    requires a != b
    ensures StrLess(a, b) || StrLess(b, a)
    decreases |a|
  {
    if |a| > 0 && |b| > 0 && a[0] == b[0] {
      assert a == [a[0]] + a[1..] && b == [b[0]] + b[1..];
      StrLessTotal(a[1..], b[1..]);
    }
  }

  /** a comes before b in the ranking for query */
  predicate Outranks(ratio: Ratio, query: string, a: string, b: string)
  {
    ratio(a, query) > ratio(b, query) || (ratio(a, query) == ratio(b, query) && StrLess(b, a))
  }

  lemma OutranksIrreflexive(ratio: Ratio, query: string, a: string)
    ensures !Outranks(ratio, query, a, a)
  {
    StrLessIrreflexive(a);
  }

  lemma OutranksTransitive(ratio: Ratio, query: string, a: string, b: string, c: string)
    requires Outranks(ratio, query, a, b) && Outranks(ratio, query, b, c)
    ensures Outranks(ratio, query, a, c)
  {
    if ratio(a, query) == ratio(b, query) == ratio(c, query) {
      StrLessTransitive(c, b, a);
    }
  }

  lemma OutranksTotal(ratio: Ratio, query: string, a: string, b: string)
    requires a != b
    ensures Outranks(ratio, query, a, b) || Outranks(ratio, query, b, a)
  {
    StrLessTotal(a, b);
  }

  /** m is the best-ranked word of S */
  predicate IsTop(ratio: Ratio, query: string, m: string, S: set<string>)
  {
    m in S && forall w :: w in S && w != m ==> Outranks(ratio, query, m, w)
  }

  /** Every nonempty finite set of words has a best-ranked one */
  lemma {:induction false} TopExists(ratio: Ratio, query: string, S: set<string>)
    requires S != {}
    ensures exists m :: IsTop(ratio, query, m, S)
    decreases |S|
  {
    var x :| x in S;
    if S == {x} {
      assert IsTop(ratio, query, x, S);
    } else {
      var rest := S - {x};
      TopExists(ratio, query, rest);
      var m :| IsTop(ratio, query, m, rest);
      if Outranks(ratio, query, x, m) {
        forall w | w in S && w != x
          ensures Outranks(ratio, query, x, w)
        {
          if w != m {
            OutranksTransitive(ratio, query, x, m, w);
          }
        }
        assert IsTop(ratio, query, x, S);
      } else {
        OutranksTotal(ratio, query, x, m);
        assert IsTop(ratio, query, m, S);
      }
    }
  }

  /** The ranking has no ties: the best-ranked word is unique */
  lemma TopUnique(ratio: Ratio, query: string, S: set<string>)
    ensures forall m1, m2 :: IsTop(ratio, query, m1, S) && IsTop(ratio, query, m2, S) ==> m1 == m2
  {
    forall m1, m2 | IsTop(ratio, query, m1, S) && IsTop(ratio, query, m2, S)
      ensures m1 == m2
    {
      if m1 != m2 {
        StrLessIrreflexive(m1);
        if StrLess(m1, m2) && StrLess(m2, m1) {
          StrLessTransitive(m1, m2, m1);
        }
      }
    }
  }

  function Top(ratio: Ratio, query: string, S: set<string>): (m: string)
    requires S != {}
    ensures IsTop(ratio, query, m, S)
  {
    TopExists(ratio, query, S);
    TopUnique(ratio, query, S);
    var m :| m in S && IsTop(ratio, query, m, S); m
  }

  function Min(a: nat, b: nat): nat { if a < b then a else b }

  /** The n best-ranked words of S, best first */
  function TopN(ratio: Ratio, query: string, S: set<string>, n: nat): (r: seq<string>)
    ensures |r| == Min(n, |S|)
    ensures forall i :: 0 <= i < |r| ==> r[i] in S
    ensures forall i, j :: 0 <= i < j < |r| ==> Outranks(ratio, query, r[i], r[j])
    ensures forall w :: w in S && w !in r ==> forall i :: 0 <= i < |r| ==> Outranks(ratio, query, r[i], w)
    decreases n
  {
    if n == 0 || S == {} then []
    else
      var m := Top(ratio, query, S);
      var rest := TopN(ratio, query, S - {m}, n - 1);
      assert |S - {m}| == |S| - 1;
      assert forall i :: 0 <= i < |rest| ==> rest[i] in S && rest[i] != m;
      var r := [m] + rest;
      assert forall i :: 1 <= i < |r| ==> r[i] == rest[i - 1];
      r
  }

  /** The dictionary words scoring at least the cutoff */
  function Candidates(ratio: Ratio, query: string, dict: set<string>, cutoff: real): set<string>
  {
    set w | w in dict && ratio(w, query) >= cutoff
  }

  /** `get_close_matches(query, dict, n, cutoff)`; difflib raises ValueError
      unless n > 0 and 0 <= cutoff <= 1. Its `real_quick_ratio` and
      `quick_ratio` pre-filters are upper bounds of `ratio`, so they drop
      nothing the final `ratio >= cutoff` test would keep. */
  function CloseMatches(ratio: Ratio, query: string, dict: set<string>, n: nat, cutoff: real): (r: seq<string>)
    requires n > 0
    requires 0.0 <= cutoff <= 1.0
    ensures |r| == Min(n, |Candidates(ratio, query, dict, cutoff)|)
    ensures |r| <= n
    ensures forall i :: 0 <= i < |r| ==> r[i] in dict && ratio(r[i], query) >= cutoff
    ensures forall i, j :: 0 <= i < j < |r| ==> r[i] != r[j] && Outranks(ratio, query, r[i], r[j])
    ensures forall w :: w in dict && ratio(w, query) >= cutoff && w !in r ==>
      forall i :: 0 <= i < |r| ==> Outranks(ratio, query, r[i], w)
  {
    var r := TopN(ratio, query, Candidates(ratio, query, dict, cutoff), n);
    forall i, j | 0 <= i < j < |r|
      ensures r[i] != r[j]
    {
      OutranksIrreflexive(ratio, query, r[i]);
    }
    r
  }
}
