/**
 The ranking step of `get_top_spam_words` (app.py): given the
 `(term, contribution)` pairs of the features present in a message, sort them
 by contribution, highest first, keep the first `top_n` and return the terms
 of the strictly positive ones.

 How the pairs are obtained (the vectorizer transform, the vocabulary lookup
 and the classifier coefficients) is not modelled: the pairs are an input,
 `None` when computing them raised.
 */
module Attribution {
  import opened Wrappers

  /** The number of terms returned when the caller gives no `top_n`. */
  const DefaultTopN: int := 6

  /** A feature's term and its contribution `tfidf value * coefficient`. */
  datatype Score = Score(term: string, contribution: real)

  predicate NonIncreasing(s: seq<Score>) {
    forall i, j :: 0 <= i < j < |s| ==> s[i].contribution >= s[j].contribution
  }

  /** A test on contributions that selects some of the scores. */
  datatype Criterion = PositiveOnly | TiedAt(k: real) {
    predicate Holds(c: real) {
      match this
      case PositiveOnly => c > 0.0
      case TiedAt(k) => c == k
    }
  }

  /** The scores of `s` whose contribution meets `p`, in order. */
  function KeepIf(s: seq<Score>, p: Criterion): (r: seq<Score>)
    ensures |r| <= |s|
    ensures forall i :: 0 <= i < |r| ==> p.Holds(r[i].contribution)
    ensures forall i :: 0 <= i < |s| && p.Holds(s[i].contribution) ==> s[i] in r
  {
    if |s| == 0 then []
    else if p.Holds(s[0].contribution) then [s[0]] + KeepIf(s[1..], p)
      else KeepIf(s[1..], p)
  }

  /** The scores with a strictly positive contribution. */
  function Positive(s: seq<Score>): seq<Score> {
    KeepIf(s, PositiveOnly)
  }

  /** The scores whose contribution is exactly `k`. */
  function Ties(s: seq<Score>, k: real): seq<Score> {
    KeepIf(s, TiedAt(k))
  }

  function Terms(s: seq<Score>): (r: seq<string>)
    ensures |r| == |s|
    ensures forall i :: 0 <= i < |s| ==> r[i] == s[i].term
  {
    if |s| == 0 then [] else [s[0].term] + Terms(s[1..])
  }

  /** Places `x` after every score whose contribution is at least `x`'s,
      which keeps a non-increasing sequence non-increasing and leaves `x`
      behind the scores it ties with. */
  function InsertDesc(x: Score, s: seq<Score>): (r: seq<Score>)
    ensures |r| == |s| + 1
    ensures multiset(r) == multiset(s) + multiset{x}
    ensures NonIncreasing(s) ==> NonIncreasing(r)
  {
    if |s| == 0 then [x]
    else if s[0].contribution >= x.contribution then
      var rest := InsertDesc(x, s[1..]);
      assert s == [s[0]] + s[1..];
      BoundedByHead(s[0], s[1..], x, rest);
      [s[0]] + rest
    else
      [x] + s
  }

  lemma BoundedByHead(h: Score, tail: seq<Score>, x: Score, rest: seq<Score>)
    requires NonIncreasing([h] + tail) ==> NonIncreasing(tail)
    requires multiset(rest) == multiset(tail) + multiset{x}
    requires x.contribution <= h.contribution
    requires NonIncreasing(tail) ==> NonIncreasing(rest)
    ensures NonIncreasing([h] + tail) ==> NonIncreasing([h] + rest)
  {
    if NonIncreasing([h] + tail) {
      forall j | 0 <= j < |rest| ensures rest[j].contribution <= h.contribution {
        assert rest[j] in multiset(rest);
        if rest[j] != x {
          assert rest[j] in multiset(tail);
          var k :| 0 <= k < |tail| && tail[k] == rest[j];
          assert ([h] + tail)[0] == h;
          assert ([h] + tail)[k + 1] == tail[k];
        }
      }
      forall i, j | 0 <= i < j < |rest| + 1
        ensures ([h] + rest)[i].contribution >= ([h] + rest)[j].contribution
      {
        assert ([h] + rest)[j] == rest[j - 1];
        if i > 0 {
          assert ([h] + rest)[i] == rest[i - 1];
        }
      }
    }
  }

  /** Python's `scores.sort(key=..., reverse=True)`: a stable sort on
      contribution, highest first (insertion sort, taking the scores in
      their original order). */
  function SortDesc(s: seq<Score>): (r: seq<Score>)
    ensures |r| == |s|
    ensures multiset(r) == multiset(s)
    ensures NonIncreasing(r)
    decreases |s|
  {
    if |s| == 0 then []
    else
      var n := |s| - 1;
      assert s == s[..n] + [s[n]];
      InsertDesc(s[n], SortDesc(s[..n]))
  }

  /** How many elements `s[:n]` keeps of a sequence of length `len`: Python
      slicing, where a negative `n` counts from the end. */
  function SliceEnd(len: nat, n: int): (m: nat)
    ensures m <= len
    ensures n >= 0 ==> m == Min(n, len)
  {
    if n >= 0 then Min(n, len)
    else if len + n >= 0 then len + n
    else 0
  }

  /** `[(w, s) for w, s in scores[:top_n] if s > 0]` once `scores` is sorted:
      the ranked, strictly positive scores. */
  function TopSpamScores(scores: seq<Score>, topN: int): (r: seq<Score>)
    ensures forall i :: 0 <= i < |r| ==> r[i].contribution > 0.0
    ensures NonIncreasing(r)
    ensures multiset(r) <= multiset(scores)
    ensures |r| <= |Positive(SortDesc(scores))| && r == Positive(SortDesc(scores))[..|r|]
    ensures topN >= 0 ==> |r| == Min(topN, |Positive(scores)|)
    ensures forall x, y :: x in r && y in scores && y.contribution > x.contribution ==> y in r
  {
    var sorted := SortDesc(scores);
    var m := SliceEnd(|scores|, topN);
    var r := Positive(sorted[..m]);
    RankedPrefix(sorted, m);
    PositiveCountSorted(scores);
    PrefixIsTop(sorted, scores, |r|);
    r
  }

  /** Keeping the positive scores of a prefix of a non-increasing sequence
      yields a shorter prefix of it, which is also a prefix of its positive part. */
  lemma RankedPrefix(sorted: seq<Score>, m: nat)
    requires NonIncreasing(sorted) && m <= |sorted|
    ensures var r := Positive(sorted[..m]);
      && |r| == Min(m, |Positive(sorted)|)
      && r == sorted[..|r|]
      && r == Positive(sorted)[..|r|]
  {
    PositiveOfPrefix(sorted, m);
    PositivePrefix(sorted);
  }

  /** A prefix of a non-increasing arrangement of `scores` holds every score
      that beats one of its members. */
  lemma PrefixIsTop(sorted: seq<Score>, scores: seq<Score>, k: nat)
    requires NonIncreasing(sorted) && multiset(sorted) == multiset(scores) && k <= |sorted|
    ensures multiset(sorted[..k]) <= multiset(scores)
    ensures forall x, y :: x in sorted[..k] && y in scores && y.contribution > x.contribution ==> y in sorted[..k]
  {
    assert sorted == sorted[..k] + sorted[k..];
    forall x, y | x in sorted[..k] && y in scores && y.contribution > x.contribution
      ensures y in sorted[..k]
    {
      var i :| 0 <= i < k && sorted[i] == x;
      assert y in multiset(sorted);
      var j :| 0 <= j < |sorted| && sorted[j] == y;
      assert sorted[..k][j] == y;
    }
  }

  /** `get_top_spam_words(text, top_n)` given the feature scores of `text`:
      no terms when computing the scores raised or no feature is present. */
  function TopSpamWords(features: Option<seq<Score>>, topN: int): (words: seq<string>)
    ensures topN >= 0 ==> |words| <= topN
    ensures features.None? ==> words == []
    ensures features.Some? ==> words == Terms(TopSpamScores(features.value, topN))
  {
    match features
    case None => []
    case Some(scores) =>
      if |scores| == 0 then [] else Terms(TopSpamScores(scores, topN))
  }

  // ---------------------------------------------------------------------
  // Lemmas about the ranking
  // ---------------------------------------------------------------------

  lemma {:induction false} KeepIfAppend(a: seq<Score>, b: seq<Score>, p: Criterion)
    ensures KeepIf(a + b, p) == KeepIf(a, p) + KeepIf(b, p)
    decreases |a|
  {
    if |a| == 0 {
      assert a + b == b;
    } else {
      assert (a + b)[1..] == a[1..] + b;
      KeepIfAppend(a[1..], b, p);
    }
  }

  /** One score is kept exactly when it meets the test; with `KeepIfAppend`
      this fixes the filter's result for every list. */
  lemma KeepIfOne(x: Score, p: Criterion)
    ensures KeepIf([x], p) == if p.Holds(x.contribution) then [x] else []
  {
    assert [x][1..] == [];
  }

  /** The filter only keeps scores of the list, each at most as often as it occurs there. */
  lemma {:induction false} KeepIfFromList(s: seq<Score>, p: Criterion)
    ensures multiset(KeepIf(s, p)) <= multiset(s)
    ensures forall i :: 0 <= i < |KeepIf(s, p)| ==> KeepIf(s, p)[i] in s
    decreases |s|
  {
    if |s| > 0 {
      KeepIfFromList(s[1..], p);
      assert s == [s[0]] + s[1..];
      assert multiset(s) == multiset{s[0]} + multiset(s[1..]);
    }
    var r := KeepIf(s, p);
    forall i | 0 <= i < |r| ensures r[i] in s {
      assert r[i] in multiset(r);
    }
  }

  lemma {:induction false} KeepIfNone(s: seq<Score>, p: Criterion)
    requires forall i :: 0 <= i < |s| ==> !p.Holds(s[i].contribution)
    ensures KeepIf(s, p) == []
    decreases |s|
  {
    if |s| > 0 {
      KeepIfNone(s[1..], p);
    }
  }

  /** In a non-increasing sequence the positive scores come first. */
  lemma {:induction false} PositivePrefix(s: seq<Score>)
    requires NonIncreasing(s)
    ensures Positive(s) == s[..|Positive(s)|]
    decreases |s|
  {
    if |s| > 0 {
      if s[0].contribution > 0.0 {
        PositivePrefix(s[1..]);
        assert s[..|Positive(s)|] == [s[0]] + s[1..][..|Positive(s[1..])|];
      } else {
        KeepIfNone(s, PositiveOnly);
      }
    }
  }

  /** Cutting a non-increasing sequence and then keeping the positive scores
      is the same as keeping the positive scores and then cutting. */
  lemma {:induction false} PositiveOfPrefix(s: seq<Score>, m: nat)
    requires NonIncreasing(s) && m <= |s|
    ensures Positive(s[..m]) == Positive(s)[..Min(m, |Positive(s)|)]
    decreases |s|
  {
    if m == 0 {
    } else if s[0].contribution > 0.0 {
      assert s[..m] == [s[0]] + s[1..][..m - 1];
      PositiveOfPrefix(s[1..], m - 1);
    } else {
      KeepIfNone(s, PositiveOnly);
      KeepIfNone(s[..m], PositiveOnly);
    }
  }

  lemma {:induction false} PositiveCountInsert(x: Score, s: seq<Score>)
    ensures |Positive(InsertDesc(x, s))| == |Positive(s)| + (if x.contribution > 0.0 then 1 else 0)
    decreases |s|
  {
    if |s| > 0 && s[0].contribution >= x.contribution {
      PositiveCountInsert(x, s[1..]);
    }
  }

  /** Sorting neither adds nor drops a positive score. */
  lemma {:induction false} PositiveCountSorted(s: seq<Score>)
    ensures |Positive(SortDesc(s))| == |Positive(s)|
    decreases |s|
  {
    if |s| > 0 {
      var n := |s| - 1;
      assert s == s[..n] + [s[n]];
      KeepIfAppend(s[..n], [s[n]], PositiveOnly);
      assert |Positive(s)| == |Positive(s[..n])| + (if s[n].contribution > 0.0 then 1 else 0);
      PositiveCountSorted(s[..n]);
      PositiveCountInsert(s[n], SortDesc(s[..n]));
    }
  }

  lemma {:induction false} TiesInsert(x: Score, s: seq<Score>, k: real)
    requires NonIncreasing(s)
    ensures Ties(InsertDesc(x, s), k) == Ties(s, k) + (if x.contribution == k then [x] else [])
    decreases |s|
  {
    if |s| == 0 {
    } else if s[0].contribution >= x.contribution {
      TiesInsert(x, s[1..], k);
    } else if x.contribution == k {
      KeepIfNone(s, TiedAt(k));
    }
  }

  /** The sort is stable: the scores that tie on any contribution `k` keep
      their original relative order. */
  lemma {:induction false} SortDescIsStable(s: seq<Score>, k: real)
    ensures Ties(SortDesc(s), k) == Ties(s, k)
    decreases |s|
  {
    if |s| > 0 {
      var n := |s| - 1;
      assert s == s[..n] + [s[n]];
      KeepIfAppend(s[..n], [s[n]], TiedAt(k));
      KeepIfOne(s[n], TiedAt(k));
      assert Ties(s, k) == Ties(s[..n], k) + (if s[n].contribution == k then [s[n]] else []);
      SortDescIsStable(s[..n], k);
      TiesInsert(s[n], SortDesc(s[..n]), k);
    }
  }

  /** The default ranking returns at most six terms. */
  lemma DefaultTopNBound(features: Option<seq<Score>>)
    ensures |TopSpamWords(features, DefaultTopN)| <= 6
  {
  }
}
