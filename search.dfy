/**
 * Search results: the fuzzy-matching pass over the current source list and the
 * ranking of its hits by descending score.
 */
module Search {
  import opened Wrappers
  import opened CStrings

  /** What the fuzzy matcher reports on success: a score and the matched byte offsets. */
  datatype Match = Match(score: int, matches: seq<Byte>)

  /**
   * The fuzzy matcher, `FuzzySearch(pattern, text, score, matches, 32, count)`:
   * none when the pattern does not match. Its body is not part of this model,
   * so it is a parameter of the operations that call it.
   */
  type Matcher = (CStr, CStr) -> Option<Match>

  /** `SearchResult`: the index of the item in its source list, its score and offsets. */
  datatype SearchResult = SearchResult(itemIndex: int, score: int, matches: seq<Byte>)

  ghost predicate DistinctIndices(r: seq<SearchResult>)
  {
    forall k, l :: 0 <= k < l < |r| ==> r[k].itemIndex != r[l].itemIndex
  }

  /**
   * The hits among the first `n` source texts, in source order: one result for
   * each text the matcher accepts, carrying its index and what the matcher said.
   */
  function Hits(matcher: Matcher, pattern: CStr, texts: seq<CStr>, n: nat): seq<SearchResult>
    requires n <= |texts|
  {
    if n == 0 then []
    else
      var before := Hits(matcher, pattern, texts, n - 1);
      match matcher(pattern, texts[n - 1])
      case Some(m) => before + [SearchResult(n - 1, m.score, m.matches)]
      case None => before
  }

  /**
   * The hits are what the matcher says: each names an index below `n` and
   * carries the matcher's score and offsets for that text, the indices
   * increase, and an index is present iff the matcher accepted its text.
   */
  lemma {:induction false} HitsSound(matcher: Matcher, pattern: CStr, texts: seq<CStr>, n: nat)
    requires n <= |texts|
    ensures var r := Hits(matcher, pattern, texts, n);
      && (forall k :: 0 <= k < |r| ==>
            0 <= r[k].itemIndex < n &&
            matcher(pattern, texts[r[k].itemIndex]) == Some(Match(r[k].score, r[k].matches)))
      && (forall k, l :: 0 <= k < l < |r| ==> r[k].itemIndex < r[l].itemIndex)
      && (forall i :: 0 <= i < n ==>
            (matcher(pattern, texts[i]).Some? <==> exists k :: 0 <= k < |r| && r[k].itemIndex == i))
  {
    if n > 0 {
      HitsSound(matcher, pattern, texts, n - 1);
      var before := Hits(matcher, pattern, texts, n - 1);
      var r := Hits(matcher, pattern, texts, n);
      assert forall k :: 0 <= k < |before| ==> r[k] == before[k];
      if matcher(pattern, texts[n - 1]).Some? {
        assert r[|before|].itemIndex == n - 1;
      }
    }
  }

  /** One more text examined: its result, if it matched, follows the earlier hits. */
  lemma HitsStep(matcher: Matcher, pattern: CStr, texts: seq<CStr>, n: nat)
    requires n < |texts|
    ensures Hits(matcher, pattern, texts, n + 1) ==
      Hits(matcher, pattern, texts, n) +
      match matcher(pattern, texts[n])
      case Some(m) => [SearchResult(n, m.score, m.matches)]
      case None => []
  {
  }

  /** The biggest score first (the comparator `a.Score > b.Score` of the sort). */
  ghost predicate ByScoreDescending(r: seq<SearchResult>)
  {
    forall k, l :: 0 <= k < l < |r| ==> r[k].score >= r[l].score
  }

  /**
   * What `std::sort` with that comparator may produce from `hits`: a
   * permutation ordered by non-increasing score. Equal scores may come out in
   * any order.
   */
  ghost predicate IsRanking(r: seq<SearchResult>, hits: seq<SearchResult>)
  {
    ByScoreDescending(r) && multiset(r) == multiset(hits)
  }

  /** Places `x` before the first result whose score does not exceed its own. */
  function InsertByScore(x: SearchResult, s: seq<SearchResult>): seq<SearchResult>
  {
    if s == [] || s[0].score <= x.score then [x] + s else [s[0]] + InsertByScore(x, s[1..])
  }

  /** Inserting adds exactly `x` to the results. */
  lemma {:induction false} InsertByScorePermutes(x: SearchResult, s: seq<SearchResult>)
    ensures multiset(InsertByScore(x, s)) == multiset(s) + multiset{x}
  {
    if s != [] && s[0].score > x.score {
      InsertByScorePermutes(x, s[1..]);
      assert s == [s[0]] + s[1..];
    }
  }

  /** Every value in the list after inserting `x` is `x` or was already there. */
  lemma {:induction false} InsertByScoreMembers(x: SearchResult, s: seq<SearchResult>, y: SearchResult)
    requires y in InsertByScore(x, s)
    ensures y == x || y in s
  {
    if s != [] && s[0].score > x.score && y != s[0] {
      InsertByScoreMembers(x, s[1..], y);
    }
  }

  /** Inserting into a list ranked by score keeps it ranked. */
  lemma {:induction false} InsertByScoreRanks(x: SearchResult, s: seq<SearchResult>)
    requires ByScoreDescending(s)
    ensures ByScoreDescending(InsertByScore(x, s))
  {
    if s != [] && s[0].score > x.score {
      var rest := InsertByScore(x, s[1..]);
      InsertByScoreRanks(x, s[1..]);
      var r := [s[0]] + rest;
      forall k, l | 0 <= k < l < |r|
        ensures r[k].score >= r[l].score
      {
        if k == 0 {
          InsertByScoreMembers(x, s[1..], rest[l - 1]);
        } else {
          assert r[k] == rest[k - 1] && r[l] == rest[l - 1];
        }
      }
    }
  }

  /** One sort that meets the contract of `std::sort`: a ranking of its input. */
  function SortByScore(s: seq<SearchResult>): (r: seq<SearchResult>)
    ensures IsRanking(r, s)
  {
    if s == [] then []
    else
      var rest := SortByScore(s[1..]);
      InsertByScoreRanks(s[0], rest);
      InsertByScorePermutes(s[0], rest);
      assert s == [s[0]] + s[1..];
      InsertByScore(s[0], rest)
  }

  /** A result with distinct indices holds every value at most once. */
  lemma {:induction false} DistinctOnce(h: seq<SearchResult>, x: SearchResult)
    requires DistinctIndices(h)
    ensures multiset(h)[x] <= 1
  {
    if h != [] {
      assert h == [h[0]] + h[1..];
      DistinctOnce(h[1..], x);
      if x == h[0] {
        assert x !in h[1..];
      }
    }
  }

  /** Two different values found in results with distinct indices have different indices. */
  lemma DifferentValuesDifferentIndices(h: seq<SearchResult>, x: SearchResult, y: SearchResult)
    requires DistinctIndices(h)
    requires x in h && y in h && x != y
    ensures x.itemIndex != y.itemIndex
  {
    var p :| 0 <= p < |h| && h[p] == x;
    var q :| 0 <= q < |h| && h[q] == y;
    if p < q {
      assert h[p].itemIndex != h[q].itemIndex;
    } else {
      assert h[q].itemIndex != h[p].itemIndex;
    }
  }

  /** A list holding every value at most once holds no value at two positions. */
  lemma OnceMeansDifferentPositions(r: seq<SearchResult>, k: nat, l: nat)
    requires k < l < |r|
    requires forall x :: multiset(r)[x] <= 1
    ensures r[k] != r[l]
  {
    assert r == r[..l] + r[l..];
    assert r[l] in r[l..];
    assert multiset(r)[r[l]] == multiset(r[..l])[r[l]] + multiset(r[l..])[r[l]];
    assert r[k] in r[..l];
  }

  /** Any reordering of results with distinct indices has distinct indices. */
  lemma PermutationKeepsDistinct(r: seq<SearchResult>, h: seq<SearchResult>)
    requires multiset(r) == multiset(h)
    requires DistinctIndices(h)
    ensures DistinctIndices(r)
  {
    forall x
      ensures multiset(r)[x] <= 1
    {
      DistinctOnce(h, x);
    }
    forall k, l | 0 <= k < l < |r|
      ensures r[k].itemIndex != r[l].itemIndex
    {
      OnceMeansDifferentPositions(r, k, l);
      assert r[k] in multiset(h) && r[l] in multiset(h);
      DifferentValuesDifferentIndices(h, r[k], r[l]);
    }
  }

  /**
   * After a rebuild over `texts`, whatever order the sort chose: every result
   * names a valid index of the source list and carries the matcher's score and
   * offsets for it, no index appears twice, an index appears iff the matcher
   * accepted its text, and scores never increase along the list.
   */
  lemma RankedHits(matcher: Matcher, pattern: CStr, texts: seq<CStr>, r: seq<SearchResult>)
    requires IsRanking(r, Hits(matcher, pattern, texts, |texts|))
    ensures forall k :: 0 <= k < |r| ==>
      0 <= r[k].itemIndex < |texts| &&
      matcher(pattern, texts[r[k].itemIndex]) == Some(Match(r[k].score, r[k].matches))
    ensures DistinctIndices(r)
    ensures forall i :: 0 <= i < |texts| ==>
      (matcher(pattern, texts[i]).Some? <==> exists k :: 0 <= k < |r| && r[k].itemIndex == i)
    ensures forall k, l :: 0 <= k < l < |r| ==> r[k].score >= r[l].score
  {
    var h := Hits(matcher, pattern, texts, |texts|);
    HitsSound(matcher, pattern, texts, |texts|);
    PermutationKeepsDistinct(r, h);
    forall k | 0 <= k < |r|
      ensures 0 <= r[k].itemIndex < |texts|
      ensures matcher(pattern, texts[r[k].itemIndex]) == Some(Match(r[k].score, r[k].matches))
    {
      assert r[k] in multiset(h);
    }
    forall i | 0 <= i < |texts|
      ensures matcher(pattern, texts[i]).Some? <==> exists k :: 0 <= k < |r| && r[k].itemIndex == i
    {
      if matcher(pattern, texts[i]).Some? {
        var p :| 0 <= p < |h| && h[p].itemIndex == i;
        assert h[p] in multiset(r);
        var k :| 0 <= k < |r| && r[k] == h[p];
      }
    }
  }
}
