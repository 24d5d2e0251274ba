/**
 * How a search result's matched offsets are split into highlighted ranges when
 * the result is drawn: runs of consecutive offsets become one range each.
 */
module Highlight {
  import opened CStrings

  /**
   * One call of `DrawCurrentRange`: the plain text `[plainFrom, begin)` (drawn
   * only when non-empty), then the highlighted text `[begin, end)`.
   */
  datatype Draw = Draw(plainFrom: int, begin: int, end: int)

  /** Offsets as the fuzzy matcher reports them: in increasing order. */
  ghost predicate StrictlyIncreasing(m: seq<Byte>)
  {
    forall i, j :: 0 <= i < j < |m| ==> m[i] < m[j]
  }

  /** Offset `k` falls inside a highlighted range of one of the draws. */
  ghost predicate Highlighted(draws: seq<Draw>, k: int)
  {
    exists i :: 0 <= i < |draws| && draws[i].begin <= k < draws[i].end
  }

  /**
   * The draws walk the text left to right without overlap or gaps: the first
   * starts at offset 0, each one's plain text starts where the previous
   * highlight ended, every range is well formed, only the first may have an
   * empty highlight, and a non-empty highlight is followed by at least one
   * plain byte (so the ranges are maximal runs).
   */
  ghost predicate Segmented(draws: seq<Draw>)
  {
    && (|draws| > 0 ==> draws[0].plainFrom == 0)
    && (forall i :: 0 <= i < |draws| ==> draws[i].plainFrom <= draws[i].begin <= draws[i].end)
    && (forall i :: 0 < i < |draws| ==> draws[i].plainFrom == draws[i - 1].end)
    && (forall i :: 0 < i < |draws| ==> draws[i].begin < draws[i].end)
    && (forall i :: 0 <= i < |draws| - 1 && draws[i].begin < draws[i].end ==>
          draws[i].end < draws[i + 1].begin)
  }

  lemma HighlightedAppend(draws: seq<Draw>, d: Draw)
    ensures forall k :: Highlighted(draws + [d], k) <==> Highlighted(draws, k) || d.begin <= k < d.end
  {
    var r := draws + [d];
    forall k
      ensures Highlighted(r, k) <==> Highlighted(draws, k) || d.begin <= k < d.end
    {
      if Highlighted(r, k) {
        var i :| 0 <= i < |r| && r[i].begin <= k < r[i].end;
        if i < |draws| {
          assert draws[i] == r[i];
        }
      }
      if Highlighted(draws, k) {
        var i :| 0 <= i < |draws| && draws[i].begin <= k < draws[i].end;
        assert r[i] == draws[i];
      }
      if d.begin <= k < d.end {
        assert r[|draws|] == d;
      }
    }
  }

  /** The conditions under which one more draw keeps the walk segmented. */
  lemma SegmentedAppend(draws: seq<Draw>, d: Draw)
    requires Segmented(draws)
    requires d.plainFrom <= d.begin <= d.end
    requires draws == [] ==> d.plainFrom == 0
    requires draws != [] ==> d.plainFrom == draws[|draws| - 1].end && d.begin < d.end
    requires draws != [] && draws[|draws| - 1].begin < draws[|draws| - 1].end ==>
      draws[|draws| - 1].end < d.begin
    ensures Segmented(draws + [d])
  {
    var r := draws + [d];
    forall i | 0 <= i < |draws|
      ensures r[i] == draws[i]
    {
    }
  }

  /**
   * The loop's state after `j` offsets: the closed draws, the open range
   * `[rangeBegin, rangeEnd)`, where the last closed highlight ended, and the
   * last offset seen.
   */
  ghost predicate LoopState(matches: seq<Byte>, j: nat, draws: seq<Draw>,
                            rangeBegin: int, rangeEnd: int, lastRangeEnd: int, lastCharIdx: int)
  {
    && 1 <= |matches| && j <= |matches|
    && Segmented(draws)
    && lastRangeEnd == (if draws == [] then 0 else draws[|draws| - 1].end)
    && (j == 0 ==> rangeBegin == rangeEnd == matches[0] && lastCharIdx == -1 && draws == [])
    && (j > 0 ==> lastCharIdx == matches[j - 1] && rangeEnd == lastCharIdx + 1)
    && (j > 0 ==> lastRangeEnd <= rangeBegin < rangeEnd)
    && (j > 0 && draws != [] && draws[|draws| - 1].begin < draws[|draws| - 1].end ==>
          draws[|draws| - 1].end < rangeBegin)
    && (j > 0 ==> forall k :: Highlighted(draws, k) || rangeBegin <= k < rangeEnd <==> k in matches[..j])
  }

  /** The next offset continues the open run: the range grows by one. */
  lemma ExtendStep(matches: seq<Byte>, j: nat, draws: seq<Draw>,
                   rangeBegin: int, rangeEnd: int, lastRangeEnd: int, lastCharIdx: int)
    requires StrictlyIncreasing(matches) && j < |matches|
    requires LoopState(matches, j, draws, rangeBegin, rangeEnd, lastRangeEnd, lastCharIdx)
    requires matches[j] == lastCharIdx + 1
    ensures LoopState(matches, j + 1, draws, rangeBegin, rangeEnd + 1, lastRangeEnd, matches[j])
  {
    assert matches[..j + 1] == matches[..j] + [matches[j]];
  }

  /** The next offset starts a new run: the open range is drawn and a new one opens. */
  lemma BreakStep(matches: seq<Byte>, j: nat, draws: seq<Draw>,
                  rangeBegin: int, rangeEnd: int, lastRangeEnd: int, lastCharIdx: int)
    requires StrictlyIncreasing(matches) && j < |matches|
    requires LoopState(matches, j, draws, rangeBegin, rangeEnd, lastRangeEnd, lastCharIdx)
    requires matches[j] != lastCharIdx + 1
    ensures var d := Draw(lastRangeEnd, rangeBegin, rangeEnd);
            LoopState(matches, j + 1, draws + [d], matches[j], matches[j] as int + 1, rangeEnd, matches[j])
  {
    var d := Draw(lastRangeEnd, rangeBegin, rangeEnd);
    assert matches[..j + 1] == matches[..j] + [matches[j]];
    if j > 0 {
      assert matches[j - 1] < matches[j];
    }
    SegmentedAppend(draws, d);
    HighlightedAppend(draws, d);
  }

  /** After the last offset the open range is drawn, completing the walk. */
  lemma FinalStep(matches: seq<Byte>, draws: seq<Draw>,
                  rangeBegin: int, rangeEnd: int, lastRangeEnd: int, lastCharIdx: int)
    requires LoopState(matches, |matches|, draws, rangeBegin, rangeEnd, lastRangeEnd, lastCharIdx)
    ensures var r := draws + [Draw(lastRangeEnd, rangeBegin, rangeEnd)];
      && Segmented(r)
      && forall k :: Highlighted(r, k) <==> k in matches
  {
    assert matches[..|matches|] == matches;
    SegmentedAppend(draws, Draw(lastRangeEnd, rangeBegin, rangeEnd));
    HighlightedAppend(draws, Draw(lastRangeEnd, rangeBegin, rangeEnd));
  }

  /**
   * The highlight loop of the result list: given the offsets of a match
   * (at least one, in increasing order) it returns the `DrawCurrentRange` calls
   * it makes and the offset from which the rest of the text is drawn plain.
   * The highlighted ranges cover exactly the matched offsets.
   */
  method HighlightRanges(matches: seq<Byte>) returns (draws: seq<Draw>, tailFrom: int)
    requires |matches| >= 1
    requires StrictlyIncreasing(matches)
    ensures |draws| >= 1 && Segmented(draws)
    ensures tailFrom == draws[|draws| - 1].end
    ensures forall k :: Highlighted(draws, k) <==> k in matches
  {
    var rangeBegin: int := matches[0];
    var rangeEnd: int := rangeBegin;
    var lastRangeEnd: int := 0;
    var lastCharIdx: int := -1;
    draws := [];
    var j := 0;
    while j < |matches|
      invariant LoopState(matches, j, draws, rangeBegin, rangeEnd, lastRangeEnd, lastCharIdx)
    {
      var charIdx: int := matches[j];
      if charIdx == lastCharIdx + 1 {
        ExtendStep(matches, j, draws, rangeBegin, rangeEnd, lastRangeEnd, lastCharIdx);
        rangeEnd := rangeEnd + 1;
      } else {
        BreakStep(matches, j, draws, rangeBegin, rangeEnd, lastRangeEnd, lastCharIdx);
        draws := draws + [Draw(lastRangeEnd, rangeBegin, rangeEnd)];
        lastRangeEnd := rangeEnd;
        rangeBegin := charIdx;
        rangeEnd := charIdx + 1;
      }
      lastCharIdx := charIdx;
      j := j + 1;
    }
    if rangeBegin != rangeEnd {
      FinalStep(matches, draws, rangeBegin, rangeEnd, lastRangeEnd, lastCharIdx);
      draws := draws + [Draw(lastRangeEnd, rangeBegin, rangeEnd)];
    }
    tailFrom := rangeEnd;
  }
}
