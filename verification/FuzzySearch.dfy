/** The approximate search for a query in a text: the reduction of a window, and the recursion over windows
    (src/tools/fuzzySearchCore.ts). */
module FuzzySearch {
  import opened Prelude
  import opened Levenshtein

  datatype Match = Match(start: int, end: int, value: string, distance: nat)

  function Clamp(i: int, length: nat): nat {
    if i < 0 then 0 else if i > length then length else i
  }

  /** String.prototype.substring: both ends are clamped, and swapped when out of order. */
  function Substring(text: string, i: int, j: int): string {
    var a, b := Clamp(i, |text|), Clamp(j, |text|);
    if a <= b then text[a..b] else text[b..a]
  }

  // ---- Reduction: drop characters while that brings the slice nearer ----

  function ShrinkStart(text: string, query: string, start: int, end: int, best: nat): (int, nat)
    decreases best
  {
    var next := Lev(Substring(text, start + 1, end), query);
    if next < best then ShrinkStart(text, query, start + 1, end, next) else (start, best)
  }

  function ShrinkEnd(text: string, query: string, start: int, end: int, best: nat): (int, nat)
    decreases best
  {
    var next := Lev(Substring(text, start, end - 1), query);
    if next < best then ShrinkEnd(text, query, start, end - 1, next) else (end, best)
  }

  /** The reduced slice and the number of characters dropped. */
  function Reduce(text: string, query: string, start: int, end: int): (Match, int) {
    var (s, afterStart) := ShrinkStart(text, query, start, end, Lev(Substring(text, start, end), query));
    var (e, distance) := ShrinkEnd(text, query, s, end, afterStart);
    (Match(s, e, Substring(text, s, e), distance), (s - start) + (end - e))
  }

  method IterativeReduction(text: string, query: string, start: int, end: int) returns (found: Match, iterations: nat)
    ensures (found, iterations) == Reduce(text, query, start, end)
  {
    iterations := 0;
    var bestDistance := Lev(Substring(text, start, end), query);
    ghost var seed := bestDistance;
    var bestStart, bestEnd := start, end;

    var nextDistance := Lev(Substring(text, bestStart + 1, bestEnd), query);
    while nextDistance < bestDistance
      invariant nextDistance == Lev(Substring(text, bestStart + 1, end), query)
      invariant ShrinkStart(text, query, bestStart, end, bestDistance) == ShrinkStart(text, query, start, end, seed)
      invariant iterations == bestStart - start
      decreases bestDistance
    {
      bestDistance, bestStart := nextDistance, bestStart + 1;
      nextDistance := Lev(Substring(text, bestStart + 1, bestEnd), query);
      iterations := iterations + 1;
    }

    ghost var afterStart := bestDistance;
    nextDistance := Lev(Substring(text, bestStart, bestEnd - 1), query);
    while nextDistance < bestDistance
      invariant nextDistance == Lev(Substring(text, bestStart, bestEnd - 1), query)
      invariant ShrinkEnd(text, query, bestStart, bestEnd, bestDistance) == ShrinkEnd(text, query, bestStart, end, afterStart)
      invariant iterations == (bestStart - start) + (end - bestEnd)
      decreases bestDistance
    {
      bestDistance, bestEnd := nextDistance, bestEnd - 1;
      nextDistance := Lev(Substring(text, bestStart, bestEnd - 1), query);
      iterations := iterations + 1;
    }
    found := Match(bestStart, bestEnd, Substring(text, bestStart, bestEnd), bestDistance);
  }

  lemma {:induction false} ShrinkStartMeasures(text: string, query: string, start: int, end: int, best: nat)
    requires best == Lev(Substring(text, start, end), query)
    ensures
      var (s, d) := ShrinkStart(text, query, start, end, best);
      d == Lev(Substring(text, s, end), query) && d <= best && start <= s
      && (s > start <==> Lev(Substring(text, start + 1, end), query) < best)
    decreases best
  {
    var next := Lev(Substring(text, start + 1, end), query);
    if next < best {
      ShrinkStartMeasures(text, query, start + 1, end, next);
    }
  }

  lemma {:induction false} ShrinkEndMeasures(text: string, query: string, start: int, end: int, best: nat)
    requires best == Lev(Substring(text, start, end), query)
    ensures
      var (e, d) := ShrinkEnd(text, query, start, end, best);
      d == Lev(Substring(text, start, e), query) && d <= best && e <= end
      && (e < end <==> Lev(Substring(text, start, end - 1), query) < best)
    decreases best
  {
    var next := Lev(Substring(text, start, end - 1), query);
    if next < best {
      ShrinkEndMeasures(text, query, start, end - 1, next);
    }
  }

  /** The reported distance is that of the reported value, whatever the window. */
  lemma ReduceMeasures(text: string, query: string, start: int, end: int)
    ensures
      var (found, dropped) := Reduce(text, query, start, end);
      && found.distance == Lev(found.value, query)
      && found.distance <= Lev(Substring(text, start, end), query)
      && start <= found.start && found.end <= end
  {
    var seed := Lev(Substring(text, start, end), query);
    ShrinkStartMeasures(text, query, start, end, seed);
    var (s, d) := ShrinkStart(text, query, start, end, seed);
    ShrinkEndMeasures(text, query, s, end, d);
  }

  /** One character less at the start, or at the end, is nearer. */
  predicate StartDropHelps(text: string, query: string, start: int, end: int) {
    Lev(Substring(text, start + 1, end), query) < Lev(Substring(text, start, end), query)
  }

  predicate EndDropHelps(text: string, query: string, start: int, end: int) {
    Lev(Substring(text, start, end - 1), query) < Lev(Substring(text, start, end), query)
  }

  lemma {:induction false} ShrinkStartStops(text: string, query: string, start: int, end: int, best: nat)
    requires best == Lev(Substring(text, start, end), query)
    ensures !StartDropHelps(text, query, ShrinkStart(text, query, start, end, best).0, end)
    decreases best
  {
    var next := Lev(Substring(text, start + 1, end), query);
    if next < best {
      ShrinkStartStops(text, query, start + 1, end, next);
      assert ShrinkStart(text, query, start, end, best) == ShrinkStart(text, query, start + 1, end, next);
    } else {
      assert ShrinkStart(text, query, start, end, best).0 == start;
    }
  }

  lemma {:induction false} ShrinkStartHelps(text: string, query: string, start: int, end: int, best: nat, k: int)
    requires best == Lev(Substring(text, start, end), query)
    requires start <= k < ShrinkStart(text, query, start, end, best).0
    ensures StartDropHelps(text, query, k, end)
    decreases best
  {
    var next := Lev(Substring(text, start + 1, end), query);
    if k > start {
      ShrinkStartHelps(text, query, start + 1, end, next, k);
    }
  }

  lemma {:induction false} ShrinkEndStops(text: string, query: string, start: int, end: int, best: nat)
    requires best == Lev(Substring(text, start, end), query)
    ensures !EndDropHelps(text, query, start, ShrinkEnd(text, query, start, end, best).0)
    decreases best
  {
    var next := Lev(Substring(text, start, end - 1), query);
    if next < best {
      ShrinkEndStops(text, query, start, end - 1, next);
      assert ShrinkEnd(text, query, start, end, best) == ShrinkEnd(text, query, start, end - 1, next);
    }
  }

  lemma {:induction false} ShrinkEndHelps(text: string, query: string, start: int, end: int, best: nat, k: int)
    requires best == Lev(Substring(text, start, end), query)
    requires ShrinkEnd(text, query, start, end, best).0 < k <= end
    ensures EndDropHelps(text, query, start, k)
    decreases best
  {
    var next := Lev(Substring(text, start, end - 1), query);
    if k < end {
      ShrinkEndHelps(text, query, start, end - 1, next, k);
    }
  }

  /** Characters are dropped at the start, and then at the end, as long as each brings the slice nearer and until one more
      would not. */
  lemma ReduceStops(text: string, query: string, start: int, end: int)
    ensures
      var found := Reduce(text, query, start, end).0;
      var (s, e) := (found.start, found.end);
      && start <= s && (forall k :: start <= k < s ==> StartDropHelps(text, query, k, end)) && !StartDropHelps(text, query, s, end)
      && e <= end && (forall k :: e < k <= end ==> EndDropHelps(text, query, s, k)) && !EndDropHelps(text, query, s, e)
  {
    var seed := Lev(Substring(text, start, end), query);
    ShrinkStartMeasures(text, query, start, end, seed);
    ShrinkStartStops(text, query, start, end, seed);
    var (s, d) := ShrinkStart(text, query, start, end, seed);
    ShrinkEndMeasures(text, query, s, end, d);
    ShrinkEndStops(text, query, s, end, d);
    forall k | start <= k < s ensures StartDropHelps(text, query, k, end) {
      ShrinkStartHelps(text, query, start, end, seed, k);
    }
    forall k | Reduce(text, query, start, end).0.end < k <= end ensures EndDropHelps(text, query, s, k) {
      ShrinkEndHelps(text, query, s, end, d, k);
    }
  }

  lemma {:induction false} ShrinkStartCounts(text: string, query: string, start: nat, end: nat, best: nat)
    requires start < end <= |text| && query != "" && best == Lev(text[start..end], query)
    ensures
      var (s, d) := ShrinkStart(text, query, start, end, best);
      s < end && (s - start) + d == best
    decreases best
  {
    var slice := text[start..end];
    assert slice[1..] == text[start + 1..end] == Substring(text, start + 1, end);
    DropFirst(slice, query);
    Bounds(slice, query);
    assert start + 1 == end ==> slice[1..] == "";
    var next := Lev(Substring(text, start + 1, end), query);
    if next < best {
      ShrinkStartCounts(text, query, start + 1, end, next);
    }
  }

  lemma {:induction false} ShrinkEndCounts(text: string, query: string, start: nat, end: nat, best: nat)
    requires start < end <= |text| && query != "" && best == Lev(text[start..end], query)
    ensures
      var (e, d) := ShrinkEnd(text, query, start, end, best);
      start < e && (end - e) + d == best
    decreases best
  {
    var slice := text[start..end];
    assert slice[..|slice| - 1] == text[start..end - 1] == Substring(text, start, end - 1);
    DropLast(slice, query);
    Bounds(slice, query);
    assert start + 1 == end ==> slice[..|slice| - 1] == "";
    var next := Lev(Substring(text, start, end - 1), query);
    if next < best {
      ShrinkEndCounts(text, query, start, end - 1, next);
    }
  }

  /** Every dropped character lowers the distance by exactly one, and a slice that holds text is never emptied. */
  lemma EachDropGainsOne(text: string, query: string, start: nat, end: nat)
    requires start < end <= |text| && query != ""
    ensures
      var (found, dropped) := Reduce(text, query, start, end);
      && start <= found.start < found.end <= end
      && found.value == text[found.start..found.end]
      && dropped + found.distance == Lev(text[start..end], query)
  {
    var seed := Lev(text[start..end], query);
    assert Substring(text, start, end) == text[start..end];
    ShrinkStartCounts(text, query, start, end, seed);
    ReduceMeasures(text, query, start, end);
    ShrinkStartMeasures(text, query, start, end, seed);
    var (s, d) := ShrinkStart(text, query, start, end, seed);
    ShrinkEndCounts(text, query, s, end, d);
  }

  /** An empty window is the exception: swapped ends make the neighbouring characters visible. The result is a
      proper slice exactly when neither neighbour occurs in the query. */
  lemma EmptyWindow(text: string, query: string, at: nat)
    requires at <= |text|
    ensures
      var (found, _) := Reduce(text, query, at, at);
      found.start <= found.end <==>
        (at < |text| ==> text[at] !in query) && (at > 0 ==> text[at - 1] !in query)
  {
    var seed := Lev(Substring(text, at, at), query);
    Neighbour(text, query, at);
    ShrinkStartMeasures(text, query, at, at, seed);
    var (s, d) := ShrinkStart(text, query, at, at, seed);
    ShrinkEndMeasures(text, query, s, at, d);
  }

  /** What an empty window sees when its ends are moved past each other. */
  lemma Neighbour(text: string, query: string, at: nat)
    requires at <= |text|
    ensures Substring(text, at, at) == ""
    ensures Lev(Substring(text, at + 1, at), query) < |query| <==> at < |text| && text[at] in query
    ensures Lev(Substring(text, at, at - 1), query) < |query| <==> at > 0 && text[at - 1] in query
  {
    if at < |text| {
      assert Substring(text, at + 1, at) == [text[at]];
      OneCharacter(text[at], query);
    }
    if at > 0 {
      assert Substring(text, at, at - 1) == [text[at - 1]];
      OneCharacter(text[at - 1], query);
    }
  }

  lemma EmptyWindowCanInvert()
    ensures
      var (found, _) := Reduce("a", "a", 0, 0);
      found.start == 1 && found.end <= 0
  {
    EmptyWindow("a", "a", 0);
    assert Substring("a", 0, 0) == "" && Substring("a", 1, 0) == "a" && Substring("a", 2, 0) == "a";
    ZeroMeansEqual("a", "a");
    OneCharacter('a', "a");
    assert ShrinkStart("a", "a", 1, 0, 0) == (1, 0);
    assert ShrinkStart("a", "a", 0, 0, 1) == (1, 0);
    ReduceMeasures("a", "a", 0, 0);
  }

  // ---- The recursive search ----

  /** No distance has been measured yet (None) or `distance` has. */
  predicate Below(d: nat, limit: Option<nat>) {
    limit.Some? ==> d < limit.value
  }

  /** The left window reaches a query length past the middle, the right one starts a query length before it. */
  function LeftEnd(query: string, start: nat, end: nat): (n: nat)
    requires start <= end
    ensures start <= n <= end
    ensures query != "" && start < end ==> start < n
  {
    Min(end, start + (end - start) / 2 + |query|)
  }

  function RightStart(query: string, start: nat, end: nat): (n: nat)
    requires start <= end
    ensures start <= n <= end
    ensures query != "" && start < end ==> n < end
  {
    var midPoint := start + (end - start) / 2;
    if midPoint - |query| > start then midPoint - |query| else start
  }

  /** The search recurses only while it finds a smaller distance; the window need not get smaller. */
  function FuzzyIndexOf(text: string, query: string, start: nat, end: nat, parentDistance: Option<nat>): (Match, int)
    requires start <= end <= |text|
    decreases parentDistance.None?, if parentDistance.Some? then parentDistance.value else 0
  {
    if end - start <= 2 * |query| then Reduce(text, query, start, end)
    else
      var leftEnd, rightStart := LeftEnd(query, start, end), RightStart(query, start, end);
      var leftDistance, rightDistance := Lev(text[start..leftEnd], query), Lev(text[rightStart..end], query);
      var measured := Min(leftDistance, rightDistance);
      if !Below(measured, parentDistance) then Reduce(text, query, start, end)
      else if leftDistance < rightDistance then FuzzyIndexOf(text, query, start, leftEnd, Some(measured))
      else FuzzyIndexOf(text, query, rightStart, end, Some(measured))
  }

  /** What the caller passes down is nothing, or the distance of this very window. */
  predicate Measured(text: string, query: string, start: nat, end: nat, parentDistance: Option<nat>)
    requires start <= end <= |text|
  {
    parentDistance.Some? ==> parentDistance.value == Lev(text[start..end], query)
  }

  /** A slice of the window at its true distance; it is empty exactly for the empty query. */
  predicate SliceOf(found: Match, text: string, query: string, start: nat, end: nat)
    requires start <= end <= |text|
  {
    && start <= found.start <= found.end <= end
    && (found.start == found.end <==> query == "")
    && found.value == text[found.start..found.end]
    && found.distance == Lev(found.value, query)
  }

  lemma ReduceIsSound(text: string, query: string, start: nat, end: nat)
    requires start <= end <= |text| && (start == end <==> query == "")
    ensures SliceOf(Reduce(text, query, start, end).0, text, query, start, end)
    ensures Reduce(text, query, start, end).0.distance <= Lev(text[start..end], query)
  {
    ReduceMeasures(text, query, start, end);
    assert Substring(text, start, end) == text[start..end];
    if query == "" {
      NothingToReduce(text, start);
    } else {
      EachDropGainsOne(text, query, start, end);
    }
  }

  lemma {:induction false} NothingToReduce(text: string, at: nat)
    requires at <= |text|
    ensures Reduce(text, "", at, at) == (Match(at, at, "", 0), 0)
  {
    assert Substring(text, at, at) == "";
    assert ShrinkStart(text, "", at, at, 0) == (at, 0);
    assert ShrinkEnd(text, "", at, at, 0) == (at, 0);
  }

  /** The search returns a slice of the window with its true distance, never worse than any distance passed down. For an
      empty query it is an empty slice. */
  lemma {:induction false} FuzzyIndexOfIsSound(text: string, query: string, start: nat, end: nat, parentDistance: Option<nat>)
    requires start <= end <= |text| && (query != "" ==> start < end) && Measured(text, query, start, end, parentDistance)
    ensures SliceOf(FuzzyIndexOf(text, query, start, end, parentDistance).0, text, query, start, end)
    ensures parentDistance.Some? ==> FuzzyIndexOf(text, query, start, end, parentDistance).0.distance <= parentDistance.value
    decreases parentDistance.None?, if parentDistance.Some? then parentDistance.value else 0
  {
    if query != "" || start == end {
      ReduceIsSound(text, query, start, end);
    }
    if end - start > 2 * |query| {
      var leftEnd, rightStart := LeftEnd(query, start, end), RightStart(query, start, end);
      var leftDistance, rightDistance := Lev(text[start..leftEnd], query), Lev(text[rightStart..end], query);
      var measured := Min(leftDistance, rightDistance);
      EmptyQueryHalves(text, query, start, end);
      if Below(measured, parentDistance) {
        if leftDistance < rightDistance {
          FuzzyIndexOfIsSound(text, query, start, leftEnd, Some(measured));
        } else {
          FuzzyIndexOfIsSound(text, query, rightStart, end, Some(measured));
        }
      }
    }
  }

  /** The windows of an empty query are the two halves, and the distance of a window is its length. */
  lemma EmptyQueryHalves(text: string, query: string, start: nat, end: nat)
    requires start < end <= |text|
    ensures query == "" ==>
      && Lev(text[start..LeftEnd(query, start, end)], query) < Lev(text[start..end], query) == end - start
      && LeftEnd(query, start, end) == RightStart(query, start, end)
  {
    Bounds(text[start..LeftEnd(query, start, end)], "");
    Bounds(text[start..end], "");
  }

  /** A search of a whole text, which is how the program calls it, always reports a slice of the text at its true distance. */
  lemma WholeTextIsProper(text: string, query: string)
    ensures
      var found := FuzzyIndexOf(text, query, 0, |text|, None).0;
      && 0 <= found.start <= found.end <= |text|
      && found.value == text[found.start..found.end] && found.distance == Lev(found.value, query)
  {
    if text != "" {
      FuzzyIndexOfIsSound(text, query, 0, |text|, None);
    } else {
      EmptyWindow(text, query, 0);
      ReduceMeasures(text, query, 0, 0);
    }
  }

  /** The two windows overlap so far that no slice of the query's length falls between them. */
  lemma WindowsCover(query: string, start: nat, end: nat, a: nat, b: nat)
    requires start <= a <= b <= end && b - a <= |query|
    ensures b <= LeftEnd(query, start, end) || RightStart(query, start, end) <= a
  {
  }

  /** Window size is no termination measure: the right window of a window of length 2q + 1 is that whole window. */
  lemma WindowMayNotShrink(query: string, start: nat, end: nat)
    requires end - start == 2 * |query| + 1
    ensures RightStart(query, start, end) == start
  {
  }

  /** A top-level search (no distance yet) is no worse than either of its two windows. */
  lemma {:induction false} NoWorseThanItsWindows(text: string, query: string, start: nat, end: nat)
    requires start < end <= |text| && end - start > 2 * |query|
    ensures
      var found := FuzzyIndexOf(text, query, start, end, None).0;
      && found.distance <= Lev(text[start..LeftEnd(query, start, end)], query)
      && found.distance <= Lev(text[RightStart(query, start, end)..end], query)
  {
    var leftEnd, rightStart := LeftEnd(query, start, end), RightStart(query, start, end);
    var leftDistance, rightDistance := Lev(text[start..leftEnd], query), Lev(text[rightStart..end], query);
    if leftDistance < rightDistance {
      FuzzyIndexOfIsSound(text, query, start, leftEnd, Some(leftDistance));
    } else {
      FuzzyIndexOfIsSound(text, query, rightStart, end, Some(rightDistance));
    }
  }
}
