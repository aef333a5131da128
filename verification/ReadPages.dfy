/** Reading evidence in budgeted pages (src/context/search.ts, readEvidence). */
module ReadPages {
  import opened Prelude
  import Utf8
  import opened PageModel
  import opened PageLemmas

  /** The largest length the search finds. The test need not be monotone; where it is, the length is the largest. */
  method SearchLength(fits: nat -> bool, limit: nat) returns (low: nat)
    ensures low <= limit && (low > 0 ==> fits(low))
    ensures (forall a: nat, b: nat :: a <= b <= limit && fits(b) ==> fits(a)) ==> forall l: nat :: low < l <= limit ==> !fits(l)
  {
    low := 0;
    var high := limit;
    while low < high
      invariant low <= high <= limit && (low > 0 ==> fits(low))
      invariant (forall a: nat, b: nat :: a <= b <= limit && fits(b) ==> fits(a)) ==> forall l: nat :: high < l <= limit ==> !fits(l)
    {
      var mid := (low + high + 1) / 2;
      if fits(mid) {
        low := mid;
      } else {
        high := mid - 1;
      }
    }
  }

  /** A ref without readable text gives an error item. */
  method ReadMissing(r: Request, from: Position, i: nat, before: seq<Item>) returns (page: Page, step: Step)
    requires from.index <= i < |r.refs| && |before| == i - from.index && Complete(r, from, before) && !r.Readable(i)
    ensures RoundOk(r, from, i, before, page, step)
  {
    var item := Missing(r.refs[i], r.refs[i] in r.rows);
    page, step := Page(before + [item], r.NextRef(i)), Next;
    AddItem(r, from, before, item, true);
    if !r.Fits(page) {
      page, step := LeaveForLater(r, from, i, before, 0), Stop;
    }
  }

  /** The length the search finds for ref i. */
  method FindLength(r: Request, from: Position, i: nat, before: seq<Item>) returns (low: nat)
    requires i < |r.refs| && r.Readable(i) && r.Acceptable(i, r.StartAt(from, i))
    ensures Found(r, from, i, before, low)
  {
    var start := r.StartAt(from, i);
    var limit := r.EndLimit(i) - start;
    var fits := (length: nat) => r.Fits(r.WithPiece(before, i, start, length));
    assert Even(r, from, i, before) ==> forall a: nat, b: nat :: a <= b <= limit && fits(b) ==> fits(a);
    low := SearchLength(fits, limit);
    assert forall l: nat :: !fits(l) ==> !r.Fits(r.WithPiece(before, i, start, l));
  }

  /** A readable ref gives the longest piece that the search finds. */
  method ReadText(r: Request, from: Position, i: nat, before: seq<Item>) returns (page: Page, step: Step)
    requires from.index <= i < |r.refs| && |before| == i - from.index && Complete(r, from, before)
    requires r.Readable(i) && r.Acceptable(i, r.StartAt(from, i))
    ensures RoundOk(r, from, i, before, page, step)
  {
    var start := r.StartAt(from, i);
    var low := FindLength(r, from, i, before);
    page := r.WithPiece(before, i, start, low);
    var item := page.items[|before|];
    if !r.Fits(page) || (r.EndLimit(i) > start && item.content == []) {
      NoPieceFits(r, from, i, before, low);
      page, step := LeaveForLater(r, from, i, before, start), Stop;
    } else {
      step := if start + |item.content| < r.EndLimit(i) then Stop else Next;
      PieceTaken(r, from, i, before, low);
    }
  }

  /** If the length found will not do, none will, unless the test is uneven. */
  lemma NoPieceFits(r: Request, from: Position, i: nat, before: seq<Item>, low: nat)
    requires i < |r.refs| && r.Readable(i) && r.Acceptable(i, r.StartAt(from, i))
    requires Found(r, from, i, before, low) && !PieceFits(r, i, r.StartAt(from, i), before, low)
    ensures Even(r, from, i, before) ==> !Takes(r, from, i, before)
  {
    var start := r.StartAt(from, i);
    if Even(r, from, i, before) {
      forall l: nat | l <= r.EndLimit(i) - start ensures !PieceFits(r, i, start, before, l) {
        if l <= low && r.Fits(r.WithPiece(before, i, start, low)) {
          Utf8.PrefixGrows(r.TextOf(i)[start..r.EndLimit(i)], l, low);
        }
      }
    }
  }

  method ReadRef(r: Request, from: Position, i: nat, before: seq<Item>) returns (page: Page, step: Step)
    requires from.index <= i < |r.refs| && |before| == i - from.index && Complete(r, from, before)
    ensures RoundOk(r, from, i, before, page, step)
  {
    if !r.Readable(i) {
      page, step := ReadMissing(r, from, i, before);
    } else if !r.Acceptable(i, r.StartAt(from, i)) {
      page, step := Page([], None), Bad;
    } else {
      page, step := ReadText(r, from, i, before);
    }
  }

  function LeaveForLater(r: Request, from: Position, i: nat, before: seq<Item>, offset: nat): (page: Page)
    requires from.index <= i < |r.refs| && |before| == i - from.index && Complete(r, from, before)
    requires offset == 0 || offset == r.StartAt(from, i)
    ensures page.items == before
    ensures before != [] ==> ItemsOk(r, from, before) && SamePlace(r, page.next, PlaceAfter(r, from, before))
  {
    if before != [] then
      StoppedBefore(r, from, before, offset);
      CompleteIsOk(r, from, before);
      Page(before, Some(Position(i, offset)))
    else Page(before, Some(Position(i, offset)))
  }

  /** A page is answered only if something of its first ref fits; and, unless an offset is refused, whenever something
      does, provided that a shorter piece never fits worse and cursors do not matter. */
  method ReadEvidence(r: Request, from: Position) returns (result: Option<Page>, error: Error)
    ensures result.Some? ==> PageOk(r, from, result.value)
    ensures result.Some? ==> from.index < |r.refs| && Takes(r, from, from.index, []) && Full(r, from, result.value.items)
    ensures result.None? && error == BadOffset ==>
      exists i: nat :: from.index <= i < |r.refs| && r.Readable(i) && !r.Acceptable(i, r.StartAt(from, i))
    ensures result.None? && error == BudgetExceeded && from.index < |r.refs| ==>
      && (r.Readable(from.index) ==> r.Acceptable(from.index, r.StartAt(from, from.index)))
      && (Takes(r, from, from.index, []) ==> !Even(r, from, from.index, []) || !CursorsAlike(r))
  {
    var page := Page([], None);
    var i := from.index;
    var open := true;
    ghost var fitted := Page([], None);
    while open && i < |r.refs|
      invariant from.index <= i && (i <= |r.refs| || page.items == [])
      invariant open ==> |page.items| == i - from.index && (page.items != [] ==> Complete(r, from, page.items))
      invariant page.items != [] ==>
        && ItemsOk(r, from, page.items) && SamePlace(r, page.next, PlaceAfter(r, from, page.items))
        && fitted.items == page.items && r.Fits(fitted) && from.index < |r.refs| && Takes(r, from, from.index, [])
        && (!open || i == |r.refs| ==> Full(r, from, page.items))
      invariant !open && page.items == [] ==> from.index < |r.refs| && NothingFits(r, from, from.index, [])
      decreases open, |r.refs| - i
    {
      var before := page.items;
      var step;
      page, step := ReadRef(r, from, i, before);
      if step.Bad? {
        return None, BadOffset;
      }
      if |page.items| > |before| {
        fitted := page;
      }
      if step.Next? {
        CompleteIsOk(r, from, page.items);
        i := i + 1;
      } else {
        open := false;
      }
    }
    if !r.Fits(page) || page.items == [] {
      return None, BudgetExceeded;
    }
    return Some(page), BudgetExceeded;
  }

  /** What the items of a page are, in the fields of the call: one for each ref from the cursor on; an error exactly for a ref
      without readable text, which is expired exactly if it has a row; otherwise text of the ref. */
  lemma ItemsMean(r: Request, from: Position, page: Page, j: nat)
    requires PageOk(r, from, page) && j < |page.items|
    ensures
      var (item, ref) := (page.items[j], r.refs[from.index + j]);
      && item.ref == ref
      && (item.Missing? <==> ref !in r.rows || r.rows[ref].Expired?)
      && (item.Missing? ==> (item.expired <==> ref in r.rows))
      && (item.Content? ==>
            && item.start + |item.content| <= |r.rows[ref].text|
            && item.content == r.rows[ref].text[item.start..item.start + |item.content|]
            && (j > 0 ==> item.start == if ref in r.ranges then r.ranges[ref].start else 0)
            && (ref in r.ranges && r.ranges[ref].end.Some? ==> item.start + |item.content| <= r.ranges[ref].end.value))
  {
    OnPage(r, from, page, from.index + j);
  }

  /** Which offsets are accepted, in terms of texts: those that cut the text into valid texts. */
  lemma AcceptableMeans(r: Request, i: nat, start: nat)
    requires i < |r.refs| && r.Readable(i)
    ensures
      var (text, end) := (r.TextOf(i), r.EndLimit(i));
      r.Acceptable(i, start) <==>
        start <= end && Utf8.Valid(text[..start]) && Utf8.Valid(text[start..]) && Utf8.Valid(text[..end]) && Utf8.Valid(text[end..])
    ensures r.refs[i] !in r.ranges ==> r.RangeStart(i) == 0 && r.EndLimit(i) == |r.TextOf(i)| && r.Acceptable(i, 0)
    ensures r.refs[i] in r.ranges ==>
      var range := r.ranges[r.refs[i]];
      && r.RangeStart(i) == range.start
      && (range.end.None? || range.end.value >= |r.TextOf(i)| ==> r.EndLimit(i) == |r.TextOf(i)|)
      && (range.end.Some? && range.end.value <= |r.TextOf(i)| ==> r.EndLimit(i) == range.end.value)
  {
    var (text, end) := (r.TextOf(i), r.EndLimit(i));
    Utf8.BoundaryIsCharacterBoundary(text, end);
    if start <= end {
      Utf8.BoundaryIsCharacterBoundary(text, start);
    }
    Utf8.BoundaryIsCharacterBoundary(text, 0);
    assert text[..0] == [] && text[0..] == text;
  }

  /** Whether whole items fit, ref after ref, with the cursor to the ref after them. */
  ghost predicate AllFit(r: Request, from: Position, whole: seq<Item>) {
    && Complete(r, from, whole) && from.index + |whole| == |r.refs|
    && forall n :: 0 < n <= |whole| ==> r.cost(Page(whole[..n], r.NextRef(from.index + n - 1))) <= r.cap
  }

  /** Refs that all fit together come on one page without a cursor, where a shorter piece never fits worse. */
  lemma FittingRefsComeTogether(r: Request, from: Position, whole: seq<Item>, page: Page)
    requires AllFit(r, from, whole) && PageOk(r, from, page) && Full(r, from, page.items)
    requires forall i: nat, before :: i < |r.refs| ==> Even(r, from, i, before)
    ensures page.items == whole && page.next == None
  {
    var n := |page.items|;
    SameFront(r, from, whole, page, n);
    var i, last := from.index + n - 1, page.items[n - 1];
    OnPage(r, from, page, i);
    WholeItemTakes(r, from, whole, n - 1);
    LastIsWhole(r, from, whole, page);
    assert page.items == whole[..n];
    assert n < |whole| ==> Even(r, from, i + 1, page.items);
    if n < |whole| {
      WholeItemTakes(r, from, whole, n);
    }
    assert whole[..|whole|] == whole;
  }

  /** A page takes from each ref exactly what is then no longer to be read. */
  lemma {:induction false} PageConserves(r: Request, from: Position, page: Page, i: nat)
    requires PageOk(r, from, page) && i < |r.refs| && r.Readable(i)
    ensures Rest(r, Some(from), i) == Got(r, from, page, i) + Rest(r, page.next, i)
  {
    RestOfSamePlace(r, page.next, PlaceAfter(r, from, page.items), i);
    if from.index <= i < from.index + |page.items| {
      ItemConserves(r, from, page, i);
    } else {
      PlaceAfterIndex(r, from, page.items);
      NothingGot(Rest(r, page.next, i));
    }
  }

  lemma {:induction false} PageErrors(r: Request, from: Position, page: Page, i: nat)
    requires PageOk(r, from, page) && i < |r.refs|
    ensures r.Readable(i) ==> Errors(r, from, page, i) == 0
    ensures !r.Readable(i) ==> Errors(r, from, page, i) == if from.index <= i < from.index + |page.items| then 1 else 0
  {
    var j := i - from.index;
    if 0 <= j < |page.items| {
      assert ItemOk(r, from, from.index + j, page.items[j], j == |page.items| - 1);
    }
  }

  lemma {:induction false} ChainConserves(from: Position, visits: seq<Visit>, i: nat, last: Request)
    requires Chain(from, visits) && i < |visits[0].r.refs| && last == visits[|visits| - 1].r
    ensures last.refs == visits[0].r.refs
    ensures Accounted(visits[0].r, from, i, GotAll(from, visits, i), ErrorsAll(from, visits, i), last)
    decreases |visits|
  {
    StillReadable(from, visits, i);
    if |visits| == 1 {
      ChainOfOne(from, visits, i);
    } else {
      StillReadable(visits[0].page.next.value, visits[1..], i);
      ChainConserves(visits[0].page.next.value, visits[1..], i, last);
      ChainStep(from, visits, i, last);
    }
  }

  lemma {:induction false} ChainOfOne(from: Position, visits: seq<Visit>, i: nat)
    requires |visits| == 1 && Chain(from, visits) && i < |visits[0].r.refs|
    ensures Accounted(visits[0].r, from, i, GotAll(from, visits, i), ErrorsAll(from, visits, i), visits[0].r)
  {
    LastPage(visits[0].r, from, visits[0].page, i);
    NothingGot(Got(visits[0].r, from, visits[0].page, i));
  }

  lemma {:induction false} ChainStep(from: Position, visits: seq<Visit>, i: nat, last: Request)
    requires |visits| > 1 && Chain(from, visits) && i < |visits[0].r.refs| == |last.refs|
    requires last.Readable(i) ==> visits[1].r.Readable(i)
    requires
      var (next, rest) := (visits[0].page.next.value, visits[1..]);
      Accounted(visits[1].r, next, i, GotAll(next, rest, i), ErrorsAll(next, rest, i), last)
    ensures Accounted(visits[0].r, from, i, GotAll(from, visits, i), ErrorsAll(from, visits, i), last)
  {
    var next, rest := visits[0].page.next.value, visits[1..];
    PageThenRest(visits[0].r, from, visits[0].page, i, visits[1].r, GotAll(next, rest, i), ErrorsAll(next, rest, i), last);
  }

  lemma {:induction false} LastPage(r: Request, from: Position, page: Page, i: nat)
    requires PageOk(r, from, page) && page.next.None? && i < |r.refs|
    ensures Accounted(r, from, i, Got(r, from, page, i), Errors(r, from, page, i), r)
  {
    PageErrors(r, from, page, i);
    PlaceAfterIndex(r, from, page.items);
    if r.Readable(i) {
      PageConserves(r, from, page, i);
      NothingGot(Got(r, from, page, i));
      if from.index <= i {
        OnPage(r, from, page, i);
      }
    }
  }

  /** A page before what the rest of the reading holds. */
  lemma {:induction false} PageThenRest(r: Request, from: Position, page: Page, i: nat, later: Request, got: seq<byte>, errors: nat, last: Request)
    requires PageOk(r, from, page) && page.next.Some? && i < |r.refs| == |last.refs| && Continues(r, later)
    requires last.Readable(i) ==> later.Readable(i)
    requires Accounted(later, page.next.value, i, got, errors, last)
    ensures Accounted(r, from, i, Got(r, from, page, i) + got, Errors(r, from, page, i) + errors, last)
  {
    PageErrors(r, from, page, i);
    PlaceAfterIndex(r, from, page.items);
    SameText(r, later, i);
    if r.Readable(i) {
      PageConserves(r, from, page, i);
      if from.index <= i < from.index + |page.items| {
        OnPage(r, from, page, i);
      }
      PrefixConcat(Got(r, from, page, i), got, Rest(r, page.next, i));
    }
  }

  /** Reading from the start to the last page gives each ref that is still readable at the end exactly its requested
      range, piece by piece and without error; each ref purged meanwhile the front of its range, and one error unless it
      was finished; and each other ref one error. */
  lemma {:induction false} PagesPartitionTheText(visits: seq<Visit>, i: nat)
    requires Chain(Position(0, 0), visits) && i < |visits[0].r.refs|
    ensures
      var (r, last) := (visits[0].r, visits[|visits| - 1].r);
      var (got, errors) := (GotAll(Position(0, 0), visits, i), ErrorsAll(Position(0, 0), visits, i));
      && last.refs == r.refs
      && (!r.Readable(i) ==> got == [] && errors == 1)
      && (r.Readable(i) && last.Readable(i) ==> errors == 0)
      && (r.Readable(i) && errors == 0 ==>
            r.RangeStart(i) <= r.EndLimit(i) && got == r.TextOf(i)[r.RangeStart(i)..r.EndLimit(i)])
      && (r.Readable(i) && errors > 0 ==>
            errors == 1 && (r.RangeStart(i) <= r.EndLimit(i) ==> got <= r.TextOf(i)[r.RangeStart(i)..r.EndLimit(i)]))
  {
    StillReadable(Position(0, 0), visits, i);
    ChainConserves(Position(0, 0), visits, i, visits[|visits| - 1].r);
  }

  /** Every piece is itself valid UTF-8. */
  lemma PiecesAreText(r: Request, from: Position, page: Page, j: nat)
    requires PageOk(r, from, page) && j < |page.items| && page.items[j].Content?
    ensures Utf8.Valid(page.items[j].content)
  {
    var i, item := from.index + j, page.items[j];
    OnPage(r, from, page, i);
    var text, start, end := r.TextOf(i), item.start, item.start + |item.content|;
    assert item.content == text[start..end];
    Utf8.PieceIsValid(text, start, end);
  }

  /** Each page moves on: to a later ref, or further into the same one, and there at an acceptable offset. */
  lemma CursorAdvances(r: Request, from: Position, page: Page)
    requires PageOk(r, from, page) && page.next.Some?
    ensures
      var next := page.next.value;
      && from.index <= next.index < |r.refs|
      && (next.index == from.index ==>
            && r.Readable(next.index)
            && r.StartAt(from, next.index) < r.StartAt(next, next.index)
            && r.Acceptable(next.index, r.StartAt(next, next.index)))
  {
    PlaceAfterIndex(r, from, page.items);
    var j := |page.items| - 1;
    assert ItemOk(r, from, from.index + j, page.items[j], true);
  }
}
