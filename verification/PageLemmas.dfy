/** Lemmas about pages. An item that others follow is whole, and the last one may stop short at a character boundary; where
    the page stops is where the next one begins; and what a page holds of a ref, followed by what is still to be read of it,
    is what was to be read before. A purge between two pages turns the rest into one error. */
module PageLemmas {
  import opened Prelude
  import Utf8
  import opened PageModel

  lemma SliceOfSlice(text: seq<byte>, start: nat, end: nat, n: nat)
    requires start <= end <= |text| && n <= end - start
    ensures text[start..end][..n] == text[start..start + n]
  {
  }

  lemma CutSlice(text: seq<byte>, a: nat, b: nat, c: nat)
    requires a <= b <= c <= |text|
    ensures text[a..c] == text[a..b] + text[b..c]
  {
  }

  lemma PieceOk(r: Request, from: Position, i: nat, length: nat)
    requires i < |r.refs| && r.Readable(i) && r.Acceptable(i, r.StartAt(from, i))
    ensures
      var start := r.StartAt(from, i);
      var content := r.Piece(i, start, length);
      && start + |content| <= r.EndLimit(i)
      && content == r.TextOf(i)[start..start + |content|]
      && Utf8.Boundary(r.TextOf(i), start + |content|)
  {
    var start, end := r.StartAt(from, i), r.EndLimit(i);
    var remaining := r.TextOf(i)[start..end];
    assert remaining != [] ==> remaining[0] == r.TextOf(i)[start];
    Utf8.PrefixIsLongest(remaining, length);
    var n := Utf8.PrefixLength(remaining, length);
    assert n < |remaining| ==> r.TextOf(i)[start + n] == remaining[n];
    SliceOfSlice(r.TextOf(i), start, end, n);
  }

  lemma CompleteIsOk(r: Request, from: Position, items: seq<Item>)
    requires Complete(r, from, items)
    ensures ItemsOk(r, from, items)
    ensures items != [] ==> PlaceAfter(r, from, items) == r.NextRef(from.index + |items| - 1)
  {
    if items != [] {
      var j := |items| - 1;
      assert ItemOk(r, from, from.index + j, items[j], false);
    }
  }

  /** Stopping before ref i is at the same place as having finished the ref before it. */
  lemma StoppedBefore(r: Request, from: Position, items: seq<Item>, offset: nat)
    requires Complete(r, from, items) && items != [] && from.index + |items| < |r.refs|
    requires offset == 0 || offset == r.StartAt(from, from.index + |items|)
    ensures SamePlace(r, Some(Position(from.index + |items|, offset)), PlaceAfter(r, from, items))
  {
    CompleteIsOk(r, from, items);
  }

  /** A new item after complete ones. */
  lemma AddItem(r: Request, from: Position, before: seq<Item>, item: Item, whole: bool)
    requires Complete(r, from, before) && from.index + |before| < |r.refs|
    requires ItemOk(r, from, from.index + |before|, item, !whole)
    ensures ItemsOk(r, from, before + [item])
    ensures whole ==> Complete(r, from, before + [item])
  {
  }

  lemma PieceIsItem(r: Request, from: Position, i: nat, item: Item, length: nat)
    requires i < |r.refs| && r.Readable(i) && r.Acceptable(i, r.StartAt(from, i))
    requires item == Content(r.refs[i], r.StartAt(from, i), r.Piece(i, r.StartAt(from, i), length))
    requires item.content == [] ==> r.StartAt(from, i) == r.EndLimit(i)
    ensures ItemOk(r, from, i, item, item.start + |item.content| < r.EndLimit(i))
  {
    PieceOk(r, from, i, length);
  }

  lemma {:induction false} LongestFound(r: Request, from: Position, i: nat, before: seq<Item>, low: nat)
    requires i < |r.refs| && r.Readable(i) && r.Acceptable(i, r.StartAt(from, i)) && Found(r, from, i, before, low)
    ensures LongestFits(r, from, i, before, r.Piece(i, r.StartAt(from, i), low))
  {
    var start := r.StartAt(from, i);
    forall l: nat | l <= r.EndLimit(i) - start && |r.Piece(i, start, l)| > |r.Piece(i, start, low)| ensures l > low {
      if l <= low {
        Utf8.PrefixGrows(r.TextOf(i)[start..r.EndLimit(i)], l, low);
      }
    }
  }

  /** The piece joins the page. */
  lemma {:induction false} PieceTaken(r: Request, from: Position, i: nat, before: seq<Item>, low: nat)
    requires from.index <= i < |r.refs| && |before| == i - from.index && Complete(r, from, before)
    requires r.Readable(i) && r.Acceptable(i, r.StartAt(from, i)) && low <= r.EndLimit(i) - r.StartAt(from, i)
    requires Found(r, from, i, before, low) && PieceFits(r, i, r.StartAt(from, i), before, low)
    ensures
      var page := r.WithPiece(before, i, r.StartAt(from, i), low);
      var whole := r.StartAt(from, i) + |page.items[|before|].content| == r.EndLimit(i);
      RoundOk(r, from, i, before, page, if whole then Next else Stop)
  {
    var item := r.WithPiece(before, i, r.StartAt(from, i), low).items[|before|];
    PieceIsItem(r, from, i, item, low);
    AddItem(r, from, before, item, item.start + |item.content| == r.EndLimit(i));
    if item.start + |item.content| < r.EndLimit(i) {
      ShortPieceIsFull(r, from, i, before, low);
    }
  }

  lemma {:induction false} ShortPieceIsFull(r: Request, from: Position, i: nat, before: seq<Item>, low: nat)
    requires from.index <= i < |r.refs| && |before| == i - from.index
    requires r.Readable(i) && r.Acceptable(i, r.StartAt(from, i)) && Found(r, from, i, before, low)
    requires
      var items := r.WithPiece(before, i, r.StartAt(from, i), low).items;
      ItemsOk(r, from, items) && r.StartAt(from, i) + |items[|before|].content| < r.EndLimit(i)
    ensures Full(r, from, r.WithPiece(before, i, r.StartAt(from, i), low).items)
  {
    LongestFound(r, from, i, before, low);
    var items := r.WithPiece(before, i, r.StartAt(from, i), low).items;
    assert items[..|items| - 1] == before;
  }

  lemma RestOfSamePlace(r: Request, a: Option<Position>, b: Option<Position>, i: nat)
    requires i < |r.refs| && r.Readable(i) && SamePlace(r, a, b)
    ensures Rest(r, a, i) == Rest(r, b, i)
  {
  }

  lemma {:induction false} PlaceAfterIndex(r: Request, from: Position, items: seq<Item>)
    requires items != [] && ItemsOk(r, from, items)
    ensures
      var place := PlaceAfter(r, from, items);
      && (place.None? ==> from.index + |items| == |r.refs|)
      && (place.Some? ==> place.value.index < |r.refs| && from.index + |items| - 1 <= place.value.index <= from.index + |items|)
  {
    var j := |items| - 1;
    assert ItemOk(r, from, from.index + j, items[j], true);
  }

  lemma {:induction false} OnPage(r: Request, from: Position, page: Page, i: nat)
    requires PageOk(r, from, page) && from.index <= i < from.index + |page.items|
    ensures ItemOk(r, from, i, page.items[i - from.index], i - from.index == |page.items| - 1)
  {
    var j := i - from.index;
    assert ItemOk(r, from, from.index + j, page.items[j], j == |page.items| - 1);
  }

  /** An item that others follow ends at the end limit, and reading goes on after its ref. */
  lemma {:induction false} WholeItemEnds(r: Request, from: Position, page: Page, i: nat)
    requires PageOk(r, from, page) && from.index <= i < from.index + |page.items| - 1 && r.Readable(i)
    ensures
      var place := PlaceAfter(r, from, page.items);
      && r.StartAt(from, i) + |Got(r, from, page, i)| == r.EndLimit(i) && (place.Some? ==> i < place.value.index)
  {
    OnPage(r, from, page, i);
    PlaceAfterIndex(r, from, page.items);
  }

  /** Reading goes on where the last item ends. */
  lemma {:induction false} LastItemEnds(r: Request, from: Position, page: Page, i: nat)
    requires PageOk(r, from, page) && i == from.index + |page.items| - 1 && r.Readable(i)
    ensures
      var end := r.StartAt(from, i) + |Got(r, from, page, i)|;
      end <= r.EndLimit(i) && (end == 0 ==> r.EndLimit(i) == 0) && PlaceAfter(r, from, page.items) == r.After(i, end)
  {
    OnPage(r, from, page, i);
  }

  /** What is left of a ref whose item is on the page. */
  lemma {:induction false} RestAfterItem(r: Request, from: Position, page: Page, i: nat)
    requires PageOk(r, from, page) && from.index <= i < from.index + |page.items| && r.Readable(i)
    ensures
      var end := r.StartAt(from, i) + |Got(r, from, page, i)|;
      end <= r.EndLimit(i) && Rest(r, PlaceAfter(r, from, page.items), i) == r.TextOf(i)[end..r.EndLimit(i)]
  {
    var end := r.StartAt(from, i) + |Got(r, from, page, i)|;
    if i < from.index + |page.items| - 1 {
      WholeItemEnds(r, from, page, i);
      NothingLeft(r, i, PlaceAfter(r, from, page.items), end);
    } else {
      LastItemEnds(r, from, page, i);
      RestAfterPiece(r, i, end);
    }
  }

  lemma NothingLeft(r: Request, i: nat, place: Option<Position>, end: nat)
    requires i < |r.refs| && r.Readable(i) && end == r.EndLimit(i) && (place.Some? ==> i < place.value.index)
    ensures Rest(r, place, i) == r.TextOf(i)[end..r.EndLimit(i)]
  {
  }

  lemma RestAfterPiece(r: Request, i: nat, end: nat)
    requires i < |r.refs| && r.Readable(i) && end <= r.EndLimit(i) && (end == 0 ==> r.EndLimit(i) == 0)
    ensures Rest(r, r.After(i, end), i) == r.TextOf(i)[end..r.EndLimit(i)]
  {
    if end == r.EndLimit(i) {
      NothingLeft(r, i, r.NextRef(i), end);
    }
  }

  lemma {:induction false} ItemConserves(r: Request, from: Position, page: Page, i: nat)
    requires PageOk(r, from, page) && from.index <= i < from.index + |page.items| && r.Readable(i)
    ensures Rest(r, Some(from), i) == Got(r, from, page, i) + Rest(r, PlaceAfter(r, from, page.items), i)
  {
    RestAfterItem(r, from, page, i);
    ItemIsSlice(r, from, page, i);
    CutSlice(r.TextOf(i), r.StartAt(from, i), r.StartAt(from, i) + |Got(r, from, page, i)|, r.EndLimit(i));
  }

  /** The item of ref i is a slice of its text, from where reading starts. */
  lemma {:induction false} ItemIsSlice(r: Request, from: Position, page: Page, i: nat)
    requires PageOk(r, from, page) && from.index <= i < from.index + |page.items| && r.Readable(i)
    ensures
      var (start, n) := (r.StartAt(from, i), |Got(r, from, page, i)|);
      && start + n <= r.EndLimit(i)
      && Got(r, from, page, i) == r.TextOf(i)[start..start + n]
      && Rest(r, Some(from), i) == r.TextOf(i)[start..r.EndLimit(i)]
  {
    OnPage(r, from, page, i);
  }

  lemma NothingGot(rest: seq<byte>)
    ensures [] + rest == rest && rest + [] == rest
  {
  }

  /** A ref that stays readable has the same text and bounds. */
  lemma SameText(a: Request, b: Request, i: nat)
    requires Continues(a, b) && i < |a.refs|
    ensures b.Readable(i) ==> a.Readable(i)
    ensures b.Readable(i) ==>
      b.TextOf(i) == a.TextOf(i) && b.EndLimit(i) == a.EndLimit(i) && forall from :: b.StartAt(from, i) == a.StartAt(from, i)
  {
    assert a.refs[i] in a.refs;
  }

  lemma PrefixConcat(a: seq<byte>, b: seq<byte>, c: seq<byte>)
    requires b <= c
    ensures a + b <= a + c
  {
  }

  /** A ref that is readable at the end has been so all along. */
  lemma {:induction false} StillReadable(from: Position, visits: seq<Visit>, i: nat)
    requires Chain(from, visits) && i < |visits[0].r.refs|
    ensures visits[|visits| - 1].r.refs == visits[0].r.refs
    ensures visits[|visits| - 1].r.Readable(i) ==> visits[0].r.Readable(i)
    decreases |visits|
  {
    if |visits| > 1 {
      SameText(visits[0].r, visits[1].r, i);
      StillReadable(visits[0].page.next.value, visits[1..], i);
    }
  }

  // ---- Pages of whole items ----

  /** Complete items are determined by the call. */
  lemma SameItem(r: Request, from: Position, i: nat, a: Item, b: Item)
    requires i < |r.refs| && ItemOk(r, from, i, a, false) && ItemOk(r, from, i, b, false)
    ensures a == b
  {
  }

  lemma SameFront(r: Request, from: Position, whole: seq<Item>, page: Page, n: nat)
    requires Complete(r, from, whole) && from.index + |whole| == |r.refs| && PageOk(r, from, page) && n == |page.items|
    ensures 0 < n <= |whole| && forall j :: 0 <= j < n - 1 ==> page.items[j] == whole[j]
  {
    forall j | 0 <= j < n - 1 ensures page.items[j] == whole[j] {
      OnPage(r, from, page, from.index + j);
      assert ItemOk(r, from, from.index + j, whole[j], false);
      SameItem(r, from, from.index + j, page.items[j], whole[j]);
    }
  }

  /** The whole piece is the longest one. */
  lemma WholePiece(r: Request, from: Position, i: nat, item: Item, before: seq<Item>)
    requires i < |r.refs| && r.Readable(i) && ItemOk(r, from, i, item, false)
    ensures
      var (start, limit) := (r.StartAt(from, i), r.EndLimit(i) - r.StartAt(from, i));
      && limit >= 0 && r.Piece(i, start, limit) == item.content && r.WithPiece(before, i, start, limit) == Page(before + [item], r.NextRef(i))
  {
    var (start, end) := (r.StartAt(from, i), r.EndLimit(i));
    var remaining := r.TextOf(i)[start..end];
    assert remaining[..|remaining|] == remaining;
  }

  /** Where whole items fit, the next one is taken. */
  lemma WholeItemTakes(r: Request, from: Position, whole: seq<Item>, n: nat)
    requires Complete(r, from, whole) && n < |whole| && r.Fits(Page(whole[..n + 1], r.NextRef(from.index + n)))
    ensures Takes(r, from, from.index + n, whole[..n])
  {
    var (i, item) := (from.index + n, whole[n]);
    assert ItemOk(r, from, i, item, false);
    assert whole[..n + 1] == whole[..n] + [item];
    if r.Readable(i) {
      WholePiece(r, from, i, item, whole[..n]);
      assert PieceFits(r, i, r.StartAt(from, i), whole[..n], r.EndLimit(i) - r.StartAt(from, i));
    }
  }

  /** A page that could have held more has no short item where the whole one fits. */
  lemma LastIsWhole(r: Request, from: Position, whole: seq<Item>, page: Page)
    requires Complete(r, from, whole) && PageOk(r, from, page) && Full(r, from, page.items) && |page.items| <= |whole|
    requires forall j :: 0 <= j < |page.items| - 1 ==> page.items[j] == whole[j]
    requires
      var n := |page.items|;
      r.Fits(Page(whole[..n], r.NextRef(from.index + n - 1))) && Even(r, from, from.index + n - 1, whole[..n - 1])
    ensures page.items[|page.items| - 1] == whole[|page.items| - 1]
  {
    var n := |page.items|;
    var (i, item, last) := (from.index + n - 1, whole[n - 1], page.items[n - 1]);
    OnPage(r, from, page, i);
    assert ItemOk(r, from, i, item, false);
    if r.Readable(i) {
      assert page.items[..n - 1] == whole[..n - 1];
      assert whole[..n] == whole[..n - 1] + [item];
      if last.start + |last.content| < r.EndLimit(i) {
        assert LongestFits(r, from, i, whole[..n - 1], last.content);
      }
      WholeWasTaken(r, from, i, whole[..n - 1], item, last);
    }
  }

  lemma WholeWasTaken(r: Request, from: Position, i: nat, before: seq<Item>, item: Item, last: Item)
    requires i < |r.refs| && r.Readable(i) && ItemOk(r, from, i, item, false) && ItemOk(r, from, i, last, true)
    requires r.Fits(Page(before + [item], r.NextRef(i))) && Even(r, from, i, before)
    requires last.start + |last.content| < r.EndLimit(i) ==> LongestFits(r, from, i, before, last.content)
    ensures last == item
  {
    WholePiece(r, from, i, item, before);
    WholeOrShort(r, from, i, last, item);
  }

  lemma WholeOrShort(r: Request, from: Position, i: nat, a: Item, b: Item)
    requires i < |r.refs| && r.Readable(i) && ItemOk(r, from, i, a, true) && ItemOk(r, from, i, b, false)
    ensures |a.content| <= |b.content| && (a.start + |a.content| == r.EndLimit(i) ==> a == b)
  {
  }
}
