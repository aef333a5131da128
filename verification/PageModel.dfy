/** What a page of evidence must be (src/context/search.ts, readEvidence), and how pages add up. */
module PageModel {
  import opened Prelude
  import Utf8

  type Ref = nat
  type Text = t: seq<byte> | Utf8.Valid(t) witness []

  /** A row of the evidence table: its redacted text, or a row whose text was purged. */
  datatype Evidence = Available(text: Text) | Expired

  datatype Range = Range(start: nat, end: Option<nat>)

  datatype Item = Missing(ref: Ref, expired: bool) | Content(ref: Ref, start: nat, content: seq<byte>)

  datatype Position = Position(index: nat, offset: nat)

  /** A response; it is partial exactly when it carries a cursor. */
  datatype Page = Page(items: seq<Item>, next: Option<Position>)

  datatype Error = BudgetExceeded | BadOffset

  /** What one call sees. The JSON size of a response is an arbitrary number, which may differ from call to call. */
  datatype Request = Request(refs: seq<Ref>, ranges: map<Ref, Range>, rows: map<Ref, Evidence>, cap: nat, cost: Page -> nat)
  {
    predicate Readable(i: nat)
      requires i < |refs|
    {
      refs[i] in rows && rows[refs[i]].Available?
    }

    function TextOf(i: nat): Text
      requires i < |refs| && Readable(i)
    {
      rows[refs[i]].text
    }

    function RangeStart(i: nat): nat
      requires i < |refs|
    {
      if refs[i] in ranges then ranges[refs[i]].start else 0
    }

    function EndLimit(i: nat): (end: nat)
      requires i < |refs| && Readable(i)
      ensures end <= |TextOf(i)|
    {
      var total := |TextOf(i)|;
      if refs[i] in ranges && ranges[refs[i]].end.Some? && ranges[refs[i]].end.value < total then ranges[refs[i]].end.value else total
    }

    /** Where reading of ref i starts for a call at this position. */
    function StartAt(from: Position, i: nat): nat
      requires i < |refs|
    {
      if i == from.index && from.offset > 0 then from.offset else RangeStart(i)
    }

    /** The start is accepted: in range and on character boundaries. */
    predicate Acceptable(i: nat, start: nat)
      requires i < |refs| && Readable(i)
    {
      start <= EndLimit(i) && Utf8.Boundary(TextOf(i), start) && Utf8.Boundary(TextOf(i), EndLimit(i))
    }

    /** The position after a piece of ref i that ends at `end`. */
    function After(i: nat, end: nat): Option<Position>
      requires i < |refs| && Readable(i)
    {
      if end < EndLimit(i) then Some(Position(i, end)) else NextRef(i)
    }

    function NextRef(i: nat): Option<Position> {
      if i + 1 < |refs| then Some(Position(i + 1, 0)) else None
    }

    /** The piece of ref i that a length budget gives. */
    function Piece(i: nat, start: nat, length: nat): seq<byte>
      requires i < |refs| && Readable(i) && start <= EndLimit(i)
    {
      var remaining := TextOf(i)[start..EndLimit(i)];
      remaining[..Utf8.PrefixLength(remaining, length)]
    }

    function WithPiece(items: seq<Item>, i: nat, start: nat, length: nat): Page
      requires i < |refs| && Readable(i) && start <= EndLimit(i)
    {
      var content := Piece(i, start, length);
      Page(items + [Content(refs[i], start, content)], After(i, start + |content|))
    }

    predicate Fits(page: Page) {
      cost(page) <= cap
    }
  }

  // ---- What a page must be ----

  /** The item for ref i of a call at `from`. Only the last item of a page may stop short. */
  ghost predicate ItemOk(r: Request, from: Position, i: nat, item: Item, last: bool)
    requires i < |r.refs|
  {
    if !r.Readable(i) then item == Missing(r.refs[i], r.refs[i] in r.rows)
    else
      var start := r.StartAt(from, i);
      && r.Acceptable(i, start)
      && item.Content? && item.ref == r.refs[i] && item.start == start
      && start + |item.content| <= r.EndLimit(i)
      && item.content == r.TextOf(i)[start..start + |item.content|]
      && Utf8.Boundary(r.TextOf(i), start + |item.content|)
      && (item.content == [] ==> start == r.EndLimit(i))
      && (!last ==> start + |item.content| == r.EndLimit(i))
  }

  /** Two positions from which reading goes on alike. */
  predicate SamePlace(r: Request, a: Option<Position>, b: Option<Position>) {
    a == b || (a.Some? && b.Some? && a.value.index == b.value.index < |r.refs|
      && r.StartAt(a.value, a.value.index) == r.StartAt(b.value, b.value.index))
  }

  ghost predicate ItemsOk(r: Request, from: Position, items: seq<Item>) {
    && from.index + |items| <= |r.refs|
    && forall j :: 0 <= j < |items| ==> ItemOk(r, from, from.index + j, items[j], j == |items| - 1)
  }

  function PlaceAfter(r: Request, from: Position, items: seq<Item>): Option<Position>
    requires items != [] && from.index + |items| <= |r.refs|
  {
    var i := from.index + |items| - 1;
    if r.Readable(i) && items[|items| - 1].Content? then
      r.After(i, items[|items| - 1].start + |items[|items| - 1].content|)
    else r.NextRef(i)
  }

  ghost predicate PageOk(r: Request, from: Position, page: Page) {
    && page.items != []
    && ItemsOk(r, from, page.items)
    && SamePlace(r, page.next, PlaceAfter(r, from, page.items))
    && r.Fits(page)
  }

  /** All the items are complete, so the next ref may follow. */
  ghost predicate Complete(r: Request, from: Position, items: seq<Item>) {
    && from.index + |items| <= |r.refs|
    && forall j :: 0 <= j < |items| ==> ItemOk(r, from, from.index + j, items[j], false)
  }

  datatype Step = Next | Stop | Bad

  // ---- One call ----

  /** Some length of the piece fits, and leaves no text of an unfinished ref out altogether. */
  ghost predicate TakesPiece(r: Request, i: nat, start: nat, before: seq<Item>)
    requires i < |r.refs| && r.Readable(i) && start <= r.EndLimit(i)
  {
    exists l: nat :: l <= r.EndLimit(i) - start && PieceFits(r, i, start, before, l)
  }

  ghost predicate PieceFits(r: Request, i: nat, start: nat, before: seq<Item>, l: nat)
    requires i < |r.refs| && r.Readable(i) && start <= r.EndLimit(i)
  {
    r.Fits(r.WithPiece(before, i, start, l)) && (start < r.EndLimit(i) ==> r.Piece(i, start, l) != [])
  }

  /** Something of ref i fits after these items. */
  ghost predicate Takes(r: Request, from: Position, i: nat, before: seq<Item>)
    requires i < |r.refs|
  {
    if !r.Readable(i) then r.Fits(Page(before + [Missing(r.refs[i], r.refs[i] in r.rows)], r.NextRef(i)))
    else r.Acceptable(i, r.StartAt(from, i)) && TakesPiece(r, i, r.StartAt(from, i), before)
  }

  /** A shorter piece of ref i never fits worse. */
  ghost predicate Even(r: Request, from: Position, i: nat, before: seq<Item>)
    requires i < |r.refs|
  {
    r.Readable(i) && r.StartAt(from, i) <= r.EndLimit(i) ==>
      var start := r.StartAt(from, i);
      forall a: nat, b: nat :: (a <= b <= r.EndLimit(i) - start && r.Fits(r.WithPiece(before, i, start, b))) ==>
        r.Fits(r.WithPiece(before, i, start, a))
  }

  /** Whether a response fits does not depend on its cursor. */
  ghost predicate CursorsAlike(r: Request) {
    forall items, a, b :: r.Fits(Page(items, a)) ==> r.Fits(Page(items, b))
  }

  /** The item of ref i stops short, and no longer piece would have fitted in its place. */
  ghost predicate LongestFits(r: Request, from: Position, i: nat, before: seq<Item>, content: seq<byte>)
    requires i < |r.refs| && r.Readable(i) && r.StartAt(from, i) <= r.EndLimit(i)
  {
    var start := r.StartAt(from, i);
    Even(r, from, i, before) ==>
      forall l: nat :: (l <= r.EndLimit(i) - start && |r.Piece(i, start, l)| > |content|) ==> !r.Fits(r.WithPiece(before, i, start, l))
  }

  /** Nothing of ref i fits after these items, though its offset is good. */
  ghost predicate NothingFits(r: Request, from: Position, i: nat, items: seq<Item>)
    requires i < |r.refs|
  {
    && (r.Readable(i) ==> r.Acceptable(i, r.StartAt(from, i)))
    && (Even(r, from, i, items) ==> !Takes(r, from, i, items))
  }

  /** The page could not have held more: its last item is the longest piece, or the next ref does not fit. */
  ghost predicate Full(r: Request, from: Position, items: seq<Item>)
    requires ItemsOk(r, from, items) && items != []
  {
    var i, last := from.index + |items| - 1, items[|items| - 1];
    if r.Readable(i) && last.Content? && last.start + |last.content| < r.EndLimit(i) then
      r.StartAt(from, i) <= r.EndLimit(i) && LongestFits(r, from, i, items[..|items| - 1], last.content)
    else i + 1 < |r.refs| ==> NothingFits(r, from, i + 1, items)
  }

  /** What one round of the loop may do: ref i is added whole, added in part, or left for the next page. */
  ghost predicate RoundOk(r: Request, from: Position, i: nat, before: seq<Item>, page: Page, step: Step)
    requires i < |r.refs|
  {
    match step
    case Bad => r.Readable(i) && !r.Acceptable(i, r.StartAt(from, i))
    case Next =>
      && |page.items| == |before| + 1 && Complete(r, from, page.items) && page.next == PlaceAfter(r, from, page.items)
      && r.Fits(page) && Takes(r, from, i, before)
    case Stop =>
      if |page.items| > |before| then
        && |page.items| == |before| + 1
        && ItemsOk(r, from, page.items) && SamePlace(r, page.next, PlaceAfter(r, from, page.items))
        && r.Fits(page) && Takes(r, from, i, before) && Full(r, from, page.items)
      else
        && page.items == before && NothingFits(r, from, i, before)
        && (before != [] ==> ItemsOk(r, from, before) && SamePlace(r, page.next, PlaceAfter(r, from, before)))
  }

  /** It fits, if it is positive, and nothing longer does, unless the test is uneven. */
  ghost predicate Found(r: Request, from: Position, i: nat, before: seq<Item>, low: nat)
    requires i < |r.refs| && r.Readable(i) && r.Acceptable(i, r.StartAt(from, i))
  {
    var start := r.StartAt(from, i);
    && low <= r.EndLimit(i) - start && (low > 0 ==> r.Fits(r.WithPiece(before, i, start, low)))
    && (Even(r, from, i, before) ==>
          forall l: nat :: low < l <= r.EndLimit(i) - start ==> !r.Fits(r.WithPiece(before, i, start, l)))
  }

  // ---- What the pages of one reading add up to ----

  /** One call and its page. */
  datatype Visit = Visit(r: Request, page: Page)

  /** What may happen between two calls of one reading: evidence may be purged, and anything else in the response may
      change its size. */
  ghost predicate Continues(a: Request, b: Request) {
    && b.refs == a.refs && b.ranges == a.ranges && b.cap == a.cap
    && forall ref <- a.refs ::
      if ref in a.rows then ref in b.rows && (b.rows[ref] == a.rows[ref] || b.rows[ref] == Expired) else ref !in b.rows
  }

  /** Pages that follow each other's cursors from `from` to the end. */
  ghost predicate Chain(from: Position, visits: seq<Visit>)
    decreases |visits|
  {
    && visits != []
    && PageOk(visits[0].r, from, visits[0].page)
    && if |visits| == 1 then visits[0].page.next.None?
       else
         && visits[0].page.next.Some? && Continues(visits[0].r, visits[1].r)
         && Chain(visits[0].page.next.value, visits[1..])
  }

  /** The bytes of ref i on one page. */
  function Got(r: Request, from: Position, page: Page, i: nat): seq<byte> {
    if from.index <= i < from.index + |page.items| && page.items[i - from.index].Content? then page.items[i - from.index].content
    else []
  }

  /** The number of error items for ref i on one page. */
  function Errors(r: Request, from: Position, page: Page, i: nat): nat {
    if from.index <= i < from.index + |page.items| && page.items[i - from.index].Missing? then 1 else 0
  }

  function GotAll(from: Position, visits: seq<Visit>, i: nat): seq<byte>
    decreases |visits|
  {
    if visits == [] then []
    else
      Got(visits[0].r, from, visits[0].page, i)
      + if visits[0].page.next.Some? then GotAll(visits[0].page.next.value, visits[1..], i) else []
  }

  function ErrorsAll(from: Position, visits: seq<Visit>, i: nat): nat
    decreases |visits|
  {
    if visits == [] then 0
    else
      Errors(visits[0].r, from, visits[0].page, i)
      + if visits[0].page.next.Some? then ErrorsAll(visits[0].page.next.value, visits[1..], i) else 0
  }

  /** What is still to be read of ref i. */
  function Rest(r: Request, from: Option<Position>, i: nat): seq<byte>
    requires i < |r.refs| && r.Readable(i)
  {
    if from.None? || i < from.value.index || r.StartAt(from.value, i) > r.EndLimit(i) then []
    else r.TextOf(i)[r.StartAt(from.value, i)..r.EndLimit(i)]
  }

  /** What the pages from `from` on hold of ref i: all that was to be read of it, or, if it is purged meanwhile, some of
      it from the start and one error. */
  ghost predicate Accounted(r: Request, from: Position, i: nat, got: seq<byte>, errors: nat, last: Request)
    requires i < |r.refs| == |last.refs|
  {
    if !r.Readable(i) then got == [] && errors == if from.index <= i then 1 else 0
    else
      && errors <= 1 && got <= Rest(r, Some(from), i)
      && (errors == 0 ==> got == Rest(r, Some(from), i) && (from.index <= i ==> r.StartAt(from, i) <= r.EndLimit(i)))
      && (errors == 1 ==> !last.Readable(i))
  }
}
