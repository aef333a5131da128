/** Ranked search in pages (src/context/search.ts, search). */
module RankedSearch {
  import opened Prelude
  import opened EvidenceIndex

  // ---- The ranking ----

  /** A row of the ranked table. Score 0 is an exact substring, 1 a full-text match. */
  datatype Hit = Hit(score: nat, timestamp: int, ref: Ref)

  /** Match class first, then the newest, then the smallest ref. */
  predicate Before(a: Hit, b: Hit) {
    a.score < b.score
    || (a.score == b.score && a.timestamp > b.timestamp)
    || (a.score == b.score && a.timestamp == b.timestamp && a.ref < b.ref)
  }

  /** The strictly ordered list of these hits. */
  ghost predicate IsRanking(list: seq<Hit>, hits: set<Hit>) {
    && (forall i, j :: 0 <= i < j < |list| ==> Before(list[i], list[j]))
    && (forall h :: h in list <==> h in hits)
  }

  lemma {:induction false} LeastHit(hits: set<Hit>) returns (least: Hit)
    requires hits != {}
    ensures least in hits && forall h <- hits :: h == least || Before(least, h)
    decreases |hits|
  {
    var h :| h in hits;
    if hits == {h} {
      least := h;
    } else {
      var rest := hits - {h};
      assert hits == {h} + rest;
      var other := LeastHit(rest);
      least := if Before(h, other) then h else other;
      assert forall x <- hits :: x == h || x in rest;
    }
  }

  lemma {:induction false} RankingExists(hits: set<Hit>) returns (list: seq<Hit>)
    ensures IsRanking(list, hits)
    decreases |hits|
  {
    if hits == {} {
      list := [];
    } else {
      var least := LeastHit(hits);
      var rest := RankingExists(hits - {least});
      list := [least] + rest;
      forall h ensures h in list <==> h in hits {
      }
      forall i, j | 0 <= i < j < |list| ensures Before(list[i], list[j]) {
        assert list[j] == rest[j - 1] && rest[j - 1] in rest;
      }
    }
  }

  lemma FirstIsHit(list: seq<Hit>, hits: set<Hit>)
    requires IsRanking(list, hits) && list != []
    ensures list[0] in hits
  {
    assert list[0] in list;
  }

  lemma {:induction false} RankingIsUnique(a: seq<Hit>, b: seq<Hit>, hits: set<Hit>)
    requires IsRanking(a, hits) && IsRanking(b, hits)
    ensures a == b
    decreases |a|
  {
    if a == [] {
      if b != [] {
        FirstIsHit(b, hits);
      }
    } else {
      assert a[0] in a;
      assert b != [] && b[0] in b;
      assert a[0] == b[0];
      TailIsRanking(a, hits);
      TailIsRanking(b, hits);
      RankingIsUnique(a[1..], b[1..], hits - {a[0]});
      assert a == [a[0]] + a[1..] && b == [b[0]] + b[1..];
    }
  }

  lemma TailIsRanking(list: seq<Hit>, hits: set<Hit>)
    requires IsRanking(list, hits) && list != []
    ensures IsRanking(list[1..], hits - {list[0]})
  {
    forall h ensures h in list[1..] <==> h in hits - {list[0]} {
      if h in list[1..] {
        var j :| 0 <= j < |list| - 1 && list[1..][j] == h;
        assert Before(list[0], list[j + 1]);
        assert list[j + 1] in list;
      }
    }
  }

  ghost function Ranking(hits: set<Hit>): (list: seq<Hit>)
    ensures IsRanking(list, hits)
  {
    RankingExistsAny(hits);
    var list :| IsRanking(list, hits);
    list
  }

  lemma RankingExistsAny(hits: set<Hit>)
    ensures exists list :: IsRanking(list, hits)
  {
    var list := RankingExists(hits);
  }

  lemma RankingStep(hits: set<Hit>, least: Hit)
    requires least in hits && forall h <- hits :: h == least || Before(least, h)
    ensures Ranking(hits) == [least] + Ranking(hits - {least})
  {
    var list := Ranking(hits);
    assert least in list;
    assert list[0] in list;
    assert list[0] == least;
    TailIsRanking(list, hits);
    RankingIsUnique(list[1..], Ranking(hits - {least}), hits - {least});
    assert list == [list[0]] + list[1..];
  }

  /** The hits after a key: the keyset predicate of the query. */
  function AfterKey(hits: set<Hit>, key: Option<Hit>): set<Hit> {
    if key.None? then hits else set h | h in hits && Before(key.value, h)
  }

  /** The keyset resumes exactly where the key stands in the list. */
  lemma KeysetResumes(hits: set<Hit>, k: nat)
    requires k < |Ranking(hits)|
    ensures Ranking(AfterKey(hits, Some(Ranking(hits)[k]))) == Ranking(hits)[k + 1..]
  {
    var list := Ranking(hits);
    var rest, after := list[k + 1..], AfterKey(hits, Some(list[k]));
    forall h ensures h in rest <==> h in after {
      if h in rest {
        var j :| 0 <= j < |rest| && rest[j] == h;
        assert list[k + 1 + j] == h && list[k + 1 + j] in list;
      }
      if h in after {
        assert h in list;
        var j :| 0 <= j < |list| && list[j] == h;
        assert j > k;
        assert rest[j - k - 1] == h;
      }
    }
    RankingIsUnique(rest, Ranking(after), after);
  }

  // ---- What a query sees ----

  /** The fixed part of a search: matching is left to two predicates. */
  datatype Query = Query(
    substring: string -> bool,
    terms: string -> bool,
    kinds: set<Kind>,
    since: int,
    until: int,
    limit: nat,
    cap: nat)

  /** The JSON size of a response with these items, this cursor row and, or not, the warning of a partial response. Other
      parts of the response change from call to call, so every call may have its own. */
  type Cost = (seq<Hit>, Option<Hit>, bool) -> nat

  predicate TermsMatch(ix: Index, q: Query, r: Ref) {
    exists row :: row in ix.fts && row.ref == r && q.terms(row.text)
  }

  predicate Matches(ix: Index, q: Query, r: Ref)
    requires r in ix.evidence
  {
    q.substring(ix.evidence[r].text) || TermsMatch(ix, q, r)
  }

  predicate Visible(ix: Index, q: Query, generation: nat, r: Ref) {
    && r in ix.docs && r in ix.evidence && ix.evidence[r].available
    && ix.docs[r].first <= generation
    && ix.docs[r].kind in q.kinds && q.since <= ix.docs[r].timestamp <= q.until
    && Matches(ix, q, r)
  }

  function HitOf(ix: Index, q: Query, r: Ref): Hit
    requires r in ix.docs && r in ix.evidence
  {
    Hit(if q.substring(ix.evidence[r].text) then 0 else 1, ix.docs[r].timestamp, r)
  }

  /** The ranked table of a query at a generation. */
  function Hits(ix: Index, q: Query, generation: nat): set<Hit> {
    set r | r in ix.docs.Keys && Visible(ix, q, generation, r) :: HitOf(ix, q, r)
  }

  // ---- A page ----

  datatype Cursor = Cursor(epoch: nat, generation: nat, last: Hit, expiresAt: int)

  datatype Error = IndexMissing | CursorStale | BudgetExceeded

  datatype Page = Page(items: seq<Hit>, next: Option<Cursor>)

  datatype Result = Found(page: Page) | Failed(error: Error)

  const CURSOR_LIFETIME := 600000
  const MAX_LIMIT := 50
  const MAX_BYTES := 131072

  /** The cursor is authentic, from the current epoch, unexpired and pinned to a published generation. */
  predicate Accepts(ix: Index, cursor: Cursor, now: int) {
    && cursor.epoch == ix.cursorEpoch
    && cursor.expiresAt > now
    && 1 <= cursor.generation && ix.generation.Some? && cursor.generation <= ix.generation.value
  }

  function PinnedGeneration(ix: Index, cursor: Option<Cursor>): nat {
    if cursor.Some? then cursor.value.generation else if ix.generation.Some? then ix.generation.value else 0
  }

  function KeyOf(cursor: Option<Cursor>): Option<Hit> {
    if cursor.Some? then Some(cursor.value.last) else None
  }

  /** The rows still to come. */
  ghost function Coming(ix: Index, q: Query, cursor: Option<Cursor>): seq<Hit> {
    Ranking(AfterKey(Hits(ix, q, PinnedGeneration(ix, cursor)), KeyOf(cursor)))
  }

  /** A page takes the front of the coming rows, at most `limit` of them, and has a cursor exactly when some remain. */
  ghost predicate PageOk(ix: Index, q: Query, cost: Cost, cursor: Option<Cursor>, page: Page) {
    var coming := Coming(ix, q, cursor);
    && page.items <= coming && |page.items| <= q.limit
    && (page.items == [] ==> coming == [])
    && (page.next.None? <==> page.items == coming)
    && (page.next.Some? ==>
          && page.next.value.last == page.items[|page.items| - 1]
          && page.next.value.generation == PinnedGeneration(ix, cursor)
          && page.next.value.epoch == ix.cursorEpoch)
    && cost(page.items, if page.next.Some? then Some(page.next.value.last) else None, page.next.Some?) <= q.cap
  }

  /** The cursor row after the first n rows, if any are left. */
  function NextRow(rows: seq<Hit>, n: nat): Option<Hit>
    requires n <= |rows|
  {
    if 0 < n < |rows| then Some(rows[n - 1]) else None
  }

  /** The first n rows fit, before any warning is added. */
  predicate RowsFit(q: Query, cost: Cost, rows: seq<Hit>, n: nat)
    requires n <= |rows|
  {
    cost(rows[..n], NextRow(rows, n), false) <= q.cap
  }

  /** The page takes n of these rows: each further one fitted, and it stopped at the limit, at the end or before one that
      did not fit. */
  ghost predicate Takes(q: Query, cost: Cost, rows: seq<Hit>, n: nat) {
    && n <= |rows| && n <= q.limit
    && (forall k :: 1 <= k <= n ==> RowsFit(q, cost, rows, k))
    && (n == |rows| || n == q.limit || !RowsFit(q, cost, rows, n + 1))
  }

  /** The number of rows a page takes, from n on. */
  function TakenFrom(q: Query, cost: Cost, rows: seq<Hit>, n: nat): nat
    requires n <= |rows|
    decreases |rows| - n
  {
    if n < q.limit && n < |rows| && RowsFit(q, cost, rows, n + 1) then TakenFrom(q, cost, rows, n + 1) else n
  }

  lemma {:induction false} TakenTakes(q: Query, cost: Cost, rows: seq<Hit>, n: nat)
    requires n <= |rows| && n <= q.limit && forall k :: 1 <= k <= n ==> RowsFit(q, cost, rows, k)
    ensures Takes(q, cost, rows, TakenFrom(q, cost, rows, n)) && n <= TakenFrom(q, cost, rows, n)
    decreases |rows| - n
  {
    if n < q.limit && n < |rows| && RowsFit(q, cost, rows, n + 1) {
      TakenTakes(q, cost, rows, n + 1);
    }
  }

  /** Only one number of rows is taken, and it is positive exactly when the first row fits. */
  lemma TakesExactly(q: Query, cost: Cost, rows: seq<Hit>, n: nat)
    ensures Takes(q, cost, rows, n) <==> n == TakenFrom(q, cost, rows, 0)
    ensures TakenFrom(q, cost, rows, 0) > 0 <==> rows != [] && q.limit > 0 && RowsFit(q, cost, rows, 1)
  {
    TakenTakes(q, cost, rows, 0);
  }

  /** The page takes as many of the fetched rows as it would of all of them. */
  lemma TakesOfFront(q: Query, cost: Cost, rows: seq<Hit>, coming: seq<Hit>, n: nat)
    requires rows <= coming && |rows| == if q.limit + 1 < |coming| then q.limit + 1 else |coming|
    requires Takes(q, cost, rows, n)
    ensures Takes(q, cost, coming, n) && NextRow(rows, n) == NextRow(coming, n) && rows[..n] == coming[..n]
    ensures n < |rows| <==> n < |coming|
  {
    forall k | 0 <= k <= q.limit && k <= |rows|
      ensures rows[..k] == coming[..k] && (RowsFit(q, cost, rows, k) <==> RowsFit(q, cost, coming, k))
    {
    }
  }

  /** The request is in bounds, the index exists and the cursor is accepted. */
  predicate Admissible(ix: Index, q: Query, cursor: Option<Cursor>, now: int) {
    && 1 <= q.limit <= MAX_LIMIT && 1 <= q.cap <= MAX_BYTES && ix.generation.Some?
    && (cursor.Some? ==> Accepts(ix, cursor.value, now))
  }

  /** A page of n rows is answered: it is not empty while rows remain, and it fits without and with its warning. */
  predicate Answers(q: Query, cost: Cost, rows: seq<Hit>, n: nat)
    requires n <= |rows|
  {
    && (rows != [] ==> n > 0)
    && cost(rows[..n], NextRow(rows, n), false) <= q.cap && cost(rows[..n], NextRow(rows, n), n < |rows|) <= q.cap
  }

  /** The SQL query: the first n rows of the ranked table after the key. */
  method QueryRows(ix: Index, q: Query, generation: nat, key: Option<Hit>, n: nat) returns (rows: seq<Hit>)
    ensures
      var coming := Ranking(AfterKey(Hits(ix, q, generation), key));
      rows <= coming && |rows| == if n < |coming| then n else |coming|
  {
    var remaining := AfterKey(Hits(ix, q, generation), key);
    ghost var coming := Ranking(remaining);
    rows := [];
    while |rows| < n && remaining != {}
      invariant |rows| <= n && coming == rows + Ranking(remaining)
      decreases n - |rows|
    {
      ghost var witness_ := LeastHit(remaining);
      var least :| least in remaining && forall h <- remaining :: h == least || Before(least, h);
      RankingStep(remaining, least);
      rows, remaining := rows + [least], remaining - {least};
    }
    if Ranking(remaining) != [] {
      FirstIsHit(Ranking(remaining), remaining);
    }
  }

  /** The loop over the fetched rows. */
  method TakeRows(q: Query, cost: Cost, rows: seq<Hit>, key: Option<Hit>) returns (count: nat, next: Option<Hit>)
    ensures Takes(q, cost, rows, count)
    ensures count > 0 || rows == [] ==> next == NextRow(rows, count)
  {
    count, next := 0, None;
    while count < q.limit && count < |rows|
      invariant count <= |rows| && count <= q.limit && next == NextRow(rows, count)
      invariant forall k :: 1 <= k <= count ==> RowsFit(q, cost, rows, k)
    {
      var more := if |rows| > count + 1 then Some(rows[count]) else None;
      if cost(rows[..count + 1], more, false) > q.cap {
        next := if count > 0 then Some(rows[count - 1]) else key;
        return;
      }
      count, next := count + 1, more;
    }
  }

  /** A page is answered exactly when the request is admissible and the rows taken make an answer; it has those rows. */
  method Search(ix: Index, q: Query, cost: Cost, cursor: Option<Cursor>, now: int) returns (result: Result)
    ensures
      var coming := Coming(ix, q, cursor);
      var n := TakenFrom(q, cost, coming, 0);
      && n <= |coming|
      && (result.Found? <==> Admissible(ix, q, cursor, now) && Answers(q, cost, coming, n))
      && (result.Found? ==> PageOk(ix, q, cost, cursor, result.page) && result.page.items == coming[..n])
    ensures result.Found? && result.page.next.Some? ==>
      result.page.next.value.expiresAt == if cursor.Some? then cursor.value.expiresAt else now + 600000
    ensures
      var inBounds := 1 <= q.limit <= 50 && 1 <= q.cap <= 131072;
      && (result == Failed(IndexMissing) <==> inBounds && ix.generation.None?)
      && (result == Failed(CursorStale) <==>
            && inBounds && ix.generation.Some? && cursor.Some?
            && (cursor.value.epoch != ix.cursorEpoch || cursor.value.expiresAt <= now
                || !(1 <= cursor.value.generation <= ix.generation.value)))
  {
    ghost var coming := Coming(ix, q, cursor);
    TakesExactly(q, cost, coming, TakenFrom(q, cost, coming, 0));
    if q.limit < 1 || q.limit > MAX_LIMIT || q.cap < 1 || q.cap > MAX_BYTES {
      return Failed(BudgetExceeded);
    }
    if ix.generation.None? {
      return Failed(IndexMissing);
    }
    if cursor.Some? && !Accepts(ix, cursor.value, now) {
      return Failed(CursorStale);
    }
    var generation := PinnedGeneration(ix, cursor);
    var expiresAt := if cursor.Some? then cursor.value.expiresAt else now + CURSOR_LIFETIME;
    var rows := QueryRows(ix, q, generation, KeyOf(cursor), q.limit + 1);
    var count, next := TakeRows(q, cost, rows, KeyOf(cursor));
    TakesOfFront(q, cost, rows, coming, count);
    TakesExactly(q, cost, coming, count);
    if cost(rows[..count], next, false) > q.cap || (rows != [] && count == 0) {
      return Failed(BudgetExceeded);
    }
    if cost(rows[..count], next, next.Some?) > q.cap {
      return Failed(BudgetExceeded);
    }
    result := Found(Page(rows[..count], if next.Some? then Some(Cursor(ix.cursorEpoch, generation, next.value, expiresAt)) else None));
  }

  // ---- The ranked table at a pinned generation ----

  lemma TermsOfSoundIndex(ix: Index, q: Query, r: Ref)
    requires Sound(ix) && r in ix.docs
    ensures r in ix.evidence && (TermsMatch(ix, q, r) <==> q.terms(ix.fold(ix.evidence[r].text)))
  {
    var row := FtsRow(r, ix.fold(ix.evidence[r].text));
    assert row in ix.fts;
  }

  /** A row of the ranked table: an available document of an asked kind and time that was first indexed by this generation,
      of score 0 if its text holds the substring, and else of score 1 if its folded text matches the terms. */
  lemma {:induction false} RowsMean(ix: Index, q: Query, generation: nat, h: Hit)
    requires Sound(ix)
    ensures h in Hits(ix, q, generation) <==>
      && h.ref in ix.docs && h.ref in ix.evidence && ix.evidence[h.ref].available && ix.docs[h.ref].first <= generation
      && ix.docs[h.ref].kind in q.kinds && h.timestamp == ix.docs[h.ref].timestamp && q.since <= h.timestamp <= q.until
      && var text := ix.evidence[h.ref].text;
         if q.substring(text) then h.score == 0 else h.score == 1 && q.terms(ix.fold(text))
  {
    if h.ref in ix.docs {
      TermsOfSoundIndex(ix, q, h.ref);
    }
  }

  /** So every row of a page is such a row, and comes after the row the cursor stopped at: of a greater score, or of the
      same score and older, or of the same score and time and with a greater ref. */
  lemma {:induction false} PageRowsMean(ix: Index, q: Query, cost: Cost, cursor: Option<Cursor>, page: Page, h: Hit)
    requires Sound(ix) && PageOk(ix, q, cost, cursor, page) && h in page.items
    ensures
      && h.ref in ix.docs && h.ref in ix.evidence && ix.evidence[h.ref].available
      && ix.docs[h.ref].first <= PinnedGeneration(ix, cursor)
      && ix.docs[h.ref].kind in q.kinds && h.timestamp == ix.docs[h.ref].timestamp && q.since <= h.timestamp <= q.until
      && var text := ix.evidence[h.ref].text;
         if q.substring(text) then h.score == 0 else h.score == 1 && q.terms(ix.fold(text))
    ensures cursor.Some? ==>
      var last := cursor.value.last;
      && last.score <= h.score
      && (last.score == h.score ==> last.timestamp >= h.timestamp)
      && (last.score == h.score && last.timestamp == h.timestamp ==> last.ref < h.ref)
  {
    PageCovers(ix, q, cost, cursor, page);
    RowsMean(ix, q, PinnedGeneration(ix, cursor), h);
  }

  /** A document both indexes hold looks the same to the query. */
  lemma SameVisibility(ix: Index, next: Index, q: Query, generation: nat, r: Ref)
    requires Sound(ix) && Sound(next) && r in ix.docs && r in next.docs && ix.fold == next.fold
    requires r in ix.evidence && r in next.evidence && SameView(ix, next, r)
    ensures Visible(ix, q, generation, r) <==> Visible(next, q, generation, r)
    ensures HitOf(ix, q, r) == HitOf(next, q, r)
  {
    TermsOfSoundIndex(ix, q, r);
    TermsOfSoundIndex(next, q, r);
  }

  /** What one operation does to it: nothing, unless the operation is a purge, which only takes rows away. */
  lemma HitsOnlyShrink(ix: Index, q: Query, generation: nat, op: Op)
    requires Sound(ix) && generation <= Published(ix)
    ensures Hits(Apply(ix, op), q, generation) <= Hits(ix, q, generation)
    ensures !op.Purge? ==> Hits(Apply(ix, op), q, generation) == Hits(ix, q, generation)
  {
    var next := Apply(ix, op);
    StepSound(ix, op);
    DocumentsAreStable(ix, op);
    forall h | h in Hits(next, q, generation) ensures h in Hits(ix, q, generation) {
      var r :| r in next.docs.Keys && Visible(next, q, generation, r) && HitOf(next, q, r) == h;
      assert r in ix.docs.Keys * next.docs.Keys;
      SameVisibility(ix, next, q, generation, r);
    }
    if !op.Purge? {
      forall h | h in Hits(ix, q, generation) ensures h in Hits(next, q, generation) {
        var r :| r in ix.docs.Keys && Visible(ix, q, generation, r) && HitOf(ix, q, r) == h;
        assert r in ix.docs.Keys * next.docs.Keys;
        SameVisibility(ix, next, q, generation, r);
      }
    }
  }

  predicate PurgeFree(ops: seq<Op>) {
    forall i :: 0 <= i < |ops| ==> !ops[i].Purge?
  }

  /** A purge takes away exactly the rows of the refs it purges. */
  lemma PurgeHits(ix: Index, q: Query, generation: nat, before: int, h: Hit)
    requires Sound(ix) && generation <= Published(ix)
    ensures h in Hits(Apply(ix, Purge(before)), q, generation) <==>
      h in Hits(ix, q, generation) && !EvidenceIndex.Purged(ix, before, h.ref)
  {
    var next := Apply(ix, Purge(before));
    HitsOnlyShrink(ix, q, generation, Purge(before));
    StepSound(ix, Purge(before));
    DocumentsAreStable(ix, Purge(before));
    if h in Hits(ix, q, generation) {
      var r :| r in ix.docs.Keys && Visible(ix, q, generation, r) && HitOf(ix, q, r) == h;
      if r in next.docs {
        assert r in ix.docs.Keys * next.docs.Keys;
        SameVisibility(ix, next, q, generation, r);
      }
    }
  }

  lemma {:induction false} HitsOverRun(ix: Index, q: Query, generation: nat, ops: seq<Op>)
    requires Sound(ix) && generation <= Published(ix)
    ensures Sound(Run(ix, ops)) && generation <= Published(Run(ix, ops))
    ensures Hits(Run(ix, ops), q, generation) <= Hits(ix, q, generation)
    ensures PurgeFree(ops) ==> Hits(Run(ix, ops), q, generation) == Hits(ix, q, generation)
    decreases |ops|
  {
    if ops != [] {
      HitsOnlyShrink(ix, q, generation, ops[0]);
      StepSound(ix, ops[0]);
      ManifestNeverGoesBack(ix, [ops[0]]);
      assert Run(ix, [ops[0]]) == Run(Apply(ix, ops[0]), []);
      HitsOverRun(Apply(ix, ops[0]), q, generation, ops[1..]);
      assert PurgeFree(ops) ==> PurgeFree(ops[1..]);
    }
  }

  // ---- Following the cursors ----

  /** One call: the index it reads, the clock and the response sizes it sees, its page, and what happens to the index
      before the next call. */
  datatype Visit = Visit(ix: Index, cost: Cost, cursor: Option<Cursor>, now: int, page: Page, later: seq<Op>)

  ghost predicate VisitOk(q: Query, v: Visit) {
    (v.cursor.Some? ==> Accepts(v.ix, v.cursor.value, v.now)) && PageOk(v.ix, q, v.cost, v.cursor, v.page)
  }

  /** Pages that follow each other's accepted cursors to the end. */
  ghost predicate Chain(q: Query, visits: seq<Visit>)
    decreases |visits|
  {
    && visits != []
    && VisitOk(q, visits[0])
    && if |visits| == 1 then visits[0].page.next.None?
       else
         && visits[0].page.next.Some? && visits[1].cursor == visits[0].page.next
         && visits[1].ix == Run(visits[0].ix, visits[0].later)
         && Chain(q, visits[1..])
  }

  function Items(visits: seq<Visit>): seq<Hit>
    decreases |visits|
  {
    if visits == [] then [] else visits[0].page.items + Items(visits[1..])
  }

  ghost predicate Ordered(list: seq<Hit>) {
    forall i, j :: 0 <= i < j < |list| ==> Before(list[i], list[j])
  }

  lemma OrderedConcat(a: seq<Hit>, b: seq<Hit>)
    requires Ordered(a) && Ordered(b) && a != [] && forall h <- b :: Before(a[|a| - 1], h)
    ensures Ordered(a + b)
  {
    var c := a + b;
    forall i, j | 0 <= i < j < |c| ensures Before(c[i], c[j]) {
      if i < |a| <= j {
        assert c[j] == b[j - |a|] && b[j - |a|] in b;
        assert Before(a[|a| - 1], c[j]);
      }
    }
  }

  /** What one page covers of the rows after its key. */
  lemma PageCovers(ix: Index, q: Query, cost: Cost, cursor: Option<Cursor>, page: Page)
    requires PageOk(ix, q, cost, cursor, page)
    ensures
      var hits := AfterKey(Hits(ix, q, PinnedGeneration(ix, cursor)), KeyOf(cursor));
      && Ordered(page.items) && (forall h <- page.items :: h in hits)
      && (page.next.None? ==> forall h <- hits :: h in page.items)
      && (page.next.Some? ==>
            && page.items != []
            && page.next.value.last == page.items[|page.items| - 1]
            && (forall h <- hits :: h in page.items || Before(page.next.value.last, h)))
  {
    var coming := Coming(ix, q, cursor);
    var hits := AfterKey(Hits(ix, q, PinnedGeneration(ix, cursor)), KeyOf(cursor));
    var n := |page.items|;
    assert forall i :: 0 <= i < n ==> page.items[i] == coming[i];
    forall h | h in page.items ensures h in hits {
      assert h in coming;
    }
    forall h | h in hits ensures h in page.items || (n > 0 && Before(page.items[n - 1], h)) || n == 0 {
      assert h in coming;
      var j :| 0 <= j < |coming| && coming[j] == h;
      if j < n {
        assert page.items[j] == h;
      }
    }
  }

  /** All the pages of a search from one key on: in order, nothing that was not there, everything that is still there
      at the end. */
  lemma {:induction false} ChainCovers(q: Query, visits: seq<Visit>, generation: nat)
    requires Chain(q, visits) && Sound(visits[0].ix) && generation <= Published(visits[0].ix)
    requires PinnedGeneration(visits[0].ix, visits[0].cursor) == generation
    ensures
      var first, last, key := visits[0].ix, visits[|visits| - 1].ix, KeyOf(visits[0].cursor);
      && Ordered(Items(visits))
      && (forall h <- Items(visits) :: h in AfterKey(Hits(first, q, generation), key))
      && (forall h <- AfterKey(Hits(last, q, generation), key) :: h in Items(visits))
      && Hits(last, q, generation) <= Hits(first, q, generation)
      && ((forall k :: 0 <= k < |visits| ==> PurgeFree(visits[k].later)) ==> Hits(last, q, generation) == Hits(first, q, generation))
    decreases |visits|
  {
    var v := visits[0];
    PageCovers(v.ix, q, v.cost, v.cursor, v.page);
    if |visits| == 1 {
      assert Items(visits) == v.page.items + [] == v.page.items;
    } else {
      var rest := visits[1..];
      HitsOverRun(v.ix, q, generation, v.later);
      ChainCovers(q, rest, generation);
      assert rest[|rest| - 1] == visits[|visits| - 1];
      var last := visits[|visits| - 1].ix;
      OrderedConcat(v.page.items, Items(rest));
      AfterLaterKey(Hits(v.ix, q, generation), Hits(rest[0].ix, q, generation), v.cursor, v.page, Items(rest));
      forall h | h in AfterKey(Hits(last, q, generation), KeyOf(v.cursor)) ensures h in Items(visits) {
        if h !in v.page.items {
          assert Before(v.page.next.value.last, h);
          assert h in AfterKey(Hits(last, q, generation), KeyOf(rest[0].cursor));
        }
      }
      if forall k :: 0 <= k < |visits| ==> PurgeFree(visits[k].later) {
        assert forall k :: 0 <= k < |rest| ==> rest[k] == visits[k + 1];
      }
    }
  }

  /** Later rows come after the page's own key as well. */
  lemma AfterLaterKey(hits: set<Hit>, laterHits: set<Hit>, cursor: Option<Cursor>, page: Page, later: seq<Hit>)
    requires laterHits <= hits && page.next.Some? && page.items != [] && page.next.value.last == page.items[|page.items| - 1]
    requires forall h <- page.items :: h in AfterKey(hits, KeyOf(cursor))
    requires forall h <- later :: h in AfterKey(laterHits, Some(page.next.value.last))
    ensures forall h <- later :: h in AfterKey(hits, KeyOf(cursor))
  {
    assert page.items[|page.items| - 1] in page.items;
  }

  /** No purge among these operations takes a row that comes after the key: each can tell before it deletes. */
  ghost predicate SparesRows(ix: Index, q: Query, generation: nat, key: Hit, ops: seq<Op>)
    decreases |ops|
  {
    ops == [] || (SparesNow(ix, q, generation, key, ops[0]) && SparesRows(Apply(ix, ops[0]), q, generation, key, ops[1..]))
  }

  ghost predicate SparesNow(ix: Index, q: Query, generation: nat, key: Hit, op: Op) {
    op.Purge? ==> forall h <- Hits(ix, q, generation) :: Before(key, h) ==> !EvidenceIndex.Purged(ix, op.before, h.ref)
  }

  /** Every row after the key is still there. */
  ghost predicate AllStay(hits: set<Hit>, later: set<Hit>, key: Hit) {
    forall h <- hits :: Before(key, h) ==> h in later
  }

  lemma SparingStep(ix: Index, q: Query, generation: nat, key: Hit, op: Op)
    requires Sound(ix) && generation <= Published(ix)
    ensures SparesNow(ix, q, generation, key, op) <==> AllStay(Hits(ix, q, generation), Hits(Apply(ix, op), q, generation), key)
  {
    HitsOnlyShrink(ix, q, generation, op);
    if op.Purge? {
      forall h | h in Hits(ix, q, generation)
        ensures h in Hits(Apply(ix, op), q, generation) <==> !EvidenceIndex.Purged(ix, op.before, h.ref)
      {
        PurgeHits(ix, q, generation, op.before, h);
      }
    }
  }

  lemma {:induction false} SparingRun(ix: Index, q: Query, generation: nat, key: Hit, ops: seq<Op>)
    requires Sound(ix) && generation <= Published(ix)
    ensures SparesRows(ix, q, generation, key, ops) <==> AllStay(Hits(ix, q, generation), Hits(Run(ix, ops), q, generation), key)
    decreases |ops|
  {
    if ops != [] {
      var next := Apply(ix, ops[0]);
      SparingStep(ix, q, generation, key, ops[0]);
      HitsOnlyShrink(ix, q, generation, ops[0]);
      StepSound(ix, ops[0]);
      StepMovesForward(ix, ops[0]);
      HitsOverRun(next, q, generation, ops[1..]);
      SparingRun(next, q, generation, key, ops[1..]);
    }
  }

  /** Between any two pages, no purge takes a row that is still to come. */
  ghost predicate ChainSpares(q: Query, visits: seq<Visit>, generation: nat)
    requires Chain(q, visits)
    decreases |visits|
  {
    |visits| > 1 ==>
      && SparesRows(visits[0].ix, q, generation, visits[0].page.next.value.last, visits[0].later)
      && ChainSpares(q, visits[1..], generation)
  }

  /** All the rows after the first key are found exactly when no purge takes one that is still to come. */
  lemma {:induction false} ChainIsComplete(q: Query, visits: seq<Visit>, generation: nat)
    requires Chain(q, visits) && Sound(visits[0].ix) && generation <= Published(visits[0].ix)
    requires PinnedGeneration(visits[0].ix, visits[0].cursor) == generation
    ensures ChainSpares(q, visits, generation) <==>
      forall h <- AfterKey(Hits(visits[0].ix, q, generation), KeyOf(visits[0].cursor)) :: h in Items(visits)
    decreases |visits|
  {
    var v := visits[0];
    PageCovers(v.ix, q, v.cost, v.cursor, v.page);
    if |visits| == 1 {
      assert Items(visits) == v.page.items + [] == v.page.items;
    } else {
      var rest := visits[1..];
      var (hits, later, last) := (Hits(v.ix, q, generation), Hits(rest[0].ix, q, generation), v.page.next.value.last);
      HitsOverRun(v.ix, q, generation, v.later);
      SparingRun(v.ix, q, generation, last, v.later);
      ChainIsComplete(q, rest, generation);
      ChainCovers(q, rest, generation);
      OnePageMore(hits, later, KeyOf(v.cursor), v.page.items, last, Items(rest));
    }
  }

  /** A page and what follows it hold all the rows exactly when none of the later rows is lost and all of them follow. */
  lemma OnePageMore(hits: set<Hit>, later: set<Hit>, key: Option<Hit>, items: seq<Hit>, last: Hit, rest: seq<Hit>)
    requires later <= hits && items != [] && last == items[|items| - 1] && Ordered(items)
    requires forall h <- items :: h in AfterKey(hits, key)
    requires forall h <- AfterKey(hits, key) :: h in items || Before(last, h)
    requires forall h <- rest :: h in AfterKey(later, Some(last))
    ensures (forall h <- AfterKey(hits, key) :: h in items + rest) <==>
      AllStay(hits, later, last) && forall h <- AfterKey(later, Some(last)) :: h in rest
  {
    assert last in items && last in AfterKey(hits, key);
    forall h | h in items ensures h == last || Before(h, last) {
      var j :| 0 <= j < |items| && items[j] == h;
      assert j < |items| - 1 ==> Before(items[j], items[|items| - 1]);
    }
    forall h | h in hits && Before(last, h) ensures h in AfterKey(hits, key) {
    }
  }

  /** A search followed to its end returns every row of the pinned ranking exactly once and in order, exactly when no
      purge in between takes a row that is still to come. Syncs, rebuilds and new evidence never matter. */
  lemma PagesAreExact(q: Query, visits: seq<Visit>)
    requires Chain(q, visits) && Sound(visits[0].ix) && visits[0].cursor.None? && visits[0].ix.generation.Some?
    ensures
      var generation := visits[0].ix.generation.value;
      Items(visits) == Ranking(Hits(visits[0].ix, q, generation)) <==> ChainSpares(q, visits, generation)
  {
    var generation := visits[0].ix.generation.value;
    var hits := Hits(visits[0].ix, q, generation);
    ChainCovers(q, visits, generation);
    ChainIsComplete(q, visits, generation);
    if ChainSpares(q, visits, generation) {
      assert IsRanking(Items(visits), hits);
      RankingIsUnique(Items(visits), Ranking(hits), hits);
    }
  }

  // ---- Cleanups that announce themselves ----

  /** How many cleanups have begun and not yet deleted. A purge is the deletion of a cleanup that began before. */
  ghost predicate Announced(ops: seq<Op>, pending: nat)
    decreases |ops|
  {
    ops == [] ||
    match ops[0]
    case BeginCleanup => Announced(ops[1..], pending + 1)
    case Purge(_) => pending > 0 && Announced(ops[1..], pending - 1)
    case _ => Announced(ops[1..], pending)
  }

  lemma {:induction false} AnnouncedPurges(ops: seq<Op>)
    requires Announced(ops, 0) && BeginCleanup !in ops
    ensures PurgeFree(ops)
    decreases |ops|
  {
    if ops != [] {
      AnnouncedPurges(ops[1..]);
      assert ops == [ops[0]] + ops[1..];
    }
  }

  /** What happens between the pages, one call after the other. */
  function Between(visits: seq<Visit>): seq<Op>
    decreases |visits|
  {
    if |visits| <= 1 then [] else visits[0].later + Between(visits[1..])
  }

  lemma {:induction false} AnnouncedRest(a: seq<Op>, b: seq<Op>)
    requires Announced(a + b, 0) && BeginCleanup !in a
    ensures Announced(a, 0) && Announced(b, 0)
    decreases |a|
  {
    if a == [] {
      assert a + b == b;
    } else {
      assert (a + b)[0] == a[0] && (a + b)[1..] == a[1..] + b;
      AnnouncedRest(a[1..], b);
    }
  }

  /** An accepted cursor has seen no cleanup begin. */
  lemma NoCleanupBefore(ix: Index, ops: seq<Op>, cursor: Cursor, now: int)
    requires cursor.epoch == ix.cursorEpoch && Accepts(Run(ix, ops), cursor, now)
    ensures BeginCleanup !in ops
  {
    CleanupMakesCursorsStale(ix, ops, cursor, now);
  }

  lemma {:induction false} PurgeFreeSpares(ix: Index, q: Query, generation: nat, key: Hit, ops: seq<Op>)
    requires PurgeFree(ops)
    ensures SparesRows(ix, q, generation, key, ops)
    decreases |ops|
  {
    if ops != [] {
      PurgeFreeSpares(Apply(ix, ops[0]), q, generation, key, ops[1..]);
    }
  }

  lemma {:induction false} AcceptedChainSpares(q: Query, visits: seq<Visit>, generation: nat)
    requires Chain(q, visits) && Announced(Between(visits), 0)
    ensures ChainSpares(q, visits, generation)
    decreases |visits|
  {
    if |visits| > 1 {
      var v, w := visits[0], visits[1];
      assert VisitOk(q, visits[1..][0]);
      NoCleanupBefore(v.ix, v.later, w.cursor.value, w.now);
      AnnouncedRest(v.later, Between(visits[1..]));
      AnnouncedPurges(v.later);
      PurgeFreeSpares(v.ix, q, generation, v.page.next.value.last, v.later);
      AcceptedChainSpares(q, visits[1..], generation);
    }
  }

  /** When no cleanup is pending at the first page, a search followed to its end returns the pinned ranking, exactly once
      and in order, whatever happens in between: a cleanup would have made the next cursor stale. */
  lemma PagesAreTheRanking(q: Query, visits: seq<Visit>)
    requires Chain(q, visits) && Sound(visits[0].ix) && visits[0].cursor.None? && visits[0].ix.generation.Some?
    requires Announced(Between(visits), 0)
    ensures Items(visits) == Ranking(Hits(visits[0].ix, q, visits[0].ix.generation.value))
  {
    AcceptedChainSpares(q, visits, visits[0].ix.generation.value);
    PagesAreExact(q, visits);
  }

  // ---- A cleanup that has begun but not deleted ----

  /** Two indexed texts, in a repository whose cleanup has advanced the cursor epoch. */
  function MidCleanup(fold: string -> string): Index {
    Index(fold, map[1 := Evidence("x", true, false), 2 := Evidence("x", true, false)], [Event(0, Some(1)), Event(0, Some(2))],
          map[1 := Doc(History, 0, 1, 1), 2 := Doc(History, 0, 1, 1)], [FtsRow(1, fold("x")), FtsRow(2, fold("x"))],
          Some(1), 1, 2, 1)
  }

  lemma {:induction false} MidCleanupIsReached(fold: string -> string)
    ensures
      var ops := [AppendPayload(0, 1, "x", false), AppendPayload(0, 2, "x", false), Sync(10, false), BeginCleanup];
      Run(Fresh(fold), ops) == MidCleanup(fold)
  {
    var a := Apply(Fresh(fold), AppendPayload(0, 1, "x", false));
    var b := Apply(a, AppendPayload(0, 2, "x", false));
    assert b.events == [Event(0, Some(1)), Event(0, Some(2))];
    TwoEventsIndexed(b);
    var c := Apply(b, Sync(10, false));
    var d := Apply(c, BeginCleanup);
    assert d == MidCleanup(fold);
    var ops := [AppendPayload(0, 1, "x", false), AppendPayload(0, 2, "x", false), Sync(10, false), BeginCleanup];
    assert ops[1..][1..] == [Sync(10, false), BeginCleanup] && ops[1..][1..][1..] == [BeginCleanup];
    assert [BeginCleanup][1..] == [];
    assert Run(c, [BeginCleanup]) == Run(d, []) == d;
    assert Run(Fresh(fold), ops) == Run(a, ops[1..]) == Run(b, ops[1..][1..]) == Run(c, [BeginCleanup]);
  }

  lemma {:induction false} TwoEventsIndexed(ix: Index)
    requires ix.events == [Event(0, Some(1)), Event(0, Some(2))] && ix.docs == map[] && ix.fts == []
    requires ix.evidence == map[1 := Evidence("x", true, false), 2 := Evidence("x", true, false)]
    requires ix.generation.None? && ix.generations == 0 && ix.through == 0
    ensures
      var next := SyncIndex(ix, 10, false);
      && next == ix.(docs := next.docs, fts := next.fts, generation := Some(1), generations := 1, through := 2)
      && next.docs == map[1 := Doc(History, 0, 1, 1), 2 := Doc(History, 0, 1, 1)]
      && next.fts == [FtsRow(1, ix.fold("x")), FtsRow(2, ix.fold("x"))]
  {
    var batch := ix.events;
    assert ix.events[0..2] == batch;
    assert batch[..1] == [Event(0, Some(1))] && batch[..1][..0] == [];
    var one := IndexEvent(ix, Event(0, Some(1)), 1);
    assert one.fts == [FtsRow(1, ix.fold("x"))];
    assert IndexEvents(ix, batch[..1], 1) == one;
    assert WithoutRef(one.fts, 2) == one.fts + [] == one.fts;
  }

  lemma MidCleanupIsSound(fold: string -> string)
    ensures Sound(MidCleanup(fold))
  {
    MidCleanupIsReached(fold);
    RunsStaySound(Fresh(fold), [AppendPayload(0, 1, "x", false), AppendPayload(0, 2, "x", false), Sync(10, false), BeginCleanup]);
  }

  lemma TwoHits(ix: Index, q: Query)
    requires ix == MidCleanup(ix.fold) && q == Query(q.substring, q.terms, {History}, 0, 9, 1, 1)
    requires forall t :: q.substring(t)
    ensures Hits(ix, q, 1) == {Hit(0, 0, 1), Hit(0, 0, 2)}
    ensures Ranking(Hits(ix, q, 1)) == [Hit(0, 0, 1), Hit(0, 0, 2)]
  {
    var (first, second) := (Hit(0, 0, 1), Hit(0, 0, 2));
    assert Visible(ix, q, 1, 1) && HitOf(ix, q, 1) == first;
    assert Visible(ix, q, 1, 2) && HitOf(ix, q, 2) == second;
    assert IsRanking([first, second], {first, second});
    RankingIsUnique([first, second], Ranking({first, second}), {first, second});
  }

  lemma NothingAfterPurge(ix: Index, q: Query)
    requires ix == MidCleanup(ix.fold)
    ensures Hits(Run(ix, [Purge(1)]), q, 1) == {}
    ensures Run(ix, [Purge(1)]) == PurgeIndex(ix, 1)
  {
    assert [Purge(1)][1..] == [];
    assert Run(ix, [Purge(1)]) == Run(Apply(ix, Purge(1)), []) == PurgeIndex(ix, 1);
    assert ix.events[0].payload == Some(1) && ix.events[1].payload == Some(2);
    assert EvidenceIndex.Purged(ix, 1, 1) && EvidenceIndex.Purged(ix, 1, 2);
  }

  /** Such a search loses a row: the first page is read after the cleanup has begun, so its cursor carries the new epoch
      and is still accepted after the deletion. */
  lemma CleanupLosesRows(fold: string -> string)
    ensures
      var q := Query(_ => true, _ => false, {History}, 0, 9, 1, 1);
      var (first, second, ix) := (Hit(0, 0, 1), Hit(0, 0, 2), MidCleanup(fold));
      var next := Some(Cursor(1, 1, first, 9));
      var visits := [
        Visit(ix, (_, _, _) => 0, None, 0, Page([first], next), [Purge(1)]),
        Visit(Run(ix, [Purge(1)]), (_, _, _) => 0, next, 0, Page([], None), [])];
      && Chain(q, visits) && Sound(ix)
      && Items(visits) == [first] && Ranking(Hits(ix, q, 1)) == [first, second]
  {
    var q := Query(_ => true, _ => false, {History}, 0, 9, 1, 1);
    var (first, second, ix) := (Hit(0, 0, 1), Hit(0, 0, 2), MidCleanup(fold));
    var next := Some(Cursor(1, 1, first, 9));
    var purged := Run(ix, [Purge(1)]);
    var cost: Cost := (_, _, _) => 0;
    var visits := [
      Visit(ix, cost, None, 0, Page([first], next), [Purge(1)]), Visit(purged, cost, next, 0, Page([], None), [])];
    MidCleanupIsSound(fold);
    TwoHits(ix, q);
    NothingAfterPurge(ix, q);
    assert [first, second][..1] == [first];
    assert Coming(purged, q, next) == [] by {
      assert AfterKey({}, Some(first)) == {};
      assert IsRanking([], {});
      RankingIsUnique([], Ranking({}), {});
    }
    assert Chain(q, visits[1..]);
    assert Items(visits) == [first] + Items(visits[1..]);
    assert Items(visits[1..]) == [] + Items(visits[1..][1..]);
  }

  /** With purges in between: in order, no row twice, no row that was not in the ranking, and every row that survives. */
  lemma PagesUnderPurges(q: Query, visits: seq<Visit>)
    requires Chain(q, visits) && Sound(visits[0].ix) && visits[0].cursor.None? && visits[0].ix.generation.Some?
    ensures
      var generation := visits[0].ix.generation.value;
      && Ordered(Items(visits))
      && (forall h <- Items(visits) :: h in Hits(visits[0].ix, q, generation))
      && (forall h <- Hits(visits[|visits| - 1].ix, q, generation) :: h in Items(visits))
  {
    ChainCovers(q, visits, visits[0].ix.generation.value);
  }

  /** A cleanup that begins after a cursor was issued makes it stale, whatever happens besides. */
  lemma {:induction false} CleanupMakesCursorsStale(ix: Index, ops: seq<Op>, cursor: Cursor, now: int)
    requires cursor.epoch <= ix.cursorEpoch
    ensures ix.cursorEpoch <= Run(ix, ops).cursorEpoch
    ensures BeginCleanup in ops ==> !Accepts(Run(ix, ops), cursor, now)
    decreases |ops|
  {
    if ops != [] {
      var next := Apply(ix, ops[0]);
      if ops[0].Sync? {
        SyncKeepsEpoch(ix, ops[0].maxEvents, ops[0].rebuild);
      }
      assert next.cursorEpoch == ix.cursorEpoch + if ops[0].BeginCleanup? then 1 else 0;
      EpochOnlyGrows(next, ops[1..]);
      CleanupMakesCursorsStale(next, ops[1..], cursor, now);
      assert BeginCleanup in ops ==> ops[0] == BeginCleanup || BeginCleanup in ops[1..];
    }
  }

  lemma SyncKeepsEpoch(ix: Index, maxEvents: int, rebuild: bool)
    ensures SyncIndex(ix, maxEvents, rebuild).cursorEpoch == ix.cursorEpoch
  {
    forall base: Index, batch, generation ensures IndexEvents(base, batch, generation).cursorEpoch == base.cursorEpoch {
      IndexEventsFrame(base, batch, generation);
    }
  }

  lemma {:induction false} EpochOnlyGrows(ix: Index, ops: seq<Op>)
    ensures ix.cursorEpoch <= Run(ix, ops).cursorEpoch
    decreases |ops|
  {
    if ops != [] {
      if ops[0].Sync? {
        SyncKeepsEpoch(ix, ops[0].maxEvents, ops[0].rebuild);
      }
      EpochOnlyGrows(Apply(ix, ops[0]), ops[1..]);
    }
  }
}
