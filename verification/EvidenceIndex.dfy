/** The event log and its full-text index (src/context/indexer.ts). */
module EvidenceIndex {
  import opened Prelude

  // The writers of the log are in src/context/store.ts and src/context/capture.ts.

  type Ref = nat

  const MAX_SYNC_EVENTS := 10000

  datatype Kind = History | Checkpoint

  datatype Evidence = Evidence(text: string, available: bool, checkpoint: bool)

  /** Event ids count from 1: event n is events[n - 1]. */
  datatype Event = Event(acceptedAt: int, payload: Option<Ref>)

  datatype Doc = Doc(kind: Kind, timestamp: int, first: nat, last: nat)

  datatype FtsRow = FtsRow(ref: Ref, text: string)

  /** The tables of one repository. `fold` is the accent folding of text.ts; `generations` is the last generation id
      handed out, `generation` and `through` are the published manifest. */
  datatype Index = Index(
    fold: string -> string,
    evidence: map<Ref, Evidence>,
    events: seq<Event>,
    docs: map<Ref, Doc>,
    fts: seq<FtsRow>,
    generation: Option<nat>,
    generations: nat,
    through: nat,
    cursorEpoch: nat)

  // ---- Indexing one event ----

  function WithoutRef(fts: seq<FtsRow>, ref: Ref): seq<FtsRow> {
    if fts == [] then []
    else (if fts[0].ref == ref then [] else [fts[0]]) + WithoutRef(fts[1..], ref)
  }

  predicate Indexable(ix: Index, e: Event) {
    e.payload.Some? && e.payload.value in ix.evidence && ix.evidence[e.payload.value].available
  }

  /** A replay refreshes the row but keeps the document's first generation, timestamp and kind. */
  function IndexEvent(ix: Index, e: Event, generation: nat): Index {
    if !Indexable(ix, e) then ix
    else
      var ref := e.payload.value;
      var row := ix.evidence[ref];
      var doc :=
        if ref in ix.docs then ix.docs[ref].(last := generation)
        else Doc(if row.checkpoint then Checkpoint else History, e.acceptedAt, generation, generation);
      ix.(docs := ix.docs[ref := doc], fts := WithoutRef(ix.fts, ref) + [FtsRow(ref, ix.fold(row.text))])
  }

  function IndexEvents(ix: Index, batch: seq<Event>, generation: nat): Index
    decreases |batch|
  {
    if batch == [] then ix
    else IndexEvent(IndexEvents(ix, batch[..|batch| - 1], generation), batch[|batch| - 1], generation)
  }

  // ---- Operations ----

  datatype Op =
    | AppendPayload(at: int, ref: Ref, text: string, checkpoint: bool)
    | Intent(at: int)
    | Outcome(event: nat, ref: Ref, text: string)
    | Sync(maxEvents: int, rebuild: bool)
    | BeginCleanup
    | Purge(before: int)

  predicate FreshRef(ix: Index, ref: Ref) { ref !in ix.evidence }

  /** Evidence and its event in one transaction. Refs are random and fresh. */
  function Append(ix: Index, at: int, ref: Ref, text: string, checkpoint: bool): Index {
    if !FreshRef(ix, ref) then ix
    else ix.(evidence := ix.evidence[ref := Evidence(text, true, checkpoint)], events := ix.events + [Event(at, Some(ref))])
  }

  /** An outcome gives an intent its payload: an available ref that already holds it, or a fresh one. */
  function Complete(ix: Index, event: nat, ref: Ref, text: string): Index {
    if event < 1 || event > |ix.events| || ix.events[event - 1].payload.Some? then ix
    else if ref in ix.evidence && !ix.evidence[ref].available then ix
    else
      ix.(evidence := if ref in ix.evidence then ix.evidence else ix.evidence[ref := Evidence(text, true, false)],
          events := ix.events[event - 1 := Event(ix.events[event - 1].acceptedAt, Some(ref))])
  }

  function SyncIndex(ix: Index, maxEvents: int, rebuild: bool): Index {
    if maxEvents < 1 || maxEvents > MAX_SYNC_EVENTS then ix
    else if !rebuild && ix.generation.Some? && ix.through >= |ix.events| then ix
    else if rebuild && |ix.events| > maxEvents then ix
    else
      var from := if rebuild then 0 else if ix.through > |ix.events| then |ix.events| else ix.through;
      var end := if from + maxEvents < |ix.events| then from + maxEvents else |ix.events|;
      var batch := ix.events[from..end];
      var generation := ix.generations + 1;
      var indexed := IndexEvents(if rebuild then ix.(fts := []) else ix, batch, generation);
      indexed.(generation := Some(generation), generations := generation, through := if batch == [] then ix.through else end)
  }

  /** Some event accepted before the limit carries the ref. */
  predicate Purged(ix: Index, before: int, ref: Ref) {
    && ref in ix.evidence && ix.evidence[ref].available
    && exists i :: 0 <= i < |ix.events| && ix.events[i].payload == Some(ref) && ix.events[i].acceptedAt < before
  }

  function WithoutPurged(ix: Index, before: int, fts: seq<FtsRow>): seq<FtsRow> {
    if fts == [] then []
    else (if Purged(ix, before, fts[0].ref) then [] else [fts[0]]) + WithoutPurged(ix, before, fts[1..])
  }

  function PurgeIndex(ix: Index, before: int): Index {
    ix.(evidence := map r | r in ix.evidence :: if Purged(ix, before, r) then ix.evidence[r].(text := "", available := false) else ix.evidence[r],
        docs := map r | r in ix.docs && !Purged(ix, before, r) :: ix.docs[r],
        fts := WithoutPurged(ix, before, ix.fts))
  }

  function Apply(ix: Index, op: Op): Index {
    match op
    case AppendPayload(at, ref, text, checkpoint) => Append(ix, at, ref, text, checkpoint)
    case Intent(at) => ix.(events := ix.events + [Event(at, None)])
    case Outcome(event, ref, text) => Complete(ix, event, ref, text)
    case Sync(maxEvents, rebuild) => SyncIndex(ix, maxEvents, rebuild)
    case BeginCleanup => ix.(cursorEpoch := ix.cursorEpoch + 1)
    case Purge(before) => PurgeIndex(ix, before)
  }

  function Run(ix: Index, ops: seq<Op>): Index
    decreases |ops|
  {
    if ops == [] then ix else Run(Apply(ix, ops[0]), ops[1..])
  }

  function Fresh(fold: string -> string): Index {
    Index(fold, map[], [], map[], [], None, 0, 0, 0)
  }

  // ---- What the index should hold ----

  /** Ref is carried by one of the first n events. */
  ghost predicate Carried(ix: Index, ref: Ref, n: nat) {
    exists i :: 0 <= i < n && i < |ix.events| && ix.events[i].payload == Some(ref)
  }

  /** Still-available evidence of an event the index has passed. */
  ghost predicate Due(ix: Index, ref: Ref) {
    ref in ix.evidence && ix.evidence[ref].available && Carried(ix, ref, ix.through)
  }

  ghost predicate OneRowPerRef(fts: seq<FtsRow>) {
    forall i, j :: 0 <= i < j < |fts| ==> fts[i].ref != fts[j].ref
  }

  /** The rows are exactly the folded texts of these refs, one each. */
  ghost predicate RowsAre(ix: Index, refs: set<Ref>) {
    && OneRowPerRef(ix.fts)
    && refs <= ix.evidence.Keys
    && forall row :: row in ix.fts <==> row.ref in refs && row.text == ix.fold(ix.evidence[row.ref].text)
  }

  /** What every operation keeps. */
  ghost predicate Sound(ix: Index) {
    && ix.through <= |ix.events|
    && (forall e <- ix.events :: e.payload.Some? ==> e.payload.value in ix.evidence)
    && (ix.generation.None? ==> ix.through == 0)
    && (ix.generation.Some? ==> ix.generation.value <= ix.generations)
    && (forall r <- ix.docs.Keys :: Due(ix, r) && ix.generation.Some? && ix.docs[r].first <= ix.generation.value)
    && RowsAre(ix, ix.docs.Keys)
  }

  /** The index agrees with the log: one folded row per due ref, and no other row. */
  ghost predicate Agrees(ix: Index) {
    && Sound(ix)
    && forall r :: Due(ix, r) ==> r in ix.docs
  }

  lemma AgreementMeansOneRowEach(ix: Index)
    requires Agrees(ix)
    ensures OneRowPerRef(ix.fts)
    ensures forall row :: row in ix.fts <==> Due(ix, row.ref) && row.text == ix.fold(ix.evidence[row.ref].text)
  {
    forall row
      ensures row in ix.fts <==> Due(ix, row.ref) && row.text == ix.fold(ix.evidence[row.ref].text)
    {
      assert row.ref in ix.docs.Keys <==> Due(ix, row.ref);
    }
  }

  // ---- Rows ----

  lemma {:induction false} WithoutRefRows(fts: seq<FtsRow>, ref: Ref)
    requires OneRowPerRef(fts)
    ensures OneRowPerRef(WithoutRef(fts, ref))
    ensures forall row :: row in WithoutRef(fts, ref) <==> row in fts && row.ref != ref
  {
    if fts != [] {
      WithoutRefRows(fts[1..], ref);
      assert forall row :: row in fts <==> row == fts[0] || row in fts[1..];
    }
  }

  lemma {:induction false} WithoutPurgedRows(ix: Index, before: int, fts: seq<FtsRow>)
    requires OneRowPerRef(fts)
    ensures OneRowPerRef(WithoutPurged(ix, before, fts))
    ensures forall row :: row in WithoutPurged(ix, before, fts) <==> row in fts && !Purged(ix, before, row.ref)
  {
    if fts != [] {
      WithoutPurgedRows(ix, before, fts[1..]);
      assert forall row :: row in fts <==> row == fts[0] || row in fts[1..];
    }
  }

  /** The refs a batch indexes. */
  ghost function BatchRefs(ix: Index, batch: seq<Event>): set<Ref> {
    set e | e in batch && Indexable(ix, e) :: e.payload.value
  }

  lemma IndexEventRows(ix: Index, e: Event, generation: nat, refs: set<Ref>)
    requires RowsAre(ix, refs) && Indexable(ix, e)
    ensures RowsAre(IndexEvent(ix, e, generation), refs + {e.payload.value})
  {
    WithoutRefRows(ix.fts, e.payload.value);
    var next := IndexEvent(ix, e, generation);
    forall row
      ensures row in next.fts <==>
        row.ref in refs + {e.payload.value} && row.text == ix.fold(ix.evidence[row.ref].text)
    {
    }
  }

  /** What indexing a batch does to rows and documents. */
  lemma {:induction false} IndexEventsSpec(ix: Index, batch: seq<Event>, generation: nat, refs: set<Ref>)
    requires RowsAre(ix, refs)
    ensures
      var next := IndexEvents(ix, batch, generation);
      && next.(docs := ix.docs, fts := ix.fts) == ix
      && RowsAre(next, refs + BatchRefs(ix, batch))
      && next.docs.Keys == ix.docs.Keys + BatchRefs(ix, batch)
      && (forall r <- ix.docs.Keys :: next.docs[r].(last := ix.docs[r].last) == ix.docs[r])
      && (forall r <- next.docs.Keys - ix.docs.Keys :: next.docs[r].first == generation)
    decreases |batch|
  {
    if batch == [] {
      assert BatchRefs(ix, batch) == {};
      assert refs + {} == refs;
      assert ix.docs.Keys + {} == ix.docs.Keys;
    } else {
      var front, e := batch[..|batch| - 1], batch[|batch| - 1];
      IndexEventsSpec(ix, front, generation, refs);
      var mid := IndexEvents(ix, front, generation);
      assert batch == front + [e];
      if Indexable(ix, e) {
        assert BatchRefs(ix, batch) == BatchRefs(ix, front) + {e.payload.value};
        IndexEventRows(mid, e, generation, refs + BatchRefs(ix, front));
        assert refs + BatchRefs(ix, front) + {e.payload.value} == refs + BatchRefs(ix, batch);
      } else {
        assert BatchRefs(ix, batch) == BatchRefs(ix, front);
      }
    }
  }

  // ---- Every operation keeps the index sound ----

  lemma DueAfterPrefix(ix: Index, from: nat, end: nat)
    requires from <= end <= |ix.events|
    ensures forall r :: r in BatchRefs(ix, ix.events[from..end]) ==>
      r in ix.evidence && ix.evidence[r].available && Carried(ix, r, end)
    ensures forall r :: r in ix.evidence && ix.evidence[r].available && Carried(ix, r, end) ==>
      Carried(ix, r, from) || r in BatchRefs(ix, ix.events[from..end])
  {
    var batch := ix.events[from..end];
    forall r | r in BatchRefs(ix, batch) ensures Carried(ix, r, end) {
      var e :| e in batch && Indexable(ix, e) && e.payload.value == r;
      var j :| 0 <= j < |batch| && batch[j] == e;
      assert ix.events[from + j].payload == Some(r);
    }
    forall r | r in ix.evidence && ix.evidence[r].available && Carried(ix, r, end) && !Carried(ix, r, from)
      ensures r in BatchRefs(ix, batch)
    {
      var i :| 0 <= i < end && ix.events[i].payload == Some(r);
      assert batch[i - from] == ix.events[i] && Indexable(ix, batch[i - from]);
    }
  }

  lemma CarriedGrows(ix: Index, r: Ref, m: nat, n: nat)
    requires m <= n
    ensures Carried(ix, r, m) ==> Carried(ix, r, n)
  {
  }

  /** A sync that takes effect, and its parts. */
  predicate Publishes(ix: Index, maxEvents: int, rebuild: bool) {
    && 1 <= maxEvents <= MAX_SYNC_EVENTS
    && (rebuild || ix.generation.None? || ix.through < |ix.events|)
    && (rebuild ==> |ix.events| <= maxEvents)
  }

  function SyncFrom(ix: Index, rebuild: bool): nat {
    if rebuild then 0 else if ix.through > |ix.events| then |ix.events| else ix.through
  }

  function SyncEnd(ix: Index, maxEvents: int, rebuild: bool): (end: nat)
    requires maxEvents >= 1
    ensures SyncFrom(ix, rebuild) <= end <= |ix.events|
  {
    if SyncFrom(ix, rebuild) + maxEvents < |ix.events| then SyncFrom(ix, rebuild) + maxEvents else |ix.events|
  }

  /** The table a sync starts to index from: a rebuild empties it. */
  function SyncBase(ix: Index, rebuild: bool): Index {
    if rebuild then ix.(fts := []) else ix
  }

  function SyncBatch(ix: Index, maxEvents: int, rebuild: bool): seq<Event>
    requires maxEvents >= 1
  {
    ix.events[SyncFrom(ix, rebuild)..SyncEnd(ix, maxEvents, rebuild)]
  }

  /** A sync that takes effect indexes its batch and publishes. */
  lemma {:induction false} SyncIsIndexing(ix: Index, maxEvents: int, rebuild: bool)
    requires ix.through <= |ix.events| && Publishes(ix, maxEvents, rebuild)
    ensures
      var id := ix.generations + 1;
      SyncIndex(ix, maxEvents, rebuild) ==
        IndexEvents(SyncBase(ix, rebuild), SyncBatch(ix, maxEvents, rebuild), id)
        .(generation := Some(id), generations := id, through := SyncEnd(ix, maxEvents, rebuild))
  {
  }

  /** The tables after a sync that takes effect: which refs have rows and documents, and what stays as it was. */
  lemma {:induction false} SyncTables(ix: Index, maxEvents: int, rebuild: bool)
    requires Sound(ix) && Publishes(ix, maxEvents, rebuild)
    ensures
      var next := SyncIndex(ix, maxEvents, rebuild);
      var refs := BatchRefs(ix, SyncBatch(ix, maxEvents, rebuild));
      && next.(docs := ix.docs, fts := ix.fts, generation := ix.generation, generations := ix.generations, through := ix.through) == ix
      && next.generation == Some(ix.generations + 1) && next.generations == ix.generations + 1
      && next.through == SyncEnd(ix, maxEvents, rebuild)
      && RowsAre(next, (if rebuild then {} else ix.docs.Keys) + refs)
      && next.docs.Keys == ix.docs.Keys + refs
      && (forall r <- ix.docs.Keys :: next.docs[r].(last := ix.docs[r].last) == ix.docs[r])
      && (forall r <- next.docs.Keys - ix.docs.Keys :: next.docs[r].first == ix.generations + 1)
  {
    var (base, batch) := (SyncBase(ix, rebuild), SyncBatch(ix, maxEvents, rebuild));
    var refs: set<Ref> := if rebuild then {} else ix.docs.Keys;
    assert RowsAre(base, refs);
    IndexEventsSpec(base, batch, ix.generations + 1, refs);
    assert BatchRefs(base, batch) == BatchRefs(ix, batch);
    SyncIsIndexing(ix, maxEvents, rebuild);
    SameRows(IndexEvents(base, batch, ix.generations + 1), SyncIndex(ix, maxEvents, rebuild), refs + BatchRefs(ix, batch));
  }

  lemma {:induction false} SameRows(a: Index, b: Index, refs: set<Ref>)
    requires RowsAre(a, refs) && a.fts == b.fts && a.evidence == b.evidence && a.fold == b.fold
    ensures RowsAre(b, refs)
  {
  }

  lemma SyncSpec(ix: Index, maxEvents: int, rebuild: bool)
    requires Sound(ix) && Publishes(ix, maxEvents, rebuild)
    ensures
      var next := SyncIndex(ix, maxEvents, rebuild);
      && Sound(next) && next.generation == Some(ix.generations + 1)
      && ix.through <= next.through && (rebuild ==> next.through == |ix.events|)
      && (!rebuild ==> next.through == (if ix.through + maxEvents < |ix.events| then ix.through + maxEvents else |ix.events|))
      && next.evidence == ix.evidence && next.events == ix.events && next.fold == ix.fold && next.cursorEpoch == ix.cursorEpoch
      && ix.docs.Keys <= next.docs.Keys
      && (forall r <- ix.docs.Keys :: next.docs[r].(last := ix.docs[r].last) == ix.docs[r])
      && (forall r <- next.docs.Keys - ix.docs.Keys :: next.docs[r].first == ix.generations + 1)
      && (forall r :: Due(next, r) ==> r in next.docs || (!rebuild && Due(ix, r) && r !in ix.docs))
  {
    SyncTables(ix, maxEvents, rebuild);
    var from, end := SyncFrom(ix, rebuild), SyncEnd(ix, maxEvents, rebuild);
    var refs := BatchRefs(ix, SyncBatch(ix, maxEvents, rebuild));
    var next := SyncIndex(ix, maxEvents, rebuild);
    DueAfterPrefix(ix, from, end);
    forall r | r in ix.docs.Keys ensures Due(next, r) && (rebuild ==> r in refs) {
      CarriedGrows(ix, r, ix.through, end);
    }
    forall r | r in refs ensures Due(next, r) {
    }
    assert next.docs.Keys == (if rebuild then {} else ix.docs.Keys) + refs;
    assert RowsAre(next, next.docs.Keys);
  }

  /** A document that indexing makes for a ref is of the kind of its evidence, and of the time of the first event with it;
      a ref that no event of the batch carries gets none. */
  lemma {:induction false} FirstEventMakes(ix: Index, batch: seq<Event>, generation: nat, r: Ref, k: nat)
    requires r !in ix.docs && r in ix.evidence && ix.evidence[r].available && k <= |batch|
    requires forall j :: 0 <= j < k ==> batch[j].payload != Some(r)
    requires k < |batch| ==> batch[k].payload == Some(r)
    ensures
      var next := IndexEvents(ix, batch, generation);
      && next.evidence == ix.evidence
      && (r in next.docs <==> k < |batch|)
      && (k < |batch| ==> next.docs[r] == Doc(KindOf(ix.evidence[r]), batch[k].acceptedAt, generation, generation))
    decreases |batch|
  {
    if batch != [] {
      var n := |batch| - 1;
      FirstEventMakes(ix, batch[..n], generation, r, if k < n then k else n);
    }
  }

  function KindOf(e: Evidence): Kind {
    if e.checkpoint then Checkpoint else History
  }

  /** A document that a sync makes has the kind of its evidence and the acceptance time of the first event with its ref,
      counted from the indexed position, or from the start in a rebuild. */
  lemma {:induction false} NewDocument(ix: Index, maxEvents: int, rebuild: bool, r: Ref) returns (i: nat)
    requires Sound(ix) && Publishes(ix, maxEvents, rebuild)
    requires r in SyncIndex(ix, maxEvents, rebuild).docs && r !in ix.docs
    ensures (if rebuild then 0 else ix.through) <= i < |ix.events| && ix.events[i].payload == Some(r)
    ensures forall j :: (if rebuild then 0 else ix.through) <= j < i ==> ix.events[j].payload != Some(r)
    ensures
      var id := ix.generations + 1;
      && r in ix.evidence
      && SyncIndex(ix, maxEvents, rebuild).docs[r]
         == Doc(if ix.evidence[r].checkpoint then Checkpoint else History, ix.events[i].acceptedAt, id, id)
  {
    NewIsInBatch(ix, maxEvents, rebuild, r);
    var k := FirstWith(SyncBatch(ix, maxEvents, rebuild), r);
    SyncMakes(ix, maxEvents, rebuild, r, k);
    i := SyncFrom(ix, rebuild) + k;
    forall j | SyncFrom(ix, rebuild) <= j < i ensures ix.events[j].payload != Some(r) {
      assert ix.events[j] == SyncBatch(ix, maxEvents, rebuild)[j - SyncFrom(ix, rebuild)];
    }
  }

  lemma {:induction false} NewIsInBatch(ix: Index, maxEvents: int, rebuild: bool, r: Ref)
    requires Sound(ix) && Publishes(ix, maxEvents, rebuild)
    requires r in SyncIndex(ix, maxEvents, rebuild).docs && r !in ix.docs
    ensures r in ix.evidence && ix.evidence[r].available
    ensures exists e <- SyncBatch(ix, maxEvents, rebuild) :: e.payload == Some(r)
  {
    SyncTables(ix, maxEvents, rebuild);
    assert r in BatchRefs(ix, SyncBatch(ix, maxEvents, rebuild));
    var e :| e in SyncBatch(ix, maxEvents, rebuild) && Indexable(ix, e) && e.payload.value == r;
    assert e.payload == Some(r);
  }

  lemma {:induction false} SyncMakes(ix: Index, maxEvents: int, rebuild: bool, r: Ref, k: nat)
    requires ix.through <= |ix.events| && Publishes(ix, maxEvents, rebuild)
    requires r !in ix.docs && r in ix.evidence && ix.evidence[r].available
    requires
      var batch := SyncBatch(ix, maxEvents, rebuild);
      k < |batch| && batch[k].payload == Some(r) && forall j :: 0 <= j < k ==> batch[j].payload != Some(r)
    ensures
      var (id, next) := (ix.generations + 1, SyncIndex(ix, maxEvents, rebuild));
      && r in next.docs
      && next.docs[r] == Doc(KindOf(ix.evidence[r]), SyncBatch(ix, maxEvents, rebuild)[k].acceptedAt, id, id)
  {
    FirstEventMakes(SyncBase(ix, rebuild), SyncBatch(ix, maxEvents, rebuild), ix.generations + 1, r, k);
    SyncIsIndexing(ix, maxEvents, rebuild);
  }

  lemma {:induction false} LastOf(ix: Index, batch: seq<Event>, generation: nat, r: Ref)
    requires r in ix.docs && r in ix.evidence && ix.evidence[r].available
    ensures
      var next := IndexEvents(ix, batch, generation);
      var seen := exists e <- batch :: e.payload == Some(r);
      && next.evidence == ix.evidence && r in next.docs
      && next.docs[r] == ix.docs[r].(last := if seen then generation else ix.docs[r].last)
    decreases |batch|
  {
    if batch != [] {
      var front, e := batch[..|batch| - 1], batch[|batch| - 1];
      LastOf(ix, front, generation, r);
      assert batch == front + [e];
    }
  }

  /** A document that was there before a sync changes in its last generation only, and exactly when the sync passes an
      event with its ref. */
  lemma {:induction false} KnownDocument(ix: Index, maxEvents: int, rebuild: bool, r: Ref)
    requires Sound(ix) && Publishes(ix, maxEvents, rebuild) && r in ix.docs
    ensures
      var next := SyncIndex(ix, maxEvents, rebuild);
      var seen := exists e <- ix.events[if rebuild then 0 else ix.through..next.through] :: e.payload == Some(r);
      r in next.docs && next.docs[r] == ix.docs[r].(last := if seen then ix.generations + 1 else ix.docs[r].last)
  {
    assert r in ix.docs.Keys && Due(ix, r);
    LastOf(SyncBase(ix, rebuild), SyncBatch(ix, maxEvents, rebuild), ix.generations + 1, r);
    SyncIsIndexing(ix, maxEvents, rebuild);
    assert SyncFrom(ix, rebuild) == if rebuild then 0 else ix.through;
  }

  lemma {:induction false} FirstWith(batch: seq<Event>, r: Ref) returns (k: nat)
    requires exists e <- batch :: e.payload == Some(r)
    ensures k < |batch| && batch[k].payload == Some(r) && forall j :: 0 <= j < k ==> batch[j].payload != Some(r)
  {
    if batch[0].payload == Some(r) {
      k := 0;
    } else {
      var m := FirstWith(batch[1..], r);
      k := m + 1;
    }
  }

  /** Evidence is available after a purge exactly when it was before and every event with its ref was accepted at the limit
      or later; no other evidence loses its text. */
  lemma {:induction false} PurgeMeans(ix: Index, before: int, r: Ref)
    requires r in ix.evidence
    ensures
      var next := PurgeIndex(ix, before);
      var kept := ix.evidence[r].available ==> forall e <- ix.events :: e.payload == Some(r) ==> e.acceptedAt >= before;
      && r in next.evidence && (next.evidence[r] == if kept then ix.evidence[r] else Evidence("", false, ix.evidence[r].checkpoint))
      && (r in next.docs <==> r in ix.docs && kept)
      && (r in next.docs ==> next.docs[r] == ix.docs[r])
  {
    if exists e <- ix.events :: e.payload == Some(r) && e.acceptedAt < before {
      var e :| e in ix.events && e.payload == Some(r) && e.acceptedAt < before;
      var i :| 0 <= i < |ix.events| && ix.events[i] == e;
    }
  }

  lemma SyncIdle(ix: Index, maxEvents: int, rebuild: bool)
    requires Sound(ix) && !Publishes(ix, maxEvents, rebuild)
    ensures SyncIndex(ix, maxEvents, rebuild) == ix
  {
  }

  lemma AppendSound(ix: Index, at: int, ref: Ref, text: string, checkpoint: bool)
    requires Sound(ix) && FreshRef(ix, ref)
    ensures
      var next := Append(ix, at, ref, text, checkpoint);
      Sound(next) && (forall r :: Due(next, r) <==> Due(ix, r))
  {
    var next := Append(ix, at, ref, text, checkpoint);
    forall r: Ref ensures Due(next, r) <==> Due(ix, r) {
      if Carried(ix, r, ix.through) {
        var i :| 0 <= i < ix.through && ix.events[i].payload == Some(r);
        assert next.events[i] == ix.events[i] && ix.events[i] in ix.events;
      }
      if Carried(next, r, ix.through) {
        var i :| 0 <= i < ix.through && next.events[i].payload == Some(r);
        assert next.events[i] == ix.events[i] && ix.events[i] in ix.events;
      }
    }
    RowsStay(ix, next);
  }

  /** Rows and documents are untouched, and so is the evidence of the documents. */
  lemma RowsStay(ix: Index, next: Index)
    requires RowsAre(ix, ix.docs.Keys)
    requires next.fts == ix.fts && next.docs == ix.docs && next.fold == ix.fold
    requires ix.docs.Keys <= next.evidence.Keys
    requires forall r <- ix.docs.Keys :: next.evidence[r].text == ix.evidence[r].text
    ensures RowsAre(next, next.docs.Keys)
  {
  }

  lemma IntentSound(ix: Index, at: int)
    requires Sound(ix)
    ensures
      var next := Apply(ix, Intent(at));
      Sound(next) && (forall r :: Due(next, r) <==> Due(ix, r))
  {
    var next := Apply(ix, Intent(at));
    forall r: Ref ensures Due(next, r) <==> Due(ix, r) {
      assert forall i :: 0 <= i < ix.through ==> next.events[i] == ix.events[i];
    }
    RowsStay(ix, next);
  }

  /** The outcome is recorded. */
  predicate Records(ix: Index, event: nat, ref: Ref) {
    && 1 <= event <= |ix.events| && ix.events[event - 1].payload.None?
    && (ref in ix.evidence ==> ix.evidence[ref].available)
  }

  lemma CompleteSound(ix: Index, event: nat, ref: Ref, text: string)
    requires Sound(ix) && Records(ix, event, ref)
    ensures
      var next := Complete(ix, event, ref, text);
      Sound(next) && (forall r :: Due(next, r) <==> Due(ix, r) || (r == ref && event <= ix.through))
  {
    var next := Complete(ix, event, ref, text);
    forall r: Ref ensures Due(next, r) <==> Due(ix, r) || (r == ref && event <= ix.through) {
      if Carried(ix, r, ix.through) {
        var i :| 0 <= i < ix.through && ix.events[i].payload == Some(r);
        assert next.events[i] == ix.events[i] && ix.events[i] in ix.events;
      }
      if r == ref && event <= ix.through {
        assert next.events[event - 1].payload == Some(r);
      }
      if Carried(next, r, ix.through) && r != ref {
        var i :| 0 <= i < ix.through && next.events[i].payload == Some(r);
        assert next.events[i] == ix.events[i] && ix.events[i] in ix.events;
      }
      if Carried(next, ref, ix.through) && event > ix.through {
        var i :| 0 <= i < ix.through && next.events[i].payload == Some(ref);
        assert next.events[i] == ix.events[i] && ix.events[i] in ix.events;
      }
    }
    RowsStay(ix, next);
  }

  lemma PurgeSound(ix: Index, before: int)
    requires Sound(ix)
    ensures
      var next := PurgeIndex(ix, before);
      Sound(next) && (forall r :: Due(next, r) <==> Due(ix, r) && !Purged(ix, before, r))
  {
    var next := PurgeIndex(ix, before);
    WithoutPurgedRows(ix, before, ix.fts);
    forall r: Ref ensures Due(next, r) <==> Due(ix, r) && !Purged(ix, before, r) {
      assert Carried(next, r, next.through) <==> Carried(ix, r, ix.through);
    }
    forall row
      ensures row in next.fts <==> row.ref in next.docs.Keys && row.text == next.fold(next.evidence[row.ref].text)
    {
    }
  }

  /** An outcome recorded for an event the index has already passed, with a ref it does not hold. */
  predicate Late(ix: Index, op: Op) {
    op.Outcome? && Records(ix, op.event, op.ref) && op.event <= ix.through && op.ref !in ix.docs
  }

  lemma StepSound(ix: Index, op: Op)
    requires Sound(ix)
    ensures Sound(Apply(ix, op))
    ensures Agrees(ix) ==> (Agrees(Apply(ix, op)) <==> !Late(ix, op))
  {
    match op
    case AppendPayload(at, ref, text, checkpoint) =>
      if FreshRef(ix, ref) {
        AppendSound(ix, at, ref, text, checkpoint);
      }
    case Intent(at) => IntentSound(ix, at);
    case Outcome(event, ref, text) =>
      if Records(ix, event, ref) {
        CompleteSound(ix, event, ref, text);
      }
    case Sync(maxEvents, rebuild) =>
      if Publishes(ix, maxEvents, rebuild) {
        SyncSpec(ix, maxEvents, rebuild);
      } else {
        SyncIdle(ix, maxEvents, rebuild);
      }
    case BeginCleanup =>
      RowsStay(ix, Apply(ix, op));
      assert forall r :: Due(Apply(ix, op), r) <==> Due(ix, r);
    case Purge(before) => PurgeSound(ix, before);
  }

  /** From an index that agrees with the log, an operation leads to one that agrees exactly when it is not a late
      outcome: its ref is passed over for good, until a rebuild or a later event carries it. */
  lemma AgreementIsKept(ix: Index, op: Op)
    requires Agrees(ix)
    ensures Agrees(Apply(ix, op)) <==> !Late(ix, op)
  {
    StepSound(ix, op);
  }

  lemma LateOutcomeIsMissed(fold: string -> string)
    ensures
      var ops := [Intent(0), Sync(10, false), Outcome(1, 7, "x")];
      !Agrees(Run(Fresh(fold), ops))
  {
    var a := Fresh(fold);
    var b := Apply(a, Intent(0));
    var c := Apply(b, Sync(10, false));
    StepSound(a, Intent(0));
    SyncSpec(b, 10, false);
    StepSound(b, Sync(10, false));
    assert c.events == [Event(0, None)] && c.through == 1;
    StepSound(c, Outcome(1, 7, "x"));
    var ops := [Intent(0), Sync(10, false), Outcome(1, 7, "x")];
    assert ops[1..][1..] == [Outcome(1, 7, "x")] && ops[1..][1..][1..] == [];
    assert Run(c, [Outcome(1, 7, "x")]) == Apply(c, Outcome(1, 7, "x"));
    assert Run(a, ops) == Run(b, ops[1..]) == Run(c, ops[1..][1..]);
  }

  /** A rebuild restores agreement, whatever was missed. */
  lemma RebuildRestoresAgreement(ix: Index, maxEvents: int)
    requires Sound(ix) && |ix.events| <= maxEvents && 1 <= maxEvents <= MAX_SYNC_EVENTS
    ensures Agrees(SyncIndex(ix, maxEvents, true))
  {
    SyncSpec(ix, maxEvents, true);
  }

  // ---- Runs ----

  ghost predicate NoneLate(ix: Index, ops: seq<Op>)
    decreases |ops|
  {
    ops == [] || (!Late(ix, ops[0]) && NoneLate(Apply(ix, ops[0]), ops[1..]))
  }

  lemma {:induction false} RunsStaySound(ix: Index, ops: seq<Op>)
    requires Sound(ix)
    ensures Sound(Run(ix, ops))
    ensures Agrees(ix) && NoneLate(ix, ops) ==> Agrees(Run(ix, ops))
    decreases |ops|
  {
    if ops != [] {
      StepSound(ix, ops[0]);
      RunsStaySound(Apply(ix, ops[0]), ops[1..]);
    }
  }

  /** Over any run without late outcomes, whatever the caps, rebuilds and purges, the rows are exactly one folded row
      per due ref. */
  lemma IndexAgreesWithLog(fold: string -> string, ops: seq<Op>)
    requires NoneLate(Fresh(fold), ops)
    ensures Agrees(Run(Fresh(fold), ops))
  {
    RunsStaySound(Fresh(fold), ops);
  }

  function Published(ix: Index): nat {
    if ix.generation.Some? then ix.generation.value else 0
  }

  lemma {:induction false} StepMovesForward(ix: Index, op: Op)
    requires Sound(ix)
    ensures ix.through <= Apply(ix, op).through && Published(ix) <= Published(Apply(ix, op))
    ensures ix.generation.Some? ==> Apply(ix, op).generation.Some?
  {
    if op.Sync? {
      SyncMovesForward(ix, op.maxEvents, op.rebuild);
    }
  }

  lemma {:induction false} SyncMovesForward(ix: Index, maxEvents: int, rebuild: bool)
    requires Sound(ix)
    ensures
      var next := SyncIndex(ix, maxEvents, rebuild);
      ix.through <= next.through && Published(ix) <= Published(next) && (ix.generation.Some? ==> next.generation.Some?)
  {
    if Publishes(ix, maxEvents, rebuild) {
      SyncTables(ix, maxEvents, rebuild);
    } else {
      SyncIdle(ix, maxEvents, rebuild);
    }
  }

  /** The published generation and the indexed position never go back. */
  lemma {:induction false} ManifestNeverGoesBack(ix: Index, ops: seq<Op>)
    requires Sound(ix)
    ensures ix.through <= Run(ix, ops).through && Published(ix) <= Published(Run(ix, ops))
    ensures ix.generation.Some? ==> Run(ix, ops).generation.Some?
    decreases |ops|
  {
    if ops != [] {
      StepSound(ix, ops[0]);
      StepMovesForward(ix, ops[0]);
      ManifestNeverGoesBack(Apply(ix, ops[0]), ops[1..]);
    }
  }

  // ---- What late outcomes cost ----

  /** The ref is due and has no row. */
  ghost predicate Missed(ix: Index, r: Ref) {
    Due(ix, r) && r !in ix.docs
  }

  /** The operation ends a miss: a sync whose batch carries the ref, or a purge of the ref. */
  ghost predicate Settles(ix: Index, op: Op, r: Ref) {
    match op
    case Sync(maxEvents, rebuild) =>
      Publishes(ix, maxEvents, rebuild) && r in BatchRefs(ix, SyncBatch(ix, maxEvents, rebuild))
    case Purge(before) => Purged(ix, before, r)
    case _ => false
  }

  lemma {:induction false} StepMisses(ix: Index, op: Op, r: Ref)
    requires Sound(ix)
    ensures Missed(Apply(ix, op), r) <==> (Missed(ix, r) && !Settles(ix, op, r)) || (Late(ix, op) && op.ref == r)
  {
    match op
    case AppendPayload(at, ref, text, checkpoint) =>
      if FreshRef(ix, ref) {
        AppendSound(ix, at, ref, text, checkpoint);
      }
    case Intent(at) => IntentSound(ix, at);
    case Outcome(event, ref, text) =>
      if Records(ix, event, ref) {
        CompleteSound(ix, event, ref, text);
      }
    case Sync(maxEvents, rebuild) =>
      if Publishes(ix, maxEvents, rebuild) {
        SyncMisses(ix, maxEvents, rebuild, r);
      } else {
        SyncIdle(ix, maxEvents, rebuild);
      }
    case BeginCleanup => assert Due(Apply(ix, op), r) <==> Due(ix, r);
    case Purge(before) => PurgeSound(ix, before);
  }

  lemma {:induction false} SyncMisses(ix: Index, maxEvents: int, rebuild: bool, r: Ref)
    requires Sound(ix) && Publishes(ix, maxEvents, rebuild)
    ensures Missed(SyncIndex(ix, maxEvents, rebuild), r) <==>
      Missed(ix, r) && r !in BatchRefs(ix, SyncBatch(ix, maxEvents, rebuild))
  {
    SyncTables(ix, maxEvents, rebuild);
    DueAfterPrefix(ix, SyncFrom(ix, rebuild), SyncEnd(ix, maxEvents, rebuild));
    CarriedGrows(ix, r, ix.through, SyncEnd(ix, maxEvents, rebuild));
    var next := SyncIndex(ix, maxEvents, rebuild);
    assert Due(next, r) <==> r in ix.evidence && ix.evidence[r].available && Carried(ix, r, next.through);
  }

  lemma {:induction false} RunLast(ix: Index, ops: seq<Op>)
    requires ops != []
    ensures Run(ix, ops) == Apply(Run(ix, ops[..|ops| - 1]), ops[|ops| - 1])
    decreases |ops|
  {
    if |ops| == 1 {
      assert ops[..0] == [];
      assert Run(ix, ops) == Run(Apply(ix, ops[0]), ops[1..]) == Apply(ix, ops[0]);
    } else {
      RunLast(Apply(ix, ops[0]), ops[1..]);
      assert ops[..|ops| - 1][1..] == ops[1..][..|ops| - 2];
    }
  }

  /** Operation i was a late outcome with this ref. */
  ghost predicate LostAt(ix: Index, ops: seq<Op>, i: int, r: Ref) {
    0 <= i < |ops| && Late(Run(ix, ops[..i]), ops[i]) && ops[i].ref == r
  }

  ghost predicate SettledAt(ix: Index, ops: seq<Op>, i: int, r: Ref) {
    0 <= i < |ops| && Settles(Run(ix, ops[..i]), ops[i], r)
  }

  /** Some late outcome brought the ref, and nothing has settled it since. */
  ghost predicate LostFor(ix: Index, ops: seq<Op>, r: Ref) {
    exists i :: LostSince(ix, ops, i, r)
  }

  /** After any run, the due refs without a row are exactly those that a late outcome brought and that no later rebuild,
      later indexed event or purge has settled. */
  lemma {:induction false} MissedExactly(fold: string -> string, ops: seq<Op>, r: Ref)
    ensures Missed(Run(Fresh(fold), ops), r) <==> LostFor(Fresh(fold), ops, r)
    decreases |ops|
  {
    if ops != [] {
      var ix, n := Fresh(fold), |ops| - 1;
      var front := ops[..n];
      MissedExactly(fold, front, r);
      RunsStaySound(ix, front);
      RunLast(ix, ops);
      StepMisses(Run(ix, front), ops[n], r);
      LostGrows(ix, ops, r);
    }
  }

  /** So over any run the index agrees with the log exactly when every ref lost to a late outcome has been settled. */
  lemma {:induction false} AgreesExactly(fold: string -> string, ops: seq<Op>)
    ensures Agrees(Run(Fresh(fold), ops)) <==> forall r :: !LostFor(Fresh(fold), ops, r)
  {
    var end := Run(Fresh(fold), ops);
    RunsStaySound(Fresh(fold), ops);
    forall r: Ref ensures (Due(end, r) && r !in end.docs) <==> LostFor(Fresh(fold), ops, r) {
      MissedExactly(fold, ops, r);
    }
  }

  lemma {:induction false} EarlierAgrees(ix: Index, ops: seq<Op>, i: int, r: Ref)
    requires ops != [] && i < |ops| - 1
    ensures LostAt(ix, ops, i, r) <==> LostAt(ix, ops[..|ops| - 1], i, r)
    ensures SettledAt(ix, ops, i, r) <==> SettledAt(ix, ops[..|ops| - 1], i, r)
  {
    if i >= 0 {
      assert ops[..|ops| - 1][..i] == ops[..i];
    }
  }

  /** Lost by operation i and not settled after it. */
  ghost predicate LostSince(ix: Index, ops: seq<Op>, i: int, r: Ref) {
    LostAt(ix, ops, i, r) && forall j :: i < j < |ops| ==> !SettledAt(ix, ops, j, r)
  }

  lemma {:induction false} LostStill(ix: Index, ops: seq<Op>, i: int, r: Ref)
    requires ops != [] && i < |ops| - 1
    ensures LostSince(ix, ops, i, r) <==> LostSince(ix, ops[..|ops| - 1], i, r) && !SettledAt(ix, ops, |ops| - 1, r)
  {
    var n, front := |ops| - 1, ops[..|ops| - 1];
    EarlierAgrees(ix, ops, i, r);
    if LostSince(ix, front, i, r) && !SettledAt(ix, ops, n, r) {
      forall j | i < j < |ops| ensures !SettledAt(ix, ops, j, r) {
        if j < n {
          EarlierAgrees(ix, ops, j, r);
          assert !SettledAt(ix, front, j, r);
        }
      }
    }
    if LostSince(ix, ops, i, r) {
      forall j | i < j < |front| ensures !SettledAt(ix, front, j, r) {
        EarlierAgrees(ix, ops, j, r);
        assert !SettledAt(ix, ops, j, r);
      }
    }
  }

  lemma {:induction false} LostGrows(ix: Index, ops: seq<Op>, r: Ref)
    requires ops != []
    ensures
      var n := |ops| - 1;
      LostFor(ix, ops, r) <==> LostAt(ix, ops, n, r) || (LostFor(ix, ops[..n], r) && !SettledAt(ix, ops, n, r))
  {
    var n := |ops| - 1;
    if LostFor(ix, ops[..n], r) && !SettledAt(ix, ops, n, r) {
      var i :| LostSince(ix, ops[..n], i, r);
      LostStill(ix, ops, i, r);
    }
    if LostFor(ix, ops, r) && !LostAt(ix, ops, n, r) {
      var i :| LostSince(ix, ops, i, r);
      LostStill(ix, ops, i, r);
    }
    if LostAt(ix, ops, n, r) {
      assert LostSince(ix, ops, n, r);
    }
  }

  // ---- What a reader of an older generation may rely on ----

  /** Everything a search at generation g sees of a document. */
  ghost predicate SameView(a: Index, b: Index, r: Ref)
    requires r in a.docs && r in b.docs && r in a.evidence && r in b.evidence
  {
    && b.docs[r].(last := a.docs[r].last) == a.docs[r]
    && b.evidence[r] == a.evidence[r]
  }

  /** No operation but a purge takes a document away, changes what a reader sees of it, or adds one that belongs to an
      already published generation. A purge only takes documents away. */
  lemma DocumentsAreStable(ix: Index, op: Op)
    requires Sound(ix)
    ensures
      var next := Apply(ix, op);
      && next.fold == ix.fold
      && (op.Purge? ==> next.docs.Keys <= ix.docs.Keys)
      && (!op.Purge? ==> ix.docs.Keys <= next.docs.Keys)
      && (forall r <- ix.docs.Keys * next.docs.Keys :: r in ix.evidence && r in next.evidence && SameView(ix, next, r))
      && (forall r <- next.docs.Keys - ix.docs.Keys :: next.docs[r].first > Published(ix))
  {
    StepSound(ix, op);
    if op.Sync? {
      if Publishes(ix, op.maxEvents, op.rebuild) {
        SyncSpec(ix, op.maxEvents, op.rebuild);
      } else {
        SyncIdle(ix, op.maxEvents, op.rebuild);
      }
    }
  }

  // ---- The tables as one transaction changes them ----

  class RepositoryTables {
    const fold: string -> string
    var evidence: map<Ref, Evidence>
    var events: seq<Event>
    var docs: map<Ref, Doc>
    var fts: seq<FtsRow>
    var generation: Option<nat>
    var generations: nat
    var through: nat
    var cursorEpoch: nat

    ghost function Abstract(): Index
      reads this
    {
      Index(fold, evidence, events, docs, fts, generation, generations, through, cursorEpoch)
    }

    constructor (fold: string -> string)
      ensures Abstract() == Fresh(fold)
    {
      this.fold := fold;
      evidence, events, docs, fts := map[], [], map[], [];
      generation, generations, through, cursorEpoch := None, 0, 0, 0;
    }

    /** One round of the indexing loop. */
    method IndexOne(event: Event, id: nat)
      modifies this`docs, this`fts
      ensures Abstract() == IndexEvent(old(Abstract()), event, id)
    {
      if event.payload.None? || event.payload.value !in evidence || !evidence[event.payload.value].available {
        return;
      }
      var ref := event.payload.value;
      if ref in docs {
        docs := docs[ref := docs[ref].(last := id)];
      } else {
        docs := docs[ref := Doc(if evidence[ref].checkpoint then Checkpoint else History, event.acceptedAt, id, id)];
      }
      fts := WithoutRef(fts, ref);
      fts := fts + [FtsRow(ref, fold(evidence[ref].text))];
    }

    method SyncEvents(maxEvents: int, rebuild: bool) returns (ok: bool)
      modifies this
      ensures Abstract() == SyncIndex(old(Abstract()), maxEvents, rebuild)
      ensures ok <==> 1 <= maxEvents <= 10000 && (rebuild ==> |old(events)| <= maxEvents)
    {
      if maxEvents < 1 || maxEvents > MAX_SYNC_EVENTS {
        return false;
      }
      if !rebuild && generation.Some? && through >= |events| {
        return true;
      }
      if rebuild && |events| > maxEvents {
        return false;
      }
      var from := if rebuild then 0 else if through > |events| then |events| else through;
      var end := if from + maxEvents < |events| then from + maxEvents else |events|;
      var batch := events[from..end];
      var id := generations + 1;
      if rebuild {
        fts := [];
      }
      ghost var base := Abstract();
      for k := 0 to |batch|
        invariant Abstract() == IndexEvents(base, batch[..k], id)
      {
        assert batch[..k + 1][..k] == batch[..k];
        IndexOne(batch[k], id);
      }
      assert batch[..|batch|] == batch;
      assert Abstract() == IndexEvents(base, batch, id);
      IndexEventsFrame(base, batch, id);
      generation, generations := Some(id), id;
      if batch != [] {
        through := end;
      }
      ok := true;
    }
  }

  lemma {:induction false} IndexEventsFrame(ix: Index, batch: seq<Event>, generation: nat)
    ensures IndexEvents(ix, batch, generation).(docs := ix.docs, fts := ix.fts) == ix
    decreases |batch|
  {
    if batch != [] {
      IndexEventsFrame(ix, batch[..|batch| - 1], generation);
    }
  }
}
