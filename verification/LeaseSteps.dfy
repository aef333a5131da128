/** Lemmas about single steps. Most steps only rearrange registry rows; four touch a repository: examining a row, inserting
    a lease, committing evidence and purging. Each part of the invariant is kept by each of these separately: the rows, the
    grants and repositories, the quota, and the history. The quota argument goes repository by repository: what one counts
    for never rises, except where a lease is inserted, and there the admission test bounds the sum. */
module LeaseSteps {
  import opened Prelude
  import opened Leases
  import opened LeaseWorld

  lemma FencedAppend(history: seq<Event>, e: Event)
    requires Fenced(history) && forall f <- history :: f.lease.repo == e.lease.repo ==> MayPrecede(f, e)
    ensures Fenced(history + [e])
  {
  }

  lemma Appended(history: seq<Event>, e: Event, k: nat)
    ensures Latest(history + [e], k) == if e.lease.repo == k && !e.Committing? then Some(e) else Latest(history, k)
    ensures LastCommit(history + [e], k) == if e.lease.repo == k && e.Committing? then Some(e.lease) else LastCommit(history, k)
  {
    assert (history + [e])[..|history|] == history;
  }

  lemma QuietStep(w: World, step: Step)
    requires WellFormed(w) && Enabled(w, step) && Quiet(step)
    ensures WellFormed(Do(w, step)) && SameRepositories(w, Do(w, step))
  {
  }

  lemma QuietRows(w: World, step: Step)
    requires Inv(w) && Enabled(w, step) && Quiet(step)
    ensures RowsOk(Do(w, step)) && Listed(Do(w, step)) <= Listed(w)
  {
    if step.FinishAction? {
      WithoutKeepsSingleWriter(w.lock.value.registry.leases, w.lock.value.stage.lease.id);
    }
    if step.DropOwn? {
      WithoutKeepsSingleWriter(w.registry.leases, w.processes[step.process].activity.id);
    }
  }

  lemma QuietKeepsInv(w: World, step: Step)
    requires Inv(w) && Enabled(w, step) && Quiet(step)
    ensures Inv(Do(w, step))
  {
    QuietStep(w, step);
    QuietRows(w, step);
    QuotaStays(w, Do(w, step));
    EventsStay(w, Do(w, step));
  }

  lemma EventsStay(w: World, w': World)
    requires SameRepositories(w, w')
    ensures EventsOk(w) ==> EventsOk(w')
  {
  }

  lemma QuotaStays(w: World, w': World)
    requires SameRepositories(w, w') && |w.registry.owners| == |w.repos| && QuotaOk(w) && Listed(w') <= Listed(w)
    ensures QuotaOk(w')
  {
    QuotaKept(w, w');
  }

  lemma {:induction false} ChargedFalls(
    before: seq<RepoDb>, granted: map<Reservation, Lease>, listed: set<Reservation>,
    after: seq<RepoDb>, granted': map<Reservation, Lease>, listed': set<Reservation>,
    owners: seq<Owner>, scope: Scope, n: nat)
    requires n <= |before| == |after| && n <= |owners|
    requires forall k :: 0 <= k < n && Covers(scope, k, owners[k]) ==>
      Item(after[k], granted', listed') <= Item(before[k], granted, listed)
    ensures Charged(after, owners, granted', listed', scope, n) <= Charged(before, owners, granted, listed, scope, n)
  {
    if n > 0 {
      ChargedFalls(before, granted, listed, after, granted', listed', owners, scope, n - 1);
    }
  }

  /** No repository counts for more, so every cap still holds. */
  lemma QuotaKept(w: World, w': World)
    requires |w.registry.owners| == |w.repos| == |w'.repos| && QuotaOk(w)
    requires w'.policy == w.policy && w'.registry.owners == w.registry.owners
    requires forall k :: 0 <= k < |w.repos| ==>
      Item(w'.repos[k], w'.granted, Listed(w')) <= Item(w.repos[k], w.granted, Listed(w))
    ensures QuotaOk(w')
  {
    forall scope: Scope ensures WithinCap(w', scope) {
      assert WithinCap(w, scope);
      ChargedFalls(w.repos, w.granted, Listed(w), w'.repos, w'.granted, Listed(w'), w.registry.owners, scope, |w.repos|);
    }
  }

  lemma {:induction false} AllocationIsPending(leases: seq<Lease>, l: Lease)
    requires l in leases
    ensures l.allocation <= Pending(leases, OfRepo(l.repo))
  {
    if leases[0] != l {
      AllocationIsPending(leases[1..], l);
    }
  }

  /** Adding one lease adds its allocation once it is within the first n. */
  lemma {:induction false} PendingByRepoSplits(leases: seq<Lease>, owners: seq<Owner>, scope: Scope, n: nat)
    requires n <= |owners| && leases != [] && OwnedRight(leases, owners)
    ensures PendingByRepo(leases, owners, scope, n) ==
      PendingByRepo(leases[1..], owners, scope, n)
      + if leases[0].repo < n && Covers(scope, leases[0].repo, leases[0].owner) then leases[0].allocation else 0
  {
    if n > 0 {
      PendingByRepoSplits(leases, owners, scope, n - 1);
    }
  }

  lemma {:induction false} PendingIsByRepo(leases: seq<Lease>, owners: seq<Owner>, scope: Scope)
    requires OwnedRight(leases, owners)
    ensures PendingByRepo(leases, owners, scope, |owners|) == Pending(leases, scope)
  {
    if leases == [] {
      NothingPending(owners, scope, |owners|);
    } else {
      PendingIsByRepo(leases[1..], owners, scope);
      PendingByRepoSplits(leases, owners, scope, |owners|);
    }
  }

  lemma {:induction false} NothingPending(owners: seq<Owner>, scope: Scope, n: nat)
    requires n <= |owners|
    ensures PendingByRepo([], owners, scope, n) == 0
  {
    if n > 0 {
      NothingPending(owners, scope, n - 1);
    }
  }

  /** The open allocations are among the pending ones, except that of the newcomer k. */
  lemma {:induction false} ChargedIsBounded(
    repos: seq<RepoDb>, owners: seq<Owner>, granted: map<Reservation, Lease>, listed: set<Reservation>, scope: Scope,
    n: nat, leases: seq<Lease>, base: seq<RepoDb>, k: nat, allocation: nat)
    requires n <= |repos| == |owners| == |base|
    requires forall j :: 0 <= j < n ==>
      Item(repos[j], granted, listed) <= base[j].bytes + Pending(leases, OfRepo(j)) + if j == k then allocation else 0
    ensures Charged(repos, owners, granted, listed, scope, n) <=
      Used(base, owners, scope, n) + PendingByRepo(leases, owners, scope, n) + if k < n then allocation else 0
  {
    if n > 0 {
      ChargedIsBounded(repos, owners, granted, listed, scope, n - 1, leases, base, k, allocation);
    }
  }

  lemma RowsAreOwnedRight(w: World)
    requires Inv(w)
    ensures OwnedRight(View(w).registry.leases, w.registry.owners)
  {
    forall l | l in View(w).registry.leases ensures l.repo < |w.registry.owners| && l.owner == w.registry.owners[l.repo] {
      assert Known(l, w.granted);
      assert GrantOk(l.id, w.granted[l.id], w.registry.owners, w.repos);
    }
  }

  lemma InsertKeepsRows(w: World, id: Reservation, overhead: Overhead, now: int)
    requires Inv(w) && MayInsert(w, id, overhead)
    ensures RowsOk(InsertRow(w, id, now))
  {
    var w' := InsertRow(w, id, now);
    var l := w'.lock.value.stage.lease;
    AppendKeeps(View(w).registry.leases, l);
    forall m: Lease | Known(m, w.granted) ensures Known(m, w'.granted) {
    }
  }

  lemma InsertKeepsCore(w: World, id: Reservation, overhead: Overhead, now: int)
    requires Inv(w) && MayInsert(w, id, overhead)
    ensures WellFormed(InsertRow(w, id, now))
    ensures var w' := InsertRow(w, id, now); GrantsOk(w'.granted, w'.registry.owners, w'.repos) && ReposOk(w'.repos, w'.granted)
  {
    var (w', k) := (InsertRow(w, id, now), w.lock.value.stage.repo);
    forall j: nat | j < |w'.repos| ensures RepoOk(j, w'.repos[j], w'.granted) {
      assert RepoOk(j, w.repos[j], w.granted);
    }
    forall r: Reservation | r in w'.granted ensures GrantOk(r, w'.granted[r], w'.registry.owners, w'.repos) {
      if r != id {
        assert GrantOk(r, w.granted[r], w.registry.owners, w.repos);
      }
    }
  }

  lemma InsertKeepsHistory(w: World, id: Reservation, overhead: Overhead, now: int)
    requires Inv(w) && MayInsert(w, id, overhead)
    ensures EventsOk(InsertRow(w, id, now)) && Fenced(InsertRow(w, id, now).history)
  {
    var w' := InsertRow(w, id, now);
    var l := w'.lock.value.stage.lease;
    assert RepoOk(l.repo, w.repos[l.repo], w.granted);
    forall e | e in w.history
      ensures EventOk(e, w'.granted, w'.repos)
      ensures e.lease.repo == l.repo ==> MayPrecede(e, Granting(l))
    {
      assert EventOk(e, w.granted, w.repos);
    }
    FencedAppend(w.history, Granting(l));
  }

  lemma InsertIsRecorded(w: World, id: Reservation, overhead: Overhead, now: int)
    requires Inv(w) && MayInsert(w, id, overhead)
    ensures HistoryExact(InsertRow(w, id, now))
  {
    var w' := InsertRow(w, id, now);
    forall k: nat | k < |w'.repos| ensures RepoMatches(k, w'.repos[k], w'.history) {
      assert RepoMatches(k, w.repos[k], w.history);
      Appended(w.history, Granting(w'.lock.value.stage.lease), k);
    }
  }

  // ---- Examine ----

  lemma ExamineKeepsRows(w: World, now: int, alive: bool)
    requires Inv(w) && MayExamine(w, now, alive)
    ensures RowsOk(ExamineFirst(w, now, alive)) && Listed(ExamineFirst(w, now, alive)) <= Listed(w)
    ensures WellFormed(ExamineFirst(w, now, alive))
  {
    var (w', l) := (ExamineFirst(w, now, alive), w.lock.value.stage.todo[0]);
    assert Known(l, w.granted) && GrantOk(l.id, w.granted[l.id], w.registry.owners, w.repos);
    WithoutKeepsSingleWriter(w.lock.value.registry.leases, l.id);
    if w.lock.value.stage.Admitting? {
      forall m | m in w.registry.leases
        ensures m in View(w').registry.leases || (m.repo < |w'.repos| && w'.repos[m.repo].active != Some(m.id))
      {
        assert Known(m, w.granted);
      }
    }
  }

  lemma ExamineKeepsCore(w: World, now: int, alive: bool)
    requires Inv(w) && MayExamine(w, now, alive)
    ensures var w' := ExamineFirst(w, now, alive); GrantsOk(w'.granted, w'.registry.owners, w'.repos) && ReposOk(w'.repos, w'.granted)
  {
    var w' := ExamineFirst(w, now, alive);
    forall j: nat | j < |w'.repos| ensures RepoOk(j, w'.repos[j], w'.granted) {
      assert RepoOk(j, w.repos[j], w.granted);
    }
    forall r: Reservation | r in w'.granted ensures GrantOk(r, w'.granted[r], w'.registry.owners, w'.repos) {
      assert GrantOk(r, w.granted[r], w.registry.owners, w.repos);
    }
  }

  lemma ExamineKeepsHistory(w: World, now: int, alive: bool)
    requires Inv(w) && MayExamine(w, now, alive)
    ensures EventsOk(ExamineFirst(w, now, alive)) && Fenced(ExamineFirst(w, now, alive).history)
  {
    var (w', l) := (ExamineFirst(w, now, alive), w.lock.value.stage.todo[0]);
    assert Known(l, w.granted) && GrantOk(l.id, w.granted[l.id], w.registry.owners, w.repos);
    forall e | e in w.history ensures EventOk(e, w'.granted, w'.repos) {
      assert EventOk(e, w.granted, w.repos);
    }
  }

  lemma ExamineIsRecorded(w: World, now: int, alive: bool)
    requires Inv(w) && MayExamine(w, now, alive)
    ensures HistoryExact(ExamineFirst(w, now, alive))
  {
    var w' := ExamineFirst(w, now, alive);
    forall k: nat | k < |w'.repos| ensures RepoMatches(k, w'.repos[k], w'.history) {
      assert RepoMatches(k, w.repos[k], w.history);
      Appended(w.history, Revoking(w.lock.value.stage.todo[0]), k);
    }
  }

  lemma ExamineKeepsInv(w: World, now: int, alive: bool)
    requires Inv(w) && MayExamine(w, now, alive)
    ensures Inv(ExamineFirst(w, now, alive))
  {
    ExamineKeepsRows(w, now, alive);
    ExamineKeepsCore(w, now, alive);
    ExamineKeepsHistory(w, now, alive);
    ExamineIsRecorded(w, now, alive);
    QuotaKept(w, ExamineFirst(w, now, alive));
  }

  // ---- The commit ----

  lemma RowOfCommit(w: World, k: nat, bytes: nat, now: int) returns (row: Lease)
    requires Inv(w) && MayCommitHeld(w, k, bytes, now)
    ensures Find(View(w).registry.leases, w.lock.value.stage.lease.id) == Some(row)
    ensures row in View(w).registry.leases && Known(row, w.granted) && GrantOk(row.id, row, w.registry.owners, w.repos)
    ensures row.repo == k && row.epoch == w.repos[k].epoch && w.repos[k].active == Some(row.id)
    ensures w.repos[k].lastCommitted < row.epoch && bytes <= w.repos[k].bytes + row.allocation
  {
    row := Find(View(w).registry.leases, w.lock.value.stage.lease.id).value;
    assert Known(row, w.granted) && GrantOk(row.id, w.granted[row.id], w.registry.owners, w.repos);
  }

  lemma CommitKeepsCore(w: World, k: nat, bytes: nat, now: int)
    requires Inv(w) && MayCommitHeld(w, k, bytes, now)
    ensures var w' := CommitEvidence(w, k, bytes);
      WellFormed(w') && RowsOk(w') && GrantsOk(w'.granted, w'.registry.owners, w'.repos) && ReposOk(w'.repos, w'.granted)
  {
    var w' := CommitEvidence(w, k, bytes);
    var row := RowOfCommit(w, k, bytes, now);
    forall j: nat | j < |w'.repos| ensures RepoOk(j, w'.repos[j], w'.granted) {
      assert RepoOk(j, w.repos[j], w.granted);
    }
    forall r: Reservation | r in w'.granted ensures GrantOk(r, w'.granted[r], w'.registry.owners, w'.repos) {
      assert GrantOk(r, w.granted[r], w.registry.owners, w.repos);
    }
  }

  /** The events so far know the repository's watermark and epoch, so none of them may not precede this commit. */
  lemma CommitKeepsHistory(w: World, k: nat, bytes: nat, now: int)
    requires Inv(w) && MayCommitHeld(w, k, bytes, now)
    ensures EventsOk(CommitEvidence(w, k, bytes)) && Fenced(CommitEvidence(w, k, bytes).history)
  {
    var w' := CommitEvidence(w, k, bytes);
    var row := RowOfCommit(w, k, bytes, now);
    forall e | e in w.history
      ensures EventOk(e, w'.granted, w'.repos)
      ensures e.lease.repo == k ==> MayPrecede(e, Committing(row))
    {
      assert EventOk(e, w.granted, w.repos);
    }
    FencedAppend(w.history, Committing(row));
  }

  lemma CommitIsRecorded(w: World, k: nat, bytes: nat, now: int)
    requires Inv(w) && MayCommitHeld(w, k, bytes, now)
    ensures HistoryExact(CommitEvidence(w, k, bytes))
  {
    var w' := CommitEvidence(w, k, bytes);
    var row := RowOfCommit(w, k, bytes, now);
    forall j: nat | j < |w'.repos| ensures RepoMatches(j, w'.repos[j], w'.history) {
      assert RepoMatches(j, w.repos[j], w.history);
      Appended(w.history, Committing(row), j);
    }
  }

  lemma PurgeKeepsInv(w: World, k: nat, bytes: nat)
    requires Inv(w) && MayPurge(w, k, bytes)
    ensures Inv(PurgeBytes(w, k, bytes))
  {
    var w' := PurgeBytes(w, k, bytes);
    forall j: nat | j < |w'.repos| ensures RepoOk(j, w'.repos[j], w'.granted) {
      assert RepoOk(j, w.repos[j], w.granted);
    }
    forall r: Reservation | r in w'.granted ensures GrantOk(r, w'.granted[r], w'.registry.owners, w'.repos) {
      assert GrantOk(r, w.granted[r], w.registry.owners, w.repos);
    }
    forall e | e in w.history ensures EventOk(e, w'.granted, w'.repos) {
      assert EventOk(e, w.granted, w.repos);
    }
    forall j: nat | j < |w'.repos| ensures RepoMatches(j, w'.repos[j], w'.history) {
      assert RepoMatches(j, w.repos[j], w.history);
    }
    QuotaKept(w, w');
  }

  lemma {:induction false} InitialCharge(w: World, scope: Scope, n: nat)
    requires Initial(w) && n <= |w.repos|
    ensures Charged(w.repos, w.registry.owners, w.granted, Listed(w), scope, n) == 0
  {
    if n > 0 {
      InitialCharge(w, scope, n - 1);
    }
  }

  lemma InitialInv(w: World)
    requires Initial(w)
    ensures Inv(w)
  {
    forall scope: Scope ensures WithinCap(w, scope) {
      InitialCharge(w, scope, |w.repos|);
    }
  }

  lemma NothingStaleBefore(w: World, i: nat, j: nat)
    requires Inv(w) && i < j < |w.history| && w.history[j].Committing?
    ensures var (e, l) := (w.history[i], w.history[j].lease);
      e.lease.repo == l.repo ==> e.lease.epoch < l.epoch || (e.Granting? && e.lease.epoch == l.epoch)
  {
    assert w.history[i].lease.repo == w.history[j].lease.repo ==> MayPrecede(w.history[i], w.history[j]);
  }

  lemma AdmittedBefore(w: World, j: nat)
    requires Inv(w) && j < |w.history| && w.history[j].Committing?
    ensures exists a :: 0 <= a < j && w.history[a] == Granting(w.history[j].lease)
  {
    var l := w.history[j].lease;
    assert EventOk(w.history[j], w.granted, w.repos);
    assert w.granted[l.id] == l;
    var g :| 0 <= g < |w.history| && w.history[g] == Granting(l);
    assert g > j ==> MayPrecede(w.history[j], w.history[g]);
  }

  lemma {:induction false} LatestAreEvents(history: seq<Event>, k: nat)
    ensures Latest(history, k).Some? ==>
      var e := Latest(history, k).value; e in history && e.lease.repo == k && !e.Committing?
    ensures LastCommit(history, k).Some? ==>
      var l := LastCommit(history, k).value; Committing(l) in history && l.repo == k
  {
    if history != [] {
      LatestAreEvents(history[..|history| - 1], k);
    }
  }

  lemma StepLength(w: World, step: Step)
    requires WellFormed(w) && Enabled(w, step)
    ensures |Do(w, step).repos| == |w.repos| && Do(w, step).policy == w.policy
  {
    if Quiet(step) {
      QuietStep(w, step);
    }
  }

  lemma {:induction false} SamePolicy(w: World, steps: seq<Step>)
    requires Possible(w, steps)
    ensures After(w, steps).policy == w.policy
    decreases |steps|
  {
    if steps != [] {
      StepLength(w, steps[0]);
      SamePolicy(Do(w, steps[0]), steps[1..]);
    }
  }

  lemma RowsAreKeyed(w: World)
    requires Inv(w)
    ensures Keyed(w.registry.leases)
  {
    var leases := w.registry.leases;
    forall i, j | 0 <= i < j < |leases| ensures leases[i].id != leases[j].id {
      assert Known(leases[i], w.granted) && Known(leases[j], w.granted);
    }
  }
}
