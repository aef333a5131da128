/** What holds in every run of the lease protocol. */
module LeaseProtocol {
  import opened Prelude
  import opened Leases
  import opened LeaseWorld
  import opened LeaseSteps

  // ---- Inserting a lease and committing ----

  /** A holder with a row is among the rows that an admission's reconcile has kept. */
  lemma HolderIsKept(w: World, j: nat)
    requires Inv(w) && InStage(w) && w.lock.value.stage.Admitting? && j < |w.repos|
    requires w.repos[j].active.Some? && w.repos[j].active.value in Listed(w)
    ensures var l := w.granted[w.repos[j].active.value]; l in View(w).registry.leases && l.repo == j
  {
    var (rows, id) := (View(w).registry.leases, w.repos[j].active.value);
    assert RepoOk(j, w.repos[j], w.granted);
    forall l | (l in rows || l in w.registry.leases) && l.id == id ensures l == w.granted[id] && l in rows {
      assert Known(l, w.granted);
    }
  }

  lemma {:induction false} InsertItem(w: World, id: Reservation, overhead: Overhead, now: int, j: nat)
    requires Inv(w) && MayInsert(w, id, overhead) && j < |w.repos|
    ensures
      var (w', k) := (InsertRow(w, id, now), w.lock.value.stage.repo);
      && |w'.repos| == |w.repos|
      && (j == k ==> Item(w'.repos[j], w'.granted, Listed(w')) <= w.repos[j].bytes + w.lock.value.stage.allocation)
      && (j != k ==> Item(w'.repos[j], w'.granted, Listed(w')) <= Item(w.repos[j], w.granted, Listed(w)))
      && (j != k ==> Item(w'.repos[j], w'.granted, Listed(w')) <= w.repos[j].bytes + Pending(View(w).registry.leases, OfRepo(j)))
  {
    var w' := InsertRow(w, id, now);
    assert RepoOk(j, w.repos[j], w.granted);
    assert Listed(w') <= Listed(w) + {id};
    if j != w.lock.value.stage.repo && w.repos[j].active.Some? && w.repos[j].active.value in Listed(w') {
      assert w.repos[j].active.value != id;
      HolderIsKept(w, j);
      AllocationIsPending(View(w).registry.leases, w.granted[w.repos[j].active.value]);
    }
  }

  lemma InsertKeepsQuota(w: World, id: Reservation, overhead: Overhead, now: int)
    requires Inv(w) && MayInsert(w, id, overhead)
    ensures QuotaOk(InsertRow(w, id, now))
  {
    var (w', k, owners) := (InsertRow(w, id, now), w.lock.value.stage.repo, w.registry.owners);
    forall j: nat | j < |w.repos|
      ensures Item(w'.repos[j], w'.granted, Listed(w')) <=
        w.repos[j].bytes + Pending(View(w).registry.leases, OfRepo(j)) + if j == k then w.lock.value.stage.allocation else 0
      ensures j != k ==> Item(w'.repos[j], w'.granted, Listed(w')) <= Item(w.repos[j], w.granted, Listed(w))
    {
      InsertItem(w, id, overhead, now, j);
    }
    RowsAreOwnedRight(w);
    forall scope: Scope ensures WithinCap(w', scope) {
      assert WithinCap(w, scope);
      if Covers(scope, k, owners[k]) {
        ChargedIsBounded(w'.repos, owners, w'.granted, Listed(w'), scope, |owners|, View(w).registry.leases, w.repos, k, w.lock.value.stage.allocation);
        PendingIsByRepo(View(w).registry.leases, owners, scope);
        assert FitsIn(w.policy, View(w), scope, w.lock.value.stage.allocation, overhead);
      } else {
        ChargedFalls(w.repos, w.granted, Listed(w), w'.repos, w'.granted, Listed(w'), owners, scope, |w.repos|);
      }
    }
  }

  lemma InsertKeepsInv(w: World, id: Reservation, overhead: Overhead, now: int)
    requires Inv(w) && MayInsert(w, id, overhead)
    ensures Inv(InsertRow(w, id, now))
  {
    InsertKeepsCore(w, id, overhead, now);
    InsertKeepsRows(w, id, overhead, now);
    InsertKeepsQuota(w, id, overhead, now);
    InsertKeepsHistory(w, id, overhead, now);
    InsertIsRecorded(w, id, overhead, now);
  }

  lemma CommitKeepsQuota(w: World, k: nat, bytes: nat, now: int)
    requires Inv(w) && MayCommitHeld(w, k, bytes, now)
    ensures QuotaOk(CommitEvidence(w, k, bytes))
  {
    var row := RowOfCommit(w, k, bytes, now);
    assert row.id in Ids(View(w).registry.leases);
    QuotaKept(w, CommitEvidence(w, k, bytes));
  }

  lemma CommitKeepsInv(w: World, k: nat, bytes: nat, now: int)
    requires Inv(w) && MayCommitHeld(w, k, bytes, now)
    ensures Inv(CommitEvidence(w, k, bytes))
  {
    CommitKeepsCore(w, k, bytes, now);
    CommitKeepsQuota(w, k, bytes, now);
    CommitKeepsHistory(w, k, bytes, now);
    CommitIsRecorded(w, k, bytes, now);
  }

  // ---- Runs ----

  lemma InvKept(w: World, step: Step)
    requires Inv(w) && Enabled(w, step)
    ensures Inv(Do(w, step))
  {
    match step
    case Examine(now, alive) => ExamineKeepsInv(w, now, alive);
    case Insert(id, overhead, now) => InsertKeepsInv(w, id, overhead, now);
    case CommitRepository(k, bytes, now) => CommitKeepsInv(w, k, bytes, now);
    case Purge(k, bytes) => PurgeKeepsInv(w, k, bytes);
    case _ => QuietKeepsInv(w, step);
  }

  lemma {:induction false} InvAlongRun(w: World, steps: seq<Step>)
    requires Inv(w) && Possible(w, steps)
    ensures Inv(After(w, steps))
    decreases |steps|
  {
    if steps != [] {
      InvKept(w, steps[0]);
      InvAlongRun(Do(w, steps[0]), steps[1..]);
    }
  }

  // ---- Fencing ----

  /** Reservations of one repository have different epochs. */
  lemma EpochNamesTheLease(w: World, l: Lease, m: Lease)
    requires Inv(w) && Known(l, w.granted) && Known(m, w.granted) && l.repo == m.repo && l.epoch == m.epoch
    ensures l == m
  {
    assert w.granted[l.id] == l && w.granted[m.id] == m;
    var h := w.history;
    forall a, b | 0 <= a < b < |h| && h[a].Granting? && h[b].Granting? && h[a].lease.repo == h[b].lease.repo
      ensures h[a].lease.epoch < h[b].lease.epoch
    {
      assert MayPrecede(h[a], h[b]);
    }
    var a :| 0 <= a < |h| && h[a] == Granting(l);
    var b :| 0 <= b < |h| && h[b] == Granting(m);
  }

  /** No commit follows a revocation of its reservation, its own commit, or any later admission to its repository. */
  lemma NoStaleCommit(w: World, steps: seq<Step>, i: nat, j: nat)
    requires Initial(w) && Possible(w, steps) && i < j < |After(w, steps).history|
    requires After(w, steps).history[j].Committing?
    ensures
      var (history, l) := (After(w, steps).history, After(w, steps).history[j].lease);
      && history[i] != Revoking(l) && history[i] != Committing(l)
      && (forall a :: 0 <= a < i && history[a] == Granting(l) && history[i].Granting? ==> history[i].lease.repo != l.repo)
      && exists a :: 0 <= a < j && history[a] == Granting(l)
  {
    InitialInv(w);
    InvAlongRun(w, steps);
    var (h, l) := (After(w, steps).history, After(w, steps).history[j].lease);
    NothingStaleBefore(After(w, steps), i, j);
    AdmittedBefore(After(w, steps), j);
    forall a | 0 <= a < i && h[a] == Granting(l) && h[i].Granting? ensures h[i].lease.repo != l.repo {
      assert h[i].lease.repo == l.repo ==> MayPrecede(h[a], h[i]);
    }
  }

  /** The gate opens for a lease exactly when its row is live, its owner is active, the last thing that happened to its
      repository is its own admission, and it has not committed. */
  lemma GateIsExact(w: World, l: Lease, k: nat, now: int)
    requires Inv(w) && l in View(w).registry.leases && k < |w.repos|
    ensures MayCommit(View(w), k, l.id, Some(l.epoch), now) <==>
      && now < l.expiresAt && CanOpen(View(w), l) && l.repo == k
      && Latest(w.history, k) == Some(Granting(l)) && LastCommit(w.history, k) != Some(l)
  {
    assert Known(l, w.granted) && GrantOk(l.id, w.granted[l.id], w.registry.owners, w.repos);
    var row := Find(View(w).registry.leases, l.id);
    assert row == Some(l) by {
      assert Known(row.value, w.granted);
    }
    assert RepoMatches(k, w.repos[k], w.history) && RepoOk(k, w.repos[k], w.granted);
    var (latest, commit) := (Latest(w.history, k), LastCommit(w.history, k));
    LatestAreEvents(w.history, k);
    if latest.Some? {
      assert EventOk(latest.value, w.granted, w.repos);
    }
    if commit.Some? {
      assert EventOk(Committing(commit.value), w.granted, w.repos);
      if l.repo == k && commit.value.epoch == l.epoch {
        EpochNamesTheLease(w, l, commit.value);
      }
    }
  }

  /** Once a reservation is revoked, superseded or committed, no commit is accepted under its id, whoever asks. */
  lemma GateStaysClosed(w: World, l: Lease, e: Event, k: nat, cached: Option<nat>, now: int)
    requires Inv(w) && Known(l, w.granted) && k < |w.repos| && e in w.history
    requires e == Revoking(l) || e == Committing(l) || (e.Granting? && e.lease.repo == l.repo && l.epoch < e.lease.epoch)
    ensures !MayCommit(View(w), k, l.id, cached, now)
  {
    assert EventOk(e, w.granted, w.repos);
    var row := Find(View(w).registry.leases, l.id);
    if row.Some? {
      assert Known(row.value, w.granted);
      assert RepoOk(l.repo, w.repos[l.repo], w.granted);
    }
  }

  // ---- Single writer and epochs ----

  /** One writer per repository; the watermark is at most the epoch. */
  lemma SingleWriterAlways(w: World, steps: seq<Step>)
    requires Initial(w) && Possible(w, steps)
    ensures
      var after := After(w, steps);
      && SingleWriter(after.registry.leases) && SingleWriter(View(after).registry.leases)
      && forall k :: 0 <= k < |after.repos| ==> after.repos[k].lastCommitted <= after.repos[k].epoch
  {
    InitialInv(w);
    InvAlongRun(w, steps);
    var after := After(w, steps);
    forall k: nat | k < |after.repos| ensures after.repos[k].lastCommitted <= after.repos[k].epoch {
      assert RepoOk(k, after.repos[k], after.granted);
    }
  }

  lemma StepRaises(w: World, step: Step, k: nat)
    requires Inv(w) && Enabled(w, step) && k < |w.repos|
    ensures var w' := Do(w, step); |w'.repos| == |w.repos| && Later(w.repos[k], w'.repos[k])
    ensures
      var (db, db') := (w.repos[k], Do(w, step).repos[k]);
      if step.CommitRepository? && step.repo == k
      then db.lastCommitted < db'.lastCommitted == db'.epoch == db.epoch
      else db'.lastCommitted == db.lastCommitted && (db'.active != db.active ==> db.epoch < db'.epoch)
    ensures
      var (db, db') := (w.repos[k], Do(w, step).repos[k]);
      if step.CommitRepository? && step.repo == k then db' == RepoDb(step.bytes, db.epoch, db.active, db.epoch, db.active)
      else if step.Purge? && step.repo == k then db' == db.(bytes := step.bytes)
      else db' == db.(epoch := db'.epoch, active := db'.active) && db.epoch <= db'.epoch <= db.epoch + 1
  {
    if step.CommitRepository? {
      var row := RowOfCommit(w, step.repo, step.bytes, step.now);
    } else if Quiet(step) {
      QuietStep(w, step);
    }
  }

  lemma {:induction false} EpochsRise(w: World, steps: seq<Step>)
    requires Inv(w) && Possible(w, steps)
    ensures AllLater(w.repos, After(w, steps).repos)
    decreases |steps|
  {
    if steps != [] {
      forall k: nat | k < |w.repos| ensures |Do(w, steps[0]).repos| == |w.repos| && Later(w.repos[k], Do(w, steps[0]).repos[k]) {
        StepRaises(w, steps[0], k);
      }
      StepLength(w, steps[0]);
      InvKept(w, steps[0]);
      EpochsRise(Do(w, steps[0]), steps[1..]);
    }
  }

  // ---- Quota over runs ----

  /** Committed bytes with the open allocations stay within every cap, whatever crashes. */
  lemma QuotaAlways(w: World, steps: seq<Step>, scope: Scope)
    requires Initial(w) && Possible(w, steps)
    ensures |After(w, steps).registry.owners| == |After(w, steps).repos|
    ensures ChargedTo(After(w, steps), scope) <= if Cap(w.policy, scope) < 0 then 0 else Cap(w.policy, scope)
  {
    InitialInv(w);
    InvAlongRun(w, steps);
    SamePolicy(w, steps);
    assert WithinCap(After(w, steps), scope);
  }

  /** An uninterrupted sweep is one reconcile. */
  lemma {:induction false} SweepIsReconcile(w: World, now: Clock, alive: nat -> bool)
    requires WellFormed(w) && InStage(w) && w.lock.value.stage.Sweeping?
    requires ReapAll(View(w), w.lock.value.stage.todo, now, w.processes[w.lock.value.process].host, alive).1
    ensures
      var (todo, host) := (w.lock.value.stage.todo, w.processes[w.lock.value.process].host);
      var steps := SweepSteps(todo, now, alive);
      && Possible(w, steps)
      && Stores(After(w, steps).registry, After(w, steps).repos) == Tally(ReapAll(View(w), todo, now, host, alive).0)
      && After(w, steps).lock == None
    decreases |w.lock.value.stage.todo|
  {
    var (todo, host) := (w.lock.value.stage.todo, w.processes[w.lock.value.process].host);
    var steps := SweepSteps(todo, now, alive);
    if todo == [] {
      var w' := Do(w, FinishReconcile);
      assert steps[1..] == [];
      assert After(w, steps) == After(w', []) == w';
    } else {
      var step := Examine(now(todo[0].id), alive(todo[0].pid));
      var w' := Do(w, step);
      assert steps[0] == step && steps[1..] == SweepSteps(todo[1..], now, alive);
      SweepIsReconcile(w', now, alive);
    }
  }

  /** From any reachable world with the lock free, so after a crash at any step, an idle process can sweep; and what it
      commits is recovered: usage equals the bytes, no lease is expired or of a dead process, no epoch is lower. */
  lemma AnyIdleProcessRecovers(w: World, p: nat, now: Clock, alive: nat -> bool)
    requires Inv(w) && Unlocked(w, p, Idle)
    requires Unstopped(View(w), w.registry.leases, now, w.processes[p].host, alive)
    ensures
      var steps := [BeginSweep(p)] + SweepSteps(w.registry.leases, now, alive);
      && Possible(w, steps)
      && var after := After(w, steps);
         && Inv(after) && after.lock == None
         && Recovered(Stores(after.registry, after.repos), now, w.processes[p].host, alive)
         && after.registry.leases == Live(w.registry.leases, now, w.processes[p].host, alive)
         && AllBumped(w.repos, after.repos)
  {
    var host := w.processes[p].host;
    var steps := [BeginSweep(p)] + SweepSteps(w.registry.leases, now, alive);
    var w' := Do(w, BeginSweep(p));
    assert steps[0] == BeginSweep(p) && steps[1..] == SweepSteps(w.registry.leases, now, alive);
    RowsAreKeyed(w);
    Recovery(View(w), now, host, alive);
    SweepIsReconcile(w', now, alive);
    InvAlongRun(w, steps);
  }

  // ---- A lease that outlives its owner ----

  function FirstWorld(): World {
    World(Policy(100, 100, 100, 0), Registry([], [1], [0], [0], Some(1)), [RepoDb(0, 0, None, 0, None)],
          [Process(3, 7, Idle)], None, map[], [])
  }

  lemma {:induction false} OneStep(w: World, step: Step, rest: seq<Step>)
    requires WellFormed(w) && Enabled(w, step) && Possible(Do(w, step), rest)
    ensures Possible(w, [step] + rest) && After(w, [step] + rest) == After(Do(w, step), rest)
  {
    assert ([step] + rest)[1..] == rest;
  }

  const FirstLease := Lease(0, 0, 1, 7, 3, LEASE_MILLISECONDS, 10, 1)

  /** The lease is in the open transaction, and the epoch bump in the repository. */
  function InsertedWorld(): World {
    World(Policy(100, 100, 100, 0), Registry([], [1], [0], [0], Some(1)), [RepoDb(0, 1, Some(0), 0, None)],
          [Process(3, 7, Idle)], Some(Transaction(0, Registry([FirstLease], [1], [0], [1], Some(1)), Inserted(FirstLease))),
          map[0 := FirstLease], [Granting(FirstLease)])
  }

  lemma {:induction false} FirstLeaseFits()
    ensures
      var (w, step) := (Do(FirstWorld(), BeginAdmission(0, 0, 10)), Step.Insert(0, Overhead(0, 0, 0), 0));
      WellFormed(w) && Enabled(w, step) && Do(w, step) == InsertedWorld()
  {
    var s := View(FirstWorld());
    forall scope: Scope ensures Used(s.repos, s.registry.owners, scope, 1) == 0 {
      assert Used(s.repos, s.registry.owners, scope, 0) == 0;
    }
    var w := Do(FirstWorld(), BeginAdmission(0, 0, 10));
    assert Tally(View(w)).registry.usage == [0];
    var next := InsertRow(w, 0, 0);
    assert next.repos == [RepoDb(0, 1, Some(0), 0, None)];
    assert next.lock.value.registry.leases == [FirstLease];
    assert next.lock.value.registry.epochs == [1];
    assert next.lock.value.registry == Registry([FirstLease], [1], [0], [1], Some(1));
    assert next.history == [Granting(FirstLease)];
    assert Do(w, Step.Insert(0, Overhead(0, 0, 0), 0)) == next;
  }

  lemma {:induction false} CrashAndSwitch()
    ensures
      var w := InsertedWorld();
      var steps := [CommitAdmission, Crash(0), ActivateOwner(2)];
      && Possible(w, steps)
      && After(w, steps).lock == None && View(After(w, steps)) == SealedLease()
  {
    var c := InsertedWorld();
    var d := Do(c, CommitAdmission);
    var e := Do(d, Crash(0));
    OneStep(e, ActivateOwner(2), []);
    OneStep(d, Crash(0), [ActivateOwner(2)]);
    OneStep(c, CommitAdmission, [Crash(0), ActivateOwner(2)]);
    assert [ActivateOwner(2)] + [] == [ActivateOwner(2)];
    assert [Crash(0)] + [ActivateOwner(2)] == [Crash(0), ActivateOwner(2)];
    assert [CommitAdmission] + [Crash(0), ActivateOwner(2)] == [CommitAdmission, Crash(0), ActivateOwner(2)];
  }

  /** A process is admitted and crashes, and then another owner is activated: from there on every reconcile fails once the
      lease has expired. */
  lemma {:induction false} SealedLeaseIsReached(now: Clock, alive: nat -> bool)
    requires now(0) >= LEASE_MILLISECONDS
    ensures
      var steps :=
        [BeginAdmission(0, 0, 10)] + ([Step.Insert(0, Overhead(0, 0, 0), 0)] + [CommitAdmission, Crash(0), ActivateOwner(2)]);
      && Initial(FirstWorld()) && Possible(FirstWorld(), steps)
      && var after := After(FirstWorld(), steps);
         after.lock == None && View(after) == SealedLease() && !Reconcile(View(after), now, 3, alive).1
  {
    var a := FirstWorld();
    var b := Do(a, BeginAdmission(0, 0, 10));
    var rest := [CommitAdmission, Crash(0), ActivateOwner(2)];
    FirstLeaseFits();
    CrashAndSwitch();
    OneStep(b, Step.Insert(0, Overhead(0, 0, 0), 0), rest);
    OneStep(a, BeginAdmission(0, 0, 10), [Step.Insert(0, Overhead(0, 0, 0), 0)] + rest);
    SealedLeaseBlocks(now, alive);
  }
}
