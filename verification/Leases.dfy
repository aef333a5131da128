/** Quota leases: tables, single transactions and recovery (src/context/store.ts). */
module Leases {
  import opened Prelude

  type Reservation = nat
  type Owner = nat

  const LEASE_MILLISECONDS := 300000

  /** A row of reservations joined with its reservation_epochs row. Repositories are numbered. */
  datatype Lease = Lease(
    id: Reservation, repo: nat, owner: Owner, pid: nat, host: nat, expiresAt: int, allocation: nat, epoch: nat)

  /** The registry tables: leases; the owner, recorded usage and cached epoch of each repository; the active owner. */
  datatype Registry = Registry(
    leases: seq<Lease>, owners: seq<Owner>, usage: seq<nat>, epochs: seq<nat>, activeOwner: Option<Owner>)

  /** One repository file: retained bytes, the authoritative epoch with its reservation, and the committed watermark. */
  datatype RepoDb = RepoDb(bytes: nat, epoch: nat, active: Option<Reservation>, lastCommitted: nat, receipt: Option<Reservation>)

  /** What a process sees under the registry lock: its registry transaction and the repository files. */
  datatype Stores = Stores(registry: Registry, repos: seq<RepoDb>)

  ghost predicate Shaped(s: Stores) {
    && |s.registry.owners| == |s.registry.usage| == |s.repos| == |s.registry.epochs|
    && forall l <- s.registry.leases :: l.repo < |s.repos|
  }

  // ---- Lease rows ----

  function Ids(leases: seq<Lease>): set<Reservation> {
    set l | l in leases :: l.id
  }

  function Without(leases: seq<Lease>, id: Reservation): (rest: seq<Lease>)
    ensures forall l :: l in rest <==> l in leases && l.id != id
  {
    if leases == [] then []
    else (if leases[0].id == id then [] else [leases[0]]) + Without(leases[1..], id)
  }

  /** At most one lease per repository. */
  ghost predicate SingleWriter(leases: seq<Lease>) {
    forall i, j :: 0 <= i < j < |leases| ==> leases[i].repo != leases[j].repo
  }

  lemma {:induction false} WithoutKeepsSingleWriter(leases: seq<Lease>, id: Reservation)
    requires SingleWriter(leases)
    ensures SingleWriter(Without(leases, id))
  {
    if leases != [] {
      WithoutKeepsSingleWriter(leases[1..], id);
      forall l | l in Without(leases[1..], id) ensures l.repo != leases[0].repo {
        assert l in leases[1..];
        var j :| 0 <= j < |leases| - 1 && leases[1..][j] == l;
        assert leases[j + 1] == l;
      }
    }
  }

  // ---- Reconciliation ----

  /** The reading of the clock when a row is examined. */
  type Clock = Reservation -> int

  /** The test of one row: unexpired, and not a dead process of this host. `alive` answers for process ids. */
  predicate IsLive(l: Lease, now: Clock, host: nat, alive: nat -> bool) {
    now(l.id) < l.expiresAt && (l.host == host ==> alive(l.pid))
  }

  function Bump(repo: RepoDb, active: Option<Reservation>): RepoDb {
    repo.(epoch := repo.epoch + 1, active := active)
  }

  /** Revoke first, durably, in the repository; then drop the row in the registry transaction. */
  function Reap(s: Stores, l: Lease): Stores
    requires Shaped(s) && l.repo < |s.repos|
  {
    var bumped := Bump(s.repos[l.repo], None);
    Stores(s.registry.(leases := Without(s.registry.leases, l.id), epochs := s.registry.epochs[l.repo := bumped.epoch]),
           s.repos[l.repo := bumped])
  }

  /** The repository of a sealed owner cannot be opened. */
  predicate CanOpen(s: Stores, l: Lease) {
    s.registry.activeOwner == Some(l.owner)
  }

  /** The rows in table order; stops at the first one whose repository cannot be opened, leaving the earlier bumps. */
  function ReapAll(s: Stores, rows: seq<Lease>, now: Clock, host: nat, alive: nat -> bool): (r: (Stores, bool))
    requires Shaped(s) && forall l <- rows :: l.repo < |s.repos|
    ensures Shaped(r.0) && |r.0.repos| == |s.repos| && r.0.registry.activeOwner == s.registry.activeOwner
    decreases |rows|
  {
    if rows == [] then (s, true)
    else if IsLive(rows[0], now, host, alive) then ReapAll(s, rows[1..], now, host, alive)
    else if !CanOpen(s, rows[0]) then (s, false)
    else ReapAll(Reap(s, rows[0]), rows[1..], now, host, alive)
  }

  /** Recorded usage is always counted from the repositories. */
  function Tally(s: Stores): Stores {
    s.(registry := s.registry.(usage := seq(|s.repos|, k requires 0 <= k < |s.repos| => s.repos[k].bytes)))
  }

  function Reconcile(s: Stores, now: Clock, host: nat, alive: nat -> bool): (Stores, bool)
    requires Shaped(s)
  {
    var (reaped, ok) := ReapAll(s, s.registry.leases, now, host, alive);
    if ok then (Tally(reaped), true) else (reaped, false)
  }

  ghost predicate AllLive(leases: seq<Lease>, now: Clock, host: nat, alive: nat -> bool) {
    forall l <- leases :: IsLive(l, now, host, alive)
  }

  /** The rows a sweep keeps. */
  function Live(leases: seq<Lease>, now: Clock, host: nat, alive: nat -> bool): seq<Lease> {
    if leases == [] then []
    else (if IsLive(leases[0], now, host, alive) then [leases[0]] else []) + Live(leases[1..], now, host, alive)
  }

  /** Reservation ids are a primary key. */
  ghost predicate Keyed(leases: seq<Lease>) {
    forall i, j :: 0 <= i < j < |leases| ==> leases[i].id != leases[j].id
  }

  lemma {:induction false} WithoutAbsent(leases: seq<Lease>, id: Reservation)
    requires forall l <- leases :: l.id != id
    ensures Without(leases, id) == leases
  {
    if leases != [] {
      WithoutAbsent(leases[1..], id);
    }
  }

  lemma {:induction false} WithoutConcat(a: seq<Lease>, b: seq<Lease>, id: Reservation)
    ensures Without(a + b, id) == Without(a, id) + Without(b, id)
  {
    if a == [] {
      assert a + b == b;
    } else {
      assert (a + b)[1..] == a[1..] + b;
      WithoutConcat(a[1..], b, id);
    }
  }

  lemma {:induction false} OthersAreKeyed(kept: seq<Lease>, l: Lease, rest: seq<Lease>)
    requires Keyed(kept + [l] + rest)
    ensures forall m :: m in kept || m in rest ==> m.id != l.id
  {
    var all, n := kept + [l] + rest, |kept|;
    assert all[n] == l;
    forall i | 0 <= i < n ensures kept[i].id != l.id {
      assert all[i] == kept[i];
    }
    forall i | 0 <= i < |rest| ensures rest[i].id != l.id {
      assert all[n + 1 + i] == rest[i];
    }
  }

  lemma {:induction false} WithoutMiddle(kept: seq<Lease>, l: Lease, rest: seq<Lease>)
    requires Keyed(kept + [l] + rest)
    ensures Without(kept + [l] + rest, l.id) == kept + rest
  {
    OthersAreKeyed(kept, l, rest);
    WithoutAbsent(kept, l.id);
    WithoutAbsent(rest, l.id);
    WithoutConcat(kept + [l], rest, l.id);
    WithoutConcat(kept, [l], l.id);
    assert Without([l], l.id) == [] && kept + [] == kept;
  }

  lemma KeyedWithout(kept: seq<Lease>, l: Lease, rest: seq<Lease>)
    requires Keyed(kept + [l] + rest)
    ensures Keyed(kept + rest)
  {
    var all, less := kept + [l] + rest, kept + rest;
    forall i, j | 0 <= i < j < |less| ensures less[i].id != less[j].id {
      var i', j' := if i < |kept| then i else i + 1, if j < |kept| then j else j + 1;
      assert less[i] == all[i'] && less[j] == all[j'];
    }
  }

  /** A sweep that is not stopped keeps exactly the live rows, in order. */
  lemma {:induction false} SweepKeepsTheLive(
    s: Stores, kept: seq<Lease>, rows: seq<Lease>, now: Clock, host: nat, alive: nat -> bool)
    requires Shaped(s) && s.registry.leases == kept + rows && Keyed(kept + rows)
    requires forall l <- rows :: l.repo < |s.repos|
    ensures
      var (reaped, ok) := ReapAll(s, rows, now, host, alive);
      ok ==> reaped.registry.leases == kept + Live(rows, now, host, alive)
    decreases |rows|
  {
    if rows == [] {
      assert kept + rows == kept && kept + Live(rows, now, host, alive) == kept;
    } else {
      var l, rest := rows[0], rows[1..];
      FirstMoves(kept, rows);
      if IsLive(l, now, host, alive) {
        SweepKeepsTheLive(s, kept + [l], rest, now, host, alive);
        Regroup(kept, l, Live(rest, now, host, alive));
      } else if CanOpen(s, l) {
        WithoutMiddle(kept, l, rest);
        KeyedWithout(kept, l, rest);
        SweepKeepsTheLive(Reap(s, l), kept, rest, now, host, alive);
        assert Live(rows, now, host, alive) == Live(rest, now, host, alive);
      }
    }
  }

  lemma FirstMoves(kept: seq<Lease>, rows: seq<Lease>)
    requires rows != []
    ensures kept + rows == kept + [rows[0]] + rows[1..]
  {
  }

  lemma Regroup(kept: seq<Lease>, l: Lease, rest: seq<Lease>)
    ensures kept + [l] + rest == kept + ([l] + rest)
  {
  }

  /** A sweep is stopped exactly by a row that must go but whose owner is sealed. */
  ghost predicate Unstopped(s: Stores, rows: seq<Lease>, now: Clock, host: nat, alive: nat -> bool) {
    forall l <- rows :: IsLive(l, now, host, alive) || CanOpen(s, l)
  }

  lemma {:induction false} SweepCompletes(s: Stores, rows: seq<Lease>, now: Clock, host: nat, alive: nat -> bool)
    requires Shaped(s) && forall l <- rows :: l.repo < |s.repos|
    ensures ReapAll(s, rows, now, host, alive).1 <==> Unstopped(s, rows, now, host, alive)
    decreases |rows|
  {
    if rows != [] {
      assert forall l :: l in rows <==> l == rows[0] || l in rows[1..];
      if IsLive(rows[0], now, host, alive) {
        SweepCompletes(s, rows[1..], now, host, alive);
      } else if CanOpen(s, rows[0]) {
        SweepCompletes(Reap(s, rows[0]), rows[1..], now, host, alive);
      }
    }
  }

  /** What one repository file may show after some bumps: the evidence and the watermark are as they were. */
  ghost predicate Bumped(before: RepoDb, after: RepoDb) {
    && before.epoch <= after.epoch && after == before.(epoch := after.epoch, active := after.active)
    && (before.epoch == after.epoch ==> after.active == before.active)
    && (before.epoch < after.epoch ==> after.active == None)
  }

  ghost predicate AllBumped(before: seq<RepoDb>, after: seq<RepoDb>) {
    |before| == |after| && forall k :: 0 <= k < |before| ==> Bumped(before[k], after[k])
  }

  /** A sweep touches nothing but epochs and holders: an epoch goes up where a row was reaped and nowhere else. */
  lemma {:induction false} SweepOnlyBumps(s: Stores, rows: seq<Lease>, now: Clock, host: nat, alive: nat -> bool)
    requires Shaped(s) && forall l <- rows :: l.repo < |s.repos|
    ensures
      var (reaped, ok) := ReapAll(s, rows, now, host, alive);
      && AllBumped(s.repos, reaped.repos)
      && (forall k :: 0 <= k < |s.repos| && s.repos[k].epoch < reaped.repos[k].epoch ==>
            exists d <- rows :: d.repo == k && !IsLive(d, now, host, alive))
      && (ok ==> forall d <- rows :: !IsLive(d, now, host, alive) ==> s.repos[d.repo].epoch < reaped.repos[d.repo].epoch)
      && (forall k :: 0 <= k < |s.repos| ==>
            reaped.registry.epochs[k] == (if s.repos[k].epoch < reaped.repos[k].epoch then reaped.repos[k].epoch else s.registry.epochs[k]))
    decreases |rows|
  {
    if rows != [] {
      assert forall l :: l in rows <==> l == rows[0] || l in rows[1..];
      if IsLive(rows[0], now, host, alive) {
        SweepOnlyBumps(s, rows[1..], now, host, alive);
      } else if CanOpen(s, rows[0]) {
        SweepOnlyBumps(Reap(s, rows[0]), rows[1..], now, host, alive);
      }
    }
  }

  lemma {:induction false} LiveAreLive(leases: seq<Lease>, now: Clock, host: nat, alive: nat -> bool)
    ensures AllLive(Live(leases, now, host, alive), now, host, alive)
    ensures forall l :: l in Live(leases, now, host, alive) <==> l in leases && IsLive(l, now, host, alive)
  {
    if leases != [] {
      LiveAreLive(leases[1..], now, host, alive);
    }
  }

  lemma {:induction false} NothingToReap(s: Stores, rows: seq<Lease>, now: Clock, host: nat, alive: nat -> bool)
    requires Shaped(s) && (forall l <- rows :: l.repo < |s.repos|) && AllLive(rows, now, host, alive)
    ensures ReapAll(s, rows, now, host, alive) == (s, true)
    decreases |rows|
  {
    if rows != [] {
      NothingToReap(s, rows[1..], now, host, alive);
    }
  }

  /** Usage equals the retained bytes, and every lease is of a living process and unexpired. */
  ghost predicate Recovered(s: Stores, now: Clock, host: nat, alive: nat -> bool) {
    && |s.registry.usage| == |s.repos| && (forall k :: 0 <= k < |s.repos| ==> s.registry.usage[k] == s.repos[k].bytes)
    && AllLive(s.registry.leases, now, host, alive)
  }

  /** One reconcile, from whatever a crash left. It completes exactly when no dead lease belongs to a sealed owner. */
  lemma Recovery(s: Stores, now: Clock, host: nat, alive: nat -> bool)
    requires Shaped(s) && Keyed(s.registry.leases)
    ensures
      var (after, ok) := Reconcile(s, now, host, alive);
      && (ok <==> Unstopped(s, s.registry.leases, now, host, alive))
      && AllBumped(s.repos, after.repos)
      && (ok ==>
            && Recovered(after, now, host, alive)
            && after.registry.leases == Live(s.registry.leases, now, host, alive)
            && Reconcile(after, now, host, alive) == (after, true))
  {
    SweepCompletes(s, s.registry.leases, now, host, alive);
    SweepOnlyBumps(s, s.registry.leases, now, host, alive);
    if Reconcile(s, now, host, alive).1 {
      CompletedReconcile(s, now, host, alive);
    }
  }

  /** The same in the fields of a row. It stays exactly when it is unexpired and its process is on another host or alive; a
      reconcile is stopped exactly by another row whose owner is not the active one; and a repository keeps its epoch
      exactly when all its rows stay. */
  lemma KeptExactly(s: Stores, now: Clock, host: nat, alive: nat -> bool)
    requires Shaped(s) && Keyed(s.registry.leases)
    ensures
      var (after, ok) := Reconcile(s, now, host, alive);
      && (ok <==> forall l <- s.registry.leases ::
            (now(l.id) < l.expiresAt && (l.host != host || alive(l.pid))) || s.registry.activeOwner == Some(l.owner))
      && (ok ==> forall l :: l in after.registry.leases <==>
            l in s.registry.leases && now(l.id) < l.expiresAt && (l.host != host || alive(l.pid)))
      && (ok ==> forall k :: 0 <= k < |s.repos| ==>
            (after.repos[k].epoch == s.repos[k].epoch <==>
             forall l <- s.registry.leases :: l.repo == k ==> now(l.id) < l.expiresAt && (l.host != host || alive(l.pid))))
      && (ok ==> forall k :: 0 <= k < |s.repos| ==>
            after.registry.epochs[k] == (if after.repos[k].epoch == s.repos[k].epoch then s.registry.epochs[k] else after.repos[k].epoch))
  {
    var leases := s.registry.leases;
    SweepCompletes(s, leases, now, host, alive);
    SweepOnlyBumps(s, leases, now, host, alive);
    assert forall l <- leases :: IsLive(l, now, host, alive) <==> now(l.id) < l.expiresAt && (l.host != host || alive(l.pid));
    if Reconcile(s, now, host, alive).1 {
      CompletedReconcile(s, now, host, alive);
      LiveAreLive(leases, now, host, alive);
    }
  }

  /** A living writer's repository is not touched by any reconcile, complete or not. */
  lemma LivingWriterIsSafe(s: Stores, l: Lease, now: Clock, host: nat, alive: nat -> bool)
    requires Shaped(s) && Keyed(s.registry.leases) && SingleWriter(s.registry.leases) && l in s.registry.leases
    requires now(l.id) < l.expiresAt && (l.host != host || alive(l.pid))
    ensures Reconcile(s, now, host, alive).0.repos[l.repo] == s.repos[l.repo]
    ensures Reconcile(s, now, host, alive).1 ==> l in Reconcile(s, now, host, alive).0.registry.leases
  {
    var reaped := ReapAll(s, s.registry.leases, now, host, alive).0;
    SweepOnlyBumps(s, s.registry.leases, now, host, alive);
    KeptExactly(s, now, host, alive);
    OnlyRowOf(s.registry.leases, l);
    assert IsLive(l, now, host, alive);
    assert Bumped(s.repos[l.repo], reaped.repos[l.repo]);
    assert !(s.repos[l.repo].epoch < reaped.repos[l.repo].epoch);
  }

  lemma OnlyRowOf(leases: seq<Lease>, l: Lease)
    requires SingleWriter(leases) && l in leases
    ensures forall d <- leases :: d.repo == l.repo ==> d == l
  {
    forall d | d in leases && d.repo == l.repo ensures d == l {
      var i :| 0 <= i < |leases| && leases[i] == d;
      var j :| 0 <= j < |leases| && leases[j] == l;
    }
  }

  lemma CompletedReconcile(s: Stores, now: Clock, host: nat, alive: nat -> bool)
    requires Shaped(s) && Keyed(s.registry.leases) && Reconcile(s, now, host, alive).1
    ensures
      var after := Reconcile(s, now, host, alive).0;
      && Recovered(after, now, host, alive)
      && after.registry.leases == Live(s.registry.leases, now, host, alive)
      && Reconcile(after, now, host, alive) == (after, true)
  {
    var leases := s.registry.leases;
    assert [] + leases == leases;
    SweepKeepsTheLive(s, [], leases, now, host, alive);
    assert [] + Live(leases, now, host, alive) == Live(leases, now, host, alive);
    LiveAreLive(leases, now, host, alive);
    AgainIsIdle(Reconcile(s, now, host, alive).0, now, host, alive);
  }

  lemma AgainIsIdle(s: Stores, now: Clock, host: nat, alive: nat -> bool)
    requires Shaped(s) && Recovered(s, now, host, alive)
    ensures Reconcile(s, now, host, alive) == (s, true)
  {
    NothingToReap(s, s.registry.leases, now, host, alive);
    assert Tally(s).registry.usage == s.registry.usage;
  }

  /** A crash after some bumps rolls the registry back and keeps the bumps; the next reconcile gives the same registry
      apart from the cached epochs, and loses no epoch. */
  lemma CrashThenReconcile(s: Stores, done: nat, now: Clock, host: nat, alive: nat -> bool)
    requires Shaped(s) && Keyed(s.registry.leases) && done <= |s.registry.leases|
    ensures
      var crashed := s.(repos := ReapAll(s, s.registry.leases[..done], now, host, alive).0.repos);
      var ((whole, ok), (again, ok')) := (Reconcile(s, now, host, alive), Reconcile(crashed, now, host, alive));
      && Shaped(crashed) && ok == ok'
      && (ok ==> again.registry.(epochs := whole.registry.epochs) == whole.registry && AllBumped(crashed.repos, again.repos))
  {
    var crashed := s.(repos := ReapAll(s, s.registry.leases[..done], now, host, alive).0.repos);
    SweepOnlyBumps(s, s.registry.leases[..done], now, host, alive);
    Recovery(s, now, host, alive);
    Recovery(crashed, now, host, alive);
    var ((whole, ok), (again, ok')) := (Reconcile(s, now, host, alive), Reconcile(crashed, now, host, alive));
    if ok {
      ReapKeepsTables(s, s.registry.leases, now, host, alive);
      ReapKeepsTables(crashed, s.registry.leases, now, host, alive);
      assert whole.registry.usage == again.registry.usage;
    }
  }

  lemma {:induction false} ReapKeepsTables(s: Stores, rows: seq<Lease>, now: Clock, host: nat, alive: nat -> bool)
    requires Shaped(s) && forall l <- rows :: l.repo < |s.repos|
    ensures ReapAll(s, rows, now, host, alive).0.registry.owners == s.registry.owners
    decreases |rows|
  {
    if rows != [] {
      if IsLive(rows[0], now, host, alive) {
        ReapKeepsTables(s, rows[1..], now, host, alive);
      } else if CanOpen(s, rows[0]) {
        ReapKeepsTables(Reap(s, rows[0]), rows[1..], now, host, alive);
      }
    }
  }

  /** An expired lease of owner 1, in a repository that was never written to, while owner 2 is active. */
  function SealedLease(): Stores {
    Stores(Registry([Lease(0, 0, 1, 7, 3, LEASE_MILLISECONDS, 10, 1)], [1], [0], [1], Some(2)), [RepoDb(0, 1, Some(0), 0, None)])
  }

  /** The other half of Recovery: the expired lease of an owner sealed meanwhile fails every later reconcile. */
  lemma SealedLeaseBlocks(now: Clock, alive: nat -> bool)
    requires now(0) >= LEASE_MILLISECONDS
    ensures Shaped(SealedLease()) && Reconcile(SealedLease(), now, 3, alive) == (SealedLease(), false)
  {
    assert !IsLive(SealedLease().registry.leases[0], now, 3, alive);
  }

  // ---- Admission ----

  datatype Policy = Policy(device: nat, owner: nat, repo: nat, reserve: nat)

  /** What a cap is put on. */
  datatype Scope = Device | OfOwner(owner: Owner) | OfRepo(repo: nat)

  function Cap(policy: Policy, scope: Scope): int {
    match scope
    case Device => policy.device
    case OfOwner(_) => policy.owner
    case OfRepo(_) => policy.repo - policy.reserve
  }

  predicate Covers(scope: Scope, repo: nat, owner: Owner) {
    match scope
    case Device => true
    case OfOwner(o) => owner == o
    case OfRepo(k) => repo == k
  }

  /** Bytes of the first n repositories that lie in the scope. */
  function Used(repos: seq<RepoDb>, owners: seq<Owner>, scope: Scope, n: nat): nat
    requires n <= |repos| && n <= |owners|
  {
    if n == 0 then 0
    else Used(repos, owners, scope, n - 1) + if Covers(scope, n - 1, owners[n - 1]) then repos[n - 1].bytes else 0
  }

  /** Allocations of the leases that lie in the scope. */
  function Pending(leases: seq<Lease>, scope: Scope): nat {
    if leases == [] then 0
    else (if Covers(scope, leases[0].repo, leases[0].owner) then leases[0].allocation else 0) + Pending(leases[1..], scope)
  }

  /** What the files on disk take beyond the retained bytes: for the device, for the owner, and for the repository. */
  datatype Overhead = Overhead(device: nat, owner: nat, repo: nat)

  function Extra(overhead: Overhead, scope: Scope): nat {
    match scope
    case Device => overhead.device
    case OfOwner(_) => overhead.owner
    case OfRepo(_) => overhead.repo
  }

  predicate FitsIn(policy: Policy, s: Stores, scope: Scope, allocation: nat, overhead: Overhead)
    requires Shaped(s)
  {
    var measured := Used(s.repos, s.registry.owners, scope, |s.repos|) + Extra(overhead, scope);
    measured + Pending(s.registry.leases, scope) + allocation <= Cap(policy, scope)
  }

  predicate Fits(policy: Policy, s: Stores, k: nat, allocation: nat, overhead: Overhead)
    requires Shaped(s) && k < |s.repos|
  {
    && FitsIn(policy, s, Device, allocation, overhead)
    && FitsIn(policy, s, OfOwner(s.registry.owners[k]), allocation, overhead)
    && FitsIn(policy, s, OfRepo(k), allocation, overhead)
  }

  /** The three caps, each beside what is measured and what is pending. */
  lemma FitsExactly(policy: Policy, s: Stores, k: nat, allocation: nat, overhead: Overhead)
    requires Shaped(s) && k < |s.repos|
    ensures
      var (repos, owners, leases, n) := (s.repos, s.registry.owners, s.registry.leases, |s.repos|);
      var owner := OfOwner(owners[k]);
      Fits(policy, s, k, allocation, overhead) <==>
        && Used(repos, owners, Device, n) + overhead.device + Pending(leases, Device) + allocation <= policy.device
        && Used(repos, owners, owner, n) + overhead.owner + Pending(leases, owner) + allocation <= policy.owner
        && repos[k].bytes + overhead.repo + Pending(leases, OfRepo(k)) + allocation + policy.reserve <= policy.repo
  {
    UsedByRepo(s.repos, s.registry.owners, k, |s.repos|);
  }

  lemma {:induction false} UsedByRepo(repos: seq<RepoDb>, owners: seq<Owner>, k: nat, n: nat)
    requires n <= |repos| == |owners|
    ensures Used(repos, owners, OfRepo(k), n) == if k < n then repos[k].bytes else 0
  {
    if n > 0 {
      UsedByRepo(repos, owners, k, n - 1);
    }
  }

  /** Each repository counts for the device, for its owner and for itself. */
  lemma {:induction false} UsedAdds(repos: seq<RepoDb>, owners: seq<Owner>, db: RepoDb, owner: Owner)
    requires |repos| == |owners|
    ensures forall scope: Scope ::
      Used(repos + [db], owners + [owner], scope, |repos| + 1) ==
        Used(repos, owners, scope, |repos|) + if scope == Device || scope == OfOwner(owner) || scope == OfRepo(|repos|) then db.bytes else 0
  {
    forall scope: Scope ensures Used(repos + [db], owners + [owner], scope, |repos|) == Used(repos, owners, scope, |repos|) {
      UsedOfFront(repos, owners, db, owner, scope, |repos|);
    }
  }

  lemma {:induction false} UsedOfFront(
    repos: seq<RepoDb>, owners: seq<Owner>, db: RepoDb, owner: Owner, scope: Scope, n: nat)
    requires n <= |repos| == |owners|
    ensures Used(repos + [db], owners + [owner], scope, n) == Used(repos, owners, scope, n)
  {
    if n > 0 {
      UsedOfFront(repos, owners, db, owner, scope, n - 1);
    }
  }

  /** Each lease is pending for the device, for its owner and for its repository, and for nothing else. */
  lemma {:induction false} PendingAdds(leases: seq<Lease>, l: Lease)
    ensures forall scope: Scope ::
      Pending(leases + [l], scope) ==
        Pending(leases, scope) + if scope == Device || scope == OfOwner(l.owner) || scope == OfRepo(l.repo) then l.allocation else 0
    ensures forall scope :: Pending([], scope) == 0
  {
    if leases == [] {
      assert leases + [l] == [l] && [l][1..] == [];
    } else {
      PendingAdds(leases[1..], l);
      assert (leases + [l])[1..] == leases[1..] + [l];
    }
  }

  predicate HasWriter(leases: seq<Lease>, k: nat) {
    exists l <- leases :: l.repo == k
  }

  /** The lease written for an admitted reservation, one epoch after the repository's. */
  function NewLease(s: Stores, id: Reservation, k: nat, pid: nat, host: nat, allocation: nat, now: int): Lease
    requires Shaped(s) && k < |s.repos|
  {
    Lease(id, k, s.registry.owners[k], pid, host, now + LEASE_MILLISECONDS, allocation, s.repos[k].epoch + 1)
  }

  /** The new row in the registry transaction, and the epoch bump in the repository. */
  function Insert(s: Stores, l: Lease): Stores
    requires Shaped(s) && l.repo < |s.repos|
  {
    Stores(s.registry.(leases := s.registry.leases + [l], epochs := s.registry.epochs[l.repo := l.epoch]),
           s.repos[l.repo := Bump(s.repos[l.repo], Some(l.id))])
  }

  // ---- The commit gate ----

  function Find(leases: seq<Lease>, id: Reservation): (row: Option<Lease>)
    ensures row.Some? ==> row.value in leases && row.value.id == id
    ensures row.None? <==> forall l <- leases :: l.id != id
  {
    if leases == [] then None
    else if leases[0].id == id then Some(leases[0])
    else Find(leases[1..], id)
  }

  /** The token is the repository's holder at the cached and at the recorded epoch, its lease is live in the registry
      and for this repository, whose owner is active, and nothing has been committed at that epoch. */
  predicate MayCommit(s: Stores, k: nat, token: Reservation, cached: Option<nat>, now: int)
    requires Shaped(s) && k < |s.repos|
  {
    var row := Find(s.registry.leases, token);
    && (cached.Some? ==> s.repos[k].epoch == cached.value && s.repos[k].active == Some(token))
    && row.Some? && now < row.value.expiresAt
    && CanOpen(s, row.value) && row.value.repo == k
    && s.repos[k].lastCommitted < row.value.epoch
    && s.repos[k].epoch == row.value.epoch && s.repos[k].active == Some(token)
  }

  /** Evidence, watermark and receipt in one repository transaction. */
  function Committed(db: RepoDb, epoch: nat, token: Reservation, bytes: nat): RepoDb {
    db.(bytes := bytes, lastCommitted := epoch, receipt := Some(token))
  }

  // ---- The store object ----

  /** The files shared by all stores: the registry as its open transaction sees it, and the repositories. */
  class Databases {
    var registry: Registry
    var repos: seq<RepoDb>

    constructor (registry: Registry, repos: seq<RepoDb>)
      ensures this.registry == registry && this.repos == repos
    {
      this.registry, this.repos := registry, repos;
    }

    function View(): Stores
      reads this
    {
      Stores(registry, repos)
    }
  }

  datatype Admission = Admitted | Denied | Nested | Busy | QuotaExceeded | Failed

  class ContextStore {
    const files: Databases
    const policy: Policy
    const host: nat
    const pid: nat
    var activeReservation: Option<Reservation>
    var activeEpoch: Option<nat>

    constructor (files: Databases, policy: Policy, host: nat, pid: nat)
      ensures this.files == files && this.policy == policy && this.host == host && this.pid == pid
      ensures activeReservation == None && activeEpoch == None
    {
      this.files, this.policy, this.host, this.pid := files, policy, host, pid;
      activeReservation, activeEpoch := None, None;
    }

    method AssertReservationLive(now: int) returns (live: bool)
      requires Keyed(files.registry.leases)
      ensures live <==> exists l <- files.registry.leases :: activeReservation == Some(l.id) && now < l.expiresAt
    {
      if activeReservation.None? {
        return false;
      }
      var row := Find(files.registry.leases, activeReservation.value);
      live := row.Some? && now < row.value.expiresAt;
    }

    /** The gate at the end of a repository transaction. `inBoth` tells whether both transactions are open. */
    method CommitRepository(k: nat, token: Option<Reservation>, inBoth: bool, bytes: nat, now: int) returns (ok: bool)
      requires Shaped(files.View()) && Keyed(files.registry.leases) && k < |files.repos|
      modifies files`repos
      ensures ok <==>
        token.Some? && token == activeReservation && inBoth && MayCommit(old(files.View()), k, token.value, activeEpoch, now)
      ensures ok ==>
        files.repos == old(files.repos)[k := old(files.repos)[k].(bytes := bytes, lastCommitted := old(files.repos)[k].epoch, receipt := token)]
      ensures !ok ==> files.repos == old(files.repos)
    {
      if token.None? || token != activeReservation || !inBoth {
        return false;
      }
      var db := files.repos[k];
      if activeEpoch.Some? && (db.epoch != activeEpoch.value || db.active != token) {
        return false;
      }
      var live := AssertReservationLive(now);
      if !live {
        return false;
      }
      var row := Find(files.registry.leases, token.value).value;
      if !CanOpen(files.View(), row) || row.repo != k {
        return false;
      }
      if !(db.lastCommitted < row.epoch && db.epoch == row.epoch && db.active == token) {
        return false;
      }
      files.repos := files.repos[k := Committed(db, row.epoch, token.value, bytes)];
      return true;
    }

    /** Sweeps the leases and counts the usage again, inside the registry transaction. */
    method ReconcileQuotaLocked(now: Clock, alive: nat -> bool) returns (ok: bool)
      requires Shaped(files.View())
      modifies files
      ensures (files.View(), ok) == Reconcile(old(files.View()), now, host, alive)
      ensures Shaped(files.View()) && |files.repos| == old(|files.repos|)
    {
      var rows := files.registry.leases;
      var i := 0;
      while i < |rows|
        invariant i <= |rows|
        invariant Shaped(files.View()) && |files.repos| == old(|files.repos|)
        invariant forall l <- rows :: l.repo < |files.repos|
        invariant ReapAll(old(files.View()), rows, now, host, alive) == ReapAll(files.View(), rows[i..], now, host, alive)
      {
        var l := rows[i];
        assert rows[i..][1..] == rows[i + 1..];
        if !IsLive(l, now, host, alive) {
          if !CanOpen(files.View(), l) {
            return false;
          }
          files.repos := files.repos[l.repo := Bump(files.repos[l.repo], None)];
          var epoch := files.repos[l.repo].epoch;
          files.registry := files.registry.(
            leases := Without(files.registry.leases, l.id), epochs := files.registry.epochs[l.repo := epoch]);
        }
        i := i + 1;
      }
      ghost var swept := files.View();
      var k := 0;
      while k < |files.repos|
        invariant k <= |files.repos| && files.repos == swept.repos
        invariant files.registry == swept.registry.(usage := files.registry.usage) && |files.registry.usage| == |files.repos|
        invariant forall j :: 0 <= j < k ==> files.registry.usage[j] == files.repos[j].bytes
      {
        files.registry := files.registry.(usage := files.registry.usage[k := files.repos[k].bytes]);
        k := k + 1;
      }
      assert files.registry.usage == Tally(swept).registry.usage;
      return true;
    }

    /** The new row, the durable epoch bump, and the cached token. */
    method InsertLease(k: nat, id: Reservation, allocation: nat, now: int)
      requires Shaped(files.View()) && k < |files.repos|
      requires Keyed(files.registry.leases) && forall l <- files.registry.leases :: l.id != id
      modifies this`activeReservation, this`activeEpoch, files
      ensures Shaped(files.View()) && Keyed(files.registry.leases)
      ensures SingleWriter(old(files.registry.leases)) && !HasWriter(old(files.registry.leases), k) ==> SingleWriter(files.registry.leases)
      ensures files.View() == Insert(old(files.View()), NewLease(old(files.View()), id, k, pid, host, allocation, now))
      ensures activeReservation == Some(id) && activeEpoch == Some(files.repos[k].epoch)
      ensures files.registry.leases == old(files.registry.leases)
        + [Lease(id, k, files.registry.owners[k], pid, host, now + 300000, allocation, old(files.repos)[k].epoch + 1)]
      ensures files.repos[k] == old(files.repos)[k].(epoch := old(files.repos)[k].epoch + 1, active := Some(id))
      ensures files.registry.epochs[k] == files.repos[k].epoch
    {
      AppendKeeps(files.registry.leases, NewLease(files.View(), id, k, pid, host, allocation, now));
      var db := Bump(files.repos[k], Some(id));
      files.registry := files.registry.(
        leases := files.registry.leases + [NewLease(files.View(), id, k, pid, host, allocation, now)],
        epochs := files.registry.epochs[k := db.epoch]);
      files.repos := files.repos[k := db];
      activeReservation, activeEpoch := Some(id), Some(db.epoch);
    }

    /** What a living writer of the repository means for an admission. */
    lemma AdmissionFacts(s: Stores, k: nat, clock: Clock, alive: nat -> bool)
      requires Shaped(s) && Keyed(s.registry.leases) && k < |s.repos|
      ensures
        var (swept, ok) := Reconcile(s, clock, host, alive);
        forall l <- s.registry.leases ::
          l.repo == k && clock(l.id) < l.expiresAt && (l.host != host || alive(l.pid)) ==>
            && (ok ==> HasWriter(swept.registry.leases, k))
            && (SingleWriter(s.registry.leases) ==> swept.repos[k] == s.repos[k])
    {
      KeptExactly(s, clock, host, alive);
      if SingleWriter(s.registry.leases) {
        forall l | l in s.registry.leases && l.repo == k && clock(l.id) < l.expiresAt && (l.host != host || alive(l.pid))
          ensures Reconcile(s, clock, host, alive).0.repos[k] == s.repos[k]
        {
          LivingWriterIsSafe(s, l, clock, host, alive);
        }
      }
    }

    /** The first registry transaction of a guarded write: reconcile, one writer per repository, the caps, then the lease. */
    method Admit(k: nat, id: Reservation, allocation: nat, overhead: Overhead, now: int, clock: Clock, alive: nat -> bool)
      returns (outcome: Admission)
      requires Shaped(files.View()) && k < |files.repos|
      requires Keyed(files.registry.leases) && forall l <- files.registry.leases :: l.id != id
      modifies this`activeReservation, this`activeEpoch, files
      ensures Shaped(files.View()) && Keyed(files.registry.leases)
      ensures SingleWriter(old(files.registry.leases)) ==> SingleWriter(files.registry.leases)
      ensures outcome.Denied? <==> !CanWrite(old(files.View()), k)
      ensures outcome.Nested? <==> CanWrite(old(files.View()), k) && old(activeReservation.Some?)
      ensures outcome.Denied? || outcome.Nested? ==> files.View() == old(files.View())
      ensures !outcome.Denied? && !outcome.Nested? ==>
        var (swept, ok) := Reconcile(old(files.View()), clock, host, alive);
        && AllBumped(old(files.repos), swept.repos)
        && (outcome.Admitted? <==> ok && !HasWriter(swept.registry.leases, k) && Fits(policy, swept, k, allocation, overhead))
        && (outcome.Admitted? ==> files.View() == Insert(swept, NewLease(swept, id, k, pid, host, allocation, now)))
        && (outcome.QuotaExceeded? ==> files.View() == swept && AllLive(files.registry.leases, clock, host, alive))
        && (outcome.Failed? <==> !ok) && (outcome.Busy? <==> ok && HasWriter(swept.registry.leases, k))
        && (outcome.Busy? || outcome.Failed? ==> files.View() == Stores(old(files.registry), swept.repos))
      ensures outcome.Admitted? ==> activeReservation == Some(id) && activeEpoch == Some(files.repos[k].epoch)
      ensures !outcome.Admitted? ==> activeReservation == old(activeReservation) && activeEpoch == old(activeEpoch)
      ensures outcome.Admitted? ==>
        && files.registry.leases != []
        && files.registry.leases[|files.registry.leases| - 1] ==
             Lease(id, k, files.registry.owners[k], pid, host, now + 300000, allocation, files.repos[k].epoch)
        && files.repos[k].active == Some(id) && files.repos[k].epoch > old(files.repos)[k].epoch
      ensures forall l <- old(files.registry.leases) ::
        (l.repo == k && clock(l.id) < l.expiresAt && (l.host != host || alive(l.pid))) ==>
          && (outcome.Denied? || outcome.Nested? || outcome.Failed? || outcome.Busy?)
          && (SingleWriter(old(files.registry.leases)) ==> files.repos[k] == old(files.repos)[k])
    {
      AdmissionFacts(files.View(), k, clock, alive);
      if !CanWrite(files.View(), k) {
        return Denied;
      }
      if activeReservation.Some? {
        return Nested;
      }
      var before := files.registry;
      Recovery(files.View(), clock, host, alive);
      SubsetFacts(files.View(), clock, host, alive);
      var ok := ReconcileQuotaLocked(clock, alive);
      ghost var swept := files.View();
      if !ok {
        files.registry := before;
        return Failed;
      }
      if HasWriter(files.registry.leases, k) {
        files.registry := before;
        return Busy;
      }
      if !Fits(policy, files.View(), k, allocation, overhead) {
        return QuotaExceeded;
      }
      InsertLease(k, id, allocation, now);
      return Admitted;
    }

    /** After the action: drop the own row and reconcile; when that fails, roll back and drop the row by itself. */
    method Finalize(now: Clock, alive: nat -> bool) returns (ok: bool)
      requires Shaped(files.View()) && activeReservation.Some?
      modifies this`activeReservation, this`activeEpoch, files
      ensures activeReservation == None && activeEpoch == None
      ensures Shaped(files.View()) && forall l <- files.registry.leases :: Some(l.id) != old(activeReservation)
      ensures
        var own := old(activeReservation).value;
        var dropped := old(files.View()).(registry := old(files.registry).(leases := Without(old(files.registry.leases), own)));
        && Shaped(dropped)
        && (ok ==> (files.View(), true) == Reconcile(dropped, now, host, alive))
        && (!ok ==> files.View() == Stores(dropped.registry, Reconcile(dropped, now, host, alive).0.repos))
    {
      var before := files.registry;
      var own := activeReservation.value;
      files.registry := files.registry.(leases := Without(files.registry.leases, own));
      SweepOnlyDrops(files.View(), files.registry.leases, now, host, alive);
      ok := ReconcileQuotaLocked(now, alive);
      if !ok {
        files.registry := before;
        files.registry := files.registry.(leases := Without(files.registry.leases, own));
      }
      activeReservation, activeEpoch := None, None;
    }
  }

  /** The repository may be opened for writing. */
  predicate CanWrite(s: Stores, k: nat)
    requires Shaped(s) && k < |s.repos|
  {
    s.registry.activeOwner == Some(s.registry.owners[k])
  }

  lemma {:induction false} SweepOnlyDrops(s: Stores, rows: seq<Lease>, now: Clock, host: nat, alive: nat -> bool)
    requires Shaped(s) && forall l <- rows :: l.repo < |s.repos|
    ensures forall l <- ReapAll(s, rows, now, host, alive).0.registry.leases :: l in s.registry.leases
    decreases |rows|
  {
    if rows != [] {
      if IsLive(rows[0], now, host, alive) {
        SweepOnlyDrops(s, rows[1..], now, host, alive);
      } else if CanOpen(s, rows[0]) {
        SweepOnlyDrops(Reap(s, rows[0]), rows[1..], now, host, alive);
      }
    }
  }

  /** Live rows are still keyed and still single writers. */
  lemma {:induction false} LiveKeepsOrder(leases: seq<Lease>, now: Clock, host: nat, alive: nat -> bool)
    ensures Keyed(leases) ==> Keyed(Live(leases, now, host, alive))
    ensures SingleWriter(leases) ==> SingleWriter(Live(leases, now, host, alive))
  {
    if leases != [] {
      LiveKeepsOrder(leases[1..], now, host, alive);
      LiveAreLive(leases[1..], now, host, alive);
      PutBefore(leases[0], leases[1..], Live(leases[1..], now, host, alive));
      assert [leases[0]] + leases[1..] == leases;
    }
  }

  lemma {:induction false} PutBefore(first: Lease, rest: seq<Lease>, kept: seq<Lease>)
    requires forall l <- kept :: l in rest
    ensures Keyed([first] + rest) ==> Keyed(rest) && (Keyed(kept) ==> Keyed([first] + kept))
    ensures SingleWriter([first] + rest) ==> SingleWriter(rest) && (SingleWriter(kept) ==> SingleWriter([first] + kept))
  {
    var all := [first] + rest;
    assert all[0] == first;
    forall l | l in rest
      ensures Keyed(all) ==> l.id != first.id
      ensures SingleWriter(all) ==> l.repo != first.repo
    {
      var j :| 0 <= j < |rest| && rest[j] == l;
      assert all[j + 1] == l;
    }
    assert forall j :: 0 <= j < |rest| ==> rest[j] == all[j + 1];
  }

  lemma AppendKeeps(leases: seq<Lease>, l: Lease)
    ensures Keyed(leases) && (forall m <- leases :: m.id != l.id) ==> Keyed(leases + [l])
    ensures SingleWriter(leases) && !HasWriter(leases, l.repo) ==> SingleWriter(leases + [l])
  {
  }

  lemma SubsetFacts(s: Stores, now: Clock, host: nat, alive: nat -> bool)
    requires Shaped(s) && Keyed(s.registry.leases)
    ensures
      var (swept, ok) := Reconcile(s, now, host, alive);
      ok ==>
        && Keyed(swept.registry.leases) && (SingleWriter(s.registry.leases) ==> SingleWriter(swept.registry.leases))
        && forall l <- swept.registry.leases :: l in s.registry.leases
  {
    Recovery(s, now, host, alive);
    LiveKeepsOrder(s.registry.leases, now, host, alive);
    LiveAreLive(s.registry.leases, now, host, alive);
  }
}
