/** Any number of processes running guarded writes, sweeps and purges over one registry and many repository files, with
    a crash possible between any two commits (src/context/store.ts). Every step may use any clock reading, and any
    answer about a process id. */
module LeaseWorld {
  import opened Prelude
  import opened Leases

  // ---- The world ----

  /** A quota write between its two registry transactions holds a lease; after a failure its row is still to be deleted. */
  datatype Activity = Idle | Holding(lease: Lease) | Dropping(id: Reservation) | Dead

  datatype Process = Process(host: nat, pid: nat, activity: Activity)

  /** How far the open registry transaction has come; `todo` are the rows its reconcile has not examined. */
  datatype Stage =
    | Admitting(repo: nat, allocation: nat, todo: seq<Lease>)
    | Inserted(lease: Lease)
    | Acting(lease: Lease)
    | Settling(lease: Lease, todo: seq<Lease>)
    | Sweeping(todo: seq<Lease>)
    | Purging

  /** The registry as the transaction sees it; rolled back by a failure or a crash. */
  datatype Transaction = Transaction(process: nat, registry: Registry, stage: Stage)

  datatype Event = Granting(lease: Lease) | Revoking(lease: Lease) | Committing(lease: Lease)

  /** Only `registry` and `repos` survive a crash. `granted` and `history` record what has happened. */
  datatype World = World(
    policy: Policy, registry: Registry, repos: seq<RepoDb>, processes: seq<Process>, lock: Option<Transaction>,
    granted: map<Reservation, Lease>, history: seq<Event>)

  function View(w: World): Stores {
    Stores(if w.lock.Some? then w.lock.value.registry else w.registry, w.repos)
  }

  ghost predicate WellFormed(w: World) {
    && Shaped(Stores(w.registry, w.repos)) && Shaped(View(w)) && View(w).registry.owners == w.registry.owners
    && (w.lock.Some? ==> w.lock.value.process < |w.processes| && StageWellFormed(w, w.lock.value.stage))
  }

  ghost predicate StageWellFormed(w: World, stage: Stage) {
    && (stage.Admitting? ==> stage.repo < |w.repos|)
    && (stage.Admitting? || stage.Settling? || stage.Sweeping? ==> forall l <- stage.todo :: l.repo < |w.repos|)
  }

  // ---- Steps ----

  datatype Step =
    | BeginAdmission(process: nat, repo: nat, allocation: nat)
    | BeginSweep(process: nat)
    | BeginPurge(process: nat)
    | Examine(now: int, alive: bool)
    | Insert(id: Reservation, overhead: Overhead, now: int)
    | RefuseQuota(overhead: Overhead)
    | CommitAdmission
    | Reacquire(process: nat)
    | CommitRepository(repo: nat, bytes: nat, now: int)
    | FinishAction
    | FinishReconcile
    | Purge(repo: nat, bytes: nat)
    | FinishPurge
    | Fail
    | GiveUp(process: nat)
    | DropOwn(process: nat)
    | KeepOwn(process: nat)
    | Crash(process: nat)
    | Restart(process: nat, pid: nat)
    | ActivateOwner(owner: Owner)

  predicate Unlocked(w: World, process: nat, activity: Activity) {
    w.lock.None? && process < |w.processes| && w.processes[process].activity == activity
  }

  predicate InStage(w: World) {
    w.lock.Some? && w.lock.value.process < |w.processes|
  }

  predicate Examining(stage: Stage) {
    (stage.Admitting? || stage.Settling? || stage.Sweeping?) && stage.todo != []
  }

  predicate Examined(stage: Stage) {
    (stage.Admitting? || stage.Settling? || stage.Sweeping?) && stage.todo == []
  }

  predicate MayExamine(w: World, now: int, alive: bool) {
    && InStage(w) && Examining(w.lock.value.stage)
    && var l := w.lock.value.stage.todo[0];
       IsLive(l, _ => now, w.processes[w.lock.value.process].host, _ => alive) || CanOpen(View(w), l)
  }

  /** The reconcile is complete, the repository has no writer and may be opened, and the allocation fits; the id is fresh. */
  predicate MayInsert(w: World, id: Reservation, overhead: Overhead)
    requires Shaped(View(w))
  {
    && InStage(w) && w.lock.value.stage.Admitting? && Examined(w.lock.value.stage) && id !in w.granted
    && var (k, allocation) := (w.lock.value.stage.repo, w.lock.value.stage.allocation);
       && k < |w.repos| && CanWrite(View(w), k)
       && !HasWriter(View(w).registry.leases, k) && Fits(w.policy, View(w), k, allocation, overhead)
  }

  predicate MayCommitHeld(w: World, k: nat, bytes: nat, now: int)
    requires Shaped(View(w))
  {
    && InStage(w) && w.lock.value.stage.Acting? && k < |w.repos|
    && var held := w.lock.value.stage.lease;
       && MayCommit(View(w), k, held.id, Some(held.epoch), now)
       && bytes <= w.repos[k].bytes + Find(View(w).registry.leases, held.id).value.allocation
  }

  predicate MayPurge(w: World, k: nat, bytes: nat) {
    InStage(w) && w.lock.value.stage.Purging? && k < |w.repos| && bytes <= w.repos[k].bytes
  }

  function PurgeBytes(w: World, k: nat, bytes: nat): World
    requires k < |w.repos|
  {
    w.(repos := w.repos[k := w.repos[k].(bytes := bytes)])
  }

  /** What the code checks before it takes the step. */
  ghost predicate Enabled(w: World, step: Step)
    requires WellFormed(w)
  {
    match step
    case BeginAdmission(p, k, _) => Unlocked(w, p, Idle) && k < |w.repos|
    case BeginSweep(p) => Unlocked(w, p, Idle)
    case BeginPurge(p) => Unlocked(w, p, Idle)
    case Examine(now, alive) => MayExamine(w, now, alive)
    case Insert(id, overhead, _) => MayInsert(w, id, overhead)
    case RefuseQuota(overhead) =>
      && InStage(w) && w.lock.value.stage.Admitting? && Examined(w.lock.value.stage)
      && !HasWriter(View(w).registry.leases, w.lock.value.stage.repo)
      && !Fits(w.policy, View(w), w.lock.value.stage.repo, w.lock.value.stage.allocation, overhead)
    case CommitAdmission => InStage(w) && w.lock.value.stage.Inserted?
    case Reacquire(p) => w.lock.None? && p < |w.processes| && w.processes[p].activity.Holding?
    case CommitRepository(k, bytes, now) => MayCommitHeld(w, k, bytes, now)
    case FinishAction => InStage(w) && w.lock.value.stage.Acting?
    case FinishReconcile => InStage(w) && Examined(w.lock.value.stage) && !w.lock.value.stage.Admitting?
    case Purge(k, bytes) => MayPurge(w, k, bytes)
    case FinishPurge => InStage(w) && w.lock.value.stage.Purging?
    case Fail => InStage(w)
    case GiveUp(p) => w.lock.None? && p < |w.processes| && w.processes[p].activity.Holding?
    case DropOwn(p) => w.lock.None? && p < |w.processes| && w.processes[p].activity.Dropping?
    case KeepOwn(p) => w.lock.None? && p < |w.processes| && w.processes[p].activity.Dropping?
    case Crash(p) => p < |w.processes|
    case Restart(p, _) => p < |w.processes| && w.processes[p].activity.Dead?
    case ActivateOwner(_) => w.lock.None?
  }

  function Become(w: World, process: nat, activity: Activity): seq<Process>
    requires process < |w.processes|
  {
    w.processes[process := w.processes[process].(activity := activity)]
  }

  function Begin(w: World, process: nat, stage: Stage): World {
    w.(lock := Some(Transaction(process, w.registry, stage)))
  }

  function Continue(w: World, registry: Registry, stage: Stage): World
    requires w.lock.Some?
  {
    w.(lock := Some(w.lock.value.(registry := registry, stage := stage)))
  }

  /** The registry commits. */
  function Commit(w: World, registry: Registry, activity: Activity): World
    requires InStage(w)
  {
    w.(registry := registry, lock := None, processes := Become(w, w.lock.value.process, activity))
  }

  /** After a rollback a quota write still deletes its row; the others are done. */
  function AfterFailure(stage: Stage): Activity {
    match stage
    case Inserted(l) => Dropping(l.id)
    case Acting(l) => Dropping(l.id)
    case Settling(l, _) => Dropping(l.id)
    case _ => Idle
  }

  function ExamineFirst(w: World, now: int, alive: bool): World
    requires Shaped(View(w)) && InStage(w) && Examining(w.lock.value.stage) && w.lock.value.stage.todo[0].repo < |w.repos|
  {
    var stage := w.lock.value.stage;
    var l, rest := stage.todo[0], stage.(todo := stage.todo[1..]);
    if IsLive(l, _ => now, w.processes[w.lock.value.process].host, _ => alive) then Continue(w, w.lock.value.registry, rest)
    else
      var reaped := Reap(View(w), l);
      Continue(w, reaped.registry, rest).(repos := reaped.repos, history := w.history + [Revoking(l)])
  }

  function InsertRow(w: World, id: Reservation, now: int): World
    requires Shaped(View(w)) && InStage(w) && w.lock.value.stage.Admitting? && w.lock.value.stage.repo < |w.repos|
  {
    var (stage, me) := (w.lock.value.stage, w.processes[w.lock.value.process]);
    var l := NewLease(View(w), id, stage.repo, me.pid, me.host, stage.allocation, now);
    var after := Leases.Insert(Tally(View(w)), l);
    Continue(w, after.registry, Inserted(l))
    .(repos := after.repos, granted := w.granted[id := l], history := w.history + [Granting(l)])
  }

  function CommitEvidence(w: World, k: nat, bytes: nat): World
    requires InStage(w) && w.lock.value.stage.Acting? && k < |w.repos|
    requires Find(w.lock.value.registry.leases, w.lock.value.stage.lease.id).Some?
  {
    var row := Find(w.lock.value.registry.leases, w.lock.value.stage.lease.id).value;
    w.(repos := w.repos[k := Committed(w.repos[k], row.epoch, row.id, bytes)], history := w.history + [Committing(row)])
  }

  function WithoutRow(registry: Registry, id: Reservation): Registry {
    registry.(leases := Without(registry.leases, id))
  }

  ghost function Do(w: World, step: Step): World
    requires WellFormed(w) && Enabled(w, step)
  {
    match step
    case BeginAdmission(p, k, allocation) => Begin(w, p, Admitting(k, allocation, w.registry.leases))
    case BeginSweep(p) => Begin(w, p, Sweeping(w.registry.leases))
    case BeginPurge(p) => Begin(w, p, Purging)
    case Examine(now, alive) => ExamineFirst(w, now, alive)
    case Insert(id, _, now) => InsertRow(w, id, now)
    case RefuseQuota(_) => Commit(w, Tally(View(w)).registry, Idle)
    case CommitAdmission => Commit(w, w.lock.value.registry, Holding(w.lock.value.stage.lease))
    case Reacquire(p) => Begin(w, p, Acting(w.processes[p].activity.lease))
    case CommitRepository(k, bytes, _) => CommitEvidence(w, k, bytes)
    case FinishAction =>
      var (registry, l) := (w.lock.value.registry, w.lock.value.stage.lease);
      Continue(w, WithoutRow(registry, l.id), Settling(l, Without(registry.leases, l.id)))
    case FinishReconcile => Commit(w, Tally(View(w)).registry, Idle)
    case Purge(k, bytes) => PurgeBytes(w, k, bytes)
    case FinishPurge => Continue(w, w.lock.value.registry, Sweeping(w.lock.value.registry.leases))
    case Fail => Commit(w, w.registry, AfterFailure(w.lock.value.stage))
    case GiveUp(p) => w.(processes := Become(w, p, Dropping(w.processes[p].activity.lease.id)))
    case DropOwn(p) =>
      w.(registry := WithoutRow(w.registry, w.processes[p].activity.id), processes := Become(w, p, Idle))
    case KeepOwn(p) => w.(processes := Become(w, p, Idle))
    case Crash(p) =>
      w.(processes := Become(w, p, Dead),
         lock := if w.lock.Some? && w.lock.value.process == p then None else w.lock)
    case Restart(p, pid) => w.(processes := w.processes[p := w.processes[p].(pid := pid, activity := Idle)])
    case ActivateOwner(owner) => w.(registry := w.registry.(activeOwner := Some(owner)))
  }

  ghost predicate Possible(w: World, steps: seq<Step>)
    decreases |steps|
  {
    WellFormed(w) && (steps == [] || (Enabled(w, steps[0]) && Possible(Do(w, steps[0]), steps[1..])))
  }

  ghost function After(w: World, steps: seq<Step>): World
    requires Possible(w, steps)
    decreases |steps|
  {
    if steps == [] then w else After(Do(w, steps[0]), steps[1..])
  }

  /** Fresh repositories, no leases and no transaction. */
  ghost predicate Initial(w: World) {
    && w.lock == None && w.registry.leases == [] && w.granted == map[] && w.history == []
    && |w.registry.owners| == |w.registry.usage| == |w.registry.epochs| == |w.repos|
    && forall k :: 0 <= k < |w.repos| ==> w.repos[k] == RepoDb(0, 0, None, 0, None)
  }

  // ---- What every reachable world satisfies ----

  ghost predicate Known(l: Lease, granted: map<Reservation, Lease>) {
    l.id in granted && granted[l.id] == l
  }

  ghost predicate AllKnown(leases: seq<Lease>, granted: map<Reservation, Lease>) {
    forall l <- leases :: Known(l, granted)
  }

  /** A reservation is the repository's holder exactly while its epoch is the authoritative one. */
  ghost predicate GrantOk(id: Reservation, l: Lease, owners: seq<Owner>, repos: seq<RepoDb>) {
    && l.id == id && l.repo < |repos| && |owners| == |repos| && l.owner == owners[l.repo]
    && 0 < l.epoch <= repos[l.repo].epoch
    && (l.epoch == repos[l.repo].epoch <==> repos[l.repo].active == Some(id))
  }

  ghost predicate GrantsOk(granted: map<Reservation, Lease>, owners: seq<Owner>, repos: seq<RepoDb>) {
    forall id <- granted :: GrantOk(id, granted[id], owners, repos)
  }

  ghost predicate RepoOk(k: nat, db: RepoDb, granted: map<Reservation, Lease>) {
    && db.lastCommitted <= db.epoch
    && (db.active.Some? ==> db.active.value in granted && granted[db.active.value].repo == k)
  }

  ghost predicate ReposOk(repos: seq<RepoDb>, granted: map<Reservation, Lease>) {
    forall k :: 0 <= k < |repos| ==> RepoOk(k, repos[k], granted)
  }

  /** A row of the registry that the admission's reconcile has removed is no holder any more. */
  ghost predicate RemovedAreFenced(leases: seq<Lease>, kept: seq<Lease>, repos: seq<RepoDb>) {
    forall l <- leases :: l in kept || (l.repo < |repos| && repos[l.repo].active != Some(l.id))
  }

  ghost predicate TransactionOk(w: World, t: Transaction) {
    && AllKnown(t.registry.leases, w.granted) && SingleWriter(t.registry.leases)
    && (t.stage.Admitting? || t.stage.Settling? || t.stage.Sweeping? ==> AllKnown(t.stage.todo, w.granted))
    && (t.stage.Admitting? ==> RemovedAreFenced(w.registry.leases, t.registry.leases, w.repos))
  }

  ghost predicate RowsOk(w: World) {
    && AllKnown(w.registry.leases, w.granted) && SingleWriter(w.registry.leases)
    && (w.lock.Some? ==> TransactionOk(w, w.lock.value))
  }

  /** The reservations that have a row in the registry or in the open transaction. */
  ghost function Listed(w: World): set<Reservation> {
    Ids(w.registry.leases) + Ids(View(w).registry.leases)
  }

  /** The allocation a repository's holder may still fill: it has a row and has not committed. */
  ghost function Open(db: RepoDb, granted: map<Reservation, Lease>, listed: set<Reservation>): nat {
    if db.active.Some? && db.active.value in granted && db.active.value in listed && db.lastCommitted < db.epoch
    then granted[db.active.value].allocation
    else 0
  }

  /** Committed bytes and open allocations of the first n repositories in the scope. */
  ghost function Charged(
    repos: seq<RepoDb>, owners: seq<Owner>, granted: map<Reservation, Lease>, listed: set<Reservation>, scope: Scope, n: nat): nat
    requires n <= |repos| && n <= |owners|
  {
    if n == 0 then 0
    else
      Charged(repos, owners, granted, listed, scope, n - 1)
      + if Covers(scope, n - 1, owners[n - 1]) then repos[n - 1].bytes + Open(repos[n - 1], granted, listed) else 0
  }

  ghost function ChargedTo(w: World, scope: Scope): nat
    requires |w.registry.owners| == |w.repos|
  {
    Charged(w.repos, w.registry.owners, w.granted, Listed(w), scope, |w.repos|)
  }

  ghost predicate WithinCap(w: World, scope: Scope)
    requires |w.registry.owners| == |w.repos|
  {
    ChargedTo(w, scope) <= Cap(w.policy, scope) || ChargedTo(w, scope) == 0
  }

  ghost predicate QuotaOk(w: World)
    requires |w.registry.owners| == |w.repos|
  {
    forall scope :: WithinCap(w, scope)
  }

  /** What an event still says of its repository. */
  ghost predicate EventOk(e: Event, granted: map<Reservation, Lease>, repos: seq<RepoDb>) {
    && Known(e.lease, granted) && e.lease.repo < |repos|
    && match e
       case Granting(l) => l.epoch <= repos[l.repo].epoch
       case Revoking(l) => l.epoch < repos[l.repo].epoch
       case Committing(l) => l.epoch <= repos[l.repo].lastCommitted
  }

  ghost predicate EventsOk(w: World) {
    forall e <- w.history :: EventOk(e, w.granted, w.repos)
  }

  /** What may come before an event of the same repository: before an admission, only older leases; before a commit,
      admissions up to its own, and revocations and commits of older leases only. */
  ghost predicate MayPrecede(e: Event, later: Event) {
    match later
    case Granting(l) => e.lease.epoch < l.epoch
    case Revoking(_) => true
    case Committing(l) => e.lease.epoch < l.epoch || (e.Granting? && e.lease.epoch == l.epoch)
  }

  ghost predicate Fenced(history: seq<Event>) {
    forall i, j :: 0 <= i < j < |history| && history[i].lease.repo == history[j].lease.repo ==> MayPrecede(history[i], history[j])
  }

  ghost predicate Recorded(w: World) {
    forall id <- w.granted :: Granting(w.granted[id]) in w.history
  }

  /** The last admission or revocation in repository k. */
  ghost function Latest(history: seq<Event>, k: nat): Option<Event> {
    if history == [] then None
    else
      var last := history[|history| - 1];
      if last.lease.repo == k && !last.Committing? then Some(last) else Latest(history[..|history| - 1], k)
  }

  ghost function LastCommit(history: seq<Event>, k: nat): Option<Lease> {
    if history == [] then None
    else
      var last := history[|history| - 1];
      if last.lease.repo == k && last.Committing? then Some(last.lease) else LastCommit(history[..|history| - 1], k)
  }

  /** The repository file is what the history says: its holder, and its watermark. */
  ghost predicate Matches(db: RepoDb, latest: Option<Event>, commit: Option<Lease>) {
    && (match latest
        case Some(Granting(l)) => db.active == Some(l.id) && db.epoch == l.epoch
        case _ => db.active == None)
    && db.lastCommitted == if commit.Some? then commit.value.epoch else 0
  }

  ghost predicate RepoMatches(k: nat, db: RepoDb, history: seq<Event>) {
    Matches(db, Latest(history, k), LastCommit(history, k))
  }

  ghost predicate HistoryExact(w: World) {
    Recorded(w) && forall k :: 0 <= k < |w.repos| ==> RepoMatches(k, w.repos[k], w.history)
  }

  ghost predicate Inv(w: World) {
    && WellFormed(w) && GrantsOk(w.granted, w.registry.owners, w.repos) && ReposOk(w.repos, w.granted)
    && RowsOk(w) && QuotaOk(w) && EventsOk(w) && Fenced(w.history)
    && HistoryExact(w)
  }

  // ---- Steps that touch no repository ----

  /** The steps whose only durable effect, if any, is on the registry rows. */
  predicate Quiet(step: Step) {
    !step.Examine? && !step.Insert? && !step.CommitRepository? && !step.Purge?
  }

  ghost predicate SameRepositories(w: World, w': World) {
    && w'.repos == w.repos && w'.granted == w.granted && w'.history == w.history && w'.policy == w.policy
    && w'.registry.owners == w.registry.owners
  }

  // ---- Quota ----

  /** What repository k counts for. */
  ghost function Item(db: RepoDb, granted: map<Reservation, Lease>, listed: set<Reservation>): nat {
    db.bytes + Open(db, granted, listed)
  }

  /** Pending allocations of the first n repositories, one repository at a time. */
  ghost function PendingByRepo(leases: seq<Lease>, owners: seq<Owner>, scope: Scope, n: nat): nat
    requires n <= |owners|
  {
    if n == 0 then 0
    else
      PendingByRepo(leases, owners, scope, n - 1)
      + if Covers(scope, n - 1, owners[n - 1]) then Pending(leases, OfRepo(n - 1)) else 0
  }

  ghost predicate OwnedRight(leases: seq<Lease>, owners: seq<Owner>) {
    forall l <- leases :: l.repo < |owners| && l.owner == owners[l.repo]
  }

  /** Epochs and watermarks never fall; a commit raises the watermark to the epoch; every other step keeps it. */
  ghost predicate Later(before: RepoDb, after: RepoDb) {
    && before.epoch <= after.epoch && before.lastCommitted <= after.lastCommitted
  }

  ghost predicate AllLater(before: seq<RepoDb>, after: seq<RepoDb>) {
    |before| == |after| && forall k :: 0 <= k < |before| ==> Later(before[k], after[k])
  }

  // ---- Recovery ----

  /** The examinations of an uninterrupted sweep at one clock reading. */
  function SweepSteps(todo: seq<Lease>, now: Clock, alive: nat -> bool): seq<Step> {
    if todo == [] then [FinishReconcile] else [Examine(now(todo[0].id), alive(todo[0].pid))] + SweepSteps(todo[1..], now, alive)
  }
}
