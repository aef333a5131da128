/** A guarded write that nothing interrupts, as a run of steps (src/context/store.ts, withQuotaWrite and quotaWrite). */
module LeaseWrites {
  import opened Prelude
  import opened Leases
  import opened LeaseWorld
  import opened LeaseSteps
  import opened LeaseProtocol

  function ExamineSteps(todo: seq<Lease>, now: Clock, alive: nat -> bool): seq<Step> {
    if todo == [] then [] else [Examine(now(todo[0].id), alive(todo[0].pid))] + ExamineSteps(todo[1..], now, alive)
  }

  lemma {:induction false} RunConcat(w: World, a: seq<Step>, b: seq<Step>)
    requires Possible(w, a) && Possible(After(w, a), b)
    ensures Possible(w, a + b) && After(w, a + b) == After(After(w, a), b)
    decreases |a|
  {
    if a == [] {
      assert a + b == b;
    } else {
      assert (a + b)[1..] == a[1..] + b;
      RunConcat(Do(w, a[0]), a[1..], b);
    }
  }

  lemma {:induction false} OneMoreStep(w: World, a: seq<Step>, step: Step)
    requires Possible(w, a) && WellFormed(After(w, a)) && Enabled(After(w, a), step) && WellFormed(Do(After(w, a), step))
    ensures Possible(w, a + [step]) && After(w, a + [step]) == Do(After(w, a), step)
  {
    var mid := After(w, a);
    assert [step][1..] == [];
    assert After(mid, [step]) == After(Do(mid, step), []);
    RunConcat(w, a, [step]);
  }

  /** All the examinations of a reconcile, inside the transaction. */
  lemma {:induction false} ExamineAll(w: World, now: Clock, alive: nat -> bool)
    requires WellFormed(w) && InStage(w)
    requires w.lock.value.stage.Admitting? || w.lock.value.stage.Settling?
    requires ReapAll(View(w), w.lock.value.stage.todo, now, w.processes[w.lock.value.process].host, alive).1
    ensures
      var (t, host) := (w.lock.value, w.processes[w.lock.value.process].host);
      var (steps, reaped) := (ExamineSteps(t.stage.todo, now, alive), ReapAll(View(w), t.stage.todo, now, host, alive).0);
      && Possible(w, steps)
      && After(w, steps) ==
           w.(lock := Some(Transaction(t.process, reaped.registry, t.stage.(todo := []))), repos := reaped.repos,
              history := After(w, steps).history)
      && (AllLive(t.stage.todo, now, host, alive) ==> After(w, steps).history == w.history)
    decreases |w.lock.value.stage.todo|
  {
    var (todo, host) := (w.lock.value.stage.todo, w.processes[w.lock.value.process].host);
    var steps := ExamineSteps(todo, now, alive);
    if todo != [] {
      var step := Examine(now(todo[0].id), alive(todo[0].pid));
      assert steps[0] == step && steps[1..] == ExamineSteps(todo[1..], now, alive);
      ExamineAll(Do(w, step), now, alive);
    }
  }

  // ---- From the completed reconcile to the end of the action ----

  /** A write of a process with its reconcile done: what it will be admitted with, and what it will commit. */
  datatype Request = Request(process: nat, repo: nat, allocation: nat, id: Reservation, overhead: Overhead, at: int, commitAt: int, bytes: nat)

  ghost predicate Ready(w: World, r: Request) {
    && Inv(w) && w.lock.Some? && w.lock.value.process == r.process && w.lock.value.stage == Admitting(r.repo, r.allocation, [])
    && MayInsert(w, r.id, r.overhead)
    && r.commitAt < r.at + 300000 && r.bytes <= w.repos[r.repo].bytes + r.allocation
  }

  /** The lease it is granted. */
  ghost function LeaseOf(w: World, r: Request): Lease
    requires Ready(w, r)
  {
    var me := w.processes[r.process];
    Lease(r.id, r.repo, w.registry.owners[r.repo], me.pid, me.host, r.at + 300000, r.allocation, w.repos[r.repo].epoch + 1)
  }

  function BodySteps(r: Request): seq<Step> {
    [Step.Insert(r.id, r.overhead, r.at), CommitAdmission, Reacquire(r.process), CommitRepository(r.repo, r.bytes, r.commitAt), FinishAction]
  }

  /** The registry while the lease is held, and the repository when it has committed. */
  ghost function HeldRegistry(w: World, r: Request): Registry
    requires Ready(w, r)
  {
    var before := Tally(View(w)).registry;
    before.(leases := before.leases + [LeaseOf(w, r)], epochs := before.epochs[r.repo := LeaseOf(w, r).epoch])
  }

  /** The world when its lease is inserted. */
  ghost function GrantedWorld(w: World, r: Request): World
    requires Ready(w, r)
  {
    var l := LeaseOf(w, r);
    w.(lock := Some(Transaction(r.process, HeldRegistry(w, r), Inserted(l))),
       repos := w.repos[r.repo := w.repos[r.repo].(epoch := l.epoch, active := Some(r.id))],
       granted := w.granted[r.id := l], history := w.history + [Granting(l)])
  }

  lemma {:induction false} InsertIs(w: World, r: Request)
    requires Ready(w, r)
    ensures InsertRow(w, r.id, r.at) == GrantedWorld(w, r)
  {
  }

  lemma {:induction false} Admitted(w: World, r: Request)
    requires Ready(w, r)
    ensures
      var step := Step.Insert(r.id, r.overhead, r.at);
      Enabled(w, step) && Do(w, step) == GrantedWorld(w, r) && Inv(GrantedWorld(w, r))
  {
    InvKept(w, Step.Insert(r.id, r.overhead, r.at));
    InsertIs(w, r);
  }

  /** The world in which its action runs. */
  ghost function ActingWorld(w: World, r: Request): World
    requires Ready(w, r)
  {
    var (l, held) := (LeaseOf(w, r), HeldRegistry(w, r));
    w.(registry := held, lock := Some(Transaction(r.process, held, Acting(l))),
       repos := w.repos[r.repo := w.repos[r.repo].(epoch := l.epoch, active := Some(r.id))],
       processes := w.processes[r.process := w.processes[r.process].(activity := Holding(l))],
       granted := w.granted[r.id := l], history := w.history + [Granting(l)])
  }

  lemma {:induction false} ActionStarts(w: World, r: Request)
    requires Ready(w, r)
    ensures
      var steps := [Step.Insert(r.id, r.overhead, r.at), CommitAdmission, Reacquire(r.process)];
      Possible(w, steps) && After(w, steps) == ActingWorld(w, r) && Inv(ActingWorld(w, r))
  {
    Admitted(w, r);
    var a := Do(w, Step.Insert(r.id, r.overhead, r.at));
    InvKept(a, CommitAdmission);
    var b := Do(a, CommitAdmission);
    InvKept(b, Reacquire(r.process));
    assert Do(b, Reacquire(r.process)) == ActingWorld(w, r);
    OneStep(b, Reacquire(r.process), []);
    OneStep(a, CommitAdmission, [Reacquire(r.process)]);
    OneStep(w, Step.Insert(r.id, r.overhead, r.at), [CommitAdmission, Reacquire(r.process)]);
    assert [Reacquire(r.process)] + [] == [Reacquire(r.process)];
    assert [CommitAdmission] + [Reacquire(r.process)] == [CommitAdmission, Reacquire(r.process)];
    assert [Step.Insert(r.id, r.overhead, r.at)] + [CommitAdmission, Reacquire(r.process)]
        == [Step.Insert(r.id, r.overhead, r.at), CommitAdmission, Reacquire(r.process)];
  }

  lemma {:induction false} OwnRow(w: World, r: Request)
    requires Ready(w, r)
    ensures
      var (rows, l) := (View(w).registry.leases, LeaseOf(w, r));
      && Find(rows + [l], r.id) == Some(l) && Without(rows + [l], r.id) == rows
  {
    var (rows, l) := (View(w).registry.leases, LeaseOf(w, r));
    forall m | m in rows ensures m.id != r.id {
      assert Known(m, w.granted);
    }
    LastRow(rows, l);
  }

  lemma {:induction false} LastRow(rows: seq<Lease>, l: Lease)
    requires forall m <- rows :: m.id != l.id
    ensures Find(rows + [l], l.id) == Some(l) && Without(rows + [l], l.id) == rows
  {
    if rows == [] {
      assert rows + [l] == [l] && [l][1..] == [];
    } else {
      assert (rows + [l])[1..] == rows[1..] + [l];
      LastRow(rows[1..], l);
    }
  }

  /** The world after its commit and its release of the row, before the last reconcile. */
  ghost function WrittenWorld(w: World, r: Request): World
    requires Ready(w, r)
  {
    var (l, acting, rows) := (LeaseOf(w, r), ActingWorld(w, r), View(w).registry.leases);
    acting.(lock := Some(Transaction(r.process, HeldRegistry(w, r).(leases := rows), Settling(l, rows))),
            repos := w.repos[r.repo := RepoDb(r.bytes, l.epoch, Some(r.id), l.epoch, Some(r.id))],
            history := acting.history + [Committing(l)])
  }

  /** The world between the commit and the release. */
  ghost function CommittedWorld(w: World, r: Request): World
    requires Ready(w, r)
  {
    var (l, acting) := (LeaseOf(w, r), ActingWorld(w, r));
    acting.(repos := w.repos[r.repo := RepoDb(r.bytes, l.epoch, Some(r.id), l.epoch, Some(r.id))],
            history := acting.history + [Committing(l)])
  }

  lemma {:induction false} MayCommitNow(w: World, r: Request)
    requires Ready(w, r)
    ensures WellFormed(ActingWorld(w, r)) && Enabled(ActingWorld(w, r), CommitRepository(r.repo, r.bytes, r.commitAt))
  {
    ActionStarts(w, r);
    OwnRow(w, r);
    WatermarkIsLower(w, r.repo);
    HeldMayCommit(w, r);
  }

  lemma {:induction false} WatermarkIsLower(w: World, k: nat)
    requires Inv(w) && k < |w.repos|
    ensures w.repos[k].lastCommitted <= w.repos[k].epoch
  {
    assert RepoOk(k, w.repos[k], w.granted);
  }

  lemma {:induction false} HeldMayCommit(w: World, r: Request)
    requires Ready(w, r) && Shaped(View(ActingWorld(w, r))) && w.repos[r.repo].lastCommitted <= w.repos[r.repo].epoch
    ensures MayCommitHeld(ActingWorld(w, r), r.repo, r.bytes, r.commitAt)
  {
    OwnRow(w, r);
  }

  lemma {:induction false} WriteTwice<T>(s: seq<T>, k: nat, x: T, y: T)
    requires k < |s|
    ensures s[k := x][k := y] == s[k := y]
  {
  }

  lemma {:induction false} CommitIs(w: World, r: Request)
    requires Ready(w, r) && WellFormed(ActingWorld(w, r)) && MayCommitHeld(ActingWorld(w, r), r.repo, r.bytes, r.commitAt)
    ensures CommitEvidence(ActingWorld(w, r), r.repo, r.bytes) == CommittedWorld(w, r)
  {
    OwnRow(w, r);
    var l := LeaseOf(w, r);
    WriteTwice(w.repos, r.repo, w.repos[r.repo].(epoch := l.epoch, active := Some(r.id)),
               RepoDb(r.bytes, l.epoch, Some(r.id), l.epoch, Some(r.id)));
  }

  lemma {:induction false} Commits(w: World, r: Request)
    requires Ready(w, r)
    ensures
      var commit := CommitRepository(r.repo, r.bytes, r.commitAt);
      && WellFormed(ActingWorld(w, r)) && Enabled(ActingWorld(w, r), commit)
      && Do(ActingWorld(w, r), commit) == CommittedWorld(w, r) && Inv(CommittedWorld(w, r))
  {
    MayCommitNow(w, r);
    CommitIs(w, r);
    ActionStarts(w, r);
    InvKept(ActingWorld(w, r), CommitRepository(r.repo, r.bytes, r.commitAt));
  }

  lemma {:induction false} Finishes(w: World, r: Request)
    requires Ready(w, r) && Inv(CommittedWorld(w, r))
    ensures
      && Enabled(CommittedWorld(w, r), FinishAction)
      && Do(CommittedWorld(w, r), FinishAction) == WrittenWorld(w, r) && Inv(WrittenWorld(w, r))
  {
    OwnRow(w, r);
    InvKept(CommittedWorld(w, r), FinishAction);
  }

  lemma {:induction false} ActionCommits(w: World, r: Request)
    requires Ready(w, r)
    ensures
      var steps := [CommitRepository(r.repo, r.bytes, r.commitAt), FinishAction];
      Possible(ActingWorld(w, r), steps) && After(ActingWorld(w, r), steps) == WrittenWorld(w, r) && Inv(WrittenWorld(w, r))
  {
    Commits(w, r);
    Finishes(w, r);
    TwoSteps(ActingWorld(w, r), CommitRepository(r.repo, r.bytes, r.commitAt), FinishAction);
  }

  lemma {:induction false} TwoSteps(w: World, a: Step, b: Step)
    requires WellFormed(w) && Enabled(w, a) && WellFormed(Do(w, a)) && Enabled(Do(w, a), b) && WellFormed(Do(Do(w, a), b))
    ensures Possible(w, [a, b]) && After(w, [a, b]) == Do(Do(w, a), b)
  {
    OneStep(Do(w, a), b, []);
    OneStep(w, a, [b]);
    assert [b] + [] == [b] && [a] + [b] == [a, b];
  }

  // ---- The whole write ----

  /** What the first reconcile leaves. */
  ghost function Settled(w: World, r: Request, now: Clock, alive: nat -> bool): Stores
    requires WellFormed(w) && r.process < |w.processes|
  {
    ReapAll(View(w), View(w).registry.leases, now, w.processes[r.process].host, alive).0
  }

  /** The lock is free and the process idle; no reconcile is stopped; the repository may be opened, has no writer left, and
      the allocation fits; the commit comes within the lease and within the allocation. */
  ghost predicate Unhindered(w: World, r: Request, now: Clock, alive: nat -> bool) {
    && Inv(w) && Unlocked(w, r.process, Idle) && r.repo < |w.repos| && r.id !in w.granted
    && Unstopped(View(w), w.registry.leases, now, w.processes[r.process].host, alive)
    && r.commitAt < r.at + 300000 && r.bytes <= w.repos[r.repo].bytes + r.allocation
    && var settled := Settled(w, r, now, alive);
       && CanWrite(settled, r.repo) && !HasWriter(settled.registry.leases, r.repo)
       && Fits(w.policy, settled, r.repo, r.allocation, r.overhead)
  }

  /** The world when the first reconcile is complete. */
  ghost function AdmittingWorld(w: World, r: Request, now: Clock, alive: nat -> bool, history: seq<Event>): World
    requires WellFormed(w) && r.process < |w.processes|
  {
    var settled := Settled(w, r, now, alive);
    w.(lock := Some(Transaction(r.process, settled.registry, Admitting(r.repo, r.allocation, []))), repos := settled.repos,
       history := history)
  }

  lemma {:induction false} Reconciles(w: World, r: Request, now: Clock, alive: nat -> bool) returns (e: World)
    requires Unhindered(w, r, now, alive)
    ensures
      var steps := [BeginAdmission(r.process, r.repo, r.allocation)] + ExamineSteps(w.registry.leases, now, alive);
      Possible(w, steps) && After(w, steps) == e && e == AdmittingWorld(w, r, now, alive, e.history) && Inv(e)
  {
    var begin := BeginAdmission(r.process, r.repo, r.allocation);
    var steps := ExamineSteps(w.registry.leases, now, alive);
    SweepCompletes(View(w), w.registry.leases, now, w.processes[r.process].host, alive);
    ExamineAll(Do(w, begin), now, alive);
    OneStep(w, begin, steps);
    InvAlongRun(w, [begin] + steps);
    e := After(w, [begin] + steps);
  }

  lemma {:induction false} IsReady(w: World, r: Request, now: Clock, alive: nat -> bool, e: World)
    requires Unhindered(w, r, now, alive) && Inv(e) && e == AdmittingWorld(w, r, now, alive, e.history)
    ensures Ready(e, r)
  {
    SweepOnlyBumps(View(w), w.registry.leases, now, w.processes[r.process].host, alive);
    assert Bumped(w.repos[r.repo], e.repos[r.repo]);
    assert View(e) == Settled(w, r, now, alive);
  }

  /** The world when the write has ended. */
  ghost function EndedWorld(e: World, r: Request): World
    requires Ready(e, r)
  {
    var written := WrittenWorld(e, r);
    written.(registry := Tally(View(written)).registry, lock := None,
             processes := e.processes[r.process := e.processes[r.process].(activity := Idle)])
  }

  /** The world when the last reconcile has found every row live. */
  ghost function SettledWorld(e: World, r: Request): World
    requires Ready(e, r)
  {
    var written := WrittenWorld(e, r);
    written.(lock := Some(written.lock.value.(stage := Settling(LeaseOf(e, r), []))))
  }

  lemma {:induction false} AllExamined(e: World, r: Request, now: Clock, alive: nat -> bool)
    requires Ready(e, r) && Inv(WrittenWorld(e, r))
    requires AllLive(View(e).registry.leases, now, e.processes[r.process].host, alive)
    ensures
      var steps := ExamineSteps(View(e).registry.leases, now, alive);
      && Possible(WrittenWorld(e, r), steps)
      && After(WrittenWorld(e, r), steps) == SettledWorld(e, r) && Inv(SettledWorld(e, r))
  {
    var (written, rows) := (WrittenWorld(e, r), View(e).registry.leases);
    NothingToReap(View(written), rows, now, e.processes[r.process].host, alive);
    ExamineAll(written, now, alive);
    InvAlongRun(written, ExamineSteps(rows, now, alive));
  }

  lemma {:induction false} Ends(e: World, r: Request)
    requires Ready(e, r) && Inv(SettledWorld(e, r))
    ensures Enabled(SettledWorld(e, r), FinishReconcile) && Do(SettledWorld(e, r), FinishReconcile) == EndedWorld(e, r)
    ensures Inv(EndedWorld(e, r))
  {
    InvKept(SettledWorld(e, r), FinishReconcile);
  }

  lemma {:induction false} Settles(e: World, r: Request, now: Clock, alive: nat -> bool)
    requires Ready(e, r) && Inv(WrittenWorld(e, r))
    requires AllLive(View(e).registry.leases, now, e.processes[r.process].host, alive)
    ensures
      var steps := ExamineSteps(View(e).registry.leases, now, alive) + [FinishReconcile];
      Possible(WrittenWorld(e, r), steps) && After(WrittenWorld(e, r), steps) == EndedWorld(e, r)
  {
    AllExamined(e, r, now, alive);
    Ends(e, r);
    OneMoreStep(WrittenWorld(e, r), ExamineSteps(View(e).registry.leases, now, alive), FinishReconcile);
  }

  function WriteSteps(rows: seq<Lease>, kept: seq<Lease>, r: Request, now: Clock, alive: nat -> bool): seq<Step> {
    [BeginAdmission(r.process, r.repo, r.allocation)] + ExamineSteps(rows, now, alive)
    + [Step.Insert(r.id, r.overhead, r.at), CommitAdmission, Reacquire(r.process)]
    + [CommitRepository(r.repo, r.bytes, r.commitAt), FinishAction]
    + (ExamineSteps(kept, now, alive) + [FinishReconcile])
  }

  lemma {:induction false} WriteRuns(w: World, r: Request, now: Clock, alive: nat -> bool) returns (e: World)
    requires Unhindered(w, r, now, alive)
    ensures e == AdmittingWorld(w, r, now, alive, e.history) && Ready(e, r)
    ensures
      var steps := WriteSteps(w.registry.leases, Settled(w, r, now, alive).registry.leases, r, now, alive);
      Possible(w, steps) && After(w, steps) == EndedWorld(e, r)
  {
    var (rows, host) := (w.registry.leases, w.processes[r.process].host);
    e := Reconciles(w, r, now, alive);
    IsReady(w, r, now, alive, e);
    ActionStarts(e, r);
    ActionCommits(e, r);
    RowsAreKeyed(w);
    SettledAreLive(w, r, now, alive);
    Settles(e, r, now, alive);
    var a := [BeginAdmission(r.process, r.repo, r.allocation)] + ExamineSteps(rows, now, alive);
    var b := [Step.Insert(r.id, r.overhead, r.at), CommitAdmission, Reacquire(r.process)];
    var c := [CommitRepository(r.repo, r.bytes, r.commitAt), FinishAction];
    RunConcat(w, a, b);
    RunConcat(w, a + b, c);
    RunConcat(w, a + b + c, ExamineSteps(View(e).registry.leases, now, alive) + [FinishReconcile]);
  }

  lemma {:induction false} SettledAreLive(w: World, r: Request, now: Clock, alive: nat -> bool)
    requires Unhindered(w, r, now, alive)
    ensures Settled(w, r, now, alive).registry.leases == Live(w.registry.leases, now, w.processes[r.process].host, alive)
    ensures AllLive(Settled(w, r, now, alive).registry.leases, now, w.processes[r.process].host, alive)
  {
    var (rows, host) := (w.registry.leases, w.processes[r.process].host);
    RowsAreKeyed(w);
    SweepCompletes(View(w), rows, now, host, alive);
    assert [] + rows == rows && [] + Live(rows, now, host, alive) == Live(rows, now, host, alive);
    SweepKeepsTheLive(View(w), [], rows, now, host, alive);
    LiveAreLive(rows, now, host, alive);
  }

  /** From any reachable world with the lock free, a write that nothing hinders runs through: its repository then holds the
      new bytes under a new epoch, committed and receipted; the other repositories have at most been revoked; the usage is
      exact; and its own row is gone, with just the live rows left. */
  lemma {:induction false} GuardedWrite(w: World, r: Request, now: Clock, alive: nat -> bool)
    requires Unhindered(w, r, now, alive)
    ensures
      var rows := Live(w.registry.leases, now, w.processes[r.process].host, alive);
      var steps := WriteSteps(w.registry.leases, rows, r, now, alive);
      && Possible(w, steps)
      && var after := After(w, steps);
         && Inv(after) && after.lock == None && after.processes == w.processes && after.registry.leases == rows
         && |after.repos| == |w.repos| == |after.registry.usage|
         && (forall j :: 0 <= j < |w.repos| ==> after.registry.usage[j] == after.repos[j].bytes)
         && (forall j :: 0 <= j < |w.repos| && j != r.repo ==> Bumped(w.repos[j], after.repos[j]))
         && var db := after.repos[r.repo];
            && w.repos[r.repo].epoch < db.epoch == after.registry.epochs[r.repo]
            && db == RepoDb(r.bytes, db.epoch, Some(r.id), db.epoch, Some(r.id))
  {
    var e := WriteRuns(w, r, now, alive);
    SettledAreLive(w, r, now, alive);
    var steps := WriteSteps(w.registry.leases, Settled(w, r, now, alive).registry.leases, r, now, alive);
    InvAlongRun(w, steps);
    EndIs(w, r, now, alive, e);
  }

  lemma {:induction false} EndIs(w: World, r: Request, now: Clock, alive: nat -> bool, e: World)
    requires Unhindered(w, r, now, alive) && e == AdmittingWorld(w, r, now, alive, e.history) && Ready(e, r)
    ensures
      var after := EndedWorld(e, r);
      && after.lock == None && after.processes == w.processes
      && after.registry.leases == Settled(w, r, now, alive).registry.leases
      && |after.repos| == |w.repos| == |after.registry.usage|
      && (forall j :: 0 <= j < |w.repos| ==> after.registry.usage[j] == after.repos[j].bytes)
      && (forall j :: 0 <= j < |w.repos| && j != r.repo ==> Bumped(w.repos[j], after.repos[j]))
      && var db := after.repos[r.repo];
         && w.repos[r.repo].epoch < db.epoch == after.registry.epochs[r.repo]
         && db == RepoDb(r.bytes, db.epoch, Some(r.id), db.epoch, Some(r.id))
  {
    EndedRepos(w, r, now, alive, e);
    WriteTwice(w.processes, r.process, w.processes[r.process], w.processes[r.process]);
  }

  lemma {:induction false} EndedRepos(w: World, r: Request, now: Clock, alive: nat -> bool, e: World)
    requires Unhindered(w, r, now, alive) && e == AdmittingWorld(w, r, now, alive, e.history) && Ready(e, r)
    ensures
      var (repos, db) := (EndedWorld(e, r).repos, EndedWorld(e, r).repos[r.repo]);
      && |repos| == |w.repos| && (forall j :: 0 <= j < |w.repos| && j != r.repo ==> Bumped(w.repos[j], repos[j]))
      && w.repos[r.repo].epoch < db.epoch && db == RepoDb(r.bytes, db.epoch, Some(r.id), db.epoch, Some(r.id))
  {
    SweepOnlyBumps(View(w), w.registry.leases, now, w.processes[r.process].host, alive);
    assert Bumped(w.repos[r.repo], e.repos[r.repo]);
  }

  // ---- Writes that do not get through ----

  /** A failure or a crash of the process that holds the lock undoes the registry transaction and nothing else; a crash of
      another process leaves the lock alone. */
  lemma RollsBack(w: World, step: Step)
    requires Inv(w) && w.lock.Some? && Enabled(w, step) && (step.Fail? || step.Crash?)
    ensures
      var (after, p) := (Do(w, step), w.lock.value.process);
      && after.registry == w.registry && after.repos == w.repos
      && after.lock == (if step == Fail || step == Crash(p) then None else w.lock)
      && |after.processes| == |w.processes|
      && (step.Crash? ==> after.processes[step.process].activity == Dead)
  {
  }

  /** A write that fails while it holds its lease, and then deletes its row: the row is gone, every other row and every
      repository is as it was, and the process is idle. */
  lemma {:induction false} FailedWrite(w: World, l: Lease)
    requires Inv(w) && InStage(w)
    requires w.lock.value.stage == Inserted(l) || w.lock.value.stage == Acting(l)
      || (w.lock.value.stage.Settling? && w.lock.value.stage.lease == l)
    ensures
      var p := w.lock.value.process;
      var steps := [Fail, DropOwn(p)];
      && Possible(w, steps)
      && var after := After(w, steps);
         && after.lock == None && after.repos == w.repos
         && p < |after.processes| && after.processes[p].activity == Idle
         && forall m :: m in after.registry.leases <==> m in w.registry.leases && m.id != l.id
  {
    var p := w.lock.value.process;
    InvKept(w, Fail);
    InvKept(Do(w, Fail), DropOwn(p));
    TwoSteps(w, Fail, DropOwn(p));
  }

  /** A refused write has still reconciled: the live rows are left, the usage is exact, and nothing was granted. */
  lemma {:induction false} RefusedWrite(w: World, r: Request, now: Clock, alive: nat -> bool)
    requires Inv(w) && Unlocked(w, r.process, Idle) && r.repo < |w.repos|
    requires Unstopped(View(w), w.registry.leases, now, w.processes[r.process].host, alive)
    requires
      var settled := Settled(w, r, now, alive);
      !HasWriter(settled.registry.leases, r.repo) && !Fits(w.policy, settled, r.repo, r.allocation, r.overhead)
    ensures
      var steps := [BeginAdmission(r.process, r.repo, r.allocation)] + ExamineSteps(w.registry.leases, now, alive) + [RefuseQuota(r.overhead)];
      && Possible(w, steps)
      && var after := After(w, steps);
         && after.lock == None && after.granted == w.granted && after.processes == w.processes
         && after.registry.leases == Live(w.registry.leases, now, w.processes[r.process].host, alive)
         && Recovered(Stores(after.registry, after.repos), now, w.processes[r.process].host, alive)
  {
    var host := w.processes[r.process].host;
    var begin, steps := BeginAdmission(r.process, r.repo, r.allocation), ExamineSteps(w.registry.leases, now, alive);
    SweepCompletes(View(w), w.registry.leases, now, host, alive);
    ExamineAll(Do(w, begin), now, alive);
    OneStep(w, begin, steps);
    InvAlongRun(w, [begin] + steps);
    var e := After(w, [begin] + steps);
    InvKept(e, RefuseQuota(r.overhead));
    OneMoreStep(w, [begin] + steps, RefuseQuota(r.overhead));
    RowsAreKeyed(w);
    Recovery(View(w), now, host, alive);
    WriteTwice(w.processes, r.process, w.processes[r.process], w.processes[r.process]);
  }

  /** A purge of some repository ends with a reconcile: the usage counts what is left, and only live rows remain. */
  lemma {:induction false} PurgeReconciles(w: World, p: nat, k: nat, bytes: nat, now: Clock, alive: nat -> bool)
    requires Inv(w) && Unlocked(w, p, Idle) && k < |w.repos| && bytes <= w.repos[k].bytes
    requires Unstopped(View(w), w.registry.leases, now, w.processes[p].host, alive)
    ensures
      var steps := [BeginPurge(p), Step.Purge(k, bytes)] + ([FinishPurge] + SweepSteps(w.registry.leases, now, alive));
      && Possible(w, steps)
      && var after := After(w, steps);
         && after.lock == None && |after.repos| == |w.repos| && after.repos[k].bytes == bytes
         && Recovered(Stores(after.registry, after.repos), now, w.processes[p].host, alive)
         && after.registry.leases == Live(w.registry.leases, now, w.processes[p].host, alive)
  {
    var a := Do(w, BeginPurge(p));
    InvKept(w, BeginPurge(p));
    var b := Do(a, Step.Purge(k, bytes));
    InvKept(a, Step.Purge(k, bytes));
    TwoSteps(w, BeginPurge(p), Step.Purge(k, bytes));
    var c := Do(b, FinishPurge);
    InvKept(b, FinishPurge);
    RowsAreKeyed(w);
    Recovery(View(c), now, w.processes[p].host, alive);
    SweepIsReconcile(c, now, alive);
    OneStep(b, FinishPurge, SweepSteps(w.registry.leases, now, alive));
    RunConcat(w, [BeginPurge(p), Step.Purge(k, bytes)], [FinishPurge] + SweepSteps(w.registry.leases, now, alive));
  }
}
