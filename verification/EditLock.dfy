/** The promise chains of one file's edits (src/tools/edit.ts). */
module EditLock {
  import opened Prelude

  type Key = string

  /** Waiting for the previous tail; running, with the file text it has read, if any; or released. */
  datatype Phase = Waiting | Running(read: Option<string>) | Released

  /** `previous` is the operation whose tail it awaits, None for an already resolved promise. `edit` is what it makes of
      the text it read, None for an operation that then writes nothing. */
  datatype Operation = Operation(key: Key, previous: Option<nat>, edit: string -> Option<string>, phase: Phase, wrote: bool)

  /** All operations in arrival order, the map of chain tails, and the files. */
  datatype Locks = Locks(ops: seq<Operation>, chains: map<Key, nat>, files: map<Key, string>)

  /** The tail of operation i: its own release, after everything it waited for. */
  predicate TailResolved(l: Locks, i: nat)
    decreases i
  {
    && i < |l.ops| && l.ops[i].phase.Released?
    && (l.ops[i].previous.Some? ==> l.ops[i].previous.value < i && TailResolved(l, l.ops[i].previous.value))
  }

  // ---- Steps of the event loop ----

  function Arrive(l: Locks, key: Key, edit: string -> Option<string>): Locks {
    var previous := if key in l.chains then Some(l.chains[key]) else None;
    l.(ops := l.ops + [Operation(key, previous, edit, Waiting, false)], chains := l.chains[key := |l.ops|])
  }

  predicate CanStart(l: Locks, i: nat) {
    && i < |l.ops| && l.ops[i].phase.Waiting?
    && (l.ops[i].previous.Some? ==> TailResolved(l, l.ops[i].previous.value))
  }

  function Start(l: Locks, i: nat): Locks
    requires CanStart(l, i)
  {
    l.(ops := l.ops[i := l.ops[i].(phase := Running(None))])
  }

  predicate IsRunning(l: Locks, i: nat) {
    i < |l.ops| && l.ops[i].phase.Running? && l.ops[i].key in l.files
  }

  function Read(l: Locks, i: nat): Locks
    requires IsRunning(l, i) && l.ops[i].phase.read.None?
  {
    l.(ops := l.ops[i := l.ops[i].(phase := Running(Some(l.files[l.ops[i].key])))])
  }

  predicate CanWrite(l: Locks, i: nat) {
    IsRunning(l, i) && !l.ops[i].wrote && l.ops[i].phase.read.Some? && l.ops[i].edit(l.ops[i].phase.read.value).Some?
  }

  function Write(l: Locks, i: nat): Locks
    requires CanWrite(l, i)
  {
    l.(ops := l.ops[i := l.ops[i].(wrote := true)],
       files := l.files[l.ops[i].key := l.ops[i].edit(l.ops[i].phase.read.value).value])
  }

  /** The finally block: release, and drop the chain when no one has come after. Also reached when the operation throws. */
  function Release(l: Locks, i: nat): Locks
    requires i < |l.ops| && l.ops[i].phase.Running?
  {
    var key := l.ops[i].key;
    l.(ops := l.ops[i := l.ops[i].(phase := Released)],
       chains := if key in l.chains && l.chains[key] == i then l.chains - {key} else l.chains)
  }

  datatype Step = DoArrive(key: Key, edit: string -> Option<string>) | DoStart(i: nat) | DoRead(i: nat) | DoWrite(i: nat) | DoRelease(i: nat)

  predicate Enabled(l: Locks, step: Step) {
    match step
    case DoArrive(key, _) => key in l.files
    case DoStart(i) => CanStart(l, i)
    case DoRead(i) => IsRunning(l, i) && l.ops[i].phase.read.None?
    case DoWrite(i) => CanWrite(l, i)
    case DoRelease(i) => i < |l.ops| && l.ops[i].phase.Running?
  }

  function Do(l: Locks, step: Step): Locks
    requires Enabled(l, step)
  {
    match step
    case DoArrive(key, edit) => Arrive(l, key, edit)
    case DoStart(i) => Start(l, i)
    case DoRead(i) => Read(l, i)
    case DoWrite(i) => Write(l, i)
    case DoRelease(i) => Release(l, i)
  }

  ghost predicate Next(l: Locks, m: Locks) {
    exists step :: Enabled(l, step) && m == Do(l, step)
  }

  ghost predicate IsRun(run: seq<Locks>) {
    && run != [] && run[0].ops == [] && run[0].chains == map[]
    && forall k :: 0 <= k < |run| - 1 ==> Next(run[k], run[k + 1])
  }

  // ---- Invariant ----

  /** What operation j knows of the earlier ones of its file. */
  ghost predicate LinkOk(l: Locks, j: nat)
    requires j < |l.ops|
  {
    var op := l.ops[j];
    && (op.previous.Some? ==>
          && op.previous.value < j && l.ops[op.previous.value].key == op.key
          && forall i :: op.previous.value < i < j ==> l.ops[i].key != op.key)
    && (op.previous.None? ==> forall i :: 0 <= i < j && l.ops[i].key == op.key ==> l.ops[i].phase.Released?)
    && (!op.phase.Waiting? ==> forall i :: 0 <= i < j && l.ops[i].key == op.key ==> l.ops[i].phase.Released?)
  }

  ghost predicate ChainsOk(l: Locks) {
    && (forall key <- l.chains.Keys ::
          && l.chains[key] < |l.ops| && l.ops[l.chains[key]].key == key && !l.ops[l.chains[key]].phase.Released?
          && forall i :: l.chains[key] < i < |l.ops| ==> l.ops[i].key != key)
    && (forall i :: 0 <= i < |l.ops| && l.ops[i].key !in l.chains ==> l.ops[i].phase.Released?)
  }

  /** The edits that were written, applied one after the other in arrival order. */
  function Serial(text: string, ops: seq<Operation>, key: Key): string {
    if ops == [] then text
    else
      var before := Serial(text, ops[..|ops| - 1], key);
      var op := ops[|ops| - 1];
      if op.key == key && op.wrote && op.edit(before).Some? then op.edit(before).value else before
  }

  ghost predicate FilesOk(initial: map<Key, string>, l: Locks) {
    && l.files.Keys == initial.Keys
    && (forall op <- l.ops :: op.key in l.files)
    && (forall key <- l.files.Keys :: l.files[key] == Serial(initial[key], l.ops, key))
    && (forall i :: 0 <= i < |l.ops| && l.ops[i].phase.Running? && l.ops[i].phase.read.Some? && !l.ops[i].wrote ==>
          l.ops[i].phase.read.value == l.files[l.ops[i].key])
    && (forall i :: 0 <= i < |l.ops| && l.ops[i].phase.Waiting? ==> !l.ops[i].wrote)
  }

  ghost predicate Ordered(l: Locks) {
    ChainsOk(l) && forall j :: 0 <= j < |l.ops| ==> LinkOk(l, j)
  }

  /** A resolved tail means everything up to it, on that file, is released. */
  lemma {:induction false} TailMeansAllReleased(l: Locks, j: nat)
    requires Ordered(l) && TailResolved(l, j)
    ensures forall i :: 0 <= i <= j && l.ops[i].key == l.ops[j].key ==> l.ops[i].phase.Released?
    decreases j
  {
    assert LinkOk(l, j);
    if l.ops[j].previous.Some? {
      TailMeansAllReleased(l, l.ops[j].previous.value);
    }
  }

  lemma ArriveOrdered(l: Locks, key: Key, edit: string -> Option<string>)
    requires Ordered(l)
    ensures Ordered(Arrive(l, key, edit))
  {
    var m := Arrive(l, key, edit);
    forall j | 0 <= j < |m.ops| ensures LinkOk(m, j) {
      if j < |l.ops| {
        assert LinkOk(l, j);
      }
    }
  }

  lemma PhaseOrdered(l: Locks, m: Locks, i: nat)
    requires Ordered(l) && i < |l.ops| && |m.ops| == |l.ops| && m.chains == l.chains
    requires m.ops == l.ops[i := l.ops[i].(phase := m.ops[i].phase, wrote := m.ops[i].wrote)]
    requires !l.ops[i].phase.Released? && !m.ops[i].phase.Released?
    requires !m.ops[i].phase.Waiting? ==> forall k :: 0 <= k < i && l.ops[k].key == l.ops[i].key ==> l.ops[k].phase.Released?
    ensures Ordered(m)
  {
    forall j | 0 <= j < |m.ops| ensures LinkOk(m, j) {
      assert LinkOk(l, j);
    }
  }

  lemma StartOrdered(l: Locks, i: nat)
    requires Ordered(l) && CanStart(l, i)
    ensures Ordered(Start(l, i))
  {
    assert LinkOk(l, i);
    if l.ops[i].previous.Some? {
      TailMeansAllReleased(l, l.ops[i].previous.value);
    }
    PhaseOrdered(l, Start(l, i), i);
  }

  lemma ReleaseOrdered(l: Locks, i: nat)
    requires Ordered(l) && i < |l.ops| && l.ops[i].phase.Running?
    ensures Ordered(Release(l, i))
  {
    var m := Release(l, i);
    assert LinkOk(l, i);
    forall j | 0 <= j < |m.ops| ensures LinkOk(m, j) {
      assert LinkOk(l, j);
    }
  }

  lemma {:induction false} SerialSameWrites(text: string, a: seq<Operation>, b: seq<Operation>, key: Key)
    requires |a| == |b|
    requires forall k :: 0 <= k < |a| ==> a[k].key == b[k].key && a[k].edit == b[k].edit && (a[k].key == key ==> a[k].wrote == b[k].wrote)
    ensures Serial(text, a, key) == Serial(text, b, key)
  {
    if a != [] {
      SerialSameWrites(text, a[..|a| - 1], b[..|b| - 1], key);
    }
  }

  /** Operations after n that have not written do not count. */
  lemma {:induction false} SerialUpTo(text: string, ops: seq<Operation>, key: Key, n: nat)
    requires n <= |ops| && forall k :: n <= k < |ops| && ops[k].key == key ==> !ops[k].wrote
    ensures Serial(text, ops, key) == Serial(text, ops[..n], key)
  {
    if n < |ops| {
      SerialUpTo(text, ops[..|ops| - 1], key, n);
      assert ops[..|ops| - 1][..n] == ops[..n];
    } else {
      assert ops[..n] == ops;
    }
  }

  /** While operation i runs, no other operation of its file does, and the later ones have written nothing. */
  lemma Alone(l: Locks, i: nat)
    requires Ordered(l) && i < |l.ops| && l.ops[i].phase.Running?
    ensures forall j :: 0 <= j < |l.ops| && j != i && l.ops[j].key == l.ops[i].key ==> !l.ops[j].phase.Running?
    ensures forall j :: i < j < |l.ops| && l.ops[j].key == l.ops[i].key ==> l.ops[j].phase.Waiting?
  {
    assert LinkOk(l, i);
    forall j | i < j < |l.ops| && l.ops[j].key == l.ops[i].key ensures l.ops[j].phase.Waiting? {
      assert LinkOk(l, j);
    }
  }

  lemma WriteSerial(text: string, l: Locks, i: nat)
    requires CanWrite(l, i)
    requires forall j :: i < j < |l.ops| && l.ops[j].key == l.ops[i].key ==> !l.ops[j].wrote
    requires l.files[l.ops[i].key] == Serial(text, l.ops, l.ops[i].key) == l.ops[i].phase.read.value
    ensures Serial(text, Write(l, i).ops, l.ops[i].key) == Write(l, i).files[l.ops[i].key]
  {
    var m, key := Write(l, i), l.ops[i].key;
    SerialUpTo(text, l.ops, key, i);
    SerialUpTo(text, m.ops, key, i + 1);
    assert m.ops[..i + 1][..i] == l.ops[..i];
  }

  lemma WriteFiles(initial: map<Key, string>, l: Locks, i: nat)
    requires Ordered(l) && FilesOk(initial, l) && CanWrite(l, i)
    ensures FilesOk(initial, Write(l, i))
  {
    var m, key := Write(l, i), l.ops[i].key;
    Alone(l, i);
    assert l.ops[i] in l.ops;
    WriteSerial(initial[key], l, i);
    forall other | other in m.files.Keys && other != key ensures m.files[other] == Serial(initial[other], m.ops, other) {
      SerialSameWrites(initial[other], l.ops, m.ops, other);
    }
    SameKeys(l, m, i);
  }

  lemma SameKeys(l: Locks, m: Locks, i: nat)
    requires i < |l.ops| && |m.ops| == |l.ops| && m.files.Keys == l.files.Keys
    requires m.ops[i].key == l.ops[i].key && forall j :: 0 <= j < |m.ops| && j != i ==> m.ops[j] == l.ops[j]
    requires forall op <- l.ops :: op.key in l.files
    ensures forall op <- m.ops :: op.key in m.files
  {
    forall op | op in m.ops ensures op.key in m.files {
      var j :| 0 <= j < |m.ops| && m.ops[j] == op;
      assert l.ops[j] in l.ops;
    }
  }

  lemma QuietFiles(initial: map<Key, string>, l: Locks, m: Locks, i: nat)
    requires FilesOk(initial, l) && i < |l.ops| && |m.ops| == |l.ops| && m.files == l.files
    requires m.ops == l.ops[i := l.ops[i].(phase := m.ops[i].phase)]
    requires m.ops[i].phase.Running? && m.ops[i].phase.read.Some? ==> m.ops[i].phase.read.value == l.files[l.ops[i].key]
    requires !m.ops[i].phase.Waiting?
    ensures FilesOk(initial, m)
  {
    forall key | key in m.files.Keys ensures m.files[key] == Serial(initial[key], m.ops, key) {
      SerialSameWrites(initial[key], l.ops, m.ops, key);
    }
    SameKeys(l, m, i);
  }

  lemma ArriveFiles(initial: map<Key, string>, l: Locks, key: Key, edit: string -> Option<string>)
    requires FilesOk(initial, l) && key in l.files
    ensures FilesOk(initial, Arrive(l, key, edit))
  {
    var m := Arrive(l, key, edit);
    assert m.ops[..|m.ops| - 1] == l.ops;
    assert forall op :: op in m.ops ==> op in l.ops || op == m.ops[|l.ops|];
  }

  lemma StepKeepsOrder(initial: map<Key, string>, l: Locks, step: Step)
    requires Ordered(l) && FilesOk(initial, l) && Enabled(l, step)
    ensures Ordered(Do(l, step)) && FilesOk(initial, Do(l, step))
  {
    match step
    case DoArrive(key, edit) =>
      ArriveOrdered(l, key, edit);
      ArriveFiles(initial, l, key, edit);
    case DoStart(i) =>
      StartOrdered(l, i);
      QuietFiles(initial, l, Start(l, i), i);
    case DoRead(i) =>
      RunningOrdered(l, Read(l, i), i);
      QuietFiles(initial, l, Read(l, i), i);
    case DoWrite(i) =>
      RunningOrdered(l, Write(l, i), i);
      WriteFiles(initial, l, i);
    case DoRelease(i) =>
      ReleaseOrdered(l, i);
      QuietFiles(initial, l, Release(l, i), i);
  }

  lemma RunningOrdered(l: Locks, m: Locks, i: nat)
    requires Ordered(l) && i < |l.ops| && l.ops[i].phase.Running? && m.chains == l.chains && |m.ops| == |l.ops|
    requires m.ops == l.ops[i := l.ops[i].(phase := m.ops[i].phase, wrote := m.ops[i].wrote)] && m.ops[i].phase.Running?
    ensures Ordered(m)
  {
    assert LinkOk(l, i);
    PhaseOrdered(l, m, i);
  }

  lemma {:induction false} RunsAreOrdered(run: seq<Locks>, k: nat)
    requires IsRun(run) && k < |run|
    ensures Ordered(run[k]) && FilesOk(run[0].files, run[k])
  {
    if k > 0 {
      RunsAreOrdered(run, k - 1);
      assert Next(run[k - 1], run[k - 1 + 1]);
      var step :| Enabled(run[k - 1], step) && run[k] == Do(run[k - 1], step);
      StepKeepsOrder(run[0].files, run[k - 1], step);
    }
  }

  // ---- What callers rely on ----

  /** In every run, operations on one file run one at a time and in arrival order: one that has started finds all
      earlier ones released. */
  lemma OneAtATimeInOrder(run: seq<Locks>, k: nat, i: nat, j: nat)
    requires IsRun(run) && k < |run| && i < j < |run[k].ops| && run[k].ops[i].key == run[k].ops[j].key
    ensures !run[k].ops[j].phase.Waiting? ==> run[k].ops[i].phase.Released?
  {
    RunsAreOrdered(run, k);
    assert LinkOk(run[k], j);
  }

  /** In every run, each file holds the outcome of its written edits, applied one after the other in arrival order. */
  lemma EditsAreSerial(run: seq<Locks>, k: nat, key: Key)
    requires IsRun(run) && k < |run| && key in run[0].files
    ensures key in run[k].files && run[k].files[key] == Serial(run[0].files[key], run[k].ops, key)
  {
    RunsAreOrdered(run, k);
  }

  /** Nobody waits for ever: the first operation of a file that is not released is running or may start. */
  lemma {:induction false} FirstMayRun(run: seq<Locks>, k: nat, j: nat)
    requires IsRun(run) && k < |run| && j < |run[k].ops| && run[k].ops[j].phase.Waiting?
    requires forall i :: 0 <= i < j && run[k].ops[i].key == run[k].ops[j].key ==> run[k].ops[i].phase.Released?
    ensures CanStart(run[k], j)
  {
    RunsAreOrdered(run, k);
    assert LinkOk(run[k], j);
    if run[k].ops[j].previous.Some? {
      ReleasedTail(run[k], run[k].ops[j].previous.value);
    }
  }

  lemma {:induction false} ReleasedTail(l: Locks, j: nat)
    requires Ordered(l) && j < |l.ops|
    requires forall i :: 0 <= i <= j && l.ops[i].key == l.ops[j].key ==> l.ops[i].phase.Released?
    ensures TailResolved(l, j)
    decreases j
  {
    assert LinkOk(l, j);
    if l.ops[j].previous.Some? {
      ReleasedTail(l, l.ops[j].previous.value);
    }
  }

  /** In every run, the map holds a chain for exactly those files that some operation is not done with, and it is the last
      of them that came. */
  lemma {:induction false} ChainsAreBusyFiles(run: seq<Locks>, k: nat, key: Key)
    requires IsRun(run) && k < |run|
    ensures
      var l := run[k];
      && (key in l.chains <==> exists i :: 0 <= i < |l.ops| && l.ops[i].key == key && !l.ops[i].phase.Released?)
      && (key in l.chains ==>
            && l.chains[key] < |l.ops| && l.ops[l.chains[key]].key == key && !l.ops[l.chains[key]].phase.Released?
            && forall i :: l.chains[key] < i < |l.ops| ==> l.ops[i].key != key)
  {
    RunsAreOrdered(run, k);
  }

  // ---- The lock object ----

  /** The module-level map of chains, with the operations it has seen and the files they edit. */
  class EditChains {
    var ops: seq<Operation>
    var chains: map<Key, nat>
    var files: map<Key, string>

    function View(): Locks
      reads this
    {
      Locks(ops, chains, files)
    }

    constructor (files: map<Key, string>)
      ensures View() == Locks([], map[], files) && Ordered(View()) && FilesOk(files, View())
    {
      ops, chains, this.files := [], map[], files;
    }

    /** Called: take the place after the current tail. */
    method Enter(key: Key, edit: string -> Option<string>, ghost initial: map<Key, string>) returns (i: nat)
      requires key in files && Ordered(View()) && FilesOk(initial, View())
      modifies this
      ensures View() == Arrive(old(View()), key, edit) && i == old(|ops|)
      ensures Ordered(View()) && FilesOk(initial, View())
    {
      StepKeepsOrder(initial, View(), DoArrive(key, edit));
      var previous := if key in chains then Some(chains[key]) else None;
      i := |ops|;
      ops := ops + [Operation(key, previous, edit, Waiting, false)];
      chains := chains[key := i];
    }

    /** The awaited tail is resolved. */
    method Wake(i: nat, ghost initial: map<Key, string>)
      requires CanStart(View(), i) && Ordered(View()) && FilesOk(initial, View())
      modifies this`ops
      ensures View() == Start(old(View()), i) && Ordered(View()) && FilesOk(initial, View())
      ensures forall j :: 0 <= j < |ops| && j != i && ops[j].key == ops[i].key ==> !ops[j].phase.Running?
    {
      StepKeepsOrder(initial, View(), DoStart(i));
      ops := ops[i := ops[i].(phase := Running(None))];
      Alone(View(), i);
    }

    /** The text is the outcome of the earlier edits of this file, in arrival order. */
    method ReadFile(i: nat, ghost initial: map<Key, string>) returns (text: string)
      requires IsRunning(View(), i) && ops[i].phase.read.None? && Ordered(View()) && FilesOk(initial, View())
      modifies this`ops
      ensures View() == Read(old(View()), i) && Ordered(View()) && FilesOk(initial, View())
      ensures ops[i].key in initial && text == Serial(initial[ops[i].key], old(ops), ops[i].key)
    {
      StepKeepsOrder(initial, View(), DoRead(i));
      text := files[ops[i].key];
      ops := ops[i := ops[i].(phase := Running(Some(text)))];
    }

    method WriteFile(i: nat, ghost initial: map<Key, string>)
      requires CanWrite(View(), i) && Ordered(View()) && FilesOk(initial, View())
      modifies this`ops, this`files
      ensures View() == Write(old(View()), i) && Ordered(View()) && FilesOk(initial, View())
    {
      StepKeepsOrder(initial, View(), DoWrite(i));
      files := files[ops[i].key := ops[i].edit(ops[i].phase.read.value).value];
      ops := ops[i := ops[i].(wrote := true)];
    }

    /** The finally block. */
    method Leave(i: nat, ghost initial: map<Key, string>)
      requires i < |ops| && ops[i].phase.Running? && Ordered(View()) && FilesOk(initial, View())
      modifies this
      ensures View() == Release(old(View()), i)
      ensures Ordered(View()) && FilesOk(initial, View())
    {
      StepKeepsOrder(initial, View(), DoRelease(i));
      var key := ops[i].key;
      ops := ops[i := ops[i].(phase := Released)];
      if key in chains && chains[key] == i {
        chains := chains - {key};
      }
    }
  }
}
