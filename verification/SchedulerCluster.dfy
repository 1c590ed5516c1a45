/** A cluster of scheduler nodes running one task over a shared database row, as a state machine whose
    steps are the critical sections and database statements of src/scheduler, in any order; and the proof
    that no node ever runs the task twice at once. */
module SchedulerCluster {
  import opened Wrappers
  import opened CronSchedule
  import opened SchedulerTask

  /** Where a goroutine that runs the task stands. */
  datatype Phase =
    | Spawned                   // started, lock not yet requested
    | Executing(since: nat)     // inside the task body; `since` is the second of acquisition
    | Recording(nextRun: int, failed: bool)   // body done, outcome not yet in the row
    | Returning                 // recorded, lock not yet released
    | Leaving                   // about to clear the running flag

  datatype Node = Node(task: TaskState, live: map<nat, Phase>, boot: Boot)

  /** A call of SetTaskEnabled that has changed the node's memory and not yet the row. */
  datatype Toggle = Toggle(n: nat, on: bool)

  /** `nodes` are the running processes by their id, a host name and a process id, which may come back after a
      restart; `execs` numbers executions; `toggles` are the calls of SetTaskEnabled under way. */
  datatype State = State(clock: nat, row: Option<Row>, nodes: map<nat, Node>, execs: nat, toggles: multiset<Toggle>)

  /** What does not change: the task, its configured enabled bit, the catch-up window and the zone. */
  datatype World = World(def: TaskDef, configured: bool, catchUp: nat, zone: Zone)

  /** A `wrote` or `read` flag says whether the database statement succeeded. A startup reads the row and then
      writes, each a step; it serves no request and runs no task before it is through. */
  datatype Step =
    | Advance(elapsed: nat)
    | StartRead(n: nat, now: nat, read: bool)
    | StartWrite(n: nat, wrote: bool)
    | Tick(n: nat)
    | RunNow(n: nat)
    | SetEnabled(n: nat, on: bool)
    | StoreEnabled(n: nat, on: bool, wrote: bool)
    | Acquire(n: nat, e: nat, staleRead: nat, wrote: bool)
    | Finish(n: nat, e: nat, failed: bool)
    | Record(n: nat, e: nat, wrote: bool)
    | Release(n: nat, e: nat, wrote: bool)
    | Leave(n: nat, e: nat)
    | Stop(n: nat, wrote: bool)
    | Crash(n: nat)

  predicate InPhase(s: State, n: nat, e: nat, p: Phase) {
    n in s.nodes && e in s.nodes[n].live && s.nodes[n].live[e] == p
  }

  predicate IsExecuting(s: State, n: nat, e: nat) {
    n in s.nodes && e in s.nodes[n].live && s.nodes[n].live[e].Executing?
  }

  predicate IsRecording(s: State, n: nat, e: nat) {
    n in s.nodes && e in s.nodes[n].live && s.nodes[n].live[e].Recording?
  }

  /** The node has started and serves. */
  predicate IsUp(s: State, n: nat) {
    n in s.nodes && s.nodes[n].boot.Up?
  }

  predicate CanStep(w: World, s: State, step: Step) {
    match step
    case Advance(_) => true
    case StartRead(n, now, _) => n !in s.nodes && now <= s.clock
    case StartWrite(n, _) => n in s.nodes && !s.nodes[n].boot.Up?
    case Tick(n) => IsUp(s, n)
    case RunNow(n) => IsUp(s, n)
    case SetEnabled(n, _) => IsUp(s, n)
    case StoreEnabled(n, on, _) => Toggle(n, on) in s.toggles
    case Acquire(n, e, staleRead, _) => InPhase(s, n, e, Spawned) && staleRead <= s.clock
    case Finish(n, e, _) => IsExecuting(s, n, e)
    case Record(n, e, _) => IsRecording(s, n, e)
    case Release(n, e, _) => InPhase(s, n, e, Returning)
    case Leave(n, e) => InPhase(s, n, e, Leaving)
    case Stop(n, _) => IsUp(s, n)
    case Crash(n) => n in s.nodes
  }

  /** Changes the memory of a node that is up or stays as it was in its startup. */
  function SetNode(s: State, n: nat, task: TaskState, live: map<nat, Phase>): State
    requires n in s.nodes
  {
    s.(nodes := s.nodes[n := Node(task, live, s.nodes[n].boot)])
  }

  /** Sets the running flag and starts a goroutine. */
  function Spawn(s: State, n: nat): State
    requires n in s.nodes
  {
    var node := s.nodes[n];
    SetNode(s, n, node.task.(running := true), node.live[s.execs := Spawned]).(execs := s.execs + 1)
  }

  predicate LockSucceeds(w: World, s: State, staleRead: nat, wrote: bool) {
    wrote && s.row.Some? && CanLock(s.row.value, staleRead / SECOND - LOCK_SECONDS)
  }

  /** Does the step put an execution into the body of the task by taking the lock? */
  predicate TakesLock(w: World, s: State, step: Step) {
    step.Acquire? && w.def.global && LockSucceeds(w, s, step.staleRead, step.wrote)
  }

  /** What a startup sees of the row. */
  function Seen(s: State, read: bool): Option<Row> {
    if read then s.row else None
  }

  /** The row after the step. */
  function RowAfter(w: World, s: State, step: Step): Option<Row>
    requires CanStep(w, s, step)
  {
    match step
    case StartWrite(n, wrote) => if wrote then BootWrite(s.nodes[n].boot, s.nodes[n].task, s.row) else s.row
    case StoreEnabled(_, on, wrote) => if wrote && s.row.Some? then Some(s.row.value.(enabled := on)) else s.row
    case Acquire(n, _, _, _) => if TakesLock(w, s, step) then Some(Lock(s.row.value, n, s.clock)) else s.row
    case Record(n, e, wrote) =>
      var done := s.nodes[n].live[e];
      if wrote && s.row.Some? then Some(Recorded(s.row.value, done.nextRun, done.failed)) else s.row
    case Release(n, _, wrote) => if wrote && s.row.Some? then Some(Unlock(s.row.value, n)) else s.row
    case Stop(n, wrote) => if wrote && s.row.Some? then Some(Unlock(s.row.value, n)) else s.row
    case _ => s.row
  }

  /** Everything else after the step. */
  function Moved(w: World, s: State, step: Step): State
    requires CanStep(w, s, step)
  {
    match step
    case Advance(elapsed) => s.(clock := s.clock + elapsed)
    case StartRead(n, now, read) =>
      var seen := Seen(s, read);
      var task := LoadedTask(w.def, w.configured, seen, now, w.catchUp, w.zone);
      s.(nodes := s.nodes[n := Node(task, map[], LoadedBoot(seen, now, w.catchUp))])
    case StartWrite(n, _) =>
      var node := s.nodes[n];
      s.(nodes := s.nodes[n := node.(boot := NextBoot(node.boot))])
    case Tick(n) =>
      if Ready(s.nodes[n].task, s.clock) then Spawn(s, n) else s
    case RunNow(n) =>
      if s.nodes[n].task.running then s else Spawn(s, n)
    case SetEnabled(n, on) =>
      if !on && w.def.critical then s
      else
        SetNode(s, n, s.nodes[n].task.(enabled := on), s.nodes[n].live)
        .(toggles := s.toggles + multiset{Toggle(n, on)})
    case StoreEnabled(n, on, _) => s.(toggles := s.toggles - multiset{Toggle(n, on)})
    case Acquire(n, e, _, _) =>
      var node := s.nodes[n];
      if !w.def.global || TakesLock(w, s, step) then
        SetNode(s, n, node.task, node.live[e := Executing(s.clock / SECOND)])
      else
        SetNode(s, n, node.task.(nextRun := NextTime(w.def.schedule, s.clock, w.zone)), node.live[e := Leaving])
    case Finish(n, e, failed) =>
      var task := Finished(w.def, s.nodes[n].task, failed, s.clock, w.zone);
      SetNode(s, n, task, s.nodes[n].live[e := Recording(task.nextRun, failed)])
    case Record(n, e, _) =>
      SetNode(s, n, s.nodes[n].task, s.nodes[n].live[e := if w.def.global then Returning else Leaving])
    case Release(n, e, _) => SetNode(s, n, s.nodes[n].task, s.nodes[n].live[e := Leaving])
    case Leave(n, e) => SetNode(s, n, s.nodes[n].task.(running := false), s.nodes[n].live - {e})
    case Stop(_, _) => s
    case Crash(n) => s.(nodes := s.nodes - {n})
  }

  function Apply(w: World, s: State, step: Step): State
    requires CanStep(w, s, step)
  {
    Moved(w, s, step).(row := RowAfter(w, s, step))
  }

  /** No nodes yet; the row is whatever earlier processes left behind. */
  predicate Initial(s: State) {
    s.nodes == map[] && s.toggles == multiset{}
  }

  /** A run: `states[i + 1]` is `states[i]` after `steps[i]`. */
  ghost predicate IsRun(w: World, states: seq<State>, steps: seq<Step>) {
    && |states| == |steps| + 1 && Initial(states[0])
    && forall i :: 0 <= i < |steps| ==>
         CanStep(w, states[i], steps[i]) && states[i + 1] == Apply(w, states[i], steps[i])
  }

  lemma AtStep(w: World, states: seq<State>, steps: seq<Step>, i: nat)
    requires IsRun(w, states, steps) && i + 1 < |states|
    ensures |states| == |steps| + 1 && CanStep(w, states[i], steps[i]) && states[i + 1] == Apply(w, states[i], steps[i])
  {
  }

  // ---------------------------------------------------------------------------
  // At most one execution per node
  // ---------------------------------------------------------------------------

  /** The running flag counts the live executions: none or one. */
  ghost predicate NodeExclusive(node: Node, execs: nat) {
    && |node.live| == (if node.task.running then 1 else 0)
    && forall e :: e in node.live ==> e < execs
  }

  ghost predicate Exclusive(s: State) {
    forall n :: n in s.nodes ==> NodeExclusive(s.nodes[n], s.execs)
  }

  /** Replacing one node. */
  lemma ExclusiveSetNode(s: State, n: nat, task: TaskState, live: map<nat, Phase>, execs: nat)
    requires n in s.nodes && Exclusive(s) && s.execs <= execs && NodeExclusive(Node(task, live, s.nodes[n].boot), execs)
    ensures Exclusive(SetNode(s, n, task, live).(execs := execs))
  {
  }

  lemma ChangePhase(node: Node, execs: nat, e: nat, p: Phase)
    requires NodeExclusive(node, execs) && e in node.live
    ensures NodeExclusive(Node(node.task, node.live[e := p], node.boot), execs)
    ensures node.task.running
  {
    assert node.live[e := p].Keys == node.live.Keys;
    assert |node.live| == |node.live.Keys| && |node.live[e := p]| == |node.live[e := p].Keys|;
    assert |node.live.Keys - {e}| == |node.live.Keys| - 1;
  }

  lemma SpawnExclusive(s: State, n: nat)
    requires Exclusive(s) && n in s.nodes && !s.nodes[n].task.running
    ensures Exclusive(Spawn(s, n))
  {
    var node := s.nodes[n];
    assert node.live == map[] by { assert |node.live.Keys| == |node.live|; }
    assert node.live[s.execs := Spawned] == map[s.execs := Spawned];
    ExclusiveSetNode(s, n, node.task.(running := true), node.live[s.execs := Spawned], s.execs + 1);
  }

  /** The task fields an execution changes leave the running flag alone. */
  lemma SameFlag(node: Node, task: TaskState, execs: nat)
    requires NodeExclusive(node, execs) && task.running == node.task.running
    ensures NodeExclusive(Node(task, node.live, node.boot), execs)
  {
  }

  lemma ExecutionStepExclusive(w: World, s: State, step: Step)
    requires Exclusive(s) && CanStep(w, s, step) && (step.Acquire? || step.Finish? || step.Record? || step.Release?)
    ensures Exclusive(Apply(w, s, step))
  {
    var node := s.nodes[step.n];
    var t := Apply(w, s, step);
    var p := t.nodes[step.n].live[step.e];
    ChangePhase(node, s.execs, step.e, p);
    SameFlag(Node(node.task, node.live[step.e := p], node.boot), t.nodes[step.n].task, s.execs);
    ExclusiveSetNode(s, step.n, t.nodes[step.n].task, node.live[step.e := p], s.execs);
    assert t.nodes == SetNode(s, step.n, t.nodes[step.n].task, node.live[step.e := p]).nodes;
  }

  lemma ExclusiveStep(w: World, s: State, step: Step)
    requires Exclusive(s) && CanStep(w, s, step)
    ensures Exclusive(Apply(w, s, step))
  {
    hide RowAfter, LoadedBoot, NextBoot;
    match step
    case Acquire(_, _, _, _) => ExecutionStepExclusive(w, s, step);
    case Finish(_, _, _) => ExecutionStepExclusive(w, s, step);
    case Record(_, _, _) => ExecutionStepExclusive(w, s, step);
    case Release(_, _, _) => ExecutionStepExclusive(w, s, step);
    case Tick(n) => if Ready(s.nodes[n].task, s.clock) { SpawnExclusive(s, n); }
    case RunNow(n) => if !s.nodes[n].task.running { SpawnExclusive(s, n); }
    case Leave(n, e) => OnlyOne(s.nodes[n].live, e);
    case _ =>
  }

  lemma OnlyOne(live: map<nat, Phase>, e: nat)
    requires e in live && |live| <= 1
    ensures live.Keys == {e} && live - {e} == map[]
  {
    assert |live.Keys| == |live|;
    assert live.Keys - {e} == {} by {
      assert |live.Keys - {e}| == |live.Keys| - 1;
    }
  }

  /** In every reachable state the number of live executions on a node is 0 or 1 and is its running flag. */
  lemma {:induction false} OneExecutionPerNode(w: World, states: seq<State>, steps: seq<Step>, i: nat)
    requires IsRun(w, states, steps) && i < |states|
    ensures Exclusive(states[i])
  {
    if i > 0 {
      OneExecutionPerNode(w, states, steps, i - 1);
      ExclusiveStep(w, states[i - 1], steps[i - 1]);
    }
  }

  /** A step leaves every node but its own as it is. */
  lemma OtherNode(w: World, s: State, step: Step, n: nat)
    requires CanStep(w, s, step) && (step.Advance? || step.n != n)
    ensures var t := Apply(w, s, step);
            s.execs <= t.execs && (n in t.nodes <==> n in s.nodes) && (n in s.nodes ==> t.nodes[n] == s.nodes[n])
  {
    hide LoadedTask, Finished, NextTime, Ready, LockSucceeds, InPhase, IsExecuting, RowAfter;
  }
}
