/** Building runs of the cluster step by step, for the runs that show what can happen. */
module SchedulerRuns {
  import opened Wrappers
  import opened CronSchedule
  import opened SchedulerTask
  import opened SchedulerCluster

  /** The database statement of the step, if it has one, succeeds. */
  predicate Succeeds(step: Step) {
    match step
    case StartRead(_, _, read) => read
    case StartWrite(_, wrote) => wrote
    case StoreEnabled(_, _, wrote) => wrote
    case Acquire(_, _, _, wrote) => wrote
    case Record(_, _, wrote) => wrote
    case Release(_, _, wrote) => wrote
    case Stop(_, wrote) => wrote
    case _ => true
  }

  /** Every database statement so far succeeded. */
  ghost predicate AllSucceed(steps: seq<Step>) {
    forall p :: 0 <= p < |steps| ==> Succeeds(steps[p])
  }

  /** A run that ends in `s`, no statement having failed. */
  ghost predicate Reaches(w: World, states: seq<State>, steps: seq<Step>, s: State) {
    IsRun(w, states, steps) && AllSucceed(steps) && states[|states| - 1] == s
  }

  /** Step number `k` is `step`, taken in state `s`. */
  ghost predicate At(states: seq<State>, steps: seq<Step>, k: nat, s: State, step: Step) {
    k < |steps| && k < |states| && states[k] == s && steps[k] == step
  }

  lemma Extend(w: World, states: seq<State>, steps: seq<Step>, s: State, step: Step)
      returns (longer: seq<State>, more: seq<Step>)
    requires Reaches(w, states, steps, s) && CanStep(w, s, step) && Succeeds(step)
    ensures Reaches(w, longer, more, Apply(w, s, step))
    ensures |more| == |steps| + 1 && At(longer, more, |steps|, s, step)
    ensures forall k, s0, step0 :: At(states, steps, k, s0, step0) ==> At(longer, more, k, s0, step0)
  {
    hide Apply, CanStep;
    longer, more := states + [Apply(w, s, step)], steps + [step];
    forall i | 0 <= i < |more|
      ensures CanStep(w, longer[i], more[i]) && longer[i + 1] == Apply(w, longer[i], more[i])
    {
      if i < |steps| {
        assert CanStep(w, states[i], steps[i]) && states[i + 1] == Apply(w, states[i], steps[i]);
      }
    }
  }

  /** Nobody runs or is about to, and the lock is free. */
  predicate Idle(s: State) {
    && s.toggles == multiset{} && s.execs == 0 && s.row.Some? && s.row.value.lockedBy.None?
    && forall n :: n in s.nodes ==> s.nodes[n].live == map[] && !s.nodes[n].task.running
  }

  /** The node has started on a row that is due at instant 0. */
  predicate Fresh(s: State, n: nat) {
    IsUp(s, n) && s.nodes[n].task.enabled && s.nodes[n].task.nextRun == 0
  }

  /** The first node starts on an enabled row. */
  lemma OneNode(w: World) returns (states: seq<State>, steps: seq<Step>, s: State)
    ensures Reaches(w, states, steps, s) && |steps| == 2 && Idle(s) && s.nodes.Keys == {1} && Fresh(s, 1)
    ensures s.clock == 0 && s.row.value.nextRun == 0 && s.row.value.enabled
  {
    var s0 := State(0, Some(Row(true, 0, None, 0, 0, 0)), map[], 0, multiset{});
    var s1 := ReadsRow(w, s0, 1);
    s := WritesRow(w, s1, 1);
    hide Apply, CanStep;
    states, steps := [s0], [];
    states, steps := Extend(w, states, steps, s0, StartRead(1, 0, true));
    states, steps := Extend(w, states, steps, s1, StartWrite(1, true));
  }

  /** And then a second. */
  lemma TwoNodes(w: World) returns (states: seq<State>, steps: seq<Step>, s: State)
    ensures Reaches(w, states, steps, s) && |steps| == 4 && Idle(s) && s.nodes.Keys == {1, 2}
    ensures Fresh(s, 1) && Fresh(s, 2) && s.clock == 0 && s.row.value.nextRun == 0 && s.row.value.enabled
  {
    hide Apply, CanStep, Reaches;
    var s0;
    states, steps, s0 := OneNode(w);
    var s1 := ReadsRow(w, s0, 2);
    s := WritesRow(w, s1, 2);
    states, steps := Extend(w, states, steps, s0, StartRead(2, 0, true));
    states, steps := Extend(w, states, steps, s1, StartWrite(2, true));
  }

  lemma ReadsRow(w: World, s: State, n: nat) returns (t: State)
    requires n !in s.nodes && s.row.Some? && s.clock == 0 && s.row.value.nextRun == 0
    ensures CanStep(w, s, StartRead(n, 0, true)) && t == Apply(w, s, StartRead(n, 0, true))
    ensures n in t.nodes && t == s.(nodes := s.nodes[n := t.nodes[n]])
    ensures t.nodes[n] == Node(TaskState(s.row.value.enabled || w.def.critical, false, 0, 0), map[], Syncing(false))
  {
    hide NextTime;
    t := Apply(w, s, StartRead(n, 0, true));
  }

  lemma WritesRow(w: World, s: State, n: nat) returns (t: State)
    requires n in s.nodes && s.nodes[n].boot == Syncing(false) && s.row.Some?
    ensures CanStep(w, s, StartWrite(n, true)) && t == Apply(w, s, StartWrite(n, true))
    ensures t == s.(nodes := s.nodes[n := s.nodes[n].(boot := Up)],
                    row := Some(ClearLock(s.row.value).(enabled := s.nodes[n].task.enabled)))
  {
    t := Apply(w, s, StartWrite(n, true));
  }

  /** The node starts an execution on request. */
  lemma Runs(w: World, s: State, n: nat) returns (t: State)
    requires IsUp(s, n) && !s.nodes[n].task.running
    ensures CanStep(w, s, RunNow(n)) && t == Apply(w, s, RunNow(n))
    ensures var node := s.nodes[n];
            t == s.(nodes := s.nodes[n := Node(node.task.(running := true), node.live[s.execs := Spawned], Up)],
                    execs := s.execs + 1)
  {
    t := Apply(w, s, RunNow(n));
  }

  /** The node starts an execution because it is due. */
  lemma Ticks(w: World, s: State, n: nat) returns (t: State)
    requires IsUp(s, n) && Ready(s.nodes[n].task, s.clock)
    ensures CanStep(w, s, Tick(n)) && t == Apply(w, s, Tick(n))
    ensures var node := s.nodes[n];
            t == s.(nodes := s.nodes[n := Node(node.task.(running := true), node.live[s.execs := Spawned], Up)],
                    execs := s.execs + 1)
  {
    t := Apply(w, s, Tick(n));
  }

  /** The execution takes the lock, reading the clock just before. */
  lemma Locks(w: World, s: State, n: nat, e: nat) returns (t: State)
    requires w.def.global && InPhase(s, n, e, Spawned)
    requires s.row.Some? && CanLock(s.row.value, s.clock / SECOND - LOCK_SECONDS)
    ensures CanStep(w, s, Acquire(n, e, s.clock, true)) && t == Apply(w, s, Acquire(n, e, s.clock, true))
    ensures TakesLock(w, s, Acquire(n, e, s.clock, true))
    ensures var node := s.nodes[n];
            t == s.(nodes := s.nodes[n := node.(live := node.live[e := Executing(s.clock / SECOND)])],
                    row := Some(Lock(s.row.value, n, s.clock)))
  {
    hide NextTime;
    t := Apply(w, s, Acquire(n, e, s.clock, true));
  }
}
