/** One scheduled time of a global task, several nodes: each node has its own next run, so after one of them has
    run the task, another can run it for the same time. When does that happen? */
module SchedulerSlots {
  import opened Wrappers
  import opened CronSchedule
  import opened SchedulerTask
  import opened SchedulerCluster
  import opened SchedulerRuns
  import opened SchedulerLock

  /** Tick `b` starts execution `e` of node `n`, because it was due at `slot`. */
  ghost predicate StartedFor(states: seq<State>, steps: seq<Step>, b: nat, n: nat, e: nat, slot: int) {
    && b < |steps| && b < |states| && steps[b] == Tick(n) && n in states[b].nodes
    && Ready(states[b].nodes[n].task, states[b].clock)
    && states[b].execs == e && states[b].nodes[n].task.nextRun == slot
  }

  /** Step `j` asks for the lock on behalf of an execution that was due at `slot`. */
  ghost predicate AsksFor(states: seq<State>, steps: seq<Step>, j: nat, slot: int) {
    && j < |steps| && steps[j].Acquire?
    && exists b: nat :: b < j && StartedFor(states, steps, b, steps[j].n, steps[j].e, slot)
  }

  /** Step `j` gets it and runs the task for `slot`. */
  ghost predicate RunsSlot(w: World, states: seq<State>, steps: seq<Step>, j: nat, slot: int)
    requires |states| > |steps|
  {
    AsksFor(states, steps, j, slot) && TakesLock(w, states[j], steps[j])
  }

  /** Request `j` fails, or comes while the lock taken last, at step `l`, is neither cleared nor found stale. */
  ghost predicate KeptOut(w: World, states: seq<State>, steps: seq<Step>, l: nat, j: nat)
    requires IsRun(w, states, steps) && l < j < |steps| && steps[j].Acquire?
  {
    && TakesLock(w, states[l], steps[l]) && NoTaker(w, states, steps, l, j)
    && (!steps[j].wrote ||
        (!FindsStale(steps[j], Stamp(states[l])) && !Unlocked(states, steps, l, j, steps[l].n)))
  }

  /** The last time the lock was taken before step `j`. */
  lemma LastTaker(w: World, states: seq<State>, steps: seq<Step>, i: nat, j: nat) returns (l: nat)
    requires IsRun(w, states, steps) && i < j <= |steps| && TakesLock(w, states[i], steps[i])
    ensures i <= l < j && TakesLock(w, states[l], steps[l]) && NoTaker(w, states, steps, l, j)
  {
    assert |states| == |steps| + 1;
    hide IsRun, TakesLock;
    l := i;
    for m := i + 1 to j
      invariant i <= l < m && TakesLock(w, states[l], steps[l]) && NoTaker(w, states, steps, l, m)
    {
      if TakesLock(w, states[m], steps[m]) { l := m; }
    }
  }

  /** Seen from the last taker, a request is kept out or takes the lock. */
  lemma KeptOutExactly(w: World, states: seq<State>, steps: seq<Step>, l: nat, j: nat)
    requires IsRun(w, states, steps) && l < j < |steps| && steps[j].Acquire?
    requires TakesLock(w, states[l], steps[l]) && NoTaker(w, states, steps, l, j)
    ensures KeptOut(w, states, steps, l, j) <==> !TakesLock(w, states[j], steps[j])
  {
    TakesExactly(w, states, steps, l, j, steps[l].n, steps[l].e);
    hide IsRun, TakesLock, Unlocked, FindsStale;
  }

  /** After a run for `slot`, no other follows for the same time if and only if every later request for it is kept
      out by the lock taken last: its statement fails, or that lock is still held and at most 300 s old. */
  lemma RunsOnceExactly(w: World, states: seq<State>, steps: seq<Step>, i: nat, slot: int)
    requires IsRun(w, states, steps) && |states| > |steps| && RunsSlot(w, states, steps, i, slot)
    ensures (forall j :: i < j < |steps| ==> !RunsSlot(w, states, steps, j, slot)) <==>
            (forall j :: i < j < |steps| && AsksFor(states, steps, j, slot) ==>
               exists l :: i <= l < j && KeptOut(w, states, steps, l, j))
  {
    hide IsRun, TakesLock, KeptOut, NoTaker, StartedFor;
    forall j | i < j < |steps| && AsksFor(states, steps, j, slot)
      ensures !RunsSlot(w, states, steps, j, slot) <==> exists l :: i <= l < j && KeptOut(w, states, steps, l, j)
    {
      var last := LastTaker(w, states, steps, i, j);
      KeptOutExactly(w, states, steps, last, j);
      forall l | i <= l < j && KeptOut(w, states, steps, l, j)
        ensures !TakesLock(w, states[j], steps[j])
      {
        KeptOutFails(w, states, steps, l, j);
      }
    }
  }

  lemma KeptOutFails(w: World, states: seq<State>, steps: seq<Step>, l: nat, j: nat)
    requires IsRun(w, states, steps) && l < j < |steps| && steps[j].Acquire? && KeptOut(w, states, steps, l, j)
    ensures !TakesLock(w, states[j], steps[j])
  {
    hide IsRun;
    KeptOutExactly(w, states, steps, l, j);
  }

  // ---------------------------------------------------------------------------
  // Two runs for one time
  // ---------------------------------------------------------------------------

  /** Two nodes due at the same time: the first runs the task, finishes and releases the lock, and then the second
      runs it for the same time, no statement failing and no two executions overlapping. */
  lemma SlotRunsTwice(w: World) returns (states: seq<State>, steps: seq<Step>, s: State)
    requires w.def.global
    ensures Reaches(w, states, steps, s) && |steps| == 11 && |states| == 12
    ensures RunsSlot(w, states, steps, 5, 0) && RunsSlot(w, states, steps, 10, 0)
    ensures steps[5].n == 1 && steps[10].n == 2 && steps[8] == Release(1, 0, true)
  {
    hide Apply, CanStep, Reaches, At;
    var s0;
    states, steps, s0 := TwoNodes(w);
    var s1 := Ticks(w, s0, 1);
    var s2 := Locks(w, s1, 1, 0);
    var s3, s4, s5 := Completes(w, s2);
    var s6 := Ticks(w, s5, 2);
    s := Locks(w, s6, 2, 1);
    states, steps := Extend(w, states, steps, s0, Tick(1));
    states, steps := Extend(w, states, steps, s1, Acquire(1, 0, 0, true));
    states, steps := Extend(w, states, steps, s2, Finish(1, 0, false));
    states, steps := Extend(w, states, steps, s3, Record(1, 0, true));
    states, steps := Extend(w, states, steps, s4, Release(1, 0, true));
    states, steps := Extend(w, states, steps, s5, Tick(2));
    states, steps := Extend(w, states, steps, s6, Acquire(2, 1, 0, true));
    LengthOfRun(w, states, steps, s);
    RunsSlotAt(w, states, steps, 4, s0, 5, s1, 1, 0);
    RunsSlotAt(w, states, steps, 9, s5, 10, s6, 2, 1);
    StepAt(states, steps, 8, s4, Release(1, 0, true));
  }

  lemma StepAt(states: seq<State>, steps: seq<Step>, k: nat, s: State, step: Step)
    requires At(states, steps, k, s, step)
    ensures k < |steps| && steps[k] == step
  {
  }

  lemma LengthOfRun(w: World, states: seq<State>, steps: seq<Step>, s: State)
    requires Reaches(w, states, steps, s)
    ensures |states| == |steps| + 1
  {
  }

  /** A tick and the acquisition of the execution that it starts. */
  lemma RunsSlotAt(w: World, states: seq<State>, steps: seq<Step>, b: nat, s: State, j: nat, t: State, n: nat, e: nat)
    requires |states| > |steps| && b < j
    requires At(states, steps, b, s, Tick(n)) && At(states, steps, j, t, Acquire(n, e, 0, true))
    requires n in s.nodes && Ready(s.nodes[n].task, s.clock) && s.execs == e && s.nodes[n].task.nextRun == 0
    requires TakesLock(w, t, Acquire(n, e, 0, true))
    ensures j < |steps| && steps[j].Acquire? && steps[j].n == n && RunsSlot(w, states, steps, j, 0)
  {
    hide TakesLock, Ready;
    assert StartedFor(states, steps, b, n, e, 0);
  }

  /** The execution that holds the lock ends well, is recorded and releases it. */
  lemma Completes(w: World, s: State) returns (t: State, u: State, v: State)
    requires w.def.global && IsExecuting(s, 1, 0) && s.row.Some? && s.row.value.lockedBy == Some(1)
    ensures CanStep(w, s, Finish(1, 0, false)) && t == Apply(w, s, Finish(1, 0, false))
    ensures CanStep(w, t, Record(1, 0, true)) && u == Apply(w, t, Record(1, 0, true))
    ensures CanStep(w, u, Release(1, 0, true)) && v == Apply(w, u, Release(1, 0, true))
    ensures 1 in v.nodes && v.row.Some? && v.row.value.lockedBy.None?
    ensures v == s.(nodes := s.nodes[1 := v.nodes[1]], row := v.row)
  {
    hide Finished;
    t := Apply(w, s, Finish(1, 0, false));
    u := Apply(w, t, Record(1, 0, true));
    v := Apply(w, u, Release(1, 0, true));
  }
}
