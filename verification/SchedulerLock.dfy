/** The lock of a global task over every run of the cluster: how long it keeps others out, exactly when another
    execution can enter the body, and what that means for runs of one scheduled time. */
module SchedulerLock {
  import opened Wrappers
  import opened CronSchedule
  import opened SchedulerTask
  import opened SchedulerCluster
  import opened SchedulerRuns

  /** Step `i` puts execution `e` of node `n` into the task body by taking the lock. */
  ghost predicate AcquiresAt(w: World, states: seq<State>, steps: seq<Step>, i: nat, n: nat, e: nat)
    requires IsRun(w, states, steps)
  {
    i < |steps| && steps[i].Acquire? && steps[i].n == n && steps[i].e == e && TakesLock(w, states[i], steps[i])
  }

  function Stamp(s: State): nat {
    s.clock / SECOND
  }

  /** The steps that clear a lock of node `n` although its holder may still be running: the sync of some node
      that starts up, whoever holds the lock, or the end of `n` itself being stopped. */
  predicate ForcesRelease(s: State, step: Step, n: nat) {
    || (step.StartWrite? && step.wrote && step.n in s.nodes && s.nodes[step.n].boot.Syncing?)
    || (step.Stop? && step.wrote && step.n == n)
  }

  predicate Held(s: State, n: nat, since: nat) {
    s.row.Some? && s.row.value.lockedBy == Some(n) && s.row.value.lockedAt == since
  }

  /** An execution that is past `Spawned` never returns to it, and is in the body only if it was before. */
  lemma PhaseStep(w: World, s: State, step: Step, n: nat, e: nat)
    requires CanStep(w, s, step) && e < s.execs && !InPhase(s, n, e, Spawned)
    ensures var t := Apply(w, s, step);
            && e < t.execs && !InPhase(t, n, e, Spawned)
            && (IsExecuting(t, n, e) ==> IsExecuting(s, n, e) && t.nodes[n].live[e] == s.nodes[n].live[e])
  {
    if step.Advance? || step.n != n {
      OtherNode(w, s, step, n);
      hide Apply;
    } else {
      hide LoadedTask, Finished, NextTime, Ready, LockSucceeds, RowAfter;
    }
  }

  lemma {:induction false} PastSpawned(w: World, states: seq<State>, steps: seq<Step>, i: nat, m: nat, n: nat, e: nat)
    requires IsRun(w, states, steps) && AcquiresAt(w, states, steps, i, n, e) && i < m < |states|
    ensures e < states[m].execs && !InPhase(states[m], n, e, Spawned)
    decreases m
  {
    if m == i + 1 {
      OneExecutionPerNode(w, states, steps, i);
    } else {
      PastSpawned(w, states, steps, i, m - 1, n, e);
      PhaseStep(w, states[m - 1], steps[m - 1], n, e);
    }
  }

  /** An execution in the body has been there ever since it took the lock. */
  lemma {:induction false} ExecutingSince(w: World, states: seq<State>, steps: seq<Step>, i: nat, m: nat, k: nat,
                                          n: nat, e: nat)
    requires IsRun(w, states, steps) && AcquiresAt(w, states, steps, i, n, e) && i < m <= k < |states|
    requires IsExecuting(states[k], n, e)
    ensures InPhase(states[m], n, e, Executing(Stamp(states[i])))
    decreases k
  {
    hide Apply, CanStep, IsRun, AcquiresAt;
    if k == i + 1 {
      AcquireEnters(w, states, steps, i, n, e);
    } else {
      PastSpawned(w, states, steps, i, k - 1, n, e);
      AtStep(w, states, steps, k - 1);
      PhaseStep(w, states[k - 1], steps[k - 1], n, e);
      ExecutingSince(w, states, steps, i, if m < k then m else k - 1, k - 1, n, e);
    }
  }

  lemma AcquireEnters(w: World, states: seq<State>, steps: seq<Step>, i: nat, n: nat, e: nat)
    requires IsRun(w, states, steps) && AcquiresAt(w, states, steps, i, n, e)
    ensures i + 1 < |states| && InPhase(states[i + 1], n, e, Executing(Stamp(states[i])))
    ensures Held(states[i + 1], n, Stamp(states[i]))
  {
    AtStep(w, states, steps, i);
    hide IsRun;
  }

  lemma BothLive(node: Node, execs: nat, a: nat, b: nat)
    requires NodeExclusive(node, execs) && a in node.live && b in node.live
    ensures a == b
  {
    OnlyOne(node.live, a);
  }

  lemma {:induction false} ClockMonotone(w: World, states: seq<State>, steps: seq<Step>, a: nat, b: nat)
    requires IsRun(w, states, steps) && a <= b < |states|
    ensures states[a].clock <= states[b].clock
    decreases b
  {
    if a < b {
      ClockMonotone(w, states, steps, a, b - 1);
      ClockStep(w, states[b - 1], steps[b - 1]);
    }
  }

  lemma ClockStep(w: World, s: State, step: Step)
    requires CanStep(w, s, step)
    ensures s.clock <= Apply(w, s, step).clock
  {
  }

  /** A step that clears a lock of node `n`: a forced release, or the release at the end of a run. */
  predicate Unlocks(s: State, step: Step, n: nat) {
    ForcesRelease(s, step, n) || (step.Release? && step.wrote && step.n == n)
  }

  /** An acquisition whose clock reading finds a lock taken at second `since` more than 300 s old. */
  predicate FindsStale(step: Step, since: nat)
    requires step.Acquire?
  {
    step.staleRead / SECOND > since + LOCK_SECONDS
  }

  predicate Free(s: State) {
    s.row.Some? && s.row.value.lockedBy.None?
  }

  lemma LockStep(w: World, s: State, step: Step, n: nat, since: nat)
    requires CanStep(w, s, step) && !TakesLock(w, s, step) && (Free(s) || Held(s, n, since))
    requires w.def.global
    ensures var t := Apply(w, s, step);
            if Free(s) || Unlocks(s, step, n) then Free(t) else Held(t, n, since)
  {
    hide Moved;
  }

  ghost predicate NoTaker(w: World, states: seq<State>, steps: seq<Step>, i: nat, j: nat)
    requires IsRun(w, states, steps) && j <= |steps|
  {
    forall p :: i < p < j ==> !TakesLock(w, states[p], steps[p])
  }

  ghost predicate Unlocked(states: seq<State>, steps: seq<Step>, i: nat, j: nat, n: nat)
    requires |states| > |steps| >= j
  {
    exists p :: i < p < j && Unlocks(states[p], steps[p], n)
  }

  /** Until somebody takes it anew, a lock is held as it was taken, or free once it was cleared. */
  lemma {:induction false} LockUntilTaken(w: World, states: seq<State>, steps: seq<Step>, i: nat, m: nat,
                                          n: nat, e: nat)
    requires IsRun(w, states, steps) && AcquiresAt(w, states, steps, i, n, e) && i < m < |states|
    requires NoTaker(w, states, steps, i, m)
    ensures if Unlocked(states, steps, i, m, n) then Free(states[m]) else Held(states[m], n, Stamp(states[i]))
    decreases m
  {
    hide Apply, CanStep, TakesLock, Unlocks;
    if m == i + 1 {
      AcquireEnters(w, states, steps, i, n, e);
    } else {
      AtStep(w, states, steps, m - 1);
      LockUntilTaken(w, states, steps, i, m - 1, n, e);
      TakersAreGlobal(w, states[i], steps[i]);
      LockStep(w, states[m - 1], steps[m - 1], n, Stamp(states[i]));
    }
  }

  lemma TakersAreGlobal(w: World, s: State, step: Step)
    requires TakesLock(w, s, step)
    ensures w.def.global
  {
  }

  /** After a lock was taken, the next acquisition to come takes it exactly when its statement succeeds and the
      lock has been cleared meanwhile or is found stale. */
  lemma TakesExactly(w: World, states: seq<State>, steps: seq<Step>, i: nat, j: nat, n: nat, e: nat)
    requires IsRun(w, states, steps) && AcquiresAt(w, states, steps, i, n, e) && i < j < |steps|
    requires NoTaker(w, states, steps, i, j) && steps[j].Acquire?
    ensures TakesLock(w, states[j], steps[j]) <==>
            steps[j].wrote && (FindsStale(steps[j], Stamp(states[i])) || Unlocked(states, steps, i, j, n))
  {
    assert |states| == |steps| + 1;
    hide IsRun, Unlocked;
    LockUntilTaken(w, states, steps, i, j, n, e);
  }

  // ---------------------------------------------------------------------------
  // Overlapping executions
  // ---------------------------------------------------------------------------

  /** Somebody's acquisition `j` would break into the run that took the lock at step `i` on node `n`: its statement
      succeeds, and it finds the lock stale or comes after a forced release. */
  ghost predicate BreaksIn(states: seq<State>, steps: seq<Step>, i: nat, j: nat, n: nat)
    requires |states| > |steps| > j && i < |states|
  {
    && steps[j].Acquire? && steps[j].wrote
    && (FindsStale(steps[j], Stamp(states[i])) ||
        exists p :: i < p < j && ForcesRelease(states[p], steps[p], n))
  }

  /** While an execution is in the body, its own node releases nothing. */
  lemma OnlyForced(w: World, states: seq<State>, steps: seq<Step>, i: nat, j: nat, k: nat, n: nat, e: nat)
    requires IsRun(w, states, steps) && AcquiresAt(w, states, steps, i, n, e) && i < j <= k < |states|
    requires IsExecuting(states[k], n, e)
    ensures Unlocked(states, steps, i, j, n) <==> exists p :: i < p < j && ForcesRelease(states[p], steps[p], n)
  {
    assert |states| == |steps| + 1;
    hide IsRun, AcquiresAt;
    forall p | i < p < j
      ensures Unlocks(states[p], steps[p], n) <==> ForcesRelease(states[p], steps[p], n)
    {
      ExecutingSince(w, states, steps, i, p, k, n, e);
      AtStep(w, states, steps, p);
      OneExecutionPerNode(w, states, steps, p);
      HolderReleasesNothing(w, states[p], steps[p], n, e);
    }
  }

  lemma HolderReleasesNothing(w: World, s: State, step: Step, n: nat, e: nat)
    requires CanStep(w, s, step) && Exclusive(s) && IsExecuting(s, n, e)
    ensures !(step.Release? && step.n == n)
  {
    if step.Release? && step.n == n {
      BothLive(s.nodes[n], s.execs, e, step.e);
    }
  }

  /** As long as an execution of a global task is in the body, no other enters exactly as long as no acquisition
      breaks in: none whose statement succeeds finds the lock more than 300 s old or comes after the sync of a
      startup or the end of the holder being stopped. */
  lemma OverlapsExactly(w: World, states: seq<State>, steps: seq<Step>, i: nat, k: nat, n: nat, e: nat)
    requires IsRun(w, states, steps) && AcquiresAt(w, states, steps, i, n, e) && i < k < |states|
    requires IsExecuting(states[k], n, e)
    ensures NoTaker(w, states, steps, i, k) <==> forall j :: i < j < k ==> !BreaksIn(states, steps, i, j, n)
  {
    assert |states| == |steps| + 1;
    hide IsRun, AcquiresAt, IsExecuting, Unlocked, FindsStale, TakesLock;
    for m := i + 1 to k
      invariant NoTaker(w, states, steps, i, m) <==> forall j :: i < j < m ==> !BreaksIn(states, steps, i, j, n)
    {
      if NoTaker(w, states, steps, i, m) {
        OnlyForced(w, states, steps, i, m, k, n, e);
        TakerBreaksIn(w, states, steps, i, m, n, e);
      }
    }
  }

  lemma TakerBreaksIn(w: World, states: seq<State>, steps: seq<Step>, i: nat, j: nat, n: nat, e: nat)
    requires IsRun(w, states, steps) && AcquiresAt(w, states, steps, i, n, e) && i < j < |steps|
    requires NoTaker(w, states, steps, i, j)
    requires Unlocked(states, steps, i, j, n) <==> exists p :: i < p < j && ForcesRelease(states[p], steps[p], n)
    ensures TakesLock(w, states[j], steps[j]) <==> BreaksIn(states, steps, i, j, n)
  {
    hide IsRun, AcquiresAt, Unlocked, FindsStale, ForcesRelease;
    if steps[j].Acquire? {
      TakesExactly(w, states, steps, i, j, n, e);
    }
  }

  /** If two executions are in the body of a global task at once, the later of them took the lock more
      than 300 s after the earlier, or between the two some node started up and cleared the row, or the
      earlier holder was stopped and force-released it. */
  lemma MutualExclusion(w: World, states: seq<State>, steps: seq<Step>, i: nat, j: nat, k: nat,
                        n1: nat, e1: nat, n2: nat, e2: nat)
    requires IsRun(w, states, steps) && i < j < k < |states|
    requires AcquiresAt(w, states, steps, i, n1, e1) && AcquiresAt(w, states, steps, j, n2, e2)
    requires IsExecuting(states[k], n1, e1)
    ensures || states[j].clock / 1_000_000_000 > states[i].clock / 1_000_000_000 + 300
            || exists p :: i < p < j && ForcesRelease(states[p], steps[p], n1)
  {
    assert |states| == |steps| + 1;
    hide IsRun, ForcesRelease;
    ExecutingSince(w, states, steps, i, j + 1, k, n1, e1);
    OverlapsExactly(w, states, steps, i, j + 1, n1, e1);
    var q :| i < q < j + 1 && BreaksIn(states, steps, i, q, n1);
    AtStep(w, states, steps, q);
    ClockMonotone(w, states, steps, q, j);
    hide Apply;
    assert steps[q].staleRead <= states[q].clock <= states[j].clock;
  }

  lemma LockPersists(w: World, states: seq<State>, steps: seq<Step>, i: nat, m: nat, n: nat, e: nat)
      returns (later: Option<nat>)
    requires IsRun(w, states, steps) && AcquiresAt(w, states, steps, i, n, e) && i < m < |states|
    requires IsExecuting(states[m], n, e)
    requires forall p :: i < p < m ==> !ForcesRelease(states[p], steps[p], n)
    ensures later.None? ==> Held(states[m], n, Stamp(states[i]))
    ensures later.Some? ==> i < later.value < m && TakesLock(w, states[later.value], steps[later.value]) &&
                            Stamp(states[later.value]) > Stamp(states[i]) + 300
  {
    assert |states| == |steps| + 1;
    hide IsRun, TakesLock, AcquiresAt, IsExecuting;
    var q := i + 1;
    while q < m && !TakesLock(w, states[q], steps[q])
      invariant i < q <= m && NoTaker(w, states, steps, i, q)
    {
      q := q + 1;
    }
    OnlyForced(w, states, steps, i, q, m, n, e);
    LockUntilTaken(w, states, steps, i, q, n, e);
    later := if q < m then Some(q) else None;
    if q < m {
      StaleTaker(w, states, steps, i, q, n, e);
    }
  }

  lemma StaleTaker(w: World, states: seq<State>, steps: seq<Step>, i: nat, q: nat, n: nat, e: nat)
    requires IsRun(w, states, steps) && AcquiresAt(w, states, steps, i, n, e) && i < q < |steps|
    requires NoTaker(w, states, steps, i, q) && TakesLock(w, states[q], steps[q]) && !Unlocked(states, steps, i, q, n)
    ensures Stamp(states[q]) > Stamp(states[i]) + LOCK_SECONDS
  {
    AtStep(w, states, steps, q);
    hide IsRun, Apply;
    TakesExactly(w, states, steps, i, q, n, e);
    assert steps[q].staleRead <= states[q].clock;
  }

  /** Whoever is in the body of a global task took the lock at some step. */
  lemma {:induction false} EntryStep(w: World, states: seq<State>, steps: seq<Step>, k: nat, n: nat, e: nat)
      returns (i: nat)
    requires IsRun(w, states, steps) && w.def.global && k < |states| && IsExecuting(states[k], n, e)
    ensures i < k && AcquiresAt(w, states, steps, i, n, e)
  {
    hide Apply, CanStep, TakesLock;
    AtStep(w, states, steps, k - 1);
    if IsExecuting(states[k - 1], n, e) {
      i := EntryStep(w, states, steps, k - 1, n, e);
    } else {
      i := k - 1;
      OnlyAcquireEnters(w, states[k - 1], steps[k - 1], n, e);
    }
  }

  lemma OnlyAcquireEnters(w: World, s: State, step: Step, n: nat, e: nat)
    requires CanStep(w, s, step) && w.def.global && !IsExecuting(s, n, e) && IsExecuting(Apply(w, s, step), n, e)
    ensures step.Acquire? && step.n == n && step.e == e && TakesLock(w, s, step)
  {
    hide LoadedTask, Finished, NextTime, Ready, RowAfter;
  }

  /** In every reachable state: two different executions of a global task overlap only if their locks are
      more than 300 s apart or a lock was force-released before. */
  lemma OverlapNeedsExpiryOrForce(w: World, states: seq<State>, steps: seq<Step>, k: nat,
                                  n1: nat, e1: nat, n2: nat, e2: nat)
    requires IsRun(w, states, steps) && w.def.global && k < |states| && (n1 != n2 || e1 != e2)
    requires IsExecuting(states[k], n1, e1) && IsExecuting(states[k], n2, e2)
    ensures var since1, since2 := states[k].nodes[n1].live[e1].since, states[k].nodes[n2].live[e2].since;
            || since2 > since1 + 300 || since1 > since2 + 300
            || exists p :: 0 <= p < k &&
                 (ForcesRelease(states[p], steps[p], n1) || ForcesRelease(states[p], steps[p], n2))
  {
    var i := EntryStep(w, states, steps, k, n1, e1);
    var j := EntryStep(w, states, steps, k, n2, e2);
    ExecutingSince(w, states, steps, i, k, k, n1, e1);
    ExecutingSince(w, states, steps, j, k, k, n2, e2);
    if i < j {
      MutualExclusion(w, states, steps, i, j, k, n1, e1, n2, e2);
    } else {
      MutualExclusion(w, states, steps, j, i, k, n2, e2, n1, e1);
    }
  }

  /** The release of any other execution, late or not, leaves the lock of one in the body alone. */
  lemma LateReleaseHarmless(w: World, states: seq<State>, steps: seq<Step>, k: nat, n: nat, e: nat, since: nat)
    requires IsRun(w, states, steps) && k < |steps| && IsExecuting(states[k], n, e) && Held(states[k], n, since)
    requires steps[k].Release?
    ensures states[k + 1].row == states[k].row
  {
    OneExecutionPerNode(w, states, steps, k);
    if steps[k].n == n {
      BothLive(states[k].nodes[n], states[k].execs, e, steps[k].e);
    }
  }

  // ---------------------------------------------------------------------------
  // Three ways in which executions overlap
  // ---------------------------------------------------------------------------

  /** A run, no statement having failed, that ends with both nodes in the body. */
  ghost predicate Overlap(w: World, states: seq<State>, steps: seq<Step>, s: State) {
    Reaches(w, states, steps, s) && IsExecuting(s, 1, 0) && IsExecuting(s, 2, 1)
  }

  /** A node that starts up clears the lock of a node that is in the body. */
  lemma StartupOverlaps(w: World) returns (states: seq<State>, steps: seq<Step>, s: State)
    requires w.def.global
    ensures Overlap(w, states, steps, s)
  {
    hide Apply, CanStep, Reaches;
    var s0;
    states, steps, s0 := OneNode(w);
    var s1 := Runs(w, s0, 1);
    var s2 := Locks(w, s1, 1, 0);
    var s3 := ReadsRow(w, s2, 2);
    var s4 := WritesRow(w, s3, 2);
    var s5 := Runs(w, s4, 2);
    s := Locks(w, s5, 2, 1);
    states, steps := Extend(w, states, steps, s0, RunNow(1));
    states, steps := Extend(w, states, steps, s1, Acquire(1, 0, 0, true));
    states, steps := Extend(w, states, steps, s2, StartRead(2, 0, true));
    states, steps := Extend(w, states, steps, s3, StartWrite(2, true));
    states, steps := Extend(w, states, steps, s4, RunNow(2));
    states, steps := Extend(w, states, steps, s5, Acquire(2, 1, 0, true));
  }

  /** The body of a run takes longer than 300 s. */
  lemma ExpiryOverlaps(w: World) returns (states: seq<State>, steps: seq<Step>, s: State)
    requires w.def.global
    ensures Overlap(w, states, steps, s)
  {
    hide Apply, CanStep, Reaches;
    var s0;
    states, steps, s0 := TwoNodes(w);
    var s1 := Runs(w, s0, 1);
    var s2 := Locks(w, s1, 1, 0);
    var s3 := Waits(w, s2, 301 * SECOND);
    var s4 := Runs(w, s3, 2);
    s := Locks(w, s4, 2, 1);
    states, steps := Extend(w, states, steps, s0, RunNow(1));
    states, steps := Extend(w, states, steps, s1, Acquire(1, 0, 0, true));
    states, steps := Extend(w, states, steps, s2, Advance(301 * SECOND));
    states, steps := Extend(w, states, steps, s3, RunNow(2));
    states, steps := Extend(w, states, steps, s4, Acquire(2, 1, 301 * SECOND, true));
  }

  lemma Waits(w: World, s: State, elapsed: nat) returns (t: State)
    ensures CanStep(w, s, Advance(elapsed)) && t == Apply(w, s, Advance(elapsed))
    ensures t == s.(clock := s.clock + elapsed)
  {
    t := Apply(w, s, Advance(elapsed));
  }

  /** A node that is stopped releases its lock while its run goes on. */
  lemma StopOverlaps(w: World) returns (states: seq<State>, steps: seq<Step>, s: State)
    requires w.def.global
    ensures Overlap(w, states, steps, s)
  {
    hide Apply, CanStep, Reaches;
    var s0;
    states, steps, s0 := TwoNodes(w);
    var s1 := Runs(w, s0, 1);
    var s2 := Locks(w, s1, 1, 0);
    var s3 := Stops(w, s2, 1);
    var s4 := Runs(w, s3, 2);
    s := Locks(w, s4, 2, 1);
    states, steps := Extend(w, states, steps, s0, RunNow(1));
    states, steps := Extend(w, states, steps, s1, Acquire(1, 0, 0, true));
    states, steps := Extend(w, states, steps, s2, Stop(1, true));
    states, steps := Extend(w, states, steps, s3, RunNow(2));
    states, steps := Extend(w, states, steps, s4, Acquire(2, 1, 0, true));
  }

  lemma Stops(w: World, s: State, n: nat) returns (t: State)
    requires IsUp(s, n) && s.row.Some?
    ensures CanStep(w, s, Stop(n, true)) && t == Apply(w, s, Stop(n, true))
    ensures t == s.(row := Some(Unlock(s.row.value, n)))
  {
    t := Apply(w, s, Stop(n, true));
  }
}
