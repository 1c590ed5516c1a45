/** What each step of the cluster does to the one task and row it concerns: the bridge between the objects of
    `Scheduler`, which change in place, and the state machine of `SchedulerCluster`. */
module SchedulerSteps {
  import opened Wrappers
  import opened CronSchedule
  import opened SchedulerTask
  import opened SchedulerCluster

  /** A task in the memory of a node, and its row. */
  datatype Shown = Shown(task: TaskState, row: Option<Row>)

  /** In every state of the cluster in which it is possible at this instant, and in which its node shows
      `before`, the step leads to one in which the node shows `after`. */
  ghost predicate Performs(w: World, clock: nat, step: Step, before: Shown, after: Shown)
    requires !step.Advance?
  {
    forall s: State ::
      s.clock == clock && CanStep(w, s, step) && step.n in s.nodes && Shown(s.nodes[step.n].task, s.row) == before ==>
        Shows(Apply(w, s, step), step.n, after)
  }

  /** The first step changes the memory of the node and the second the row, or the other way round. */
  ghost predicate PerformsBoth(w: World, clock: nat, first: Step, second: Step,
                               before: Shown, middle: Shown, after: Shown)
    requires !first.Advance? && !second.Advance?
  {
    Performs(w, clock, first, before, middle) && Performs(w, clock, second, middle, after)
  }

  ghost predicate Shows(s: State, n: nat, shown: Shown) {
    n in s.nodes && Shown(s.nodes[n].task, s.row) == shown
  }

  /** The same for the first step of a startup, with what is left to write afterwards. */
  ghost predicate PerformsRead(w: World, step: Step, row: Option<Row>, after: Shown, boot: Boot)
    requires step.StartRead?
  {
    forall s: State :: CanStep(w, s, step) && s.row == row ==>
      var t := Apply(w, s, step); Shows(t, step.n, after) && t.nodes[step.n].boot == boot
  }

  /** The same for the other steps of a startup, from what is left to write before and after. */
  ghost predicate PerformsWrite(w: World, step: Step, before: Shown, boot: Boot, after: Shown, left: Boot)
    requires step.StartWrite?
  {
    forall s: State ::
      CanStep(w, s, step) && Shown(s.nodes[step.n].task, s.row) == before && s.nodes[step.n].boot == boot ==>
        var t := Apply(w, s, step); Shows(t, step.n, after) && t.nodes[step.n].boot == left
  }

  lemma TickPerforms(w: World, clock: nat, n: nat, a: Shown)
    ensures Performs(w, clock, Step.Tick(n), a,
                     if Ready(a.task, clock) then a.(task := a.task.(running := true)) else a)
  {
    hide Ready;
  }

  lemma RunNowPerforms(w: World, clock: nat, n: nat, a: Shown)
    ensures Performs(w, clock, Step.RunNow(n), a, a.(task := a.task.(running := true)))
  {
  }

  lemma SetEnabledPerforms(w: World, clock: nat, n: nat, on: bool, a: Shown)
    requires on || !w.def.critical
    ensures Performs(w, clock, Step.SetEnabled(n, on), a, a.(task := a.task.(enabled := on)))
  {
  }

  lemma StoreEnabledPerforms(w: World, clock: nat, n: nat, on: bool, wrote: bool, a: Shown)
    ensures Performs(w, clock, Step.StoreEnabled(n, on, wrote), a,
                     a.(row := if wrote && a.row.Some? then Some(a.row.value.(enabled := on)) else a.row))
  {
  }

  lemma AcquirePerforms(w: World, clock: nat, n: nat, e: nat, staleRead: nat, wrote: bool, a: Shown)
    ensures !w.def.global ==> Performs(w, clock, Step.Acquire(n, e, staleRead, wrote), a, a)
    ensures w.def.global ==>
              var go := wrote && a.row.Some? && CanLock(a.row.value, staleRead / SECOND - LOCK_SECONDS);
              Performs(w, clock, Step.Acquire(n, e, staleRead, wrote), a,
                       if go then a.(row := Some(Lock(a.row.value, n, clock)))
                       else a.(task := a.task.(nextRun := NextTime(w.def.schedule, clock, w.zone))))
  {
    hide NextTime, Lock, CanLock;
  }

  lemma FinishPerforms(w: World, clock: nat, n: nat, e: nat, failed: bool, a: Shown)
    ensures Performs(w, clock, Step.Finish(n, e, failed), a, a.(task := Finished(w.def, a.task, failed, clock, w.zone)))
  {
    hide Finished;
  }

  /** Recording writes the outcome that the end of the body left. */
  ghost predicate PerformsRecord(w: World, step: Step, nextRun: int, failed: bool, before: Shown, after: Shown)
    requires step.Record?
  {
    forall s: State ::
      && CanStep(w, s, step) && Shown(s.nodes[step.n].task, s.row) == before
      && s.nodes[step.n].live[step.e] == Recording(nextRun, failed)
      ==> Shows(Apply(w, s, step), step.n, after)
  }

  lemma RecordPerforms(w: World, n: nat, e: nat, nextRun: int, failed: bool, wrote: bool, a: Shown)
    ensures var row := if wrote && a.row.Some? then Some(Recorded(a.row.value, nextRun, failed)) else a.row;
            PerformsRecord(w, Step.Record(n, e, wrote), nextRun, failed, a, a.(row := row))
  {
    hide Recorded;
  }

  lemma ReleasePerforms(w: World, clock: nat, n: nat, e: nat, wrote: bool, a: Shown)
    ensures Performs(w, clock, Step.Release(n, e, wrote), a,
                     a.(row := if wrote && a.row.Some? then Some(Unlock(a.row.value, n)) else a.row))
  {
    hide Unlock;
  }

  lemma LeavePerforms(w: World, clock: nat, n: nat, e: nat, a: Shown)
    ensures Performs(w, clock, Step.Leave(n, e), a, a.(task := a.task.(running := false)))
  {
  }

  lemma StopPerforms(w: World, clock: nat, n: nat, wrote: bool, a: Shown)
    ensures Performs(w, clock, Step.Stop(n, wrote), a,
                     a.(row := if wrote && a.row.Some? then Some(Unlock(a.row.value, n)) else a.row))
  {
    hide Unlock;
  }

  lemma StartReadPerforms(w: World, n: nat, now: nat, read: bool, row: Option<Row>)
    ensures var seen := if read then row else None;
            PerformsRead(w, Step.StartRead(n, now, read), row,
                         Shown(LoadedTask(w.def, w.configured, seen, now, w.catchUp, w.zone), row),
                         LoadedBoot(seen, now, w.catchUp))
  {
    hide LoadedTask, LoadedBoot;
  }

  lemma StartWritePerforms(w: World, n: nat, wrote: bool, a: Shown, boot: Boot)
    ensures PerformsWrite(w, Step.StartWrite(n, wrote), a, boot,
                          a.(row := if wrote then BootWrite(boot, a.task, a.row) else a.row), NextBoot(boot))
  {
    hide BootWrite, NextBoot;
  }

  /** A whole call of SetTaskEnabled. */
  lemma TogglePerforms(w: World, clock: nat, n: nat, on: bool, wrote: bool, a: Shown)
    requires on || !w.def.critical
    ensures var middle := a.(task := a.task.(enabled := on));
            PerformsBoth(w, clock, Step.SetEnabled(n, on), Step.StoreEnabled(n, on, wrote), a, middle,
                         middle.(row := if wrote && a.row.Some? then Some(a.row.value.(enabled := on)) else a.row))
  {
    hide Performs;
    SetEnabledPerforms(w, clock, n, on, a);
    StoreEnabledPerforms(w, clock, n, on, wrote, a.(task := a.task.(enabled := on)));
  }

  /** The tail of a run that holds the lock. */
  lemma EndPerforms(w: World, clock: nat, n: nat, e: nat, wrote: bool, a: Shown)
    ensures var middle := a.(row := if wrote && a.row.Some? then Some(Unlock(a.row.value, n)) else a.row);
            PerformsBoth(w, clock, Step.Release(n, e, wrote), Step.Leave(n, e), a, middle,
                         middle.(task := a.task.(running := false)))
  {
    hide Performs, Unlock;
    ReleasePerforms(w, clock, n, e, wrote, a);
    LeavePerforms(w, clock, n, e, a.(row := if wrote && a.row.Some? then Some(Unlock(a.row.value, n)) else a.row));
  }
}
