/** The scheduler of src/scheduler as objects that change in place: tasks, the scheduler_tasks table,
    and the operations of a node. Each is proved to change its fields and rows exactly as the functions
    of SchedulerTask say, and to perform steps of the cluster's state machine. */
module Scheduler {
  import opened Wrappers
  import opened Decimal
  import opened CronSchedule
  import opened SchedulerTask
  import opened SchedulerCluster
  import opened SchedulerSteps

  /** The tasks that can never be disabled. */
  const CRITICAL: set<string> :=
    {"session_cleanup", "token_cleanup", "log_rotation", "ssl_renewal", "healthcheck_self", "tor_health",
     "cluster_heartbeat"}

  class Task {
    const def: TaskDef
    var enabled: bool
    var running: bool
    var nextRun: int
    var attempt: nat

    constructor (def: TaskDef, enabled: bool)
      ensures this.def == def && View() == TaskState(enabled, false, 0, 0)
    {
      this.def := def;
      this.enabled, running, nextRun, attempt := enabled, false, 0, 0;
    }

    function View(): TaskState
      reads this
    {
      TaskState(enabled, running, nextRun, attempt)
    }

    /** The critical section of tick. */
    method TryBegin(now: nat) returns (ready: bool)
      modifies this
      ensures ready == Ready(old(View()), now)
      ensures View() == if ready then old(View()).(running := true) else old(View())
      ensures ready <==> old(enabled) && !old(running) && old(nextRun) <= now
    {
      ready := enabled && !running && now >= nextRun;
      if ready {
        running := true;
      }
    }

    /** The critical section of RunNow. */
    method BeginNow() returns (ok: bool)
      modifies this
      ensures ok == !old(running) && View() == old(View()).(running := true)
    {
      if running {
        return false;
      }
      running := true;
      return true;
    }

    /** The critical section after the task body: resets or counts the attempt, doubles the delay in a
        loop, and sets the next run. */
    method FinishRun(failed: bool, finished: nat, zone: Zone)
      requires Shaped(def.schedule) && def.retryDelay <= MAX_INT64
      modifies this
      ensures View() == Finished(def, old(View()), failed, finished, zone)
    {
      hide NextTime, Backoff;
      if failed {
        attempt := attempt + 1;
        if def.maxRetries > 0 && attempt <= def.maxRetries {
          var backoff := DoubleDelay(def.retryDelay, attempt);
          nextRun := finished + backoff;
        } else {
          nextRun := Next(def.schedule, finished, zone);
        }
      } else {
        attempt := 0;
        nextRun := Next(def.schedule, finished, zone);
      }
    }
  }

  /** The doubling loop, in 64-bit arithmetic. */
  method DoubleDelay(retryDelay: nat, attempt: nat) returns (backoff: int)
    requires attempt >= 1 && retryDelay <= MAX_INT64
    ensures backoff == Backoff(retryDelay, attempt)
  {
    hide Wrap64;
    backoff := retryDelay;
    WrapRange(retryDelay);
    var i := 1;
    while i < attempt
      invariant 1 <= i <= attempt
      invariant backoff == Backoff(retryDelay, i)
    {
      WrapDoubles(RetryDelay(retryDelay, i));
      Doubled(retryDelay, i);
      backoff := Wrap64(2 * backoff);
      i := i + 1;
    }
  }

  lemma Doubled(d: nat, i: nat)
    requires i >= 1
    ensures 2 * RetryDelay(d, i) == RetryDelay(d, i + 1)
  {
    assert Pow2(i) == 2 * Pow2(i - 1);
  }

  /** The scheduler_tasks table. `works` says whether the database carries a statement out. */
  class TaskTable {
    var rows: map<string, Row>

    constructor (rows: map<string, Row>)
      ensures this.rows == rows
    {
      this.rows := rows;
    }

    function RowOf(id: string): Option<Row>
      reads this
    {
      if id in rows then Some(rows[id]) else None
    }

    /** UPDATE ... SET locked_by, locked_at WHERE the row is free or stale. */
    method Acquire(id: string, node: nat, staleBefore: int, now: nat, works: bool) returns (ok: bool)
      modifies this
      ensures ok == (works && id in old(rows) && CanLock(old(rows)[id], staleBefore))
      ensures rows == if ok then old(rows)[id := Lock(old(rows)[id], node, now)] else old(rows)
      ensures ok <==> works && id in old(rows) &&
                      (old(rows)[id].lockedBy.None? || old(rows)[id].lockedAt < staleBefore)
      ensures ok ==> rows[id].lockedBy == Some(node) && rows[id].lockedAt == now / 1_000_000_000
    {
      ok := works && id in rows && CanLock(rows[id], staleBefore);
      if ok {
        rows := rows[id := Lock(rows[id], node, now)];
      }
    }

    /** UPDATE ... SET locked_by=NULL WHERE locked_by is this node. */
    method Release(id: string, node: nat, works: bool)
      modifies this
      ensures rows == if works && id in old(rows) then old(rows)[id := Unlock(old(rows)[id], node)] else old(rows)
      ensures works && id in old(rows) ==>
                rows[id].lockedBy == if old(rows)[id].lockedBy == Some(node) then None else old(rows)[id].lockedBy
    {
      if works && id in rows {
        rows := rows[id := Unlock(rows[id], node)];
      }
    }

    /** The force-release of Stop, over every row. */
    method ReleaseAll(node: nat, works: bool)
      modifies this
      ensures rows == if works then (map id | id in old(rows) :: Unlock(old(rows)[id], node)) else old(rows)
      ensures works ==> forall id :: id in rows ==>
                rows[id].lockedBy == if old(rows)[id].lockedBy == Some(node) then None else old(rows)[id].lockedBy
    {
      if works {
        rows := map id | id in rows :: Unlock(rows[id], node);
      }
    }

    method SetEnabled(id: string, on: bool, works: bool)
      modifies this
      ensures rows == if works && id in old(rows) then old(rows)[id := old(rows)[id].(enabled := on)] else old(rows)
    {
      if works && id in rows {
        rows := rows[id := rows[id].(enabled := on)];
      }
    }

    method Record(id: string, nextRun: int, failed: bool, works: bool)
      modifies this
      ensures rows == if works && id in old(rows) then old(rows)[id := Recorded(old(rows)[id], nextRun, failed)]
                      else old(rows)
      ensures works && id in old(rows) ==>
                && rows[id].runs == old(rows)[id].runs + (if failed then 0 else 1)
                && rows[id].fails == old(rows)[id].fails + (if failed then 1 else 0)
                && (nextRun >= 0 ==> rows[id].nextRun == nextRun / 1_000_000_000)
    {
      if works && id in rows {
        rows := rows[id := Recorded(rows[id], nextRun, failed)];
      }
    }

    /** INSERT ... ON CONFLICT: a new row, or nothing that this model holds. */
    method Insert(id: string, row: Row, works: bool)
      modifies this
      ensures rows == if works && id !in old(rows) then old(rows)[id := row] else old(rows)
    {
      if works && id !in rows {
        rows := rows[id := row];
      }
    }

    /** The sync of an existing row at startup: sets the enabled bit and clears whatever lock there is. */
    method Sync(id: string, on: bool, works: bool)
      modifies this
      ensures rows == if works && id in old(rows) then old(rows)[id := ClearLock(old(rows)[id]).(enabled := on)]
                      else old(rows)
    {
      if works && id in rows {
        rows := rows[id := ClearLock(rows[id]).(enabled := on)];
      }
    }

    method SetNextRun(id: string, nextRun: nat, works: bool)
      modifies this
      ensures rows == if works && id in old(rows) then old(rows)[id := old(rows)[id].(nextRun := nextRun)]
                      else old(rows)
    {
      if works && id in rows {
        rows := rows[id := rows[id].(nextRun := nextRun)];
      }
    }
  }

  datatype Reply = Done | WriteFailed | NotFound | AlreadyRunning | NotSkippable

  class SchedulerNode {
    const node: nat
    const zone: Zone
    const catchUp: nat
    const table: TaskTable
    const tasks: seq<Task>

    constructor (node: nat, zone: Zone, catchUp: nat, table: TaskTable, tasks: seq<Task>)
      requires DistinctTasks(tasks)
      ensures this.node == node && this.zone == zone && this.catchUp == catchUp && this.table == table
      ensures this.tasks == tasks && Valid()
    {
      this.node, this.zone, this.catchUp, this.table, this.tasks := node, zone, catchUp, table, tasks;
    }

    /** Every id is registered once, with a schedule that parsed and a 64-bit delay, and criticality is
        decided by the id. */
    ghost predicate Valid() {
      DistinctTasks(tasks)
    }

    /** What a task and its row are. */
    function Show(t: Task): Shown
      reads t, table
    {
      Shown(t.View(), table.RowOf(t.def.id))
    }

    /** A cluster that runs this task with the settings of this node. */
    ghost predicate Describes(w: World, t: Task) {
      w.def == t.def && w.catchUp == catchUp && w.zone == zone
    }

    /** The ticker's pass over all tasks: exactly those that are enabled, idle and due are started. */
    method Tick(now: nat) returns (started: seq<Task>)
      requires Valid()
      modifies tasks
      ensures forall t :: t in started <==> t in tasks && old(t.enabled) && !old(t.running) && old(t.nextRun) <= now
      ensures forall t :: t in tasks ==>
                t.View() == if t in started then old(t.View()).(running := true) else old(t.View())
      ensures forall t, w :: t in tasks && Describes(w, t) ==> Performs(w, now, Step.Tick(node), old(Show(t)), Show(t))
    {
      hide Performs, Ready;
      started := [];
      for i := 0 to |tasks|
        invariant forall t :: t in started <==>
                    t in tasks[..i] && old(t.enabled) && !old(t.running) && old(t.nextRun) <= now
        invariant forall j :: 0 <= j < |tasks| ==>
                    tasks[j].View() == if tasks[j] in started then old(tasks[j].View()).(running := true)
                                       else old(tasks[j].View())
      {
        assert tasks[..i + 1] == tasks[..i] + [tasks[i]];
        assert tasks[i] !in tasks[..i];
        var ready := tasks[i].TryBegin(now);
        if ready {
          started := started + [tasks[i]];
        }
      }
      assert tasks[..|tasks|] == tasks;
      forall t, w | t in tasks && Describes(w, t)
        ensures Performs(w, now, Step.Tick(node), old(Show(t)), Show(t))
      {
        TickPerforms(w, now, node, old(Show(t)));
        StartedIsReady(old(t.View()), now);
      }
    }

    lemma StartedIsReady(t: TaskState, now: nat)
      ensures Ready(t, now) <==> t.enabled && !t.running && t.nextRun <= now
    {
    }

    method FindTask(id: string) returns (t: Task?)
      ensures t == null <==> forall x :: x in tasks ==> x.def.id != id
      ensures t != null ==> t in tasks && t.def.id == id
    {
      for i := 0 to |tasks|
        invariant forall j :: 0 <= j < i ==> tasks[j].def.id != id
      {
        if tasks[i].def.id == id {
          return tasks[i];
        }
      }
      return null;
    }

    method SetTaskEnabled(id: string, on: bool, works: bool) returns (r: Reply)
      requires Valid()
      modifies tasks, table
      ensures r.NotSkippable? <==>
                !on && id in {"session_cleanup", "token_cleanup", "log_rotation", "ssl_renewal", "healthcheck_self",
                              "tor_health", "cluster_heartbeat"}
      ensures r.NotFound? <==> (on || id !in CRITICAL) && forall t :: t in tasks ==> t.def.id != id
      ensures r.NotSkippable? || r.NotFound? ==> table.rows == old(table.rows)
      ensures r.NotSkippable? || r.NotFound? ==> forall t :: t in tasks ==> t.View() == old(t.View())
      ensures r.Done? || r.WriteFailed? ==>
                && (r.Done? <==> works)
                && (forall t :: t in tasks ==>
                      t.View() == if t.def.id == id then old(t.View()).(enabled := on) else old(t.View()))
                && table.rows == if works && id in old(table.rows)
                                 then old(table.rows)[id := old(table.rows)[id].(enabled := on)] else old(table.rows)
      ensures !r.AlreadyRunning?
      ensures r.Done? || r.WriteFailed? ==>
                forall t, w, clock :: t in tasks && t.def.id == id && Describes(w, t) ==>
                  PerformsBoth(w, clock, Step.SetEnabled(node, on), Step.StoreEnabled(node, on, works),
                               old(Show(t)), Shown(t.View(), old(table.RowOf(id))), Show(t))
    {
      hide PerformsBoth;
      if !on && id in CRITICAL {
        return NotSkippable;
      }
      var t := FindTask(id);
      if t == null {
        return NotFound;
      }
      t.enabled := on;
      table.SetEnabled(id, on, works);
      forall w, clock | Describes(w, t)
        ensures PerformsBoth(w, clock, Step.SetEnabled(node, on), Step.StoreEnabled(node, on, works),
                             old(Show(t)), Shown(t.View(), old(table.RowOf(id))), Show(t))
      {
        TogglePerforms(w, clock, node, on, works, old(Show(t)));
      }
      return if works then Done else WriteFailed;
    }

    method RunNow(id: string) returns (r: Reply, started: Task?)
      requires Valid()
      modifies tasks
      ensures r.NotFound? <==> forall t :: t in tasks ==> t.def.id != id
      ensures r.AlreadyRunning? <==> exists t :: t in tasks && t.def.id == id && old(t.running)
      ensures r == Done || r == NotFound || r == AlreadyRunning
      ensures r.Done? <==> started != null
      ensures started != null ==> started in tasks && started.def.id == id && !old(started.running)
      ensures forall t :: t in tasks ==>
                t.View() == if t == started then old(t.View()).(running := true) else old(t.View())
      ensures started != null ==>
                forall w, clock :: Describes(w, started) ==>
                  Performs(w, clock, Step.RunNow(node), old(Show(started)), Show(started))
    {
      hide Performs;
      var t := FindTask(id);
      if t == null {
        return NotFound, null;
      }
      var ok := t.BeginNow();
      if !ok {
        return AlreadyRunning, null;
      }
      forall w, clock | Describes(w, t)
        ensures Performs(w, clock, Step.RunNow(node), old(Show(t)), Show(t))
      {
        RunNowPerforms(w, clock, node, old(Show(t)));
      }
      return Done, t;
    }

    /** The head of runTask: for a global task, takes the lock or gives up until the next scheduled time. */
    method BeginExecution(t: Task, staleRead: nat, now: nat, works: bool) returns (go: bool)
      requires Shaped(t.def.schedule)
      modifies t, table
      ensures !t.def.global ==> go && t.View() == old(t.View()) && table.rows == old(table.rows)
      ensures t.def.global ==>
                && go == (works && t.def.id in old(table.rows) &&
                          CanLock(old(table.rows)[t.def.id], staleRead / 1_000_000_000 - 300))
                && table.rows == (if go then old(table.rows)[t.def.id := Lock(old(table.rows)[t.def.id], node, now)]
                                  else old(table.rows))
                && t.View() == if go then old(t.View())
                               else old(t.View()).(nextRun := NextTime(t.def.schedule, now, zone))
      ensures forall w, e :: Describes(w, t) ==>
                Performs(w, now, Step.Acquire(node, e, staleRead, works), old(Show(t)), Show(t))
    {
      hide Performs, NextTime, Lock, CanLock;
      go := true;
      if t.def.global {
        go := table.Acquire(t.def.id, node, staleRead / SECOND - LOCK_SECONDS, now, works);
        if !go {
          var next := Next(t.def.schedule, now, zone);
          t.nextRun := next;
        }
      }
      forall w, e | Describes(w, t)
        ensures Performs(w, now, Step.Acquire(node, e, staleRead, works), old(Show(t)), Show(t))
      {
        AcquirePerforms(w, now, node, e, staleRead, works, old(Show(t)));
      }
    }

    /** What runTask does once the task body has returned. */
    method FinishExecution(t: Task, failed: bool, finished: nat, works: bool)
      requires Shaped(t.def.schedule) && t.def.retryDelay <= MAX_INT64
      modifies t, table
      ensures t.View() == Finished(t.def, old(t.View()), failed, finished, zone)
      ensures table.rows == if works && t.def.id in old(table.rows)
                            then old(table.rows)[t.def.id := Recorded(old(table.rows)[t.def.id], t.nextRun, failed)]
                            else old(table.rows)
      ensures forall w, e :: Describes(w, t) ==>
                && Performs(w, finished, Step.Finish(node, e, failed), old(Show(t)), Shown(t.View(), old(Show(t)).row))
                && PerformsRecord(w, Step.Record(node, e, works), t.nextRun, failed,
                                  Shown(t.View(), old(Show(t)).row), Show(t))
    {
      hide Performs, PerformsRecord, Finished, Recorded;
      t.FinishRun(failed, finished, zone);
      table.Record(t.def.id, t.nextRun, failed, works);
      forall w, e | Describes(w, t)
        ensures Performs(w, finished, Step.Finish(node, e, failed), old(Show(t)), Shown(t.View(), old(Show(t)).row))
        ensures PerformsRecord(w, Step.Record(node, e, works), t.nextRun, failed,
                               Shown(t.View(), old(Show(t)).row), Show(t))
      {
        FinishPerforms(w, finished, node, e, failed, old(Show(t)));
        RecordPerforms(w, node, e, t.nextRun, failed, works, Shown(t.View(), old(Show(t)).row));
      }
    }

    /** The deferred tail of runTask: the lock first, then the running flag. */
    method EndExecution(t: Task, locked: bool, works: bool)
      modifies t, table
      ensures t.View() == old(t.View()).(running := false)
      ensures table.rows == if locked && works && t.def.id in old(table.rows)
                            then old(table.rows)[t.def.id := Unlock(old(table.rows)[t.def.id], node)]
                            else old(table.rows)
      ensures locked ==>
                forall w, clock, e :: Describes(w, t) ==>
                  PerformsBoth(w, clock, Step.Release(node, e, works), Step.Leave(node, e),
                               old(Show(t)), Shown(old(t.View()), Show(t).row), Show(t))
      ensures !locked ==>
                forall w, clock, e :: Describes(w, t) ==>
                  Performs(w, clock, Step.Leave(node, e), old(Show(t)), Show(t))
    {
      hide Performs, PerformsBoth, Unlock;
      if locked {
        table.Release(t.def.id, node, works);
      }
      t.running := false;
      forall w, clock, e | Describes(w, t)
        ensures locked ==> PerformsBoth(w, clock, Step.Release(node, e, works), Step.Leave(node, e),
                                        old(Show(t)), Shown(old(t.View()), Show(t).row), Show(t))
        ensures !locked ==> Performs(w, clock, Step.Leave(node, e), old(Show(t)), Show(t))
      {
        EndPerforms(w, clock, node, e, works, old(Show(t)));
        LeavePerforms(w, clock, node, e, old(Show(t)));
      }
    }

    /** The row of a task if this statement could read it. */
    function SeenRow(id: string, read: bool): Option<Row>
      reads table
    {
      if read then table.RowOf(id) else None
    }

    /** Loads one task and its row at startup; `t.enabled` still holds the configured bit. `works` and `skips` say
        whether the write and the possible second write succeed. */
    method LoadTask(t: Task, now: nat, read: bool, works: bool, skips: bool)
      requires Shaped(t.def.schedule) && t.def.critical == (t.def.id in CRITICAL)
      requires t.View() == TaskState(t.enabled, false, t.nextRun, 0) && (t.def.critical ==> t.enabled)
      modifies t, table
      ensures var seen := old(SeenRow(t.def.id, read));
              var boot := LoadedBoot(seen, now, catchUp);
              var found := old(table.RowOf(t.def.id));
              var row := if works then BootWrite(boot, t.View(), found) else found;
              && t.View() == LoadedTask(t.def, old(t.enabled), seen, now, catchUp, zone)
              && table.RowOf(t.def.id) == AfterSkip(boot, t.View(), row, skips)
              && SameExcept(old(table.rows), table.rows, t.def.id)
      ensures forall w :: Describes(w, t) && (w.configured || t.def.critical) == old(t.enabled) ==>
                LoadPerforms(w, now, read, works, skips, old(Show(t)).row, Show(t))
    {
      hide NextTime, LoadPerforms;
      if t.def.id !in table.rows || !read {
        LoadNew(t, now, read, works);
      } else {
        LoadStored(t, now, works, skips);
      }
      forall w | Describes(w, t) && (w.configured || t.def.critical) == old(t.enabled)
        ensures LoadPerforms(w, now, read, works, skips, old(Show(t)).row, Show(t))
      {
        LoadIsSteps(w, now, read, works, skips, old(Show(t)).row);
      }
    }

    /** The steps of a startup: reading the row, writing it, and writing the next run if it was skipped. */
    ghost predicate LoadPerforms(w: World, now: nat, read: bool, works: bool, skips: bool, row: Option<Row>,
                                 after: Shown)
    {
      var seen := if read then row else None;
      var boot := LoadedBoot(seen, now, w.catchUp);
      var written := Shown(after.task, if works then BootWrite(boot, after.task, row) else row);
      && PerformsRead(w, Step.StartRead(node, now, read), row, Shown(after.task, row), boot)
      && PerformsWrite(w, Step.StartWrite(node, works), Shown(after.task, row), boot, written, NextBoot(boot))
      && (if NextBoot(boot).Skipping?
          then PerformsWrite(w, Step.StartWrite(node, skips), written, Skipping, after, Up)
          else written == after)
    }

    lemma LoadIsSteps(w: World, now: nat, read: bool, works: bool, skips: bool, row: Option<Row>)
      ensures var seen := if read then row else None;
              var boot := LoadedBoot(seen, now, w.catchUp);
              var task := LoadedTask(w.def, w.configured, seen, now, w.catchUp, w.zone);
              var written := if works then BootWrite(boot, task, row) else row;
              LoadPerforms(w, now, read, works, skips, row,
                           Shown(task, AfterSkip(boot, task, written, skips)))
    {
      hide LoadedTask, BootWrite, LoadedBoot, PerformsRead, PerformsWrite;
      var seen := if read then row else None;
      var boot := LoadedBoot(seen, now, w.catchUp);
      var task := LoadedTask(w.def, w.configured, seen, now, w.catchUp, w.zone);
      var written := if works then BootWrite(boot, task, row) else row;
      StartReadPerforms(w, node, now, read, row);
      StartWritePerforms(w, node, works, Shown(task, row), boot);
      StartWritePerforms(w, node, skips, Shown(task, written), Skipping);
    }

    /** No row could be read: the task starts from its configuration. */
    method LoadNew(t: Task, now: nat, ghost read: bool, works: bool)
      requires Shaped(t.def.schedule) && !t.running && t.attempt == 0 && (t.def.critical ==> t.enabled)
      requires t.def.id !in table.rows || !read
      modifies t, table
      ensures t.View() == LoadedTask(t.def, old(t.enabled), None, now, catchUp, zone)
      ensures table.RowOf(t.def.id) ==
              if works then BootWrite(Inserting, t.View(), old(table.RowOf(t.def.id))) else old(table.RowOf(t.def.id))
      ensures SameExcept(old(table.rows), table.rows, t.def.id)
    {
      hide NextTime;
      var id := t.def.id;
      var next := Next(t.def.schedule, now, zone);
      t.nextRun := next;
      table.Insert(id, Row(t.enabled, next / SECOND, None, 0, 0, 0), works);
    }

    /** The row decides the enabled bit and the next run, with the catch-up rule for missed runs. */
    method LoadStored(t: Task, now: nat, works: bool, skips: bool)
      requires Shaped(t.def.schedule) && !t.running && t.attempt == 0 && t.def.critical == (t.def.id in CRITICAL)
      requires t.def.id in table.rows
      modifies t, table
      ensures var seen := old(table.RowOf(t.def.id));
              var boot := LoadedBoot(seen, now, catchUp);
              var row := if works then BootWrite(boot, t.View(), seen) else seen;
              && t.View() == LoadedTask(t.def, old(t.enabled), seen, now, catchUp, zone)
              && table.RowOf(t.def.id) == AfterSkip(boot, t.View(), row, skips)
      ensures SameExcept(old(table.rows), table.rows, t.def.id)
    {
      hide NextTime;
      var id := t.def.id;
      var row := table.rows[id];
      t.enabled := row.enabled;
      if id in CRITICAL {
        t.enabled := true;
      }
      table.Sync(id, t.enabled, works);
      var stored := row.nextRun * SECOND;
      if now - stored <= 0 {
        t.nextRun := stored;
      } else if now - stored <= catchUp {
        t.nextRun := now;
      } else {
        var next := Next(t.def.schedule, now, zone);
        t.nextRun := next;
        table.SetNextRun(id, next / SECOND, skips);
      }
    }

    /** The database part of Stop: releases every lock this node holds. */
    method Stop(works: bool)
      modifies table
      ensures table.rows == if works then (map id | id in old(table.rows) :: Unlock(old(table.rows)[id], node))
                            else old(table.rows)
      ensures forall w, clock, id, task ::
                Performs(w, clock, Step.Stop(node, works),
                         Shown(task, old(table.RowOf(id))), Shown(task, table.RowOf(id)))
    {
      hide Performs, Unlock;
      table.ReleaseAll(node, works);
      forall w, clock, id, task
        ensures Performs(w, clock, Step.Stop(node, works),
                         Shown(task, old(table.RowOf(id))), Shown(task, table.RowOf(id)))
      {
        StopPerforms(w, clock, node, works, Shown(task, old(table.RowOf(id))));
      }
    }
  }

  ghost predicate DistinctTasks(tasks: seq<Task>) {
    && (forall i, j :: 0 <= i < j < |tasks| ==> tasks[i] != tasks[j] && tasks[i].def.id != tasks[j].def.id)
    && (forall t :: t in tasks ==> Shaped(t.def.schedule) && t.def.retryDelay <= MAX_INT64 &&
                                   t.def.critical == (t.def.id in CRITICAL))
  }

  // ---------------------------------------------------------------------------
  // Registration
  // ---------------------------------------------------------------------------

  /** A task as the configuration describes it. */
  datatype TaskConfig = TaskConfig(id: string, global: bool, maxRetries: nat, retryDelay: nat, schedule: string,
                                   enabled: bool)

  /** The entries whose schedule is accepted, in order. */
  function AcceptedConfigs(configs: seq<TaskConfig>, parseDuration: string -> Option<int>): seq<TaskConfig> {
    if configs == [] then []
    else
      var last := configs[|configs| - 1];
      AcceptedConfigs(configs[..|configs| - 1], parseDuration) +
      (if ExprOutcome(last.schedule, parseDuration).Accepted? then [last] else [])
  }

  /** An entry is registered exactly if its schedule is accepted, and the others do not matter. */
  lemma {:induction false} AcceptedExactly(some: seq<TaskConfig>, more: seq<TaskConfig>, c: TaskConfig,
                                           parseDuration: string -> Option<int>)
    ensures AcceptedConfigs([c], parseDuration) == if ExprOutcome(c.schedule, parseDuration).Accepted? then [c] else []
    ensures AcceptedConfigs(some + more, parseDuration) ==
            AcceptedConfigs(some, parseDuration) + AcceptedConfigs(more, parseDuration)
    ensures c in AcceptedConfigs(some, parseDuration) <==>
            c in some && ExprOutcome(c.schedule, parseDuration).Accepted?
    decreases |some| + |more|
  {
    hide ExprOutcome;
    assert [c][..0] == [];
    if more != [] {
      var k := |more| - 1;
      assert (some + more)[..|some + more| - 1] == some + more[..k];
      AcceptedExactly(some, more[..k], c, parseDuration);
    } else {
      assert some + more == some;
      if some != [] {
        var k := |some| - 1;
        assert some == some[..k] + [some[k]];
        AcceptedExactly(some[..k], [], c, parseDuration);
      }
    }
  }

  /** The task is what an entry registers: critical ones are enabled whatever is configured. */
  ghost predicate Registers(t: Task, c: TaskConfig, parseDuration: string -> Option<int>)
    reads t
  {
    && t.def.id == c.id && t.def.global == c.global && t.def.critical == (c.id in CRITICAL)
    && t.def.maxRetries == c.maxRetries && t.def.retryDelay == c.retryDelay
    && Shaped(t.def.schedule) && ReadsExpr(t.def.schedule, c.schedule, parseDuration)
    && t.View() == TaskState(c.enabled || c.id in CRITICAL, false, 0, 0)
  }

  ghost predicate RegistersAll(tasks: seq<Task>, configs: seq<TaskConfig>, parseDuration: string -> Option<int>)
    reads tasks
  {
    |tasks| == |configs| && forall i :: 0 <= i < |tasks| ==> Registers(tasks[i], configs[i], parseDuration)
  }

  /** Registers exactly the accepted entries, in order, each as a new task; None if a schedule makes the
      parser panic. */
  method AddTasks(configs: seq<TaskConfig>, parseDuration: string -> Option<int>) returns (tasks: Option<seq<Task>>)
    ensures tasks.None? <==> exists c :: c in configs && ExprOutcome(c.schedule, parseDuration).Panicked?
    ensures tasks.Some? ==> RegistersAll(tasks.value, AcceptedConfigs(configs, parseDuration), parseDuration)
    ensures tasks.Some? ==> forall i :: 0 <= i < |tasks.value| ==> fresh(tasks.value[i])
  {
    AcceptNone(configs, parseDuration);
    hide ExprOutcome, ReadsExpr, Registers, AcceptedConfigs;
    var list: seq<Task> := [];
    for i := 0 to |configs|
      invariant forall j :: 0 <= j < i ==> !ExprOutcome(configs[j].schedule, parseDuration).Panicked?
      invariant RegistersAll(list, AcceptedConfigs(configs[..i], parseDuration), parseDuration)
      invariant forall j :: 0 <= j < |list| ==> fresh(list[j])
    {
      AcceptNext(configs, i, parseDuration);
      var parsed := ParseCronSchedule(configs[i].schedule, parseDuration);
      if parsed.Crash? {
        assert configs[i] in configs;
        return None;
      }
      if parsed.Parsed? {
        var t := NewTask(configs[i], parsed.schedule, parseDuration);
        list := list + [t];
      }
    }
    assert configs[..|configs|] == configs;
    return Some(list);
  }

  lemma AcceptNone(configs: seq<TaskConfig>, parseDuration: string -> Option<int>)
    ensures AcceptedConfigs(configs[..0], parseDuration) == []
  {
  }

  lemma AcceptNext(configs: seq<TaskConfig>, i: nat, parseDuration: string -> Option<int>)
    requires i < |configs|
    ensures AcceptedConfigs(configs[..i + 1], parseDuration) ==
            AcceptedConfigs(configs[..i], parseDuration) +
            (if ExprOutcome(configs[i].schedule, parseDuration).Accepted? then [configs[i]] else [])
  {
    hide ExprOutcome;
    assert configs[..i + 1][..i] == configs[..i];
  }

  method NewTask(c: TaskConfig, schedule: Schedule, ghost parseDuration: string -> Option<int>) returns (t: Task)
    requires Shaped(schedule) && ReadsExpr(schedule, c.schedule, parseDuration)
    ensures fresh(t) && Registers(t, c, parseDuration)
  {
    hide ReadsExpr;
    var critical := c.id in CRITICAL;
    t := new Task(TaskDef(c.id, c.global, critical, c.maxRetries, c.retryDelay, schedule), c.enabled || critical);
  }

  /** Tasks registered from entries with distinct ids and 64-bit delays make a valid scheduler. */
  lemma RegisteredDistinct(tasks: seq<Task>, configs: seq<TaskConfig>, parseDuration: string -> Option<int>)
    requires RegistersAll(tasks, configs, parseDuration)
    requires forall i, j :: 0 <= i < j < |configs| ==> configs[i].id != configs[j].id
    requires forall i :: 0 <= i < |configs| ==> configs[i].retryDelay <= MAX_INT64
    ensures DistinctTasks(tasks)
  {
    hide ReadsExpr;
    forall i, j | 0 <= i < j < |tasks|
      ensures tasks[i].def.id != tasks[j].def.id
    {
      assert Registers(tasks[i], configs[i], parseDuration) && Registers(tasks[j], configs[j], parseDuration);
    }
  }

  /** The row after the second write of a startup, which only a skipped run asks for. */
  function AfterSkip(boot: Boot, task: TaskState, row: Option<Row>, works: bool): Option<Row> {
    if NextBoot(boot).Skipping? && works then BootWrite(Skipping, task, row) else row
  }

  /** Only the row of `id` may differ. */
  ghost predicate SameExcept(before: map<string, Row>, after: map<string, Row>, id: string) {
    after - {id} == before - {id}
  }
}
