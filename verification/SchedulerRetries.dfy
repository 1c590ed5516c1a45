/** The retry discipline of src/scheduler over every run of the cluster: what the attempt counter counts, and
    when a task runs next. */
module SchedulerRetries {
  import opened Decimal
  import opened CronSchedule
  import opened SchedulerTask
  import opened SchedulerCluster

  /** The number of runs of node `n` that failed since its last success, or since it started. */
  function FailuresInRow(steps: seq<Step>, n: nat): nat {
    if steps == [] then 0
    else
      var before, last := steps[..|steps| - 1], steps[|steps| - 1];
      if last.StartRead? && last.n == n then 0
      else if last.Finish? && last.n == n then (if last.failed then FailuresInRow(before, n) + 1 else 0)
      else FailuresInRow(before, n)
  }

  lemma AttemptStep(w: World, s: State, step: Step, n: nat)
    requires CanStep(w, s, step) && n in Apply(w, s, step).nodes
    ensures var t := Apply(w, s, step);
            t.nodes[n].task.attempt ==
              if step.StartRead? && step.n == n then 0
              else if step.Finish? && step.n == n then (if step.failed then s.nodes[n].task.attempt + 1 else 0)
              else if n in s.nodes then s.nodes[n].task.attempt else 0
    ensures n !in s.nodes ==> step.StartRead? && step.n == n
  {
    hide NextTime, Ready, LockSucceeds, Backoff, RowAfter, LoadedBoot, NextBoot;
  }

  /** In every reachable state the attempt counter is the number of consecutive failures. */
  lemma {:induction false} AttemptCountsFailures(w: World, states: seq<State>, steps: seq<Step>, i: nat, n: nat)
    requires IsRun(w, states, steps) && i < |states| && n in states[i].nodes
    ensures states[i].nodes[n].task.attempt == FailuresInRow(steps[..i], n)
  {
    hide Apply;
    assert i > 0;
    assert steps[..i][..i - 1] == steps[..i - 1];
    if n in states[i - 1].nodes {
      AttemptCountsFailures(w, states, steps, i - 1, n);
    }
    AttemptStep(w, states[i - 1], steps[i - 1], n);
  }

  /** A task whose delays never overflow and whose schedule was parsed. */
  predicate SaneDef(def: TaskDef) {
    Shaped(def.schedule) && (def.maxRetries > 0 ==> 0 < def.retryDelay && LongestDelay(def) <= MAX_INT64)
  }

  /** Over whole runs: the first `maxRetries` consecutive failures are retried after
      retryDelay, 2 retryDelay, 4 retryDelay, ...; every other run follows the cron schedule; and the
      next run is always strictly after the finish. */
  lemma RetryDiscipline(w: World, states: seq<State>, steps: seq<Step>, i: nat)
    requires IsRun(w, states, steps) && i < |steps| && steps[i].Finish? && SaneDef(w.def)
    ensures var (n, now) := (steps[i].n, states[i].clock);
            var (c, next) := (FailuresInRow(steps[..i + 1], n), states[i + 1].nodes[n].task.nextRun);
            (steps[i].failed <==> c > 0) && next > now &&
            next == if 1 <= c <= w.def.maxRetries then now + RetryDelay(w.def.retryDelay, c)
                    else NextTime(w.def.schedule, now, w.zone)
  {
    var n := steps[i].n;
    AtStep(w, states, steps, i);
    FinishStep(w, states[i], steps[i]);
    AttemptCountsFailures(w, states, steps, i, n);
    FailuresAfter(steps, i);
    hide Apply, Finished, NextTime, RetryDelay, SaneDef, FailuresInRow, IsRun;
    FinishedDiscipline(w.def, states[i].nodes[n].task, steps[i].failed, states[i].clock, w.zone);
  }

  lemma FailuresAfter(steps: seq<Step>, i: nat)
    requires i < |steps| && steps[i].Finish?
    ensures FailuresInRow(steps[..i + 1], steps[i].n) ==
            if steps[i].failed then FailuresInRow(steps[..i], steps[i].n) + 1 else 0
  {
    assert steps[..i + 1][..i] == steps[..i];
  }

  lemma FinishStep(w: World, s: State, step: Step)
    requires step.Finish? && CanStep(w, s, step)
    ensures step.n in s.nodes && step.n in Apply(w, s, step).nodes
    ensures Apply(w, s, step).nodes[step.n].task == Finished(w.def, s.nodes[step.n].task, step.failed, s.clock, w.zone)
  {
    hide Finished;
  }

  lemma FinishedDiscipline(def: TaskDef, t: TaskState, failed: bool, now: nat, zone: Zone)
    requires SaneDef(def)
    ensures failed && t.attempt + 1 <= def.maxRetries ==>
              Finished(def, t, failed, now, zone).nextRun == now + RetryDelay(def.retryDelay, t.attempt + 1)
    ensures !failed || t.attempt + 1 > def.maxRetries ==>
              Finished(def, t, failed, now, zone).nextRun == NextTime(def.schedule, now, zone)
    ensures Finished(def, t, failed, now, zone).nextRun > now
  {
    hide NextTime, RetryDelay, Backoff, SaneDef;
    CronLater(def, now, zone);
    if failed && t.attempt + 1 <= def.maxRetries {
      SaneRetry(def, t.attempt + 1);
    }
  }

  lemma CronLater(def: TaskDef, now: nat, zone: Zone)
    requires SaneDef(def)
    ensures NextTime(def.schedule, now, zone) > now
  {
    NextIsLater(def.schedule, now, zone);
  }

  lemma SaneRetry(def: TaskDef, c: nat)
    requires SaneDef(def) && 1 <= c <= def.maxRetries
    ensures Backoff(def.retryDelay, c) == RetryDelay(def.retryDelay, c) > 0
  {
    FirstDelay(def);
    RetriesLaterExactly(def);
    hide RetryDelay;
    assert Backoff(def.retryDelay, c) > 0;
  }

  lemma FirstDelay(def: TaskDef)
    requires def.maxRetries > 0
    ensures def.retryDelay <= LongestDelay(def)
  {
    DelayMonotone(def.retryDelay, 0, def.maxRetries - 1);
  }
}
