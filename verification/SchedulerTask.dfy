/** One scheduled task of src/scheduler: what each operation does to its fields in memory and to its
    row in the database, and the retry discipline that follows.

    Times are nanoseconds since the zero of Go's clock; a row holds whole seconds on the same scale
    (the source stores Unix seconds, a constant shift). */
module SchedulerTask {
  import opened Wrappers
  import opened Decimal
  import opened CronSchedule

  const SECOND: nat := 1_000_000_000
  const LOCK_SECONDS: nat := 300

  /** The fixed part of a task. `critical` tasks can never be disabled. */
  datatype TaskDef = TaskDef(id: string, global: bool, critical: bool, maxRetries: nat, retryDelay: nat,
                             schedule: Schedule)

  /** The fields a task's mutex guards. */
  datatype TaskState = TaskState(enabled: bool, running: bool, nextRun: int, attempt: nat)

  /** A row of scheduler_tasks. */
  datatype Row = Row(enabled: bool, nextRun: nat, lockedBy: Option<nat>, lockedAt: nat, runs: nat, fails: nat)

  // ---------------------------------------------------------------------------
  // Starting a run
  // ---------------------------------------------------------------------------

  predicate Ready(t: TaskState, now: nat) {
    t.enabled && !t.running && now >= t.nextRun
  }

  /** Whether a statement that claims the row would find it free or stale. */
  predicate CanLock(row: Row, staleBefore: int) {
    row.lockedBy.None? || row.lockedAt < staleBefore
  }

  function Lock(row: Row, node: nat, now: nat): Row {
    row.(lockedBy := Some(node), lockedAt := now / SECOND)
  }

  /** Clears the lock if `node` holds it. */
  function Unlock(row: Row, node: nat): Row {
    if row.lockedBy == Some(node) then ClearLock(row) else row
  }

  function ClearLock(row: Row): Row {
    row.(lockedBy := None, lockedAt := 0)
  }

  // ---------------------------------------------------------------------------
  // Finishing a run
  // ---------------------------------------------------------------------------

  function Pow2(n: nat): nat {
    if n == 0 then 1 else 2 * Pow2(n - 1)
  }

  /** A 64-bit signed integer with the same bits. */
  function Wrap64(x: int): int {
    (x - MIN_INT64) % 0x1_0000_0000_0000_0000 + MIN_INT64
  }

  /** The delay before retry number `attempt`: it doubles each time. */
  function RetryDelay(d: nat, attempt: nat): nat
    requires attempt >= 1
  {
    d * Pow2(attempt - 1)
  }

  /** The same delay as the doubling loop computes it, in 64 bits. */
  function Backoff(retryDelay: nat, attempt: nat): int
    requires attempt >= 1
  {
    Wrap64(RetryDelay(retryDelay, attempt))
  }

  predicate Retries(def: TaskDef, attempt: nat) {
    def.maxRetries > 0 && attempt <= def.maxRetries
  }

  /** The fields after a run that finished at `finished`. */
  function Finished(def: TaskDef, t: TaskState, failed: bool, finished: nat, zone: Zone): TaskState {
    if !failed then t.(attempt := 0, nextRun := NextTime(def.schedule, finished, zone))
    else if Retries(def, t.attempt + 1) then
      t.(attempt := t.attempt + 1, nextRun := finished + Backoff(def.retryDelay, t.attempt + 1))
    else t.(attempt := t.attempt + 1, nextRun := NextTime(def.schedule, finished, zone))
  }

  /** The row after the run is recorded. */
  function Recorded(row: Row, nextRun: int, failed: bool): Row {
    row.(nextRun := Seconds(nextRun),
         runs := if failed then row.runs else row.runs + 1,
         fails := if failed then row.fails + 1 else row.fails)
  }

  // ---------------------------------------------------------------------------
  // Starting the scheduler
  // ---------------------------------------------------------------------------

  /** What the startup of a task still has to write: the new row, the sync of the row that was read (and then,
      if its run was missed by too much, its next run), that next run, or nothing. */
  datatype Boot = Inserting | Syncing(late: bool) | Skipping | Up

  /** The task after loading at `now`. `seen` is the row if there is one and it could be read; `configured` is
      the enabled bit of the configuration. */
  function LoadedTask(def: TaskDef, configured: bool, seen: Option<Row>, now: nat, catchUp: nat, zone: Zone): TaskState
  {
    match seen
    case None => TaskState(configured || def.critical, false, NextTime(def.schedule, now, zone), 0)
    case Some(row) =>
      var stored := row.nextRun * SECOND;
      var nextRun := if now <= stored then stored
                     else if now - stored <= catchUp then now
                     else NextTime(def.schedule, now, zone);
      TaskState(row.enabled || def.critical, false, nextRun, 0)
  }

  function LoadedBoot(seen: Option<Row>, now: nat, catchUp: nat): Boot {
    match seen
    case None => Inserting
    case Some(row) => Syncing(now > row.nextRun * SECOND + catchUp)
  }

  function Seconds(t: int): nat {
    if t >= 0 then t / SECOND else 0
  }

  /** The row after the next statement of the startup of a task `t`. */
  function BootWrite(boot: Boot, t: TaskState, row: Option<Row>): Option<Row> {
    match boot
    case Inserting => if row.None? then Some(Row(t.enabled, Seconds(t.nextRun), None, 0, 0, 0)) else row
    case Syncing(_) => if row.Some? then Some(ClearLock(row.value).(enabled := t.enabled)) else row
    case Skipping => if row.Some? then Some(row.value.(nextRun := Seconds(t.nextRun))) else row
    case Up => row
  }

  function NextBoot(boot: Boot): Boot {
    if boot == Syncing(true) then Skipping else Up
  }

  /** After loading, no task is due in the past, critical tasks are on, and a row that was read decides
      every other task. */
  lemma LoadedIsCurrent(def: TaskDef, configured: bool, seen: Option<Row>, now: nat, catchUp: nat, zone: Zone)
    requires Shaped(def.schedule)
    ensures var t := LoadedTask(def, configured, seen, now, catchUp, zone);
            && t.nextRun >= now && !t.running && t.attempt == 0
            && t.enabled == (def.critical || (if seen.Some? then seen.value.enabled else configured))
  {
    NextIsLater(def.schedule, now, zone);
    hide NextTime, Shaped;
  }

  // ---------------------------------------------------------------------------
  // Retry discipline
  // ---------------------------------------------------------------------------

  lemma {:induction false} WrapDoubles(x: int)
    ensures Wrap64(2 * Wrap64(x)) == Wrap64(2 * x)
  {
    var m := 0x1_0000_0000_0000_0000;
    var q := (x - MIN_INT64) / m;
    assert Wrap64(x) == x - q * m;
    assert 2 * Wrap64(x) - MIN_INT64 == 2 * x - MIN_INT64 - 2 * q * m;
    ModShift(2 * x - MIN_INT64, m, 2 * q);
  }

  lemma ModShift(a: int, m: int, k: int)
    requires m > 0
    ensures (a - k * m) % m == a % m
  {
    var b := a - k * m;
    var q, r := a / m, a % m;
    assert b == (q - k) * m + r;
    ModOf(b, m, q - k, r);
  }

  lemma ModOf(b: int, m: int, q: int, r: int)
    requires m > 0 && 0 <= r < m && b == q * m + r
    ensures b % m == r
  {
    var q', r' := b / m, b % m;
    assert (q - q') * m == r' - r;
    if q - q' >= 1 {
      AtLeast(q - q', m);
    } else if q - q' <= -1 {
      AtLeast(q' - q, m);
    }
  }

  lemma AtLeast(k: int, m: int)
    requires k >= 1 && m > 0
    ensures k * m >= m
  {
  }

  /** Within 63 bits nothing wraps; from 2^63 up to 2^64 the result is negative. */
  lemma WrapRange(x: nat)
    ensures x <= MAX_INT64 ==> Wrap64(x) == x
    ensures MAX_INT64 < x < 0x1_0000_0000_0000_0000 ==> Wrap64(x) < 0
  {
  }

  /** Wrapping keeps the value modulo 2^64, within the 64-bit range. */
  lemma WrapExactly(x: int)
    ensures MIN_INT64 <= Wrap64(x) <= MAX_INT64
    ensures (Wrap64(x) - x) % 0x1_0000_0000_0000_0000 == 0
  {
    var m := 0x1_0000_0000_0000_0000;
    var q := (x - MIN_INT64) / m;
    assert Wrap64(x) - x == 0 - q * m;
    ModShift(0, m, q);
  }

  lemma {:induction false} Pow2Monotone(a: nat, b: nat)
    requires a <= b
    ensures 1 <= Pow2(a) <= Pow2(b)
    decreases b
  {
    if a < b {
      Pow2Monotone(a, b - 1);
    } else if a > 0 {
      Pow2Monotone(a - 1, a - 1);
    }
  }

  lemma DelayMonotone(d: nat, a: nat, b: nat)
    requires a <= b
    ensures d * Pow2(a) <= d * Pow2(b)
  {
    Pow2Monotone(a, b);
  }

  /** The last delay of the retries, before wrapping. */
  function LongestDelay(def: TaskDef): nat
    requires def.maxRetries > 0
  {
    RetryDelay(def.retryDelay, def.maxRetries)
  }

  /** Every retry is scheduled strictly after the failure, with the exact exponential delay, if and only
      if the longest delay fits in 63 bits. */
  lemma RetriesLaterExactly(def: TaskDef)
    requires def.maxRetries > 0 && 0 < def.retryDelay <= MAX_INT64
    ensures LongestDelay(def) <= MAX_INT64 <==>
            forall i :: 1 <= i <= def.maxRetries ==> Backoff(def.retryDelay, i) > 0
    ensures LongestDelay(def) <= MAX_INT64 ==>
            forall i :: 1 <= i <= def.maxRetries ==> Backoff(def.retryDelay, i) == RetryDelay(def.retryDelay, i)
  {
    if LongestDelay(def) <= MAX_INT64 {
      forall i | 1 <= i <= def.maxRetries
        ensures Backoff(def.retryDelay, i) == RetryDelay(def.retryDelay, i) > 0
      {
        DelayMonotone(def.retryDelay, i - 1, def.maxRetries - 1);
        Pow2Monotone(0, i - 1);
        WrapRange(def.retryDelay * Pow2(i - 1));
        Positive(def.retryDelay, Pow2(i - 1));
      }
    } else {
      var i := FirstOverflow(def.retryDelay, def.maxRetries - 1);
      WrapRange(def.retryDelay * Pow2(i));
      assert Backoff(def.retryDelay, i + 1) <= 0;
    }
  }

  lemma Positive(a: nat, b: nat)
    requires a > 0 && b > 0
    ensures a * b > 0
  {
  }

  /** The first doubling that leaves 63 bits stays within 64. */
  lemma {:induction false} FirstOverflow(d: nat, n: nat) returns (i: nat)
    requires d <= MAX_INT64 < d * Pow2(n)
    ensures i <= n && MAX_INT64 < d * Pow2(i) < 0x1_0000_0000_0000_0000
    decreases n
  {
    if d * Pow2(n - 1) > MAX_INT64 {
      i := FirstOverflow(d, n - 1);
    } else {
      i := n;
    }
  }

  /** The sum of the first `n` retry delays. */
  function TotalDelay(d: nat, n: nat): nat {
    if n == 0 then 0 else TotalDelay(d, n - 1) + RetryDelay(d, n)
  }

  lemma {:induction false} RetriesTotal(d: nat, n: nat)
    ensures TotalDelay(d, n) == d * (Pow2(n) - 1)
  {
    if n > 0 {
      RetriesTotal(d, n - 1);
      assert d * (Pow2(n - 1) - 1) + d * Pow2(n - 1) == d * (2 * Pow2(n - 1) - 1);
    }
  }
}
