/** The enabled bit of a task over every run of the cluster: a bit in the memory of each node, changed at once
    by a toggle, and a bit in the row, changed by a later statement; and startups that read the row and write
    it back in two statements. When do they agree, and what does a restart find? */
module SchedulerEnabled {
  import opened Wrappers
  import opened CronSchedule
  import opened SchedulerTask
  import opened SchedulerCluster
  import opened SchedulerRuns

  // ---------------------------------------------------------------------------
  // Where the two bits come from
  // ---------------------------------------------------------------------------

  /** A toggle the scheduler accepts: critical tasks cannot be switched off. */
  predicate AcceptsToggle(w: World, step: Step) {
    step.SetEnabled? && (step.on || !w.def.critical)
  }

  /** A step that sets the bit in the memory of node `n`: an accepted toggle, or its loading. */
  predicate SetsMemory(w: World, step: Step, n: nat) {
    (AcceptsToggle(w, step) || step.StartRead?) && step.n == n
  }

  /** The bit such a step sets. */
  function MemoryBit(w: World, s: State, step: Step): bool
    requires step.SetEnabled? || step.StartRead?
  {
    if step.SetEnabled? then step.on
    else
      var seen := Seen(s, step.read);
      w.def.critical || (if seen.Some? then seen.value.enabled else w.configured)
  }

  lemma MemoryStep(w: World, s: State, step: Step, n: nat)
    requires CanStep(w, s, step) && n in Apply(w, s, step).nodes
    ensures var on := Apply(w, s, step).nodes[n].task.enabled;
            if SetsMemory(w, step, n) then on == MemoryBit(w, s, step)
            else n in s.nodes && on == s.nodes[n].task.enabled
  {
    hide NextTime, Ready, LockSucceeds, Backoff, NextBoot, LoadedBoot, RowAfter;
  }

  /** The write-back of a startup that has read the row. */
  predicate Syncs(s: State, step: Step) {
    step.StartWrite? && step.wrote && step.n in s.nodes && s.nodes[step.n].boot.Syncing?
  }

  /** A toggle that reaches the row. */
  predicate WritesToggle(step: Step) {
    step.StoreEnabled? && step.wrote
  }

  /** A step that sets the bit of the row: a toggle, a sync, or the insertion of a new row. */
  predicate SetsRow(s: State, step: Step) {
    || (s.row.Some? && (WritesToggle(step) || Syncs(s, step)))
    || (s.row.None? && step.StartWrite? && step.wrote && step.n in s.nodes && s.nodes[step.n].boot.Inserting?)
  }

  function RowBit(s: State, step: Step): bool
    requires SetsRow(s, step)
  {
    if step.StoreEnabled? then step.on else s.nodes[step.n].task.enabled
  }

  predicate RowShows(s: State, on: bool) {
    s.row.Some? && s.row.value.enabled == on
  }

  lemma RowStep(w: World, s: State, step: Step)
    requires CanStep(w, s, step)
    ensures var t := Apply(w, s, step);
            if SetsRow(s, step) then RowShows(t, RowBit(s, step))
            else (t.row.Some? <==> s.row.Some?) && (s.row.Some? ==> RowShows(t, s.row.value.enabled))
  {
    hide Moved;
  }

  /** What a step does to the calls under way. */
  lemma TogglesStep(w: World, s: State, step: Step)
    requires CanStep(w, s, step)
    ensures Apply(w, s, step).toggles ==
            if AcceptsToggle(w, step) then s.toggles + multiset{Toggle(step.n, step.on)}
            else if step.StoreEnabled? then s.toggles - multiset{Toggle(step.n, step.on)}
            else s.toggles
  {
    hide NextTime, Ready, Finished, LoadedTask, LoadedBoot, NextBoot, LockSucceeds, RowAfter;
  }

  /** What a step does to the startups under way. */
  lemma BootStep(w: World, s: State, step: Step, n: nat)
    requires CanStep(w, s, step) && n in Apply(w, s, step).nodes
    ensures var boot := Apply(w, s, step).nodes[n].boot;
            if step.StartRead? && step.n == n then boot == LoadedBoot(Seen(s, step.read), step.now, w.catchUp)
            else n in s.nodes && boot == if step.StartWrite? && step.n == n then NextBoot(s.nodes[n].boot)
                                         else s.nodes[n].boot
  {
    hide NextTime, Ready, Finished, LoadedTask, LockSucceeds, RowAfter;
  }

  /** A critical task is enabled on every node in every reachable state, whatever the stored row says. */
  lemma {:induction false} CriticalAlwaysEnabled(w: World, states: seq<State>, steps: seq<Step>, i: nat, n: nat)
    requires IsRun(w, states, steps) && i < |states| && w.def.critical && n in states[i].nodes
    ensures states[i].nodes[n].task.enabled
  {
    hide Apply, CanStep;
    if i > 0 {
      AtStep(w, states, steps, i - 1);
      MemoryStep(w, states[i - 1], steps[i - 1], n);
      if !SetsMemory(w, steps[i - 1], n) {
        CriticalAlwaysEnabled(w, states, steps, i - 1, n);
      }
    }
  }

  /** No call under way switches a critical task off. */
  lemma {:induction false} TogglesAccepted(w: World, states: seq<State>, steps: seq<Step>, i: nat)
    requires IsRun(w, states, steps) && i < |states| && w.def.critical
    ensures forall t :: t in states[i].toggles ==> t.on
  {
    hide Apply, CanStep;
    if i > 0 {
      AtStep(w, states, steps, i - 1);
      hide IsRun;
      TogglesAccepted(w, states, steps, i - 1);
      TogglesStep(w, states[i - 1], steps[i - 1]);
    }
  }

  lemma StoredToggle(w: World, states: seq<State>, steps: seq<Step>, j: nat)
    requires IsRun(w, states, steps) && j < |steps| && WritesToggle(steps[j])
    ensures w.def.critical ==> steps[j].on
  {
    AtStep(w, states, steps, j);
    if w.def.critical {
      TogglesAccepted(w, states, steps, j);
      assert Toggle(steps[j].n, steps[j].on) in states[j].toggles;
    }
  }

  // ---------------------------------------------------------------------------
  // When memory and row agree
  // ---------------------------------------------------------------------------

  /** The bit of a node is the one that was set last. */
  lemma {:induction false} MemoryHolds(w: World, states: seq<State>, steps: seq<Step>, m: nat, n: nat) returns (i: nat)
    requires IsRun(w, states, steps) && m < |states| && n in states[m].nodes
    ensures i < m && SetsMemory(w, steps[i], n) && forall p :: i < p < m ==> !SetsMemory(w, steps[p], n)
    ensures states[m].nodes[n].task.enabled == MemoryBit(w, states[i], steps[i])
  {
    hide Apply, CanStep, SetsMemory;
    AtStep(w, states, steps, m - 1);
    MemoryStep(w, states[m - 1], steps[m - 1], n);
    if SetsMemory(w, steps[m - 1], n) {
      i := m - 1;
    } else {
      i := MemoryHolds(w, states, steps, m - 1, n);
    }
  }

  /** The bit of the row is the one that was set last, or the one found in the beginning. */
  lemma {:induction false} RowHolds(w: World, states: seq<State>, steps: seq<Step>, m: nat) returns (j: Option<nat>)
    requires IsRun(w, states, steps) && m < |states|
    ensures j.Some? ==> j.value < m && SetsRow(states[j.value], steps[j.value])
    ensures j.Some? ==> RowShows(states[m], RowBit(states[j.value], steps[j.value]))
    ensures forall p :: (if j.Some? then j.value + 1 else 0) <= p < m ==> !SetsRow(states[p], steps[p])
    ensures j.None? ==> (states[m].row.Some? <==> states[0].row.Some?) &&
                        (states[0].row.Some? ==> RowShows(states[m], states[0].row.value.enabled))
  {
    hide Apply, CanStep, SetsRow, RowBit;
    if m == 0 {
      j := None;
    } else {
      AtStep(w, states, steps, m - 1);
      RowStep(w, states[m - 1], steps[m - 1]);
      if SetsRow(states[m - 1], steps[m - 1]) {
        j := Some(m - 1);
      } else {
        j := RowHolds(w, states, steps, m - 1);
      }
    }
  }

  /** In every reachable state, memory and row agree exactly when the last step that set the bit of the node and
      the last that set the bit of the row, if any did, set the same value. */
  lemma ToggleAgreesExactly(w: World, states: seq<State>, steps: seq<Step>, m: nat, n: nat)
      returns (i: nat, j: Option<nat>)
    requires IsRun(w, states, steps) && m < |states| && n in states[m].nodes && states[m].row.Some?
    ensures i < m && SetsMemory(w, steps[i], n) && forall p :: i < p < m ==> !SetsMemory(w, steps[p], n)
    ensures j.Some? ==> j.value < m && SetsRow(states[j.value], steps[j.value])
    ensures forall p :: (if j.Some? then j.value + 1 else 0) <= p < m ==> !SetsRow(states[p], steps[p])
    ensures j.None? ==> states[0].row.Some?
    ensures states[m].nodes[n].task.enabled == states[m].row.value.enabled <==>
            MemoryBit(w, states[i], steps[i]) ==
            if j.Some? then RowBit(states[j.value], steps[j.value]) else states[0].row.value.enabled
  {
    hide IsRun, SetsMemory, SetsRow, MemoryBit, RowBit;
    i := MemoryHolds(w, states, steps, m, n);
    j := RowHolds(w, states, steps, m);
  }

  // ---------------------------------------------------------------------------
  // What becomes of a toggle that was written
  // ---------------------------------------------------------------------------

  /** Node `n` has started between the steps `a` and `b`. */
  predicate Started(steps: seq<Step>, a: nat, b: nat, n: nat)
    requires b <= |steps|
  {
    exists q :: a < q < b && steps[q].StartRead? && steps[q].n == n
  }

  lemma StartedMore(steps: seq<Step>, a: nat, b: nat, n: nat)
    requires a < b < |steps|
    ensures Started(steps, a, b + 1, n) <==> Started(steps, a, b, n) || (steps[b].StartRead? && steps[b].n == n)
  {
  }

  /** Step `p` is the write-back of a startup that was under way when the toggle of step `j` was written, and
      so had read the row before. */
  predicate StaleSync(states: seq<State>, steps: seq<Step>, j: nat, p: nat)
    requires j < |states| && p < |states| && p < |steps|
  {
    Syncs(states[p], steps[p]) && !Started(steps, j, p, steps[p].n)
  }

  /** Startups that read the row since step `j` hold the toggle. */
  ghost predicate FreshAgree(s: State, steps: seq<Step>, j: nat, m: nat, on: bool)
    requires m <= |steps|
  {
    forall n :: n in s.nodes && Started(steps, j, m, n) && s.nodes[n].boot.Syncing? ==> s.nodes[n].task.enabled == on
  }

  lemma FreshStep(w: World, s: State, steps: seq<Step>, j: nat, m: nat, on: bool)
    requires j < m < |steps| && CanStep(w, s, steps[m]) && RowShows(s, on) && (w.def.critical ==> on)
    requires FreshAgree(s, steps, j, m, on)
    ensures FreshAgree(Apply(w, s, steps[m]), steps, j, m + 1, on)
  {
    var t := Apply(w, s, steps[m]);
    forall n | n in t.nodes && Started(steps, j, m + 1, n) && t.nodes[n].boot.Syncing?
      ensures t.nodes[n].task.enabled == on
    {
      BootStep(w, s, steps[m], n);
      MemoryStep(w, s, steps[m], n);
      StartedMore(steps, j, m, n);
      hide Apply, Started;
    }
  }

  lemma KeepStep(w: World, s: State, step: Step, on: bool)
    requires CanStep(w, s, step) && RowShows(s, on) && !WritesToggle(step)
    requires Syncs(s, step) ==> s.nodes[step.n].task.enabled == on
    ensures RowShows(Apply(w, s, step), on)
  {
    RowStep(w, s, step);
    hide Apply, CanStep;
  }

  lemma {:induction false} ToggleStays(w: World, states: seq<State>, steps: seq<Step>, j: nat, m: nat)
    requires IsRun(w, states, steps) && j < m < |states| && WritesToggle(steps[j]) && states[j].row.Some?
    requires forall p :: j < p < m ==> !WritesToggle(steps[p])
    requires forall p :: j < p < m && StaleSync(states, steps, j, p) ==> StaleBit(states, steps, p) == steps[j].on
    ensures RowShows(states[m], steps[j].on) && FreshAgree(states[m], steps, j, m, steps[j].on)
    decreases m
  {
    hide Apply, CanStep;
    AtStep(w, states, steps, m - 1);
    if m == j + 1 {
      RowStep(w, states[j], steps[j]);
    } else {
      ToggleStays(w, states, steps, j, m - 1);
      StoredToggle(w, states, steps, j);
      hide IsRun;
      var s, step := states[m - 1], steps[m - 1];
      assert Syncs(s, step) ==> StaleSync(states, steps, j, m - 1) || Started(steps, j, m - 1, step.n);
      FreshStep(w, s, steps, j, m - 1, steps[j].on);
      KeepStep(w, s, step, steps[j].on);
    }
  }

  /** A toggle that was written stays in the row until the next one is, through any number of restarts, if and
      only if every startup that was under way when it was written, and syncs later, had read the same bit. */
  lemma ToggleStaysExactly(w: World, states: seq<State>, steps: seq<Step>, j: nat, m: nat)
    requires IsRun(w, states, steps) && j < m < |states| && WritesToggle(steps[j]) && states[j].row.Some?
    requires forall p :: j < p < m ==> !WritesToggle(steps[p])
    ensures (forall k :: j < k <= m ==> RowShows(states[k], steps[j].on)) <==>
            (forall p :: j < p < m && StaleSync(states, steps, j, p) ==> StaleBit(states, steps, p) == steps[j].on)
  {
    hide Apply, CanStep;
    var on := steps[j].on;
    if forall k :: j < k <= m ==> RowShows(states[k], on) {
      forall p | j < p < m && StaleSync(states, steps, j, p)
        ensures StaleBit(states, steps, p) == on
      {
        AtStep(w, states, steps, p);
        RowStep(w, states[p], steps[p]);
        assert RowShows(states[p], on) && RowShows(states[p + 1], on);
      }
    }
    if forall p :: j < p < m && StaleSync(states, steps, j, p) ==> StaleBit(states, steps, p) == on {
      forall k | j < k <= m
        ensures RowShows(states[k], on)
      {
        ToggleStays(w, states, steps, j, k);
      }
    }
  }

  /** The bit that the node of a sync holds. */
  function StaleBit(states: seq<State>, steps: seq<Step>, p: nat): bool
    requires p < |states| && p < |steps| && Syncs(states[p], steps[p])
  {
    states[p].nodes[steps[p].n].task.enabled
  }

  /** A restart that can read its row reproduces the last toggle written, on whichever node it was made, if no
      startup that was under way then has synced since. */
  lemma RestartReproducesToggle(w: World, states: seq<State>, steps: seq<Step>, j: nat, k: nat)
    requires IsRun(w, states, steps) && j < k < |steps| && WritesToggle(steps[j]) && states[j].row.Some?
    requires forall p :: j < p < k ==> !WritesToggle(steps[p]) && !StaleSync(states, steps, j, p)
    requires steps[k].StartRead? && steps[k].read
    ensures steps[k].n in states[k + 1].nodes && states[k + 1].nodes[steps[k].n].task.enabled == steps[j].on
  {
    ToggleStays(w, states, steps, j, k);
    StoredToggle(w, states, steps, j);
    AtStep(w, states, steps, k);
    StartedNode(w, states[k], steps[k]);
    MemoryStep(w, states[k], steps[k], steps[k].n);
    hide Apply, CanStep;
  }

  lemma StartedNode(w: World, s: State, step: Step)
    requires step.StartRead? && CanStep(w, s, step)
    ensures step.n in Apply(w, s, step).nodes
  {
  }

  // ---------------------------------------------------------------------------
  // When nothing interferes they agree
  // ---------------------------------------------------------------------------

  /** A startup that has read and not yet written. */
  predicate Loading(s: State, n: nat) {
    n in s.nodes && (s.nodes[n].boot.Syncing? || s.nodes[n].boot.Inserting?)
  }

  /** With one call or none under way, only its own statement ends it. */
  lemma CallStep(w: World, s: State, step: Step, call: Toggle)
    requires CanStep(w, s, step) && !AcceptsToggle(w, step)
    requires s.toggles == multiset{call} || s.toggles == multiset{}
    ensures var t := Apply(w, s, step);
            if step.StoreEnabled? then
              s.toggles == multiset{call} && call == Toggle(step.n, step.on) && t.toggles == multiset{}
            else t.toggles == s.toggles
  {
    TogglesStep(w, s, step);
    hide Apply;
  }

  /** Exactly one call runs from step `i` on: it is still under way, or step `j` was its statement. */
  lemma {:induction false} OneCall(w: World, states: seq<State>, steps: seq<Step>, i: nat, m: nat)
      returns (j: Option<nat>)
    requires IsRun(w, states, steps) && i < m < |states|
    requires AcceptsToggle(w, steps[i]) && states[i].toggles == multiset{}
    requires forall p :: i < p < m ==> !AcceptsToggle(w, steps[p])
    ensures j.None? ==> states[m].toggles == multiset{Toggle(steps[i].n, steps[i].on)}
    ensures j.None? ==> forall p :: i < p < m ==> !steps[p].StoreEnabled?
    ensures j.Some? ==> states[m].toggles == multiset{} && i < j.value < m
    ensures j.Some? ==> steps[j.value].StoreEnabled? && steps[j.value].on == steps[i].on
    ensures j.Some? ==> forall p :: i < p < m && p != j.value ==> !steps[p].StoreEnabled?
    decreases m
  {
    hide Apply, CanStep;
    AtStep(w, states, steps, m - 1);
    if m == i + 1 {
      TogglesStep(w, states[i], steps[i]);
      j := None;
    } else {
      j := OneCall(w, states, steps, i, m - 1);
      hide IsRun, AcceptsToggle;
      CallStep(w, states[m - 1], steps[m - 1], Toggle(steps[i].n, steps[i].on));
      if steps[m - 1].StoreEnabled? { j := Some(m - 1); }
    }
  }

  /** A row never goes away. */
  lemma {:induction false} RowStays(w: World, states: seq<State>, steps: seq<Step>, i: nat, m: nat)
    requires IsRun(w, states, steps) && i <= m < |states| && states[i].row.Some?
    ensures states[m].row.Some?
    decreases m
  {
    hide Apply, CanStep;
    if m > i {
      RowStays(w, states, steps, i, m - 1);
      AtStep(w, states, steps, m - 1);
      RowStep(w, states[m - 1], steps[m - 1]);
    }
  }

  /** A startup that syncs now and did not begin since was waiting to sync then. */
  lemma {:induction false} SyncingSince(w: World, states: seq<State>, steps: seq<Step>, j: nat, p: nat, n: nat)
    requires IsRun(w, states, steps) && j <= p < |states| && p <= |steps|
    requires forall q :: j <= q < p ==> !(steps[q].StartRead? && steps[q].n == n)
    requires n in states[p].nodes && states[p].nodes[n].boot.Syncing?
    ensures n in states[j].nodes && states[j].nodes[n].boot.Syncing?
    decreases p
  {
    hide Apply, CanStep;
    if p > j {
      AtStep(w, states, steps, p - 1);
      BootStep(w, states[p - 1], steps[p - 1], n);
      SyncingSince(w, states, steps, j, p - 1, n);
    }
  }

  lemma StaleWasLoading(w: World, states: seq<State>, steps: seq<Step>, j: nat, p: nat)
    requires IsRun(w, states, steps) && j < p < |steps| && StaleSync(states, steps, j, p) && !steps[j].StartRead?
    ensures Loading(states[j], steps[p].n)
  {
    SyncingSince(w, states, steps, j, p, steps[p].n);
  }

  /** A toggle on a node, no other call overlapping it, no startup between its read and its sync when the
      toggle is written, and that write succeeding: once the call is over, and until the next accepted toggle
      anywhere, the row and the memory of the node, unless it was restarted meanwhile, both hold it. */
  lemma QuietToggleAgrees(w: World, states: seq<State>, steps: seq<Step>, i: nat, m: nat)
    requires IsRun(w, states, steps) && i < m < |states| && AcceptsToggle(w, steps[i]) && states[i].row.Some?
    requires states[i].toggles == multiset{} == states[m].toggles
    requires forall p :: i < p < m ==> !AcceptsToggle(w, steps[p])
    requires forall p :: i < p < m && steps[p].StoreEnabled? ==> steps[p].wrote
    requires forall p, n :: i < p < m && steps[p].StoreEnabled? ==> !Loading(states[p], n)
    ensures RowShows(states[m], steps[i].on)
    ensures steps[i].n in states[m].nodes && !Started(steps, i, m, steps[i].n) ==>
              states[m].nodes[steps[i].n].task.enabled == steps[i].on
  {
    hide Apply, CanStep;
    var store := OneCall(w, states, steps, i, m);
    var j := store.value;
    RowStays(w, states, steps, i, j);
    assert forall n :: !Loading(states[j], n);
    forall p | j < p < m
      ensures !StaleSync(states, steps, j, p)
    {
      if StaleSync(states, steps, j, p) {
        StaleWasLoading(w, states, steps, j, p);
      }
    }
    ToggleStays(w, states, steps, j, m);
    if steps[i].n in states[m].nodes && !Started(steps, i, m, steps[i].n) {
      var k := MemoryHolds(w, states, steps, m, steps[i].n);
      assert k == i;
    }
  }

  /** The row after node `n` has loaded the bit `on`, while nobody toggles: `unread` says that there was no row
      when it did. */
  ghost predicate RowSettles(w: World, s: State, on: bool, unread: bool) {
    && s.toggles == multiset{} && (w.def.critical ==> on)
    && (s.row.None? ==> unread && on == (w.configured || w.def.critical))
    && (s.row.Some? ==> (s.row.value.enabled || w.def.critical) == on)
    && (s.row.Some? && unread ==> s.row.value.enabled == on)
  }

  /** The startups under way meanwhile. */
  ghost predicate StartupsSettle(s: State, on: bool) {
    && (forall k :: k in s.nodes && s.nodes[k].boot.Syncing? ==> s.nodes[k].task.enabled == on)
    && (forall k :: k in s.nodes && s.nodes[k].boot.Inserting? && s.row.None? ==> s.nodes[k].task.enabled == on)
  }

  /** The node itself. */
  ghost predicate NodeSettles(s: State, n: nat, on: bool, unread: bool) {
    n in s.nodes ==>
      && s.nodes[n].task.enabled == on
      && (s.nodes[n].boot.Inserting? ==> unread) && (s.nodes[n].boot.Syncing? ==> s.row.Some?)
      && (!Loading(s, n) ==> RowShows(s, on))
  }

  ghost predicate Settling(w: World, s: State, n: nat, on: bool, unread: bool) {
    RowSettles(w, s, on, unread) && StartupsSettle(s, on) && NodeSettles(s, n, on, unread)
  }

  lemma RowSettlesStep(w: World, s: State, step: Step, n: nat, on: bool, unread: bool)
    requires CanStep(w, s, step) && Settling(w, s, n, on, unread) && !AcceptsToggle(w, step)
    ensures RowSettles(w, Apply(w, s, step), on, unread)
    ensures s.row.Some? ==> Apply(w, s, step).row.Some?
    ensures RowShows(s, on) ==> RowShows(Apply(w, s, step), on)
    ensures s.row != Apply(w, s, step).row && SetsRow(s, step) ==> RowShows(Apply(w, s, step), on)
  {
    TogglesStep(w, s, step);
    RowStep(w, s, step);
    hide Apply;
  }

  lemma StartupsSettleStep(w: World, s: State, step: Step, n: nat, on: bool, unread: bool)
    requires CanStep(w, s, step) && Settling(w, s, n, on, unread) && !AcceptsToggle(w, step)
    ensures StartupsSettle(Apply(w, s, step), on)
  {
    var t := Apply(w, s, step);
    RowStep(w, s, step);
    forall k | k in t.nodes
      ensures t.nodes[k].boot.Syncing? ==> t.nodes[k].task.enabled == on
      ensures t.nodes[k].boot.Inserting? && t.row.None? ==> t.nodes[k].task.enabled == on
    {
      BootStep(w, s, step, k);
      MemoryStep(w, s, step, k);
      hide Apply;
    }
  }

  lemma NodeSettlesStep(w: World, s: State, step: Step, n: nat, on: bool, unread: bool)
    requires CanStep(w, s, step) && Settling(w, s, n, on, unread)
    requires !AcceptsToggle(w, step) && (step.StartWrite? && step.n == n ==> step.wrote)
    requires !(step.StartRead? && step.n == n)
    ensures NodeSettles(Apply(w, s, step), n, on, unread)
  {
    RowSettlesStep(w, s, step, n, on, unread);
    RowStep(w, s, step);
    if n in Apply(w, s, step).nodes {
      BootStep(w, s, step, n);
      MemoryStep(w, s, step, n);
    }
    hide Apply;
  }

  lemma SettlingStep(w: World, s: State, step: Step, n: nat, on: bool, unread: bool)
    requires CanStep(w, s, step) && Settling(w, s, n, on, unread)
    requires !AcceptsToggle(w, step) && (step.StartWrite? && step.n == n ==> step.wrote)
    requires !(step.StartRead? && step.n == n)
    ensures Settling(w, Apply(w, s, step), n, on, unread)
  {
    RowSettlesStep(w, s, step, n, on, unread);
    StartupsSettleStep(w, s, step, n, on, unread);
    NodeSettlesStep(w, s, step, n, on, unread);
    hide Apply, CanStep;
  }

  /** A startup that reads its row, while no call and no other startup is under way: once it is up, and until the
      next accepted toggle anywhere or its next start, the row and the memory of the node agree. */
  lemma QuietStartAgrees(w: World, states: seq<State>, steps: seq<Step>, i: nat, m: nat)
    requires IsRun(w, states, steps) && i < m < |states|
    requires steps[i].StartRead? && (states[i].row.Some? ==> steps[i].read)
    requires states[i].toggles == multiset{} && forall k :: !Loading(states[i], k)
    requires forall p :: i < p < m ==> !AcceptsToggle(w, steps[p])
    requires forall p :: i < p < m && steps[p].StartWrite? && steps[p].n == steps[i].n ==> steps[p].wrote
    requires forall p :: i < p < m && steps[p].StartRead? ==> steps[p].n != steps[i].n
    requires IsUp(states[m], steps[i].n)
    ensures RowShows(states[m], states[m].nodes[steps[i].n].task.enabled)
  {
    hide Apply, CanStep;
    Settled(w, states, steps, i, m);
  }

  lemma {:induction false} Settled(w: World, states: seq<State>, steps: seq<Step>, i: nat, m: nat)
    requires IsRun(w, states, steps) && i < m < |states|
    requires steps[i].StartRead? && (states[i].row.Some? ==> steps[i].read)
    requires states[i].toggles == multiset{} && forall k :: !Loading(states[i], k)
    requires forall p :: i < p < m ==> !AcceptsToggle(w, steps[p])
    requires forall p :: i < p < m && steps[p].StartWrite? && steps[p].n == steps[i].n ==> steps[p].wrote
    requires forall p :: i < p < m && steps[p].StartRead? ==> steps[p].n != steps[i].n
    ensures Settling(w, states[m], steps[i].n, MemoryBit(w, states[i], steps[i]), states[i].row.None?)
    decreases m
  {
    hide Apply, CanStep, Settling;
    AtStep(w, states, steps, m - 1);
    if m == i + 1 {
      SettlingStart(w, states[i], steps[i]);
    } else {
      Settled(w, states, steps, i, m - 1);
      hide IsRun;
      SettlingStep(w, states[m - 1], steps[m - 1], steps[i].n, MemoryBit(w, states[i], steps[i]), states[i].row.None?);
    }
  }

  lemma SettlingStart(w: World, s: State, step: Step)
    requires CanStep(w, s, step) && step.StartRead? && (s.row.Some? ==> step.read)
    requires s.toggles == multiset{} && forall k :: !Loading(s, k)
    ensures Settling(w, Apply(w, s, step), step.n, MemoryBit(w, s, step), s.row.None?)
  {
    var t := Apply(w, s, step);
    assert t.row == s.row && t.toggles == s.toggles;
    MemoryStep(w, s, step, step.n);
    BootStep(w, s, step, step.n);
    forall k | k in t.nodes && k != step.n
      ensures !Loading(t, k)
    {
      OtherNode(w, s, step, k);
      assert !Loading(s, k);
    }
    hide Apply;
  }

  // ---------------------------------------------------------------------------
  // Three ways in which they come apart
  // ---------------------------------------------------------------------------

  /** A run that ends in `s`, no statement having failed, no call or startup being under way. */
  ghost predicate EndsQuietly(w: World, states: seq<State>, steps: seq<Step>, s: State) {
    && IsRun(w, states, steps) && AllSucceed(steps) && states[|states| - 1] == s
    && s.toggles == multiset{} && forall n :: n in s.nodes ==> s.nodes[n].boot.Up?
  }

  lemma Toggles(w: World, s: State, n: nat, on: bool) returns (t: State)
    requires IsUp(s, n) && !w.def.critical
    ensures CanStep(w, s, SetEnabled(n, on)) && t == Apply(w, s, SetEnabled(n, on))
    ensures t == s.(nodes := s.nodes[n := s.nodes[n].(task := s.nodes[n].task.(enabled := on))],
                    toggles := s.toggles + multiset{Toggle(n, on)})
  {
    t := Apply(w, s, SetEnabled(n, on));
  }

  lemma Stores(w: World, s: State, n: nat, on: bool) returns (t: State)
    requires Toggle(n, on) in s.toggles && s.row.Some?
    ensures CanStep(w, s, StoreEnabled(n, on, true)) && t == Apply(w, s, StoreEnabled(n, on, true))
    ensures t == s.(row := Some(s.row.value.(enabled := on)), toggles := s.toggles - multiset{Toggle(n, on)})
  {
    t := Apply(w, s, StoreEnabled(n, on, true));
  }

  /** Two overlapping calls on one node, the statement of the first coming last. */
  lemma OverlappingTogglesDisagree(w: World) returns (states: seq<State>, steps: seq<Step>, s: State)
    requires !w.def.critical
    ensures EndsQuietly(w, states, steps, s) && 1 in s.nodes && s.nodes[1].task.enabled && RowShows(s, false)
  {
    hide Apply, CanStep, Reaches;
    var s0;
    states, steps, s0 := OneNode(w);
    var s1 := Toggles(w, s0, 1, false);
    var s2 := Toggles(w, s1, 1, true);
    assert s2.toggles == multiset{Toggle(1, false), Toggle(1, true)};
    var s3 := Stores(w, s2, 1, true);
    s := Stores(w, s3, 1, false);
    states, steps := Extend(w, states, steps, s0, SetEnabled(1, false));
    states, steps := Extend(w, states, steps, s1, SetEnabled(1, true));
    states, steps := Extend(w, states, steps, s2, StoreEnabled(1, true, true));
    states, steps := Extend(w, states, steps, s3, StoreEnabled(1, false, true));
    QuietEnd(w, states, steps, s);
  }

  lemma QuietEnd(w: World, states: seq<State>, steps: seq<Step>, s: State)
    requires Reaches(w, states, steps, s) && s.toggles == multiset{} && forall n :: n in s.nodes ==> s.nodes[n].boot.Up?
    ensures EndsQuietly(w, states, steps, s)
  {
  }

  /** One call on one node: the memory of another node keeps its own bit until it restarts. */
  lemma OtherNodeDisagrees(w: World) returns (states: seq<State>, steps: seq<Step>, s: State)
    requires !w.def.critical
    ensures EndsQuietly(w, states, steps, s) && 2 in s.nodes && s.nodes[2].task.enabled && RowShows(s, false)
  {
    hide Apply, CanStep, Reaches;
    var s0;
    states, steps, s0 := OneNode(w);
    var s1 := ReadsRow(w, s0, 2);
    var s2 := WritesRow(w, s1, 2);
    var s3 := Toggles(w, s2, 1, false);
    s := Stores(w, s3, 1, false);
    states, steps := Extend(w, states, steps, s0, StartRead(2, 0, true));
    states, steps := Extend(w, states, steps, s1, StartWrite(2, true));
    states, steps := Extend(w, states, steps, s2, SetEnabled(1, false));
    states, steps := Extend(w, states, steps, s3, StoreEnabled(1, false, true));
    QuietEnd(w, states, steps, s);
  }

  /** One call while another node starts up: the sync writes back the bit it had read, and the toggle is lost. */
  lemma StartupLosesToggle(w: World) returns (states: seq<State>, steps: seq<Step>, s: State)
    requires !w.def.critical
    ensures EndsQuietly(w, states, steps, s) && 1 in s.nodes && !s.nodes[1].task.enabled && RowShows(s, true)
  {
    hide Apply, CanStep, Reaches;
    var s0;
    states, steps, s0 := OneNode(w);
    var s1 := ReadsRow(w, s0, 2);
    var s2 := Toggles(w, s1, 1, false);
    var s3 := Stores(w, s2, 1, false);
    s := WritesRow(w, s3, 2);
    states, steps := Extend(w, states, steps, s0, StartRead(2, 0, true));
    states, steps := Extend(w, states, steps, s1, SetEnabled(1, false));
    states, steps := Extend(w, states, steps, s2, StoreEnabled(1, false, true));
    states, steps := Extend(w, states, steps, s3, StartWrite(2, true));
    QuietEnd(w, states, steps, s);
  }

  // ---------------------------------------------------------------------------
  // Startup
  // ---------------------------------------------------------------------------

  /** From its loading until it is up, the next run of a node is not before the instant it started at, and it is
      not running. */
  lemma {:induction false} StartIsCurrent(w: World, states: seq<State>, steps: seq<Step>, j: nat, m: nat)
    requires IsRun(w, states, steps) && j < m < |states| && steps[j].StartRead? && Shaped(w.def.schedule)
    requires steps[j].n in states[m].nodes && forall p :: j < p < m ==> !IsUp(states[p], steps[j].n)
    requires !Started(steps, j, m, steps[j].n)
    ensures var task := states[m].nodes[steps[j].n].task;
            task.nextRun >= steps[j].now && !task.running && task.attempt == 0
    ensures states[m].nodes[steps[j].n].live == map[]
    decreases m
  {
    hide Apply, CanStep;
    var n := steps[j].n;
    AtStep(w, states, steps, m - 1);
    if m == j + 1 {
      StartedTask(w, states[j], steps[j]);
    } else {
      BootingTask(w, states[m - 1], steps[m - 1], n);
      StartIsCurrent(w, states, steps, j, m - 1);
    }
  }

  lemma StartedTask(w: World, s: State, step: Step)
    requires CanStep(w, s, step) && step.StartRead? && Shaped(w.def.schedule)
    ensures var node := Apply(w, s, step).nodes[step.n];
            node.live == map[] && node.task.nextRun >= step.now && !node.task.running && node.task.attempt == 0
  {
    LoadedIsCurrent(w.def, w.configured, Seen(s, step.read), step.now, w.catchUp, w.zone);
    hide LoadedTask, LoadedBoot;
  }

  /** A node that is starting up changes only by its own writes. */
  lemma BootingTask(w: World, s: State, step: Step, n: nat)
    requires CanStep(w, s, step) && n in Apply(w, s, step).nodes && !IsUp(s, n)
    requires !(step.StartRead? && step.n == n)
    ensures n in s.nodes
    ensures s.nodes[n].live == map[] ==>
              Apply(w, s, step).nodes[n].task == s.nodes[n].task && Apply(w, s, step).nodes[n].live == map[]
  {
    if step.Advance? || step.n != n {
      OtherNode(w, s, step, n);
      hide Apply;
    } else {
      hide NextTime, Ready, Finished, LoadedTask, LoadedBoot, NextBoot, LockSucceeds, RowAfter;
    }
  }
}
