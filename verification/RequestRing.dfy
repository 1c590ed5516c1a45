/** The rolling 24-hour request counter of src/server/server.go: a ring of 1440 minute slots that is
    reused modulo the day, related to the full list of request minutes it stands for. */
module RequestRing {
  import opened Wrappers

  const SLOTS: nat := 1440

  /** How many requests arrived in minute `m`. */
  function CountAt(h: seq<nat>, m: int): nat {
    if h == [] then 0 else CountAt(h[..|h| - 1], m) + (if h[|h| - 1] == m then 1 else 0)
  }

  /** How many requests arrived in minutes `lo < m <= hi`. */
  function CountBetween(h: seq<nat>, lo: int, hi: int): nat {
    if h == [] then 0 else CountBetween(h[..|h| - 1], lo, hi) + (if lo < h[|h| - 1] <= hi then 1 else 0)
  }

  /** The latest minute with traffic that uses slot `s`. */
  function LatestIn(h: seq<nat>, s: nat): Option<nat> {
    if h == [] then None
    else if h[|h| - 1] % SLOTS == s then Some(h[|h| - 1])
    else LatestIn(h[..|h| - 1], s)
  }

  predicate NonDecreasing(h: seq<nat>) {
    forall i, j :: 0 <= i < j < |h| ==> h[i] <= h[j]
  }

  /** What slot `s` holds: the requests of its latest minute. */
  function SlotCount(h: seq<nat>, s: nat): nat {
    match LatestIn(h, s)
    case None => 0
    case Some(m) => CountAt(h, m)
  }

  function SumSlots(h: seq<nat>, n: nat): nat {
    if n == 0 then 0 else SumSlots(h, n - 1) + SlotCount(h, n - 1)
  }

  // ---------------------------------------------------------------------------
  // The counters
  // ---------------------------------------------------------------------------

  class Counters {
    var total: int
    var active: int
    var window: array<int>
    var slotMinute: int
    /** The minute of every request so far. */
    ghost var history: seq<nat>

    constructor ()
      ensures Valid() && history == [] && active == 0 && fresh(window)
    {
      total, active, slotMinute := 0, 0, 0;
      window := new int[SLOTS](_ => 0);
      history := [];
    }

    ghost predicate Valid()
      reads this, window
    {
      && window.Length == SLOTS && total == |history| && NonDecreasing(history)
      && (history != [] ==> slotMinute == history[|history| - 1])
      && (history == [] ==> slotMinute == 0)
      && forall s :: 0 <= s < SLOTS ==> window[s] == SlotCount(history, s)
    }

    /** The head of the middleware, at minute `now`: the slot is zeroed when a new minute begins. */
    method Begin(now: nat)
      requires Valid() && (history != [] ==> history[|history| - 1] <= now)
      modifies this, window
      ensures Valid() && history == old(history) + [now] && active == old(active) + 1 && window == old(window)
    {
      total := total + 1;
      active := active + 1;
      var slot := now % SLOTS;
      var prev := slotMinute;
      if prev != now {
        slotMinute := now;
        window[slot] := 0;
      }
      window[slot] := window[slot] + 1;
      forall s | 0 <= s < SLOTS
        ensures window[s] == SlotCount(history + [now], s)
      {
        SlotAfter(history, now, s);
      }
      history := history + [now];
    }

    /** The deferred decrement. */
    method End()
      requires Valid()
      modifies this`active
      ensures Valid() && active == old(active) - 1
    {
      active := active - 1;
    }

    /** The sum the health endpoint reports at minute `now`. */
    method Last24h(ghost now: nat) returns (sum: int)
      requires Valid() && (history != [] ==> history[|history| - 1] <= now)
      ensures sum == SumSlots(history, SLOTS)
      ensures var recent := set i | 0 <= i < |history| && now - 1440 < history[i] <= now;
              && |recent| <= sum <= |history|
              && (sum == |recent| <==>
                    forall i :: 0 <= i < |history| && history[i] <= now - 1440 ==>
                      exists j :: j in recent && history[j] % 1440 == history[i] % 1440)
    {
      sum := 0;
      for i := 0 to SLOTS
        invariant sum == SumSlots(history, i)
      {
        sum := sum + window[i];
      }
      hide SumSlots;
      SumExactly(history, now);
    }
  }

  // ---------------------------------------------------------------------------
  // One request
  // ---------------------------------------------------------------------------

  lemma CountSnoc(h: seq<nat>, x: nat, m: int)
    ensures CountAt(h + [x], m) == CountAt(h, m) + (if x == m then 1 else 0)
  {
    assert (h + [x])[..|h|] == h;
  }

  lemma {:induction false} CountZero(h: seq<nat>, m: int)
    requires forall i :: 0 <= i < |h| ==> h[i] != m
    ensures CountAt(h, m) == 0
  {
    if h != [] { CountZero(h[..|h| - 1], m); }
  }

  lemma {:induction false} LatestIsLatest(h: seq<nat>, s: nat)
    requires NonDecreasing(h)
    ensures match LatestIn(h, s)
            case None => forall i :: 0 <= i < |h| ==> h[i] % SLOTS != s
            case Some(m) => m % SLOTS == s && m in h && forall i :: 0 <= i < |h| && h[i] % SLOTS == s ==> h[i] <= m
  {
    if h != [] && h[|h| - 1] % SLOTS != s {
      LatestIsLatest(h[..|h| - 1], s);
    }
  }

  /** How one request at `now` changes what a slot should hold. */
  lemma SlotAfter(h: seq<nat>, now: nat, s: nat)
    requires NonDecreasing(h) && (h != [] ==> h[|h| - 1] <= now) && s < SLOTS
    ensures SlotCount(h + [now], s) ==
            if s != now % SLOTS then SlotCount(h, s)
            else if h != [] && h[|h| - 1] == now then SlotCount(h, s) + 1 else 1
  {
    assert (h + [now])[..|h|] == h;
    LatestIsLatest(h, s);
    if s == now % SLOTS {
      CountSnoc(h, now, now);
      if h == [] || h[|h| - 1] != now {
        CountZero(h, now);
      }
    } else if LatestIn(h, s).Some? {
      CountSnoc(h, now, LatestIn(h, s).value);
    }
  }

  // ---------------------------------------------------------------------------
  // The reported sum
  // ---------------------------------------------------------------------------

  /** The one minute of the 1440 that end at `now` that uses slot `s`. */
  function MinuteOf(now: nat, s: nat): int {
    now - (now - s) % SLOTS
  }

  lemma MinuteOfExact(now: nat, s: nat, x: int)
    requires s < SLOTS
    ensures now - SLOTS < MinuteOf(now, s) <= now
    ensures now - SLOTS < x <= now && x % SLOTS == s <==> x == MinuteOf(now, s)
  {
  }

  /** The requests of the window, slot by slot. */
  function SumWindow(h: seq<nat>, now: nat, n: nat): nat {
    if n == 0 then 0 else SumWindow(h, now, n - 1) + CountAt(h, MinuteOf(now, n - 1))
  }

  lemma {:induction false} SumWindowSnoc(h: seq<nat>, x: nat, now: nat, n: nat)
    requires n <= SLOTS
    ensures SumWindow(h + [x], now, n) ==
            SumWindow(h, now, n) + (if now - SLOTS < x <= now && x % SLOTS < n then 1 else 0)
  {
    if n > 0 {
      SumWindowSnoc(h, x, now, n - 1);
      CountSnoc(h, x, MinuteOf(now, n - 1));
      MinuteOfExact(now, n - 1, x);
    }
  }

  lemma {:induction false} SumWindowNothing(now: nat, n: nat)
    ensures SumWindow([], now, n) == 0
  {
    if n > 0 { SumWindowNothing(now, n - 1); }
  }

  lemma {:induction false} WindowBySlots(h: seq<nat>, now: nat)
    ensures SumWindow(h, now, SLOTS) == CountBetween(h, now - SLOTS, now)
  {
    if h == [] {
      SumWindowNothing(now, SLOTS);
    } else {
      var n := |h| - 1;
      WindowBySlots(h[..n], now);
      SumWindowSnoc(h[..n], h[n], now, SLOTS);
      assert h == h[..n] + [h[n]];
    }
  }

  lemma {:induction false} CountPositive(h: seq<nat>, m: nat)
    requires m in h
    ensures CountAt(h, m) > 0
  {
    if h[|h| - 1] != m { CountPositive(h[..|h| - 1], m); }
  }

  /** Slot `s` still holds the requests of a minute that has left the window. */
  predicate StaleSlot(h: seq<nat>, now: nat, s: nat) {
    LatestIn(h, s).Some? && LatestIn(h, s).value <= now - SLOTS
  }

  lemma SlotVersusWindow(h: seq<nat>, now: nat, s: nat)
    requires NonDecreasing(h) && (h != [] ==> h[|h| - 1] <= now) && s < SLOTS
    ensures SlotCount(h, s) >= CountAt(h, MinuteOf(now, s))
    ensures SlotCount(h, s) == CountAt(h, MinuteOf(now, s)) <==> !StaleSlot(h, now, s)
  {
    LatestIsLatest(h, s);
    var m := MinuteOf(now, s);
    MinuteOfExact(now, s, m);
    match LatestIn(h, s)
    case None => CountZero(h, m);
    case Some(x) =>
      CountPositive(h, x);
      MinuteOfExact(now, s, x);
      if x <= now - SLOTS {
        CountZero(h, m);
      } else {
        LatestNotFuture(h, now, x);
      }
  }

  lemma LatestNotFuture(h: seq<nat>, now: nat, x: nat)
    requires NonDecreasing(h) && (h != [] ==> h[|h| - 1] <= now) && x in h
    ensures x <= now
  {
  }

  lemma {:induction false} SumVersusWindow(h: seq<nat>, now: nat, n: nat)
    requires NonDecreasing(h) && (h != [] ==> h[|h| - 1] <= now) && n <= SLOTS
    ensures SumSlots(h, n) >= SumWindow(h, now, n)
    ensures SumSlots(h, n) == SumWindow(h, now, n) <==> forall s :: 0 <= s < n ==> !StaleSlot(h, now, s)
  {
    if n > 0 {
      SumVersusWindow(h, now, n - 1);
      SlotVersusWindow(h, now, n - 1);
    }
  }

  /** The reported sum never misses a request of the last 1440 minutes, and is exact if and only if no
      slot still holds an older minute. */
  lemma SumCoversWindow(h: seq<nat>, now: nat)
    requires NonDecreasing(h) && (h != [] ==> h[|h| - 1] <= now)
    ensures SumSlots(h, SLOTS) >= CountBetween(h, now - SLOTS, now)
    ensures SumSlots(h, SLOTS) == CountBetween(h, now - SLOTS, now) <==>
            forall s :: 0 <= s < SLOTS ==> !StaleSlot(h, now, s)
  {
    WindowBySlots(h, now);
    SumVersusWindow(h, now, SLOTS);
  }

  lemma {:induction false} BetweenCounts(h: seq<nat>, lo: int, hi: int)
    ensures CountBetween(h, lo, hi) == |set i | 0 <= i < |h| && lo < h[i] <= hi|
  {
    var all := set i | 0 <= i < |h| && lo < h[i] <= hi;
    if h == [] {
      assert all == {};
    } else {
      var n := |h| - 1;
      BetweenCounts(h[..n], lo, hi);
      assert all == (set i | 0 <= i < n && lo < h[..n][i] <= hi) + (if lo < h[n] <= hi then {n} else {});
    }
  }

  /** In terms of the requests alone: the sum is exact if and only if every request older than the 1440 minutes that end
      at `now` was followed within them by one at the same minute of the day. */
  lemma SumExactly(h: seq<nat>, now: nat)
    requires NonDecreasing(h) && (h != [] ==> h[|h| - 1] <= now)
    ensures var recent := set i | 0 <= i < |h| && now - 1440 < h[i] <= now;
            && |recent| <= SumSlots(h, SLOTS) <= |h|
            && (SumSlots(h, SLOTS) == |recent| <==>
                  forall i :: 0 <= i < |h| && h[i] <= now - 1440 ==>
                    exists j :: j in recent && h[j] % 1440 == h[i] % 1440)
  {
    SumCoversWindow(h, now);
    SumWithinAll(h);
    BetweenCounts(h, now - 1440, now);
    var recent := set i | 0 <= i < |h| && now - 1440 < h[i] <= now;
    hide SumSlots, CountBetween;
    forall s | 0 <= s < SLOTS
      ensures StaleSlot(h, now, s) <==>
              && (exists i :: 0 <= i < |h| && h[i] % 1440 == s)
              && forall i :: 0 <= i < |h| && h[i] % 1440 == s ==> h[i] <= now - 1440
    {
      LatestIsLatest(h, s);
    }
    hide StaleSlot;
    if forall s :: 0 <= s < SLOTS ==> !StaleSlot(h, now, s) {
      forall i | 0 <= i < |h| && h[i] <= now - 1440
        ensures exists j :: j in recent && h[j] % 1440 == h[i] % 1440
      {
        assert !StaleSlot(h, now, h[i] % 1440);
      }
    }
  }

  /** The requests whose minute uses one of the first `n` slots. */
  function CountInSlots(h: seq<nat>, n: nat): nat {
    if h == [] then 0 else CountInSlots(h[..|h| - 1], n) + (if h[|h| - 1] % SLOTS < n then 1 else 0)
  }

  lemma {:induction false} OneMoreSlot(h: seq<nat>, m: nat, n: nat)
    requires m % SLOTS == n
    ensures CountInSlots(h, n) + CountAt(h, m) <= CountInSlots(h, n + 1) <= |h|
  {
    if h != [] { OneMoreSlot(h[..|h| - 1], m, n); }
  }

  lemma {:induction false} SumWithinTotal(h: seq<nat>, n: nat)
    requires NonDecreasing(h) && n <= SLOTS
    ensures SumSlots(h, n) <= CountInSlots(h, n) <= |h|
  {
    if n == 0 {
      OneMoreSlot(h, 0, 0);
    } else {
      SumWithinTotal(h, n - 1);
      LatestIsLatest(h, n - 1);
      OneMoreSlot(h, if LatestIn(h, n - 1).Some? then LatestIn(h, n - 1).value else n - 1, n - 1);
    }
  }

  /** The reported sum never exceeds the number of requests ever made. */
  lemma SumWithinAll(h: seq<nat>)
    requires NonDecreasing(h)
    ensures SumSlots(h, SLOTS) <= |h|
  {
    SumWithinTotal(h, SLOTS);
  }

  /** With less than a day of traffic, or traffic in each of the last 1440 minutes, the sum is exact. */
  lemma SumExactWhenCovered(h: seq<nat>, now: nat)
    requires NonDecreasing(h) && (h != [] ==> h[|h| - 1] <= now)
    requires || (forall i :: 0 <= i < |h| ==> h[i] > now - SLOTS)
             || (forall m: nat :: now - SLOTS < m <= now ==> m in h)
    ensures SumSlots(h, SLOTS) == CountBetween(h, now - SLOTS, now)
  {
    forall s | 0 <= s < SLOTS
      ensures !StaleSlot(h, now, s)
    {
      CoveredSlot(h, now, s);
    }
    SumCoversWindow(h, now);
  }

  lemma CoveredSlot(h: seq<nat>, now: nat, s: nat)
    requires NonDecreasing(h) && s < SLOTS
    requires || (forall i :: 0 <= i < |h| ==> h[i] > now - SLOTS)
             || (forall m: nat :: now - SLOTS < m <= now ==> m in h)
    ensures !StaleSlot(h, now, s)
  {
    LatestIsLatest(h, s);
    var m := MinuteOf(now, s);
    MinuteOfExact(now, s, m);
    if LatestIn(h, s).Some? && (exists i :: 0 <= i < |h| && h[i] <= now - SLOTS) {
      var i :| 0 <= i < |h| && h[i] <= now - SLOTS;
      var traffic: nat := m;
      assert traffic in h;
    }
  }
}
