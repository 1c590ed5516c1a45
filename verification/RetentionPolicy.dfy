/** What src/backup/retention.go must keep, as a property of the set of backups in the directory.

    A dated full backup is a day, whether it is encrypted (the two can exist for one day) and a
    size; day and encryption make its path. The order of the two backups of one day is fixed here
    (`Stamp`); the source leaves it to an unstable sort. */
module RetentionPolicy {
  import opened Wrappers

  datatype Backup = Backup(day: int, encrypted: bool, size: nat)

  /** The path of a backup, numbered so that newer is larger. */
  function Stamp(b: Backup): int {
    2 * b.day + (if b.encrypted then 0 else 1)
  }

  predicate Newer(a: Backup, b: Backup) {
    Stamp(a) > Stamp(b)
  }

  /** Backups of one directory have distinct paths. */
  ghost predicate DistinctPaths(h: set<Backup>) {
    forall a, b :: a in h && b in h && Stamp(a) == Stamp(b) ==> a == b
  }

  // ---------------------------------------------------------------------------
  // Tiers
  // ---------------------------------------------------------------------------

  /** What makes two backups compete in a tier: a period, or nothing but themselves. */
  datatype Key = OwnFile(stamp: int) | Period(name: string)

  /** The bucket a backup falls into for some tier; None if it is not a candidate. */
  type Bucketing = Backup -> Option<Key>

  ghost function NewerKeys(h: set<Backup>, f: Bucketing, x: Backup): set<Key> {
    set y | y in h && Newer(y, x) && f(y).Some? :: f(y).value
  }

  /** `x` is the newest of its bucket, and its bucket is among the `n` newest. */
  ghost predicate InTier(h: set<Backup>, n: int, f: Bucketing, x: Backup) {
    && x in h && f(x).Some?
    && f(x).value !in NewerKeys(h, f, x)
    && |NewerKeys(h, f, x)| < n
  }

  ghost function Tier(h: set<Backup>, n: int, f: Bucketing): set<Backup> {
    set x | x in h && InTier(h, n, f, x)
  }

  datatype Policy = Policy(maxBackups: int, weekly: int, monthly: int, yearly: int)

  /** The bucket functions of the weekly, monthly and yearly tiers; "" is not a candidate. */
  datatype Calendar = Calendar(week: int -> string, month: int -> string, year: int -> string)

  function MaxDaily(p: Policy): int {
    if p.maxBackups < 1 then 1 else p.maxBackups
  }

  const OWN: Bucketing := (b: Backup) => Some(OwnFile(Stamp(b)))

  function ByPeriod(bucketOf: int -> string): Bucketing {
    (b: Backup) => if bucketOf(b.day) == "" then None else Some(Period(bucketOf(b.day)))
  }

  /** The backups some tier keeps. The daily tier is the one where every backup is its own bucket. */
  ghost function Keep(h: set<Backup>, p: Policy, c: Calendar): set<Backup> {
    Tier(h, MaxDaily(p), OWN) + Tier(h, p.weekly, ByPeriod(c.week)) +
    Tier(h, p.monthly, ByPeriod(c.month)) + Tier(h, p.yearly, ByPeriod(c.year))
  }

  // ---------------------------------------------------------------------------
  // Tiers of subsets
  // ---------------------------------------------------------------------------

  lemma SubsetSize<T>(a: set<T>, b: set<T>)
    requires a <= b
    ensures |a| <= |b|
  {
    if a != {} {
      var x :| x in a;
      SubsetSize(a - {x}, b - {x});
    }
  }

  lemma NewerKeysMonotone(s: set<Backup>, h: set<Backup>, f: Bucketing, x: Backup)
    requires s <= h
    ensures NewerKeys(s, f, x) <= NewerKeys(h, f, x) && |NewerKeys(s, f, x)| <= |NewerKeys(h, f, x)|
  {
    assert NewerKeys(s, f, x) <= NewerKeys(h, f, x);
    SubsetSize(NewerKeys(s, f, x), NewerKeys(h, f, x));
  }

  /** A kept backup stays kept when other backups go away. */
  lemma TierSurvivesRemoval(s: set<Backup>, h: set<Backup>, n: int, f: Bucketing, x: Backup)
    requires s <= h && x in s && InTier(h, n, f, x)
    ensures InTier(s, n, f, x)
  {
    NewerKeysMonotone(s, h, f, x);
  }

  /** The newest backup of a non-empty set. */
  lemma {:induction false} NewestExists(h: set<Backup>) returns (x: Backup)
    requires h != {}
    ensures x in h && forall y :: y in h ==> Stamp(y) <= Stamp(x)
    decreases |h|
  {
    x :| x in h;
    var rest := h - {x};
    if rest != {} {
      var z := NewestExists(rest);
      assert forall y :: y in h ==> y == x || y in rest;
      if Newer(z, x) {
        x := z;
      }
    }
  }

  /** The newest backup of each bucket. */
  lemma BucketLeader(h: set<Backup>, f: Bucketing, k: Key, x: Backup) returns (r: Backup)
    requires k in NewerKeys(h, f, x)
    ensures r in h && Newer(r, x) && f(r) == Some(k) && k !in NewerKeys(h, f, r)
  {
    var rivals := set y | y in h && f(y) == Some(k);
    var y0 :| y0 in h && Newer(y0, x) && f(y0).Some? && f(y0).value == k;
    assert y0 in rivals;
    r := NewestExists(rivals);
    assert forall y :: y in h && f(y) == Some(k) ==> y in rivals;
  }

  /** Seen from any backup, the tier alone shows either all newer buckets or `n` of them. */
  lemma TierSaturates(h: set<Backup>, n: int, f: Bucketing, x: Backup)
    ensures var t := Tier(h, n, f);
            NewerKeys(t, f, x) == NewerKeys(h, f, x) || |NewerKeys(t, f, x)| >= n
  {
    var t := Tier(h, n, f);
    NewerKeysMonotone(t, h, f, x);
    // leaders of buckets newer than x that the tier leaves out
    var missing := set r | r in h && Newer(r, x) && f(r).Some? && f(r).value !in NewerKeys(h, f, r) && r !in t;
    if missing == {} {
      forall k | k in NewerKeys(h, f, x)
        ensures k in NewerKeys(t, f, x)
      {
        var r := BucketLeader(h, f, k, x);
        assert r !in missing;
      }
    } else {
      var r := NewestExists(missing);
      assert |NewerKeys(h, f, r)| >= n;
      forall k | k in NewerKeys(h, f, r)
        ensures k in NewerKeys(t, f, x)
      {
        var q := BucketLeader(h, f, k, r);
        assert q !in missing;
      }
      SubsetSize(NewerKeys(h, f, r), NewerKeys(t, f, x));
    }
  }

  /** `s` is part of `h`, and holds every backup of `k` newer than any of its own. */
  ghost predicate ClosedIn(s: set<Backup>, h: set<Backup>, k: set<Backup>) {
    s <= h && forall x, y :: x in s && y in k && Newer(y, x) ==> y in s
  }

  /** Removing backups, but no kept one newer than what stays, changes nothing for those that stay. */
  lemma TierOfClosed(s: set<Backup>, h: set<Backup>, n: int, f: Bucketing)
    requires ClosedIn(s, h, Tier(h, n, f))
    ensures Tier(s, n, f) == Tier(h, n, f) * s
  {
    var t := Tier(h, n, f);
    TierOfSubset(s, h, n, f);
    forall x | x in Tier(s, n, f)
      ensures x in t
    {
      assert NewerKeys(t, f, x) <= NewerKeys(s, f, x);
      SubsetSize(NewerKeys(t, f, x), NewerKeys(s, f, x));
      TierSaturates(h, n, f, x);
    }
  }

  lemma KeepOfClosed(s: set<Backup>, h: set<Backup>, p: Policy, c: Calendar)
    requires ClosedIn(s, h, Keep(h, p, c))
    ensures Keep(s, p, c) == Keep(h, p, c) * s
  {
    hide Tier, ByPeriod, OWN;
    ClosedTier(s, h, Keep(h, p, c), MaxDaily(p), OWN);
    ClosedTier(s, h, Keep(h, p, c), p.weekly, ByPeriod(c.week));
    ClosedTier(s, h, Keep(h, p, c), p.monthly, ByPeriod(c.month));
    ClosedTier(s, h, Keep(h, p, c), p.yearly, ByPeriod(c.year));
  }

  lemma ClosedTier(s: set<Backup>, h: set<Backup>, k: set<Backup>, n: int, f: Bucketing)
    requires ClosedIn(s, h, k) && Tier(h, n, f) <= k
    ensures Tier(s, n, f) == Tier(h, n, f) * s
  {
    hide Tier;
    TierOfClosed(s, h, n, f);
  }

  /** Backups the tiers would delete are irrelevant to them: any subset that still has the kept ones keeps
      the same. */
  lemma KeepIgnoresTheUnkept(s: set<Backup>, h: set<Backup>, p: Policy, c: Calendar)
    requires Keep(h, p, c) <= s <= h
    ensures Keep(s, p, c) == Keep(h, p, c)
  {
    KeepOfClosed(s, h, p, c);
  }

  lemma KeepSubset(h: set<Backup>, p: Policy, c: Calendar)
    ensures Keep(h, p, c) <= h
  {
  }

  lemma KeepSurvivesRemoval(s: set<Backup>, h: set<Backup>, p: Policy, c: Calendar)
    requires s <= h
    ensures Keep(h, p, c) * s <= Keep(s, p, c)
  {
    TierOfSubset(s, h, MaxDaily(p), OWN);
    TierOfSubset(s, h, p.weekly, ByPeriod(c.week));
    TierOfSubset(s, h, p.monthly, ByPeriod(c.month));
    TierOfSubset(s, h, p.yearly, ByPeriod(c.year));
  }

  lemma TierOfSubset(s: set<Backup>, h: set<Backup>, n: int, f: Bucketing)
    requires s <= h
    ensures Tier(h, n, f) * s <= Tier(s, n, f)
  {
    forall x | x in Tier(h, n, f) * s
      ensures x in Tier(s, n, f)
    {
      TierSurvivesRemoval(s, h, n, f, x);
    }
  }

  ghost function Elems(s: seq<Backup>): set<Backup> {
    set b | b in s
  }

  // ---------------------------------------------------------------------------
  // Bounds and order
  // ---------------------------------------------------------------------------

  lemma {:induction false} OldestExists(h: set<Backup>) returns (x: Backup)
    requires h != {}
    ensures x in h && forall y :: y in h ==> Stamp(x) <= Stamp(y)
    decreases |h|
  {
    x :| x in h;
    var rest := h - {x};
    if rest != {} {
      var z := OldestExists(rest);
      assert forall y :: y in h ==> y == x || y in rest;
      if Newer(x, z) {
        x := z;
      }
    }
  }

  ghost function Oldest(h: set<Backup>): (x: Backup)
    requires h != {}
    ensures x in h && forall y :: y in h ==> Stamp(x) <= Stamp(y)
  {
    assert exists x :: x in h && forall y :: y in h ==> Stamp(x) <= Stamp(y) by {
      var x := OldestExists(h);
    }
    var x :| x in h && forall y :: y in h ==> Stamp(x) <= Stamp(y);
    x
  }

  ghost function Newest(h: set<Backup>): (x: Backup)
    requires h != {}
    ensures x in h && forall y :: y in h ==> Stamp(y) <= Stamp(x)
  {
    assert exists x :: x in h && forall y :: y in h ==> Stamp(y) <= Stamp(x) by {
      var x := NewestExists(h);
    }
    var x :| x in h && forall y :: y in h ==> Stamp(y) <= Stamp(x);
    x
  }

  lemma KeysNoFewer(t: set<Backup>, f: Bucketing, keys: set<Key>)
    requires forall x :: x in t ==> f(x).Some? && f(x).value in keys
    requires forall x, y :: x in t && y in t && f(x) == f(y) ==> x == y
    ensures |t| <= |keys|
  {
    if t != {} {
      var x :| x in t;
      KeysNoFewer(t - {x}, f, keys - {f(x).value});
    }
  }

  lemma LeadersDistinct(h: set<Backup>, n: int, f: Bucketing, x: Backup, y: Backup)
    requires DistinctPaths(h) && InTier(h, n, f, x) && InTier(h, n, f, y) && f(x) == f(y)
    ensures x == y
  {
    assert Stamp(x) == Stamp(y);
  }

  /** No tier keeps more than its limit. */
  lemma TierSize(h: set<Backup>, n: int, f: Bucketing)
    requires DistinctPaths(h)
    ensures |Tier(h, n, f)| <= if n < 0 then 0 else n
  {
    var t := Tier(h, n, f);
    if t != {} {
      var oldest := Oldest(t);
      forall x | x in t - {oldest}
        ensures Newer(x, oldest) && f(x).value in NewerKeys(h, f, oldest)
      {
        assert Stamp(x) != Stamp(oldest);
      }
      forall x, y | x in t && y in t && f(x) == f(y)
        ensures x == y
      {
        LeadersDistinct(h, n, f, x, y);
      }
      KeysNoFewer(t - {oldest}, f, NewerKeys(h, f, oldest));
    }
  }

  function Limit(n: int): nat {
    if n < 0 then 0 else n
  }

  /** The number of backups kept is at most the sum of the limits. */
  lemma KeepSize(h: set<Backup>, p: Policy, c: Calendar)
    requires DistinctPaths(h)
    ensures |Keep(h, p, c)| <= MaxDaily(p) + Limit(p.weekly) + Limit(p.monthly) + Limit(p.yearly)
  {
    TierSize(h, MaxDaily(p), OWN);
    TierSize(h, p.weekly, ByPeriod(c.week));
    TierSize(h, p.monthly, ByPeriod(c.month));
    TierSize(h, p.yearly, ByPeriod(c.year));
  }

  /** Raising any limit only grows the kept set. */
  lemma KeepMonotone(h: set<Backup>, p: Policy, q: Policy, c: Calendar)
    requires p.maxBackups <= q.maxBackups && p.weekly <= q.weekly && p.monthly <= q.monthly && p.yearly <= q.yearly
    ensures Keep(h, p, c) <= Keep(h, q, c)
  {
    TierMonotone(h, MaxDaily(p), MaxDaily(q), OWN);
    TierMonotone(h, p.weekly, q.weekly, ByPeriod(c.week));
    TierMonotone(h, p.monthly, q.monthly, ByPeriod(c.month));
    TierMonotone(h, p.yearly, q.yearly, ByPeriod(c.year));
    hide Tier, ByPeriod, OWN;
  }

  lemma TierMonotone(h: set<Backup>, n: int, m: int, f: Bucketing)
    requires n <= m
    ensures Tier(h, n, f) <= Tier(h, m, f)
  {
  }

  /** The daily tier is exactly the newest backups: those with fewer than `n` newer ones. */
  lemma DailyTier(h: set<Backup>, n: int, x: Backup)
    requires DistinctPaths(h) && x in h
    ensures x in Tier(h, n, OWN) <==> |set y | y in h && Newer(y, x)| < n
  {
    var newer := set y | y in h && Newer(y, x);
    KeysNoFewer(newer, OWN, NewerKeys(h, OWN, x));
    OwnKeys(newer, NewerKeys(h, OWN, x));
  }

  lemma OwnKeys(t: set<Backup>, keys: set<Key>)
    requires DistinctPaths(t)
    requires keys == set y | y in t :: OwnFile(Stamp(y))
    ensures |keys| <= |t|
  {
    if t != {} {
      var x :| x in t;
      var rest := t - {x};
      OwnKeys(rest, set y | y in rest :: OwnFile(Stamp(y)));
      assert keys == (set y | y in rest :: OwnFile(Stamp(y))) + {OwnFile(Stamp(x))};
    }
  }

  /** The newest backup is always kept. */
  lemma NewestKept(h: set<Backup>, p: Policy, c: Calendar)
    requires h != {}
    ensures Newest(h) in Keep(h, p, c)
  {
    assert NewerKeys(h, OWN, Newest(h)) == {};
  }

  // ---------------------------------------------------------------------------
  // The size cap
  // ---------------------------------------------------------------------------

  ghost function Total(h: set<Backup>): nat {
    if h == {} then 0 else Oldest(h).size + Total(h - {Oldest(h)})
  }

  /** What is left when the oldest backups are dropped until the rest fits, or one is left. */
  ghost function Capped(h: set<Backup>, cap: int): set<Backup>
    decreases |h|
  {
    if |h| > 1 && Total(h) > cap then Capped(h - {Oldest(h)}, cap) else h
  }

  ghost function Survivors(h: set<Backup>, p: Policy, c: Calendar, cap: Option<int>): set<Backup> {
    match cap
    case None => Keep(h, p, c)
    case Some(limit) => Capped(Keep(h, p, c), limit)
  }

  /** `s` holds every member of `h` newer than any of its own. */
  ghost predicate NewestSegment(s: set<Backup>, h: set<Backup>) {
    s <= h && forall x, y :: x in s && y in h && Newer(y, x) ==> y in s
  }

  /** `s` is a newest segment of `h` that fits the cap or is a single backup, and one more backup
      would not have fitted. */
  ghost predicate FitsTightly(s: set<Backup>, h: set<Backup>, cap: int) {
    && NewestSegment(s, h) && (h != {} ==> s != {})
    && (Total(s) <= cap || |s| <= 1)
    && (h - s != {} ==> Total(s + {Newest(h - s)}) > cap)
  }

  lemma OldestOnlyInWhole(s: set<Backup>, h: set<Backup>)
    requires NewestSegment(s, h) && DistinctPaths(h) && h != {} && Oldest(h) in s
    ensures s == h
  {
    forall y | y in h
      ensures y in s
    {
      assert y != Oldest(h) ==> Newer(y, Oldest(h));
    }
  }

  /** The size cap leaves `s` exactly when `s` fits tightly; there is only one such set. */
  lemma {:induction false} CappedExactly(s: set<Backup>, h: set<Backup>, cap: int)
    requires DistinctPaths(h)
    ensures s == Capped(h, cap) <==> FitsTightly(s, h, cap)
    decreases |h|
  {
    if |h| > 1 && Total(h) > cap {
      var o := Oldest(h);
      CappedExactly(s, h - {o}, cap);
      if FitsTightly(s, h, cap) {
        TightWithoutOldest(s, h, cap);
      }
      if FitsTightly(s, h - {o}, cap) {
        TightWithOldest(s, h, cap);
      }
    } else {
      assert FitsTightly(h, h, cap) by { assert h - h == {}; }
      if FitsTightly(s, h, cap) {
        if h - s != {} { OneMoreFits(s, h, cap); }
        assert s == h;
      }
    }
  }

  lemma TightWithoutOldest(s: set<Backup>, h: set<Backup>, cap: int)
    requires DistinctPaths(h) && FitsTightly(s, h, cap) && |h| > 1 && Total(h) > cap
    ensures FitsTightly(s, h - {Oldest(h)}, cap)
  {
    hide Total;
    var rest := h - {Oldest(h)};
    if Oldest(h) in s { OldestOnlyInWhole(s, h); }
    if rest - s != {} {
      NewestUnique(h - s, Newest(rest - s));
    }
  }

  lemma NewestUnique(h: set<Backup>, x: Backup)
    requires DistinctPaths(h) && x in h && forall y :: y in h ==> Stamp(y) <= Stamp(x)
    ensures Newest(h) == x
  {
  }

  lemma TightWithOldest(s: set<Backup>, h: set<Backup>, cap: int)
    requires DistinctPaths(h) && |h| > 1 && Total(h) > cap && FitsTightly(s, h - {Oldest(h)}, cap)
    ensures FitsTightly(s, h, cap)
  {
    hide Total, DistinctPaths, NewestSegment;
    SegmentOfRest(s, h);
    NextOfRest(s, h);
  }

  /** The next backup to take back is the same with and without the oldest, unless the oldest is it. */
  lemma NextOfRest(s: set<Backup>, h: set<Backup>)
    requires DistinctPaths(h) && h != {} && s <= h - {Oldest(h)}
    ensures h - s != {}
    ensures h - {Oldest(h)} - s == {} ==> s + {Newest(h - s)} == h
    ensures h - {Oldest(h)} - s != {} ==> Newest(h - s) == Newest(h - {Oldest(h)} - s)
  {
    var o, d := Oldest(h), h - s;
    assert o in d && d - {o} == h - {o} - s;
    if d - {o} == {} {
      assert d == {o};
    } else {
      NewestOfRest(d, o);
    }
  }

  lemma SegmentOfRest(s: set<Backup>, h: set<Backup>)
    requires |h| > 1 && NewestSegment(s, h - {Oldest(h)})
    ensures NewestSegment(s, h) && s <= h - {Oldest(h)} != {}
  {
    assert |h - {Oldest(h)}| == |h| - 1;
  }

  lemma NewestOfRest(d: set<Backup>, o: Backup)
    requires DistinctPaths(d) && o in d && d - {o} != {} && forall y :: y in d ==> Stamp(o) <= Stamp(y)
    ensures Newest(d) == Newest(d - {o})
  {
    NewestUnique(d, Newest(d - {o}));
  }

  /** The weight of a set does not depend on the order of counting. */
  lemma {:induction false} TotalWithout(h: set<Backup>, x: Backup)
    requires DistinctPaths(h) && x in h
    ensures Total(h) == x.size + Total(h - {x})
    decreases |h|
  {
    var o := Oldest(h);
    if x != o {
      TotalWithout(h - {o}, x);
      OldestUnique(h - {x}, o);
      assert h - {o} - {x} == h - {x} - {o};
    }
  }

  lemma OldestUnique(h: set<Backup>, x: Backup)
    requires DistinctPaths(h) && x in h && forall y :: y in h ==> Stamp(x) <= Stamp(y)
    ensures Oldest(h) == x
  {
  }

  lemma {:induction false} TotalMonotone(a: set<Backup>, b: set<Backup>)
    requires a <= b && DistinctPaths(b)
    ensures Total(a) <= Total(b)
    decreases |b|
  {
    if b - a != {} {
      var x :| x in b - a;
      TotalWithout(b, x);
      TotalMonotone(a, b - {x});
    } else {
      assert a == b;
    }
  }

  lemma OneMoreFits(s: set<Backup>, h: set<Backup>, cap: int)
    requires DistinctPaths(h) && FitsTightly(s, h, cap) && h - s != {}
    ensures |h| > 1 && Total(h) > cap
  {
    var x := Newest(h - s);
    var more := s + {x};
    TotalMonotone(more, h);
    assert s != {};
    var y :| y in s;
    SubsetSize({x, y}, h);
  }

  /** The backups of `h` at least as new as `x`. */
  ghost function NoOlder(h: set<Backup>, x: Backup): set<Backup> {
    set y | y in h && !Newer(x, y)
  }

  /** `x` is the newest of `h`, or everything from it upwards fits the cap. */
  ghost predicate Fits(h: set<Backup>, x: Backup, cap: int) {
    (forall y :: y in h ==> !Newer(y, x)) || Total(NoOlder(h, x)) <= cap
  }

  lemma FitsUpwards(h: set<Backup>, x: Backup, y: Backup, cap: int)
    requires DistinctPaths(h) && y in h && Newer(y, x) && Fits(h, x, cap)
    ensures Fits(h, y, cap)
  {
    hide Total;
    TotalMonotone(NoOlder(h, y), NoOlder(h, x));
  }

  ghost function Fitting(h: set<Backup>, cap: int): set<Backup> {
    set x | x in h && Fits(h, x, cap)
  }

  /** The cap keeps a backup exactly when it is the newest or everything from it upwards fits. */
  lemma CappedMembers(h: set<Backup>, cap: int)
    requires DistinctPaths(h)
    ensures Capped(h, cap) == Fitting(h, cap)
  {
    hide Capped, Total;
    var s := Fitting(h, cap);
    assert NewestSegment(s, h) by {
      forall x, y | x in s && y in h && Newer(y, x)
        ensures y in s
      {
        FitsUpwards(h, x, y, cap);
      }
    }
    if h != {} {
      assert Newest(h) in s;
      FittingWeighs(h, cap);
    }
    if h - s != {} {
      NextDoesNotFit(h, cap);
    }
    CappedExactly(s, h, cap);
  }

  lemma FittingWeighs(h: set<Backup>, cap: int)
    requires DistinctPaths(h) && Fitting(h, cap) != {} && NewestSegment(Fitting(h, cap), h)
    ensures Total(Fitting(h, cap)) <= cap || |Fitting(h, cap)| <= 1
  {
    hide Total;
    var s := Fitting(h, cap);
    var o := Oldest(s);
    assert s == NoOlder(h, o);
    if Total(s) > cap {
      assert s == {o};
    }
  }

  lemma NextDoesNotFit(h: set<Backup>, cap: int)
    requires DistinctPaths(h) && h - Fitting(h, cap) != {} && NewestSegment(Fitting(h, cap), h)
    ensures Total(Fitting(h, cap) + {Newest(h - Fitting(h, cap))}) > cap
  {
    hide Total;
    var s := Fitting(h, cap);
    var x := Newest(h - s);
    assert s + {x} == NoOlder(h, x);
  }

  /** Applying the whole policy again, cap included, to its own survivors deletes nothing. */
  lemma SurvivorsStable(h: set<Backup>, p: Policy, c: Calendar, cap: Option<int>)
    requires DistinctPaths(h)
    ensures var s := Survivors(h, p, c, cap); Survivors(s, p, c, cap) == s
  {
    hide Keep, Total, Capped;
    var k := Keep(h, p, c);
    KeepSubset(h, p, c);
    var s := Survivors(h, p, c, cap);
    if cap.Some? {
      CappedExactly(s, k, cap.value);
    }
    KeepSurvivesRemoval(s, h, p, c);
    KeepSubset(s, p, c);
    assert k * s == s && Keep(s, p, c) == s;
    if cap.Some? {
      assert FitsTightly(s, s, cap.value) by { assert s - s == {}; }
      CappedExactly(s, s, cap.value);
    }
  }

  /** The survivors of a non-empty directory include its newest backup. */
  lemma NewestSurvives(h: set<Backup>, p: Policy, c: Calendar, cap: Option<int>)
    requires DistinctPaths(h) && h != {}
    ensures Newest(h) in Survivors(h, p, c, cap)
  {
    NewestKept(h, p, c);
    if cap.Some? {
      var k := Keep(h, p, c);
      KeepSubset(h, p, c);
      var s := Capped(k, cap.value);
      CappedExactly(s, k, cap.value);
      var x :| x in s;
      assert x != Newest(h) ==> Newer(Newest(h), x);
    }
  }

  // ---------------------------------------------------------------------------
  // What is kept, backup by backup
  // ---------------------------------------------------------------------------

  /** A later day is newer; on one day the plain archive is newer than the encrypted one. */
  lemma NewerMeans(a: Backup, b: Backup)
    ensures Newer(a, b) <==> a.day > b.day || (a.day == b.day && b.encrypted && !a.encrypted)
  {
  }

  lemma {:induction false} AsManyPeriods(names: set<string>, keys: set<Key>)
    requires keys == set name | name in names :: Period(name)
    ensures |keys| == |names|
    decreases |names|
  {
    if names != {} {
      var name :| name in names;
      AsManyPeriods(names - {name}, keys - {Period(name)});
    }
  }

  /** A tier keeps a backup when it is the newest of its period and fewer than `n` periods are newer. */
  lemma PeriodTier(h: set<Backup>, n: int, bucketOf: int -> string, x: Backup)
    ensures x in Tier(h, n, ByPeriod(bucketOf)) <==>
            && x in h && bucketOf(x.day) != ""
            && (forall y :: y in h && Newer(y, x) ==> bucketOf(y.day) != bucketOf(x.day))
            && |set y | y in h && Newer(y, x) && bucketOf(y.day) != "" :: bucketOf(y.day)| < n
  {
    hide Newer;
    var names := set y | y in h && Newer(y, x) && bucketOf(y.day) != "" :: bucketOf(y.day);
    var keys := NewerKeys(h, ByPeriod(bucketOf), x);
    assert keys == set name | name in names :: Period(name);
    AsManyPeriods(names, keys);
    if x in h && bucketOf(x.day) != "" {
      assert Period(bucketOf(x.day)) in keys <==> bucketOf(x.day) in names;
    }
  }

  /** Why the policy keeps `x`: it is among the newest, or the newest of a recent week, month or year. */
  ghost predicate KeptBy(h: set<Backup>, p: Policy, c: Calendar, x: Backup) {
    || |set y | y in h && Newer(y, x)| < (if p.maxBackups < 1 then 1 else p.maxBackups)
    || NewestOfRecent(h, p.weekly, c.week, x) || NewestOfRecent(h, p.monthly, c.month, x)
    || NewestOfRecent(h, p.yearly, c.year, x)
  }

  /** `x` is the newest of its period, and fewer than `n` periods are newer. */
  ghost predicate NewestOfRecent(h: set<Backup>, n: int, bucketOf: int -> string, x: Backup) {
    && bucketOf(x.day) != "" && (forall y :: y in h && Newer(y, x) ==> bucketOf(y.day) != bucketOf(x.day))
    && |set y | y in h && Newer(y, x) && bucketOf(y.day) != "" :: bucketOf(y.day)| < n
  }

  /** A backup is kept if and only if fewer than max(1, maxBackups) are newer, or it is the newest of its week and
      fewer than `weekly` weeks are newer, or the same with month and `monthly`, or with year and `yearly`. */
  lemma KeepExactly(h: set<Backup>, p: Policy, c: Calendar, x: Backup)
    requires DistinctPaths(h)
    ensures x !in h ==> x !in Keep(h, p, c)
    ensures x in h ==>
              (x in Keep(h, p, c) <==>
                 || |set y | y in h && Newer(y, x)| < (if p.maxBackups < 1 then 1 else p.maxBackups)
                 || (&& c.week(x.day) != "" && (forall y :: y in h && Newer(y, x) ==> c.week(y.day) != c.week(x.day))
                     && |set y | y in h && Newer(y, x) && c.week(y.day) != "" :: c.week(y.day)| < p.weekly)
                 || (&& c.month(x.day) != "" && (forall y :: y in h && Newer(y, x) ==> c.month(y.day) != c.month(x.day))
                     && |set y | y in h && Newer(y, x) && c.month(y.day) != "" :: c.month(y.day)| < p.monthly)
                 || (&& c.year(x.day) != "" && (forall y :: y in h && Newer(y, x) ==> c.year(y.day) != c.year(x.day))
                     && |set y | y in h && Newer(y, x) && c.year(y.day) != "" :: c.year(y.day)| < p.yearly))
  {
    hide Tier, ByPeriod, OWN, Newer, DistinctPaths;
    KeepSubset(h, p, c);
    if x in h { DailyTier(h, MaxDaily(p), x); }
    PeriodTier(h, p.weekly, c.week, x);
    PeriodTier(h, p.monthly, c.month, x);
    PeriodTier(h, p.yearly, c.year, x);
  }

  lemma KeptForAReason(h: set<Backup>, p: Policy, c: Calendar)
    requires DistinctPaths(h)
    ensures forall x :: x in Survivors(h, p, c, None) <==> x in h && KeptBy(h, p, c, x)
  {
    hide Keep;
    forall x
      ensures x in Keep(h, p, c) <==> x in h && KeptBy(h, p, c, x)
    {
      KeepExactly(h, p, c, x);
    }
  }

  /** Without a cap everything kept survives; under a cap a kept backup survives if and only if no kept one is newer
      or the kept ones that are not older fit the cap together. */
  lemma SurvivesExactly(h: set<Backup>, p: Policy, c: Calendar, cap: int, x: Backup)
    requires DistinctPaths(h)
    ensures x in Survivors(h, p, c, None) <==> x in Keep(h, p, c)
    ensures x !in Keep(h, p, c) ==> x !in Survivors(h, p, c, Some(cap))
    ensures x in Keep(h, p, c) ==>
              (x in Survivors(h, p, c, Some(cap)) <==>
                 || (forall y :: y in Keep(h, p, c) ==> !Newer(y, x))
                 || Total(set y | y in Keep(h, p, c) && !Newer(x, y)) <= cap)
  {
    hide Keep, Total, Capped;
    KeepSubset(h, p, c);
    CappedMembers(Keep(h, p, c), cap);
  }

  /** The weight of nothing and of one more. */
  lemma TotalMeans(h: set<Backup>, x: Backup)
    requires DistinctPaths(h + {x}) && x !in h
    ensures Total({}) == 0 && Total(h + {x}) == Total(h) + x.size
  {
    TotalWithout(h + {x}, x);
    assert h + {x} - {x} == h;
  }
}
