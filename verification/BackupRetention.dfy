/** `ApplyRetention` of src/backup/retention.go on a directory that it changes in place, proved to
    leave exactly the survivors the policy prescribes, or a superset of them when a delete fails. */
module BackupRetention {
  import opened Wrappers
  import opened RetentionPolicy
  import opened RetentionHistory

  /** A list of backups, newest first. */
  ghost predicate NewestFirst(s: seq<Backup>) {
    forall i, j :: 0 <= i < j < |s| ==> Newer(s[i], s[j])
  }

  ghost predicate OldestFirst(s: seq<Backup>) {
    forall i, j :: 0 <= i < j < |s| ==> Newer(s[j], s[i])
  }

  /** Stands for `os.ReadDir` and `sort.Slice`: the files of a directory, newest first. */
  method SortNewestFirst(files: set<Backup>) returns (s: seq<Backup>)
    requires DistinctPaths(files)
    ensures NewestFirst(s) && Elems(s) == files
  {
    hide NewestFirst, Elems;
    s := [];
    SortStart();
    var rest := files;
    while rest != {}
      invariant rest <= files
      invariant NewestFirst(s) && Elems(s) == files - rest
      invariant AllNewer(s, rest)
      decreases |rest|
    {
      var x := PickNewest(rest);
      SortTurn(s, rest, x);
      s := s + [x];
      rest := rest - {x};
    }
  }

  lemma SortStart()
    ensures NewestFirst([]) && Elems([]) == {}
  {
  }

  ghost predicate AllNewer(s: seq<Backup>, rest: set<Backup>) {
    forall i, y :: 0 <= i < |s| && y in rest ==> Newer(s[i], y)
  }

  lemma SortTurn(s: seq<Backup>, rest: set<Backup>, x: Backup)
    requires DistinctPaths(rest) && NewestFirst(s) && AllNewer(s, rest)
    requires x in rest && forall y :: y in rest ==> Stamp(y) <= Stamp(x)
    ensures NewestFirst(s + [x]) && Elems(s + [x]) == Elems(s) + {x} && AllNewer(s + [x], rest - {x})
  {
    SnocElems(s, x);
  }

  lemma SnocElems(s: seq<Backup>, x: Backup)
    ensures Elems(s + [x]) == Elems(s) + {x}
  {
  }

  method PickNewest(files: set<Backup>) returns (x: Backup)
    requires files != {}
    ensures x in files && forall y :: y in files ==> Stamp(y) <= Stamp(x)
  {
    x :| x in files;
    var rest := files - {x};
    while rest != {}
      invariant x in files && rest <= files && forall y :: y in files - rest ==> Stamp(y) <= Stamp(x)
      decreases |rest|
    {
      var y :| y in rest;
      if Newer(y, x) {
        x := y;
      }
      rest := rest - {y};
    }
  }

  // ---------------------------------------------------------------------------
  // Marking
  // ---------------------------------------------------------------------------

  /** The paths, here stamps, of a set of backups. */
  ghost function Paths(s: set<Backup>): set<int> {
    set b | b in s :: Stamp(b)
  }

  lemma NewerIsEarlier(s: seq<Backup>, i: nat, y: Backup)
    requires NewestFirst(s) && i < |s| && y in s
    ensures Newer(y, s[i]) <==> y in s[..i]
  {
    var j :| 0 <= j < |s| && s[j] == y;
    assert j < i ==> s[..i][j] == y;
    assert forall m :: 0 <= m < i ==> Newer(s[m], s[i]);
  }

  /** The buckets of the first `i` backups of the list. */
  ghost function KeysBefore(s: seq<Backup>, f: Bucketing, i: nat): set<Key>
    requires i <= |s|
  {
    set y | y in s[..i] && f(y).Some? :: f(y).value
  }

  /** Seen from `s[i]`, the newer buckets are those of the earlier elements. */
  lemma NewerKeysOfPrefix(s: seq<Backup>, f: Bucketing, i: nat)
    requires NewestFirst(s) && i < |s|
    ensures NewerKeys(Elems(s), f, s[i]) == KeysBefore(s, f, i)
  {
    forall y | y in s
      ensures Newer(y, s[i]) <==> y in s[..i]
    {
      NewerIsEarlier(s, i, y);
    }
  }

  /** The part of a tier that lies in the first `i` backups. */
  ghost function TierBefore(s: seq<Backup>, n: int, f: Bucketing, i: nat): set<Backup>
    requires i <= |s|
  {
    Tier(Elems(s), n, f) * Elems(s[..i])
  }

  lemma InTierAt(s: seq<Backup>, n: int, f: Bucketing, i: nat)
    requires NewestFirst(s) && i < |s|
    ensures s[i] in Tier(Elems(s), n, f) <==>
            f(s[i]).Some? && f(s[i]).value !in KeysBefore(s, f, i) && |KeysBefore(s, f, i)| < n
  {
    NewerKeysOfPrefix(s, f, i);
  }

  lemma ElemsBefore(s: seq<Backup>, i: nat)
    requires i < |s|
    ensures Elems(s[..i + 1]) == Elems(s[..i]) + {s[i]}
  {
    assert s[..i + 1] == s[..i] + [s[i]];
    SnocElems(s[..i], s[i]);
  }

  /** One turn of a marking loop. */
  lemma MarkTurn(s: seq<Backup>, n: int, f: Bucketing, i: nat)
    requires NewestFirst(s) && i < |s|
    ensures KeysBefore(s, f, i + 1) == KeysBefore(s, f, i) + (if f(s[i]).Some? then {f(s[i]).value} else {})
    ensures var takes := f(s[i]).Some? && f(s[i]).value !in KeysBefore(s, f, i) && |KeysBefore(s, f, i)| < n;
            Paths(TierBefore(s, n, f, i + 1)) == Paths(TierBefore(s, n, f, i)) + (if takes then {Stamp(s[i])} else {})
  {
    InTierAt(s, n, f, i);
    ElemsBefore(s, i);
    assert forall y {:trigger y in s[..i + 1]} :: y in s[..i + 1] <==> y in s[..i] || y == s[i];
    var one := if s[i] in Tier(Elems(s), n, f) then {s[i]} else {};
    assert TierBefore(s, n, f, i + 1) == TierBefore(s, n, f, i) + one;
    PathsUnion(TierBefore(s, n, f, i), one);
  }

  lemma PathsUnion(a: set<Backup>, b: set<Backup>)
    ensures Paths(a + b) == Paths(a) + Paths(b)
  {
  }

  lemma KeysGrow(s: seq<Backup>, f: Bucketing, i: nat, j: nat)
    requires i <= j <= |s|
    ensures |KeysBefore(s, f, i)| <= |KeysBefore(s, f, j)|
  {
    assert s[..i] <= s[..j];
    SubsetSize(KeysBefore(s, f, i), KeysBefore(s, f, j));
  }

  /** Once `n` buckets have been seen, or the list has ended, the tier is complete. */
  lemma MarkDone(s: seq<Backup>, n: int, f: Bucketing, i: nat)
    requires NewestFirst(s) && i <= |s| && (i == |s| || |KeysBefore(s, f, i)| >= n)
    ensures TierBefore(s, n, f, i) == Tier(Elems(s), n, f)
  {
    forall x | x in Tier(Elems(s), n, f)
      ensures x in s[..i]
    {
      var j :| 0 <= j < |s| && s[j] == x;
      if i <= j {
        InTierAt(s, n, f, j);
        KeysGrow(s, f, i, j);
      } else {
        assert s[..i][j] == x;
      }
    }
  }

  /** The daily loop: marks the first `n` of the list. */
  method MarkDaily(backups: seq<Backup>, keep: set<int>, n: int) returns (marked: set<int>)
    requires NewestFirst(backups) && n >= 0
    ensures marked == keep + Paths(Tier(Elems(backups), n, OWN))
  {
    hide TierBefore, KeysBefore, Tier;
    marked := keep;
    var i := 0;
    MarkStart(backups, n, OWN);
    while i < n && i < |backups|
      invariant 0 <= i <= |backups| && i <= n
      invariant |KeysBefore(backups, OWN, i)| == i
      invariant marked == keep + Paths(TierBefore(backups, n, OWN, i))
    {
      MarkTurn(backups, n, OWN, i);
      OwnKeyIsNew(backups, i);
      marked := marked + {Stamp(backups[i])};
      i := i + 1;
    }
    MarkDone(backups, n, OWN, i);
  }

  lemma MarkStart(s: seq<Backup>, n: int, f: Bucketing)
    ensures KeysBefore(s, f, 0) == {} && Paths(TierBefore(s, n, f, 0)) == {}
  {
    assert s[..0] == [];
  }

  lemma OwnKeyIsNew(s: seq<Backup>, i: nat)
    requires NewestFirst(s) && i < |s|
    ensures OWN(s[i]).Some? && OWN(s[i]).value !in KeysBefore(s, OWN, i)
  {
    assert forall m :: 0 <= m < i ==> Newer(s[m], s[i]);
  }

  /** Marks up to `n` backups, one per bucket, newest bucket first. */
  method KeepPeriodic(backups: seq<Backup>, keep: set<int>, n: int, bucketOf: int -> string) returns (marked: set<int>)
    requires NewestFirst(backups)
    ensures marked == keep + Paths(Tier(Elems(backups), n, ByPeriod(bucketOf)))
  {
    hide TierBefore, KeysBefore, Tier, SeenKeys, Paths, ByPeriod, NewestFirst;
    marked := keep;
    ghost var f := ByPeriod(bucketOf);
    MarkStart(backups, n, f);
    SeenNothing();
    if n <= 0 {
      MarkDone(backups, n, f, 0);
      return;
    }
    var seen: set<string> := {};
    var i := 0;
    while i < |backups|
      invariant 0 <= i <= |backups|
      invariant SeenKeys(seen) == KeysBefore(backups, f, i)
      invariant marked == keep + Paths(TierBefore(backups, n, f, i))
    {
      var b := backups[i];
      SeenSize(seen);
      if |seen| >= n {
        MarkDone(backups, n, f, i);
        return;
      }
      var bucket := bucketOf(b.day);
      PeriodicTurn(backups, n, bucketOf, i, seen);
      i := i + 1;
      if bucket == "" || bucket in seen {
        continue;
      }
      seen := seen + {bucket};
      marked := marked + {Stamp(b)};
    }
    MarkDone(backups, n, f, i);
  }

  ghost function SeenKeys(seen: set<string>): set<Key> {
    set name | name in seen :: Period(name)
  }

  lemma SeenNothing()
    ensures SeenKeys({}) == {}
  {
  }

  lemma PeriodicTurn(s: seq<Backup>, n: int, bucketOf: int -> string, i: nat, seen: set<string>)
    requires NewestFirst(s) && i < |s|
    requires SeenKeys(seen) == KeysBefore(s, ByPeriod(bucketOf), i) && |seen| < n
    ensures var f, bucket := ByPeriod(bucketOf), bucketOf(s[i].day);
            var takes := bucket != "" && bucket !in seen;
            KeysBefore(s, f, i + 1) == SeenKeys(if takes then seen + {bucket} else seen) &&
            Paths(TierBefore(s, n, f, i + 1)) ==
              if takes then Paths(TierBefore(s, n, f, i)) + {Stamp(s[i])} else Paths(TierBefore(s, n, f, i))
  {
    hide TierBefore, KeysBefore, Paths, NewestFirst, SeenKeys;
    SeenSize(seen);
    SeenGrows(seen, bucketOf(s[i].day));
    MarkTurn(s, n, ByPeriod(bucketOf), i);
  }

  lemma SeenGrows(seen: set<string>, bucket: string)
    ensures SeenKeys(seen + {bucket}) == SeenKeys(seen) + {Period(bucket)}
    ensures Period(bucket) in SeenKeys(seen) <==> bucket in seen
  {
  }

  lemma SeenSize(seen: set<string>)
    ensures |SeenKeys(seen)| == |seen|
  {
    if seen != {} {
      var name :| name in seen;
      SeenSize(seen - {name});
      assert SeenKeys(seen) == SeenKeys(seen - {name}) + {Period(name)};
    }
  }

  // ---------------------------------------------------------------------------
  // The size cap
  // ---------------------------------------------------------------------------

  /** Stands for the second `sort.Slice`: the same backups, oldest first. */
  method SortOldestFirst(s: seq<Backup>) returns (r: seq<Backup>)
    requires NewestFirst(s)
    ensures OldestFirst(r) && Elems(r) == Elems(s)
  {
    r := [];
    var i := |s|;
    while i > 0
      invariant 0 <= i <= |s| && |r| == |s| - i
      invariant forall j :: 0 <= j < |r| ==> r[j] == s[|s| - 1 - j]
    {
      i := i - 1;
      r := r + [s[i]];
    }
    ReversedElems(s, r);
  }

  lemma ReversedElems(s: seq<Backup>, r: seq<Backup>)
    requires |r| == |s| && forall j :: 0 <= j < |r| ==> r[j] == s[|s| - 1 - j]
    ensures Elems(r) == Elems(s)
  {
    forall b | b in s
      ensures b in r
    {
      var i :| 0 <= i < |s| && s[i] == b;
      assert r[|s| - 1 - i] == b;
    }
  }

  function SumSizes(s: seq<Backup>): nat {
    if s == [] then 0 else s[0].size + SumSizes(s[1..])
  }

  lemma {:induction false} SumSizesSnoc(s: seq<Backup>, b: Backup)
    ensures SumSizes(s + [b]) == SumSizes(s) + b.size
  {
    if s == [] {
      assert s + [b] == [b] && [b][1..] == [];
    } else {
      SumSizesSnoc(s[1..], b);
      assert (s + [b])[1..] == s[1..] + [b];
    }
  }

  /** An oldest-first list shows its set: the head is the oldest, the tail is the rest. */
  lemma OldestIsHead(s: seq<Backup>)
    requires OldestFirst(s) && s != []
    ensures Elems(s) != {} && Oldest(Elems(s)) == s[0]
    ensures Elems(s) - {s[0]} == Elems(s[1..])
  {
    assert s[0] in Elems(s);
    assert s == [s[0]] + s[1..];
    assert forall j :: 1 <= j < |s| ==> s[j] != s[0];
  }

  lemma {:induction false} ListMeasures(s: seq<Backup>)
    requires OldestFirst(s)
    ensures |Elems(s)| == |s| && Total(Elems(s)) == SumSizes(s)
  {
    if s == [] {
      assert Elems(s) == {};
    } else {
      OldestIsHead(s);
      ListMeasures(s[1..]);
      assert |Elems(s) - {s[0]}| == |Elems(s)| - 1;
    }
  }

  /** One turn of the cap loop drops the head. */
  lemma CapTurn(s: seq<Backup>, cap: int)
    requires OldestFirst(s)
    ensures |s| > 1 && SumSizes(s) > cap ==> Capped(Elems(s), cap) == Capped(Elems(s[1..]), cap)
    ensures !(|s| > 1 && SumSizes(s) > cap) ==> Capped(Elems(s), cap) == Elems(s)
  {
    ListMeasures(s);
    if s != [] { OldestIsHead(s); }
  }

  // ---------------------------------------------------------------------------
  // The directory
  // ---------------------------------------------------------------------------

  class BackupDir {
    var archives: set<Backup>
    /** The archives that have a manifest beside them. */
    var manifests: set<int>
    /** Removals the file system refuses. */
    const archiveStuck: Backup -> bool
    const manifestStuck: int -> bool

    constructor (archives: set<Backup>, manifests: set<int>, archiveStuck: Backup -> bool, manifestStuck: int -> bool)
      ensures this.archives == archives && this.manifests == manifests
      ensures this.archiveStuck == archiveStuck && this.manifestStuck == manifestStuck
    {
      this.archives, this.manifests := archives, manifests;
      this.archiveStuck, this.manifestStuck := archiveStuck, manifestStuck;
    }

    /** The file system lets the backup and its manifest, if any, be removed. */
    ghost predicate Removable(b: Backup)
      reads this
    {
      !archiveStuck(b) && !(Stamp(b) in manifests && manifestStuck(Stamp(b)))
    }

    /** Removes an archive and then its manifest; a file that is not there is no error. */
    method DeleteBackup(b: Backup) returns (ok: bool)
      modifies this
      ensures ok <==> !(b in old(archives) && archiveStuck(b)) &&
                      !(Stamp(b) in old(manifests) && manifestStuck(Stamp(b)))
      ensures ok ==> archives == old(archives) - {b} && manifests == old(manifests) - {Stamp(b)}
      ensures !ok ==> manifests == old(manifests)
      ensures !ok ==> archives == if b in old(archives) && archiveStuck(b) then old(archives) else old(archives) - {b}
    {
      if b in archives && archiveStuck(b) {
        return false;
      }
      archives := archives - {b};
      if Stamp(b) in manifests && manifestStuck(Stamp(b)) {
        return false;
      }
      manifests := manifests - {Stamp(b)};
      return true;
    }

    /** Deletes every backup of the list whose path is not marked. */
    method DeleteUnmarked(backups: seq<Backup>, keep: set<int>) returns (ok: bool)
      requires NewestFirst(backups) && Elems(backups) == archives
      modifies this
      ensures ok <==> forall b :: b in Unmarked(backups, keep) ==> old(Removable(b))
      ensures ok ==> archives == old(archives) - Unmarked(backups, keep)
      ensures ok ==> manifests == old(manifests) - Paths(Unmarked(backups, keep))
      ensures old(archives) - Unmarked(backups, keep) <= archives <= old(archives)
    {
      var i := 0;
      while i < |backups|
        invariant 0 <= i <= |backups|
        invariant archives == old(archives) - Unmarked(backups[..i], keep)
        invariant manifests == old(manifests) - Paths(Unmarked(backups[..i], keep))
        invariant forall b :: b in Unmarked(backups[..i], keep) ==> old(Removable(b))
      {
        var b := backups[i];
        assert backups[..i + 1] == backups[..i] + [b];
        assert b in Elems(backups) && b !in backups[..i];
        assert Stamp(b) !in Paths(Unmarked(backups[..i], keep));
        i := i + 1;
        if Stamp(b) in keep {
          continue;
        }
        ok := DeleteBackup(b);
        if !ok {
          assert b in Unmarked(backups, keep) && !old(Removable(b));
          return false;
        }
      }
      assert backups[..i] == backups;
      return true;
    }

    /** Deletes the oldest kept backups until the rest fits `cap` or one is left. */
    method EnforceCap(kept0: seq<Backup>, cap: int) returns (ok: bool)
      requires OldestFirst(kept0) && archives == Elems(kept0) && DistinctPaths(archives)
      modifies this
      ensures ok <==> forall b :: b in old(archives) - Capped(old(archives), cap) ==> old(Removable(b))
      ensures ok ==> archives == Capped(old(archives), cap)
      ensures ok ==> manifests == old(manifests) - Paths(old(archives) - archives)
      ensures Capped(old(archives), cap) <= archives <= old(archives)
    {
      hide Elems, Total, Capped, OldestFirst, Paths, DistinctPaths;
      var kept := kept0;
      var total: int := 0;
      for i := 0 to |kept|
        invariant archives == old(archives) && manifests == old(manifests)
        invariant total == SumSizes(kept[..i])
      {
        total := total + kept[i].size;
        assert kept[..i + 1] == kept[..i] + [kept[i]];
        SumSizesSnoc(kept[..i], kept[i]);
      }
      assert kept[..|kept|] == kept;
      NoPaths(archives);
      while |kept| > 1 && total > cap
        invariant OldestFirst(kept) && archives == Elems(kept) && archives <= old(archives)
        invariant total == SumSizes(kept)
        invariant Capped(old(archives), cap) == Capped(Elems(kept), cap)
        invariant manifests == old(manifests) - Paths(old(archives) - archives)
        invariant forall b :: b in old(archives) - archives ==> old(Removable(b))
        decreases |kept|
      {
        var oldest := kept[0];
        CapTurn(kept, cap);
        TailOldestFirst(kept);
        CappedSubset(kept[1..], cap);
        DroppedPath(old(archives), archives, oldest);
        OwnPath(old(archives), archives, oldest);
        ok := DeleteBackup(oldest);
        if !ok {
          assert oldest in old(archives) - Capped(old(archives), cap) && !old(Removable(oldest));
          return false;
        }
        total := total - oldest.size;
        kept := kept[1..];
      }
      CapTurn(kept, cap);
      return true;
    }

    /** Applies the policy: exactly the prescribed backups survive, with their manifests; if a delete
        fails midway, every backup that should survive still does. */
    method ApplyRetention(p: Policy, c: Calendar, cap: Option<int>) returns (ok: bool)
      requires DistinctPaths(archives)
      modifies this
      ensures ok <==> forall b :: b in old(archives) - Survivors(old(archives), p, c, cap) ==> old(Removable(b))
      ensures ok ==> archives == Survivors(old(archives), p, c, cap)
      ensures ok ==> manifests == old(manifests) - Paths(old(archives) - archives)
      ensures Survivors(old(archives), p, c, cap) <= archives <= old(archives)
      ensures ok && cap.None? ==>
                forall x :: x in archives <==> x in old(archives) && KeptBy(old(archives), p, c, x)
    {
      hide Keep, KeptBy, Capped, Elems, Paths, Unmarked, NewestFirst, OldestFirst;
      var backups := SortNewestFirst(archives);
      var keep := MarkAll(backups, p, c);
      MarkedAreKept(backups, keep, p, c);
      ok := DeleteUnmarked(backups, keep);
      if cap.Some? {
        CapShrinks(Keep(old(archives), p, c), cap.value);
        assert old(archives) - Survivors(old(archives), p, c, cap) >= Unmarked(backups, keep);
        if !ok {
          return false;
        }
        KeptPaths(old(archives), archives);
        assert forall b :: b in archives ==> (Removable(b) <==> old(Removable(b)));
        var kept := CollectMarked(backups, keep);
        kept := SortOldestFirst(kept);
        DroppedInTwo(old(archives), archives, Capped(archives, cap.value));
        ok := EnforceCap(kept, cap.value);
      }
      KeptForAReason(old(archives), p, c);
    }

    /** A backup of the day is written over one of the same name. */
    method WriteBackup(b: Backup)
      modifies this
      ensures archives == (set x | x in old(archives) && Stamp(x) != Stamp(b)) + {b}
      ensures manifests == old(manifests) + {Stamp(b)}
    {
      archives := (set x | x in archives && Stamp(x) != Stamp(b)) + {b};
      manifests := manifests + {Stamp(b)};
    }

    /** A whole history: each backup is written and then the policy applied. If no sweep fails, exactly what the
        laws over histories speak of is left. */
    method RunHistory(history: seq<Backup>, p: Policy, c: Calendar, cap: Option<int>) returns (ok: bool)
      requires archives == {}
      modifies this
      ensures ok ==> archives == OnlineUnder(history, p, c, cap)
    {
      hide Survivors, Removable, Paths, Online, OnlineCapped, KeptBy;
      OnlineNothing(p, c, cap);
      assert history[..0] == [];
      for i := 0 to |history|
        invariant DistinctPaths(archives)
        invariant archives == OnlineUnder(history[..i], p, c, cap)
      {
        OnlineNext(history, i, p, c, cap);
        WriteBackup(history[i]);
        ok := ApplyRetention(p, c, cap);
        if !ok { return; }
      }
      assert history[..|history|] == history;
      return true;
    }
  }

  /** The marking phase: the paths of everything some tier keeps. */
  method MarkAll(backups: seq<Backup>, p: Policy, c: Calendar) returns (keep: set<int>)
    requires NewestFirst(backups)
    ensures keep == Paths(Keep(Elems(backups), p, c))
  {
    hide Tier, Elems, Paths;
    keep := MarkDaily(backups, {}, MaxDaily(p));
    keep := KeepPeriodic(backups, keep, p.weekly, c.week);
    keep := KeepPeriodic(backups, keep, p.monthly, c.month);
    keep := KeepPeriodic(backups, keep, p.yearly, c.year);
    var h := Elems(backups);
    PathsUnion(Tier(h, MaxDaily(p), OWN), Tier(h, p.weekly, ByPeriod(c.week)));
    PathsUnion(Tier(h, MaxDaily(p), OWN) + Tier(h, p.weekly, ByPeriod(c.week)), Tier(h, p.monthly, ByPeriod(c.month)));
    PathsUnion(Tier(h, MaxDaily(p), OWN) + Tier(h, p.weekly, ByPeriod(c.week)) + Tier(h, p.monthly, ByPeriod(c.month)),
               Tier(h, p.yearly, ByPeriod(c.year)));
  }

  /** The marked backups, in list order. */
  method CollectMarked(backups: seq<Backup>, keep: set<int>) returns (list: seq<Backup>)
    requires NewestFirst(backups)
    ensures NewestFirst(list) && Elems(list) == Elems(backups) - Unmarked(backups, keep)
  {
    list := [];
    for i := 0 to |backups|
      invariant NewestFirst(list)
      invariant Elems(list) == set b | b in backups[..i] && Stamp(b) in keep
    {
      assert backups[..i + 1] == backups[..i] + [backups[i]];
      if Stamp(backups[i]) in keep {
        AppendOlder(list, backups, i);
        list := list + [backups[i]];
      }
    }
    assert backups[..|backups|] == backups;
  }

  lemma AppendOlder(list: seq<Backup>, backups: seq<Backup>, i: nat)
    requires NewestFirst(list) && NewestFirst(backups) && i < |backups| && Elems(list) <= Elems(backups[..i])
    ensures NewestFirst(list + [backups[i]]) && Elems(list + [backups[i]]) == Elems(list) + {backups[i]}
  {
    forall b | b in list
      ensures Newer(b, backups[i])
    {
      assert b in Elems(list);
      var j :| 0 <= j < i && backups[..i][j] == b;
    }
    SnocElems(list, backups[i]);
  }

  /** What the marks leave is what the tiers keep. */
  lemma MarkedAreKept(backups: seq<Backup>, keep: set<int>, p: Policy, c: Calendar)
    requires DistinctPaths(Elems(backups)) && keep == Paths(Keep(Elems(backups), p, c))
    ensures Elems(backups) - Unmarked(backups, keep) == Keep(Elems(backups), p, c)
    ensures Unmarked(backups, keep) == Elems(backups) - Keep(Elems(backups), p, c)
  {
    var h := Elems(backups);
    KeepSubset(h, p, c);
    hide Keep;
    forall b | b in h
      ensures Stamp(b) in keep <==> b in Keep(h, p, c)
    {
      if Stamp(b) in keep {
        var k :| k in Keep(h, p, c) && Stamp(k) == Stamp(b);
        assert k in h;
      }
    }
  }

  lemma DroppedInTwo(h: set<Backup>, k: set<Backup>, s: set<Backup>)
    requires s <= k && k <= h
    ensures Paths(h - s) == Paths(h - k) + Paths(k - s)
  {
    assert h - s == (h - k) + (k - s);
    PathsUnion(h - k, k - s);
  }

  /** The backups of the list whose path is not in `keep`. */
  ghost function Unmarked(backups: seq<Backup>, keep: set<int>): set<Backup> {
    set b | b in backups && Stamp(b) !in keep
  }

  lemma NoPaths(h: set<Backup>)
    ensures Paths(h - h) == {}
  {
  }

  lemma DroppedPath(h: set<Backup>, s: set<Backup>, b: Backup)
    requires b in s && s <= h
    ensures Paths(h - (s - {b})) == Paths(h - s) + {Stamp(b)}
  {
    assert h - (s - {b}) == (h - s) + {b};
    PathsUnion(h - s, {b});
  }

  lemma OwnPath(h: set<Backup>, s: set<Backup>, b: Backup)
    requires DistinctPaths(h) && b in s && s <= h
    ensures Stamp(b) !in Paths(h - s)
  {
  }

  lemma KeptPaths(h: set<Backup>, k: set<Backup>)
    requires DistinctPaths(h) && k <= h
    ensures forall b :: b in k ==> Stamp(b) !in Paths(h - k)
  {
  }

  lemma TailOldestFirst(s: seq<Backup>)
    requires OldestFirst(s) && s != []
    ensures OldestFirst(s[1..]) && Elems(s[1..]) == Elems(s) - {s[0]} && s[0] in Elems(s)
  {
    OldestIsHead(s);
  }

  lemma CappedSubset(s: seq<Backup>, cap: int)
    requires OldestFirst(s)
    ensures Capped(Elems(s), cap) <= Elems(s)
  {
    CapShrinks(Elems(s), cap);
  }

  lemma {:induction false} CapShrinks(h: set<Backup>, cap: int)
    ensures Capped(h, cap) <= h
    decreases |h|
  {
    if |h| > 1 && Total(h) > cap {
      CapShrinks(h - {Oldest(h)}, cap);
    }
  }
}
