/** Retention over whole histories of backups: what applying src/backup/retention.go after every backup
    leaves, compared with applying it once to everything.

    A backup is written under the name of its day, so a second one of the same kind on the same day
    replaces the first (src/backup/backup.go). */
module RetentionHistory {
  import opened Wrappers
  import opened RetentionPolicy

  /** Writes a backup over whatever has its path. */
  ghost function Put(h: set<Backup>, b: Backup): set<Backup> {
    (set x | x in h && Stamp(x) != Stamp(b)) + {b}
  }

  /** The directory if nothing were ever deleted: the last backup of each path. */
  ghost function Files(history: seq<Backup>): set<Backup> {
    if history == [] then {} else Put(Files(history[..|history| - 1]), history[|history| - 1])
  }

  /** The directory when retention runs after each new backup. */
  ghost function Online(history: seq<Backup>, p: Policy, c: Calendar): set<Backup> {
    if history == [] then {}
    else Keep(Put(Online(history[..|history| - 1], p, c), history[|history| - 1]), p, c)
  }

  /** What would be there: a backup that was written and whose path was not written again. */
  lemma {:induction false} FilesExactly(history: seq<Backup>, b: Backup)
    ensures b in Files(history) <==>
            exists i ::
              0 <= i < |history| && history[i] == b && forall j :: i < j < |history| ==> !SamePath(history[j], b)
  {
    if history != [] {
      var n := |history| - 1;
      FilesExactly(history[..n], b);
      hide Files;
      PutExactly(Files(history[..n]), history[n], b);
      if b in Files(history[..n]) && !SamePath(history[n], b) {
        var i :| 0 <= i < n && history[..n][i] == b && forall j :: i < j < n ==> !SamePath(history[..n][j], b);
        assert history[i] == b && forall j :: i < j < n ==> !SamePath(history[j], b) by {
          assert forall j :: 0 <= j < n ==> history[..n][j] == history[j];
        }
      }
    }
  }

  /** One archive a day of each kind, plain and encrypted. */
  predicate SamePath(a: Backup, b: Backup) {
    a.day == b.day && a.encrypted == b.encrypted
  }

  lemma PutExactly(h: set<Backup>, b: Backup, x: Backup)
    ensures x in Put(h, b) <==> x == b || (x in h && !SamePath(b, x))
  {
  }

  lemma {:induction false} FilesDistinct(history: seq<Backup>)
    ensures DistinctPaths(Files(history))
  {
    if history != [] {
      FilesDistinct(history[..|history| - 1]);
    }
  }

  // ---------------------------------------------------------------------------
  // Without a size cap
  // ---------------------------------------------------------------------------

  /** The bucket depends on the path alone, not on what is in the file. */
  ghost predicate ByPath(f: Bucketing) {
    forall a, b :: Stamp(a) == Stamp(b) ==> f(a) == f(b)
  }

  lemma PeriodsByPath(c: Calendar)
    ensures ByPath(OWN) && ByPath(ByPeriod(c.week)) && ByPath(ByPeriod(c.month)) && ByPath(ByPeriod(c.year))
  {
    assert forall a, b :: Stamp(a) == Stamp(b) ==> a.day == b.day;
  }

  /** What a tier keeps once a backup has been written, it kept before. */
  lemma TierAfterPut(h: set<Backup>, b: Backup, n: int, f: Bucketing)
    requires ByPath(f)
    ensures Tier(Put(h, b), n, f) <= Tier(h, n, f) + {b}
  {
    forall x | x in Tier(Put(h, b), n, f) && x != b
      ensures x in Tier(h, n, f)
    {
      NewerKeysAfterPut(h, b, f, x);
      SubsetSize(NewerKeys(h, f, x), NewerKeys(Put(h, b), f, x));
    }
  }

  lemma NewerKeysAfterPut(h: set<Backup>, b: Backup, f: Bucketing, x: Backup)
    requires ByPath(f)
    ensures NewerKeys(h, f, x) <= NewerKeys(Put(h, b), f, x)
  {
    forall k | k in NewerKeys(h, f, x)
      ensures k in NewerKeys(Put(h, b), f, x)
    {
      var y :| y in h && Newer(y, x) && f(y).Some? && f(y).value == k;
      var z := if Stamp(y) == Stamp(b) then b else y;
      assert z in Put(h, b) && Newer(z, x) && f(z) == f(y);
    }
  }

  lemma KeepAfterPut(h: set<Backup>, b: Backup, p: Policy, c: Calendar)
    ensures Keep(Put(h, b), p, c) <= Keep(h, p, c) + {b}
  {
    PeriodsByPath(c);
    hide Tier, ByPeriod, OWN, Put, ByPath;
    TierAfterPut(h, b, MaxDaily(p), OWN);
    TierAfterPut(h, b, p.weekly, ByPeriod(c.week));
    TierAfterPut(h, b, p.monthly, ByPeriod(c.month));
    TierAfterPut(h, b, p.yearly, ByPeriod(c.year));
  }

  lemma OneMoreBackup(h: set<Backup>, b: Backup, p: Policy, c: Calendar)
    ensures Keep(Put(Keep(h, p, c), b), p, c) == Keep(Put(h, b), p, c)
  {
    hide Keep;
    var k := Keep(Put(h, b), p, c);
    KeepSubset(h, p, c);
    KeepSubset(Put(h, b), p, c);
    KeepAfterPut(h, b, p, c);
    forall x | x in k
      ensures x in Put(Keep(h, p, c), b)
    {
      assert x in Put(h, b) && (x == b || x in Keep(h, p, c));
    }
    KeepIgnoresTheUnkept(Put(Keep(h, p, c), b), Put(h, b), p, c);
  }

  /** Running retention after every backup leaves exactly what one run over the complete history
      would leave, whatever the order of arrival and whatever the bucket functions. */
  lemma {:induction false} OnlineIsOffline(history: seq<Backup>, p: Policy, c: Calendar)
    ensures Online(history, p, c) == Keep(Files(history), p, c)
  {
    hide Keep, Put;
    if history == [] {
      KeepSubset({}, p, c);
    } else {
      var last := |history| - 1;
      OnlineIsOffline(history[..last], p, c);
      OneMoreBackup(Files(history[..last]), history[last], p, c);
    }
  }

  // ---------------------------------------------------------------------------
  // Under a size cap
  // ---------------------------------------------------------------------------

  ghost function OnlineCapped(history: seq<Backup>, p: Policy, c: Calendar, cap: int): set<Backup> {
    if history == [] then {}
    else
      Survivors(Put(OnlineCapped(history[..|history| - 1], p, c, cap), history[|history| - 1]), p, c, Some(cap))
  }

  /** Backups arrive in the order of their days; those of one day in any order. */
  ghost predicate InOrder(history: seq<Backup>) {
    forall i, j :: 0 <= i < j < |history| ==> history[i].day <= history[j].day
  }

  /** What the tiers keep of the first `j` backups. */
  ghost function KeptAt(history: seq<Backup>, j: nat, p: Policy, c: Calendar): set<Backup>
    requires j <= |history|
  {
    Keep(Files(history[..j]), p, c)
  }

  /** After the first `j` backups `x` is there and is not written again. */
  ghost predicate StaysFrom(history: seq<Backup>, j: nat, x: Backup) {
    0 < j <= |history| && x in Files(history[..j]) && forall i :: j <= i < |history| ==> history[i] != x
  }

  /** At no point since `x` was last written was it crowded out by newer kept backups. */
  ghost predicate NeverCrowdedOut(history: seq<Backup>, x: Backup, p: Policy, c: Calendar, cap: int) {
    forall j :: StaysFrom(history, j, x) ==> Fits(KeptAt(history, j, p, c), x, cap)
  }

  lemma {:induction false} FilesAreOld(history: seq<Backup>, day: int)
    requires forall i :: 0 <= i < |history| ==> history[i].day <= day
    ensures forall x :: x in Files(history) ==> x.day <= day
  {
    if history != [] {
      FilesAreOld(history[..|history| - 1], day);
    }
  }

  /** A non-empty newest segment holds every kept backup newer than one of the last day. */
  lemma SegmentHoldsLastDay(s: set<Backup>, k: set<Backup>, b: Backup)
    requires NewestSegment(s, k) && DistinctPaths(k) && (k != {} ==> s != {})
    requires forall x :: x in k ==> x.day <= b.day
    ensures forall y :: y in k && Newer(y, b) ==> y in s
  {
    forall y | y in k && Newer(y, b)
      ensures y in s
    {
      var z :| z in s;
      assert Stamp(z) <= Stamp(y);
      assert z == y || Newer(y, z);
    }
  }

  /** Putting a backup of the last day on a newest segment of what is kept: what the tiers keep of it is a newest
      segment of what they would keep of everything. */
  lemma KeepOnSegment(s: set<Backup>, h: set<Backup>, b: Backup, p: Policy, c: Calendar)
    requires NewestSegment(s, Keep(h, p, c)) && DistinctPaths(h) && (Keep(h, p, c) != {} ==> s != {})
    requires forall x :: x in h ==> x.day <= b.day
    ensures Keep(Put(s, b), p, c) == Keep(Put(h, b), p, c) * Put(s, b)
    ensures NewestSegment(Keep(Put(s, b), p, c), Keep(Put(h, b), p, c))
  {
    hide Keep;
    KeepSubset(h, p, c);
    KeepSubset(Put(h, b), p, c);
    KeepAfterPut(h, b, p, c);
    SegmentHoldsLastDay(s, Keep(h, p, c), b);
    var k := Keep(Put(h, b), p, c);
    forall x, y | x in Put(s, b) && y in k && Newer(y, x)
      ensures y in Put(s, b)
    {
      assert y == b || (y in Keep(h, p, c) && Stamp(y) != Stamp(b));
    }
    KeepOfClosed(Put(s, b), Put(h, b), p, c);
  }

  /** Fitting is the same seen from a newest segment. */
  lemma FitsInSegment(s: set<Backup>, h: set<Backup>, x: Backup, cap: int)
    requires NewestSegment(s, h) && DistinctPaths(h) && x in s
    ensures Fits(s, x, cap) <==> Fits(h, x, cap)
  {
    hide Total;
    assert NoOlder(s, x) == NoOlder(h, x);
  }

  /** The cap on a newest segment. */
  lemma CappedSegment(s: set<Backup>, h: set<Backup>, cap: int)
    requires NewestSegment(s, h) && DistinctPaths(h)
    ensures Capped(s, cap) == Fitting(h, cap) * s
    ensures NewestSegment(Capped(s, cap), h) && (s != {} ==> Capped(s, cap) != {})
  {
    hide Capped, Total, Fits;
    CappedMembers(s, cap);
    CappedExactly(Capped(s, cap), s, cap);
    forall x | x in s
      ensures x in Fitting(s, cap) <==> x in Fitting(h, cap)
    {
      FitsInSegment(s, h, x, cap);
    }
    forall x, y | x in Capped(s, cap) && y in h && Newer(y, x)
      ensures y in Capped(s, cap)
    {
      FitsUpwards(s, x, y, cap);
    }
  }

  lemma KeptDistinct(history: seq<Backup>, p: Policy, c: Calendar)
    ensures DistinctPaths(Keep(Files(history), p, c)) && Keep(Files(history), p, c) <= Files(history)
  {
    FilesDistinct(history);
    KeepSubset(Files(history), p, c);
    hide Keep, Files;
  }

  lemma FilesSnoc(history: seq<Backup>, b: Backup)
    ensures Files(history + [b]) == Put(Files(history), b)
  {
    assert (history + [b])[..|history|] == history;
  }

  lemma OnlineSnoc(history: seq<Backup>, b: Backup, p: Policy, c: Calendar, cap: int)
    ensures OnlineCapped(history + [b], p, c, cap) ==
            Survivors(Put(OnlineCapped(history, p, c, cap), b), p, c, Some(cap))
  {
    assert (history + [b])[..|history|] == history;
  }

  lemma InOrderSnoc(history: seq<Backup>, b: Backup)
    requires InOrder(history + [b])
    ensures InOrder(history) && forall i :: 0 <= i < |history| ==> history[i].day <= b.day
  {
    var more := history + [b];
    assert forall i :: 0 <= i < |history| ==> more[i] == history[i];
    assert more[|history|] == b;
  }

  /** What daily runs leave is a newest segment of what the tiers keep, and never nothing. */
  ghost predicate OnSegment(history: seq<Backup>, p: Policy, c: Calendar, cap: int) {
    var s, k := OnlineCapped(history, p, c, cap), Keep(Files(history), p, c);
    NewestSegment(s, k) && (k != {} ==> s != {})
  }

  /** One more backup under the cap. */
  lemma OneMoreCapped(history: seq<Backup>, b: Backup, p: Policy, c: Calendar, cap: int)
    requires InOrder(history + [b]) && OnSegment(history, p, c, cap)
    ensures OnSegment(history + [b], p, c, cap)
    ensures OnlineCapped(history + [b], p, c, cap) ==
            Fitting(Keep(Files(history + [b]), p, c), cap) * Put(OnlineCapped(history, p, c, cap), b)
  {
    InOrderSnoc(history, b);
    FilesAreOld(history, b.day);
    FilesSnoc(history, b);
    OnlineSnoc(history, b, p, c, cap);
    FilesDistinct(history);
    FilesDistinct(history + [b]);
    hide Keep, Put, Files, Fitting, InOrder, OnlineCapped, NewestSegment, Survivors, DistinctPaths;
    SweepOnSegment(OnlineCapped(history, p, c, cap), Files(history), b, p, c, cap);
  }

  /** One sweep under the cap after one more backup, from any newest segment of what is kept. */
  lemma SweepOnSegment(s: set<Backup>, h: set<Backup>, b: Backup, p: Policy, c: Calendar, cap: int)
    requires NewestSegment(s, Keep(h, p, c)) && (Keep(h, p, c) != {} ==> s != {})
    requires DistinctPaths(h) && DistinctPaths(Put(h, b)) && forall x :: x in h ==> x.day <= b.day
    ensures var t, k := Survivors(Put(s, b), p, c, Some(cap)), Keep(Put(h, b), p, c);
            t == Fitting(k, cap) * Put(s, b) && NewestSegment(t, k) && (k != {} ==> t != {})
  {
    var k := Keep(Put(h, b), p, c);
    KeepSubset(Put(h, b), p, c);
    KeepOnSegment(s, h, b, p, c);
    SomethingKept(Put(s, b), b, p, c);
    hide Keep, Put, Capped, Fitting, NewestSegment;
    CappedSegment(Keep(Put(s, b), p, c), k, cap);
    FittingSubset(k, cap);
  }

  lemma SomethingKept(h: set<Backup>, b: Backup, p: Policy, c: Calendar)
    requires b in h
    ensures Keep(h, p, c) != {}
  {
    NewestKept(h, p, c);
  }

  lemma FittingSubset(h: set<Backup>, cap: int)
    ensures Fitting(h, cap) <= h
  {
  }

  lemma {:induction false} OnlineIsSegment(history: seq<Backup>, p: Policy, c: Calendar, cap: int)
    requires InOrder(history)
    ensures OnSegment(history, p, c, cap)
  {
    if history == [] {
      KeepSubset({}, p, c);
    } else {
      hide Keep, Files, InOrder, OnSegment, OnlineCapped;
      var last := |history| - 1;
      var before, b := history[..last], history[last];
      assert history == before + [b];
      InOrderSnoc(before, b);
      OnlineIsSegment(before, p, c, cap);
      OneMoreCapped(before, b, p, c, cap);
    }
  }

  /** Exactly what daily runs under a cap leave: the backups the tiers keep of the whole history that were
      not crowded out at any point since they were last written. */
  lemma {:induction false} OnlineCappedExactly(history: seq<Backup>, p: Policy, c: Calendar, cap: int, x: Backup)
    requires InOrder(history)
    ensures x in OnlineCapped(history, p, c, cap) <==>
            x in Keep(Files(history), p, c) && NeverCrowdedOut(history, x, p, c, cap)
  {
    if history == [] {
      KeepSubset({}, p, c);
    } else {
      hide Keep, Fits, Files, InOrder, OnlineCapped, NeverCrowdedOut, OnSegment;
      var last := |history| - 1;
      var before, b := history[..last], history[last];
      assert history == before + [b];
      InOrderSnoc(before, b);
      OnlineCappedExactly(before, p, c, cap, x);
      OnlineIsSegment(before, p, c, cap);
      OneMoreCapped(before, b, p, c, cap);
      FilesSnoc(before, b);
      KeptDistinct(history, p, c);
      KeepAfterPut(Files(before), b, p, c);
      if x in Files(history) {
        CrowdedStep(before, b, x, p, c, cap);
      }
    }
  }

  /** Not being crowded out, one backup further. */
  lemma CrowdedStep(before: seq<Backup>, b: Backup, x: Backup, p: Policy, c: Calendar, cap: int)
    requires x in Files(before + [b])
    ensures NeverCrowdedOut(before + [b], x, p, c, cap) <==>
            (x == b || NeverCrowdedOut(before, x, p, c, cap)) && Fits(Keep(Files(before + [b]), p, c), x, cap)
  {
    hide Keep, Files, Fits;
    var history := before + [b];
    var n := |history|;
    assert history[..n] == history && history[n - 1] == b;
    assert forall j :: 0 <= j < n ==> history[..j] == before[..j];
    assert forall i :: 0 <= i < n - 1 ==> history[i] == before[i];
    assert StaysFrom(history, n, x);
    forall j | 0 < j < n
      ensures StaysFrom(history, j, x) <==> StaysFrom(before, j, x) && x != b
      ensures KeptAt(history, j, p, c) == KeptAt(before, j, p, c)
    {
    }
  }

  /** Daily runs and one run leave the same backups under a cap if and only if no survivor of the one run
      was crowded out before: at every point since it was last written, what the tiers kept from it upwards
      fitted the cap, or it was the newest. */
  lemma CapAgreesExactly(history: seq<Backup>, p: Policy, c: Calendar, cap: int)
    requires InOrder(history)
    ensures OnlineCapped(history, p, c, cap) == Survivors(Files(history), p, c, Some(cap)) <==>
            forall x :: x in Survivors(Files(history), p, c, Some(cap)) ==> NeverCrowdedOut(history, x, p, c, cap)
  {
    hide Keep, Capped, Fits, NeverCrowdedOut, OnlineCapped;
    var k := Keep(Files(history), p, c);
    KeptDistinct(history, p, c);
    CappedMembers(k, cap);
    forall x
      ensures x in OnlineCapped(history, p, c, cap) <==> x in k && NeverCrowdedOut(history, x, p, c, cap)
      ensures x in k && NeverCrowdedOut(history, x, p, c, cap) ==> Fits(k, x, cap)
    {
      OnlineCappedExactly(history, p, c, cap, x);
      if x in k && NeverCrowdedOut(history, x, p, c, cap) {
        assert history != [] by { NoFiles(history, x); }
        FitsAtTheEnd(history, x, p, c, cap);
      }
    }
  }

  lemma NoFiles(history: seq<Backup>, x: Backup)
    requires x in Files(history)
    ensures history != []
  {
  }

  lemma FitsAtTheEnd(history: seq<Backup>, x: Backup, p: Policy, c: Calendar, cap: int)
    requires history != [] && x in Files(history) && NeverCrowdedOut(history, x, p, c, cap)
    ensures Fits(Keep(Files(history), p, c), x, cap)
  {
    assert history[..|history|] == history;
    assert StaysFrom(history, |history|, x);
  }

  /** The two agree after every backup if and only if no single run ever brings back a backup that the
      single run before had dropped. */
  lemma CapAgreesThroughout(history: seq<Backup>, p: Policy, c: Calendar, cap: int)
    requires InOrder(history)
    ensures (forall i :: 0 <= i <= |history| ==> AgreesAt(history, i, p, c, cap)) <==>
            (forall i :: 0 <= i < |history| ==> BringsNothingBack(history, i, p, c, cap))
  {
    hide AgreesAt, BringsNothingBack;
    if forall i :: 0 <= i <= |history| ==> AgreesAt(history, i, p, c, cap) {
      forall i | 0 <= i < |history|
        ensures BringsNothingBack(history, i, p, c, cap)
      {
        AgreementStep(history, i, p, c, cap);
      }
    }
    if forall i :: 0 <= i < |history| ==> BringsNothingBack(history, i, p, c, cap) {
      AgreesAtStart(history, p, c, cap);
      for i := 0 to |history|
        invariant forall j :: 0 <= j <= i ==> AgreesAt(history, j, p, c, cap)
      {
        AgreementStep(history, i, p, c, cap);
      }
    }
  }

  ghost predicate AgreesAt(history: seq<Backup>, i: nat, p: Policy, c: Calendar, cap: int)
    requires i <= |history|
  {
    OnlineCapped(history[..i], p, c, cap) == Survivors(Files(history[..i]), p, c, Some(cap))
  }

  /** The single run after backup `i` keeps only that backup and what the single run before it kept. */
  ghost predicate BringsNothingBack(history: seq<Backup>, i: nat, p: Policy, c: Calendar, cap: int)
    requires i < |history|
  {
    Survivors(Files(history[..i + 1]), p, c, Some(cap)) <=
      Put(Survivors(Files(history[..i]), p, c, Some(cap)), history[i])
  }

  lemma AgreesAtStart(history: seq<Backup>, p: Policy, c: Calendar, cap: int)
    ensures AgreesAt(history, 0, p, c, cap)
  {
    KeepSubset({}, p, c);
  }

  lemma AgreementStep(history: seq<Backup>, i: nat, p: Policy, c: Calendar, cap: int)
    requires InOrder(history) && i < |history| && AgreesAt(history, i, p, c, cap)
    ensures AgreesAt(history, i + 1, p, c, cap) <==> BringsNothingBack(history, i, p, c, cap)
  {
    hide Survivors, OnlineCapped, Files, Put, InOrder;
    InOrderPrefix(history, i + 1);
    PrefixSnoc(history, i);
    StepAgrees(history[..i], history[i], p, c, cap);
  }

  lemma PrefixSnoc<T>(s: seq<T>, i: nat)
    requires i < |s|
    ensures s[..i + 1] == s[..i] + [s[i]]
  {
  }

  lemma StepAgrees(before: seq<Backup>, b: Backup, p: Policy, c: Calendar, cap: int)
    requires InOrder(before + [b])
    requires OnlineCapped(before, p, c, cap) == Survivors(Files(before), p, c, Some(cap))
    ensures var now := Survivors(Files(before + [b]), p, c, Some(cap));
            OnlineCapped(before + [b], p, c, cap) == now <==>
            now <= Put(Survivors(Files(before), p, c, Some(cap)), b)
  {
    InOrderSnoc(before, b);
    hide Keep, Capped, Fitting, OnlineCapped, Files, Put, InOrder, OnSegment;
    OnlineIsSegment(before, p, c, cap);
    KeptDistinct(before + [b], p, c);
    OneMoreCapped(before, b, p, c, cap);
    CappedMembers(Keep(Files(before + [b]), p, c), cap);
  }

  lemma InOrderPrefix(history: seq<Backup>, i: nat)
    requires InOrder(history) && i <= |history|
    ensures InOrder(history[..i])
  {
  }

  // ---------------------------------------------------------------------------
  // Two cases in which the cap never makes a difference
  // ---------------------------------------------------------------------------

  /** With only the daily tier, the two agree for every history in order, however large its backups are,
      if one backup is kept, as the configuration ships, or no backup is replaced by a smaller one. */
  lemma DailyTierAgrees(history: seq<Backup>, p: Policy, c: Calendar, cap: int)
    requires InOrder(history) && p.weekly <= 0 && p.monthly <= 0 && p.yearly <= 0
    requires p.maxBackups <= 1 || NeverShrinks(history)
    ensures OnlineCapped(history, p, c, cap) == Survivors(Files(history), p, c, Some(cap))
  {
    hide Keep, OnlineCapped, Fits, NewestSegment, Capped, NeverShrinks, InOrder;
    var k := Keep(Files(history), p, c);
    KeptDistinct(history, p, c);
    CappedMembers(k, cap);
    DailyOnly(Files(history), p, c);
    forall x, j: nat | x in Survivors(Files(history), p, c, Some(cap)) && StaysFrom(history, j, x)
      ensures Fits(KeptAt(history, j, p, c), x, cap)
    {
      DailyOnly(Files(history[..j]), p, c);
      FitsEarlier(history, j, MaxDaily(p), x, cap);
    }
    CapAgreesExactly(history, p, c, cap);
  }

  /** What fits at the end fitted before. */
  lemma FitsEarlier(history: seq<Backup>, j: nat, n: int, x: Backup, cap: int)
    requires j <= |history| && x in Files(history[..j])
    requires x in Tier(Files(history), n, OWN) && Fits(Tier(Files(history), n, OWN), x, cap)
    requires n <= 1 || NeverShrinks(history)
    ensures Fits(Tier(Files(history[..j]), n, OWN), x, cap)
  {
    var kept, final := Tier(Files(history[..j]), n, OWN), Tier(Files(history), n, OWN);
    forall y | y in kept && !Newer(x, y)
      ensures exists z :: z in final && Stamp(z) == Stamp(y) && (NeverShrinks(history) ==> y.size <= z.size)
    {
      var z := Successor(history, j, y);
      FilesDistinct(history);
      if z != x { DailyUpwards(Files(history), n, x, z); }
    }
    FilesDistinct(history);
    FilesDistinct(history[..j]);
    if n <= 1 {
      assert forall z :: z in final ==> !Newer(z, x) by { OnlyNewest(Files(history), n, x); }
    }
    hide NeverShrinks, Tier, Files;
    FitsDominated(kept, final, x, cap);
  }

  lemma OnlyNewest(h: set<Backup>, n: int, x: Backup)
    requires n <= 1 && x in Tier(h, n, OWN)
    ensures forall z :: z in h ==> !Newer(z, x)
  {
    assert NewerKeys(h, OWN, x) == {};
    assert forall z :: z in h && Newer(z, x) ==> OwnFile(Stamp(z)) in NewerKeys(h, OWN, x);
  }

  /** What fits among heavier backups fits among lighter ones. */
  lemma FitsDominated(kept: set<Backup>, final: set<Backup>, x: Backup, cap: int)
    requires DistinctPaths(kept) && DistinctPaths(final) && Fits(final, x, cap)
    requires forall y :: y in kept && !Newer(x, y) ==> exists z :: z in final && Stamp(z) == Stamp(y)
    requires || (forall z :: z in final ==> !Newer(z, x))
             || (forall y :: y in kept && !Newer(x, y) ==>
                   exists z :: z in final && Stamp(z) == Stamp(y) && y.size <= z.size)
    ensures Fits(kept, x, cap)
  {
    hide Total;
    if y :| y in kept && Newer(y, x) {
      var z :| z in final && Stamp(z) == Stamp(y);
      TotalDominated(NoOlder(kept, x), NoOlder(final, x));
    }
  }

  lemma DailyOnly(h: set<Backup>, p: Policy, c: Calendar)
    requires p.weekly <= 0 && p.monthly <= 0 && p.yearly <= 0
    ensures Keep(h, p, c) == Tier(h, MaxDaily(p), OWN)
  {
    NoTier(h, p.weekly, ByPeriod(c.week));
    NoTier(h, p.monthly, ByPeriod(c.month));
    NoTier(h, p.yearly, ByPeriod(c.year));
    hide Tier, OWN;
  }

  lemma NoTier(h: set<Backup>, n: int, f: Bucketing)
    requires n <= 0
    ensures Tier(h, n, f) == {}
  {
  }

  /** The stamps of the first `j` backups are among those of the whole history. */
  lemma {:induction false} FilesStay(history: seq<Backup>, j: nat, y: Backup) returns (z: Backup)
    requires j <= |history| && y in Files(history[..j])
    ensures z in Files(history) && Stamp(z) == Stamp(y)
    ensures z == y || exists i :: j <= i < |history| && z == history[i]
    decreases |history|
  {
    if j == |history| {
      assert history[..j] == history;
      z := y;
    } else {
      var last := |history| - 1;
      assert history[..last][..j] == history[..j];
      z := FilesStay(history[..last], j, y);
      if Stamp(z) == Stamp(history[last]) {
        z := history[last];
      }
    }
  }

  lemma {:induction false} FilesAreWritten(history: seq<Backup>, x: Backup) returns (i: nat)
    requires x in Files(history)
    ensures i < |history| && history[i] == x
  {
    var last := |history| - 1;
    if x == history[last] {
      i := last;
    } else {
      i := FilesAreWritten(history[..last], x);
    }
  }

  /** A backup written over another of its path is no smaller. */
  ghost predicate NeverShrinks(history: seq<Backup>) {
    forall i, j :: 0 <= i < j < |history| && Stamp(history[i]) == Stamp(history[j]) ==>
      history[i].size <= history[j].size
  }

  /** Whatever there was at `j` has a successor of its path at the end. */
  lemma Successor(history: seq<Backup>, j: nat, y: Backup) returns (z: Backup)
    requires j <= |history| && y in Files(history[..j])
    ensures z in Files(history) && Stamp(z) == Stamp(y) && (NeverShrinks(history) ==> y.size <= z.size)
  {
    z := FilesStay(history, j, y);
    var i := FilesAreWritten(history[..j], y);
    assert history[i] == y;
  }

  /** The daily tier keeps whatever is newer than something it keeps. */
  lemma DailyUpwards(h: set<Backup>, n: int, x: Backup, z: Backup)
    requires x in Tier(h, n, OWN) && z in h && Newer(z, x)
    ensures z in Tier(h, n, OWN)
  {
    assert NewerKeys(h, OWN, z) <= NewerKeys(h, OWN, x);
    SubsetSize(NewerKeys(h, OWN, z), NewerKeys(h, OWN, x));
  }

  lemma {:induction false} TotalDominated(a: set<Backup>, b: set<Backup>)
    requires DistinctPaths(a) && DistinctPaths(b)
    requires forall y :: y in a ==> exists z :: z in b && Stamp(z) == Stamp(y) && y.size <= z.size
    ensures Total(a) <= Total(b)
    decreases |a|
  {
    if a != {} {
      var y :| y in a;
      var z :| z in b && Stamp(z) == Stamp(y) && y.size <= z.size;
      TotalWithout(a, y);
      TotalWithout(b, z);
      TotalDominated(a - {y}, b - {z});
    }
  }

  /** While what the tiers keep fits the cap at every step, the cap changes nothing, in any order. */
  lemma {:induction false} OnlineCappedIsOffline(history: seq<Backup>, p: Policy, c: Calendar, cap: int)
    requires forall i :: 0 <= i <= |history| ==> Total(Keep(Files(history[..i]), p, c)) <= cap
    ensures OnlineCapped(history, p, c, cap) == Survivors(Files(history), p, c, Some(cap))
    ensures OnlineCapped(history, p, c, cap) == Keep(Files(history), p, c)
  {
    hide Keep, Total, Put;
    assert history[..|history|] == history;
    if history == [] {
      KeepSubset({}, p, c);
    } else {
      var last := |history| - 1;
      assert forall i :: 0 <= i <= last ==> history[..last][..i] == history[..i];
      OnlineCappedIsOffline(history[..last], p, c, cap);
      OneMoreBackup(Files(history[..last]), history[last], p, c);
    }
  }

  // ---------------------------------------------------------------------------
  // Two cases in which it does
  // ---------------------------------------------------------------------------

  lemma ThreeFiles(x: Backup, y: Backup, z: Backup)
    requires Newer(y, x) && Newer(z, x) && x.day <= y.day <= z.day
    ensures InOrder([x, y, z]) && Files([x, y, z][..2]) == {x, y} && Files([x, y, z]) == Put({x, y}, z)
    ensures StaysFrom([x, y, z], 2, x)
  {
    assert [x, y, z][..2] == [x, y] && [x, y][..1] == [x] && [x][..0] == [];
    assert Files([x]) == Put({}, x) == {x};
    assert Put({x}, y) == {x, y};
  }

  lemma PairTotal(x: Backup, y: Backup)
    requires Newer(y, x)
    ensures Total({x, y}) == x.size + y.size
  {
    TotalWithout({x, y}, x);
    assert {x, y} - {x} == {y};
    TotalWithout({y}, y);
    assert {y} - {y} == {};
  }

  /** Of two kept backups the older fits when both do. */
  lemma PairFits(k: set<Backup>, x: Backup, y: Backup, cap: int)
    requires Newer(y, x) && k == {x, y}
    ensures Fits(k, x, cap) <==> x.size + y.size <= cap
  {
    PairTotal(x, y);
    assert NoOlder(k, x) == {x, y};
    assert y in k;
  }

  /** The daily tier keeps both of two backups if its limit allows. */
  lemma PairKept(x: Backup, y: Backup, p: Policy, c: Calendar)
    requires Newer(y, x) && p.maxBackups >= 2
    ensures Keep({x, y}, p, c) == {x, y}
  {
    assert NewerKeys({x, y}, OWN, x) == {OwnFile(Stamp(y))};
    assert NewerKeys({x, y}, OWN, y) == {};
    assert {x, y} <= Tier({x, y}, MaxDaily(p), OWN);
    hide Tier;
    KeepSubset({x, y}, p, c);
  }

  /** A large backup of the day, replaced by a small one, can push out an old backup for good. */
  lemma ReplacementDependsOnHistory(c: Calendar)
    ensures var history := [Backup(1, false, 1), Backup(2, false, 10), Backup(2, false, 1)];
            var p := Policy(2, 0, 0, 0);
            OnlineCapped(history, p, c, 10) != Survivors(Files(history), p, c, Some(10))
  {
    var x, y, z := Backup(1, false, 1), Backup(2, false, 10), Backup(2, false, 1);
    var p := Policy(2, 0, 0, 0);
    assert Put({x}, y) == {x, y} && Put({x, y}, z) == {x, z};
    PairKept(x, y, p, c);
    PairKept(x, z, p, c);
    PushedOut(x, y, z, p, c);
  }

  /** The second of three backups pushes out the first, which fits again beside the third. */
  lemma PushedOut(x: Backup, y: Backup, z: Backup, p: Policy, c: Calendar)
    requires Newer(y, x) && Newer(z, x) && x.day <= y.day <= z.day
    requires Keep({x, y}, p, c) == {x, y} && Keep(Put({x, y}, z), p, c) == {x, z}
    requires x.size + y.size > 10 >= x.size + z.size
    ensures OnlineCapped([x, y, z], p, c, 10) != Survivors(Files([x, y, z]), p, c, Some(10))
  {
    hide Keep, Fits, Put, Capped, InOrder, Files, OnlineCapped, NeverCrowdedOut, StaysFrom, Stamp, Newer;
    ThreeFiles(x, y, z);
    PairFits({x, y}, x, y, 10);
    CrowdedAt([x, y, z], 2, x, p, c, 10);
    PushedOutFrom([x, y, z], x, z, p, c);
  }

  lemma PushedOutFrom(history: seq<Backup>, x: Backup, z: Backup, p: Policy, c: Calendar)
    requires InOrder(history) && !NeverCrowdedOut(history, x, p, c, 10)
    requires Newer(z, x) && x.size + z.size <= 10 && Keep(Files(history), p, c) == {x, z}
    ensures OnlineCapped(history, p, c, 10) != Survivors(Files(history), p, c, Some(10))
  {
    hide Keep, Fits, Capped, InOrder, Files, OnlineCapped, NeverCrowdedOut;
    OnlineCappedExactly(history, p, c, 10, x);
    PairSurvives(x, z, 10);
  }

  lemma CrowdedAt(history: seq<Backup>, j: nat, x: Backup, p: Policy, c: Calendar, cap: int)
    requires StaysFrom(history, j, x) && !Fits(Keep(Files(history[..j]), p, c), x, cap)
    ensures !NeverCrowdedOut(history, x, p, c, cap)
  {
    hide Keep, Files, Fits;
    assert !Fits(KeptAt(history, j, p, c), x, cap);
  }

  lemma PairSurvives(x: Backup, z: Backup, cap: int)
    requires Newer(z, x) && x.size + z.size <= cap
    ensures x in Capped({x, z}, cap)
  {
    hide Fits, Capped;
    PairFits({x, z}, x, z, cap);
    CappedMembers({x, z}, cap);
  }

  lemma NoPeriodNoTier(h: set<Backup>, n: int, bucketOf: int -> string, x: Backup)
    requires bucketOf(x.day) == ""
    ensures x !in Tier(h, n, ByPeriod(bucketOf))
  {
  }

  /** A large backup that the tiers later let go can push out an old one that they still keep. */
  lemma CapDependsOnHistory(c: Calendar)
    requires c.month(1) == "m" && c.month(2) == "" && c.month(3) == ""
    ensures var history := [Backup(1, false, 1), Backup(2, false, 10), Backup(3, false, 1)];
            var p := Policy(1, 0, 1, 0);
            OnlineCapped(history, p, c, 10) != Survivors(Files(history), p, c, Some(10))
  {
    var x, y, z := Backup(1, false, 1), Backup(2, false, 10), Backup(3, false, 1);
    var p := Policy(1, 0, 1, 0);
    assert Put({x, y}, z) == {x, y, z};
    hide Keep, OnlineCapped, Files, Put, Survivors;
    MonthlyPair(x, y, p, c);
    MonthlyTriple(x, y, z, p, c);
    PushedOut(x, y, z, p, c);
  }

  lemma MonthlyPair(x: Backup, y: Backup, p: Policy, c: Calendar)
    requires Newer(y, x) && p.monthly >= 1 && c.month(x.day) != "" && c.month(y.day) == ""
    ensures Keep({x, y}, p, c) == {x, y}
  {
    hide Keep;
    MonthlyKept({x, y}, x, y, p, c);
    KeepSubset({x, y}, p, c);
  }

  lemma MonthlyTriple(x: Backup, y: Backup, z: Backup, p: Policy, c: Calendar)
    requires Newer(y, x) && Newer(z, y) && p.maxBackups <= 1 && p.weekly <= 0 && p.monthly >= 1 && p.yearly <= 0
    requires c.month(x.day) != "" && c.month(y.day) == "" && c.month(z.day) == ""
    ensures Keep({x, y, z}, p, c) == {x, z}
  {
    hide Keep;
    MonthlyKept({x, y, z}, x, z, p, c);
    Forgotten({x, y, z}, y, z, p, c);
    KeepSubset({x, y, z}, p, c);
  }

  lemma MonthlyKept(h: set<Backup>, x: Backup, newest: Backup, p: Policy, c: Calendar)
    requires x in h && newest in h && p.monthly >= 1 && c.month(x.day) != ""
    requires forall y :: y in h && y != x ==> c.month(y.day) == ""
    requires forall y :: y in h ==> !Newer(y, newest)
    ensures x in Keep(h, p, c) && newest in Keep(h, p, c)
  {
    assert NewerKeys(h, ByPeriod(c.month), x) == {};
    assert NewerKeys(h, OWN, newest) == {};
  }

  lemma Forgotten(h: set<Backup>, y: Backup, z: Backup, p: Policy, c: Calendar)
    requires z in h && Newer(z, y) && p.maxBackups <= 1 && p.weekly <= 0 && p.yearly <= 0 && c.month(y.day) == ""
    ensures y !in Keep(h, p, c)
  {
    assert OwnFile(Stamp(z)) in NewerKeys(h, OWN, y);
    NoPeriodNoTier(h, p.monthly, c.month, y);
    NoTier(h, p.weekly, ByPeriod(c.week));
    NoTier(h, p.yearly, ByPeriod(c.year));
  }

  // ---------------------------------------------------------------------------
  // Step by step
  // ---------------------------------------------------------------------------

  ghost function OnlineUnder(history: seq<Backup>, p: Policy, c: Calendar, cap: Option<int>): set<Backup> {
    match cap
    case None => Online(history, p, c)
    case Some(n) => OnlineCapped(history, p, c, n)
  }

  lemma OnlineNothing(p: Policy, c: Calendar, cap: Option<int>)
    ensures OnlineUnder([], p, c, cap) == {}
  {
  }

  /** One more backup is put over one of the same path, and then the policy is applied. */
  lemma OnlineNext(history: seq<Backup>, i: nat, p: Policy, c: Calendar, cap: Option<int>)
    requires i < |history|
    ensures var b, before := history[i], OnlineUnder(history[..i], p, c, cap);
            OnlineUnder(history[..i + 1], p, c, cap) ==
            Survivors((set x | x in before && Stamp(x) != Stamp(b)) + {b}, p, c, cap)
  {
    assert history[..i + 1][..i] == history[..i];
  }
}
