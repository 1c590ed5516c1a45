/** The rate limiter of src/server/middleware.go as objects that change in place: per-key buckets that
    compact their request times in place, a map of buckets, and the sweep that drops idle ones.

    A ghost history records every call; the buckets are proved to decide each call exactly as the rule
    over that history does, whatever the sweep has dropped. */
module RateLimiter {
  import opened RateLimitHistory

  /** The request times of one key: the first `len` entries of the buffer, kept in `times` as well. */
  class Bucket {
    var buf: array<int>
    var len: nat
    ghost var times: seq<int>

    constructor ()
      ensures Valid() && fresh(buf) && times == []
    {
      buf := new int[0];
      len := 0;
      times := [];
    }

    ghost predicate Valid()
      reads this, buf
    {
      len <= buf.Length && times == buf[..len]
    }

    /** Drops the entries not later than `cutoff`, writing the others to the front of the same buffer. */
    method Evict(cutoff: int)
      requires Valid()
      modifies this`len, this`times, buf
      ensures Valid() && buf == old(buf) && times == After(old(times), cutoff)
    {
      ghost var was := times;
      var w, i := 0, 0;
      AfterNone(cutoff);
      hide After;
      while i < len
        invariant 0 <= w <= i <= len == old(len)
        invariant buf[..w] == After(was[..i], cutoff)
        invariant buf[i..len] == was[i..]
      {
        var t := buf[i];
        assert t == was[i] by { assert buf[i..len][0] == was[i..][0]; }
        assert was[..i + 1] == was[..i] + [t];
        AfterSnoc(was[..i], t, cutoff);
        EvictTurn(buf[..], was, w, i, len);
        if t > cutoff {
          buf[w] := t;
          w := w + 1;
        }
        i := i + 1;
      }
      assert was[..i] == was;
      len := w;
      times := buf[..len];
    }

    /** Appends, moving to a larger buffer when this one is full. */
    method Append(t: int)
      requires Valid()
      modifies this, buf
      ensures Valid() && (buf == old(buf) || fresh(buf)) && times == old(times) + [t]
    {
      if len == buf.Length {
        var bigger := new int[2 * len + 1];
        for i := 0 to len
          invariant buf == old(buf) && len == old(len) && times == old(times) && buf[..] == old(buf[..])
          invariant bigger[..i] == buf[..i]
        {
          bigger[i] := buf[i];
        }
        buf := bigger;
      }
      buf[len] := t;
      len := len + 1;
      times := times + [t];
    }

    /** `allow`: evicts what has left the window, then admits the call if there is room. */
    method Allow(limit: int, window: int, read: int, at: int) returns (ok: bool)
      requires Valid()
      modifies this, buf
      ensures Valid() && (buf == old(buf) || fresh(buf))
      ensures ok <==> |After(old(times), read - window)| < limit
      ensures times == After(old(times), read - window) + (if ok then [at] else [])
    {
      Evict(read - window);
      if len >= limit {
        return false;
      }
      Append(at);
      return true;
    }

    /** Is the bucket empty, or its last entry older than `cutoff`? */
    method IsStale(cutoff: int) returns (stale: bool)
      requires Valid()
      ensures stale <==> Stale(times, cutoff)
    {
      stale := len == 0 || buf[len - 1] < cutoff;
    }
  }

  lemma AfterNone(cutoff: int)
    ensures After([], cutoff) == []
  {
  }

  predicate Stale(s: seq<int>, cutoff: int) {
    s == [] || s[|s| - 1] < cutoff
  }

  lemma EvictTurn(b: seq<int>, was: seq<int>, w: nat, i: nat, len: nat)
    requires w <= i < len == |was| && len <= |b| && b[i..len] == was[i..]
    ensures b[w := b[i]][i + 1..len] == was[i + 1..] && b[i + 1..len] == was[i + 1..]
    ensures b[w := b[i]][..w + 1] == b[..w] + [b[i]]
  {
    assert b[i + 1..len] == b[i..len][1..];
    assert was[i + 1..] == was[i..][1..];
  }

  // ---------------------------------------------------------------------------
  // What a bucket remembers
  // ---------------------------------------------------------------------------

  /** The stored times are the allowed times later than some instant not after `bound`. */
  ghost predicate Remembers(stored: seq<int>, times: seq<int>, bound: int) {
    exists c :: c <= bound && stored == After(times, c)
  }

  lemma {:induction false} AfterAfter(s: seq<int>, a: int, b: int)
    requires a <= b
    ensures After(After(s, a), b) == After(s, b)
  {
    if s != [] {
      var n := |s| - 1;
      AfterAfter(s[..n], a, b);
      assert After(s[..n], a) + [] == After(s[..n], a);
      assert After(s[..n], b) + [] == After(s[..n], b);
      if s[n] > a {
        AfterSnoc(After(s[..n], a), s[n], b);
      }
    }
  }

  lemma RecallsRecent(stored: seq<int>, times: seq<int>, bound: int, cutoff: int)
    requires Remembers(stored, times, bound) && bound <= cutoff
    ensures After(stored, cutoff) == After(times, cutoff)
  {
    var c :| c <= bound && stored == After(times, c);
    AfterAfter(times, c, cutoff);
  }

  lemma {:induction false} AfterOld(s: seq<int>, cutoff: int)
    requires forall i :: 0 <= i < |s| ==> s[i] <= cutoff
    ensures After(s, cutoff) == []
  {
    if s != [] { AfterOld(s[..|s| - 1], cutoff); }
  }

  lemma {:induction false} AfterSorted(s: seq<int>, c: int)
    requires Sorted(s)
    ensures Sorted(After(s, c)) && forall x :: x in After(s, c) ==> x in s
  {
    if s != [] {
      var n := |s| - 1;
      AfterSorted(s[..n], c);
      assert forall x :: x in After(s[..n], c) ==> x <= s[n];
      assert forall i :: 0 <= i < |After(s[..n], c)| ==> After(s[..n], c)[i] in After(s[..n], c);
    }
  }

  /** Dropping a stale bucket loses nothing a window of at most two hours can still see. */
  lemma ForgetStale(stored: seq<int>, times: seq<int>, bound: int, now: int, window: int)
    requires Sorted(times) && Remembers(stored, times, bound) && bound <= now - window && window <= GC_AGE
    requires Stale(stored, now - GC_AGE)
    ensures Remembers([], times, now - window)
  {
    hide After, Sorted, Stale, Remembers;
    RecallsRecent(stored, times, bound, now - window);
    StoredSorted(stored, times, bound);
    StaleIsOld(stored, now - GC_AGE);
    AfterOld(stored, now - window);
    RemembersNothing(times, now - window);
  }

  lemma StoredSorted(stored: seq<int>, times: seq<int>, bound: int)
    requires Sorted(times) && Remembers(stored, times, bound)
    ensures Sorted(stored)
  {
    hide After, Sorted;
    var c :| c <= bound && stored == After(times, c);
    AfterSorted(times, c);
  }

  lemma RemembersNothing(times: seq<int>, cutoff: int)
    requires After(times, cutoff) == []
    ensures Remembers([], times, cutoff)
  {
    hide After;
  }

  lemma StaleIsOld(s: seq<int>, cutoff: int)
    requires Sorted(s) && Stale(s, cutoff)
    ensures forall i :: 0 <= i < |s| ==> s[i] <= cutoff
  {
  }

  lemma {:induction false} TimesBounded(h: seq<Call>, key: string, bound: int)
    requires forall i :: 0 <= i < |h| ==> h[i].at <= bound
    ensures forall i :: 0 <= i < |AllowedTimes(h, key)| ==> AllowedTimes(h, key)[i] <= bound
  {
    if h != [] {
      TimesBounded(h[..|h| - 1], key, bound);
    }
  }

  lemma {:induction false} TimesSorted(r: Rules, h: seq<Call>, key: string)
    requires Obeys(r, h)
    ensures Sorted(AllowedTimes(h, key))
  {
    if h != [] {
      CallObeys(r, h, |h| - 1);
      hide Obeys, Allows, Sorted;
      TimesSorted(r, h[..|h| - 1], key);
      TimesBounded(h[..|h| - 1], key, h[|h| - 1].read);
      SortedSnoc(AllowedTimes(h[..|h| - 1], key), h[|h| - 1].at);
    } else {
      assert AllowedTimes(h, key) == [];
    }
  }

  lemma SortedSnoc(s: seq<int>, x: int)
    requires Sorted(s) && forall i :: 0 <= i < |s| ==> s[i] <= x
    ensures Sorted(s + [x]) && Sorted(s + [])
  {
    assert s + [] == s;
  }

  /** What a limiter stores, per key; a key without a bucket stores nothing. */
  type Stored = map<string, seq<int>>

  function TimesOf(m: Stored, key: string): seq<int> {
    if key in m then m[key] else []
  }

  /** For every key the stored times still answer whatever the rule can ask from `now` on. */
  ghost predicate Informed(m: Stored, r: Rules, h: seq<Call>, now: int) {
    forall k :: Remembers(TimesOf(m, k), AllowedTimes(h, k), now - r.window(k))
  }

  ghost predicate NotAfter(h: seq<Call>, clock: int) {
    forall i :: 0 <= i < |h| ==> h[i].at <= clock
  }

  /** The history obeys the rule, and the stored times still answer what the rule can ask about. */
  ghost predicate Consistent(m: Stored, r: Rules, h: seq<Call>, clock: int) {
    WindowsFit(r) && Obeys(r, h) && NotAfter(h, clock) && Informed(m, r, h, clock)
  }

  lemma ConsistentStart(r: Rules, now: int)
    requires WindowsFit(r)
    ensures Consistent(map[], r, [], now)
  {
    forall k
      ensures Remembers([], AllowedTimes([], k), now - r.window(k))
    {
      assert [] == After([], now - r.window(k));
    }
  }

  lemma RemembersLater(stored: seq<int>, times: seq<int>, a: int, b: int)
    requires Remembers(stored, times, a) && a <= b
    ensures Remembers(stored, times, b)
  {
  }

  /** The bucket of the called key after the call. */
  lemma RemembersCall(h: seq<Call>, c: Call, window: int, at: int)
    requires window > 0 && c.read <= at && (c.allowed ==> c.at == at)
    ensures Remembers(After(AllowedTimes(h, c.key), c.read - window) + (if c.allowed then [at] else []),
                      AllowedTimes(h + [c], c.key), at - window)
  {
    var times, cutoff := AllowedTimes(h, c.key), c.read - window;
    TimesSnoc(h, c, c.key);
    AfterSnoc(times, at, cutoff);
    assert times + [] == times && After(times, cutoff) + [] == After(times, cutoff);
    assert After(AllowedTimes(h + [c], c.key), cutoff) == After(times, cutoff) + (if c.allowed then [at] else []);
  }

  /** The buckets of other keys are not affected. */
  lemma RemembersOther(stored: seq<int>, h: seq<Call>, c: Call, key: string, a: int, b: int)
    requires Remembers(stored, AllowedTimes(h, key), a) && a <= b && c.key != key
    ensures Remembers(stored, AllowedTimes(h + [c], key), b)
  {
    TimesSnoc(h, c, key);
    assert AllowedTimes(h, key) + [] == AllowedTimes(h, key);
    RemembersLater(stored, AllowedTimes(h, key), a, b);
  }

  /** What the bucket of the called key holds after the call. */
  function AfterCall(r: Rules, m: Stored, c: Call): seq<int> {
    After(TimesOf(m, c.key), c.read - r.window(c.key)) + (if c.allowed then [c.at] else [])
  }

  /** A call decided from the stored times is decided by the rule, and keeps the limiter informed. */
  lemma CallKeepsConsistent(r: Rules, m: Stored, h: seq<Call>, clock: int, c: Call, now: int)
    requires Consistent(m, r, h, clock)
    requires clock <= c.read <= c.at <= now && (c.allowed ==> c.at == now)
    requires c.allowed <==> |After(TimesOf(m, c.key), c.read - r.window(c.key))| < r.limit(c.key)
    ensures c.allowed <==> Allows(r, h, c.key, c.read)
    ensures Consistent(m[c.key := AfterCall(r, m, c)], r, h + [c], now)
  {
    hide After, AllowedTimes, Obeys, Remembers, NotAfter;
    RecallsRecent(TimesOf(m, c.key), AllowedTimes(h, c.key), clock - r.window(c.key), c.read - r.window(c.key));
    ObeysSnoc(r, h, clock, c, now);
    forall k
      ensures Remembers(TimesOf(m[c.key := AfterCall(r, m, c)], k), AllowedTimes(h + [c], k), now - r.window(k))
    {
      if k == c.key {
        RemembersCall(h, c, r.window(k), now);
      } else {
        RemembersOther(TimesOf(m, k), h, c, k, clock - r.window(k), now - r.window(k));
      }
    }
  }

  /** What is left after dropping the stale keys. */
  function WithoutStale(m: Stored, cutoff: int): Stored {
    map k | k in m && !Stale(m[k], cutoff) :: m[k]
  }

  /** The sweep when `keys` are still to be visited. */
  function Swept(m: Stored, keys: set<string>, cutoff: int): Stored {
    map k | k in m && (k in keys || !Stale(m[k], cutoff)) :: m[k]
  }

  lemma SweepStart(m: Stored, cutoff: int)
    ensures Swept(m, m.Keys, cutoff) == m && Swept(m, {}, cutoff) == WithoutStale(m, cutoff)
  {
  }

  lemma SweptOne(m: Stored, keys: set<string>, k: string, cutoff: int)
    requires k in keys && keys <= m.Keys
    ensures k in Swept(m, keys, cutoff) && Swept(m, keys, cutoff)[k] == m[k]
    ensures Swept(m, keys - {k}, cutoff) == Swept(m, keys, cutoff) - (if Stale(m[k], cutoff) then {k} else {})
  {
  }

  /** The sweep keeps the limiter informed. */
  lemma SweepKeepsConsistent(r: Rules, m: Stored, h: seq<Call>, clock: int, now: int)
    requires Consistent(m, r, h, clock) && clock <= now
    ensures Consistent(WithoutStale(m, now - GC_AGE), r, h, now)
  {
    hide After, AllowedTimes, Obeys, Remembers, NotAfter;
    NotAfterLater(h, clock, now);
    forall k
      ensures Remembers(TimesOf(WithoutStale(m, now - GC_AGE), k), AllowedTimes(h, k), now - r.window(k))
    {
      TimesSorted(r, h, k);
      if k in m && Stale(m[k], now - GC_AGE) {
        ForgetStale(m[k], AllowedTimes(h, k), clock - r.window(k), now, r.window(k));
      } else {
        RemembersLater(TimesOf(m, k), AllowedTimes(h, k), clock - r.window(k), now - r.window(k));
      }
    }
  }

  lemma ObeysSnoc(r: Rules, h: seq<Call>, clock: int, c: Call, now: int)
    requires Obeys(r, h) && NotAfter(h, clock) && clock <= c.read <= c.at <= now
    requires c.allowed <==> Allows(r, h, c.key, c.read)
    ensures Obeys(r, h + [c]) && NotAfter(h + [c], now)
  {
    hide Allows;
    var g := h + [c];
    forall i | 0 <= i < |g|
      ensures g[..i] == if i < |h| then h[..i] else h
    {
    }
  }

  // ---------------------------------------------------------------------------
  // The limiter
  // ---------------------------------------------------------------------------

  class Limiter {
    const rules: Rules
    var buckets: map<string, Bucket>
    /** The objects this limiter owns, and the key each belongs to. */
    ghost var owner: map<object, string>
    /** Everything that was asked, and the latest instant the limiter has seen. */
    ghost var history: seq<Call>
    ghost var clock: int

    /** Buckets and their buffers are owned, each by its own key. */
    ghost predicate Separate()
      reads this`buckets, this`owner, owner.Keys
    {
      this !in owner && forall k :: k in buckets ==> Owned(k, buckets[k])
    }

    ghost predicate Owned(k: string, b: Bucket)
      reads this`owner, owner.Keys
    {
      b in owner && owner[b] == k && b.buf in owner && owner[b.buf] == k && b.Valid()
    }

    ghost function View(): Stored
      requires Separate()
      reads this`buckets, this`owner, owner.Keys
    {
      map k | k in buckets :: buckets[k].times
    }

    /** The history obeys the rule, and the limiter still knows what the rule can ask about. */
    ghost predicate Valid()
      reads this, owner.Keys
    {
      Separate() && Consistent(View(), rules, history, clock)
    }

    constructor (rules: Rules, now: int)
      requires WindowsFit(rules)
      ensures Valid() && this.rules == rules && history == [] && clock == now && owner == map[]
    {
      this.rules := rules;
      buckets := map[];
      owner := map[];
      history := [];
      clock := now;
      new;
      ConsistentStart(rules, now);
      assert View() == map[];
    }

    /** The bucket of a key, created empty if there is none. */
    method BucketOf(key: string) returns (b: Bucket)
      requires Separate()
      modifies this`buckets, this`owner
      ensures Separate() && key in buckets && b == buckets[key] && fresh(owner.Keys - old(owner).Keys)
      ensures View() == old(View())[key := TimesOf(old(View()), key)] && b.times == TimesOf(old(View()), key)
      ensures (b in old(owner) || fresh(b)) && (b.buf in old(owner) || fresh(b.buf))
    {
      if key in buckets {
        b := buckets[key];
        assert Owned(key, b) && View()[key] == b.times;
        assert View()[key := b.times] == View();
      } else {
        b := AddBucket(key);
      }
    }

    method AddBucket(key: string) returns (b: Bucket)
      requires Separate() && key !in buckets
      modifies this`buckets, this`owner
      ensures Separate() && key in buckets && b == buckets[key] && fresh(b) && fresh(b.buf) && b.times == []
      ensures fresh(owner.Keys - old(owner).Keys) && View() == old(View())[key := []]
    {
      hide View, Separate;
      b := new Bucket();
      Claim(b, key);
      Claim(b.buf, key);
      Install(key, b);
    }

    /** Records an object as owned. */
    ghost method Claim(o: object, key: string)
      requires Separate() && o != this && (o in owner ==> owner[o] == key)
      modifies this`owner
      ensures Separate() && owner == old(owner)[o := key] && View() == old(View())
    {
      owner := owner[o := key];
      forall k | k in buckets
        ensures Owned(k, buckets[k])
      {
        assert old(Owned(k, buckets[k]));
      }
    }

    method Install(key: string, b: Bucket)
      requires Separate() && b in owner && b.buf in owner && Owned(key, b)
      modifies this`buckets
      ensures Separate() && buckets == old(buckets)[key := b] && View() == old(View())[key := b.times]
    {
      buckets := buckets[key := b];
    }

    /** Finds the bucket and asks it. */
    method Decide(key: string, read: int, at: int) returns (ok: bool)
      requires Separate()
      modifies this, owner.Keys
      ensures Separate() && fresh(owner.Keys - old(owner).Keys) && history == old(history) && clock == old(clock)
      ensures ok <==> |After(TimesOf(old(View()), key), read - rules.window(key))| < rules.limit(key)
      ensures View() == old(View())[key := After(TimesOf(old(View()), key), read - rules.window(key)) +
                                           (if ok then [at] else [])]
    {
      hide After, TimesOf, Separate, View;
      var b := BucketOf(key);
      ok := AskBucket(key, b, read, at);
    }

    /** Asks the bucket of a key. */
    method AskBucket(key: string, b: Bucket, read: int, at: int) returns (ok: bool)
      requires Separate() && key in buckets && b == buckets[key]
      modifies this`owner, b, b.buf
      ensures Separate() && fresh(owner.Keys - old(owner).Keys)
      ensures ok <==> |After(old(b.times), read - rules.window(key))| < rules.limit(key)
      ensures View() == old(View())[key := After(old(b.times), read - rules.window(key)) + (if ok then [at] else [])]
    {
      hide After;
      ok := b.Allow(rules.limit(key), rules.window(key), read, at);
      owner := owner[b.buf := key];
      OthersKept(key);
      assert Owned(key, b);
      hide Owned, View;
      ViewChanged(key);
    }

    /** Only the bucket of `key` has other times than before. */
    twostate lemma ViewChanged(key: string)
      requires old(Separate()) && Separate() && buckets == old(buckets) && key in buckets
      requires forall k :: k in buckets && k != key ==> buckets[k].times == old(buckets[k].times)
      ensures View() == old(View())[key := buckets[key].times]
    {
      hide Owned;
    }

    /** Whatever belongs to other keys is as it was, so their buckets are. */
    twostate lemma OthersKept(key: string)
      requires old(Separate()) && buckets == old(buckets)
      requires forall o :: o in old(owner) && old(owner)[o] != key ==>
                 o in owner && owner[o] == old(owner)[o] && unchanged(o)
      ensures forall k :: k in buckets && k != key ==>
                Owned(k, buckets[k]) && buckets[k].times == old(buckets[k].times)
    {
      forall k | k in buckets && k != key
        ensures Owned(k, buckets[k]) && buckets[k].times == old(buckets[k].times)
      {
        assert old(Owned(k, buckets[k]));
      }
    }

    /** Decides a call exactly as the rule over the whole history does, and adds it to the history. */
    method Allow(key: string, read: int, at: int) returns (ok: bool)
      requires Valid() && clock <= read <= at
      modifies this, owner.Keys
      ensures Valid() && fresh(owner.Keys - old(owner).Keys)
      ensures ok <==> Allows(rules, old(history), key, read)
      ensures history == old(history) + [Call(key, read, if ok then at else read, ok)] && clock == at
    {
      hide After, Consistent, Allows, View;
      ok := Decide(key, read, at);
      ghost var call := Call(key, read, if ok then at else read, ok);
      CallKeepsConsistent(rules, old(View()), history, clock, call, at);
      assert View() == old(View())[key := AfterCall(rules, old(View()), call)];
      history := history + [call];
      clock := at;
    }

    /** The periodic sweep: drops exactly the buckets with no request for two hours, and forgets nothing
        that a later call could still depend on. */
    method Sweep(now: int)
      requires Valid() && clock <= now
      modifies this
      ensures Valid() && history == old(history) && clock == now && owner == old(owner)
      ensures View() == WithoutStale(old(View()), now - GC_AGE)
      ensures forall k :: k in View() <==>
                && k in old(View()) && old(View())[k] != []
                && old(View())[k][|old(View())[k]| - 1] >= now - 7_200_000_000_000
      ensures forall k :: k in View() ==> View()[k] == old(View())[k]
    {
      hide Consistent, View;
      DropStale(now - GC_AGE);
      SweepKeepsConsistent(rules, old(View()), history, clock, now);
      clock := now;
    }

    /** The loop of the sweep over the map it deletes from. */
    method DropStale(cutoff: int)
      requires Separate()
      modifies this`buckets
      ensures Separate() && View() == WithoutStale(old(View()), cutoff)
    {
      ghost var all := View();
      var keys := buckets.Keys;
      SweepStart(all, cutoff);
      hide View, Separate, Stale;
      while keys != {}
        invariant Separate() && keys <= buckets.Keys && keys <= all.Keys
        invariant View() == Swept(all, keys, cutoff)
        decreases |keys|
      {
        var k :| k in keys;
        SweptOne(all, keys, k, cutoff);
        DropOne(k, cutoff);
        keys := keys - {k};
      }
    }

    /** One turn of the sweep. */
    method DropOne(k: string, cutoff: int)
      requires Separate() && k in buckets
      modifies this`buckets
      ensures Separate()
      ensures buckets.Keys == old(buckets).Keys - (if Stale(old(View())[k], cutoff) then {k} else {})
      ensures View() == old(View()) - (if Stale(old(View())[k], cutoff) then {k} else {})
    {
      assert Owned(k, buckets[k]);
      var stale := buckets[k].IsStale(cutoff);
      if stale {
        buckets := buckets - {k};
      }
    }
  }

  /** What every limiter guarantees about all the calls it has ever decided: no interval of the length of a
      key's window holds more than `limit` allowed calls of that key, and a call was refused exactly when
      `limit` of them lay in the window before it. */
  lemma LimiterGuarantee(l: Limiter, key: string, lo: int, i: nat)
    requires l.Valid()
    ensures |set j | 0 <= j < |l.history| && AllowedIn(l.history[j], key, lo, lo + l.rules.window(key))| <=
            if l.rules.limit(key) > 0 then l.rules.limit(key) else 0
    ensures i < |l.history| ==>
              var c := l.history[i];
              !c.allowed <==>
              |set j | 0 <= j < i && AllowedIn(l.history[j], c.key, c.read - l.rules.window(c.key), c.read)| >=
              l.rules.limit(c.key)
  {
    hide Obeys, Allows, After, AllowedIn;
    var h := l.history;
    WindowNeverExceeded(l.rules, h, key, lo);
    BetweenCounts(h, key, lo, lo + l.rules.window(key));
    if i < |h| {
      RefusedExactlyWhenFull(l.rules, h, i);
      var c := h[i];
      var (from, to) := (c.read - l.rules.window(c.key), c.read);
      BetweenCounts(h[..i], c.key, from, to);
      assert (set j | 0 <= j < |h[..i]| && AllowedIn(h[..i][j], c.key, from, to)) ==
             (set j | 0 <= j < i && AllowedIn(h[j], c.key, from, to));
    }
  }

  lemma NotAfterLater(h: seq<Call>, a: int, b: int)
    requires NotAfter(h, a) && a <= b
    ensures NotAfter(h, b)
  {
  }
}
