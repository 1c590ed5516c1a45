/** What the sliding-window rate limiter of src/server/middleware.go decides, as a rule about the whole
    history of requests, and the guarantee that rule gives. */
module RateLimitHistory {

  /** The clock is in nanoseconds. Limits and windows are fixed per key; a window is positive and at most two
      hours, the age at which an idle bucket is collected. */
  const GC_AGE: int := 7_200_000_000_000

  datatype Rules = Rules(limit: string -> int, window: string -> int)

  ghost predicate WindowsFit(r: Rules) {
    forall k :: 0 < r.window(k) <= GC_AGE
  }

  /** One call of Allow: read at `read`, stamped at `at` if it was allowed. */
  datatype Call = Call(key: string, read: int, at: int, allowed: bool)

  /** The times of the allowed calls of a key, oldest first. */
  function AllowedTimes(h: seq<Call>, key: string): seq<int> {
    if h == [] then []
    else
      var last := h[|h| - 1];
      AllowedTimes(h[..|h| - 1], key) + (if last.key == key && last.allowed then [last.at] else [])
  }

  /** The entries later than `cutoff`. */
  function After(s: seq<int>, cutoff: int): seq<int> {
    if s == [] then []
    else After(s[..|s| - 1], cutoff) + (if s[|s| - 1] > cutoff then [s[|s| - 1]] else [])
  }

  predicate Sorted(s: seq<int>) {
    forall i, j :: 0 <= i < j < |s| ==> s[i] <= s[j]
  }

  /** How many calls of the key were allowed later than `cutoff`. */
  function AllowedSince(h: seq<Call>, key: string, cutoff: int): nat {
    |After(AllowedTimes(h, key), cutoff)|
  }

  /** The rule: a call is allowed if and only if fewer than `limit` calls of its key were allowed in the
      window that ends at it. */
  predicate Allows(r: Rules, h: seq<Call>, key: string, read: int) {
    AllowedSince(h, key, read - r.window(key)) < r.limit(key)
  }

  /** A history in which the clock never goes back and every call was decided by the rule. */
  ghost predicate Obeys(r: Rules, h: seq<Call>) {
    forall i :: 0 <= i < |h| ==>
      && h[i].read <= h[i].at
      && (forall j :: 0 <= j < i ==> h[j].at <= h[i].read)
      && (h[i].allowed <==> Allows(r, h[..i], h[i].key, h[i].read))
  }

  // ---------------------------------------------------------------------------
  // Counting
  // ---------------------------------------------------------------------------

  /** The number of allowed calls of `key` with `lo < at <= hi`. */
  function AllowedBetween(h: seq<Call>, key: string, lo: int, hi: int): nat {
    if h == [] then 0
    else
      var last := h[|h| - 1];
      AllowedBetween(h[..|h| - 1], key, lo, hi) +
      (if last.key == key && last.allowed && lo < last.at <= hi then 1 else 0)
  }

  /** Allowed for `key`, with `lo < at <= hi`. */
  predicate AllowedIn(c: Call, key: string, lo: int, hi: int) {
    c.key == key && c.allowed && lo < c.at <= hi
  }

  lemma {:induction false} BetweenCounts(h: seq<Call>, key: string, lo: int, hi: int)
    ensures AllowedBetween(h, key, lo, hi) == |set i | 0 <= i < |h| && AllowedIn(h[i], key, lo, hi)|
  {
    hide AllowedIn;
    var all := set i | 0 <= i < |h| && AllowedIn(h[i], key, lo, hi);
    if h == [] {
      assert all == {};
    } else {
      var n := |h| - 1;
      BetweenCounts(h[..n], key, lo, hi);
      var before := set i | 0 <= i < n && AllowedIn(h[..n][i], key, lo, hi);
      assert all == before + (if AllowedIn(h[n], key, lo, hi) then {n} else {});
      LastAllowedIn(h, key, lo, hi);
    }
  }

  lemma LastAllowedIn(h: seq<Call>, key: string, lo: int, hi: int)
    requires h != []
    ensures AllowedBetween(h, key, lo, hi) ==
            AllowedBetween(h[..|h| - 1], key, lo, hi) + (if AllowedIn(h[|h| - 1], key, lo, hi) then 1 else 0)
  {
  }

  lemma {:induction false} AfterSnoc(s: seq<int>, x: int, cutoff: int)
    ensures After(s + [x], cutoff) == After(s, cutoff) + (if x > cutoff then [x] else [])
  {
    assert (s + [x])[..|s|] == s;
  }

  lemma TimesSnoc(h: seq<Call>, c: Call, key: string)
    ensures AllowedTimes(h + [c], key) == AllowedTimes(h, key) + (if c.key == key && c.allowed then [c.at] else [])
  {
    assert (h + [c])[..|h|] == h;
  }

  lemma {:induction false} AfterAppend(a: seq<int>, b: seq<int>, cutoff: int)
    ensures After(a + b, cutoff) == After(a, cutoff) + After(b, cutoff)
  {
    if b == [] {
      assert a + b == a;
    } else {
      var n := |b| - 1;
      assert a + b == (a + b[..n]) + [b[n]];
      AfterSnoc(a + b[..n], b[n], cutoff);
      AfterAppend(a, b[..n], cutoff);
    }
  }

  /** The calls in an interval number at most those since its start; just as many if none comes later. */
  lemma {:induction false} BetweenIsSince(h: seq<Call>, key: string, lo: int, hi: int)
    ensures AllowedBetween(h, key, lo, hi) <= AllowedSince(h, key, lo)
    ensures (forall i :: 0 <= i < |h| ==> h[i].at <= hi) ==> AllowedBetween(h, key, lo, hi) == AllowedSince(h, key, lo)
  {
    if h != [] {
      var n := |h| - 1;
      BetweenIsSince(h[..n], key, lo, hi);
      var last := h[n];
      AfterAppend(AllowedTimes(h[..n], key), if last.key == key && last.allowed then [last.at] else [], lo);
      if last.key == key && last.allowed {
        assert After([last.at], lo) == (if last.at > lo then [last.at] else []) by { AfterSnoc([], last.at, lo); }
      }
    }
  }

  lemma {:induction false} SinceMonotone(h: seq<Call>, key: string, a: int, b: int)
    requires a <= b
    ensures AllowedSince(h, key, b) <= AllowedSince(h, key, a)
  {
    TimesMonotone(AllowedTimes(h, key), a, b);
  }

  lemma {:induction false} TimesMonotone(s: seq<int>, a: int, b: int)
    requires a <= b
    ensures |After(s, b)| <= |After(s, a)|
  {
    if s != [] {
      TimesMonotone(s[..|s| - 1], a, b);
    }
  }

  lemma ObeysPrefix(r: Rules, h: seq<Call>, i: nat)
    requires i <= |h| && Obeys(r, h)
    ensures Obeys(r, h[..i])
  {
    hide Allows;
    var p := h[..i];
    assert forall j :: 0 <= j < i ==> p[..j] == h[..j] && p[j] == h[j];
  }

  lemma CallObeys(r: Rules, h: seq<Call>, i: nat)
    requires i < |h| && Obeys(r, h)
    ensures Obeys(r, h[..i]) && h[i].read <= h[i].at
    ensures forall j :: 0 <= j < i ==> h[..i][j].at <= h[i].read
    ensures h[i].allowed <==> Allows(r, h[..i], h[i].key, h[i].read)
  {
    ObeysPrefix(r, h, i);
  }

  /** In every history the rule produces, every half-open interval of the length of a key's window holds
      at most `limit` allowed calls of that key. */
  lemma {:induction false} WindowNeverExceeded(r: Rules, h: seq<Call>, key: string, lo: int)
    requires Obeys(r, h)
    ensures AllowedBetween(h, key, lo, lo + r.window(key)) <= if r.limit(key) > 0 then r.limit(key) else 0
  {
    if h != [] {
      var n := |h| - 1;
      var last := h[n];
      CallObeys(r, h, n);
      hide Obeys;
      WindowNeverExceeded(r, h[..n], key, lo);
      if last.key == key && last.allowed && lo < last.at <= lo + r.window(key) {
        BetweenIsSince(h[..n], key, lo, lo + r.window(key));
        SinceMonotone(h[..n], key, last.read - r.window(key), lo);
      }
    }
  }

  /** The calls of its key that were allowed in the window that ends at call `i`. */
  function InWindowBefore(r: Rules, h: seq<Call>, i: nat): nat
    requires i < |h|
  {
    AllowedBetween(h[..i], h[i].key, h[i].read - r.window(h[i].key), h[i].read)
  }

  /** A call is refused exactly when the window that ends at it already holds `limit` allowed calls of its
      key, and never more than that. */
  lemma RefusedExactlyWhenFull(r: Rules, h: seq<Call>, i: nat)
    requires Obeys(r, h) && i < |h|
    ensures !h[i].allowed <==> InWindowBefore(r, h, i) >= r.limit(h[i].key)
    ensures !h[i].allowed && r.limit(h[i].key) > 0 ==> InWindowBefore(r, h, i) == r.limit(h[i].key)
  {
    CallObeys(r, h, i);
    hide Obeys, AllowedBetween, Allows;
    RefusedWhenFull(r, h[..i], h[i]);
  }

  lemma RefusedWhenFull(r: Rules, before: seq<Call>, c: Call)
    requires Obeys(r, before) && (c.allowed <==> Allows(r, before, c.key, c.read))
    requires forall j :: 0 <= j < |before| ==> before[j].at <= c.read
    ensures var n := AllowedBetween(before, c.key, c.read - r.window(c.key), c.read);
            && (!c.allowed <==> n >= r.limit(c.key))
            && (!c.allowed && r.limit(c.key) > 0 ==> n == r.limit(c.key))
  {
    hide Obeys, AllowedBetween, AllowedTimes, After;
    WindowNeverExceeded(r, before, c.key, c.read - r.window(c.key));
    BetweenIsSince(before, c.key, c.read - r.window(c.key), c.read);
  }
}
