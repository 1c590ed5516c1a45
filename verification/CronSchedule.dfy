/** Cron schedules of src/scheduler/cronexpr.go: parsing an expression and finding the next match.

    Times are nanoseconds since the zero of Go's clock, 1 January of year 1 UTC. A time zone is a
    function from whole minutes since then to civil fields. */
module CronSchedule {
  import opened Wrappers
  import opened GoStrings
  import opened CronField

  // ---------------------------------------------------------------------------
  // Schedules
  // ---------------------------------------------------------------------------

  /** `@every d`, or one bit per value of each of the five fields, indexed by the value itself. */
  datatype Schedule =
    | Every(d: nat)
    | Fields(minutes: seq<bool>, hours: seq<bool>, days: seq<bool>, months: seq<bool>, weekdays: seq<bool>)

  predicate Shaped(s: Schedule) {
    match s
    case Every(d) => d > 0
    case Fields(mi, h, d, mo, w) => |mi| == 60 && |h| == 24 && |d| == 32 && |mo| == 13 && |w| == 7
  }

  predicate InField(bits: seq<bool>, v: int) {
    0 <= v < |bits| && bits[v]
  }

  /** Bit `v` is set exactly when the field text selects `v`. */
  ghost predicate ReadsField(bits: seq<bool>, field: string, min: int, max: int) {
    && PartsOutcome(Split(field, ','), min, max).Accepted?
    && forall v :: 0 <= v < |bits| ==> (bits[v] <==> PartsSelect(Split(field, ','), min, max, v))
  }

  /** The schedule holds exactly what the five fields select. */
  ghost predicate ReadsFields(s: Schedule, fields: seq<string>)
    requires |fields| == 5
  {
    && s.Fields? && Shaped(s)
    && ReadsField(s.minutes, fields[0], 0, 59) && ReadsField(s.hours, fields[1], 0, 23)
    && ReadsField(s.days, fields[2], 1, 31) && ReadsField(s.months, fields[3], 1, 12)
    && ReadsField(s.weekdays, fields[4], 0, 6)
  }

  /** Which field decides the outcome: they are read in order up to the first that is not accepted. */
  function FieldsOutcome(fields: seq<string>): Outcome
    requires |fields| == 5
  {
    var minute, hour := PartsOutcome(Split(fields[0], ','), 0, 59), PartsOutcome(Split(fields[1], ','), 0, 23);
    var day, month := PartsOutcome(Split(fields[2], ','), 1, 31), PartsOutcome(Split(fields[3], ','), 1, 12);
    var weekday := PartsOutcome(Split(fields[4], ','), 0, 6);
    if !minute.Accepted? then minute
    else if !hour.Accepted? then hour
    else if !day.Accepted? then day
    else if !month.Accepted? then month
    else weekday
  }

  datatype Parsed = Parsed(schedule: Schedule) | Invalid | Crash

  /** The five-field form. */
  method ParseFiveFields(fields: seq<string>) returns (r: Parsed)
    requires |fields| == 5
    ensures r.Parsed? <==> FieldsOutcome(fields).Accepted?
    ensures r.Crash? <==> FieldsOutcome(fields).Panicked?
    ensures r.Parsed? ==> ReadsFields(r.schedule, fields)
  {
    hide PartsOutcome, Split, ReadsField;
    var minutes, hours, days, months, weekdays;
    var o;
    o, minutes := FieldBits(fields[0], 0, 59, 60);
    if !o.Accepted? { return Failed(o); }
    o, hours := FieldBits(fields[1], 0, 23, 24);
    if !o.Accepted? { return Failed(o); }
    o, days := FieldBits(fields[2], 1, 31, 32);
    if !o.Accepted? { return Failed(o); }
    o, months := FieldBits(fields[3], 1, 12, 13);
    if !o.Accepted? { return Failed(o); }
    o, weekdays := FieldBits(fields[4], 0, 6, 7);
    if !o.Accepted? { return Failed(o); }
    return Parsed(Fields(minutes, hours, days, months, weekdays));
  }

  /** One field, read into a fresh bit array. */
  method FieldBits(field: string, min: int, max: int, size: nat) returns (o: Outcome, bits: seq<bool>)
    requires 0 <= min && max < 60
    ensures o == PartsOutcome(Split(field, ','), min, max)
    ensures o.Accepted? ==> |bits| == size && ReadsField(bits, field, min, max)
  {
    hide PartsOutcome, PartsSelect, Split;
    var a := new bool[size](_ => false);
    o := ParseCronField(field, min, max, a);
    bits := a[..];
  }

  function Failed(o: Outcome): Parsed {
    if o.Panicked? then Crash else Invalid
  }

  // ---------------------------------------------------------------------------
  // Whole expressions
  // ---------------------------------------------------------------------------

  /** `unicode.IsSpace`. */
  predicate IsSpace(c: char) {
    || c == ' ' || ('\t' <= c <= '\r')
    || c == '\U{85}' || c == '\U{A0}' || c == '\U{1680}' || ('\U{2000}' <= c <= '\U{200A}')
    || c == '\U{2028}' || c == '\U{2029}' || c == '\U{202F}' || c == '\U{205F}' || c == '\U{3000}'
  }

  function TrimLeft(s: string): string {
    if s != [] && IsSpace(s[0]) then TrimLeft(s[1..]) else s
  }

  function TrimRight(s: string): string {
    if s != [] && IsSpace(s[|s| - 1]) then TrimRight(s[..|s| - 1]) else s
  }

  function WordLength(s: string): (n: nat)
    ensures n <= |s|
    ensures s != [] && !IsSpace(s[0]) ==> n > 0
  {
    if s != [] && !IsSpace(s[0]) then 1 + WordLength(s[1..]) else 0
  }

  /** `strings.Fields`: the maximal runs of non-space characters. */
  function Words(s: string): seq<string> {
    if s == [] then []
    else if IsSpace(s[0]) then Words(s[1..])
    else [s[..WordLength(s)]] + Words(s[WordLength(s)..])
  }

  const EVERY := "@every "

  /** The five fields a shorthand or a plain expression stands for. */
  function ExpandedFields(expr: string): seq<string> {
    if expr == "@hourly" then ["0", "*", "*", "*", "*"]
    else if expr == "@daily" || expr == "@midnight" then ["0", "0", "*", "*", "*"]
    else if expr == "@weekly" then ["0", "0", "*", "*", "0"]
    else if expr == "@monthly" then ["0", "0", "1", "*", "*"]
    else Words(expr)
  }

  /** Whether an expression is accepted; `parseDuration` is the library's, in nanoseconds. */
  function ExprOutcome(text: string, parseDuration: string -> Option<int>): Outcome {
    var expr := TrimRight(TrimLeft(text));
    if EVERY <= expr then
      var d := parseDuration(TrimRight(TrimLeft(expr[|EVERY|..])));
      if d.Some? && d.value > 0 then Accepted else Rejected
    else
      var fields := ExpandedFields(expr);
      if |fields| != 5 then Rejected else FieldsOutcome(fields)
  }

  /** The schedule is the one an accepted expression denotes. */
  ghost predicate ReadsExpr(s: Schedule, text: string, parseDuration: string -> Option<int>) {
    var expr := TrimRight(TrimLeft(text));
    if EVERY <= expr then
      var d := parseDuration(TrimRight(TrimLeft(expr[|EVERY|..])));
      d.Some? && d.value > 0 && s == Every(d.value)
    else
      var fields := ExpandedFields(expr);
      |fields| == 5 && ReadsFields(s, fields)
  }

  method ParseCronSchedule(text: string, parseDuration: string -> Option<int>) returns (r: Parsed)
    ensures r.Parsed? <==> ExprOutcome(text, parseDuration).Accepted?
    ensures r.Crash? <==> ExprOutcome(text, parseDuration).Panicked?
    ensures r.Parsed? ==> Shaped(r.schedule) && ReadsExpr(r.schedule, text, parseDuration)
  {
    hide FieldsOutcome, ExpandedFields, TrimLeft, TrimRight;
    var expr := TrimRight(TrimLeft(text));
    if EVERY <= expr {
      var d := parseDuration(TrimRight(TrimLeft(expr[|EVERY|..])));
      if d.None? || d.value <= 0 {
        return Invalid;
      }
      return Parsed(Every(d.value));
    }
    var fields := ExpandedFields(expr);
    if |fields| != 5 {
      return Invalid;
    }
    r := ParseFiveFields(fields);
  }

  /** A parsed field selects something. */
  lemma ReadFieldNonEmpty(bits: seq<bool>, field: string, min: int, max: int)
    requires ReadsField(bits, field, min, max) && 0 <= min && max < |bits|
    ensures exists v :: min <= v <= max && InField(bits, v)
    ensures forall v :: InField(bits, v) ==> min <= v <= max
  {
    AcceptedFieldNonEmpty(field, min, max);
    var v :| min <= v <= max && PartsSelect(Split(field, ','), min, max, v);
    assert InField(bits, v);
  }

  // ---------------------------------------------------------------------------
  // The next match
  // ---------------------------------------------------------------------------

  datatype CivilFields = CivilFields(minute: nat, hour: nat, day: nat, month: nat, weekday: nat)

  type Civil = c: CivilFields | c.minute < 60 && c.hour < 24 && 1 <= c.day <= 31 && 1 <= c.month <= 12 && c.weekday < 7
    witness CivilFields(0, 0, 1, 1, 1)

  type Zone = nat -> Civil

  const MINUTE: nat := 60_000_000_000
  const SCAN: nat := 366 * 24 * 60 + 1

  predicate Matches(s: Schedule, c: Civil) {
    s.Fields? && InField(s.minutes, c.minute) && InField(s.hours, c.hour) && InField(s.days, c.day) &&
    InField(s.months, c.month) && InField(s.weekdays, c.weekday)
  }

  /** The first of the `n` minutes from `m` on that matches. */
  function FirstMatch(s: Schedule, zone: Zone, m: nat, n: nat): (r: Option<nat>)
    ensures r.Some? ==> m <= r.value < m + n && Matches(s, zone(r.value)) &&
                        forall k :: m <= k < r.value ==> !Matches(s, zone(k))
    ensures r.None? ==> forall k :: m <= k < m + n ==> !Matches(s, zone(k))
    decreases n
  {
    if n == 0 then None
    else if Matches(s, zone(m)) then Some(m)
    else FirstMatch(s, zone, m + 1, n - 1)
  }

  /** The first whole minute strictly after `from`. */
  function NextMinute(from: nat): nat {
    from / MINUTE + 1
  }

  function NextTime(s: Schedule, from: nat, zone: Zone): nat {
    match s
    case Every(d) => from + d
    case Fields(_, _, _, _, _) =>
      match FirstMatch(s, zone, NextMinute(from), SCAN)
      case Some(m) => m * MINUTE
      case None => from + MINUTE
  }

  lemma ScanTurn(s: Schedule, zone: Zone, m: nat, n: nat)
    ensures n == 0 ==> FirstMatch(s, zone, m, n) == None
    ensures n > 0 && Matches(s, zone(m)) ==> FirstMatch(s, zone, m, n) == Some(m)
    ensures n > 0 && !Matches(s, zone(m)) ==> FirstMatch(s, zone, m, n) == FirstMatch(s, zone, m + 1, n - 1)
  {
  }

  /** The scanning loop: the first matching minute from `start`, if the scan finds one. */
  method ScanMinutes(s: Schedule, start: nat, zone: Zone) returns (r: Option<nat>)
    ensures r == FirstMatch(s, zone, start, SCAN)
  {
    hide FirstMatch, Matches;
    var m := start;
    var i := 0;
    while i < SCAN
      invariant 0 <= i <= SCAN && m == start + i
      invariant FirstMatch(s, zone, start, SCAN) == FirstMatch(s, zone, m, SCAN - i)
    {
      ScanTurn(s, zone, m, SCAN - i);
      if Matches(s, zone(m)) {
        return Some(m);
      }
      m := m + 1;
      i := i + 1;
    }
    ScanTurn(s, zone, m, 0);
    return None;
  }

  method Next(s: Schedule, from: nat, zone: Zone) returns (t: nat)
    requires Shaped(s)
    ensures t == NextTime(s, from, zone)
  {
    if s.Every? {
      return from + s.d;
    }
    var m := ScanMinutes(s, NextMinute(from), zone);
    t := if m.Some? then m.value * MINUTE else from + MINUTE;
  }

  ghost predicate MatchingMinute(s: Schedule, zone: Zone, t: nat) {
    t % 60_000_000_000 == 0 && Matches(s, zone(t / 60_000_000_000))
  }

  /** The instants the scan looks at: the whole minutes of 366 days and the one after them. */
  predicate InScan(from: nat, t: nat) {
    from < t && t % 60_000_000_000 == 0 && t / 60_000_000_000 - from / 60_000_000_000 <= 366 * 1440 + 1
  }

  lemma InScanMinutes(from: nat, t: nat)
    requires t % MINUTE == 0
    ensures InScan(from, t) <==> NextMinute(from) <= t / MINUTE < NextMinute(from) + SCAN
  {
  }

  /** Next is the least match: `t` is returned exactly when it is a matching whole minute strictly
      after `from` with no match in between, or nothing in the scan matches and `t` is one minute later. */
  lemma NextIsLeastMatch(s: Schedule, from: nat, zone: Zone, t: nat)
    requires s.Fields?
    ensures t == NextTime(s, from, zone) <==>
            if exists x: nat :: InScan(from, x) && MatchingMinute(s, zone, x) then
              InScan(from, t) && MatchingMinute(s, zone, t) &&
              forall x: nat :: InScan(from, x) && x < t ==> !MatchingMinute(s, zone, x)
            else t == from + 60_000_000_000
  {
    var r := FirstMatch(s, zone, NextMinute(from), SCAN);
    if r.Some? {
      var y := r.value * MINUTE;
      MinuteMark(r.value);
      InScanMinutes(from, y);
      assert InScan(from, y) && MatchingMinute(s, zone, y);
      forall x: nat | InScan(from, x) && MatchingMinute(s, zone, x)
        ensures y <= x
      {
        InScanMinutes(from, x);
        assert r.value <= x / MINUTE;
      }
    } else {
      forall x: nat | InScan(from, x)
        ensures !MatchingMinute(s, zone, x)
      {
        InScanMinutes(from, x);
      }
    }
  }

  /** Whatever the zone and the schedule, the next run is strictly later. */
  lemma NextIsLater(s: Schedule, from: nat, zone: Zone)
    requires Shaped(s)
    ensures NextTime(s, from, zone) > from
  {
  }

  lemma MinuteMark(m: nat)
    ensures m * MINUTE % MINUTE == 0 && m * MINUTE / MINUTE == m
  {
  }
}
