/** What cron expressions mean: which values a part selects, how the fields of an expression are told apart, what
    the shorthands stand for, and when the usual schedules fire. */
module CronMeaning {
  import opened Wrappers
  import opened Decimal
  import opened GoStrings
  import opened CronField
  import opened CronSchedule
  import opened CronUtc
  import opened Calendar

  // ---------------------------------------------------------------------------
  // One part
  // ---------------------------------------------------------------------------

  lemma NoIndex(s: string, c: char)
    requires c !in s
    ensures IndexOf(s, c) == None
  {
  }

  /** A part that is in range selects lo, lo + step, ... up to hi, or panics when the very first addition passes
      the largest 64-bit integer. */
  lemma PartMeans(part: string, min: int, max: int, lo: int, hi: int, step: int, v: int)
    requires PartRange(part, min, max) == Some(Range(lo, hi, step))
    ensures PartOutcome(part, min, max) == if lo + step >= 0x8000_0000_0000_0000 then Panicked else Accepted
    ensures PartSelects(part, min, max, v) <==> lo <= v <= hi && (v - lo) % step == 0
  {
    hide PartRange;
  }

  lemma RejectedPart(part: string, min: int, max: int, v: int)
    requires PartRange(part, min, max) == None
    ensures PartOutcome(part, min, max) == Rejected && !PartSelects(part, min, max, v)
  {
    hide PartRange;
  }

  /** `*` spans the whole interval. */
  lemma StarRange(min: int, max: int)
    requires min <= max
    ensures PartRange("*", min, max) == Some(Range(min, max, 1))
  {
    NoIndex("*", '/');
  }

  /** A number is in range if it is read and lies in the interval. */
  lemma NumberRange(text: string, min: int, max: int)
    requires '/' !in text && '-' !in text && text != "*"
    ensures PartRange(text, min, max) ==
            match ParseInt64(text)
            case Some(n) => if min <= n <= max then Some(Range(n, n, 1)) else None
            case None => None
  {
    hide ParseInt64;
    NoIndex(text, '/');
    NoIndex(text, '-');
  }

  /** Two numbers with a dash between them. */
  lemma IntervalRange(a: string, b: string, min: int, max: int)
    requires '/' !in a && '-' !in a && '/' !in b
    ensures PartRange(a + ['-'] + b, min, max) ==
            match (ParseInt64(a), ParseInt64(b))
            case (Some(l), Some(h)) => if min <= l <= h <= max then Some(Range(l, h, 1)) else None
            case _ => None
  {
    hide ParseInt64, IndexOf;
    var text := a + ['-'] + b;
    NoIndex(text, '/');
    IndexOfExact(a, '-', b);
    assert text[..|a|] == a && text[|a| + 1..] == b;
    assert text != "*" by { assert '-' in text; }
  }

  /** After a slash comes the step, a positive number. */
  lemma StepRange(body: string, k: string, min: int, max: int)
    requires '/' !in body
    ensures PartRange(body + ['/'] + k, min, max) ==
            match (PartRange(body, min, max), ParseInt64(k))
            case (Some(r), Some(n)) => if n > 0 then Some(Range(r.lo, r.hi, n)) else None
            case _ => None
  {
    hide ParseInt64, IndexOf, PartBounds;
    var text := body + ['/'] + k;
    NoIndex(body, '/');
    IndexOfExact(body, '/', k);
    assert text[..|body|] == body && text[|body| + 1..] == k;
  }

  lemma {:induction false} PrintedDigits(n: nat)
    ensures '-' !in PrintInt(n) && '/' !in PrintInt(n) && ',' !in PrintInt(n) && PrintInt(n) != "*"
  {
    assert AllDigits(PrintInt(n));
    assert IsDigit(PrintInt(n)[0]) && !IsDigit('*');
  }

  // `N-M/k` and `N-M`, printed and read back, select just the values they name; they are accepted exactly when
  // they lie in the interval and the step does not pass 64 bits.
  lemma IntervalPart(lo: nat, hi: nat, k: nat, min: int, max: int, v: int)
    requires 0 <= min && max < MAX_INT64 && 0 < k <= MAX_INT64 && lo <= MAX_INT64 && hi <= MAX_INT64
    ensures var part := PrintInt(lo) + ['-'] + PrintInt(hi) + ['/'] + PrintInt(k);
            if min <= lo <= hi <= max then
              (PartSelects(part, min, max, v) <==> lo <= v <= hi && (v - lo) % k == 0) &&
              (PartOutcome(part, min, max).Accepted? <==> lo + k < 0x8000_0000_0000_0000)
            else PartOutcome(part, min, max).Rejected?
    ensures var part := PrintInt(lo) + ['-'] + PrintInt(hi);
            if min <= lo <= hi <= max then
              (PartSelects(part, min, max, v) <==> lo <= v <= hi) && PartOutcome(part, min, max).Accepted?
            else PartOutcome(part, min, max).Rejected?
  {
    ParsePrintInt(lo);
    ParsePrintInt(hi);
    ParsePrintInt(k);
    PrintedDigits(lo);
    PrintedDigits(hi);
    hide PartRange, ParseInt64, PrintInt;
    var body := PrintInt(lo) + ['-'] + PrintInt(hi);
    IntervalRange(PrintInt(lo), PrintInt(hi), min, max);
    StepRange(body, PrintInt(k), min, max);
    if min <= lo <= hi <= max {
      PartMeans(body, min, max, lo, hi, 1, v);
      PartMeans(body + ['/'] + PrintInt(k), min, max, lo, hi, k, v);
    } else {
      RejectedPart(body, min, max, v);
      RejectedPart(body + ['/'] + PrintInt(k), min, max, v);
    }
  }

  // A star and a star with a step.
  lemma StarPart(k: nat, min: int, max: int, v: int)
    requires 0 <= min <= max < MAX_INT64 && 0 < k <= MAX_INT64
    ensures PartOutcome("*", min, max).Accepted? && (PartSelects("*", min, max, v) <==> min <= v <= max)
    ensures var part := "*" + ['/'] + PrintInt(k);
            (PartSelects(part, min, max, v) <==> min <= v <= max && (v - min) % k == 0) &&
            (PartOutcome(part, min, max).Accepted? <==> min + k < 0x8000_0000_0000_0000)
  {
    ParsePrintInt(k);
    hide PartRange, ParseInt64, PrintInt;
    StarRange(min, max);
    StepRange("*", PrintInt(k), min, max);
    PartMeans("*", min, max, min, max, 1, v);
    PartMeans("*" + ['/'] + PrintInt(k), min, max, min, max, k, v);
  }

  /** A field without a comma is one part. */
  lemma OnePart(part: string, min: int, max: int, v: int)
    requires ',' !in part
    ensures PartsOutcome(Split(part, ','), min, max) == PartOutcome(part, min, max)
    ensures PartsSelect(Split(part, ','), min, max, v) <==> PartSelects(part, min, max, v)
  {
    hide PartOutcome, PartSelects;
    NoIndex(part, ',');
    var parts := Split(part, ',');
    assert parts == [part] && parts[1..] == [];
    assert PartsOutcome([], min, max) == Accepted;
    assert parts[0] == part;
  }

  /** The same for whole fields: `N-M`, `N-M/k` and a star with a step select just the values they name. */
  lemma StepFields(lo: nat, hi: nat, k: nat, min: int, max: int, v: int)
    requires 0 <= min <= lo <= hi <= max < 64 && 0 < k < 0x4000_0000_0000_0000
    ensures var field := PrintInt(lo) + ['-'] + PrintInt(hi);
            && PartsOutcome(Split(field, ','), min, max).Accepted?
            && (PartsSelect(Split(field, ','), min, max, v) <==> lo <= v <= hi)
    ensures var field := PrintInt(lo) + ['-'] + PrintInt(hi) + ['/'] + PrintInt(k);
            && PartsOutcome(Split(field, ','), min, max).Accepted?
            && (PartsSelect(Split(field, ','), min, max, v) <==> lo <= v <= hi && (v - lo) % k == 0)
    ensures var field := "*" + ['/'] + PrintInt(k);
            && PartsOutcome(Split(field, ','), min, max).Accepted?
            && (PartsSelect(Split(field, ','), min, max, v) <==> min <= v <= max && (v - min) % k == 0)
  {
    PrintedDigits(lo);
    PrintedDigits(hi);
    PrintedDigits(k);
    hide PartOutcome, PartSelects, PartsOutcome, PartsSelect, Split, PrintInt;
    IntervalPart(lo, hi, k, min, max, v);
    StarPart(k, min, max, v);
    OnePart(PrintInt(lo) + ['-'] + PrintInt(hi), min, max, v);
    OnePart(PrintInt(lo) + ['-'] + PrintInt(hi) + ['/'] + PrintInt(k), min, max, v);
    OnePart("*" + ['/'] + PrintInt(k), min, max, v);
  }

  /** A number as a field: accepted exactly in its interval, and then it selects itself. */
  lemma NumberPart(n: nat, min: int, max: int, v: int)
    requires 0 <= min && max < MAX_INT64 && n <= MAX_INT64
    ensures PartOutcome(PrintInt(n), min, max) == if min <= n <= max then Accepted else Rejected
    ensures PartSelects(PrintInt(n), min, max, v) <==> min <= n <= max && v == n
  {
    ParsePrintInt(n);
    PrintedDigits(n);
    hide PartRange, ParseInt64, PrintInt;
    NumberRange(PrintInt(n), min, max);
    if min <= n <= max {
      PartMeans(PrintInt(n), min, max, n, n, 1, v);
    } else {
      RejectedPart(PrintInt(n), min, max, v);
    }
  }

  // ---------------------------------------------------------------------------
  // Five fields
  // ---------------------------------------------------------------------------

  /** Five fields are accepted when minute, hour, day of the month, month and day of the week each are, in their
      intervals. */
  lemma FieldsAccepted(fields: seq<string>)
    requires |fields| == 5
    ensures FieldsOutcome(fields).Accepted? <==>
            && PartsOutcome(Split(fields[0], ','), 0, 59).Accepted?
            && PartsOutcome(Split(fields[1], ','), 0, 23).Accepted?
            && PartsOutcome(Split(fields[2], ','), 1, 31).Accepted?
            && PartsOutcome(Split(fields[3], ','), 1, 12).Accepted?
            && PartsOutcome(Split(fields[4], ','), 0, 6).Accepted?
  {
    hide PartsOutcome, Split;
  }

  /** A schedule read from five fields matches the civil times whose minute, hour, day, month and weekday are
      selected by the fields in this order. */
  lemma FieldsMean(s: Schedule, fields: seq<string>, c: Civil)
    requires |fields| == 5 && ReadsFields(s, fields)
    ensures Matches(s, c) <==>
            && PartsSelect(Split(fields[0], ','), 0, 59, c.minute) && PartsSelect(Split(fields[1], ','), 0, 23, c.hour)
            && PartsSelect(Split(fields[2], ','), 1, 31, c.day) && PartsSelect(Split(fields[3], ','), 1, 12, c.month)
            && PartsSelect(Split(fields[4], ','), 0, 6, c.weekday)
  {
    hide PartsSelect, PartsOutcome, Split;
  }

  lemma StarMeans(min: int, max: int, v: int)
    requires 0 <= min <= max < MAX_INT64
    ensures PartsOutcome(Split("*", ','), min, max).Accepted?
    ensures PartsSelect(Split("*", ','), min, max, v) <==> min <= v <= max
  {
    hide PartOutcome, PartSelects, PartsOutcome, PartsSelect, Split, PrintInt;
    OnePart("*", min, max, v);
    StarPart(1, min, max, v);
  }

  lemma NumberMeans(n: nat, min: int, max: int, v: int)
    requires 0 <= min <= n <= max < MAX_INT64
    ensures PartsOutcome(Split(PrintInt(n), ','), min, max).Accepted?
    ensures PartsSelect(Split(PrintInt(n), ','), min, max, v) <==> v == n
  {
    PrintedDigits(n);
    hide PartOutcome, PartSelects, PartsOutcome, PartsSelect, Split, PrintInt;
    OnePart(PrintInt(n), min, max, v);
    NumberPart(n, min, max, v);
  }

  lemma DailyMeans(s: Schedule, m: nat, h: nat, c: Civil)
    requires m < 60 && h < 24 && ReadsFields(s, [PrintInt(m), PrintInt(h), "*", "*", "*"])
    ensures Matches(s, c) <==> c.minute == m && c.hour == h
  {
    hide PrintInt, Split, PartsSelect, ReadsFields, Matches;
    FieldsMean(s, [PrintInt(m), PrintInt(h), "*", "*", "*"], c);
    NumberMeans(m, 0, 59, c.minute);
    NumberMeans(h, 0, 23, c.hour);
    StarMeans(1, 31, c.day);
    StarMeans(1, 12, c.month);
    StarMeans(0, 6, c.weekday);
  }

  /** `m h * * *` is accepted, and its next run is at h:m UTC, within one day of `from`. */
  lemma DailyExpression(s: Schedule, m: nat, h: nat, from: nat)
    requires m < 60 && h < 24 && ReadsFields(s, [PrintInt(m), PrintInt(h), "*", "*", "*"])
    ensures FieldsOutcome([PrintInt(m), PrintInt(h), "*", "*", "*"]).Accepted?
    ensures var t := NextTime(s, from, Utc);
            && from < t <= from + 86_400_000_000_000 && t % 60_000_000_000 == 0
            && t / 1_000_000_000 % 86_400 == h * 3600 + m * 60
  {
    var x := NextMinuteOfDay(NextMinute(from), h, m);
    hide PrintInt, Split, PartsSelect, PartsOutcome, ReadsFields, Matches, FirstMatch;
    DailyAccepted(m, h);
    DailyMeans(s, m, h, Utc(x));
    FoundBy(s, from, x);
    var y := FirstMatch(s, Utc, NextMinute(from), SCAN).value;
    DailyMeans(s, m, h, Utc(y));
    SecondOfDay(y, h, m);
    WithinADay(from, x, y);
  }

  lemma DailyAccepted(m: nat, h: nat)
    requires m < 60 && h < 24
    ensures FieldsOutcome([PrintInt(m), PrintInt(h), "*", "*", "*"]).Accepted?
  {
    hide PrintInt, Split, PartsOutcome, PartsSelect, FieldsOutcome;
    NumberMeans(m, 0, 59, 0);
    NumberMeans(h, 0, 23, 0);
    StarMeans(1, 31, 0);
    StarMeans(1, 12, 0);
    StarMeans(0, 6, 0);
    FieldsAccepted([PrintInt(m), PrintInt(h), "*", "*", "*"]);
  }

  /** The first minute from `start` on that is h:m, and how UTC shows it. */
  lemma NextMinuteOfDay(start: nat, h: nat, m: nat) returns (x: nat)
    requires h < 24 && m < 60
    ensures start <= x < start + 1440 && Utc(x).minute == m && Utc(x).hour == h
  {
    var day, t := start / 1440, h * 60 + m;
    x := if start % 1440 <= t then day * 1440 + t else (day + 1) * 1440 + t;
    Quotient(start, 1440, day, start % 1440);
    Quotient(x, 1440, if start % 1440 <= t then day else day + 1, t);
    MinuteParts(x);
    Quotient(t, 60, h, m);
  }

  /** A match within the scan bounds the one that is found. */
  lemma FoundBy(s: Schedule, from: nat, x: nat)
    requires s.Fields? && NextMinute(from) <= x < NextMinute(from) + 1440 && Matches(s, Utc(x))
    ensures var r := FirstMatch(s, Utc, NextMinute(from), SCAN);
            && r.Some? && NextMinute(from) <= r.value <= x && Matches(s, Utc(r.value))
            && NextTime(s, from, Utc) == r.value * MINUTE
  {
    hide Matches, Utc;
  }

  lemma SecondOfDay(y: nat, h: nat, m: nat)
    requires h < 24 && m < 60 && Utc(y).minute == m && Utc(y).hour == h
    ensures y * MINUTE / 1_000_000_000 % 86_400 == h * 3600 + m * 60
  {
    var day, t := y / 1440, y % 1440;
    MinuteParts(y);
    assert t == h * 60 + m by { Quotient(t, 60, t / 60, t % 60); }
    Quotient(y, 1440, day, t);
    assert y * MINUTE / 1_000_000_000 == y * 60;
    Quotient(y * 60, 86_400, day, t * 60);
  }

  lemma WithinADay(from: nat, x: nat, y: nat)
    requires NextMinute(from) <= y <= x < NextMinute(from) + 1440
    ensures from < y * MINUTE <= from + 86_400_000_000_000 && y * MINUTE % 60_000_000_000 == 0
  {
  }

  /** The zero of Unix time, a Thursday. */
  lemma UnixEpoch()
    ensures DateOf(719162) == Date(1970, 1, 1) && Utc(719162 * 1440) == CivilFields(0, 0, 1, 1, 4)
  {
    hide DateOf;
    YearsClosedForm(1970);
    hide DaysBeforeYear;
    DateOfOrdinal(Date(1970, 1, 1));
  }

  // ---------------------------------------------------------------------------
  // Whole expressions
  // ---------------------------------------------------------------------------

  ghost predicate Word(f: string) {
    f != "" && forall i :: 0 <= i < |f| ==> !IsSpace(f[i])
  }

  lemma {:induction false} WordEnds(f: string, rest: string)
    requires (forall i :: 0 <= i < |f| ==> !IsSpace(f[i])) && (rest != "" ==> IsSpace(rest[0]))
    ensures WordLength(f + rest) == |f|
  {
    if f != "" {
      WordEnds(f[1..], rest);
      assert (f + rest)[1..] == f[1..] + rest;
    } else {
      assert f + rest == rest;
    }
  }

  lemma FirstWord(f: string, rest: string)
    requires Word(f) && (rest != "" ==> IsSpace(rest[0]))
    ensures Words(f + rest) == [f] + Words(rest)
  {
    hide IsSpace;
    WordEnds(f, rest);
    assert (f + rest)[..|f|] == f && (f + rest)[|f|..] == rest;
  }

  /** A space before a word does not matter, however many there are; one after it ends the word. */
  lemma SpacesBetween(c: char, f: string, rest: string)
    requires c == ' ' || c == '\t' || c == '\n' || c == '\r'
    ensures Words([c] + rest) == Words(rest)
    ensures Word(f) ==> Words(f + [c] + rest) == [f] + Words(rest) && Words(f) == [f]
  {
    assert ([c] + rest)[1..] == rest && IsSpace(c);
    if Word(f) {
      hide IsSpace;
      FirstWord(f, [c] + rest);
      FirstWord(f, "");
      assert f + "" == f;
      assert f + [c] + rest == f + ([c] + rest);
    }
  }

  /** Words with a space between them are told apart. */
  lemma {:induction false} WordsJoined(fields: seq<string>)
    requires fields != [] && forall i :: 0 <= i < |fields| ==> Word(fields[i])
    ensures Words(Join(fields, ' ')) == fields
  {
    if |fields| == 1 {
      FirstWord(fields[0], "");
      assert fields[0] + "" == fields[0];
    } else {
      var rest := Join(fields[1..], ' ');
      WordsJoined(fields[1..]);
      FirstWord(fields[0], [' '] + rest);
      assert fields[0] + [' '] + rest == fields[0] + ([' '] + rest);
      assert ([' '] + rest)[1..] == rest;
      assert fields == [fields[0]] + fields[1..];
    }
  }

  /** White space around an expression does not matter. */
  lemma SpacesAround(c: char, text: string)
    requires c == ' ' || c == '\t' || c == '\n' || c == '\r'
    ensures TrimRight(TrimLeft([c] + text)) == TrimRight(TrimLeft(text)) == TrimRight(TrimLeft(text + [c]))
    ensures forall pd :: ExprOutcome([c] + text, pd) == ExprOutcome(text, pd) == ExprOutcome(text + [c], pd)
    ensures forall s, pd :: ReadsExpr(s, [c] + text, pd) == ReadsExpr(s, text, pd) == ReadsExpr(s, text + [c], pd)
  {
    assert IsSpace(c);
    assert ([c] + text)[1..] == text;
    TrimEnd(c, text);
    hide TrimLeft, TrimRight, IsSpace, ExpandedFields, FieldsOutcome, ReadsFields;
  }

  lemma {:induction false} TrimEnd(c: char, text: string)
    requires IsSpace(c)
    ensures TrimRight(TrimLeft(text + [c])) == TrimRight(TrimLeft(text))
  {
    hide IsSpace;
    if text == "" {
      assert "" + [c] == [c] && [c][1..] == "";
    } else if IsSpace(text[0]) {
      TrimEnd(c, text[1..]);
      assert (text + [c])[1..] == text[1..] + [c];
    } else {
      assert (text + [c])[..|text|] == text;
    }
  }

  /** What neither begins nor ends with white space is left alone. */
  lemma Untrimmed(text: string)
    requires text != "" && !IsSpace(text[0]) && !IsSpace(text[|text| - 1])
    ensures TrimRight(TrimLeft(text)) == text
  {
  }

  /** Five words with spaces between them stand for themselves. */
  lemma ExpressionMeans(s: Schedule, fields: seq<string>, parseDuration: string -> Option<int>)
    requires |fields| == 5 && (forall i :: 0 <= i < |fields| ==> Word(fields[i])) && fields[0] != "@every"
    ensures ExprOutcome(Join(fields, ' '), parseDuration) == FieldsOutcome(fields)
    ensures ReadsExpr(s, Join(fields, ' '), parseDuration) <==> ReadsFields(s, fields)
  {
    var text := Join(fields, ' ');
    WordsJoined(fields);
    JoinedEnds(fields);
    Untrimmed(text);
    NotShorthand(fields[0], Join(fields[1..], ' '));
    hide Words, FieldsOutcome, ReadsFields, TrimLeft, TrimRight, IsSpace, Join;
  }

  /** The text `m h * * *` is accepted, and what the parser makes of it runs next at h:m UTC, within a day. */
  lemma DailyText(s: Schedule, m: nat, h: nat, from: nat, parseDuration: string -> Option<int>)
    requires m < 60 && h < 24
    ensures var text := Join([PrintInt(m), PrintInt(h), "*", "*", "*"], ' ');
            && ExprOutcome(text, parseDuration).Accepted?
            && (ReadsExpr(s, text, parseDuration) ==>
                  var t := NextTime(s, from, Utc);
                  && from < t <= from + 86_400_000_000_000 && t % 60_000_000_000 == 0
                  && t / 1_000_000_000 % 86_400 == h * 3600 + m * 60)
  {
    var fields := [PrintInt(m), PrintInt(h), "*", "*", "*"];
    PrintedWord(m);
    PrintedWord(h);
    assert Word("*");
    hide PrintInt, Word, Join, FieldsOutcome, ReadsFields, ReadsExpr, ExprOutcome, NextTime;
    ExpressionMeans(s, fields, parseDuration);
    DailyAccepted(m, h);
    if ReadsFields(s, fields) {
      DailyExpression(s, m, h, from);
    }
  }

  lemma PrintedWord(n: nat)
    ensures Word(PrintInt(n)) && PrintInt(n) != "@every"
  {
    assert AllDigits(PrintInt(n));
    assert forall c :: IsDigit(c) ==> !IsSpace(c);
    assert IsDigit(PrintInt(n)[0]);
  }

  lemma {:induction false} JoinedEnds(fields: seq<string>)
    requires fields != [] && forall i :: 0 <= i < |fields| ==> Word(fields[i])
    ensures var text := Join(fields, ' '); text != "" && !IsSpace(text[0]) && !IsSpace(text[|text| - 1])
  {
    hide IsSpace;
    if |fields| > 1 { JoinedEnds(fields[1..]); }
  }

  lemma NotShorthand(f: string, rest: string)
    requires Word(f) && f != "@every"
    ensures var text := f + [' '] + rest;
            !("@every " <= text) && text != "@hourly" && text != "@daily" && text != "@midnight" && text != "@weekly" &&
            text != "@monthly"
  {
    var text := f + [' '] + rest;
    assert text[|f|] == ' ' && IsSpace(' ');
    if "@every " <= text {
      EveryFirst(f, rest);
    }
  }

  lemma EveryFirst(f: string, rest: string)
    requires Word(f) && "@every " <= f + [' '] + rest
    ensures f == "@every"
  {
    var text := f + [' '] + rest;
    assert forall i :: 0 <= i < 7 ==> text[i] == "@every "[i];
    assert |f| == 6 by {
      assert text[|f|] == ' ' && IsSpace(text[6]);
      assert forall i :: 0 <= i < |f| ==> f[i] == text[i];
    }
    assert text[..6] == f && text[..6] == "@every";
  }

  /** `@every d` adds `d` each time, for a positive duration; other durations are rejected. */
  lemma EveryMeans(s: Schedule, t: string, parseDuration: string -> Option<int>, d: int, from: nat, zone: Zone)
    requires t != "" && !IsSpace(t[0]) && !IsSpace(t[|t| - 1])
    ensures parseDuration(t).None? || parseDuration(t).value <= 0 ==>
              ExprOutcome("@every " + t, parseDuration) == Rejected
    ensures parseDuration(t) == Some(d) && d > 0 ==>
              && ExprOutcome("@every " + t, parseDuration) == Accepted
              && (ReadsExpr(s, "@every " + t, parseDuration) ==> NextTime(s, from, zone) == from + d)
  {
    var text := "@every " + t;
    assert text[0] == '@' && text[|text| - 1] == t[|t| - 1] && !IsSpace('@');
    assert text[7..] == t && "@every " <= text;
    Untrimmed(text);
    Untrimmed(t);
    hide TrimLeft, TrimRight, IsSpace, ExpandedFields;
  }

  /** The fields that a shorthand stands for. */
  lemma ShorthandFields(s: Schedule, text: string, parseDuration: string -> Option<int>)
    requires text == "@hourly" || text == "@daily" || text == "@midnight" || text == "@weekly" || text == "@monthly"
    ensures ReadsExpr(s, text, parseDuration) <==> ReadsFields(s, ExpandedFields(text))
    ensures ExprOutcome(text, parseDuration) == FieldsOutcome(ExpandedFields(text)) && |ExpandedFields(text)| == 5
  {
    assert text[0] == '@' && text[1] != 'e' && !IsSpace('@') && !IsSpace('y') && !IsSpace('t');
    assert text[|text| - 1] == 'y' || text[|text| - 1] == 't';
    Untrimmed(text);
    assert !("@every " <= text) by { assert "@every "[1] == 'e'; }
    hide TrimLeft, TrimRight, IsSpace, FieldsOutcome, ReadsFields;
  }

  /** The shorthands are accepted and fire every hour, every day, every Sunday and every first of the month, at the
      full hour or at midnight. */
  lemma ShorthandsMean(s: Schedule, text: string, parseDuration: string -> Option<int>, c: Civil)
    requires text == "@hourly" || text == "@daily" || text == "@midnight" || text == "@weekly" || text == "@monthly"
    ensures ExprOutcome(text, parseDuration) == Accepted
    ensures ReadsExpr(s, text, parseDuration) ==>
              (Matches(s, c) <==>
                 && c.minute == 0 && (text != "@hourly" ==> c.hour == 0)
                 && (text == "@weekly" ==> c.weekday == 0) && (text == "@monthly" ==> c.day == 1))
  {
    ShorthandFields(s, text, parseDuration);
    var fields := ExpandedFields(text);
    hide ReadsExpr, ExprOutcome, ReadsFields, FieldsOutcome, Matches;
    SimpleAccepted(fields);
    if ReadsExpr(s, text, parseDuration) {
      SimpleMean(s, fields, c);
    }
  }

  /** A star, a zero or a one. */
  lemma SimpleField(field: string, min: int, max: int, v: int)
    requires 0 <= min <= 1 <= max < 60 && min <= v <= max
    requires field == "*" || (field == "0" && min == 0) || field == "1"
    ensures PartsOutcome(Split(field, ','), min, max).Accepted?
    ensures PartsSelect(Split(field, ','), min, max, v) <==> field == "*" || v == if field == "0" then 0 else 1
  {
    assert PrintInt(0) == "0" && PrintInt(1) == "1";
    hide PrintInt, Split, PartsOutcome, PartsSelect;
    if field == "*" {
      StarMeans(min, max, v);
    } else {
      NumberMeans(if field == "0" then 0 else 1, min, max, v);
    }
  }

  ghost predicate Simple(fields: seq<string>) {
    && |fields| == 5 && fields[0] == "0" && (fields[1] == "0" || fields[1] == "*")
    && (fields[2] == "1" || fields[2] == "*") && fields[3] == "*" && (fields[4] == "0" || fields[4] == "*")
  }

  lemma SimpleAccepted(fields: seq<string>)
    requires Simple(fields)
    ensures FieldsOutcome(fields).Accepted?
  {
    hide Split, PartsOutcome, PartsSelect, FieldsOutcome;
    SimpleField(fields[0], 0, 59, 0);
    SimpleField(fields[1], 0, 23, 0);
    SimpleField(fields[2], 1, 31, 1);
    SimpleField(fields[3], 1, 12, 1);
    SimpleField(fields[4], 0, 6, 0);
    FieldsAccepted(fields);
  }

  lemma SimpleMean(s: Schedule, fields: seq<string>, c: Civil)
    requires Simple(fields) && ReadsFields(s, fields)
    ensures Matches(s, c) <==>
            && c.minute == 0 && (fields[1] == "*" || c.hour == 0) && (fields[2] == "*" || c.day == 1)
            && (fields[4] == "*" || c.weekday == 0)
  {
    hide Split, PartsOutcome, PartsSelect, ReadsFields, Matches;
    SimpleField(fields[0], 0, 59, c.minute);
    SimpleField(fields[1], 0, 23, c.hour);
    SimpleField(fields[2], 1, 31, c.day);
    SimpleField(fields[3], 1, 12, c.month);
    SimpleField(fields[4], 0, 6, c.weekday);
    FieldsMean(s, fields, c);
  }
}
