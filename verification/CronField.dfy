/** The cron fields of src/scheduler/cronexpr.go: which values a comma list of ranges selects.

    The stepping loop of the source adds 64-bit integers; a huge step makes the sum wrap to a
    negative index, which panics. That outcome is part of the model. */
module CronField {
  import opened Wrappers
  import opened Decimal
  import opened GoStrings

  // ---------------------------------------------------------------------------
  // What a part selects
  // ---------------------------------------------------------------------------

  datatype Range = Range(lo: int, hi: int, step: int)

  /** The range part and the step of `range/step`; the step is 1 if there is none. */
  function PartStep(part: string): Option<(string, int)> {
    match IndexOf(part, '/')
    case None => Some((part, 1))
    case Some(i) =>
      var n := ParseInt64(part[i + 1..]);
      if n.None? || n.value <= 0 then None else Some((part[..i], n.value))
  }

  /** `*`, `N-M` or `N`. */
  function PartBounds(rangePart: string, min: int, max: int): Option<(int, int)> {
    if rangePart == "*" then Some((min, max))
    else
      match IndexOf(rangePart, '-')
      case Some(i) =>
        var l, h := ParseInt64(rangePart[..i]), ParseInt64(rangePart[i + 1..]);
        if l.Some? && h.Some? then Some((l.value, h.value)) else None
      case None =>
        var n := ParseInt64(rangePart);
        if n.Some? then Some((n.value, n.value)) else None
  }

  /** The range a part denotes, or None where the source returns an error. */
  function PartRange(part: string, min: int, max: int): (r: Option<Range>)
    ensures r.Some? ==> min <= r.value.lo <= r.value.hi <= max && 0 < r.value.step <= MAX_INT64
  {
    match PartStep(part)
    case None => None
    case Some((rangePart, step)) =>
      match PartBounds(rangePart, min, max)
      case None => None
      case Some((lo, hi)) => if lo < min || hi > max || lo > hi then None else Some(Range(lo, hi, step))
  }

  predicate Selects(r: Range, v: int)
    requires r.step > 0
  {
    r.lo <= v <= r.hi && (v - r.lo) % r.step == 0
  }

  /** Outcome of parsing: a panic is an index out of range at run time. */
  datatype Outcome = Accepted | Rejected | Panicked

  /** The step takes the very first value past the largest 64-bit integer. */
  predicate Overflows(r: Range) {
    r.lo + r.step > MAX_INT64
  }

  function PartOutcome(part: string, min: int, max: int): Outcome {
    match PartRange(part, min, max)
    case None => Rejected
    case Some(r) => if Overflows(r) then Panicked else Accepted
  }

  /** The parts are read from the left; the first that is not accepted decides. */
  function PartsOutcome(parts: seq<string>, min: int, max: int): Outcome {
    if parts == [] then Accepted
    else
      var first := PartOutcome(parts[0], min, max);
      if first.Accepted? then PartsOutcome(parts[1..], min, max) else first
  }

  ghost predicate PartsSelect(parts: seq<string>, min: int, max: int, v: int) {
    exists i :: 0 <= i < |parts| && PartSelects(parts[i], min, max, v)
  }

  predicate PartSelects(part: string, min: int, max: int, v: int) {
    var r := PartRange(part, min, max);
    r.Some? && Selects(r.value, v)
  }

  lemma StepPart(rangePart: string, n: nat)
    requires '/' !in rangePart && 0 < n <= MAX_INT64
    ensures PartStep(rangePart + ['/'] + PrintInt(n)) == Some((rangePart, n))
  {
    ParsePrintInt(n);
    var digits := PrintInt(n);
    hide PrintInt, ParseInt64, IndexOf;
    IndexOfExact(rangePart, '/', digits);
    var part := rangePart + ['/'] + digits;
    assert part[..|rangePart|] == rangePart && part[|rangePart| + 1..] == digits;
  }

  lemma OneToFive()
    ensures PartBounds("1-5", 0, 59) == Some((1, 5))
  {
    ParsePrintInt(1);
    ParsePrintInt(5);
    assert PrintInt(1) == "1" && PrintInt(5) == "5";
    hide PrintInt, ParseInt64;
    IndexOfExact("1", '-', "5");
    hide IndexOf;
    assert "1" + ['-'] + "5" == "1-5" && "1-5"[..1] == "1" && "1-5"[2..] == "5";
  }

  /** The largest step there is: `1-5/9223372036854775807` is in range and makes the loop panic. */
  lemma HugeStepPanics()
    ensures "1-5" + ['/'] + PrintInt(MAX_INT64) == "1-5/9223372036854775807"
    ensures PartOutcome("1-5/9223372036854775807", 0, 59).Panicked?
  {
    hide PartStep, PartBounds, PrintInt;
    StepPart("1-5", MAX_INT64);
    OneToFive();
    LargestPrinted();
  }

  const LARGEST: seq<nat> := [9, 2, 2, 3, 3, 7, 2, 0, 3, 6, 8, 5, 4, 7, 7, 5, 8, 0, 7]

  lemma LargestDigits()
    ensures Digits(LARGEST, 19) == MAX_INT64
  {
    var ds := LARGEST;
    assert Digits(ds, 3) == 922;
    assert Digits(ds, 6) == 922337;
    assert Digits(ds, 9) == 922337203;
    assert Digits(ds, 12) == 922337203685;
    assert Digits(ds, 15) == 922337203685477;
    assert Digits(ds, 18) == 922337203685477580;
  }

  lemma LargestPrinted()
    ensures PrintInt(MAX_INT64) == "9223372036854775807"
  {
    hide PrintNat, Digits;
    LargestDigits();
    PrintDigits(LARGEST, 19);
    assert DigitChars(LARGEST) == "9223372036854775807";
  }

  // ---------------------------------------------------------------------------
  // The loops
  // ---------------------------------------------------------------------------

  /** Addition of Go's `int`. */
  function Add64(a: int, b: int): int {
    (a + b - MIN_INT64) % 0x1_0000_0000_0000_0000 + MIN_INT64
  }

  lemma Add64Exact(a: int, b: int)
    requires 0 <= a < 0x4000_0000_0000_0000 && 0 < b <= MAX_INT64
    ensures a + b <= MAX_INT64 ==> Add64(a, b) == a + b
    ensures a + b > MAX_INT64 ==> Add64(a, b) < 0
  {
  }

  lemma NoneBetween(lo: int, step: int, v: int, x: int)
    requires step > 0 && (v - lo) % step == 0 && v < x < v + step
    ensures (x - lo) % step != 0
  {
    var q := (v - lo) / step;
    assert x - lo == q * step + (x - v);
    ModUnique(q, step, x - v);
  }

  lemma ModUnique(q: int, d: int, r: int)
    requires 0 <= r < d
    ensures (q * d + r) % d == r
  {
    var n := q * d + r;
    var q', r' := n / d, n % d;
    assert n == q' * d + r';
    assert (q - q') * d == r' - r;
    if q - q' >= 1 {
      MulAtLeast(q - q', d);
    } else if q - q' <= -1 {
      MulAtLeast(q' - q, d);
    }
  }

  lemma MulAtLeast(k: int, d: int)
    requires k >= 1 && d > 0
    ensures k * d >= d
  {
  }

  lemma NextMultiple(lo: int, step: int, v: int)
    requires step > 0 && (v - lo) % step == 0
    ensures (v + step - lo) % step == 0
  {
    var q := (v - lo) / step;
    assert v + step - lo == (q + 1) * step + 0;
    ModUnique(q + 1, step, 0);
  }

  predicate Aligned(range: Range, v: int) {
    range.step > 0 && (v - range.lo) % range.step == 0
  }

  /** One turn of the stepping loop passes exactly one selected value. */
  lemma SetBitsTurn(range: Range, v: int, next: int)
    requires range.lo <= v <= range.hi && Aligned(range, v) && next == v + range.step
    ensures Aligned(range, next)
    ensures forall x :: x < next && Selects(range, x) <==> x == v || (x < v && Selects(range, x))
  {
    forall x | v < x < next
      ensures !Selects(range, x)
    {
      NoneBetween(range.lo, range.step, v, x);
    }
    NextMultiple(range.lo, range.step, v);
  }

  /** The range and the step of one part, if they are in range. */
  method ReadPart(part: string, min: int, max: int) returns (r: Option<Range>)
    ensures r == PartRange(part, min, max)
  {
    hide IndexOf, ParseInt64;
    var step := 1;
    var rangePart := part;
    var idx := IndexOf(part, '/');
    if idx.Some? {
      rangePart := part[..idx.value];
      var n := ParseInt64(part[idx.value + 1..]);
      if n.None? || n.value <= 0 {
        return None;
      }
      step := n.value;
    }
    var bounds := PartBounds(rangePart, min, max);
    if bounds.None? {
      return None;
    }
    var (lo, hi) := bounds.value;
    if lo < min || hi > max || lo > hi {
      return None;
    }
    return Some(Range(lo, hi, step));
  }

  /** Sets the bits one part selects. */
  method ParseCronRange(part: string, min: int, max: int, bits: array<bool>) returns (r: Outcome)
    requires 0 <= min && max < 0x4000_0000_0000_0000
    modifies bits
    ensures r == PartOutcome(part, min, max)
    ensures r.Accepted? ==>
              forall v :: 0 <= v < bits.Length ==> (bits[v] <==> old(bits[v]) || PartSelects(part, min, max, v))
  {
    hide PartRange, Selects;
    var range := ReadPart(part, min, max);
    if range.None? {
      return Rejected;
    }
    r := SetBits(range.value, bits);
  }

  /** The stepping loop. */
  method SetBits(range: Range, bits: array<bool>) returns (r: Outcome)
    requires 0 <= range.lo <= range.hi < 0x4000_0000_0000_0000 && 0 < range.step <= MAX_INT64
    modifies bits
    ensures r == if Overflows(range) then Panicked else Accepted
    ensures r.Accepted? ==> forall v :: 0 <= v < bits.Length ==> (bits[v] <==> old(bits[v]) || Selects(range, v))
  {
    hide Selects, Add64, Aligned;
    var v := range.lo;
    SetBitsStart(range);
    while v <= range.hi
      invariant range.lo <= v
      invariant v == range.lo || v >= range.lo + range.step
      invariant v > range.lo ==> !Overflows(range)
      invariant Aligned(range, v)
      invariant forall x :: 0 <= x < bits.Length ==> (bits[x] <==> old(bits[x]) || (x < v && Selects(range, x)))
      decreases range.hi - v
    {
      if v < bits.Length {
        bits[v] := true;
      }
      Add64Exact(v, range.step);
      var next := Add64(v, range.step);
      if next < 0 {
        return Panicked;
      }
      SetBitsTurn(range, v, next);
      v := next;
    }
    SetBitsEnd(range, v);
    return Accepted;
  }

  lemma SetBitsStart(range: Range)
    requires range.step > 0
    ensures Aligned(range, range.lo) && forall x :: x < range.lo ==> !Selects(range, x)
  {
  }

  lemma SetBitsEnd(range: Range, v: int)
    requires range.step > 0 && range.hi < v
    ensures forall x :: x >= v ==> !Selects(range, x)
  {
  }

  /** Sets the bits a comma list selects; stops at the first part that is not accepted. */
  method ParseCronField(field: string, min: int, max: int, bits: array<bool>) returns (r: Outcome)
    requires 0 <= min && max < 0x4000_0000_0000_0000
    modifies bits
    ensures r == PartsOutcome(Split(field, ','), min, max)
    ensures r.Accepted? ==>
              forall v :: 0 <= v < bits.Length ==>
                (bits[v] <==> old(bits[v]) || PartsSelect(Split(field, ','), min, max, v))
  {
    hide PartOutcome, PartSelects;
    var parts := Split(field, ',');
    var i := 0;
    while i < |parts|
      invariant 0 <= i <= |parts|
      invariant PartsOutcome(parts, min, max) == PartsOutcome(parts[i..], min, max)
      invariant forall v :: 0 <= v < bits.Length ==> (bits[v] <==> old(bits[v]) || PartsSelect(parts[..i], min, max, v))
    {
      r := ParseCronRange(parts[i], min, max, bits);
      if !r.Accepted? {
        return r;
      }
      forall v
        ensures PartsSelect(parts[..i + 1], min, max, v) <==>
                PartsSelect(parts[..i], min, max, v) || PartSelects(parts[i], min, max, v)
      {
        SelectSnoc(parts, i, min, max, v);
      }
      assert parts[i..][1..] == parts[i + 1..];
      i := i + 1;
    }
    assert parts[..i] == parts && parts[i..] == [];
    return Accepted;
  }

  lemma SelectSnoc(parts: seq<string>, i: nat, min: int, max: int, v: int)
    requires i < |parts|
    ensures PartsSelect(parts[..i + 1], min, max, v) <==>
            PartsSelect(parts[..i], min, max, v) || PartSelects(parts[i], min, max, v)
  {
    hide PartSelects;
    var p := parts[..i + 1];
    assert forall j :: 0 <= j < i ==> p[j] == parts[..i][j];
    assert p[i] == parts[i];
  }

  // ---------------------------------------------------------------------------
  // Properties of fields
  // ---------------------------------------------------------------------------

  /** An accepted field selects something, and only values of its interval. */
  lemma AcceptedFieldNonEmpty(field: string, min: int, max: int)
    requires PartsOutcome(Split(field, ','), min, max).Accepted?
    ensures exists v :: min <= v <= max && PartsSelect(Split(field, ','), min, max, v)
    ensures forall v :: PartsSelect(Split(field, ','), min, max, v) ==> min <= v <= max
  {
    var parts := Split(field, ',');
    var r := PartRange(parts[0], min, max).value;
    assert PartSelects(parts[0], min, max, r.lo);
    assert PartsSelect(parts, min, max, r.lo);
  }

  /** A field panics exactly when all parts before some part are accepted and that part is in range
      with a step that overflows; with bounds below 2^62 such a step exceeds 2^62. */
  lemma {:induction false} PanicsExactly(parts: seq<string>, min: int, max: int)
    requires 0 <= min
    ensures PartsOutcome(parts, min, max).Panicked? <==>
            exists i :: 0 <= i < |parts| && PanicsAt(parts, i, min, max)
  {
    if parts != [] {
      PanicsExactly(parts[1..], min, max);
      var rest := parts[1..];
      if i :| 0 <= i < |rest| && PanicsAt(rest, i, min, max) {
        if PartOutcome(parts[0], min, max).Accepted? {
          assert PanicsAt(parts, i + 1, min, max) by {
            assert forall j :: 1 <= j <= i ==> parts[j] == rest[j - 1];
          }
        }
      }
      if i :| 0 <= i < |parts| && PanicsAt(parts, i, min, max) {
        if i > 0 {
          assert PanicsAt(rest, i - 1, min, max);
        }
      } else if PartOutcome(parts[0], min, max).Panicked? {
        assert PanicsAt(parts, 0, min, max);
      }
    }
  }

  ghost predicate PanicsAt(parts: seq<string>, i: nat, min: int, max: int)
    requires i < |parts|
  {
    && (forall j :: 0 <= j < i ==> PartOutcome(parts[j], min, max).Accepted?)
    && PartRange(parts[i], min, max).Some? && Overflows(PartRange(parts[i], min, max).value)
  }

  function PrintValues(values: seq<nat>): seq<string> {
    if values == [] then [] else [PrintInt(values[0])] + PrintValues(values[1..])
  }

  lemma PrintedValue(v: nat, min: int, max: int)
    requires 0 <= min <= v <= max < MAX_INT64
    ensures PartOutcome(PrintInt(v), min, max).Accepted? && ',' !in PrintInt(v)
    ensures forall x :: PartSelects(PrintInt(v), min, max, x) <==> x == v
  {
    var s := PrintInt(v);
    ParsePrintInt(v);
    assert AllDigits(s);
    assert '/' !in s && '-' !in s && ',' !in s && s[0] != '*';
    assert PartStep(s) == Some((s, 1));
    assert PartRange(s, min, max) == Some(Range(v, v, 1));
  }

  lemma {:induction false} PrintedParts(values: seq<nat>, min: int, max: int)
    requires 0 <= min && max < MAX_INT64 && forall i :: 0 <= i < |values| ==> min <= values[i] <= max
    ensures var parts := PrintValues(values);
            && |parts| == |values| && PartsOutcome(parts, min, max).Accepted?
            && (forall i :: 0 <= i < |parts| ==> ',' !in parts[i])
    ensures forall x :: PartsSelect(PrintValues(values), min, max, x) <==> x in values
  {
    if values != [] {
      hide PartSelects, PartOutcome, PartsSelect, PrintInt;
      PrintedValue(values[0], min, max);
      PrintedParts(values[1..], min, max);
      var parts := PrintValues(values);
      assert parts[1..] == PrintValues(values[1..]);
      forall x
        ensures PartsSelect(parts, min, max, x) <==> x in values
      {
        SelectCons(parts, min, max, x);
        InCons(values, x);
      }
    }
  }

  lemma InCons(values: seq<nat>, x: int)
    requires values != []
    ensures x in values <==> x == values[0] || x in values[1..]
  {
    assert values == [values[0]] + values[1..];
  }

  lemma SelectCons(parts: seq<string>, min: int, max: int, v: int)
    requires parts != []
    ensures PartsSelect(parts, min, max, v) <==>
            PartSelects(parts[0], min, max, v) || PartsSelect(parts[1..], min, max, v)
  {
    hide PartSelects;
    assert forall j :: 1 <= j < |parts| ==> parts[j] == parts[1..][j - 1];
  }

  /** Any non-empty list of values in range, printed as a comma list, parses back to those values. */
  lemma FieldRoundTrip(values: seq<nat>, min: int, max: int)
    requires values != [] && 0 <= min && max < MAX_INT64
    requires forall i :: 0 <= i < |values| ==> min <= values[i] <= max
    ensures var field := Join(PrintValues(values), ',');
            PartsOutcome(Split(field, ','), min, max).Accepted? &&
            forall v :: PartsSelect(Split(field, ','), min, max, v) <==> v in values
  {
    PrintedParts(values, min, max);
    SplitJoin(PrintValues(values), ',');
  }
}
