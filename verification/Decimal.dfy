/** Decimal integers as `strconv.ParseInt(s, 10, 64)` and `strconv.Atoi` read them. */
module Decimal {
  import opened Wrappers

  const MIN_INT64 := -0x8000_0000_0000_0000
  const MAX_INT64 := 0x7FFF_FFFF_FFFF_FFFF

  predicate IsDigit(c: char) {
    '0' <= c <= '9'
  }

  predicate AllDigits(s: string) {
    forall i :: 0 <= i < |s| ==> IsDigit(s[i])
  }

  function DigitsValue(s: string): nat
    requires AllDigits(s)
  {
    if s == [] then 0
    else 10 * DigitsValue(s[..|s| - 1]) + (s[|s| - 1] as int - '0' as int)
  }

  /** An optional sign, at least one digit, and a value of 64 bits. */
  function ParseInt64(s: string): Option<int> {
    var signed := s != [] && (s[0] == '-' || s[0] == '+');
    var body := if signed then s[1..] else s;
    if body == [] || !AllDigits(body) then None
    else
      var n: int := if signed && s[0] == '-' then -(DigitsValue(body) as int) else DigitsValue(body);
      if MIN_INT64 <= n <= MAX_INT64 then Some(n) else None
  }

  function PrintNat(n: nat): (s: string)
    ensures s != [] && AllDigits(s)
  {
    var last := [('0' as int + n % 10) as char];
    if n < 10 then last else PrintNat(n / 10) + last
  }

  function PrintInt(n: int): (s: string)
    ensures s != []
  {
    if n < 0 then "-" + PrintNat(-n) else PrintNat(n)
  }

  lemma {:induction false} PrintNatValue(n: nat)
    ensures DigitsValue(PrintNat(n)) == n
  {
    if n >= 10 {
      PrintNatValue(n / 10);
      var s := PrintNat(n);
      assert s[..|s| - 1] == PrintNat(n / 10);
    }
  }

  /** Printing a 64-bit integer and reading it back is the identity. */
  lemma ParsePrintInt(n: int)
    requires MIN_INT64 <= n <= MAX_INT64
    ensures ParseInt64(PrintInt(n)) == Some(n)
  {
    if n < 0 {
      PrintNatValue(-n);
      assert PrintInt(n)[1..] == PrintNat(-n);
    } else {
      PrintNatValue(n);
      assert IsDigit(PrintInt(n)[0]);
    }
  }

  // ---------------------------------------------------------------------------
  // Numbers written out
  // ---------------------------------------------------------------------------

  /** The number that the first `k` digits denote. */
  function Digits(ds: seq<nat>, k: nat): nat
    requires k <= |ds|
  {
    if k == 0 then 0 else 10 * Digits(ds, k - 1) + ds[k - 1]
  }

  function DigitChars(ds: seq<nat>): string
    requires forall i :: 0 <= i < |ds| ==> ds[i] < 10
  {
    seq(|ds|, i requires 0 <= i < |ds| => ('0' as int + ds[i]) as char)
  }

  lemma {:induction false} PrintDigits(ds: seq<nat>, k: nat)
    requires 0 < k <= |ds| && ds[0] > 0 && forall i :: 0 <= i < |ds| ==> ds[i] < 10
    ensures Digits(ds, k) > 0 && PrintNat(Digits(ds, k)) == DigitChars(ds)[..k]
  {
    if k > 1 {
      PrintDigits(ds, k - 1);
      var n := Digits(ds, k);
      assert n / 10 == Digits(ds, k - 1) && n % 10 == ds[k - 1];
      assert DigitChars(ds)[..k] == DigitChars(ds)[..k - 1] + [DigitChars(ds)[k - 1]];
    } else {
      assert Digits(ds, 0) == 0 && Digits(ds, 1) == ds[0];
      assert DigitChars(ds)[..1] == [DigitChars(ds)[0]];
    }
  }

  // ---------------------------------------------------------------------------
  // Every numeral
  // ---------------------------------------------------------------------------

  function Zeros(z: nat): string {
    if z == 0 then "" else Zeros(z - 1) + "0"
  }

  lemma SnocDigit(a: string, c: char)
    requires AllDigits(a) && IsDigit(c)
    ensures AllDigits(a + [c]) && DigitsValue(a + [c]) == 10 * DigitsValue(a) + (c as int - '0' as int)
  {
    assert (a + [c])[..|a|] == a;
  }

  lemma {:induction false} ZerosAreNothing(z: nat)
    ensures AllDigits(Zeros(z)) && DigitsValue(Zeros(z)) == 0
  {
    if z > 0 {
      ZerosAreNothing(z - 1);
      SnocDigit(Zeros(z - 1), '0');
    }
  }

  lemma {:induction false} ZerosValue(z: nat, n: nat)
    ensures AllDigits(Zeros(z) + PrintNat(n)) && DigitsValue(Zeros(z) + PrintNat(n)) == n
  {
    var last := ('0' as int + n % 10) as char;
    var before := if n < 10 then Zeros(z) else Zeros(z) + PrintNat(n / 10);
    if n < 10 { ZerosAreNothing(z); } else { ZerosValue(z, n / 10); }
    assert Zeros(z) + PrintNat(n) == before + [last];
    hide Zeros, PrintNat;
    SnocDigit(before, last);
  }

  /** Digits are zeros and then a number without leading zeros. */
  lemma {:induction false} DigitsAreNumeral(t: string) returns (z: nat)
    requires t != [] && AllDigits(t)
    ensures t == Zeros(z) + PrintNat(DigitsValue(t))
  {
    var u, c := t[..|t| - 1], t[|t| - 1];
    assert t == u + [c];
    SnocDigit(u, c);
    z := 0;
    if u == [] {
      OneDigit(t);
    } else {
      var before := DigitsAreNumeral(u);
      hide Zeros, PrintNat, DigitsValue;
      SnocNumeral(before, DigitsValue(u), c);
      z := if DigitsValue(u) == 0 then before + 1 else before;
    }
  }

  lemma OneDigit(t: string)
    requires |t| == 1 && IsDigit(t[0])
    ensures AllDigits(t) && t == Zeros(0) + PrintNat(DigitsValue(t))
  {
    SnocDigit("", t[0]);
    assert "" + [t[0]] == t;
  }

  lemma SnocNumeral(z: nat, n: nat, c: char)
    requires IsDigit(c)
    ensures var d := c as int - '0' as int;
            Zeros(z) + PrintNat(n) + [c] == Zeros(if n == 0 then z + 1 else z) + PrintNat(10 * n + d)
  {
  }

  /** A sign or none, zeros, and a number without leading zeros, which is negative only after a minus. */
  ghost predicate Numeral(s: string, sign: string, z: nat, n: int) {
    && s == sign + (Zeros(z) + PrintNat(if n < 0 then -n else n))
    && ((sign == "-" && n <= 0) || ((sign == "" || sign == "+") && n >= 0))
  }

  lemma ParseSigned(sign: string, body: string)
    requires (sign == "" || sign == "+" || sign == "-") && body != [] && AllDigits(body)
    ensures var n: int := if sign == "-" then -(DigitsValue(body) as int) else DigitsValue(body);
            ParseInt64(sign + body) == if MIN_INT64 <= n <= MAX_INT64 then Some(n) else None
  {
    var s := sign + body;
    if sign == "" {
      assert s == body && IsDigit(body[0]);
    } else {
      assert s[0] == sign[0] && s[1..] == body;
    }
  }

  lemma NumeralIsRead(s: string, sign: string, z: nat, n: int)
    requires Numeral(s, sign, z, n) && MIN_INT64 <= n <= MAX_INT64
    ensures ParseInt64(s) == Some(n)
  {
    var m: nat := if n < 0 then -n else n;
    hide ParseInt64, Zeros, PrintNat, DigitsValue, AllDigits;
    ZerosValue(z, m);
    ParseSigned(sign, Zeros(z) + PrintNat(m));
  }

  lemma ReadIsNumeral(s: string, n: int) returns (sign: string, z: nat)
    requires ParseInt64(s) == Some(n)
    ensures Numeral(s, sign, z, n)
  {
    var body;
    sign, body := SignAndDigits(s, n);
    hide ParseInt64, Zeros, PrintNat, DigitsValue;
    z := DigitsAreNumeral(body);
  }

  lemma SignAndDigits(s: string, n: int) returns (sign: string, body: string)
    requires ParseInt64(s) == Some(n)
    ensures s == sign + body && body != [] && AllDigits(body) && (sign == "" || sign == "+" || sign == "-")
    ensures n == if sign == "-" then -(DigitsValue(body) as int) else DigitsValue(body)
  {
    hide DigitsValue;
    var signed := s[0] == '-' || s[0] == '+';
    sign := if signed then [s[0]] else "";
    body := if signed then s[1..] else s;
    assert s == sign + body;
  }

  /** Exactly the numerals of 64-bit integers are read, leading zeros and signs included. */
  lemma ParseInt64Exactly(s: string, n: int)
    ensures ParseInt64(s) == Some(n) <==>
            -0x8000_0000_0000_0000 <= n < 0x8000_0000_0000_0000 && exists sign, z :: Numeral(s, sign, z, n)
  {
    if ParseInt64(s) == Some(n) {
      var sign, z := ReadIsNumeral(s, n);
    }
    hide ParseInt64;
    if -0x8000_0000_0000_0000 <= n < 0x8000_0000_0000_0000 {
      if sign, z :| Numeral(s, sign, z, n) {
        NumeralIsRead(s, sign, z, n);
      }
    }
  }

  /** `05` is 5, `-05` is -5 and `+5` is 5. */
  lemma LeadingZero()
    ensures ParseInt64("05") == Some(5) && ParseInt64("-05") == Some(-5) && ParseInt64("+5") == Some(5)
    ensures ParseInt64("") == None && ParseInt64("-") == None && ParseInt64("5a") == None
  {
    assert DigitsValue("5") == 5 && DigitsValue("05") == 5 by {
      SnocDigit("", '5');
      SnocDigit("", '0');
      SnocDigit("0", '5');
      assert "" + ['5'] == "5" && "" + ['0'] == "0" && "0" + ['5'] == "05";
    }
    assert "-05"[1..] == "05" && "+5"[1..] == "5" && "-"[1..] == "";
    assert !IsDigit("5a"[1]);
  }
}
