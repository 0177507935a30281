/**
 UTC instants as calendar records with four-digit years, and the three layouts the
 server prints them in: 20060102, 20060102T150405Z and time.RFC3339Nano.
 */
module Clock {
  import opened Text

  datatype Calendar = Calendar(
    year: nat, month: nat, day: nat, hour: nat, minute: nat, second: nat, nano: nat)

  predicate IsLeap(year: nat) {
    year % 4 == 0 && (year % 100 != 0 || year % 400 == 0)
  }

  function DaysIn(year: nat, month: nat): nat {
    if month == 2 then (if IsLeap(year) then 29 else 28)
    else if month in {4, 6, 9, 11} then 30
    else 31
  }

  predicate ValidCalendar(c: Calendar) {
    && c.year < 10000
    && 1 <= c.month <= 12
    && 1 <= c.day <= DaysIn(c.year, c.month)
    && c.hour < 24 && c.minute < 60 && c.second < 60
    && c.nano < 1_000_000_000
  }

  /** The zero value of Go's time.Time. */
  const ZERO_TIME := Calendar(1, 1, 1, 0, 0, 0, 0)

  type Time = c: Calendar | ValidCalendar(c) witness ZERO_TIME

  predicate IsZero(t: Time) {
    t == ZERO_TIME
  }

  // ----- the time line, in nanoseconds since the zero time -----

  function DaysBeforeYear(year: nat): int {
    var y := year as int - 1;
    365 * y + y / 4 - y / 100 + y / 400
  }

  function DaysBeforeMonth(year: nat, month: nat): nat {
    if month <= 1 then 0 else DaysBeforeMonth(year, month - 1) + DaysIn(year, month - 1)
  }

  function Nanos(t: Time): int {
    var days := DaysBeforeYear(t.year) + DaysBeforeMonth(t.year, t.month) + t.day - 1;
    (((days * 24 + t.hour) * 60 + t.minute) * 60 + t.second) * 1_000_000_000 + t.nano
  }

  const MAX_DURATION := 0x7fff_ffff_ffff_ffff
  const MIN_DURATION := -0x8000_0000_0000_0000

  /** time.Time.Sub, which saturates at the ends of the 64-bit duration range. */
  function Sub(t: Time, u: Time): int {
    var d := Nanos(t) - Nanos(u);
    if d > MAX_DURATION then MAX_DURATION else if d < MIN_DURATION then MIN_DURATION else d
  }

  // ----- printed forms -----

  /** Layout 20060102. */
  function DayKey(t: Time): (s: string)
    ensures |s| == 8 && AllDigits(s)
  {
    Pad(t.year, 4) + Pad(t.month, 2) + Pad(t.day, 2)
  }

  /** Layout 20060102T150405Z. */
  function Stamp(t: Time): (s: string)
    ensures |s| == 16 && s[..8] == DayKey(t)
  {
    DayKey(t) + "T" + Pad(t.hour, 2) + Pad(t.minute, 2) + Pad(t.second, 2) + "Z"
  }

  function TrimZeros(s: string): string {
    if s != "" && s[|s| - 1] == '0' then TrimZeros(s[..|s| - 1]) else s
  }

  function Zeros(k: nat): (s: string)
    ensures |s| == k && forall i :: 0 <= i < k ==> s[i] == '0'
  {
    seq(k, _ => '0')
  }

  /** The fractional second without its trailing zeros; nothing at all for a whole second. */
  function Fraction(nano: nat): string {
    var f := TrimZeros(Pad(nano, 9));
    if f == "" then "" else "." + f
  }

  function DateTime(t: Time): (s: string)
    ensures |s| == 19
  {
    Pad(t.year, 4) + "-" + Pad(t.month, 2) + "-" + Pad(t.day, 2) + "T" +
    Pad(t.hour, 2) + ":" + Pad(t.minute, 2) + ":" + Pad(t.second, 2)
  }

  /** time.RFC3339Nano of a UTC instant: the date-time of section 5.6 of RFC 3339. */
  function Rfc3339Nano(t: Time): string {
    DateTime(t) + Fraction(t.nano) + "Z"
  }

  // ----- reading RFC 3339 back -----

  function ParseFraction(f: string): Option<nat> {
    if f == "" then Some(0)
    else if f[0] == '.' && 2 <= |f| <= 10 && AllDigits(f[1..]) then
      Some(Val(f[1..] + Zeros(10 - |f|)))
    else None
  }

  predicate Separated(s: string)
    requires |s| >= 20
  {
    && s[4] == s[7] == '-' && s[10] == 'T' && s[13] == s[16] == ':'
    && AllDigits(s[..4]) && AllDigits(s[5..7]) && AllDigits(s[8..10])
    && AllDigits(s[11..13]) && AllDigits(s[14..16]) && AllDigits(s[17..19])
  }

  function ParseTime(s: string): (r: Option<Calendar>) {
    if |s| < 20 || !Separated(s) || s[|s| - 1] != 'Z' then None
    else
      match ParseFraction(s[19..|s| - 1])
      case None => None
      case Some(nano) =>
        var c := Calendar(Val(s[..4]), Val(s[5..7]), Val(s[8..10]),
                          Val(s[11..13]), Val(s[14..16]), Val(s[17..19]), nano);
        if ValidCalendar(c) then Some(c) else None
  }

  // ----- the parser undoes the printer -----

  lemma {:induction false} TrimZerosPads(s: string)
    ensures |TrimZeros(s)| <= |s|
    ensures TrimZeros(s) + Zeros(|s| - |TrimZeros(s)|) == s
  {
    if s != "" && s[|s| - 1] == '0' {
      TrimZerosPads(s[..|s| - 1]);
      assert s == s[..|s| - 1] + "0";
    }
  }

  lemma FractionRoundTrip(nano: nat)
    requires nano < 1_000_000_000
    ensures ParseFraction(Fraction(nano)) == Some(nano)
  {
    var p := Pad(nano, 9);
    var f := TrimZeros(p);
    TrimZerosPads(p);
    assert Pow10(9) == 1_000_000_000;
    ValPad(nano, 9);
    assert p == f + Zeros(9 - |f|);
    if f == "" {
      assert p == Pad(0, 9);
      ValPad(0, 9);
    } else {
      assert ("." + f)[1..] == f;
      assert forall i :: 0 <= i < |f| ==> f[i] == p[i];
    }
  }

  lemma DateTimeFields(t: Time, rest: string)
    requires rest != ""
    ensures var s := DateTime(t) + rest;
            && Separated(s)
            && s[..4] == Pad(t.year, 4) && s[5..7] == Pad(t.month, 2) && s[8..10] == Pad(t.day, 2)
            && s[11..13] == Pad(t.hour, 2) && s[14..16] == Pad(t.minute, 2)
            && s[17..19] == Pad(t.second, 2)
            && s[19..] == rest
  {
    var s := DateTime(t) + rest;
    assert s[..4] == Pad(t.year, 4);
    assert s[5..7] == Pad(t.month, 2);
    assert s[8..10] == Pad(t.day, 2);
    assert s[11..13] == Pad(t.hour, 2);
    assert s[14..16] == Pad(t.minute, 2);
    assert s[17..19] == Pad(t.second, 2);
  }

  lemma DateTimeReads(t: Time, rest: string)
    requires rest != ""
    ensures var s := DateTime(t) + rest;
            && Separated(s) && s[19..] == rest
            && Val(s[..4]) == t.year && Val(s[5..7]) == t.month && Val(s[8..10]) == t.day
            && Val(s[11..13]) == t.hour && Val(s[14..16]) == t.minute && Val(s[17..19]) == t.second
  {
    DateTimeFields(t, rest);
    assert Pow10(2) == 100 && Pow10(4) == 10000;
    ValPad(t.year, 4);
    ValPad(t.month, 2);
    ValPad(t.day, 2);
    ValPad(t.hour, 2);
    ValPad(t.minute, 2);
    ValPad(t.second, 2);
  }

  lemma ParseTimeFrom(s: string, rest: string, t: Time)
    requires |s| >= 20 && Separated(s) && s[19..] == rest && rest[|rest| - 1] == 'Z'
    requires Val(s[..4]) == t.year && Val(s[5..7]) == t.month && Val(s[8..10]) == t.day
    requires Val(s[11..13]) == t.hour && Val(s[14..16]) == t.minute && Val(s[17..19]) == t.second
    requires ParseFraction(rest[..|rest| - 1]) == Some(t.nano)
    ensures ParseTime(s) == Some(t)
  {
    assert s[19..|s| - 1] == rest[..|rest| - 1];
  }

  lemma TimeRoundTrip(t: Time)
    ensures ParseTime(Rfc3339Nano(t)) == Some(t)
  {
    var rest := Fraction(t.nano) + "Z";
    ConcatAssociates(DateTime(t), Fraction(t.nano), "Z");
    DateTimeReads(t, rest);
    FractionRoundTrip(t.nano);
    assert rest[..|rest| - 1] == Fraction(t.nano);
    ParseTimeFrom(DateTime(t) + rest, rest, t);
  }

  /** Nothing a time prints can be mistaken for the end of a line. */
  lemma TimeHasNoNewline(t: Time)
    ensures '\n' !in Rfc3339Nano(t)
  {
    var p := Pad(t.nano, 9);
    TrimZerosPads(p);
    assert forall i :: 0 <= i < |TrimZeros(p)| ==> TrimZeros(p)[i] == p[i];
    assert '\n' !in DateTime(t);
  }
}
