/**
 What the clock's numbers and keys mean: nanoseconds count the ticks of the calendar, and the
 printed keys read back as the date and the time of day.
 */
module TimeLine {
  import opened Text
  import opened Clock

  // ----- one nanosecond later, by calendar carry -----

  const LAST_TIME := Calendar(9999, 12, 31, 23, 59, 59, 999_999_999)

  function NextDay(t: Time): Time
    requires t.year < 9999 || t.month < 12 || t.day < 31
  {
    if t.day < DaysIn(t.year, t.month) then t.(day := t.day + 1)
    else if t.month < 12 then t.(month := t.month + 1, day := 1)
    else t.(year := t.year + 1, month := 1, day := 1)
  }

  /** The instant one nanosecond later. */
  function Tick(t: Time): Time
    requires t != LAST_TIME
  {
    if t.nano < 999_999_999 then t.(nano := t.nano + 1)
    else if t.second < 59 then t.(second := t.second + 1, nano := 0)
    else if t.minute < 59 then t.(minute := t.minute + 1, second := 0, nano := 0)
    else if t.hour < 23 then t.(hour := t.hour + 1, minute := 0, second := 0, nano := 0)
    else NextDay(t.(hour := 0, minute := 0, second := 0, nano := 0))
  }

  /** u is k nanoseconds after t. */
  predicate After(t: Time, k: nat, u: Time)
    decreases k
  {
    if k == 0 then t == u else t != LAST_TIME && After(Tick(t), k - 1, u)
  }

  /** t comes before u in the calendar. */
  predicate Precedes(t: Time, u: Time) {
    || t.year < u.year
    || (t.year == u.year &&
        (|| t.month < u.month
         || (t.month == u.month &&
             (|| t.day < u.day
              || (t.day == u.day && PrecedesInDay(t, u))))))
  }

  predicate PrecedesInDay(t: Time, u: Time) {
    || t.hour < u.hour
    || (t.hour == u.hour &&
        (|| t.minute < u.minute
         || (t.minute == u.minute && (t.second < u.second || (t.second == u.second && t.nano < u.nano)))))
  }

  // ----- days -----

  function Days(year: nat, month: nat, day: nat): int {
    DaysBeforeYear(year) + DaysBeforeMonth(year, month) + day - 1
  }

  function InDay(t: Time): nat {
    ((t.hour * 60 + t.minute) * 60 + t.second) * 1_000_000_000 + t.nano
  }

  const DAY: nat := 86_400_000_000_000

  lemma NanosInDays(t: Time)
    ensures Nanos(t) == Days(t.year, t.month, t.day) * DAY + InDay(t)
    ensures InDay(t) < DAY
  {
  }

  function YearLength(year: nat): nat {
    if IsLeap(year) then 366 else 365
  }

  lemma FourStep(y: nat)
    ensures (y as int) / 4 - (y as int - 1) / 4 == if y % 4 == 0 then 1 else 0
  {
  }

  lemma HundredStep(y: nat)
    ensures (y as int) / 100 - (y as int - 1) / 100 == if y % 100 == 0 then 1 else 0
  {
  }

  lemma FourHundredStep(y: nat)
    ensures (y as int) / 400 - (y as int - 1) / 400 == if y % 400 == 0 then 1 else 0
  {
  }

  lemma Fours(k: nat)
    ensures (4 * k) % 4 == 0
  {
  }

  lemma Hundreds(k: nat)
    ensures (100 * k) % 100 == 0
  {
  }

  lemma HundredIsFours(a: nat, y: nat)
    requires y == 100 * a
    ensures y % 4 == 0
  {
    Fours(25 * a);
  }

  lemma FourHundredIsHundreds(b: nat, y: nat)
    requires y == 400 * b
    ensures y % 100 == 0
  {
    Hundreds(4 * b);
  }

  lemma YearStep(year: nat)
    ensures DaysBeforeYear(year + 1) == DaysBeforeYear(year) + YearLength(year)
  {
    FourStep(year);
    HundredStep(year);
    FourHundredStep(year);
    if year % 100 == 0 {
      HundredIsFours(year / 100, year);
    }
    if year % 400 == 0 {
      FourHundredIsHundreds(year / 400, year);
    }
    var y := year as int - 1;
    assert DaysBeforeYear(year) == 365 * y + y / 4 - y / 100 + y / 400;
    assert DaysBeforeYear(year + 1) == 365 * (y + 1) + year / 4 - year / 100 + year / 400;
  }

  /** The Gregorian calendar, spelled out. */
  lemma MonthLengths(year: nat)
    ensures var lengths := [31, if YearLength(year) == 366 then 29 else 28, 31, 30, 31, 30, 31, 31, 30, 31, 30, 31];
            forall m :: 1 <= m <= 12 ==> DaysIn(year, m) == lengths[m - 1]
    ensures YearLength(2023) == YearLength(1900) == 365 && YearLength(2024) == YearLength(2000) == 366
  {
  }

  lemma MonthStep(year: nat, month: nat)
    requires month >= 1
    ensures DaysBeforeMonth(year, month + 1) == DaysBeforeMonth(year, month) + DaysIn(year, month)
  {
  }

  lemma TwelveMonths(year: nat)
    ensures DaysBeforeMonth(year, 13) == YearLength(year)
  {
    MonthStep(year, 1);
    MonthStep(year, 2);
    MonthStep(year, 3);
    MonthStep(year, 4);
    MonthStep(year, 5);
    MonthStep(year, 6);
    MonthStep(year, 7);
    MonthStep(year, 8);
    MonthStep(year, 9);
    MonthStep(year, 10);
    MonthStep(year, 11);
    MonthStep(year, 12);
    assert DaysBeforeMonth(year, 1) == 0;
  }

  lemma NextDayIsOneMore(t: Time)
    requires t.year < 9999 || t.month < 12 || t.day < 31
    ensures var u := NextDay(t);
            && Days(u.year, u.month, u.day) == Days(t.year, t.month, t.day) + 1
            && InDay(u) == InDay(t)
  {
    if t.day < DaysIn(t.year, t.month) {
    } else if t.month < 12 {
      MonthStep(t.year, t.month);
    } else {
      MonthStep(t.year, 12);
      TwelveMonths(t.year);
      YearStep(t.year);
    }
  }

  lemma ZeroIsZero()
    ensures Nanos(ZERO_TIME) == 0
  {
    assert DaysBeforeYear(1) == 0;
    assert DaysBeforeMonth(1, 1) == 0;
  }

  /** The time line counts the ticks of the calendar. */
  lemma TickIsOneMore(t: Time)
    requires t != LAST_TIME
    ensures Nanos(Tick(t)) == Nanos(t) + 1
  {
    NanosInDays(t);
    NanosInDays(Tick(t));
    var midnight := t.(hour := 0, minute := 0, second := 0, nano := 0);
    if t.nano == 999_999_999 && t.second == 59 && t.minute == 59 && t.hour == 23 {
      NextDayIsOneMore(midnight);
    }
  }

  // ----- order -----

  lemma {:induction false} MonthsGrow(year: nat, m: nat, n: nat)
    requires 1 <= m < n
    ensures DaysBeforeMonth(year, m) + DaysIn(year, m) <= DaysBeforeMonth(year, n)
  {
    MonthStep(year, n - 1);
    if m < n - 1 {
      MonthsGrow(year, m, n - 1);
    }
  }

  lemma {:induction false} YearsGrow(y: nat, z: nat)
    requires y < z
    ensures DaysBeforeYear(y) + YearLength(y) <= DaysBeforeYear(z)
  {
    YearStep(z - 1);
    if y < z - 1 {
      YearsGrow(y, z - 1);
    }
  }

  lemma DayInYear(t: Time)
    ensures 0 <= DaysBeforeMonth(t.year, t.month) + t.day - 1 < YearLength(t.year)
  {
    TwelveMonths(t.year);
    MonthsGrow(t.year, t.month, 13);
  }

  lemma LaterDate(t: Time, u: Time)
    requires t.year < u.year || (t.year == u.year && (t.month < u.month || (t.month == u.month && t.day < u.day)))
    ensures Days(t.year, t.month, t.day) < Days(u.year, u.month, u.day)
  {
    if t.year < u.year {
      DayInYear(t);
      DayInYear(u);
      YearsGrow(t.year, u.year);
    } else if t.month < u.month {
      MonthsGrow(t.year, t.month, u.month);
    }
  }

  lemma LaterInDay(t: Time, u: Time)
    requires PrecedesInDay(t, u)
    ensures InDay(t) < InDay(u)
  {
  }

  lemma PrecedesGrows(t: Time, u: Time)
    requires Precedes(t, u)
    ensures Nanos(t) < Nanos(u)
  {
    NanosInDays(t);
    NanosInDays(u);
    var a, b := Days(t.year, t.month, t.day), Days(u.year, u.month, u.day);
    if t.year == u.year && t.month == u.month && t.day == u.day {
      LaterInDay(t, u);
    } else {
      LaterDate(t, u);
      assert (a + 1) * DAY <= b * DAY;
    }
  }

  /** Instants are ordered as the calendar orders them. */
  lemma NanosOrder(t: Time, u: Time)
    ensures Nanos(t) < Nanos(u) <==> Precedes(t, u)
    ensures Nanos(t) == Nanos(u) <==> t == u
  {
    if Precedes(t, u) {
      PrecedesGrows(t, u);
    } else if Precedes(u, t) {
      PrecedesGrows(u, t);
    }
  }

  lemma NothingAfterLast(u: Time)
    ensures Nanos(u) <= Nanos(LAST_TIME)
  {
    NanosOrder(LAST_TIME, u);
    assert !Precedes(LAST_TIME, u);
  }

  /** A difference of nanoseconds is a number of ticks. */
  lemma {:induction false} AfterExactly(t: Time, k: nat, u: Time)
    ensures After(t, k, u) <==> Nanos(u) == Nanos(t) + k
    decreases k
  {
    if k == 0 {
      NanosOrder(t, u);
    } else if t == LAST_TIME {
      NothingAfterLast(u);
    } else {
      TickIsOneMore(t);
      AfterExactly(Tick(t), k - 1, u);
    }
  }

  // ----- printing -----

  lemma {:induction false} TrimZerosEnds(s: string)
    ensures TrimZeros(s) != "" ==> TrimZeros(s)[|TrimZeros(s)| - 1] != '0'
  {
    if s != "" && s[|s| - 1] == '0' {
      TrimZerosEnds(s[..|s| - 1]);
    }
  }

  /** A printed second has no fraction if it is whole, and no trailing zero if it is not. */
  lemma FractionIsShortest(nano: nat)
    requires nano < 1_000_000_000
    ensures Fraction(nano) == "" <==> nano == 0
    ensures Fraction(nano) != "" ==> Fraction(nano)[|Fraction(nano)| - 1] != '0'
  {
    TrimZerosEnds(Pad(nano, 9));
    FractionRoundTrip(nano);
    FractionRoundTrip(0);
    if nano == 0 {
      NothingLeft(9);
    }
  }

  lemma {:induction false} NothingLeft(w: nat)
    ensures TrimZeros(Pad(0, w)) == ""
  {
    if w > 0 {
      NothingLeft(w - 1);
      assert Pad(0, w)[..w - 1] == Pad(0, w - 1);
    }
  }

  // ----- the keys -----

  predicate SameDate(t: Time, u: Time) {
    t.year == u.year && t.month == u.month && t.day == u.day
  }

  /** These eight digits are the date of t. */
  predicate IsDateOf(s: string, t: Time) {
    && |s| == 8 && AllDigits(s)
    && Val(s[..4]) == t.year && Val(s[4..6]) == t.month && Val(s[6..]) == t.day
  }

  lemma DayKeyReads(t: Time)
    ensures IsDateOf(DayKey(t), t)
  {
    var s := DayKey(t);
    assert Pow10(2) == 100 && Pow10(4) == 10000;
    assert s[..4] == Pad(t.year, 4) && s[4..6] == Pad(t.month, 2) && s[6..] == Pad(t.day, 2);
    ValPad(t.year, 4);
    ValPad(t.month, 2);
    ValPad(t.day, 2);
  }

  /** Two instants have the same key exactly when they fall on the same UTC date. */
  lemma DayKeyExactly(t: Time, u: Time)
    ensures DayKey(t) == DayKey(u) <==> SameDate(t, u)
  {
    DayKeyReads(t);
    DayKeyReads(u);
  }

  /** A stamp is the date, a T, the time of day and a Z. */
  predicate IsStampOf(s: string, t: Time) {
    && |s| == 16 && IsDateOf(s[..8], t) && s[8] == 'T' && s[15] == 'Z'
    && AllDigits(s[9..11]) && AllDigits(s[11..13]) && AllDigits(s[13..15])
    && Val(s[9..11]) == t.hour && Val(s[11..13]) == t.minute && Val(s[13..15]) == t.second
  }

  lemma StampReads(t: Time)
    ensures IsStampOf(Stamp(t), t)
  {
    var s := Stamp(t);
    DayKeyReads(t);
    assert Pow10(2) == 100;
    assert s[9..11] == Pad(t.hour, 2) && s[11..13] == Pad(t.minute, 2) && s[13..15] == Pad(t.second, 2);
    ValPad(t.hour, 2);
    ValPad(t.minute, 2);
    ValPad(t.second, 2);
  }
}
