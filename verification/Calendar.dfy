/** The two conversions of time.cpp from a date and time to seconds: a closed form that counts
    from 1970, and a loop that counts from 1900. Both are measured against counting days. */
module Calendar {
  import opened CInt

  datatype Date = Date(year: nat, month: nat, day: nat)
  datatype DateTime = DateTime(date: Date, hour: nat, minute: nat, second: nat)

  predicate IsLeap(year: nat) {
    year % 400 == 0 || (year % 100 != 0 && year % 4 == 0)
  }

  function MonthLength(year: nat, month: nat): nat
    requires 1 <= month <= 12
  {
    if month == 2 then (if IsLeap(year) then 29 else 28)
    else if month == 4 || month == 6 || month == 9 || month == 11 then 30
    else 31
  }

  /** A date of the Gregorian calendar. */
  predicate IsDate(d: Date) {
    d.year >= 1 && 1 <= d.month <= 12 && 1 <= d.day <= MonthLength(d.year, d.month)
  }

  predicate IsDateTime(t: DateTime) {
    IsDate(t.date) && t.hour < 24 && t.minute < 60 && t.second < 60
  }

  predicate Before(a: Date, b: Date) {
    a.year < b.year || (a.year == b.year && (a.month < b.month || (a.month == b.month && a.day < b.day)))
  }

  const JAN_1_1900 := Date(1900, 1, 1)
  const JAN_1_1970 := Date(1970, 1, 1)

  /** The day before. */
  function Yesterday(d: Date): Date
    requires IsDate(d) && Before(Date(1, 1, 1), d)
  {
    if d.day > 1 then Date(d.year, d.month, d.day - 1)
    else if d.month > 1 then Date(d.year, d.month - 1, MonthLength(d.year, d.month - 1))
    else Date(d.year - 1, 12, 31)
  }

  /** The number of days from one date to another, counted day by day. */
  function DayCount(origin: Date, d: Date): nat
    requires IsDate(origin) && IsDate(d) && !Before(d, origin)
    decreases d.year, d.month, d.day
  {
    if d == origin then 0 else 1 + DayCount(origin, Yesterday(d))
  }

  /** a is earlier than b: by date, then hour, then minute, then second. */
  predicate Earlier(a: DateTime, b: DateTime) {
    Before(a.date, b.date) || (a.date == b.date &&
      (a.hour < b.hour || (a.hour == b.hour && (a.minute < b.minute || (a.minute == b.minute && a.second < b.second)))))
  }

  const FIRST_SECOND := DateTime(Date(1, 1, 1), 0, 0, 0)
  const MIDNIGHT_1900 := DateTime(JAN_1_1900, 0, 0, 0)
  const MIDNIGHT_1970 := DateTime(JAN_1_1970, 0, 0, 0)

  /** The second before. */
  function LastSecond(t: DateTime): DateTime
    requires IsDateTime(t) && Earlier(FIRST_SECOND, t)
  {
    if t.second > 0 then t.(second := t.second - 1)
    else if t.minute > 0 then t.(minute := t.minute - 1, second := 59)
    else if t.hour > 0 then t.(hour := t.hour - 1, minute := 59, second := 59)
    else DateTime(Yesterday(t.date), 23, 59, 59)
  }

  /** The number of seconds from one date-time to another, counted one by one. */
  function SecondCount(origin: DateTime, t: DateTime): nat
    requires IsDateTime(origin) && IsDateTime(t) && !Earlier(t, origin)
    decreases t.date.year, t.date.month, t.date.day, t.hour, t.minute, t.second
  {
    if t == origin then 0 else 1 + SecondCount(origin, LastSecond(t))
  }

  function TimeOfDay(t: DateTime): nat {
    (t.hour * 60 + t.minute) * 60 + t.second
  }

  // ---------------------------------------------------------------------------------------------
  // The closed form

  /** The days that `mktime` computes: February is put last, in the year before. */
  function ClosedDays(d: Date): int {
    var (m, y) := if d.month - 2 <= 0 then (d.month - 2 + 12, d.year - 1) else (d.month - 2, d.year);
    y / 4 - y / 100 + y / 400 + 367 * m / 12 + d.day + y * 365 - 719499
  }

  /** The seconds that `mktime` computes, before they are cut to 32 bits. */
  function ClosedSeconds(t: DateTime): int {
    ClosedDays(t.date) * 86400 + TimeOfDay(t)
  }

  /** The days of the years up to y. */
  function YearDays(y: nat): int {
    y / 4 - y / 100 + y / 400 + 365 * y
  }

  /** The days before a month in a common year. */
  function MonthOffset(month: nat): nat
    requires 1 <= month <= 12
  {
    [0, 31, 59, 90, 120, 151, 181, 212, 243, 273, 304, 334][month - 1]
  }

  lemma QuotientStep(y: nat, n: nat)
    requires y >= 1 && n >= 1
    ensures y / n - (y - 1) / n == if y % n == 0 then 1 else 0
  {
    var q, r := y / n, y % n;
    if r == 0 {
      DivModUnique(y - 1, q - 1, n - 1, n);
    } else {
      DivModUnique(y - 1, q, r - 1, n);
    }
  }

  lemma Centuries(y: nat)
    ensures (y % 400 == 0 ==> y % 100 == 0) && (y % 100 == 0 ==> y % 4 == 0)
  {
    if y % 400 == 0 {
      DivModUnique(y, y / 400 * 4, 0, 100);
    }
    if y % 100 == 0 {
      DivModUnique(y, y / 100 * 25, 0, 4);
    }
  }

  lemma LeapTerm(y: nat)
    requires y >= 1
    ensures y / 4 - y / 100 + y / 400 - ((y - 1) / 4 - (y - 1) / 100 + (y - 1) / 400) == if IsLeap(y) then 1 else 0
  {
    QuotientStep(y, 4);
    QuotientStep(y, 100);
    QuotientStep(y, 400);
    Centuries(y);
  }

  lemma MonthTerm(month: nat)
    requires 1 <= month <= 12
    ensures 367 * (if month <= 2 then month + 10 else month - 2) / 12 == MonthOffset(month) + if month <= 2 then 336 else -29
  {
  }

  /** The days before a date in the Gregorian calendar carried back to year 1. */
  function CalendarDays(d: Date, leapDay: bool): int
    requires d.year >= 1 && 1 <= d.month <= 12
  {
    YearDays(d.year - 1) + MonthOffset(d.month) + (if d.month >= 3 && leapDay then 1 else 0) + d.day - 1
  }

  lemma ClosedDaysOf(d: Date)
    requires IsDate(d)
    ensures ClosedDays(d) == CalendarDays(d, IsLeap(d.year)) - 719162
  {
    LeapTerm(d.year);
    MonthTerm(d.month);
  }

  lemma CalendarStep(d: Date)
    requires IsDate(d) && Before(Date(1, 1, 1), d)
    ensures CalendarDays(d, IsLeap(d.year)) == CalendarDays(Yesterday(d), IsLeap(Yesterday(d).year)) + 1
  {
    if d.month == 1 && d.day == 1 {
      LeapTerm(d.year - 1);
    }
  }

  lemma ClosedDaysStep(d: Date)
    requires IsDate(d) && Before(Date(1, 1, 1), d)
    ensures ClosedDays(d) == ClosedDays(Yesterday(d)) + 1
  {
    ClosedDaysOf(d);
    ClosedDaysOf(Yesterday(d));
    CalendarStep(d);
  }

  lemma {:induction false} ClosedDaysCount(origin: Date, d: Date)
    requires IsDate(origin) && IsDate(d) && !Before(d, origin)
    ensures ClosedDays(d) - ClosedDays(origin) == DayCount(origin, d)
    decreases d.year, d.month, d.day
  {
    if d != origin {
      ClosedDaysStep(d);
      ClosedDaysCount(origin, Yesterday(d));
    }
  }

  /** The closed form grows by one from any second to the next, over minutes, hours and days. */
  lemma ClosedSecondsStep(t: DateTime)
    requires IsDateTime(t) && Earlier(FIRST_SECOND, t)
    ensures ClosedSeconds(t) == ClosedSeconds(LastSecond(t)) + 1
  {
    if t.second == t.minute == t.hour == 0 {
      ClosedDaysStep(t.date);
    }
  }

  lemma LastSecondBetween(origin: DateTime, t: DateTime)
    requires IsDateTime(origin) && IsDateTime(t) && Earlier(origin, t)
    ensures Earlier(FIRST_SECOND, t)
    ensures IsDateTime(LastSecond(t)) && Earlier(LastSecond(t), t) && !Earlier(LastSecond(t), origin)
  {
  }

  lemma {:induction false} ClosedSecondsSince(origin: DateTime, t: DateTime)
    requires IsDateTime(origin) && IsDateTime(t) && !Earlier(t, origin)
    ensures ClosedSeconds(t) - ClosedSeconds(origin) == SecondCount(origin, t)
    decreases t.date.year, t.date.month, t.date.day, t.hour, t.minute, t.second
  {
    if t != origin {
      LastSecondBetween(origin, t);
      ClosedSecondsStep(t);
      ClosedSecondsSince(origin, LastSecond(t));
    }
  }

  /** From 1970 on the closed form is the number of seconds since midnight of 1970-01-01. */
  lemma ClosedSecondsCount(t: DateTime)
    requires IsDateTime(t) && t.date.year >= 1970
    ensures ClosedSeconds(t) == SecondCount(MIDNIGHT_1970, t)
  {
    CountedFrom1970(MIDNIGHT_1970, t);
  }

  /** That is also 86400 for each day and the time of day. */
  lemma ClosedSecondsByDays(t: DateTime)
    requires IsDateTime(t) && t.date.year >= 1970
    ensures ClosedSeconds(t) == 86400 * DayCount(JAN_1_1970, t.date) + 3600 * t.hour + 60 * t.minute + t.second
  {
    CountedFrom1970(MIDNIGHT_1970, t);
  }

  lemma CountedFrom1970(origin: DateTime, t: DateTime)
    requires IsDateTime(t) && t.date.year >= 1970 && origin == MIDNIGHT_1970
    ensures ClosedSeconds(t) == SecondCount(origin, t)
    ensures SecondCount(origin, t) == 86400 * DayCount(origin.date, t.date) + 3600 * t.hour + 60 * t.minute + t.second
  {
    Days1970(origin.date);
    ClosedSecondsFrom(origin.date, t);
  }

  lemma Days1970(d: Date)
    requires d == JAN_1_1970
    ensures ClosedDays(d) == 0
  {
  }

  lemma Days1900(d: Date)
    requires d == JAN_1_1900
    ensures ClosedDays(d) == -25_567
  {
  }

  /** Counted from the midnight of any date, by seconds and by days. */
  lemma ClosedSecondsFrom(origin: Date, t: DateTime)
    requires IsDate(origin) && IsDateTime(t) && !Before(t.date, origin)
    ensures ClosedSeconds(t) == 86400 * ClosedDays(origin) + SecondCount(DateTime(origin, 0, 0, 0), t)
    ensures SecondCount(DateTime(origin, 0, 0, 0), t) == 86400 * DayCount(origin, t.date) + 3600 * t.hour + 60 * t.minute + t.second
  {
    ClosedSecondsSince(DateTime(origin, 0, 0, 0), t);
    ClosedDaysCount(origin, t.date);
  }

  /** It puts date-times in the order of the calendar and tells any two apart. */
  lemma ClosedSecondsMonotone(a: DateTime, b: DateTime)
    requires IsDateTime(a) && IsDateTime(b)
    ensures ClosedSeconds(a) < ClosedSeconds(b) <==> Earlier(a, b)
    ensures ClosedSeconds(a) == ClosedSeconds(b) <==> a == b
  {
    if Earlier(a, b) {
      ClosedSecondsSince(a, b);
    } else {
      ClosedSecondsSince(b, a);
    }
  }

  /** The month of `mktime` after its test, and the year: January, February and the words that are
      negative as signed ones go to the end of the year before. */
  function ShiftedYearMonth(year: UInt32, mon: UInt32): (UInt32, UInt32) {
    if 0 >= S32(U32(mon - 2)) then (U32(year - 1), U32(U32(mon - 2) + 12)) else (year, U32(mon - 2))
  }

  /** The days of `mktime`; only the product is cut to a word before it is divided. */
  function DaysWord(year: UInt32, mon: UInt32, day: UInt32): int {
    var (y, m) := ShiftedYearMonth(year, mon);
    y / 4 - y / 100 + y / 400 + U32(367 * m) / 12 + day + y * 365 - 719499
  }

  /** `mktime` in 32-bit unsigned arithmetic: from 1970 on the seconds since midnight of 1970-01-01
      modulo 2^32. */
  method Mktime(year: UInt32, mon: UInt32, day: UInt32, hour: UInt32, min: UInt32, sec: UInt32) returns (r: UInt32)
    ensures r == (86400 * DaysWord(year, mon, day) + 3600 * hour + 60 * min + sec) % 0x1_0000_0000
    ensures year >= 1 && 1 <= mon <= 12 ==> r == U32(ClosedSeconds(DateTime(Date(year, mon, day), hour, min, sec)))
    ensures var t := DateTime(Date(year, mon, day), hour, min, sec);
      year >= 1970 && IsDateTime(t) ==> r == SecondCount(MIDNIGHT_1970, t) % 0x1_0000_0000
  {
    var m: UInt32, y: UInt32 := U32(mon - 2), year;
    if 0 >= S32(m) {
      m := U32(m + 12);
      y := U32(y - 1);
    }
    var days: int := y / 4 - y / 100 + y / 400 + U32(367 * m) / 12 + day + y * 365 - 719499;
    assert days == DaysWord(year, mon, day);
    r := U32(((days * 24 + hour) * 60 + min) * 60 + sec);
    MktimeOfDate(year, mon, day, hour, min, sec);
  }

  lemma MktimeOfDate(year: UInt32, mon: UInt32, day: UInt32, hour: UInt32, min: UInt32, sec: UInt32)
    ensures var t, s := DateTime(Date(year, mon, day), hour, min, sec), 86400 * DaysWord(year, mon, day) + 3600 * hour + 60 * min + sec;
      && (year >= 1 && 1 <= mon <= 12 ==> s == ClosedSeconds(t))
      && (year >= 1970 && IsDateTime(t) ==> s == SecondCount(MIDNIGHT_1970, t))
  {
    if year >= 1 && 1 <= mon <= 12 {
      DaysWordOfDate(year, mon, day);
    }
    if year >= 1970 && IsDateTime(DateTime(Date(year, mon, day), hour, min, sec)) {
      ClosedSecondsCount(DateTime(Date(year, mon, day), hour, min, sec));
    }
  }

  /** The shift in plain numbers, for every word. */
  lemma ShiftExactly(year: UInt32, mon: UInt32)
    ensures var early := mon <= 2 || mon >= 0x8000_0002;
      ShiftedYearMonth(year, mon) ==
        if !early then (year, mon - 2)
        else (if year == 0 then 0xFFFF_FFFF else year - 1, (mon + 10) % 0x1_0000_0000)
  {
    U32Sum(mon - 2, 12);
  }

  /** No word of `mktime` wraps before its days, for a month of the calendar. */
  lemma DaysWordOfDate(year: UInt32, mon: UInt32, day: UInt32)
    requires year >= 1 && 1 <= mon <= 12
    ensures DaysWord(year, mon, day) == ClosedDays(Date(year, mon, day))
  {
    ShiftExactly(year, mon);
    U32Small(367 * ShiftedYearMonth(year, mon).1);
  }

  /** For every word the days are those of the shifted month and year, with 367 times the month
      reduced modulo 2^32. */
  lemma DaysWordExactly(year: UInt32, mon: UInt32, day: UInt32)
    ensures var (y, m) := ShiftedYearMonth(year, mon);
      DaysWord(year, mon, day) == 365 * y + y / 4 - y / 100 + y / 400 + 367 * m % 0x1_0000_0000 / 12 + day - 719499
  {
  }

  // ---------------------------------------------------------------------------------------------
  // The loops

  const EPOCH := 1900

  /** Which February has 29 days: the test as written is never met, the intended one is met in
      leap years. */
  datatype LeapTest = AsWritten | Corrected {
    predicate Holds(l: nat) {
      if AsWritten? then l % 400 == 0 && l % 100 != 0 && l % 4 == 0 else IsLeap(l)
    }
  }

  /** `run_year_cnt` */
  function LeapYearsTo(l: nat): nat {
    if l <= EPOCH then 0 else LeapYearsTo(l - 1) + if IsLeap(l - 1) then 1 else 0
  }

  /** What the second loop adds for its counter i. */
  function AddedDays(i: nat, l: nat, test: LeapTest): nat {
    if i == 5 || i == 7 || i == 10 || i == 12 then 30
    else if i == 3 then (if test.Holds(l) then 29 else 28)
    else if i == 2 || i == 4 || i == 6 || i == 8 || i == 9 || i == 11 then 31
    else 0
  }

  function MonthDays(month: nat, l: nat, test: LeapTest): nat {
    if month == 0 then 0 else MonthDays(month - 1, l, test) + AddedDays(month, l, test)
  }

  /** The days that the loops count before the given date. */
  function LoopDays(d: Date, test: LeapTest): int {
    var l, cnt := d.year, LeapYearsTo(d.year);
    (l - EPOCH - cnt) * 365 + cnt * 366 + MonthDays(d.month, l, test) + d.day - 1
  }

  /** The seconds that the loops compute, before they are cut to 32 bits. */
  function LoopSeconds(t: DateTime, test: LeapTest): int {
    LoopDays(t.date, test) * 86400 + TimeOfDay(t)
  }

  lemma {:induction false} LeapYearsClosed(l: nat)
    requires l >= EPOCH
    ensures LeapYearsTo(l) == YearDays(l - 1) - 365 * (l - 1) - 460
  {
    if l > EPOCH {
      LeapYearsClosed(l - 1);
      LeapTerm(l - 1);
    }
  }

  lemma {:induction false} MonthDaysOf(month: nat, l: nat, test: LeapTest)
    requires 1 <= month <= 12
    ensures MonthDays(month, l, test) == MonthOffset(month) + if month >= 3 && test.Holds(l) then 1 else 0
    decreases month
  {
    if month > 1 {
      MonthDaysOf(month - 1, l, test);
    } else {
      assert MonthDays(0, l, test) == 0;
    }
  }

  lemma {:induction false} LateMonths(month: nat, l: nat, test: LeapTest)
    requires month >= 12
    ensures MonthDays(month, l, test) == MonthDays(12, l, test)
  {
    if month > 12 {
      LateMonths(month - 1, l, test);
    }
  }

  /** What the loops count for any numbers at all: 365 days for each year from 1900 on, negative before,
      and a leap day for each Gregorian leap year since; the months of a common year, none from
      the thirteenth on; the days. */
  lemma LoopDaysExactly(d: Date)
    ensures LoopDays(d, AsWritten) ==
              (d.year - 1900) * 365
              + (if d.year <= 1900 then 0 else (d.year - 1) / 4 - (d.year - 1) / 100 + (d.year - 1) / 400 - 460)
              + (if d.month == 0 then 0 else MonthOffset(if d.month < 12 then d.month else 12))
              + d.day - 1
  {
    if d.year > EPOCH {
      LeapYearsClosed(d.year);
    }
    if d.month >= 12 {
      LateMonths(d.month, d.year, AsWritten);
      MonthDaysOf(12, d.year, AsWritten);
    } else if d.month > 0 {
      MonthDaysOf(d.month, d.year, AsWritten);
    }
  }

  lemma LoopDaysOf(d: Date, test: LeapTest)
    requires IsDate(d) && d.year >= EPOCH
    ensures LoopDays(d, test) == CalendarDays(d, test.Holds(d.year)) - 693595
  {
    LeapYearsClosed(d.year);
    MonthDaysOf(d.month, d.year, test);
  }

  /** With the leap test corrected the loops count the seconds since midnight of 1900-01-01. */
  lemma CorrectedLoopCounts(t: DateTime)
    requires IsDateTime(t) && t.date.year >= EPOCH
    ensures LoopSeconds(t, Corrected) == SecondCount(MIDNIGHT_1900, t)
    ensures LoopSeconds(t, Corrected) == 86400 * DayCount(JAN_1_1900, t.date) + 3600 * t.hour + 60 * t.minute + t.second
  {
    CountedFrom1900(MIDNIGHT_1900, t);
  }

  lemma CountedFrom1900(origin: DateTime, t: DateTime)
    requires IsDateTime(t) && t.date.year >= EPOCH && origin == MIDNIGHT_1900
    ensures LoopSeconds(t, Corrected) == SecondCount(origin, t)
    ensures SecondCount(origin, t) == 86400 * DayCount(origin.date, t.date) + 3600 * t.hour + 60 * t.minute + t.second
  {
    CorrectedDays(t.date);
    Days1900(origin.date);
    ClosedSecondsFrom(origin.date, t);
  }

  lemma CorrectedDays(d: Date)
    requires IsDate(d) && d.year >= EPOCH
    ensures LoopDays(d, Corrected) == ClosedDays(d) + 25567
  {
    LoopDaysOf(d, Corrected);
    ClosedDaysOf(d);
  }

  /** As written they miss a day from March on in leap years, and only then. */
  lemma AsWrittenLoopMisses(t: DateTime)
    requires IsDateTime(t) && t.date.year >= EPOCH
    ensures LoopSeconds(t, AsWritten) ==
              LoopSeconds(t, Corrected) - if IsLeap(t.date.year) && t.date.month >= 3 then 86400 else 0
  {
    MonthDaysOf(t.date.month, t.date.year, Corrected);
    MonthDaysOf(t.date.month, t.date.year, AsWritten);
  }

  lemma AsWrittenLoopCounts(t: DateTime)
    ensures IsDateTime(t) && t.date.year >= EPOCH ==>
              LoopSeconds(t, AsWritten) ==
                SecondCount(MIDNIGHT_1900, t) - if IsLeap(t.date.year) && t.date.month >= 3 then 86400 else 0
  {
    if IsDateTime(t) && t.date.year >= EPOCH {
      CorrectedLoopCounts(t);
      AsWrittenLoopMisses(t);
    }
  }

  /** The offset of section 6 of RFC 5905 between the two epochs. */
  const NTP_OFFSET := 2_208_988_800

  /** From 1970 on the loops agree with the closed form up to the offset of the epochs exactly
      outside March to December of leap years, where they are a day behind. */
  lemma LoopAgainstClosedForm(t: DateTime)
    requires IsDateTime(t) && t.date.year >= 1970
    ensures LoopSeconds(t, Corrected) == ClosedSeconds(t) + NTP_OFFSET
    ensures LoopSeconds(t, AsWritten) ==
              ClosedSeconds(t) + NTP_OFFSET - if IsLeap(t.date.year) && t.date.month >= 3 then 86400 else 0
  {
    CorrectedDays(t.date);
    AsWrittenLoopMisses(t);
  }

  /** `change_datetime_to_seconds`; the year is given as its two bytes. From 1900 on it is the number
      of seconds since midnight of 1900-01-01, less the day that is missed, modulo 2^32. */
  method ChangeDatetimeToSeconds(yearHigh: Octet, yearLow: Octet, month: Octet, day: Octet, hour: Octet, minute: Octet, second: Octet)
    returns (seconds: UInt32)
    ensures seconds == U32(LoopSeconds(DateTime(Date(yearHigh * 256 + yearLow, month, day), hour, minute, second), AsWritten))
    ensures var t := DateTime(Date(yearHigh * 256 + yearLow, month, day), hour, minute, second);
      t.date.year >= 1900 && IsDateTime(t) ==>
        var missed := if IsLeap(t.date.year) && month >= 3 then 86400 else 0;
        seconds == (SecondCount(MIDNIGHT_1900, t) - missed) % 0x1_0000_0000
  {
    var l: nat := yearHigh * 256 + yearLow;
    var cnt := CountLeapYears(l);
    ghost var years: int := (l - EPOCH - cnt) * 365 + cnt * 366;
    var totalDay := AddMonths(U32((l - EPOCH - cnt) * 365 + cnt * 366), years, l, month);
    seconds := DaysToSeconds(totalDay, years + MonthDays(month, l, AsWritten), day, hour, minute, second);
    AsWrittenLoopCounts(DateTime(Date(l, month, day), hour, minute, second));
  }

  /** The loop of `change_datetime_to_seconds` over the years. */
  method CountLeapYears(l: nat) returns (cnt: nat)
    ensures cnt == LeapYearsTo(l)
  {
    cnt := 0;
    var i: nat := EPOCH;
    while i < l
      invariant EPOCH <= i && (i <= l || (i == EPOCH && l < EPOCH))
      invariant cnt == LeapYearsTo(i)
    {
      if i % 400 == 0 || (i % 100 != 0 && i % 4 == 0) {
        cnt := cnt + 1;
      }
      i := i + 1;
    }
    assert l < EPOCH ==> LeapYearsTo(l) == 0;
  }

  /** The loop of `change_datetime_to_seconds` over the months. */
  method AddMonths(yearDays: UInt32, ghost years: int, l: nat, month: Octet) returns (totalDay: UInt32)
    requires yearDays == U32(years)
    ensures totalDay == U32(years + MonthDays(month, l, AsWritten))
  {
    totalDay := yearDays;
    var i: nat := 1;
    while i <= month
      invariant 1 <= i <= month + 1
      invariant totalDay == U32(years + MonthDays(i - 1, l, AsWritten))
    {
      U32Sum(years + MonthDays(i - 1, l, AsWritten), AddedDays(i, l, AsWritten));
      ghost var before := totalDay;
      if i == 5 || i == 7 || i == 10 || i == 12 {
        totalDay := U32(totalDay + 30);
      }
      if i == 3 {
        if l % 400 == 0 && l % 100 != 0 && l % 4 == 0 {
          totalDay := U32(totalDay + 29);
        } else {
          totalDay := U32(totalDay + 28);
        }
      }
      if i == 2 || i == 4 || i == 6 || i == 8 || i == 9 || i == 11 {
        totalDay := U32(totalDay + 31);
      }
      assert totalDay == U32(before + AddedDays(i, l, AsWritten));
      i := i + 1;
    }
  }

  /** The last lines of `change_datetime_to_seconds`. */
  method DaysToSeconds(totalDay: UInt32, ghost exact: int, day: Octet, hour: Octet, minute: Octet, second: Octet) returns (seconds: UInt32)
    requires totalDay == U32(exact)
    ensures seconds == U32((exact + day - 1) * 86400 + (hour * 60 + minute) * 60 + second)
  {
    var days: int := U32(totalDay + day - 1);
    U32Sum(exact, day - 1);
    seconds := U32(days * (24 * 3600));
    ghost var x := (exact + day - 1) * 86400;
    U32Product(exact + day - 1, 86400);
    U32Sum(x, second);
    seconds := U32(seconds + second);
    U32Sum(x + second, minute * 60);
    seconds := U32(seconds + minute * 60);
    U32Sum(x + second + minute * 60, hour * 3600);
    seconds := U32(seconds + hour * 3600);
  }
}
