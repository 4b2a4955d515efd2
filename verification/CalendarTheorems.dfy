/** Round trips and order of the calendar. */
module CalendarTheorems {
  import opened Words
  import opened Powers
  import opened Calendar

  lemma {:induction false} YearSplitCounts(leap: Leap, year: nat, day: nat)
    requires year >= ORIGIN_YEAR
    ensures var r := YearSplit(leap, year, day); DaysBeforeYear(leap, r.0) + r.1 == DaysBeforeYear(leap, year) + day
    decreases day
  {
    if day >= DaysInYear(leap, year) {
      YearSplitCounts(leap, year + 1, day - DaysInYear(leap, year));
    }
  }

  lemma {:induction false} MonthSplitCounts(table: seq<nat>, month: nat, day: nat)
    requires month <= |table|
    ensures var r := MonthSplit(table, month, day);
            DaysBeforeMonth(table, r.0) + r.1 == DaysBeforeMonth(table, month) + day
    decreases |table| - month
  {
    if month < |table| && day >= table[month] {
      MonthSplitCounts(table, month + 1, day - table[month]);
    }
  }

  /** The twelve months make up the year. */
  lemma YearLength(leap: Leap, year: nat)
    ensures DaysBeforeMonth(MonthTable(leap, year), 12) == DaysInYear(leap, year)
  {
    var table := MonthTable(leap, year);
    var f := if leap(year) then 29 else 28;
    assert DaysBeforeMonth(table, 1) == 31;
    assert DaysBeforeMonth(table, 2) == 31 + f;
    assert DaysBeforeMonth(table, 3) == 62 + f;
    assert DaysBeforeMonth(table, 4) == 92 + f;
    assert DaysBeforeMonth(table, 5) == 123 + f;
    assert DaysBeforeMonth(table, 6) == 153 + f;
    assert DaysBeforeMonth(table, 7) == 184 + f;
    assert DaysBeforeMonth(table, 8) == 215 + f;
    assert DaysBeforeMonth(table, 9) == 245 + f;
    assert DaysBeforeMonth(table, 10) == 276 + f;
    assert DaysBeforeMonth(table, 11) == 306 + f;
  }

  /** Days left over in a year always end up in one of its months. */
  lemma MonthFound(leap: Leap, year: nat, day: nat)
    requires day < DaysInYear(leap, year)
    ensures MonthSplit(MonthTable(leap, year), 0, day).0 < 12
  {
    MonthSplitCounts(MonthTable(leap, year), 0, day);
    YearLength(leap, year);
  }

  lemma {:induction false} YearSplitInverse(leap: Leap, first: nat, year: nat, rest: nat)
    requires ORIGIN_YEAR <= first <= year && rest < DaysInYear(leap, year)
    ensures DaysBeforeYear(leap, year) >= DaysBeforeYear(leap, first)
    ensures YearSplit(leap, first, DaysBeforeYear(leap, year) - DaysBeforeYear(leap, first) + rest) == (year, rest)
    decreases year - first
  {
    if first < year {
      YearSplitInverse(leap, first + 1, year, rest);
    }
  }

  lemma {:induction false} MonthSplitInverse(table: seq<nat>, first: nat, month: nat, day: nat)
    requires first <= month < |table| && day < table[month]
    ensures DaysBeforeMonth(table, month) >= DaysBeforeMonth(table, first)
    ensures MonthSplit(table, first, DaysBeforeMonth(table, month) - DaysBeforeMonth(table, first) + day)
            == (month, day)
    decreases month - first
  {
    if first < month {
      MonthSplitInverse(table, first + 1, month, day);
    }
  }

  lemma {:induction false} MonthsGrow(table: seq<nat>, m: nat, n: nat)
    requires m <= n <= |table|
    ensures DaysBeforeMonth(table, m) <= DaysBeforeMonth(table, n)
    decreases n
  {
    if m < n {
      MonthsGrow(table, m, n - 1);
    }
  }

  lemma MonthPrefix(leap: Leap, year: nat, month: nat, day: nat)
    requires month < 12 && day < MonthTable(leap, year)[month]
    ensures DaysBeforeMonth(MonthTable(leap, year), month) + day < DaysInYear(leap, year)
  {
    MonthsGrow(MonthTable(leap, year), month + 1, 12);
    YearLength(leap, year);
  }

  /** A date and time of day that exists. */
  predicate Proper(leap: Leap, t: Time) {
    && t.year >= ORIGIN_YEAR && 1 <= t.month <= 12 && 1 <= t.day <= MonthTable(leap, t.year)[t.month - 1]
    && t.hour < 24 && t.minute < 60 && t.second < 60 && t.ms == 0
    && t.weekday == (DayNumber(leap, t) + JAN1_WEEKDAY) % 7
  }

  lemma DivideChain(seconds: nat)
    ensures seconds == ((seconds / 60 / 60 / 24 * 24 + seconds / 60 / 60 % 24) * 60 + seconds / 60 % 60) * 60
            + seconds % 60
  {
  }

  /** Every second count is broken down into a proper time that counts back to it. */
  lemma CountRoundTrip(leap: Leap, seconds: nat)
    ensures Proper(leap, TimeOf(leap, seconds)) && SecondCount(leap, TimeOf(leap, seconds)) == seconds
  {
    DateCounts(leap, seconds / 60 / 60 / 24);
    DivideChain(seconds);
  }

  /** Every day number is broken down into a date that exists and counts back to it. */
  lemma DateCounts(leap: Leap, days: nat)
    ensures var d := DateOf(leap, days);
            d.0 >= ORIGIN_YEAR && d.1 < 12 && d.2 < MonthTable(leap, d.0)[d.1]
            && DaysBeforeYear(leap, d.0) + DaysBeforeMonth(MonthTable(leap, d.0), d.1) + d.2 == days
  {
    YearSplitCounts(leap, ORIGIN_YEAR, days);
    var y := YearSplit(leap, ORIGIN_YEAR, days);
    MonthSplitCounts(MonthTable(leap, y.0), 0, y.1);
    MonthFound(leap, y.0, y.1);
  }

  lemma RejoinChain(day: nat, hour: nat, minute: nat, second: nat)
    requires hour < 24 && minute < 60 && second < 60
    ensures var s := ((day * 24 + hour) * 60 + minute) * 60 + second;
            s / 60 / 60 / 24 == day && s / 60 / 60 % 24 == hour && s / 60 % 60 == minute && s % 60 == second
  {
    SplitQuotient((day * 24 + hour) * 60 + minute, 60, second);
    SplitQuotient(day * 24 + hour, 60, minute);
    SplitQuotient(day, 24, hour);
  }

  lemma MonthOf(table: seq<nat>, month: nat, day: nat)
    requires month < |table| && day < table[month]
    ensures MonthSplit(table, 0, DaysBeforeMonth(table, month) + day) == (month, day)
  {
    MonthSplitInverse(table, 0, month, day);
    assert DaysBeforeMonth(table, month) - DaysBeforeMonth(table, 0) + day == DaysBeforeMonth(table, month) + day;
  }

  lemma YearOf(leap: Leap, origin: nat, year: nat, rest: nat)
    requires origin == ORIGIN_YEAR <= year && rest < DaysInYear(leap, year)
    ensures YearSplit(leap, origin, DaysBeforeYear(leap, year) + rest) == (year, rest)
  {
    YearSplitInverse(leap, origin, year, rest);
    assert DaysBeforeYear(leap, year) - DaysBeforeYear(leap, origin) + rest == DaysBeforeYear(leap, year) + rest;
  }

  /** Days of the year in front of a date, counted from 0. */
  function DayOfYear(table: seq<nat>, month: nat, day: nat): nat
    requires month <= |table|
  {
    DaysBeforeMonth(table, month) + day
  }

  lemma ProperDay(leap: Leap, t: Time, origin: nat, table: seq<nat>)
    requires origin == ORIGIN_YEAR <= t.year && 1 <= t.month <= 12 && table == MonthTable(leap, t.year)
    requires 1 <= t.day <= table[t.month - 1]
    ensures DayNumber(leap, t) >= 0
    ensures YearSplit(leap, origin, DayNumber(leap, t)) == (t.year, DayOfYear(table, t.month - 1, t.day - 1))
    ensures MonthSplit(table, 0, DayOfYear(table, t.month - 1, t.day - 1)) == (t.month - 1, t.day - 1)
  {
    MonthPrefix(leap, t.year, t.month - 1, t.day - 1);
    DayParts(leap, origin, t.year, table, t.month - 1, t.day - 1, DayNumber(leap, t));
  }

  lemma DayParts(leap: Leap, origin: nat, year: nat, table: seq<nat>, month: nat, day: nat, n: int)
    requires origin == ORIGIN_YEAR <= year && month < |table| && day < table[month]
    requires DaysBeforeMonth(table, month) + day < DaysInYear(leap, year)
    requires n == DaysBeforeYear(leap, year) + DaysBeforeMonth(table, month) + day
    ensures YearSplit(leap, origin, n) == (year, DaysBeforeMonth(table, month) + day)
    ensures MonthSplit(table, 0, DaysBeforeMonth(table, month) + day) == (month, day)
  {
    MonthOf(table, month, day);
    YearOf(leap, origin, year, DaysBeforeMonth(table, month) + day);
  }

  lemma ProperDate(leap: Leap, t: Time)
    requires Proper(leap, t)
    ensures DayNumber(leap, t) >= 0 && DateOf(leap, DayNumber(leap, t)) == (t.year, t.month - 1, t.day - 1)
  {
    ProperDay(leap, t, ORIGIN_YEAR, MonthTable(leap, t.year));
  }

  lemma RejoinTime(leap: Leap, days: nat, hour: nat, minute: nat, second: nat)
    requires hour < 24 && minute < 60 && second < 60
    ensures var d := DateOf(leap, days);
            TimeOf(leap, ((days * 24 + hour) * 60 + minute) * 60 + second)
            == Time(d.0, d.1 + 1, d.2 + 1, hour, minute, second, 0, (days + JAN1_WEEKDAY) % 7)
  {
    RejoinChain(days, hour, minute, second);
  }

  /** Every proper time is what its second count is broken down into. */
  lemma TimeRoundTrip(leap: Leap, t: Time)
    requires Proper(leap, t)
    ensures SecondCount(leap, t) >= 0 && TimeOf(leap, SecondCount(leap, t)) == t
  {
    ProperDate(leap, t);
    TimeFromDate(leap, t, DayNumber(leap, t));
  }

  lemma TimeFromDate(leap: Leap, t: Time, days: nat)
    requires DateOf(leap, days) == (t.year, t.month - 1, t.day - 1) && t.hour < 24 && t.minute < 60 && t.second < 60
    requires t.ms == 0 && t.weekday == (days + JAN1_WEEKDAY) % 7
    ensures TimeOf(leap, ((days * 24 + t.hour) * 60 + t.minute) * 60 + t.second) == t
  {
    RejoinTime(leap, days, t.hour, t.minute, t.second);
  }

  /**
   A time survives `Time_SystemToFile` and `Time_FileToSystem` exactly when it
   is proper and its count fits 32 bits; `IsValidTime` lets others through.
  */
  lemma FileRoundTrip(leap: Leap, t: Time)
    requires IsValidTime(t)
    ensures SecondCount(leap, t) >= 0
    ensures TimeOf(leap, SecondCount(leap, t) % WORD) == t <==> Proper(leap, t) && SecondCount(leap, t) < WORD
  {
    CountIsNatural(leap, t);
    KeptCount(leap, t, SecondCount(leap, t) % WORD);
    if SecondCount(leap, t) < WORD { SmallQuotient(SecondCount(leap, t), WORD); }
  }

  /** Whatever the leap rule, 30 February is let through and does not come back. */
  lemma ThirtiethOfFebruary(leap: Leap) returns (t: Time)
    ensures IsValidTime(t) && t.month == 2 && t.day == 30 && SecondCount(leap, t) >= 0
    ensures TimeOf(leap, SecondCount(leap, t) % WORD) != t
  {
    t := Time(2001, 2, 30, 0, 0, 0, 0, 0);
    FileRoundTrip(leap, t);
  }

  lemma KeptCount(leap: Leap, t: Time, low: nat)
    requires IsValidTime(t) && 0 <= SecondCount(leap, t)
    ensures TimeOf(leap, low) == t ==> Proper(leap, t) && SecondCount(leap, t) == low
    ensures Proper(leap, t) && SecondCount(leap, t) == low ==> TimeOf(leap, low) == t
  {
    CountRoundTrip(leap, low);
    if Proper(leap, t) {
      TimeRoundTrip(leap, t);
    }
  }

  lemma CountIsNatural(leap: Leap, t: Time)
    requires IsValidTime(t)
    ensures SecondCount(leap, t) >= 0
  {
  }

  /** Lexicographic order of year, month, day, hour, minute and second. */
  predicate Before(s: Time, t: Time) {
    s.year < t.year || (s.year == t.year &&
    (s.month < t.month || (s.month == t.month &&
    (s.day < t.day || (s.day == t.day &&
    (s.hour < t.hour || (s.hour == t.hour &&
    (s.minute < t.minute || (s.minute == t.minute &&
    s.second < t.second)))))))))
  }

  lemma {:induction false} YearsGrow(leap: Leap, m: nat, n: nat)
    requires ORIGIN_YEAR <= m < n
    ensures DaysBeforeYear(leap, m) + DaysInYear(leap, m) <= DaysBeforeYear(leap, n)
    decreases n
  {
    if m + 1 < n {
      YearsGrow(leap, m, n - 1);
    }
  }

  lemma DayOrder(leap: Leap, s: Time, t: Time)
    requires Proper(leap, s) && Proper(leap, t)
    requires s.year < t.year || (s.year == t.year && (s.month < t.month || (s.month == t.month && s.day < t.day)))
    ensures DayNumber(leap, s) < DayNumber(leap, t)
  {
    MonthPrefix(leap, s.year, s.month - 1, s.day - 1);
    if s.year < t.year {
      YearsGrow(leap, s.year, t.year);
    } else if s.month < t.month {
      MonthsGrow(MonthTable(leap, s.year), s.month, t.month - 1);
    }
  }

  lemma CountOrder(leap: Leap, s: Time, t: Time)
    requires Proper(leap, s) && Proper(leap, t) && Before(s, t)
    ensures SecondCount(leap, s) < SecondCount(leap, t)
  {
    if s.year < t.year || (s.year == t.year && (s.month < t.month || (s.month == t.month && s.day < t.day))) {
      DayOrder(leap, s, t);
    }
  }

  lemma SameTime(leap: Leap, s: Time, t: Time)
    requires Proper(leap, s) && Proper(leap, t) && !Before(s, t) && !Before(t, s)
    ensures s == t
  {
  }

  lemma BeforeIsStrict(s: Time, t: Time)
    ensures !(Before(s, t) && Before(t, s)) && !Before(s, s)
  {
  }

  /** `Time_CompareFile` of two converted proper times is their order on the calendar. */
  lemma CompareAgrees(leap: Leap, s: Time, t: Time)
    requires Proper(leap, s) && Proper(leap, t) && SecondCount(leap, s) < WORD && SecondCount(leap, t) < WORD
    ensures var c := CompareFile(FileTime(SecondCount(leap, s) % WORD, 0), FileTime(SecondCount(leap, t) % WORD, 0));
            (c == -1 <==> Before(s, t)) && (c == 1 <==> Before(t, s)) && (c == 0 <==> s == t)
  {
    CountDecides(leap, s, t);
    CountIsNatural(leap, s);
    CountIsNatural(leap, t);
    SmallQuotient(SecondCount(leap, s), WORD);
    SmallQuotient(SecondCount(leap, t), WORD);
  }

  lemma CountDecides(leap: Leap, s: Time, t: Time)
    requires Proper(leap, s) && Proper(leap, t)
    ensures SecondCount(leap, s) < SecondCount(leap, t) <==> Before(s, t)
    ensures SecondCount(leap, s) > SecondCount(leap, t) <==> Before(t, s)
    ensures SecondCount(leap, s) == SecondCount(leap, t) <==> s == t
  {
    BeforeIsStrict(s, t);
    if Before(s, t) {
      CountOrder(leap, s, t);
    } else if Before(t, s) {
      CountOrder(leap, t, s);
    } else {
      SameTime(leap, s, t);
    }
  }

  // ----- the operations, one after the other

  /** Every date that exists passes the validity test. */
  lemma ProperIsValid(leap: Leap, t: Time)
    requires Proper(leap, t)
    ensures IsValidTime(t)
  {
    MonthLengths(leap, t.year, t.month);
  }

  /** The months: thirty days in April, June, September and November, February by the leap rule, 31 in the rest. */
  lemma MonthLengths(leap: Leap, year: nat, month: nat)
    requires 1 <= month <= 12
    ensures MonthTable(leap, year)[month - 1]
            == if month in {4, 6, 9, 11} then 30 else if month != 2 then 31 else if leap(year) then 29 else 28
  {
  }

  /** `Time_SystemToFile` and `Time_FileToSystem` of its result. */
  method ThereAndBack(leap: Leap, st: SystemTime, back: SystemTime) returns (ok: bool)
    requires Proper(leap, st.Get()) && SecondCount(leap, st.Get()) < WORD
    modifies back
    ensures ok && back.Get() == old(st.Get())
  {
    ghost var t := st.Get();
    ProperIsValid(leap, t);
    FileRoundTrip(leap, t);
    var ft;
    ok, ft := SystemToFile(leap, st);
    FileToSystem(leap, ft, back);
  }

  /** `Time_FileToSystem` and `Time_SystemToFile` of its result: every count comes back. */
  method BackAndThere(leap: Leap, ft: FileTime, st: SystemTime) returns (ok: bool, again: FileTime)
    requires ft.low < WORD
    modifies st
    ensures ok && again == FileTime(ft.low, 0)
  {
    CountRoundTrip(leap, ft.low);
    ProperIsValid(leap, TimeOf(leap, ft.low));
    FileToSystem(leap, ft, st);
    ok, again := SystemToFile(leap, st);
    SmallQuotient(ft.low, WORD);
  }

  /** `Time_CompareFile` of what `Time_SystemToFile` makes of two times: their order on the calendar. */
  method ConvertAndCompare(leap: Leap, s: SystemTime, t: SystemTime) returns (order: int)
    requires Proper(leap, s.Get()) && Proper(leap, t.Get())
    requires SecondCount(leap, s.Get()) < WORD && SecondCount(leap, t.Get()) < WORD
    ensures order == -1 <==> Before(s.Get(), t.Get())
    ensures order == 1 <==> Before(t.Get(), s.Get())
    ensures order == 0 <==> s.Get() == t.Get()
  {
    ProperIsValid(leap, s.Get());
    ProperIsValid(leap, t.Get());
    CompareAgrees(leap, s.Get(), t.Get());
    var _, first := SystemToFile(leap, s);
    var _, second := SystemToFile(leap, t);
    order := CompareFile(first, second);
  }

  /** `Time_CompareFile` orders all file times, the low half first. */
  lemma CompareIsOrder(a: FileTime, b: FileTime, c: FileTime)
    ensures CompareFile(a, b) == -CompareFile(b, a)
    ensures CompareFile(a, b) == 0 <==> a == b
    ensures CompareFile(a, b) == -1 && CompareFile(b, c) == -1 ==> CompareFile(a, c) == -1
    ensures a.low < b.low ==> CompareFile(a, b) == -1
    ensures a.low == b.low && a.high < b.high ==> CompareFile(a, b) == -1
  {
  }

  // ----- the Gregorian rule

  /** `IsLeap` of the date library. */
  predicate Gregorian(year: nat) {
    (year % 4 == 0 && year % 100 != 0) || (year % 100 == 0 && year % 400 == 0)
  }

  /** Leap years from year 1 up to a year. */
  function LeapYears(year: nat): int {
    year / 4 - year / 100 + year / 400
  }

  lemma OneLeapYear(year: nat)
    requires year > 0
    ensures LeapYears(year) == LeapYears(year - 1) + if Gregorian(year) then 1 else 0
  {
    MultipleStep(year, 4);
    MultipleStep(year, 100);
    MultipleStep(year, 400);
    HundredsAreLeapCandidates(year);
  }

  lemma HundredsAreLeapCandidates(year: nat)
    ensures year % 400 == 0 ==> year % 100 == 0
    ensures year % 100 == 0 ==> year % 4 == 0
  {
    SplitQuotient(4 * (year / 400), 100, 0);
    SplitQuotient(25 * (year / 100), 4, 0);
  }

  lemma MultipleStep(year: int, k: int)
    requires year > 0 && k > 0
    ensures year / k == (year - 1) / k + if year % k == 0 then 1 else 0
  {
    NextQuotient((year - 1) / k, k, (year - 1) % k);
  }

  lemma NextQuotient(q: int, k: int, r: int)
    requires 0 <= r < k
    ensures (q * k + r + 1) / k == q + if (q * k + r + 1) % k == 0 then 1 else 0
  {
    if r == k - 1 {
      SplitQuotient(q + 1, k, 0);
      assert q * k + r + 1 == (q + 1) * k + 0;
    } else {
      SplitQuotient(q, k, r + 1);
    }
  }

  /** The days in front of a year, in closed form. */
  lemma {:induction false} GregorianDays(year: nat)
    requires year >= ORIGIN_YEAR
    ensures DaysBeforeYear(Gregorian, year) == 365 * (year - 1980) + LeapYears(year - 1) - LeapYears(1979)
  {
    if year > ORIGIN_YEAR {
      GregorianDays(year - 1);
      OneLeapYear(year - 1);
    }
  }

  /** The counts start with 1 January 1980. */
  lemma CountsStart(leap: Leap)
    ensures TimeOf(leap, 0) == Time(1980, 1, 1, 0, 0, 0, 0, 1)
  {
  }

  /** The 32 bits of the count last until 7 February 2116, 06:28:15, under the Gregorian rule. */
  lemma CountsEnd(t: Time)
    requires Proper(Gregorian, t)
    ensures SecondCount(Gregorian, t) < WORD <==> Before(t, Time(2116, 2, 7, 6, 28, 16, 0, 4))
  {
    var end := Time(2116, 2, 7, 6, 28, 16, 0, 4);
    DaysUntilTheEnd(end.year);
    EndOfCounts(Gregorian, end);
    CountDecides(Gregorian, t, end);
  }

  lemma EndOfCounts(leap: Leap, t: Time)
    requires t.year >= ORIGIN_YEAR && DaysBeforeYear(leap, t.year) == 49673 && t.month == 2 && t.day == 7
    requires t.hour == 6 && t.minute == 28 && t.second == 16 && t.ms == 0 && t.weekday == 4
    ensures Proper(leap, t) && SecondCount(leap, t) == WORD
  {
    FirstMonth(MonthTable(leap, t.year));
    MonthLengths(leap, t.year, 1);
    MonthLengths(leap, t.year, 2);
    assert DayNumber(leap, t) == 49710;
  }

  lemma DaysUntilTheEnd(year: nat)
    requires year == 2116
    ensures DaysBeforeYear(Gregorian, year) == 49673
  {
    GregorianDays(year);
    assert LeapYears(2115) == 528 - 21 + 5 && LeapYears(1979) == 494 - 19 + 4;
  }

  lemma FirstMonth(table: seq<nat>)
    requires |table| > 0
    ensures DaysBeforeMonth(table, 1) == table[0]
  {
  }

  /**
   The weekday stored is always one day early: counting Sunday as 0, day 1 of
   the Gregorian calendar was a Monday, and 1 January 1980 a Tuesday.
  */
  lemma WeekdayOneEarly(t: Time)
    requires Proper(Gregorian, t)
    ensures (t.weekday + 1) % 7
            == (365 * (t.year - 1) + LeapYears(t.year - 1)
                + DaysBeforeMonth(MonthTable(Gregorian, t.year), t.month - 1) + t.day) % 7
  {
    GregorianDays(t.year);
    assert LeapYears(1979) == 494 - 19 + 4;
    SevenDays(DayNumber(Gregorian, t));
  }

  lemma SevenDays(n: int)
    ensures ((n + JAN1_WEEKDAY) % 7 + 1) % 7 == (n + 7 * 103259 + 2) % 7
  {
  }
}
