/** The second-count calendar of `time.c`. */
module Calendar {
  import opened Words

  const ORIGIN_YEAR := 1980
  const JAN1_WEEKDAY := 1

  /** `IsLeap`, as a parameter: nothing depends on which years are leap years. */
  type Leap = nat -> bool

  function DaysInYear(leap: Leap, year: nat): nat {
    if leap(year) then 366 else 365
  }

  const MONTHS := [31, 28, 31, 30, 31, 30, 31, 31, 30, 31, 30, 31]
  const LEAP_MONTHS := [31, 29, 31, 30, 31, 30, 31, 31, 30, 31, 30, 31]

  /** The month table a year uses, as `lpbMonth` points at it. */
  function MonthTable(leap: Leap, year: nat): (table: seq<nat>)
    ensures |table| == 12
  {
    if leap(year) then LEAP_MONTHS else MONTHS
  }

  /** A broken-down time; month and day count from 1. */
  datatype Time = Time(year: nat, month: nat, day: nat, hour: nat, minute: nat, second: nat, ms: nat, weekday: nat)

  class SystemTime {
    var year: nat
    var month: nat
    var day: nat
    var hour: nat
    var minute: nat
    var second: nat
    var ms: nat
    var weekday: nat

    function Get(): Time
      reads this
    {
      Time(year, month, day, hour, minute, second, ms, weekday)
    }
  }

  // ----- specification

  function DaysBeforeYear(leap: Leap, year: nat): nat {
    if year <= ORIGIN_YEAR then 0 else DaysBeforeYear(leap, year - 1) + DaysInYear(leap, year - 1)
  }

  function DaysBeforeMonth(table: seq<nat>, month: nat): nat
    requires month <= |table|
  {
    if month == 0 then 0 else DaysBeforeMonth(table, month - 1) + table[month - 1]
  }

  /** The year a day falls in, and the days left over, searching from a given year. */
  function YearSplit(leap: Leap, year: nat, day: nat): (r: (nat, nat))
    ensures year <= r.0 && r.1 < DaysInYear(leap, r.0)
    decreases day
  {
    if day < DaysInYear(leap, year) then (year, day) else YearSplit(leap, year + 1, day - DaysInYear(leap, year))
  }

  /** The month of a table a day of the year falls in, searching from a given month. */
  function MonthSplit(table: seq<nat>, month: nat, day: nat): (r: (nat, nat))
    requires month <= |table|
    ensures month <= r.0 <= |table| && (r.0 < |table| ==> r.1 < table[r.0])
    decreases |table| - month
  {
    if month == |table| || day < table[month] then (month, day) else MonthSplit(table, month + 1, day - table[month])
  }

  /** Year, month and day of a day number, the latter two counted from 0. */
  function DateOf(leap: Leap, days: nat): (nat, nat, nat) {
    var y := YearSplit(leap, ORIGIN_YEAR, days);
    var m := MonthSplit(MonthTable(leap, y.0), 0, y.1);
    (y.0, m.0, m.1)
  }

  /** The calendar time of a second count. */
  function TimeOf(leap: Leap, seconds: nat): Time {
    var days := seconds / 60 / 60 / 24;
    var d := DateOf(leap, days);
    Time(d.0, d.1 + 1, d.2 + 1, seconds / 60 / 60 % 24, seconds / 60 % 60, seconds % 60, 0, (days + JAN1_WEEKDAY) % 7)
  }

  /** The day number of a date, and the second count of a time, before any wrap. */
  function DayNumber(leap: Leap, t: Time): int
    requires 1 <= t.month <= 12
  {
    DaysBeforeYear(leap, t.year) + DaysBeforeMonth(MonthTable(leap, t.year), t.month - 1) + t.day - 1
  }

  function SecondCount(leap: Leap, t: Time): int
    requires 1 <= t.month <= 12
  {
    ((DayNumber(leap, t) * 24 + t.hour) * 60 + t.minute) * 60 + t.second
  }

  // ----- the loops

  /** The year loop, which counts whole years off the days. */
  method FindYear(leap: Leap, first: nat, days: nat) returns (year: nat, day: nat)
    ensures (year, day) == YearSplit(leap, first, days)
  {
    year, day := first, days;
    while day >= DaysInYear(leap, year)
      invariant YearSplit(leap, year, day) == YearSplit(leap, first, days)
      decreases day
    {
      day := day - DaysInYear(leap, year);
      year := year + 1;
    }
  }

  /** The month loop over the table of the year. */
  method FindMonth(table: seq<nat>, days: nat) returns (month: nat, day: nat)
    requires |table| == 12
    ensures (month, day) == MonthSplit(table, 0, days)
  {
    month, day := 0, days;
    while month < 12 && day >= table[month]
      invariant month <= 12 && MonthSplit(table, month, day) == MonthSplit(table, 0, days)
      decreases 12 - month
    {
      day := day - table[month];
      month := month + 1;
    }
  }

  method FindDate(leap: Leap, days: nat) returns (year: nat, month: nat, day: nat)
    ensures (year, month, day) == DateOf(leap, days)
  {
    var rest;
    year, rest := FindYear(leap, ORIGIN_YEAR, days);
    month, day := FindMonth(MonthTable(leap, year), rest);
  }

  /** The fields that need no calendar; returns the day number. */
  method SetClock(st: SystemTime, seconds: nat) returns (day: nat)
    modifies st
    ensures day == seconds / 60 / 60 / 24
    ensures st.ms == 0 && st.second == seconds % 60 && st.minute == seconds / 60 % 60
            && st.hour == seconds / 60 / 60 % 24
    ensures st.weekday == (day + JAN1_WEEKDAY) % 7
  {
    var min := seconds / 60;
    var hour := min / 60;
    day := hour / 24;
    st.ms := 0;
    st.second := seconds % 60;
    st.minute := min % 60;
    st.hour := hour % 24;
    st.weekday := (day + JAN1_WEEKDAY) % 7;
  }

  method GetYMDHMS(leap: Leap, st: SystemTime, seconds: nat)
    requires seconds < WORD
    modifies st
    ensures st.Get() == TimeOf(leap, seconds)
  {
    var day := SetClock(st, seconds);
    var year, month, left := FindDate(leap, day);
    st.year := year;
    st.day := left + 1;
    st.month := month + 1;
  }

  method GetTotalSeconds(leap: Leap, st: SystemTime) returns (count: nat)
    requires st.year >= ORIGIN_YEAR && 1 <= st.month <= 12 && 1 <= st.day
    ensures count == SecondCount(leap, st.Get()) % WORD
  {
    var day, year := 0, ORIGIN_YEAR;
    while year < st.year
      invariant ORIGIN_YEAR <= year <= st.year
      invariant day == DaysBeforeYear(leap, year)
    {
      day := day + DaysInYear(leap, year);
      year := year + 1;
    }
    var table := MonthTable(leap, year);
    var month := 0;
    while month < st.month - 1
      invariant month <= st.month - 1
      invariant day == DaysBeforeYear(leap, year) + DaysBeforeMonth(table, month)
    {
      day := day + table[month];
      month := month + 1;
    }
    day := day + st.day - 1;
    var min := (day * 24 + st.hour) * 60 + st.minute;
    count := (min * 60 + st.second) % WORD;
  }

  /** `IsValidTime`: seconds and the length of the month are not looked at. */
  predicate IsValidTime(t: Time) {
    1 <= t.day <= 31 && t.hour <= 24 && t.minute <= 60 && 1 <= t.month <= 12 && t.year >= ORIGIN_YEAR
  }

  /** FILETIME keeps the seconds in its low half. */
  datatype FileTime = FileTime(low: nat, high: nat)

  method SystemToFile(leap: Leap, st: SystemTime) returns (ok: bool, ft: FileTime)
    ensures ok == IsValidTime(st.Get())
    ensures ok <==> st.year >= 1980 && 1 <= st.month <= 12 && 1 <= st.day <= 31 && st.hour <= 24 && st.minute <= 60
    ensures ok ==> ft == FileTime(SecondCount(leap, st.Get()) % WORD, 0)
  {
    ok, ft := false, FileTime(0, 0);
    if 1 <= st.day <= 31 && st.hour <= 24 && st.minute <= 60 && 1 <= st.month <= 12 && st.year >= ORIGIN_YEAR {
      var count := GetTotalSeconds(leap, st);
      ok, ft := true, FileTime(count, 0);
    }
  }

  method FileToSystem(leap: Leap, ft: FileTime, st: SystemTime)
    requires ft.low < WORD
    modifies st
    ensures st.Get() == TimeOf(leap, ft.low)
  {
    GetYMDHMS(leap, st, ft.low);
  }

  /** `Time_CompareFile`: the low half decides first. */
  function CompareFile(a: FileTime, b: FileTime): int {
    if a.low < b.low then -1
    else if a.low > b.low then 1
    else if a.high < b.high then -1
    else if a.high > b.high then 1
    else 0
  }
}
