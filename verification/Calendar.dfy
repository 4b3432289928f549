/** `mktime64` against counting days. */
module Calendar {
  datatype Date = Date(year: int, month: int, day: int)

  predicate LeapYear(y: int) {
    y % 4 == 0 && (y % 100 != 0 || y % 400 == 0)
  }

  function MonthLength(y: int, m: int): (n: int)
    requires 1 <= m <= 12
    ensures 28 <= n <= 31
  {
    if m == 2 then (if LeapYear(y) then 29 else 28)
    else if m == 4 || m == 6 || m == 9 || m == 11 then 30
    else 31
  }

  /** A date of the Gregorian calendar from year 1 on. */
  predicate ValidDate(d: Date) {
    d.year >= 1 && 1 <= d.month <= 12 && 1 <= d.day <= MonthLength(d.year, d.month)
  }

  /** The day after. */
  function Tomorrow(d: Date): (t: Date)
    requires ValidDate(d)
    ensures ValidDate(t)
  {
    if d.day < MonthLength(d.year, d.month) then d.(day := d.day + 1)
    else if d.month < 12 then Date(d.year, d.month + 1, 1)
    else Date(d.year + 1, 1, 1)
  }

  const EPOCH := Date(1970, 1, 1)
  const FIRST := Date(1, 1, 1)

  /** The day n days after the first of year 1. */
  function DayNumber(n: nat): (d: Date)
    ensures ValidDate(d)
  {
    if n == 0 then FIRST else Tomorrow(DayNumber(n - 1))
  }

  /** The formula of `mktime64` for midnight, in days. */
  function Days(d: Date): int
    requires ValidDate(d)
  {
    var mon := if d.month <= 2 then d.month + 10 else d.month - 2;
    var year := if d.month <= 2 then d.year - 1 else d.year;
    year / 4 - year / 100 + year / 400 + 367 * mon / 12 + d.day + year * 365 - 719499
  }

  /** From one day to the next the formula rises by one: at ends of months, years, leap years and centuries. */
  lemma DaysTomorrow(d: Date)
    requires ValidDate(d)
    ensures Days(Tomorrow(d)) == Days(d) + 1
  {
    if d.day == MonthLength(d.year, d.month) {
      if d.month == 2 {
        FebruaryEnd(d);
      } else if d.month == 12 {
        YearEnd(d);
      } else {
        MonthEnd(d);
      }
    }
  }

  lemma MonthEnd(d: Date)
    requires ValidDate(d) && d.day == MonthLength(d.year, d.month) && d.month != 2 && d.month != 12
    ensures Days(Tomorrow(d)) == Days(d) + 1
  {
  }

  lemma YearEnd(d: Date)
    requires ValidDate(d) && d.day == 31 && d.month == 12
    ensures Days(Tomorrow(d)) == Days(d) + 1
  {
  }

  lemma FebruaryEnd(d: Date)
    requires ValidDate(d) && d.day == MonthLength(d.year, 2) && d.month == 2
    ensures Days(Tomorrow(d)) == Days(d) + 1
  {
    var y := d.year - 1;
    LeapStep(y);
    assert Days(d) == y / 4 - y / 100 + y / 400 + 367 * 12 / 12 + d.day + y * 365 - 719499;
    assert Tomorrow(d) == Date(d.year, 3, 1);
  }

  /** The leap days up to a year and up to the next. */
  lemma LeapStep(y: int)
    ensures (y + 1) / 4 - y / 4 == if (y + 1) % 4 == 0 then 1 else 0
    ensures (y + 1) / 100 - y / 100 == if (y + 1) % 100 == 0 then 1 else 0
    ensures (y + 1) / 400 - y / 400 == if (y + 1) % 400 == 0 then 1 else 0
    ensures (y + 1) % 400 == 0 ==> (y + 1) % 100 == 0
    ensures (y + 1) % 100 == 0 ==> (y + 1) % 4 == 0
  {
  }

  /** The day before. */
  function Yesterday(d: Date): (t: Date)
    requires ValidDate(d) && d != FIRST
    ensures ValidDate(t) && Tomorrow(t) == d
  {
    if d.day > 1 then d.(day := d.day - 1)
    else if d.month > 1 then Date(d.year, d.month - 1, MonthLength(d.year, d.month - 1))
    else Date(d.year - 1, 12, 31)
  }

  /** The number of a date in the count of days. */
  function NumberOf(d: Date): (n: nat)
    requires ValidDate(d)
    decreases d.year, d.month, d.day
  {
    if d == FIRST then 0 else 1 + NumberOf(Yesterday(d))
  }

  /** Every date comes up in the count of days, and the formula counts the days since 1970-01-01. */
  lemma {:induction false} CountedFromFirst(d: Date)
    requires ValidDate(d)
    ensures DayNumber(NumberOf(d)) == d && Days(d) == NumberOf(d) + Days(FIRST)
    decreases d.year, d.month, d.day
  {
    hide Days, Tomorrow;
    if d != FIRST {
      CountedFromFirst(Yesterday(d));
      DaysTomorrow(Yesterday(d));
    }
  }

  /** `mktime64` counts days: the distance from 1970-01-01 in the count, before it and after it. */
  lemma DaysSinceEpoch(d: Date)
    requires ValidDate(d)
    ensures DayNumber(NumberOf(d)) == d && DayNumber(NumberOf(EPOCH)) == EPOCH
    ensures Days(d) == NumberOf(d) - NumberOf(EPOCH)
  {
    assert Days(EPOCH) == 0;
    hide Days, DayNumber, NumberOf;
    CountedFromFirst(d);
    CountedFromFirst(EPOCH);
  }

  /** `mktime64`: the seconds since 1970-01-01, in which every day of the count has 86400. */
  method Mktime64(year0: nat, mon0: nat, day: nat, hour: nat, min: nat, sec: nat) returns (t: int)
    requires ValidDate(Date(year0, mon0, day))
    ensures t == 86400 * (NumberOf(Date(year0, mon0, day)) - NumberOf(EPOCH)) + 3600 * hour + 60 * min + sec
  {
    hide NumberOf, DayNumber;
    var mon, year := mon0 - 2, year0;
    if mon <= 0 {
      mon, year := mon + 12, year - 1;
    }
    t := (((year / 4 - year / 100 + year / 400 + 367 * mon / 12 + day) + year * 365 - 719499) * 24 + hour) * 60 + min;
    t := t * 60 + sec;
    DaysSinceEpoch(Date(year0, mon0, day));
  }
}
