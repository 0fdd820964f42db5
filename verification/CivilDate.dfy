/** Civil-date arithmetic (src/bin/octet-verify.rs): the closed form for days since
    1970-01-01 agrees with counting days on the proleptic Gregorian calendar
    (month lengths and leap rule of section 5.7 of RFC 3339). */
module CivilDate {

  datatype Date = Date(year: int, month: int, day: int)

  predicate IsLeap(year: int) {
    (year % 4 == 0 && year % 100 != 0) || year % 400 == 0
  }

  function DaysInMonth(year: int, month: int): int {
    if month == 2 then (if IsLeap(year) then 29 else 28)
    else if month == 4 || month == 6 || month == 9 || month == 11 then 30
    else 31
  }

  predicate IsValid(t: Date) {
    1 <= t.month <= 12 && 1 <= t.day <= DaysInMonth(t.year, t.month)
  }

  /** The calendar day after `t`. */
  function Next(t: Date): Date {
    if t.day < DaysInMonth(t.year, t.month) then Date(t.year, t.month, t.day + 1)
    else if t.month < 12 then Date(t.year, t.month + 1, 1)
    else Date(t.year + 1, 1, 1)
  }

  /** `n` days later, one day at a time. */
  function After(t: Date, n: nat): Date {
    if n == 0 then t else Next(After(t, n - 1))
  }

  /** Earlier on the calendar: by year, then month, then day. */
  predicate Earlier(s: Date, t: Date) {
    s.year < t.year || (s.year == t.year && (s.month < t.month || (s.month == t.month && s.day < t.day)))
  }

  // --- the closed form ---

  /** Days from the era's start to March 1 of year `yoe` of the era. */
  function EraDays(yoe: int): int {
    yoe * 365 + yoe / 4 - yoe / 100
  }

  /** Day of a year that starts on March 1, for the `mp`-th month from March. */
  function MonthStart(mp: int): int {
    (153 * mp + 2) / 5
  }

  /** Days since 1970-01-01. */
  function DaysFromCivil(t: Date): int {
    var y := if t.month <= 2 then t.year - 1 else t.year;
    var era := y / 400;
    var yoe := y - era * 400;
    var mp := (t.month + 9) % 12;
    var doy := MonthStart(mp) + t.day - 1;
    var doe := EraDays(yoe) + doy;
    era * 146_097 + doe - 719_468
  }

  lemma EpochIsZero()
    ensures DaysFromCivil(Date(1970, 1, 1)) == 0
  {
  }

  /** Days from March 1 of year 0 to March 1 of year `y`. */
  function MarchFirst(y: int): int {
    y / 400 * 146_097 + EraDays(y % 400)
  }

  lemma Quarter(n: int)
    ensures n / 4 - (n - 1) / 4 == if n % 4 == 0 then 1 else 0
  {
  }

  lemma Century(n: int)
    ensures n / 100 - (n - 1) / 100 == if n % 100 == 0 then 1 else 0
  {
  }

  lemma FourIs(x: int, a: int, b: int)
    requires x == 4 * a + b && 0 <= b < 4
    ensures x % 4 == b
  {
  }

  lemma HundredIs(x: int, a: int, b: int)
    requires x == 100 * a + b && 0 <= b < 100
    ensures x % 100 == b
  {
  }

  lemma EraRemainders(y: int)
    ensures y % 400 % 4 == y % 4 && y % 400 % 100 == y % 100
  {
    var q, r := y / 400, y % 400;
    FourIs(y, 100 * q + r / 4, r % 4);
    HundredIs(y, 4 * q + r / 100, r % 100);
  }

  /** A year from March to March has a leap day exactly when the year it ends in is leap. */
  lemma YearLength(y: int)
    ensures MarchFirst(y) - MarchFirst(y - 1) == if IsLeap(y) then 366 else 365
  {
    var r := y % 400;
    EraRemainders(y);
    if r > 0 {
      assert (y - 1) / 400 == y / 400 && (y - 1) % 400 == r - 1;
      Quarter(r);
      Century(r);
    } else {
      assert (y - 1) / 400 == y / 400 - 1 && (y - 1) % 400 == 399;
    }
  }

  /** The closed form in terms of March years. */
  lemma ByMarchYear(t: Date)
    ensures DaysFromCivil(t) ==
            MarchFirst(if t.month <= 2 then t.year - 1 else t.year) + MonthStart((t.month + 9) % 12) + t.day - 1 - 719_468
  {
  }

  /** Month lengths are the steps of `(153 mp + 2) / 5`, February aside. */
  lemma MonthLength(year: int, month: int)
    requires 1 <= month <= 12 && month != 2
    ensures MonthStart((month % 12 + 1 + 9) % 12) - MonthStart((month + 9) % 12) == DaysInMonth(year, month)
  {
    MonthStarts();
    hide MonthStart;
    assert (month + 9) % 12 == if month <= 2 then month + 9 else month - 3;
    assert (month % 12 + 1 + 9) % 12 == if month == 12 then 10 else if month == 1 then 11 else month - 2;
  }

  lemma MonthStarts()
    ensures MonthStart(0) == 0 && MonthStart(1) == 31 && MonthStart(2) == 61 && MonthStart(3) == 92
    ensures MonthStart(4) == 122 && MonthStart(5) == 153 && MonthStart(6) == 184 && MonthStart(7) == 214
    ensures MonthStart(8) == 245 && MonthStart(9) == 275 && MonthStart(10) == 306 && MonthStart(11) == 337
  {
  }

  /** The day after any valid date is one more. */
  lemma NextIsOneMore(t: Date)
    requires IsValid(t)
    ensures IsValid(Next(t)) && DaysFromCivil(Next(t)) == DaysFromCivil(t) + 1
  {
    hide MarchFirst, MonthStart, DaysFromCivil, IsLeap;
    ByMarchYear(t);
    ByMarchYear(Next(t));
    if t.day == DaysInMonth(t.year, t.month) {
      if t.month == 2 {
        YearLength(t.year);
        FebruaryToMarch();
      } else {
        MonthLength(t.year, t.month);
      }
    }
  }

  lemma FebruaryToMarch()
    ensures MonthStart((2 + 9) % 12) == 337 && MonthStart((3 + 9) % 12) == 0
  {
  }

  // --- counting, order, injectivity ---

  /** Counting `n` days from a date adds `n`. */
  lemma {:induction false} CountsDays(t: Date, n: nat)
    requires IsValid(t)
    ensures IsValid(After(t, n)) && DaysFromCivil(After(t, n)) == DaysFromCivil(t) + n
  {
    hide DaysFromCivil, Next, IsValid;
    if n > 0 {
      CountsDays(t, n - 1);
      NextIsOneMore(After(t, n - 1));
    }
  }

  /** Every later date is reached by counting. */
  lemma {:induction false} ReachMonth(year: int, m: int, month: int) returns (n: nat)
    requires 1 <= m <= month <= 12
    ensures After(Date(year, m, 1), n) == Date(year, month, 1)
    decreases month
  {
    if m == month {
      n := 0;
    } else {
      n := ReachMonth(year, m, month - 1);
      var k := DaysInMonth(year, month - 1);
      var t := Date(year, month - 1, 1);
      ReachDay(t, k - 1);
      AfterAdd(Date(year, m, 1), n, k);
      assert After(t, k) == Next(After(t, k - 1)) == Date(year, month, 1);
      n := n + k;
    }
  }

  lemma {:induction false} ReachDay(t: Date, k: nat)
    requires 1 <= t.day && t.day + k <= DaysInMonth(t.year, t.month)
    ensures After(t, k) == Date(t.year, t.month, t.day + k)
  {
    hide DaysInMonth;
    if k > 0 { ReachDay(t, k - 1); }
  }

  lemma {:induction false} AfterAdd(t: Date, m: nat, n: nat)
    ensures After(t, m + n) == After(After(t, m), n)
  {
    hide Next;
    if n > 0 { AfterAdd(t, m, n - 1); }
  }

  lemma {:induction false} ReachYear(y: int, year: int) returns (n: nat)
    requires y <= year
    ensures After(Date(y, 1, 1), n) == Date(year, 1, 1)
    decreases year - y
  {
    if y == year {
      n := 0;
    } else {
      n := ReachYear(y, year - 1);
      var k := ReachMonth(year - 1, 1, 12);
      var dec := Date(year - 1, 12, 1);
      ReachDay(dec, 30);
      assert After(dec, 31) == Next(After(dec, 30)) == Date(year, 1, 1);
      AfterAdd(Date(year - 1, 1, 1), k, 31);
      AfterAdd(Date(y, 1, 1), n, k + 31);
      n := n + (k + 31);
    }
  }

  /** A date is so many days after the first of its month, and that after January 1. */
  lemma FromNewYear(t: Date) returns (n: nat)
    requires IsValid(t)
    ensures After(Date(t.year, 1, 1), n) == t
  {
    n := ReachMonth(t.year, 1, t.month);
    ReachDay(Date(t.year, t.month, 1), t.day - 1);
    AfterAdd(Date(t.year, 1, 1), n, t.day - 1);
    n := n + (t.day - 1);
  }

  lemma NextIsLater(t: Date)
    ensures Earlier(t, Next(t))
  {
    hide DaysInMonth;
  }

  lemma {:induction false} AfterIsLater(t: Date, n: nat)
    requires n > 0
    ensures Earlier(t, After(t, n))
  {
    hide Next;
    NextIsLater(After(t, n - 1));
    if n > 1 { AfterIsLater(t, n - 1); }
  }

  /** Strictly monotone on the calendar, so injective: the order of dates is the order of day numbers. */
  lemma OrderIsDayNumbers(s: Date, t: Date)
    requires IsValid(s) && IsValid(t)
    ensures Earlier(s, t) <==> DaysFromCivil(s) < DaysFromCivil(t)
    ensures DaysFromCivil(s) == DaysFromCivil(t) <==> s == t
  {
    hide DaysFromCivil, IsValid, Next;
    var base := Date(if s.year < t.year then s.year else t.year, 1, 1);
    NewYearValid(base.year);
    var m := FromYear(base.year, s);
    var n := FromYear(base.year, t);
    CountsDays(base, m);
    CountsDays(base, n);
    if m < n {
      AfterAdd(base, m, n - m);
      AfterIsLater(s, n - m);
    } else if n < m {
      AfterAdd(base, n, m - n);
      AfterIsLater(t, m - n);
    }
  }

  lemma NewYearValid(year: int)
    ensures IsValid(Date(year, 1, 1))
  {
  }

  lemma FromYear(y: int, t: Date) returns (n: nat)
    requires IsValid(t) && y <= t.year
    ensures After(Date(y, 1, 1), n) == t
  {
    var a := ReachYear(y, t.year);
    var b := FromNewYear(t);
    AfterAdd(Date(y, 1, 1), a, b);
    n := a + b;
  }
}
