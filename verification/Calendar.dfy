/** Civil dates of the Gregorian calendar from a count of seconds since 1970-01-01, by the
    nested subtraction loops of the firmware, against the arithmetic of timegm. */
module Calendar {

  datatype DateTime = DateTime(year: nat, month: nat, day: nat, hour: nat, min: nat, sec: nat)

  predicate Leap(y: int) {
    (y % 4 == 0 && y % 100 != 0) || y % 400 == 0
  }

  function YearDays(y: int): nat {
    if Leap(y) then 366 else 365
  }

  function MonthDays(y: int, m: nat): nat
    requires 1 <= m <= 12
  {
    if m == 2 then (if Leap(y) then 29 else 28)
    else if m == 4 || m == 6 || m == 9 || m == 11 then 30 else 31
  }

  // --- The arithmetic meaning of timegm ---

  // Leap years among the years 1 .. y.
  function LeapsUpTo(y: int): int {
    y / 4 - y / 100 + y / 400
  }

  function DaysBeforeYear(y: int): int {
    365 * (y - 1970) + LeapsUpTo(y - 1) - LeapsUpTo(1969)
  }

  function DaysBeforeMonth(y: int, m: nat): nat
    requires 1 <= m <= 13
  {
    [0, 31, 59, 90, 120, 151, 181, 212, 243, 273, 304, 334, 365][m - 1] + (if m > 2 && Leap(y) then 1 else 0)
  }

  function Days(y: int, m: nat, d: int): int
    requires 1 <= m <= 12
  {
    DaysBeforeYear(y) + DaysBeforeMonth(y, m) + d - 1
  }

  // Day, hour, minute and second need not be in range; the sum simply carries over.
  function Timegm(t: DateTime): int
    requires 1 <= t.month <= 12
  {
    86400 * Days(t.year, t.month, t.day) + 3600 * t.hour + 60 * t.min + t.sec
  }

  predicate RealDate(y: int, m: nat, d: nat) {
    1 <= m <= 12 && 1 <= d <= MonthDays(y, m)
  }

  predicate Valid(t: DateTime) {
    RealDate(t.year, t.month, t.day) && t.hour < 24 && t.min < 60 && t.sec < 60
  }

  /** The Gregorian rules, and days since 1970-01-01 that they give. */
  lemma KnownYears()
    ensures Leap(2000) && Leap(2024) && !Leap(2023) && !Leap(2100)
    ensures DaysBeforeYear(1970) == 0 && DaysBeforeYear(2000) == 10957
    ensures DaysBeforeYear(2024) == 19723 && DaysBeforeYear(2101) == 47847
  {}

  lemma KnownMonths(y: int)
    ensures DaysBeforeMonth(y, 1) == 0 && DaysBeforeMonth(y, 2) == 31
    ensures DaysBeforeMonth(y, 3) == if Leap(y) then 60 else 59
    ensures DaysBeforeMonth(y, 7) == if Leap(y) then 182 else 181
    ensures DaysBeforeMonth(y, 12) == if Leap(y) then 335 else 334
  {}

  lemma KnownDay()
    ensures Days(2000, 2, 29) == 11016 && Days(2000, 3, 1) == 11017
    ensures Days(2024, 12, 31) == 20088
  {
    hide DaysBeforeYear, DaysBeforeMonth;
    KnownYears();
    KnownMonths(2000);
    KnownMonths(2024);
  }

  /** Each month has the days between its start and the next one's. */
  lemma MonthsAddUp(y: int, m: nat)
    requires 1 <= m <= 12
    ensures DaysBeforeMonth(y, m + 1) == DaysBeforeMonth(y, m) + MonthDays(y, m)
    ensures DaysBeforeMonth(y, 13) == YearDays(y)
  {}

  // --- Order ---

  predicate DateBefore(y: int, m: nat, d: nat, y': int, m': nat, d': nat) {
    y < y' || (y == y' && (m < m' || (m == m' && d < d')))
  }

  predicate Before(a: DateTime, b: DateTime) {
    || DateBefore(a.year, a.month, a.day, b.year, b.month, b.day)
    || ((a.year, a.month, a.day) == (b.year, b.month, b.day)
        && (a.hour < b.hour || (a.hour == b.hour && (a.min < b.min || (a.min == b.min && a.sec < b.sec)))))
  }

  lemma NextYear(y: int)
    ensures DaysBeforeYear(y + 1) == DaysBeforeYear(y) + YearDays(y)
  {
    assert y / 4 == (y - 1) / 4 + if y % 4 == 0 then 1 else 0;
    assert y / 100 == (y - 1) / 100 + if y % 100 == 0 then 1 else 0;
    assert y / 400 == (y - 1) / 400 + if y % 400 == 0 then 1 else 0;
    assert y % 400 == 0 ==> y % 100 == 0;
    assert y % 100 == 0 ==> y % 4 == 0;
  }

  lemma {:induction false} LaterYears(y: int, y': int)
    requires y < y'
    ensures DaysBeforeYear(y') >= DaysBeforeYear(y) + YearDays(y)
    decreases y' - y
  {
    NextYear(y' - 1);
    if y + 1 < y' {
      LaterYears(y, y' - 1);
    }
  }

  lemma DatesInOrder(y: int, m: nat, d: nat, y': int, m': nat, d': nat)
    requires RealDate(y, m, d) && RealDate(y', m', d') && DateBefore(y, m, d, y', m', d')
    ensures Days(y, m, d) < Days(y', m', d')
  {
    if y < y' {
      LaterYears(y, y');
    }
  }

  /** On real dates timegm is strictly increasing in lexicographic order, so no two of them are
      the same second. */
  lemma TimegmOrders(a: DateTime, b: DateTime)
    requires Valid(a) && Valid(b) && Before(a, b)
    ensures Timegm(a) < Timegm(b)
  {
    if DateBefore(a.year, a.month, a.day, b.year, b.month, b.day) {
      DatesInOrder(a.year, a.month, a.day, b.year, b.month, b.day);
    }
  }

  lemma TimegmInjective(a: DateTime, b: DateTime)
    requires Valid(a) && Valid(b) && Timegm(a) == Timegm(b)
    ensures a == b
  {
    if Before(a, b) {
      TimegmOrders(a, b);
    } else if Before(b, a) {
      TimegmOrders(b, a);
    }
  }

  // --- The subtraction loops ---

  // From d days after 1 January of y: the year reached and the days left in it.
  function YearLoop(d: nat, y: nat): (nat, nat) {
    if d >= YearDays(y) then YearLoop(d - YearDays(y), y + 1) else (y, d)
  }

  function MonthLoop(d: nat, y: nat, m: nat): (nat, nat)
    requires 1 <= m <= 13
    decreases 13 - m
  {
    if m == 13 || d < MonthDays(y, m) then (m, d) else MonthLoop(d - MonthDays(y, m), y, m + 1)
  }

  function Civil(sec: nat): DateTime {
    var r := sec % 86400;
    var (y, d) := YearLoop(sec / 86400, 1970);
    var (m, k) := MonthLoop(d, y, 1);
    DateTime(y, m, k + 1, r / 3600, r % 3600 / 60, r % 3600 % 60)
  }

  /** seconds_to_datetime, two loops that subtract whole years and whole months. */
  method SecondsToDatetime(sec: nat) returns (t: DateTime)
    ensures t == Civil(sec)
  {
    var d: nat := sec / 86400;
    var r := sec % 86400;
    var h := r / 3600;
    r := r % 3600;
    var m := r / 60;
    var s := r % 60;
    var y := 1970;
    while d >= 365 + (if Leap(y) then 1 else 0)
      invariant YearLoop(d, y) == YearLoop(sec / 86400, 1970)
    {
      d := d - (365 + (if Leap(y) then 1 else 0));
      y := y + 1;
    }
    var month := 1;
    ghost var dayOfYear := d;
    for i := 0 to 12
      invariant month == i + 1
      invariant MonthLoop(d, y, month) == MonthLoop(dayOfYear, y, 1)
    {
      if d < MonthDays(y, i + 1) {
        break;
      }
      d := d - MonthDays(y, i + 1);
      month := month + 1;
    }
    t := DateTime(y, month, d + 1, h, m, s);
  }

  lemma {:induction false} YearLoopMeaning(d: nat, y: nat)
    ensures var (y', d') := YearLoop(d, y);
            y' >= y && d' < YearDays(y') && DaysBeforeYear(y') + d' == DaysBeforeYear(y) + d
    decreases d
  {
    if d >= YearDays(y) {
      NextYear(y);
      YearLoopMeaning(d - YearDays(y), y + 1);
    }
  }

  lemma {:induction false} MonthLoopMeaning(d: nat, y: nat, m: nat)
    requires 1 <= m <= 12 && DaysBeforeMonth(y, m) + d < YearDays(y)
    ensures var (m', d') := MonthLoop(d, y, m);
            && m <= m' <= 12 && d' < MonthDays(y, m')
            && DaysBeforeMonth(y, m') + d' == DaysBeforeMonth(y, m) + d
    decreases 12 - m
  {
    if d >= MonthDays(y, m) && m < 12 {
      MonthLoopMeaning(d - MonthDays(y, m), y, m + 1);
    }
  }

  /** The loops are the right inverse of timegm: every second count is given a month in 1..12
      and a day legal for that month and year, and timegm of that date is the count again. */
  lemma CivilIsTimegmInverse(sec: nat)
    ensures Valid(Civil(sec)) && Timegm(Civil(sec)) == sec
    ensures Civil(sec).year >= 1970
  {
    hide DaysBeforeYear, DaysBeforeMonth, YearLoop, MonthLoop, Leap;
    var (y, d) := YearLoop(sec / 86400, 1970);
    YearLoopMeaning(sec / 86400, 1970);
    NothingBeforeTheFirst(y);
    MonthLoopMeaning(d, y, 1);
    TimeOfDay(sec % 86400);
    var (m, k) := MonthLoop(d, y, 1);
    assert RealDate(y, m, k + 1);
    assert Days(y, m, k + 1) == sec / 86400;
  }

  /** A 32-bit second count never leaves a 16-bit year: the last one is in 2106. */
  lemma YearOfWord(sec: nat)
    requires sec < 0x1_0000_0000
    ensures 1970 <= Civil(sec).year <= 2106
  {
    var y := Civil(sec).year;
    YearLoopMeaning(sec / 86400, 1970);
    assert sec / 86400 <= 49710 && DaysBeforeYear(2107) == 50038;
    if y > 2107 { LaterYears(2107, y); }
  }

  lemma NothingBeforeTheFirst(y: int)
    ensures DaysBeforeYear(1970) == 0 && DaysBeforeMonth(y, 1) == 0
  {}

  lemma TimeOfDay(r: nat)
    requires r < 86400
    ensures r / 3600 < 24 && r % 3600 / 60 < 60 && r % 3600 % 60 < 60
    ensures 3600 * (r / 3600) + 60 * (r % 3600 / 60) + r % 3600 % 60 == r
  {}

  /** It is the left inverse too, on every real date from 1970 on. */
  lemma CivilOfTimegm(t: DateTime)
    requires Valid(t) && t.year >= 1970
    ensures Timegm(t) >= 0 && Civil(Timegm(t)) == t
  {
    if t.year > 1970 { LaterYears(1970, t.year); }
    CivilIsTimegmInverse(Timegm(t));
    TimegmInjective(Civil(Timegm(t)), t);
  }

  /** Later seconds are lexicographically later dates, and only those. */
  lemma CivilOrders(s: nat, s': nat)
    ensures s < s' <==> Before(Civil(s), Civil(s'))
  {
    CivilIsTimegmInverse(s);
    CivilIsTimegmInverse(s');
    if Before(Civil(s), Civil(s')) {
      TimegmOrders(Civil(s), Civil(s'));
    } else if s < s' {
      if Before(Civil(s'), Civil(s)) {
        TimegmOrders(Civil(s'), Civil(s));
      }
    }
  }
}
