/** Unix time and the Gregorian calendar. */
module DateTime {
  const SECONDS_PER_DAY: int := 86400
  const TIME_LIMIT: int := 0x1_0000_0000

  datatype Date = Date(year: nat, month: nat, day: nat, dayOfWeek: nat, hours: nat, minutes: nat, seconds: nat)

  // ----- the calendar, by its rules -----

  predicate Leap(y: nat) {
    y % 4 == 0 && (y % 100 != 0 || y % 400 == 0)
  }

  function MonthDays(y: nat, m: nat): nat {
    if m == 2 then (if Leap(y) then 29 else 28)
    else if m == 4 || m == 6 || m == 9 || m == 11 then 30
    else 31
  }

  function YearDays(y: nat): nat {
    if Leap(y) then 366 else 365
  }

  /** Days from January 1st, 1970 to January 1st of a year. */
  function DaysToYear(y: nat): nat {
    if y <= 1970 then 0 else DaysToYear(y - 1) + YearDays(y - 1)
  }

  /** Days from January 1st to the first of a month. */
  function DaysToMonth(y: nat, m: nat): nat {
    if m <= 1 then 0 else DaysToMonth(y, m - 1) + MonthDays(y, m - 1)
  }

  predicate ValidDay(y: nat, m: nat, d: nat) {
    1970 <= y && 1 <= m <= 12 && 1 <= d <= MonthDays(y, m)
  }

  /** Days since the epoch. */
  function DayNumber(y: nat, m: nat, d: nat): nat
    requires ValidDay(y, m, d)
  {
    DaysToYear(y) + DaysToMonth(y, m) + d - 1
  }

  predicate Valid(date: Date) {
    ValidDay(date.year, date.month, date.day) && date.hours < 24 && date.minutes < 60 && date.seconds < 60
  }

  /** Seconds since the epoch. */
  function Timestamp(date: Date): nat
    requires Valid(date)
  {
    DayNumber(date.year, date.month, date.day) * SECONDS_PER_DAY + 3600 * date.hours + 60 * date.minutes + date.seconds
  }

  // ----- closed forms -----

  /** Leap days up to and including year `y`. */
  function LeapDays(y: nat): int {
    y / 4 - y / 100 + y / 400
  }

  lemma {:induction false} YearClosed(y: nat)
    requires 1970 <= y
    ensures DaysToYear(y) == 365 * (y - 1970) + LeapDays(y - 1) - 477
  {
    if y > 1970 {
      YearClosed(y - 1);
      LeapStep(y - 1);
    }
  }

  lemma LeapStep(y: nat)
    requires y > 0
    ensures LeapDays(y) - LeapDays(y - 1) == if Leap(y) then 1 else 0
  {
    Every4(y);
    Every100(y);
    Every400(y);
  }

  lemma Every4(y: nat)
    requires y > 0
    ensures y / 4 - (y - 1) / 4 == if y % 4 == 0 then 1 else 0
  {
  }

  lemma Every100(y: nat)
    requires y > 0
    ensures y / 100 - (y - 1) / 100 == if y % 100 == 0 then 1 else 0
    ensures y % 100 == 0 ==> y % 4 == 0
  {
    var q, r := (y - 1) / 100, (y - 1) % 100;
    Quotient100(y, if r == 99 then q + 1 else q, if r == 99 then 0 else r + 1);
    if r == 99 {
      Quotient4(y, 25 * (q + 1));
    }
  }

  lemma Every400(y: nat)
    requires y > 0
    ensures y / 400 - (y - 1) / 400 == if y % 400 == 0 then 1 else 0
    ensures y % 400 == 0 ==> y % 100 == 0
  {
    var q, r := (y - 1) / 400, (y - 1) % 400;
    Quotient400(y, if r == 399 then q + 1 else q, if r == 399 then 0 else r + 1);
    if r == 399 {
      Quotient100(y, 4 * (q + 1), 0);
    }
  }

  lemma Quotient4(y: int, q: int)
    requires y == 4 * q
    ensures y % 4 == 0
  {
  }

  lemma Quotient100(y: int, q: int, r: int)
    requires y == 100 * q + r && 0 <= r < 100
    ensures y / 100 == q && y % 100 == r
  {
  }

  lemma Quotient400(y: int, q: int, r: int)
    requires y == 400 * q + r && 0 <= r < 400
    ensures y / 400 == q && y % 400 == r
  {
  }

  /** January and February count as months 13 and 14 of the year before. */
  function ShiftedYear(y: nat, m: nat): int {
    if m <= 2 then y - 1 else y
  }

  function ShiftedMonth(m: nat): nat {
    if m <= 2 then m + 12 else m
  }

  lemma {:induction false} MonthClosed(y: nat, m: nat)
    requires 1 <= m <= 12
    ensures DaysToMonth(y, m) == 30 * ShiftedMonth(m) + 3 * (ShiftedMonth(m) + 1) / 5 - if m <= 2 then 398 else if Leap(y) then 32 else 33
  {
    MonthTable(y);
  }

  lemma {:induction false} MonthTable(y: nat)
    ensures var x := if Leap(y) then 1 else 0;
            && DaysToMonth(y, 1) == 0 && DaysToMonth(y, 2) == 31 && DaysToMonth(y, 3) == 59 + x && DaysToMonth(y, 4) == 90 + x
            && DaysToMonth(y, 5) == 120 + x && DaysToMonth(y, 6) == 151 + x && DaysToMonth(y, 7) == 181 + x
            && DaysToMonth(y, 8) == 212 + x && DaysToMonth(y, 9) == 243 + x && DaysToMonth(y, 10) == 273 + x
            && DaysToMonth(y, 11) == 304 + x && DaysToMonth(y, 12) == 334 + x
  {
    var a := DaysToMonth(y, 4);
    var b := DaysToMonth(y, 8);
    var c := DaysToMonth(y, 12);
  }

  /** Day numbers by the formula of convertDateToUnixTime. */
  lemma DayClosed(y: nat, m: nat, d: nat)
    requires ValidDay(y, m, d)
    ensures var s, n: int := ShiftedYear(y, m), ShiftedMonth(m);
            DayNumber(y, m, d) == 365 * s + LeapDays(s) + 30 * n + 3 * (n + 1) / 5 + d - 719561
  {
    hide Leap;
    YearClosed(y);
    MonthClosed(y, m);
    if m > 2 {
      LeapStep(y);
    }
  }

  // ----- the conversions -----

  /** Days since the epoch, from years and months that begin in March. */
  function DayFormula(y: int, m: int, d: int): int {
    365 * y + y / 4 - y / 100 + y / 400 + 30 * m + 3 * (m + 1) / 5 + d - 719561
  }

  /** convertDateToUnixTime, in 32 bits. */
  method ConvertDateToUnixTime(date: Date) returns (t: nat)
    requires Valid(date) && Timestamp(date) < TIME_LIMIT
    ensures t == Timestamp(date)
  {
    hide DayNumber, ValidDay, DayFormula;
    var y: int, m: int, d: int := date.year, date.month, date.day;
    DayByFormula(date.year, date.month, date.day);
    if m <= 2 {
      m := m + 12;
      y := y - 1;
    }
    var x := DayFormula(y, m, d);
    x := x * 86400;
    x := x + 3600 * date.hours + 60 * date.minutes + date.seconds;
    t := x % TIME_LIMIT;
  }

  lemma DayByFormula(y: nat, m: nat, d: nat)
    requires ValidDay(y, m, d)
    ensures DayFormula(ShiftedYear(y, m), ShiftedMonth(m), d) == DayNumber(y, m, d)
  {
    hide DayNumber;
    DayClosed(y, m, d);
  }

  lemma LeapDefinition(y: nat)
    ensures LeapDays(y) == y / 4 - y / 100 + y / 400
  {
  }

  /** computeDayOfWeek: Zeller's congruence; Monday is 1. */
  method ComputeDayOfWeek(year: nat, month: nat, day: nat) returns (w: nat)
    requires ValidDay(year, month, day)
    ensures w == (DayNumber(year, month, day) + 3) % 7 + 1
  {
    hide DayNumber, DaysToYear, DaysToMonth, LeapDays, Leap;
    var y: int, m: int := year, month;
    if m <= 2 {
      m := m + 12;
      y := y - 1;
    }
    DayClosed(year, month, day);
    LeapDefinition(y);
    var j, k := y / 100, y % 100;
    var h := day + 26 * (m + 1) / 10 + k + k / 4 + 5 * j + j / 4;
    Zeller(y, m, day);
    w := (h + 5) % 7 + 1;
  }

  /** Zeller's sum and the day number leave the same remainder. */
  lemma Zeller(y: nat, m: nat, d: nat)
    requires 3 <= m <= 14
    ensures var h := d + 26 * (m + 1) / 10 + y % 100 + y % 100 / 4 + 5 * (y / 100) + y / 100 / 4;
            var n := 365 * y + (y / 4 - y / 100 + y / 400) + 30 * m + 3 * (m + 1) / 5 + d - 719561;
            (h + 5) % 7 == (n + 3) % 7
  {
    var j, k := y / 100, y % 100;
    var h := d + 26 * (m + 1) / 10 + k + k / 4 + 5 * j + j / 4;
    var n := 365 * y + (y / 4 - y / 100 + y / 400) + 30 * m + 3 * (m + 1) / 5 + d - 719561;
    Centuries(y);
    MonthSteps(m);
    var q := 5217 * j + 52 * k + 4 * m - 102795;
    assert n + 3 - (h + 5) == 7 * q;
    SameRest(h + 5, n + 3, q);
  }

  lemma Centuries(y: nat)
    ensures var j, k := y / 100, y % 100; y == 100 * j + k && y / 4 == 25 * j + k / 4 && y / 400 == j / 4
  {
  }

  lemma MonthSteps(m: nat)
    requires 3 <= m <= 14
    ensures 2 * m + 3 * (m + 1) / 5 - 26 * (m + 1) / 10 == -2
  {
  }

  lemma SameRest(a: int, b: int, q: int)
    requires b - a == 7 * q
    ensures a % 7 == b % 7
  {
  }

  // ----- from Unix time -----

  /** Centuries are accounted for, then years of 365.25 days counted from March. */
  function YearBase(n: nat): int {
    var a := (4 * n + 102032) / 146097 + 15;
    n + 2442113 + a - a / 4
  }

  function YearCount(b: int): int {
    (20 * b - 2442) / 7305
  }

  function DayRest(b: int): int {
    var c := YearCount(b);
    b - 365 * c - c / 4
  }

  const DAY_LIMIT: nat := 49711  // days that begin within 2^32 seconds

  lemma CenturyPart(n: nat)
    requires n < DAY_LIMIT
    ensures YearBase(n) == n + if n < 47541 then 2442125 else 2442126
  {
  }

  /** The day counted from March lies between 123 and 488, and is the last one in leap years only. */
  lemma DayPart(b: int)
    requires 2442125 <= b < 2442126 + DAY_LIMIT
    ensures var c, d := YearCount(b), DayRest(b);
            && 6685 <= c <= 6822 && 123 <= d <= 488 && (d == 488 ==> c % 4 == 3)
            && (b <= 2489665 ==> c <= 6815) && (b >= 2489667 ==> c >= 6816)
  {
    var c := YearCount(b);
    var r := 20 * b - 2442 - 7305 * c;
    assert 0 <= r < 7305;
    assert 20 * DayRest(b) == 5 * (c % 4) + r + 2442 by {
      assert c == 4 * (c / 4) + c % 4;
    }
  }

  function MonthCount(d: int): int {
    d * 1000 / 30601
  }

  function MonthDay(d: int): int {
    var e := MonthCount(d);
    d - e * 30 - e * 601 / 1000
  }

  /** Days of the months 4 to 15, which are March to February. */
  function ShiftedDays(e: int): int {
    if e == 15 then 29 else if e == 5 || e == 7 || e == 10 || e == 12 then 30 else 31
  }

  lemma MonthPart(d: int)
    requires 123 <= d <= 488
    ensures var e, f := MonthCount(d), MonthDay(d);
            4 <= e <= 15 && 1 <= f <= ShiftedDays(e) && 30 * e + 3 * e / 5 + f == d && (e == 15 && f == 29 ==> d == 488)
  {
    var e := MonthCount(d);
    assert 30601 * e <= 1000 * d < 30601 * (e + 1);
  }

  /** Year and month from those counted from March. */
  function CivilYear(c: int, e: int): int {
    if e <= 13 then c - 4716 else c - 4715
  }

  function CivilMonth(e: int): int {
    if e <= 13 then e - 1 else e - 13
  }

  lemma CivilDay(n: nat)
    requires n < DAY_LIMIT
    ensures var b := YearBase(n);
            var c, d := YearCount(b), DayRest(b);
            var e, f := MonthCount(d), MonthDay(d);
            && 0 <= c <= 6822 && 0 <= d && 4 <= e <= 15 && 1 <= f && CivilYear(c, e) >= 1970
            && ValidDay(CivilYear(c, e), CivilMonth(e), f) && DayNumber(CivilYear(c, e), CivilMonth(e), f) == n
  {
    hide YearBase, YearCount, DayRest, MonthCount, MonthDay, DayNumber;
    var b := YearBase(n);
    CenturyPart(n);
    DayPart(b);
    var c, d := YearCount(b), DayRest(b);
    MonthPart(d);
    var e, f := MonthCount(d), MonthDay(d);
    YearPart(n, c, d);
    LeapEnd(n, c, d, e, f);
    DayClosed(CivilYear(c, e), CivilMonth(e), f);
  }

  /** Day number of a year and a day counted from March. */
  lemma YearPart(n: nat, c: int, d: int)
    requires n < DAY_LIMIT && c == YearCount(YearBase(n)) && d == DayRest(YearBase(n))
    ensures c >= 6685 && 365 * (c - 4716) + LeapDays(c - 4716) + d - 30 - 719561 == n
    ensures (c == 6685 ==> d >= 429) && (d == 488 ==> c != 6815)
  {
    hide YearBase;
    CenturyPart(n);
    DayPart(YearBase(n));
  }

  lemma LeapEnd(n: nat, c: int, d: int, e: int, f: int)
    requires 6685 <= c <= 6822 && 4 <= e <= 15 && 1 <= f <= ShiftedDays(e)
    requires e == 15 && f == 29 ==> c % 4 == 3 && c != 6815
    requires c == 6685 ==> e >= 14
    ensures ValidDay(CivilYear(c, e), CivilMonth(e), f)
  {
  }

  /** convertUnixTimeToDate gives the valid date whose timestamp it was given. */
  method ConvertUnixTimeToDate(timestamp: nat) returns (date: Date)
    requires timestamp < TIME_LIMIT
    ensures Valid(date) && Timestamp(date) == timestamp
    ensures date.dayOfWeek == (timestamp / SECONDS_PER_DAY + 3) % 7 + 1
  {
    hide DayNumber, ValidDay, YearBase, YearCount, DayRest, MonthCount, MonthDay;
    var t := timestamp;
    var seconds := t % 60;
    t := t / 60;
    var minutes := t % 60;
    t := t / 60;
    var hours := t % 24;
    t := t / 24;
    TimeOfDay(timestamp);
    CivilDay(t);
    var b := YearBase(t);
    var c := YearCount(b);
    var d := DayRest(b);
    var e := MonthCount(d);
    var f := MonthDay(d);
    var day := f;
    if e <= 13 {
      c := c - 4716;
      e := e - 1;
    } else {
      c := c - 4715;
      e := e - 13;
    }
    var w := ComputeDayOfWeek(c, e, day);
    date := Date(c, e, day, w, hours, minutes, seconds);
  }

  lemma TimeOfDay(t: nat)
    requires t < TIME_LIMIT
    ensures var m := t / 60;
            var h := m / 60;
            var n := h / 24;
            && n == t / SECONDS_PER_DAY && n < DAY_LIMIT
            && t == n * SECONDS_PER_DAY + 3600 * (h % 24) + 60 * (m % 60) + t % 60
  {
    var m := t / 60;
    var h := m / 60;
    var n := h / 24;
    var rest := 3600 * (h % 24) + 60 * (m % 60) + t % 60;
    assert t == n * SECONDS_PER_DAY + rest && 0 <= rest < SECONDS_PER_DAY;
  }

  // ----- one date for each timestamp -----

  lemma {:induction false} YearsApart(y: nat, z: nat)
    requires 1970 <= y < z
    ensures DaysToYear(y) + YearDays(y) <= DaysToYear(z)
  {
    if y + 1 < z {
      YearsApart(y, z - 1);
    }
  }

  lemma {:induction false} MonthsApart(y: nat, m: nat, k: nat)
    requires 1 <= m < k <= 12
    ensures DaysToMonth(y, m) + MonthDays(y, m) <= DaysToMonth(y, k)
  {
    MonthTable(y);
  }

  lemma {:induction false} MonthInYear(y: nat, m: nat)
    requires 1 <= m <= 12
    ensures DaysToMonth(y, m) + MonthDays(y, m) <= YearDays(y)
  {
    MonthTable(y);
  }

  lemma SameDay(y: nat, m: nat, d: nat, z: nat, k: nat, f: nat)
    requires ValidDay(y, m, d) && ValidDay(z, k, f) && DayNumber(y, m, d) == DayNumber(z, k, f)
    ensures y == z && m == k && d == f
  {
    hide DaysToYear, DaysToMonth, MonthDays, YearDays;
    MonthInYear(y, m);
    MonthInYear(z, k);
    if y < z {
      YearsApart(y, z);
    } else if z < y {
      YearsApart(z, y);
    } else if m < k {
      MonthsApart(y, m, k);
    } else if k < m {
      MonthsApart(y, k, m);
    }
  }

  /** Two valid dates with the same timestamp differ in nothing but, perhaps, the weekday that they claim. */
  lemma TimestampInjective(a: Date, b: Date)
    requires Valid(a) && Valid(b) && Timestamp(a) == Timestamp(b)
    ensures a.(dayOfWeek := b.dayOfWeek) == b
  {
    hide DayNumber, ValidDay;
    var n, k := DayNumber(a.year, a.month, a.day), DayNumber(b.year, b.month, b.day);
    var s, t := 3600 * a.hours + 60 * a.minutes + a.seconds, 3600 * b.hours + 60 * b.minutes + b.seconds;
    assert (n - k) * SECONDS_PER_DAY == t - s && -SECONDS_PER_DAY < t - s < SECONDS_PER_DAY;
    SameDay(a.year, a.month, a.day, b.year, b.month, b.day);
  }
}
