/** Stored timestamps: formatTime (internal/store/reports.go) renders an instant as an RFC 3339 UTC
    string with second precision, and SQL compares those strings byte by byte.

    An instant is a number of nanoseconds since the start of year 0000 (UTC, proleptic Gregorian). */
module Timestamps {
  import opened Text

  const SECOND: nat := 1_000_000_000
  const DAY_SECONDS: nat := 86400

  /** What survives storage: the whole seconds of an instant. */
  function Seconds(t: int): int { t / SECOND }

  // ----- The calendar -----

  predicate Leap(y: nat) { y % 4 == 0 && (y % 100 != 0 || y % 400 == 0) }

  function YearLength(y: nat): nat { if Leap(y) then 366 else 365 }

  /** Days from 0000-01-01 to the first of January of year y. */
  function YearStart(y: nat): nat { if y == 0 then 0 else YearStart(y - 1) + YearLength(y - 1) }

  function MonthLength(y: nat, m: nat): nat
    requires 1 <= m <= 12
  {
    if m == 2 then (if Leap(y) then 29 else 28)
    else if m == 4 || m == 6 || m == 9 || m == 11 then 30
    else 31
  }

  /** Days from the start of year y to the first of month m. */
  function MonthStart(y: nat, m: nat): nat
    requires 1 <= m <= 13
  {
    if m == 1 then 0 else MonthStart(y, m - 1) + MonthLength(y, m - 1)
  }

  /** The year holding day d, searched upwards from y. */
  function YearFrom(d: nat, y: nat): (r: nat)
    requires YearStart(y) <= d
    ensures y <= r && YearStart(r) <= d < YearStart(r) + YearLength(r)
    decreases d - YearStart(y)
  {
    if d < YearStart(y + 1) then y else YearFrom(d, y + 1)
  }

  /** The month holding the zero-based day of the year doy, searched upwards from m. */
  function MonthFrom(y: nat, doy: nat, m: nat): (r: nat)
    requires 1 <= m <= 12 && MonthStart(y, m) <= doy < YearLength(y)
    ensures m <= r <= 12 && MonthStart(y, r) <= doy < MonthStart(y, r + 1)
    decreases 12 - m
  {
    if doy < MonthStart(y, m + 1) then m
    else
      assert m < 12 by { YearIsTwelveMonths(y); }
      MonthFrom(y, doy, m + 1)
  }

  lemma YearIsTwelveMonths(y: nat)
    ensures MonthStart(y, 13) == YearLength(y)
  {
    assert MonthStart(y, 2) == 31;
    assert MonthStart(y, 3) == 31 + MonthLength(y, 2);
    assert MonthStart(y, 5) == MonthStart(y, 3) + 61;
    assert MonthStart(y, 7) == MonthStart(y, 5) + 61;
    assert MonthStart(y, 9) == MonthStart(y, 7) + 62;
    assert MonthStart(y, 11) == MonthStart(y, 9) + 61;
    assert MonthStart(y, 13) == MonthStart(y, 11) + 61;
  }

  function YearOf(sec: nat): nat { SplitDay(sec / DAY_SECONDS).year }

  // ----- Rendering -----

  /** The year as time.Format prints it: at least four digits, more from year 10000 on. */
  function FormatYear(y: nat): string { if y < 10000 then Pad(y, 4) else Decimal(y) }

  function FormatMonthDay(y: nat, doy: nat): string
    requires doy < YearLength(y)
  {
    var m := MonthFrom(y, doy, 1);
    TwoFields(m, doy - MonthStart(y, m) + 1)
  }

  function TwoFields(m: nat, d: nat): string { Pad(m, 2) + ("-" + Pad(d, 2)) }

  /** A day as its year and zero-based day of that year. */
  datatype YearDay = YearDay(year: nat, day: nat)

  predicate InYear(p: YearDay) { p.day < YearLength(p.year) }

  function SplitDay(d: nat): (p: YearDay)
    ensures InYear(p) && d == YearStart(p.year) + p.day && p.year == YearFrom(d, 0)
  {
    var y := YearFrom(d, 0);
    YearDay(y, d - YearStart(y))
  }

  function FormatYearDay(p: YearDay): string
    requires InYear(p)
  {
    DateFields(p.year, FormatMonthDay(p.year, p.day))
  }

  function FormatDate(d: nat): string { FormatYearDay(SplitDay(d)) }

  function DateFields(y: nat, rest: string): string { FormatYear(y) + ("-" + rest) }

  function FormatClock(sod: nat): string
    requires sod < DAY_SECONDS
  {
    Pad(sod / 3600, 2) + (":" + (Pad(sod / 60 % 60, 2) + (":" + (Pad(sod % 60, 2) + "Z"))))
  }

  function FormatSeconds(sec: nat): string {
    FormatDate(sec / DAY_SECONDS) + ("T" + FormatClock(sec % DAY_SECONDS))
  }

  /** formatTime: RFC 3339 in UTC, fractions of a second dropped. */
  function FormatTime(t: nat): string { FormatSeconds(Seconds(t)) }

  // ----- Order -----

  /** A later year starts when the earlier one is over. */
  lemma {:induction false} YearStartMonotone(y: nat, z: nat)
    requires y < z
    ensures YearStart(y) + YearLength(y) <= YearStart(z)
  {
    if y < z - 1 { YearStartMonotone(y, z - 1); }
  }

  lemma {:induction false} MonthStartMonotone(y: nat, m: nat, n: nat)
    requires 1 <= m <= n <= 13
    ensures MonthStart(y, m) <= MonthStart(y, n)
    decreases n - m
  {
    if m < n { MonthStartMonotone(y, m, n - 1); }
  }

  /** One separator and one fixed-width field in front of the rest. */
  lemma FieldOrder(n: nat, m: nat, w: nat, sep: string, x: string, y: string)
    requires n < Pow10(w) && m < Pow10(w)
    ensures Less(Pad(n, w) + (sep + x), Pad(m, w) + (sep + y)) <==> n < m || (n == m && Less(x, y))
    ensures Pad(n, w) + (sep + x) == Pad(m, w) + (sep + y) ==> n == m && x == y
  {
    PadOrder(n, m, w);
    LessConcat(Pad(n, w), Pad(m, w), sep + x, sep + y);
    LessConcat(sep, sep, x, y);
    LessIrreflexive(sep);
    var s, t := Pad(n, w) + (sep + x), Pad(m, w) + (sep + y);
    if s == t {
      assert s[..w] == Pad(n, w) && t[..w] == Pad(m, w);
      assert s[w + |sep|..] == x && t[w + |sep|..] == y;
    }
  }

  lemma TwoDigits()
    ensures Pow10(2) == 100 && Pow10(4) == 10000
  {
    assert Pow10(2) == 10 * Pow10(1);
    assert Pow10(4) == 10 * (10 * Pow10(2));
  }

  /** Splitting a day of the year into month and day of the month keeps the order. */
  lemma MonthSplit(y: nat, a: nat, b: nat, m: nat, n: nat)
    requires 1 <= m <= 12 && MonthStart(y, m) <= a < MonthStart(y, m + 1)
    requires 1 <= n <= 12 && MonthStart(y, n) <= b < MonthStart(y, n + 1)
    ensures a < b <==> m < n || (m == n && a - MonthStart(y, m) < b - MonthStart(y, n))
  {
    if m < n { MonthStartMonotone(y, m + 1, n); }
    if n < m { MonthStartMonotone(y, n + 1, m); }
  }

  lemma DayOfMonth(y: nat, a: nat, m: nat)
    requires 1 <= m <= 12 && MonthStart(y, m) <= a < MonthStart(y, m + 1)
    ensures 0 <= a - MonthStart(y, m) < 31
  {
    assert MonthStart(y, m + 1) == MonthStart(y, m) + MonthLength(y, m);
  }

  predicate EarlierDay(p: YearDay, q: YearDay) { p.year < q.year || (p.year == q.year && p.day < q.day) }

  /** Splitting days into years and days of the year keeps the order. */
  lemma SplitDayOrder(a: nat, b: nat)
    ensures EarlierDay(SplitDay(a), SplitDay(b)) <==> a < b
  {
    var p, q := SplitDay(a), SplitDay(b);
    if p.year < q.year { YearStartMonotone(p.year, q.year); }
    if q.year < p.year { YearStartMonotone(q.year, p.year); }
    SplitOrder(a, p.year, YearStart(p.year), YearLength(p.year), b, q.year, YearStart(q.year), YearLength(q.year));
  }

  /** Positions in consecutive intervals compare by interval first, then by offset. */
  lemma SplitOrder(a: nat, y: nat, sa: nat, la: nat, b: nat, z: nat, sb: nat, lb: nat)
    requires sa <= a < sa + la && sb <= b < sb + lb
    requires (y < z ==> sa + la <= sb) && (z < y ==> sb + lb <= sa) && (y == z ==> sa == sb)
    ensures a < b <==> y < z || (y == z && a - sa < b - sb)
  {
  }

  /** The two-field rendering sorts like the pair of numbers. */
  lemma TwoFieldOrder(m: nat, i: nat, n: nat, j: nat)
    requires m < 100 && i < 100 && n < 100 && j < 100
    ensures Less(TwoFields(m, i), TwoFields(n, j)) <==> m < n || (m == n && i < j)
  {
    TwoDigits();
    PadOrder(i, j, 2);
    FieldOrder(m, n, 2, "-", Pad(i, 2), Pad(j, 2));
  }

  lemma MonthDayOrder(y: nat, a: nat, b: nat)
    requires a < YearLength(y) && b < YearLength(y)
    ensures Less(FormatMonthDay(y, a), FormatMonthDay(y, b)) <==> a < b
  {
    var m, n := MonthFrom(y, a, 1), MonthFrom(y, b, 1);
    MonthSplit(y, a, b, m, n);
    var i, j := a - MonthStart(y, m) + 1, b - MonthStart(y, n) + 1;
    DayOfMonth(y, a, m);
    DayOfMonth(y, b, n);
    assert FormatMonthDay(y, a) == TwoFields(m, i) && FormatMonthDay(y, b) == TwoFields(n, j);
    TwoFieldOrder(m, i, n, j);
  }

  lemma DateFieldsOrder(y: nat, r: string, z: nat, s: string)
    requires y <= 9999 && z <= 9999
    ensures Less(DateFields(y, r), DateFields(z, s)) <==> y < z || (y == z && Less(r, s))
  {
    TwoDigits();
    FieldOrder(y, z, 4, "-", r, s);
  }

  /** Year first, then the day of the year. */
  lemma YearDayOrder(p: YearDay, q: YearDay)
    requires InYear(p) && InYear(q) && p.year <= 9999 && q.year <= 9999
    ensures Less(FormatYearDay(p), FormatYearDay(q)) <==> EarlierDay(p, q)
  {
    if p.year == q.year { MonthDayOrder(p.year, p.day, q.day); }
    DateFieldsOrder(p.year, FormatMonthDay(p.year, p.day), q.year, FormatMonthDay(q.year, q.day));
  }

  lemma DateOrder(a: nat, b: nat)
    requires SplitDay(a).year <= 9999 && SplitDay(b).year <= 9999
    ensures Less(FormatDate(a), FormatDate(b)) <==> a < b
  {
    SplitDayOrder(a, b);
    YearDayOrder(SplitDay(a), SplitDay(b));
  }

  lemma DateWidth(a: nat)
    requires SplitDay(a).year <= 9999
    ensures |FormatDate(a)| == 10
  {
  }

  lemma ClockOrder(a: nat, b: nat)
    requires a < DAY_SECONDS && b < DAY_SECONDS
    ensures Less(FormatClock(a), FormatClock(b)) <==> a < b
  {
    assert Pow10(2) == 100;
    LessIrreflexive("Z");
    FieldOrder(a % 60, b % 60, 2, "", "Z", "Z");
    assert "" + "Z" == "Z";
    FieldOrder(a / 60 % 60, b / 60 % 60, 2, ":", Pad(a % 60, 2) + "Z", Pad(b % 60, 2) + "Z");
    FieldOrder(a / 3600, b / 3600, 2, ":",
               Pad(a / 60 % 60, 2) + (":" + (Pad(a % 60, 2) + "Z")),
               Pad(b / 60 % 60, 2) + (":" + (Pad(b % 60, 2) + "Z")));
    ClockSplit(a);
    ClockSplit(b);
  }

  lemma ClockSplit(a: nat)
    ensures a == 3600 * (a / 3600) + 60 * (a / 60 % 60) + a % 60
  {
    var m, s := a / 60, a % 60;
    HoursOfMinutes(m, s);
    assert 60 * m + s == a;
  }

  lemma HoursOfMinutes(m: nat, s: nat)
    requires s < 60
    ensures (60 * m + s) / 3600 == m / 60 && m == 60 * (m / 60) + m % 60
  {
    var h, r := m / 60, m % 60;
    assert 60 * m + s == 3600 * h + (60 * r + s) && 0 <= 60 * r + s < 3600;
  }

  /** Byte order of the stored strings is chronological order at second granularity, years 0000 to 9999. */
  lemma StoredOrder(a: nat, b: nat)
    requires YearOf(Seconds(a)) <= 9999 && YearOf(Seconds(b)) <= 9999
    ensures Less(FormatTime(a), FormatTime(b)) <==> Seconds(a) < Seconds(b)
  {
    var s, t := Seconds(a), Seconds(b);
    var p, q := s / DAY_SECONDS, t / DAY_SECONDS;
    DateOrder(p, q);
    DateOrder(q, p);
    ClockOrder(s % DAY_SECONDS, t % DAY_SECONDS);
    var x, y := FormatClock(s % DAY_SECONDS), FormatClock(t % DAY_SECONDS);
    DateWidth(p);
    DateWidth(q);
    LessConcat(FormatDate(p), FormatDate(q), "T" + x, "T" + y);
    LessConcat("T", "T", x, y);
    LessTotal(FormatDate(p), FormatDate(q));
  }

  /** Equal stored strings are equal seconds: together with StoredOrder, all six comparisons agree. */
  lemma StoredEquality(a: nat, b: nat)
    requires YearOf(Seconds(a)) <= 9999 && YearOf(Seconds(b)) <= 9999
    ensures FormatTime(a) == FormatTime(b) <==> Seconds(a) == Seconds(b)
  {
    StoredOrder(a, b);
    StoredOrder(b, a);
    LessIrreflexive(FormatTime(a));
  }

  // ----- The calendar in closed form -----

  /** The proleptic Gregorian calendar, without counting up: how many days lie before a date. */
  const BEFORE_MONTH: seq<nat> := [0, 31, 59, 90, 120, 151, 181, 212, 243, 273, 304, 334, 365]

  predicate LeapYear(y: nat) { (y % 4 == 0 && y % 100 != 0) || y % 400 == 0 }

  function DaysBeforeMonth(y: nat, m: nat): nat
    requires 1 <= m <= 13
  {
    BEFORE_MONTH[m - 1] + if m > 2 && LeapYear(y) then 1 else 0
  }

  function DaysBeforeYear(y: nat): nat { 365 * y + (y + 3) / 4 - (y + 99) / 100 + (y + 399) / 400 }

  predicate ValidDate(y: nat, m: nat, d: nat) {
    1 <= m <= 12 && 1 <= d <= DaysBeforeMonth(y, m + 1) - DaysBeforeMonth(y, m)
  }

  function DayNumber(y: nat, m: nat, d: nat): nat
    requires ValidDate(y, m, d)
  {
    DaysBeforeYear(y) + DaysBeforeMonth(y, m) + d - 1
  }

  lemma {:induction false} YearStartClosed(y: nat)
    ensures YearStart(y) == DaysBeforeYear(y)
  {
    if y > 0 {
      YearStartClosed(y - 1);
      CenturyStep(y - 1);
    }
  }

  /** Rounding up passes a multiple exactly at that multiple. */
  lemma CenturyStep(y: nat)
    ensures DaysBeforeYear(y + 1) == DaysBeforeYear(y) + YearLength(y)
  {
    UpTo4(y);
    UpTo100(y);
    UpTo400(y);
    Multiples(y);
  }

  lemma UpTo4(y: nat)
    ensures (y + 1 + 3) / 4 == (y + 3) / 4 + if y % 4 == 0 then 1 else 0
  {
  }

  lemma UpTo100(y: nat)
    ensures (y + 1 + 99) / 100 == (y + 99) / 100 + if y % 100 == 0 then 1 else 0
  {
  }

  lemma UpTo400(y: nat)
    ensures (y + 1 + 399) / 400 == (y + 399) / 400 + if y % 400 == 0 then 1 else 0
  {
  }

  lemma Multiples(y: nat)
    ensures (y % 400 == 0 ==> y % 100 == 0) && (y % 100 == 0 ==> y % 4 == 0)
  {
    NoRemainder(4 * (y / 400), y / 100, y % 100, 100, y % 400);
    NoRemainder(25 * (y / 100), y / 4, y % 4, 4, y % 100);
  }

  /** Of two ways to write a number in multiples of n, when one has no remainder the other has none. */
  lemma NoRemainder(a: nat, b: nat, r: nat, n: nat, rest: nat)
    requires n > 0 && r < n && n * a + rest == n * b + r
    ensures rest == 0 ==> r == 0
  {
    MultipleSize(n, a - b);
    assert n * (a - b) == n * a - n * b;
  }

  lemma MultipleSize(n: nat, x: int)
    requires n > 0
    ensures x >= 1 ==> n * x >= n
    ensures x <= -1 ==> n * x <= 0 - n
  {
  }

  lemma {:induction false} MonthStartClosed(y: nat, m: nat)
    requires 1 <= m <= 13
    ensures MonthStart(y, m) == DaysBeforeMonth(y, m)
  {
    if m > 1 {
      MonthStartClosed(y, m - 1);
      MonthStep(m - 1, Leap(y), MonthLength(y, m - 1));
      assert LeapYear(y) == Leap(y);
    }
  }

  lemma MonthStep(m: nat, leap: bool, length: nat)
    requires 1 <= m <= 12
    requires length == (if m == 2 then (if leap then 29 else 28) else if m in {4, 6, 9, 11} then 30 else 31)
    ensures BEFORE_MONTH[m] + (if m + 1 > 2 && leap then 1 else 0) ==
            BEFORE_MONTH[m - 1] + (if m > 2 && leap then 1 else 0) + length
  {
  }

  /** A day that lies in a month is found there. */
  lemma {:induction false} MonthFound(y: nat, doy: nat, m: nat, from: nat)
    requires 1 <= from <= m <= 12 && doy < YearLength(y)
    requires MonthStart(y, m) <= doy < MonthStart(y, m + 1)
    requires MonthStart(y, from) <= doy
    ensures MonthFrom(y, doy, from) == m
    decreases m - from
  {
    if from < m {
      MonthStartMonotone(y, from + 1, m);
      MonthFound(y, doy, m, from + 1);
    }
  }

  lemma YearFound(d: nat, y: nat)
    requires YearStart(y) <= d < YearStart(y) + YearLength(y)
    ensures SplitDay(d) == YearDay(y, d - YearStart(y))
  {
    var z := SplitDay(d).year;
    if y < z { YearStartMonotone(y, z); }
    if z < y { YearStartMonotone(z, y); }
    SameInterval(d, y, YearStart(y), YearLength(y), z, YearStart(z), YearLength(z));
  }

  lemma SameInterval(d: nat, y: nat, sy: nat, ly: nat, z: nat, sz: nat, lz: nat)
    requires sy <= d < sy + ly && sz <= d < sz + lz
    requires (y < z ==> sy + ly <= sz) && (z < y ==> sz + lz <= sy)
    ensures y == z
  {
  }

  /** Where a month of a year begins and ends. */
  lemma MonthSpan(y: nat, m: nat)
    requires 1 <= m <= 12
    ensures MonthStart(y, m) == DaysBeforeMonth(y, m) && MonthStart(y, m + 1) == DaysBeforeMonth(y, m + 1)
    ensures MonthStart(y, m + 1) <= YearLength(y)
  {
    MonthStartClosed(y, m);
    MonthStartClosed(y, m + 1);
    YearIsTwelveMonths(y);
    MonthStartMonotone(y, m + 1, 13);
  }

  lemma MonthAt(y: nat, m: nat, doy: nat)
    requires 1 <= m <= 12 && MonthStart(y, m) <= doy < MonthStart(y, m + 1) <= YearLength(y)
    ensures MonthFrom(y, doy, 1) == m
  {
    MonthStartMonotone(y, 1, m);
    MonthFound(y, doy, m, 1);
  }

  lemma DateAt(n: nat, y: nat, first: nat, doy: nat, m: nat, d: nat)
    requires first == YearStart(y) && doy < YearLength(y) && n == first + doy
    requires 1 <= m <= 12 && MonthFrom(y, doy, 1) == m && d == doy - MonthStart(y, m) + 1
    ensures FormatDate(n) == FormatYear(y) + ("-" + TwoFields(m, d))
  {
    YearFound(n, y);
    assert SplitDay(n) == YearDay(y, doy);
  }

  /** The day of a date, counted up, is its closed form. */
  lemma DayOfDate(y: nat, m: nat, d: nat) returns (first: nat, doy: nat)
    requires ValidDate(y, m, d)
    ensures first == YearStart(y) && doy == MonthStart(y, m) + d - 1 && doy < YearLength(y)
    ensures DayNumber(y, m, d) == first + doy && MonthFrom(y, doy, 1) == m
  {
    MonthSpan(y, m);
    YearStartClosed(y);
    first, doy := DaysBeforeYear(y), DaysBeforeMonth(y, m) + d - 1;
    MonthAt(y, m, doy);
  }

  /** Every date renders as itself: four digits or more of the year, two of the month, two of the day. */
  lemma DateRendered(y: nat, m: nat, d: nat)
    requires ValidDate(y, m, d)
    ensures FormatDate(DayNumber(y, m, d)) ==
            (if y < 10000 then Pad(y, 4) else Decimal(y)) + ("-" + (Pad(m, 2) + ("-" + Pad(d, 2))))
  {
    var first, doy := DayOfDate(y, m, d);
    DateAt(DayNumber(y, m, d), y, first, doy, m, d);
  }

  /** There is no other day: every day is the day of some date. */
  lemma EveryDayIsADate(n: nat) returns (y: nat, m: nat, d: nat)
    ensures ValidDate(y, m, d) && DayNumber(y, m, d) == n
  {
    var p := SplitDay(n);
    y, m := p.year, MonthFrom(p.year, p.day, 1);
    d := p.day - MonthStart(y, m) + 1;
    DateOfDay(n, y, YearStart(y), m, MonthStart(y, m), MonthStart(y, m + 1), d);
  }

  lemma DateOfDay(n: nat, y: nat, first: nat, m: nat, start: nat, end: nat, d: nat)
    requires first == YearStart(y) && 1 <= m <= 12 && start == MonthStart(y, m) && end == MonthStart(y, m + 1)
    requires 1 <= d <= end - start && n == first + start + d - 1
    ensures ValidDate(y, m, d) && DayNumber(y, m, d) == n
  {
    MonthSpan(y, m);
    YearStartClosed(y);
  }

  /** And every instant as its day, hour, minute and second, fractions of a second dropped. */
  lemma TimeRendered(t: nat, day: nat, hour: nat, minute: nat, second: nat, nanos: nat)
    requires hour < 24 && minute < 60 && second < 60 && nanos < 1_000_000_000
    requires t == (day * 86400 + (hour * 3600 + minute * 60 + second)) * 1_000_000_000 + nanos
    ensures FormatTime(t) ==
            FormatDate(day) + ("T" + (Pad(hour, 2) + (":" + (Pad(minute, 2) + (":" + (Pad(second, 2) + "Z"))))))
  {
    var sod := hour * 3600 + minute * 60 + second;
    ClockOf(hour, minute, second);
    WholeSeconds(day * 86400 + sod, nanos);
    WholeDays(day, sod);
    TimeAt(t, Seconds(t), day, sod, hour, minute, second);
  }

  lemma TimeAt(t: nat, sec: nat, day: nat, sod: nat, hour: nat, minute: nat, second: nat)
    requires Seconds(t) == sec && sod < DAY_SECONDS && sec / DAY_SECONDS == day && sec % DAY_SECONDS == sod
    requires sod / 3600 == hour && sod / 60 % 60 == minute && sod % 60 == second
    ensures FormatTime(t) ==
            FormatDate(day) + ("T" + (Pad(hour, 2) + (":" + (Pad(minute, 2) + (":" + (Pad(second, 2) + "Z"))))))
  {
    assert FormatSeconds(sec) == FormatDate(sec / DAY_SECONDS) + ("T" + FormatClock(sec % DAY_SECONDS));
  }

  lemma WholeSeconds(sec: nat, nanos: nat)
    requires nanos < 1_000_000_000
    ensures Seconds(sec * 1_000_000_000 + nanos) == sec
  {
  }

  lemma WholeDays(n: nat, sod: nat)
    requires sod < 86400
    ensures (n * 86400 + sod) / DAY_SECONDS == n && (n * 86400 + sod) % DAY_SECONDS == sod
  {
  }

  lemma ClockOf(hour: nat, minute: nat, second: nat)
    requires hour < 24 && minute < 60 && second < 60
    ensures var sod := hour * 3600 + minute * 60 + second;
      sod < DAY_SECONDS && sod / 3600 == hour && sod / 60 % 60 == minute && sod % 60 == second
  {
    var sod := hour * 3600 + minute * 60 + second;
    assert sod / 60 == hour * 60 + minute;
  }

  // ----- Beyond year 9999 -----

  lemma {:induction false} DecimalIsPad(n: nat, w: nat)
    requires n < Pow10(w) && if w == 1 then true else w > 1 && Pow10(w - 1) <= n
    ensures Decimal(n) == Pad(n, w)
  {
    if w == 1 {
      assert Pad(n, 1) == Pad(n / 10, 0) + [Digit(n % 10)];
    } else {
      assert w > 2 ==> Pow10(w - 1) == 10 * Pow10(w - 2);
      DecimalIsPad(n / 10, w - 1);
    }
  }

  /** A four-digit year against a five-digit one: the first four digits decide, and the dash behind the shorter
      year is below every digit. */
  lemma FourAgainstFive(y: nat, x: string, z: nat, r: string)
    requires y <= 9999 && 10000 <= z <= 99999
    ensures Less(FormatYear(y) + ("-" + x), FormatYear(z) + ("-" + r)) <==> y <= z / 10
    ensures Less(FormatYear(z) + ("-" + r), FormatYear(y) + ("-" + x)) <==> z / 10 < y
  {
    TwoDigits();
    DecimalIsPad(z / 10, 4);
    var d := Digit(z % 10);
    assert FormatYear(z) + ("-" + r) == Pad(z / 10, 4) + ([d] + ("-" + r));
    PadOrder(y, z / 10, 4);
    PadOrder(z / 10, y, 4);
    LessConcat(Pad(y, 4), Pad(z / 10, 4), "-" + x, [d] + ("-" + r));
    LessConcat(Pad(z / 10, 4), Pad(y, 4), [d] + ("-" + r), "-" + x);
  }

  /** A stored time is its year, a dash and the rest. */
  lemma TimeFields(sec: nat) returns (rest: string)
    ensures FormatSeconds(sec) == FormatYear(YearOf(sec)) + ("-" + rest)
  {
    var p := SplitDay(sec / DAY_SECONDS);
    var date, clock := FormatMonthDay(p.year, p.day), "T" + FormatClock(sec % DAY_SECONDS);
    rest := date + clock;
    assert FormatYear(p.year) + ("-" + date) + clock == FormatYear(p.year) + ("-" + (date + clock));
  }

  /** The four-digit year is what StoredOrder rests on. Against five-digit years the stored order is exactly this,
      whatever the times themselves: year 9999 sorts behind all of them, year 1000 before all of them. */
  lemma FiveDigitYearsSortFirst(a: nat, b: nat)
    requires YearOf(Seconds(a)) <= 9999 && 10000 <= YearOf(Seconds(b)) <= 99999
    ensures Less(FormatTime(a), FormatTime(b)) <==> YearOf(Seconds(a)) <= YearOf(Seconds(b)) / 10
    ensures Less(FormatTime(b), FormatTime(a)) <==> YearOf(Seconds(b)) / 10 < YearOf(Seconds(a))
  {
    var x := TimeFields(Seconds(a));
    var y := TimeFields(Seconds(b));
    FourAgainstFive(YearOf(Seconds(a)), x, YearOf(Seconds(b)), y);
  }
}
