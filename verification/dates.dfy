/** Calendar dates as the planner exchanges them: `YYYY-MM-DD` text.

    A `Date` is the triple written in such a text (month and day 1-based). A
    triple may name no real day ("2026-13-01" matches the text pattern): for such
    a triple `Time` is absent, which is how JavaScript's `NaN` time shows up in
    the rest of the model. Time itself is counted in whole days from
    0000-01-01 of the proleptic Gregorian calendar. */
module Dates {
  import opened Common

  datatype Date = Date(year: int, month: int, day: int)

  predicate IsLeapYear(y: int) {
    y % 4 == 0 && (y % 100 != 0 || y % 400 == 0)
  }

  function YearLength(y: int): int {
    if IsLeapYear(y) then 366 else 365
  }

  function DaysInMonth(y: int, m: int): (n: int)
    requires 1 <= m <= 12
    ensures 28 <= n <= 31
  {
    if m == 2 then (if IsLeapYear(y) then 29 else 28)
    else if m == 4 || m == 6 || m == 9 || m == 11 then 30
    else 31
  }

  /** The triple names a day of the calendar. */
  predicate Valid(d: Date) {
    1 <= d.month <= 12 && 1 <= d.day <= DaysInMonth(d.year, d.month)
  }

  /** Number of leap years in [0, y). */
  function LeapYearsBefore(y: int): int {
    (y + 3) / 4 - (y + 99) / 100 + (y + 399) / 400
  }

  /** Days from 0000-01-01 to the first day of year `y`. */
  function DaysBeforeYear(y: int): int {
    365 * y + LeapYearsBefore(y)
  }

  /** Days from the first of the year to the first of month `m`. */
  function DaysBeforeMonth(y: int, m: int): (n: int)
    requires 1 <= m <= 12
    ensures 0 <= n <= 335
  {
    var common :=
      if m == 1 then 0 else if m == 2 then 31 else if m == 3 then 59
      else if m == 4 then 90 else if m == 5 then 120 else if m == 6 then 151
      else if m == 7 then 181 else if m == 8 then 212 else if m == 9 then 243
      else if m == 10 then 273 else if m == 11 then 304 else 334;
    common + (if m > 2 && IsLeapYear(y) then 1 else 0)
  }

  /** Days since 0000-01-01: the model's clock (JavaScript's getTime() divided by a day). */
  function DayNumber(d: Date): int
    requires Valid(d)
  {
    DaysBeforeYear(d.year) + DaysBeforeMonth(d.year, d.month) + d.day - 1
  }

  /** `new Date(text).getTime()` in days: absent (NaN) for a triple that names no day. */
  function Time(d: Date): (t: Option<int>)
    ensures t.Some? <==> Valid(d)
    ensures t.Some? ==> t.value == DayNumber(d)
  {
    if Valid(d) then Some(DayNumber(d)) else None
  }

  /** 1970-01-01, where JavaScript's millisecond clock reads 0. */
  const EpochDay: int := 719528

  lemma EpochIsNewYear1970()
    ensures Valid(Date(1970, 1, 1)) && DayNumber(Date(1970, 1, 1)) == EpochDay
  {
    assert LeapYearsBefore(1970) == 478;
  }

  lemma YearStep(y: int)
    ensures DaysBeforeYear(y + 1) == DaysBeforeYear(y) + YearLength(y)
  {
    CeilStep(y, 4);
    CeilStep(y, 100);
    CeilStep(y, 400);
    DivisorChain(y);
  }

  /** Moving `y` up by one moves the count of multiples of `k` below it by one
      exactly when `y` is a multiple. */
  lemma CeilStep(y: int, k: int)
    requires k > 0
    ensures (y + k) / k - (y + k - 1) / k == (if y % k == 0 then 1 else 0)
  {
    var q, r := y / k, y % k;
    assert y == k * q + r && 0 <= r < k;
    assert y + k == k * (q + 1) + r;
    DivOf(y + k, k, q + 1, r);
    if r == 0 {
      assert y + k - 1 == k * q + (k - 1);
      DivOf(y + k - 1, k, q, k - 1);
    } else {
      assert y + k - 1 == k * (q + 1) + (r - 1);
      DivOf(y + k - 1, k, q + 1, r - 1);
    }
  }

  lemma DivOf(x: int, k: int, q: int, r: int)
    requires k > 0 && 0 <= r < k && x == k * q + r
    ensures x / k == q
  {
    var d := q - x / k;
    assert k * d == x % k - r;
  }

  /** A multiple of 400 is a multiple of 100, and a multiple of 100 one of 4. */
  lemma DivisorChain(y: int)
    ensures y % 400 == 0 ==> y % 100 == 0
    ensures y % 100 == 0 ==> y % 4 == 0
  {
    if y % 400 == 0 {
      DivOf(y, 400, y / 400, 0);
      DivOf(y, 100, 4 * (y / 400), 0);
    }
    if y % 100 == 0 {
      DivOf(y, 100, y / 100, 0);
      DivOf(y, 4, 25 * (y / 100), 0);
    }
  }

  lemma MonthStep(y: int, m: int)
    requires 1 <= m < 12
    ensures DaysBeforeMonth(y, m + 1) == DaysBeforeMonth(y, m) + DaysInMonth(y, m)
  {
  }

  lemma LastMonthEndsYear(y: int)
    ensures DaysBeforeMonth(y, 12) + DaysInMonth(y, 12) == YearLength(y)
  {
  }

  /** The day after `d`. */
  function Next(d: Date): (r: Date)
    requires Valid(d)
    ensures Valid(r)
  {
    if d.day < DaysInMonth(d.year, d.month) then Date(d.year, d.month, d.day + 1)
    else if d.month < 12 then Date(d.year, d.month + 1, 1)
    else Date(d.year + 1, 1, 1)
  }

  /** `Next` advances the clock by exactly one day, across month and year ends. */
  lemma NextIsOneDayLater(d: Date)
    requires Valid(d)
    ensures DayNumber(Next(d)) == DayNumber(d) + 1
  {
    if d.day < DaysInMonth(d.year, d.month) {
    } else if d.month < 12 {
      MonthStep(d.year, d.month);
    } else {
      YearStep(d.year);
      LastMonthEndsYear(d.year);
    }
  }

  /** `d` moved `n` days forward, for up to four weeks (one month roll-over at most). */
  function PlusDays(d: Date, n: int): (r: Date)
    requires Valid(d) && 0 <= n <= 28
    ensures Valid(r)
  {
    var dim := DaysInMonth(d.year, d.month);
    if d.day + n <= dim then Date(d.year, d.month, d.day + n)
    else if d.month < 12 then Date(d.year, d.month + 1, d.day + n - dim)
    else Date(d.year + 1, 1, d.day + n - dim)
  }

  /** `PlusDays` lands exactly `n` days later on the clock. */
  lemma PlusDaysIsLater(d: Date, n: int)
    requires Valid(d) && 0 <= n <= 28
    ensures DayNumber(PlusDays(d, n)) == DayNumber(d) + n
  {
    var dim := DaysInMonth(d.year, d.month);
    if d.day + n <= dim {
    } else if d.month < 12 {
      MonthStep(d.year, d.month);
    } else {
      YearStep(d.year);
      LastMonthEndsYear(d.year);
    }
  }

  /** Repeating `Next` n times gives `PlusDays(d, n)`. */
  lemma {:induction false} PlusDaysIsRepeatedNext(d: Date, n: int)
    requires Valid(d) && 0 <= n < 28
    ensures PlusDays(d, n + 1) == Next(PlusDays(d, n))
  {
  }

  /** Lexicographic (year, month, day) order: the order of the `YYYY-MM-DD` texts. */
  predicate LexLe(a: Date, b: Date) {
    a.year < b.year
    || (a.year == b.year && (a.month < b.month || (a.month == b.month && a.day <= b.day)))
  }

  lemma DayOfYearBounds(d: Date)
    requires Valid(d)
    ensures 0 <= DayNumber(d) - DaysBeforeYear(d.year) < YearLength(d.year)
  {
    LastMonthEndsYear(d.year);
    if d.month < 12 {
      MonthsOrdered(d.year, d.month, 12);
    }
  }

  lemma MonthsOrdered(y: int, m1: int, m2: int)
    requires 1 <= m1 < m2 <= 12
    ensures DaysBeforeMonth(y, m1) + DaysInMonth(y, m1) <= DaysBeforeMonth(y, m2)
  {
  }

  /** Two real days of one year lie as far apart as their offsets into it. */
  lemma SameYearDistance(a: Date, b: Date)
    requires Valid(a) && Valid(b) && a.year == b.year
    ensures DayNumber(b) - DayNumber(a)
      == DaysBeforeMonth(b.year, b.month) + b.day - DaysBeforeMonth(a.year, a.month) - a.day
  {
  }

  lemma {:induction false} YearsOrdered(y1: int, y2: int)
    requires y1 < y2
    ensures DaysBeforeYear(y1) + YearLength(y1) <= DaysBeforeYear(y2)
    decreases y2 - y1
  {
    YearStep(y1);
    if y1 + 1 < y2 {
      YearsOrdered(y1 + 1, y2);
      YearStep(y1 + 1);
    }
  }

  /** On real days the clock order is the calendar (text) order. */
  lemma DayNumberOrder(a: Date, b: Date)
    requires Valid(a) && Valid(b)
    ensures DayNumber(a) <= DayNumber(b) <==> LexLe(a, b)
  {
    if a.year < b.year {
      DayOfYearBounds(a);
      DayOfYearBounds(b);
      YearsOrdered(a.year, b.year);
    } else if b.year < a.year {
      DayOfYearBounds(a);
      DayOfYearBounds(b);
      YearsOrdered(b.year, a.year);
    } else if a.month < b.month {
      MonthsOrdered(a.year, a.month, b.month);
    } else if b.month < a.month {
      MonthsOrdered(a.year, b.month, a.month);
    }
  }

  /** Two real days with the same clock reading are the same day. */
  lemma DayNumberInjective(a: Date, b: Date)
    requires Valid(a) && Valid(b) && DayNumber(a) == DayNumber(b)
    ensures a == b
  {
    DayNumberOrder(a, b);
    DayNumberOrder(b, a);
  }

  /** Day of the week, 0 = Sunday (0000-01-01 was a Saturday). */
  function DayOfWeek(d: Date): (w: int)
    requires Valid(d)
    ensures 0 <= w < 7
  {
    (DayNumber(d) + 6) % 7
  }

  lemma NextWeekday(d: Date)
    requires Valid(d)
    ensures DayOfWeek(Next(d)) == (DayOfWeek(d) + 1) % 7
  {
    NextIsOneDayLater(d);
    WeekStep(DayNumber(d) + 6);
  }

  lemma WeekStep(x: int)
    ensures (x + 1) % 7 == (x % 7 + 1) % 7
  {
    var q, r := x / 7, x % 7;
    if r == 6 {
      DivOf(x + 1, 7, q + 1, 0);
    } else {
      DivOf(x + 1, 7, q, r + 1);
    }
  }

  // ---- Earliest and latest ------------------------------------------------

  predicate AllValid(ds: seq<Date>) {
    forall i :: 0 <= i < |ds| ==> Valid(ds[i])
  }

  /** The earliest of some real days (`Math.min` over their times). */
  function Earliest(ds: seq<Date>): (r: Date)
    requires |ds| > 0 && AllValid(ds)
    ensures r in ds && Valid(r)
    ensures forall i :: 0 <= i < |ds| ==> DayNumber(r) <= DayNumber(ds[i])
  {
    if |ds| == 1 then ds[0]
    else
      var rest := Earliest(ds[1..]);
      if DayNumber(ds[0]) <= DayNumber(rest) then ds[0] else rest
  }

  /** The latest of some real days (`Math.max` over their times). */
  function Latest(ds: seq<Date>): (r: Date)
    requires |ds| > 0 && AllValid(ds)
    ensures r in ds && Valid(r)
    ensures forall i :: 0 <= i < |ds| ==> DayNumber(ds[i]) <= DayNumber(r)
  {
    if |ds| == 1 then ds[0]
    else
      var rest := Latest(ds[1..]);
      if DayNumber(rest) <= DayNumber(ds[0]) then ds[0] else rest
  }

  // ---- Months -----------------------------------------------------------

  /** Months counted from January of year 0: the `YYYY-MM` key as a number. */
  function MonthIndex(d: Date): int {
    d.year * 12 + d.month - 1
  }

  /** The first day of month number `i` (`new Date(y, m, 1)`), for years from 100
      on: JavaScript reads a year argument of 0 to 99 as 1900 plus that year. */
  function MonthStart(i: int): (r: Date)
    ensures Valid(r) && r.day == 1 && MonthIndex(r) == i
  {
    Date(i / 12, i % 12 + 1, 1)
  }

  /** The last day of month number `i` (`new Date(y, m + 1, 0)`), for years from
      100 on, as for MonthStart. */
  function MonthEnd(i: int): (r: Date)
    ensures Valid(r) && MonthIndex(r) == i
    ensures r.day == DaysInMonth(r.year, r.month)
  {
    var y, m := i / 12, i % 12 + 1;
    Date(y, m, DaysInMonth(y, m))
  }

  /** Later days never fall in earlier months. */
  lemma MonthIndexMonotone(a: Date, b: Date)
    requires Valid(a) && Valid(b) && DayNumber(a) <= DayNumber(b)
    ensures MonthIndex(a) <= MonthIndex(b)
  {
    DayNumberOrder(a, b);
  }

  /** Every day of month `i` lies between its first and last day. */
  lemma WithinMonth(d: Date)
    requires Valid(d)
    ensures DayNumber(MonthStart(MonthIndex(d))) <= DayNumber(d) <= DayNumber(MonthEnd(MonthIndex(d)))
  {
    var i := MonthIndex(d);
    assert i / 12 == d.year && i % 12 + 1 == d.month;
    DayNumberOrder(MonthStart(i), d);
    DayNumberOrder(d, MonthEnd(i));
  }

  // ---- Text ---------------------------------------------------------------

  predicate IsDigit(c: char) {
    '0' <= c <= '9'
  }

  function DigitValue(c: char): (n: nat)
    requires IsDigit(c)
    ensures n < 10
  {
    (c as int) - ('0' as int)
  }

  /** The text has the shape `^\d{4}-\d{2}-\d{2}$`. */
  predicate MatchesDatePattern(s: string) {
    && |s| == 10
    && IsDigit(s[0]) && IsDigit(s[1]) && IsDigit(s[2]) && IsDigit(s[3])
    && s[4] == '-'
    && IsDigit(s[5]) && IsDigit(s[6])
    && s[7] == '-'
    && IsDigit(s[8]) && IsDigit(s[9])
  }

  /** The field ranges a matching text can express. */
  predicate Shaped(d: Date) {
    0 <= d.year <= 9999 && 0 <= d.month <= 99 && 0 <= d.day <= 99
  }

  /** Reads a `YYYY-MM-DD` text; absent exactly when the text does not have that shape. */
  function Parse(s: string): (r: Option<Date>)
    ensures r.Some? <==> MatchesDatePattern(s)
    ensures r.Some? ==> Shaped(r.value)
  {
    if MatchesDatePattern(s) then
      Some(Date(
        DigitValue(s[0]) * 1000 + DigitValue(s[1]) * 100 + DigitValue(s[2]) * 10 + DigitValue(s[3]),
        DigitValue(s[5]) * 10 + DigitValue(s[6]),
        DigitValue(s[8]) * 10 + DigitValue(s[9])))
    else None
  }

  function Pad2(n: int): string {
    if 0 <= n <= 99 then [DigitChar(n / 10), DigitChar(n % 10)] else IntToString(n)
  }

  function Pad4(n: int): string {
    if 0 <= n <= 9999 then
      [DigitChar(n / 1000), DigitChar(n / 100 % 10), DigitChar(n / 10 % 10), DigitChar(n % 10)]
    else IntToString(n)
  }

  /** The `YYYY-MM-DD` text of a date (what `toISOString().split('T')[0]` yields). */
  function Format(d: Date): string {
    Pad4(d.year) + "-" + Pad2(d.month) + "-" + Pad2(d.day)
  }

  lemma DigitRoundTrip(n: nat)
    requires n < 10
    ensures IsDigit(DigitChar(n)) && DigitValue(DigitChar(n)) == n
  {
  }

  lemma CharRoundTrip(c: char)
    requires IsDigit(c)
    ensures DigitChar(DigitValue(c)) == c
  {
  }

  lemma Digits4(n: int)
    requires 0 <= n <= 9999
    ensures n == 1000 * (n / 1000) + 100 * (n / 100 % 10) + 10 * (n / 10 % 10) + n % 10
    ensures n / 1000 < 10
  {
    var a := n / 1000;
    var r := n - 1000 * a;
    var b := r / 100;
    var c := (r - 100 * b) / 10;
    var e := r - 100 * b - 10 * c;
    assert n == a * 1000 + b * 100 + c * 10 + e;
    Compose4(a, b, c, e);
  }

  lemma Compose4(a: nat, b: nat, c: nat, e: nat)
    requires a < 10 && b < 10 && c < 10 && e < 10
    ensures var n := a * 1000 + b * 100 + c * 10 + e;
      n / 1000 == a && n / 100 % 10 == b && n / 10 % 10 == c && n % 10 == e
  {
    var n := a * 1000 + b * 100 + c * 10 + e;
    DivBy(n, 1000, a);
    DivBy(n, 100, a * 10 + b);
    DivBy(n, 10, a * 100 + b * 10 + c);
    Compose2(a, b);
    DivBy(a * 100 + b * 10 + c, 10, a * 10 + b);
  }

  lemma DivBy(n: int, k: int, q: int)
    requires k == 10 || k == 100 || k == 1000
    requires q * k <= n < q * k + k
    ensures n / k == q && n % k == n - q * k
  {
    if k == 10 {
      assert q * 10 <= n < q * 10 + 10;
    } else if k == 100 {
      assert q * 100 <= n < q * 100 + 100;
    } else {
      assert q * 1000 <= n < q * 1000 + 1000;
    }
  }

  lemma Compose2(a: nat, b: nat)
    requires a < 10 && b < 10
    ensures (a * 10 + b) / 10 == a && (a * 10 + b) % 10 == b
  {
  }

  /** Formatting then parsing gives the date back. */
  lemma ParseFormat(d: Date)
    requires Shaped(d)
    ensures MatchesDatePattern(Format(d))
    ensures Parse(Format(d)) == Some(d)
  {
    var y, m, dd := Pad4(d.year), Pad2(d.month), Pad2(d.day);
    var s := Format(d);
    assert s == y + "-" + m + "-" + dd;
    assert |y| == 4 && |m| == 2 && |dd| == 2;
    assert s[0] == y[0] && s[1] == y[1] && s[2] == y[2] && s[3] == y[3];
    assert s[4] == '-' && s[7] == '-';
    assert s[5] == m[0] && s[6] == m[1] && s[8] == dd[0] && s[9] == dd[1];
    DigitRoundTrip(d.year / 1000);
    DigitRoundTrip(d.year / 100 % 10);
    DigitRoundTrip(d.year / 10 % 10);
    DigitRoundTrip(d.year % 10);
    DigitRoundTrip(d.month / 10);
    DigitRoundTrip(d.month % 10);
    DigitRoundTrip(d.day / 10);
    DigitRoundTrip(d.day % 10);
    Digits4(d.year);
    assert MatchesDatePattern(s);
    var p := Parse(s).value;
    assert p.year == d.year;
    assert p.month == d.month;
    assert p.day == d.day;
  }

  /** Parsing then formatting gives the text back. */
  lemma FormatParse(s: string)
    requires MatchesDatePattern(s)
    ensures Format(Parse(s).value) == s
  {
    var d := Parse(s).value;
    Compose4(DigitValue(s[0]), DigitValue(s[1]), DigitValue(s[2]), DigitValue(s[3]));
    Compose2(DigitValue(s[5]), DigitValue(s[6]));
    Compose2(DigitValue(s[8]), DigitValue(s[9]));
    CharRoundTrip(s[0]);
    CharRoundTrip(s[1]);
    CharRoundTrip(s[2]);
    CharRoundTrip(s[3]);
    CharRoundTrip(s[5]);
    CharRoundTrip(s[6]);
    CharRoundTrip(s[8]);
    CharRoundTrip(s[9]);
    var t := Format(d);
    assert Pad4(d.year) == s[0..4];
    assert Pad2(d.month) == s[5..7];
    assert Pad2(d.day) == s[8..10];
    assert s == s[0..4] + "-" + s[5..7] + "-" + s[8..10];
  }
}
