/** getCanadianWorkingDays: weekdays of a month that are not statutory
    holidays, by the holiday table the planner carries for 2026. */
module WorkingDays {
  import opened Dates

  /** The holiday table, keyed by the month argument as given (0 = January).
      It is applied whatever the year, and a month with no entry has none. */
  function Holidays(month: int): (days: seq<int>)
    ensures forall i :: 0 <= i < |days| ==> 1 <= days[i] <= 31
  {
    if month == 0 then [1]
    else if month == 1 then [16]
    else if month == 3 then [3]
    else if month == 4 then [18]
    else if month == 6 then [1]
    else if month == 7 then [3]
    else if month == 8 then [7, 30]
    else if month == 9 then [12]
    else if month == 10 then [11]
    else if month == 11 then [25, 28]
    else []
  }

  /** `new Date(year, month, 1)`: a month index outside 0..11 rolls into a
      neighbouring year. Returns the calendar year and the 1-based month. The
      year is taken as given; JavaScript would read 0 to 99 as 1900 plus it. */
  function NormalMonth(year: int, month: int): (r: (int, int))
    ensures 1 <= r.1 <= 12
    ensures r.0 * 12 + r.1 - 1 == year * 12 + month
    ensures 0 <= month < 12 ==> r == (year, month + 1)
  {
    (year + month / 12, month % 12 + 1)
  }

  /** A day counts unless it falls on Saturday or Sunday or is a listed holiday. */
  predicate IsWorkingDay(d: Date, holidays: seq<int>)
    requires Valid(d)
  {
    DayOfWeek(d) != 0 && DayOfWeek(d) != 6 && d.day !in holidays
  }

  /** The working days among days 1..n of month m of year y. */
  function WorkingDaysUpTo(y: int, m: int, holidays: seq<int>, n: int): (c: nat)
    requires 1 <= m <= 12 && 0 <= n <= DaysInMonth(y, m)
    ensures c <= n
  {
    if n == 0 then 0
    else WorkingDaysUpTo(y, m, holidays, n - 1) + (if IsWorkingDay(Date(y, m, n), holidays) then 1 else 0)
  }

  /** The working days of the first n days, as a set of day numbers. */
  function WorkingSet(y: int, m: int, holidays: seq<int>, n: int): set<int>
    requires 1 <= m <= 12 && 0 <= n <= DaysInMonth(y, m)
  {
    set k | 1 <= k <= n && IsWorkingDay(Date(y, m, k), holidays)
  }

  /** The running count is the size of the set of working days. */
  lemma {:induction false} CountIsSetSize(y: int, m: int, holidays: seq<int>, n: int)
    requires 1 <= m <= 12 && 0 <= n <= DaysInMonth(y, m)
    ensures WorkingDaysUpTo(y, m, holidays, n) == |WorkingSet(y, m, holidays, n)|
  {
    if n == 0 {
      assert WorkingSet(y, m, holidays, n) == {};
    } else {
      CountIsSetSize(y, m, holidays, n - 1);
      WorkingSetStep(y, m, holidays, n);
    }
  }

  /** Day n joins the set of working days exactly when it is one, and it is new. */
  lemma WorkingSetStep(y: int, m: int, holidays: seq<int>, n: int)
    requires 1 <= m <= 12 && 1 <= n <= DaysInMonth(y, m)
    ensures n !in WorkingSet(y, m, holidays, n - 1)
    ensures WorkingSet(y, m, holidays, n)
      == WorkingSet(y, m, holidays, n - 1) + (if IsWorkingDay(Date(y, m, n), holidays) then {n} else {})
  {
  }

  /** The count for a whole month. */
  function MonthWorkingDays(year: int, month: int): (c: nat)
    ensures var (y, m) := NormalMonth(year, month);
      c == |WorkingSet(y, m, Holidays(month), DaysInMonth(y, m))| && c <= DaysInMonth(y, m)
  {
    var (y, m) := NormalMonth(year, month);
    CountIsSetSize(y, m, Holidays(month), DaysInMonth(y, m));
    WorkingDaysUpTo(y, m, Holidays(month), DaysInMonth(y, m))
  }

  /** getCanadianWorkingDays, walking the month one day at a time. */
  method CanadianWorkingDays(year: int, month: int) returns (count: nat)
    ensures count == MonthWorkingDays(year, month)
  {
    var (y, m) := NormalMonth(year, month);
    var last := DaysInMonth(y, m);
    var holidays := Holidays(month);
    count := 0;
    var d := 1;
    while d <= last
      invariant 1 <= d <= last + 1
      invariant count == WorkingDaysUpTo(y, m, holidays, d - 1)
    {
      var w := DayOfWeek(Date(y, m, d));
      if w != 0 && w != 6 && d !in holidays {
        count := count + 1;
      }
      d := d + 1;
    }
  }

  /** September 2026 begins on a Tuesday. */
  lemma September2026Weekdays(k: int)
    requires 1 <= k <= 30
    ensures DayOfWeek(Date(2026, 9, k)) == (k + 1) % 7
  {
    assert LeapYearsBefore(2026) == 492;
    assert DayNumber(Date(2026, 9, k)) == 740224 + k;
    assert 740230 == 7 * 105747 + 1;
  }

  /** One more day of September 2026. */
  lemma September2026Step(n: int)
    requires 1 <= n <= 30
    ensures WorkingDaysUpTo(2026, 9, [7, 30], n)
         == WorkingDaysUpTo(2026, 9, [7, 30], n - 1)
            + (if (n + 1) % 7 != 0 && (n + 1) % 7 != 6 && n != 7 && n != 30 then 1 else 0)
  {
    September2026Weekdays(n);
  }

  /** Working days among September 1..n of 2026, counted from the weekday
      pattern (the 1st is a Tuesday) and the two holidays. */
  function SeptemberByHand(n: int): nat
    requires 0 <= n <= 30
  {
    if n == 0 then 0
    else SeptemberByHand(n - 1) + (if (n + 1) % 7 != 0 && (n + 1) % 7 != 6 && n != 7 && n != 30 then 1 else 0)
  }

  lemma {:induction false} SeptemberCount(y: int, m: int, h: seq<int>, n: int)
    requires y == 2026 && m == 9 && h == [7, 30] && 0 <= n <= 30
    ensures WorkingDaysUpTo(y, m, h, n) == SeptemberByHand(n)
  {
    if n > 0 {
      SeptemberCount(y, m, h, n - 1);
      September2026Weekdays(n);
    }
  }

  /** September 2026: 22 weekdays, two of them holidays (the 7th and the 30th). */
  lemma September2026(year: int, month: int)
    requires year == 2026 && month == 8
    ensures MonthWorkingDays(year, month) == 20
  {
    var (y, m) := NormalMonth(year, month);
    assert y == 2026 && m == 9 && DaysInMonth(y, m) == 30;
    SeptemberCount(y, m, Holidays(month), 30);
    SeptemberByHandMonth();
  }

  /** The hand count over the first two weeks of September 2026. */
  lemma SeptemberByHandFortnight()
    ensures SeptemberByHand(14) == 9
  {
    assert SeptemberByHand(2) == 2;
    assert SeptemberByHand(4) == 4;
    assert SeptemberByHand(6) == 4;
    assert SeptemberByHand(8) == 5;
    assert SeptemberByHand(10) == 7;
    assert SeptemberByHand(12) == 8;
  }

  /** The hand count over the whole of September 2026. */
  lemma SeptemberByHandMonth()
    ensures SeptemberByHand(30) == 20
  {
    SeptemberByHandFortnight();
    assert SeptemberByHand(16) == 11;
    assert SeptemberByHand(18) == 13;
    assert SeptemberByHand(20) == 13;
    assert SeptemberByHand(22) == 15;
    assert SeptemberByHand(24) == 17;
    assert SeptemberByHand(26) == 18;
    assert SeptemberByHand(28) == 19;
  }
}
