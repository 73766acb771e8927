/** The month grid of the roadmap (getTimelineMonths) and where a date falls on
    it (calculateDatePosition). A month on the grid is its `MonthIndex`
    (year * 12 + month - 1); times are whole days, which is all the ratio of two
    millisecond differences depends on. */
module Timeline {
  import opened Common
  import opened Dates
  import opened Domain

  /** An explicit display window (a preset or a custom range). */
  datatype Range = Range(start: Date, end: Date)

  /** Both dates of every feature, in order (`flatMap`). */
  function FeatureDates(fs: seq<Feature>): (ds: seq<Date>)
    ensures |ds| == 2 * |fs|
    ensures forall i :: 0 <= i < |fs| ==> ds[2 * i] == fs[i].startDate && ds[2 * i + 1] == fs[i].endDate
  {
    if fs == [] then [] else [fs[0].startDate, fs[0].endDate] + FeatureDates(fs[1..])
  }

  /** The first and last month of the grid, or None when there is no grid: no
      feature dates, or a date that is not a real day (its time is NaN, and every
      comparison with NaN is false, so the loop never runs). */
  function GridBounds(fs: seq<Feature>, range: Option<Range>): Option<(int, int)> {
    match range
    case Some(r) =>
      if Valid(r.start) && Valid(r.end) then Some((MonthIndex(r.start), MonthIndex(r.end))) else None
    case None =>
      var ds := FeatureDates(fs);
      if ds == [] || !AllValid(ds) then None
      else Some((MonthIndex(Earliest(ds)), MonthIndex(Latest(ds))))
  }

  /** The loop of getTimelineMonths: the months `lo`, `lo + 1`, ... up to `hi`. */
  method MonthsBetween(lo: int, hi: int) returns (months: seq<int>)
    ensures |months| == (if lo <= hi then hi - lo + 1 else 0)
    ensures forall i :: 0 <= i < |months| ==> months[i] == lo + i
  {
    months := [];
    var current := lo;
    while current <= hi
      invariant lo <= current <= (if lo <= hi then hi + 1 else lo)
      invariant |months| == current - lo
      invariant forall i :: 0 <= i < |months| ==> months[i] == lo + i
      decreases hi - current
    {
      months := months + [current];
      current := current + 1;
    }
  }

  /** getTimelineMonths: every month from the first to the last bound. */
  method TimelineMonths(fs: seq<Feature>, range: Option<Range>) returns (months: seq<int>)
    ensures GridBounds(fs, range).None? ==> months == []
    ensures GridBounds(fs, range).Some? ==>
              && |months| == (if GridBounds(fs, range).value.0 <= GridBounds(fs, range).value.1
                              then GridBounds(fs, range).value.1 - GridBounds(fs, range).value.0 + 1 else 0)
              && forall i :: 0 <= i < |months| ==> months[i] == GridBounds(fs, range).value.0 + i
  {
    var bounds := GridBounds(fs, range);
    if bounds.None? {
      months := [];
    } else {
      months := MonthsBetween(bounds.value.0, bounds.value.1);
    }
  }

  /** Without a window, a non-empty list of features with real dates yields a
      grid that starts at the earliest month, ends at the latest, and holds the
      month of every feature date. */
  lemma {:induction false} GridCoversFeatures(fs: seq<Feature>)
    requires fs != [] && AllValid(FeatureDates(fs))
    ensures GridBounds(fs, None).Some?
    ensures var (lo, hi) := GridBounds(fs, None).value;
      && lo <= hi
      && (exists i :: 0 <= i < |fs| && (MonthIndex(fs[i].startDate) == lo || MonthIndex(fs[i].endDate) == lo))
      && (exists i :: 0 <= i < |fs| && (MonthIndex(fs[i].startDate) == hi || MonthIndex(fs[i].endDate) == hi))
      && forall i :: 0 <= i < |fs| ==>
           lo <= MonthIndex(fs[i].startDate) <= hi && lo <= MonthIndex(fs[i].endDate) <= hi
  {
    var ds := FeatureDates(fs);
    var a, b := Earliest(ds), Latest(ds);
    assert ds[0] in ds;
    MonthIndexMonotone(a, b);
    forall i | 0 <= i < |fs|
      ensures MonthIndex(a) <= MonthIndex(fs[i].startDate) <= MonthIndex(b)
      ensures MonthIndex(a) <= MonthIndex(fs[i].endDate) <= MonthIndex(b)
    {
      assert ds[2 * i] == fs[i].startDate && ds[2 * i + 1] == fs[i].endDate;
      MonthIndexMonotone(a, ds[2 * i]);
      MonthIndexMonotone(ds[2 * i], b);
      MonthIndexMonotone(a, ds[2 * i + 1]);
      MonthIndexMonotone(ds[2 * i + 1], b);
    }
    AttainedByFeature(fs, a);
    AttainedByFeature(fs, b);
  }

  /** Every listed date belongs to some feature. */
  lemma {:induction false} AttainedByFeature(fs: seq<Feature>, d: Date)
    requires d in FeatureDates(fs)
    ensures exists i :: 0 <= i < |fs| && (fs[i].startDate == d || fs[i].endDate == d)
  {
    var ds := FeatureDates(fs);
    var k :| 0 <= k < |ds| && ds[k] == d;
    var i := k / 2;
    assert ds[2 * i] == fs[i].startDate && ds[2 * i + 1] == fs[i].endDate;
  }

  /** The grid is empty exactly when there are no features or one of their dates is not a real day. */
  lemma {:induction false} GridEmpty(fs: seq<Feature>)
    ensures GridBounds(fs, None).None? <==> fs == [] || !AllValid(FeatureDates(fs))
  {
    if fs != [] {
      assert |FeatureDates(fs)| > 0;
    }
  }

  // ---- Position of a date -------------------------------------------------------------

  /** `Math.max(0, Math.min(100, x))`. */
  function Clamp(x: real): (r: real)
    ensures 0.0 <= r <= 100.0
    ensures 0.0 <= x <= 100.0 ==> r == x
    ensures x < 0.0 ==> r == 0.0
    ensures x > 100.0 ==> r == 100.0
  {
    if x < 0.0 then 0.0 else if x > 100.0 then 100.0 else x
  }

  /** The time window the positions are measured against: the explicit range,
      or from the first day of the first month to the LAST DAY (at midnight) of
      the last month. None when a range end is not a real day. */
  function Window(months: seq<int>, range: Option<Range>): (w: Option<(int, int)>)
    requires months != []
  {
    match range
    case Some(r) => if Valid(r.start) && Valid(r.end) then Some((DayNumber(r.start), DayNumber(r.end))) else None
    case None => Some((DayNumber(MonthStart(months[0])), DayNumber(MonthEnd(months[|months| - 1]))))
  }

  /** calculateDatePosition: the percentage of the window elapsed at `d`,
      clamped to 0..100. None stands for the NaN the source returns when a time
      involved is not a number. */
  function DatePosition(d: Date, months: seq<int>, range: Option<Range>): (p: Option<real>)
    ensures p.Some? ==> 0.0 <= p.value <= 100.0
    ensures months == [] ==> p == Some(0.0)
    // a window that is empty or inverted puts every date at the left edge
    ensures (months != [] && Window(months, range).Some?
             && Window(months, range).value.1 - Window(months, range).value.0 <= 0) ==> p == Some(0.0)
  {
    if months == [] then Some(0.0)
    else match Window(months, range)
      case None => None
      case Some((lo, hi)) =>
        if hi - lo <= 0 then Some(0.0)
        else if !Valid(d) then None
        else Some(Clamp((DayNumber(d) - lo) as real / (hi - lo) as real * 100.0))
  }

  /** The position is undefined exactly when a time involved is NaN and the
      window test did not return first. */
  lemma {:induction false} DatePositionUndefined(d: Date, months: seq<int>, range: Option<Range>)
    requires months != []
    ensures DatePosition(d, months, range).None? <==>
      Window(months, range).None?
      || (Window(months, range).value.1 - Window(months, range).value.0 > 0 && !Valid(d))
  {
  }

  lemma {:induction false} DivMonotone(a: real, b: real, t: real)
    requires a <= b && t > 0.0
    ensures a / t * 100.0 <= b / t * 100.0
  {
    assert b / t - a / t == (b - a) / t;
    assert (b - a) / t >= 0.0;
  }

  /** Later dates never sit further left. */
  lemma {:induction false} DatePositionMonotone(d1: Date, d2: Date, months: seq<int>, range: Option<Range>)
    requires Valid(d1) && Valid(d2) && DayNumber(d1) <= DayNumber(d2)
    requires DatePosition(d1, months, range).Some?
    ensures DatePosition(d2, months, range).Some?
    ensures DatePosition(d1, months, range).value <= DatePosition(d2, months, range).value
  {
    if months != [] {
      var (lo, hi) := Window(months, range).value;
      if hi - lo > 0 {
        DivMonotone((DayNumber(d1) - lo) as real, (DayNumber(d2) - lo) as real, (hi - lo) as real);
      }
    }
  }

  /** A month's first day comes before its last day. */
  lemma {:induction false} MonthStartBeforeEnd(i: int)
    ensures DayNumber(MonthStart(i)) < DayNumber(MonthEnd(i))
  {
    var a, m := MonthStart(i), MonthEnd(i);
    if DayNumber(m) <= DayNumber(a) {
      DayNumberOrder(m, a);
      assert false;
    }
  }

  /** From the first day of month `i` to the last day of a month `j >= i` is a positive span. */
  lemma {:induction false} MonthSpanPositive(i: int, j: int)
    requires i <= j
    ensures DayNumber(MonthStart(i)) < DayNumber(MonthEnd(j))
  {
    MonthStartBeforeEnd(i);
    if i < j {
      MonthStartsOrdered(i, j);
      MonthStartBeforeEnd(j);
    }
  }

  /** Inside a positive window, a real day sits at its clamped share of the window. */
  lemma {:induction false} PositionInWindow(d: Date, months: seq<int>, range: Option<Range>, lo: int, hi: int)
    requires months != [] && Window(months, range) == Some((lo, hi)) && hi - lo > 0 && Valid(d)
    ensures DatePosition(d, months, range) == Some(Clamp((DayNumber(d) - lo) as real / (hi - lo) as real * 100.0))
  {
  }

  lemma {:induction false} ShareOfWhole(lo: int, hi: int)
    requires hi - lo > 0
    ensures Clamp((lo - lo) as real / (hi - lo) as real * 100.0) == 0.0
    ensures Clamp((hi - lo) as real / (hi - lo) as real * 100.0) == 100.0
  {
    var t := (hi - lo) as real;
    assert 0.0 / t * 100.0 == 0.0;
    assert t / t * 100.0 == 100.0;
  }

  /** An ascending grid's own window is positive. */
  lemma {:induction false} GridWindow(months: seq<int>, lo: int, hi: int)
    requires months != [] && months[0] <= months[|months| - 1]
    requires lo == DayNumber(MonthStart(months[0])) && hi == DayNumber(MonthEnd(months[|months| - 1]))
    ensures hi - lo > 0
    ensures Window(months, None) == Some((lo, hi))
  {
    MonthSpanPositive(months[0], months[|months| - 1]);
  }

  lemma {:induction false} WindowStartIsZero(months: seq<int>, lo: int, hi: int)
    requires months != [] && Window(months, None) == Some((lo, hi)) && hi - lo > 0
    ensures DatePosition(MonthStart(months[0]), months, None) == Some(0.0)
  {
    PositionInWindow(MonthStart(months[0]), months, None, lo, hi);
    ShareOfWhole(lo, hi);
  }

  lemma {:induction false} WindowEndIsHundred(months: seq<int>, lo: int, hi: int)
    requires months != [] && Window(months, None) == Some((lo, hi)) && hi - lo > 0
    ensures DatePosition(MonthEnd(months[|months| - 1]), months, None) == Some(100.0)
  {
    PositionInWindow(MonthEnd(months[|months| - 1]), months, None, lo, hi);
    ShareOfWhole(lo, hi);
  }

  /** Without a window, an ascending grid puts the first day of its first month
      at 0 and the last day of its last month at 100. */
  lemma {:induction false} GridEnds(months: seq<int>)
    requires months != [] && months[0] <= months[|months| - 1]
    ensures DatePosition(MonthStart(months[0]), months, None) == Some(0.0)
    ensures DatePosition(MonthEnd(months[|months| - 1]), months, None) == Some(100.0)
  {
    var lo, hi := DayNumber(MonthStart(months[0])), DayNumber(MonthEnd(months[|months| - 1]));
    GridWindow(months, lo, hi);
    WindowStartIsZero(months, lo, hi);
    WindowEndIsHundred(months, lo, hi);
  }

  /** The month of a later index starts after the earlier month ends. */
  lemma {:induction false} MonthStartsOrdered(i: int, j: int)
    requires i < j
    ensures DayNumber(MonthEnd(i)) < DayNumber(MonthStart(j))
  {
    var e, s := MonthEnd(i), MonthStart(j);
    if DayNumber(s) <= DayNumber(e) {
      MonthIndexMonotone(s, e);
    }
  }
}
