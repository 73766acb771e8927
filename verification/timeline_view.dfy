/** The delivery board (`components/TimelineView.tsx`): which sprint is current,
    the headline figures, the sprint list, the custom window and which feature
    rows are drawn. "Today" is a parameter; dates are compared field by field,
    which for `YYYY-MM-DD` texts is the text order the component uses. */
module TimelineBoard {
  import opened Common
  import opened Dates
  import opened Domain
  import opened Allocations
  import opened Timeline
  import Backlog

  /** The board's reference year. */
  const CurrentYear: int := 2026

  /** The first day of the reference year, the fallback start of the current sprint. */
  const YearStart: Date := Date(2026, 1, 1)

  // ---- The current sprint ---------------------------------------------------------

  predicate Covers(s: Sprint, today: Date) {
    LexLe(s.startDate, today) && LexLe(today, s.endDate)
  }

  function CoversDay(today: Date): Sprint -> bool {
    (s: Sprint) => Covers(s, today)
  }

  function StartsFromYearStart(): Sprint -> bool {
    (s: Sprint) => LexLe(YearStart, s.startDate)
  }

  /** activeSprint: the first sprint whose range holds today; failing that, the
      first sprint that starts in the reference year or later. */
  function ActiveSprint(sprints: seq<Sprint>, today: Date): (r: Option<Sprint>)
    ensures r.None? <==> forall i :: 0 <= i < |sprints| ==>
      !Covers(sprints[i], today) && !LexLe(YearStart, sprints[i].startDate)
    ensures (exists i :: 0 <= i < |sprints| && Covers(sprints[i], today)) ==>
      exists k :: 0 <= k < |sprints| && r == Some(sprints[k]) && Covers(sprints[k], today)
        && forall j :: 0 <= j < k ==> !Covers(sprints[j], today)
    ensures (forall i :: 0 <= i < |sprints| ==> !Covers(sprints[i], today)) && r.Some? ==>
      exists k :: 0 <= k < |sprints| && r == Some(sprints[k]) && LexLe(YearStart, sprints[k].startDate)
        && forall j :: 0 <= j < k ==> !LexLe(YearStart, sprints[j].startDate)
  {
    match FindFirst(sprints, CoversDay(today))
    case Some(k) => Some(sprints[k])
    case None =>
      match FindFirst(sprints, StartsFromYearStart())
      case Some(k) => Some(sprints[k])
      case None => None
  }

  /** activeSprintMetrics: the points the backlog commits to the current sprint
      and their share of its capacity. */
  function ActiveMetrics(sprints: seq<Sprint>, features: seq<Feature>, today: Date): (r: Option<(int, real)>)
    ensures r.None? <==> ActiveSprint(sprints, today).None?
    ensures r.Some? ==> var s := ActiveSprint(sprints, today).value;
      && r.value.0 == SprintLoad(features, s.id)
      && (s.capacity > 0 ==> (r.value.1 <= 100.0 <==> r.value.0 <= s.capacity))
      && (s.capacity <= 0 ==> r.value.1 == 0.0)
      && r.value.1 == Utilization(r.value.0, s.capacity)
  {
    match ActiveSprint(sprints, today)
    case None => None
    case Some(s) =>
      var used := SprintLoad(features, s.id);
      Some((used, Utilization(used, s.capacity)))
  }

  // ---- Headline figures ------------------------------------------------------------

  datatype BoardStats = BoardStats(
    completed: nat, active: nat, total: nat,
    completedThisYear: nat, totalThisYear: nat, annualProgress: int)

  function IsCompleted(): Feature -> bool {
    (f: Feature) => f.status == Completed
  }

  function IsInProgress(): Feature -> bool {
    (f: Feature) => f.status == InProgress
  }

  /** The feature ends in the reference year; an end that is not a real day has
      no year (its year is NaN). */
  function EndsThisYear(): Feature -> bool {
    (f: Feature) => Valid(f.endDate) && f.endDate.year == CurrentYear
  }

  /** stats: lifetime counts, and the share of this year's features that are
      completed, rounded to a whole percentage (0 when none ends this year). */
  function Stats(fs: seq<Feature>): (r: BoardStats)
    ensures r.total == |fs|
    ensures r.completed == Count(fs, IsCompleted()) && r.active == Count(fs, IsInProgress())
    ensures r.completed <= r.total && r.active <= r.total
    ensures r.totalThisYear == |Filter(fs, EndsThisYear())| && r.completedThisYear <= r.totalThisYear
    ensures forall i :: 0 <= i < |fs| && fs[i].status == Completed ==> r.completed > 0
    ensures r.completedThisYear == Count(Filter(fs, EndsThisYear()), IsCompleted())
    ensures 0 <= r.annualProgress <= 100
    ensures r.totalThisYear == 0 ==> r.annualProgress == 0
    // the percentage is the whole number nearest to 100 * completed / total, in exact arithmetic
    ensures r.totalThisYear > 0 ==>
      2 * r.annualProgress * r.totalThisYear - r.totalThisYear
        <= 200 * r.completedThisYear
        < 2 * r.annualProgress * r.totalThisYear + r.totalThisYear
  {
    var year := Filter(fs, EndsThisYear());
    var done := Count(year, IsCompleted());
    BoardStats(
      Count(fs, IsCompleted()), Count(fs, IsInProgress()), |fs|,
      done, |year|,
      if |year| > 0 then Backlog.RoundedPercent(done, |year|) else 0)
  }

  /** The annual progress is complete exactly when every feature of the year is
      completed, and nil exactly when none is. */
  lemma AnnualProgressExtremes(fs: seq<Feature>)
    requires Stats(fs).totalThisYear > 0
    ensures Stats(fs).annualProgress == 0 <==> 200 * Stats(fs).completedThisYear < Stats(fs).totalThisYear
    ensures Stats(fs).completedThisYear == Stats(fs).totalThisYear ==> Stats(fs).annualProgress == 100
    ensures Stats(fs).completedThisYear == 0 ==> Stats(fs).annualProgress == 0
  {
    var r := Stats(fs);
    NearestPercentExtremes(r.annualProgress, r.completedThisYear, r.totalThisYear);
  }

  lemma NearestPercentExtremes(p: int, c: nat, t: nat)
    requires c <= t && t > 0
    requires 2 * p * t - t <= 200 * c < 2 * p * t + t
    ensures p == 0 <==> 200 * c < t
    ensures c == t ==> p == 100
  {
    if p >= 1 {
      assert 2 * p * t >= 2 * t;
    }
    if p <= 0 {
      assert 2 * p * t <= 0;
    }
    if c == t {
      assert (2 * p - 199) * t > 0 && (2 * p - 201) * t <= 0;
    }
  }

  // ---- Sprint list and sprint contents ---------------------------------------------------

  function ShownSprint(showClosed: bool): Sprint -> bool {
    (s: Sprint) => showClosed || !IsClosed(s)
  }

  /** visibleSprints: closed sprints are listed only on request. */
  function VisibleSprints(sprints: seq<Sprint>, showClosed: bool): (r: seq<Sprint>)
    ensures showClosed ==> r == sprints
    ensures forall i :: 0 <= i < |sprints| ==> (sprints[i] in r <==> showClosed || !IsClosed(sprints[i]))
    ensures forall i :: 0 <= i < |r| ==> r[i] in sprints
  {
    if showClosed then
      FilterAll(sprints, ShownSprint(showClosed));
      Filter(sprints, ShownSprint(showClosed))
    else Filter(sprints, ShownSprint(showClosed))
  }

  /** Hiding closed sprints keeps the listed sprints in their order. */
  lemma {:induction false} VisibleSprintsKeepOrder(a: seq<Sprint>, b: seq<Sprint>, showClosed: bool)
    ensures VisibleSprints(a + b, showClosed) == VisibleSprints(a, showClosed) + VisibleSprints(b, showClosed)
  {
    FilterAppend(a, b, ShownSprint(showClosed));
  }

  /** featuresInSprint: the features that reference the sprint being viewed;
      nothing when no sprint is viewed (an empty id counts as none). */
  function FeaturesInSprint(fs: seq<Feature>, viewing: Option<string>): (r: seq<Feature>)
    ensures viewing.None? || viewing == Some("") ==> r == []
    ensures viewing.Some? && viewing.value != "" ==>
      forall i :: 0 <= i < |fs| ==> (fs[i] in r <==> AllocatedTo(fs[i].sprintAllocations, viewing.value))
    ensures forall i :: 0 <= i < |r| ==> r[i] in fs
  {
    match viewing
    case None => []
    case Some(id) => if id == "" then [] else Filter(fs, Referencing(id))
  }

  /** The sprint's load comes entirely from the features listed in it. */
  lemma ListedFeaturesCarryLoad(fs: seq<Feature>, sprintId: string)
    requires sprintId != ""
    ensures SprintLoad(FeaturesInSprint(fs, Some(sprintId)), sprintId) == SprintLoad(fs, sprintId)
  {
    ReferencingCarryLoad(fs, sprintId);
  }

  /** The load on the current sprint is the load the board lists under that
      sprint when it is opened. */
  lemma ActiveLoadIsListedLoad(sprints: seq<Sprint>, features: seq<Feature>, today: Date)
    requires ActiveSprint(sprints, today).Some? && ActiveSprint(sprints, today).value.id != ""
    ensures var s := ActiveSprint(sprints, today).value;
      ActiveMetrics(sprints, features, today).value.0 == SprintLoad(FeaturesInSprint(features, Some(s.id)), s.id)
  {
    ListedFeaturesCarryLoad(features, ActiveSprint(sprints, today).value.id);
  }

  // ---- New sprints -----------------------------------------------------------------

  /** handleAddNewSprint: a two-week open sprint at the start of the reference
      year, deployed the day after it ends, with 40 points of capacity, on the
      active platform (TOM under the global view). The id is random. */
  function NewSprint(id: string, existing: nat, scope: Scope): (s: Sprint)
    ensures s.id == id && s.capacity == 40 && !IsClosed(s)
    ensures Valid(s.startDate) && Valid(s.endDate) && Valid(s.targetDeploymentDate)
    ensures s.startDate == YearStart
    ensures DayNumber(s.endDate) == DayNumber(s.startDate) + 13
    ensures DayNumber(s.targetDeploymentDate) == DayNumber(s.endDate) + 1
    ensures s.system == Some(if scope.Only? then scope.system else TOM)
    ensures s.name == "Sprint " + NatToString(existing + 1)
  {
    PlusDaysIsLater(YearStart, 13);
    PlusDaysIsLater(YearStart, 14);
    assert PlusDays(YearStart, 13) == Date(2026, 1, 14);
    assert PlusDays(YearStart, 14) == Date(2026, 1, 15);
    Sprint(id, "Sprint " + NatToString(existing + 1), YearStart, Date(2026, 1, 14), Date(2026, 1, 15),
           40, Some(false), Some(if scope.Only? then scope.system else TOM))
  }

  /** Every new sprint starts on the same fixed dates, so two of them always
      overlap: the second cannot be saved until its dates are edited. */
  lemma NewSprintsOverlap(a: string, b: string, n: nat, m: nat, s1: Scope, s2: Scope)
    ensures SprintsOverlap(NewSprint(a, n, s1), NewSprint(b, m, s2))
  {
    var x, y := NewSprint(a, n, s1), NewSprint(b, m, s2);
    assert Time(x.startDate) == Some(DayNumber(YearStart));
    assert Time(x.endDate) == Some(DayNumber(YearStart) + 13);
  }

  // ---- Custom window -------------------------------------------------------------------

  /** The custom window as stored, and the two texts shown for it. */
  datatype RangeForm = RangeForm(start: string, end: string, startText: string, endText: string)

  datatype RangeSide = LowerSide | UpperSide

  const InitialRange: RangeForm := RangeForm("2026-01-01", "2026-12-31", "2026-01-01", "2026-12-31")

  /** Both stored ends of the window are `YYYY-MM-DD` texts. */
  predicate WellFormedRange(form: RangeForm) {
    MatchesDatePattern(form.start) && MatchesDatePattern(form.end)
  }

  /** handleCustomRangeUpdate: the text follows the input; the window takes
      only `YYYY-MM-DD` texts. */
  function CustomRangeUpdate(form: RangeForm, side: RangeSide, val: string): (r: RangeForm)
    ensures side == LowerSide ==> r.startText == val && r.endText == form.endText && r.end == form.end
    ensures side == UpperSide ==> r.endText == val && r.startText == form.startText && r.start == form.start
    ensures (r.start, r.end) != (form.start, form.end) ==> MatchesDatePattern(val)
    ensures WellFormedRange(form) ==> WellFormedRange(r)
  {
    match side
    case LowerSide =>
      var f := form.(startText := val);
      if MatchesDatePattern(val) then f.(start := val) else f
    case UpperSide =>
      var f := form.(endText := val);
      if MatchesDatePattern(val) then f.(end := val) else f
  }

  /** handleSyncCustomRange: on leaving a field the texts show the window again. */
  function SyncRangeTexts(form: RangeForm): (r: RangeForm)
    ensures (r.start, r.end) == (form.start, form.end)
    ensures WellFormedRange(form) ==> MatchesDatePattern(r.startText) && MatchesDatePattern(r.endText)
  {
    form.(startText := form.start, endText := form.end)
  }

  /** The window starts well formed, and every edit keeps it so. */
  lemma InitialRangeWellFormed()
    ensures WellFormedRange(InitialRange)
  {
    var s, e := InitialRange.start, InitialRange.end;
    assert |s| == 10 && s[4] == '-' && s[7] == '-';
    assert IsDigit(s[0]) && IsDigit(s[1]) && IsDigit(s[2]) && IsDigit(s[3]);
    assert IsDigit(s[5]) && IsDigit(s[6]) && IsDigit(s[8]) && IsDigit(s[9]);
    assert |e| == 10 && e[4] == '-' && e[7] == '-';
    assert IsDigit(e[0]) && IsDigit(e[1]) && IsDigit(e[2]) && IsDigit(e[3]);
    assert IsDigit(e[5]) && IsDigit(e[6]) && IsDigit(e[8]) && IsDigit(e[9]);
  }

  /** The range selector: everything, a clock-dependent preset (this month or
      quarter), the reference year, or the custom window. */
  datatype ViewRange = AllTime | Preset(window: Range) | WholeYear | Custom

  /** rangeBounds. The custom window is always well formed (see
      `InitialRangeWellFormed` and `CustomRangeUpdate`), so both ends read as dates. */
  function Bounds(view: ViewRange, form: RangeForm): (r: Option<Range>)
    requires view == Custom ==> WellFormedRange(form)
    ensures view == AllTime <==> r.None?
    ensures view.Preset? ==> r == Some(view.window)
    ensures view == WholeYear ==> r.Some? && r.value.start == YearStart && r.value.end == Date(CurrentYear, 12, 31)
    ensures view == Custom ==> r.Some? && Format(r.value.start) == form.start && Format(r.value.end) == form.end
  {
    match view
    case AllTime => None
    case Preset(w) => Some(w)
    case WholeYear => Some(Range(YearStart, Date(CurrentYear, 12, 31)))
    case Custom =>
      FormatParse(form.start);
      FormatParse(form.end);
      Some(Range(Parse(form.start).value, Parse(form.end).value))
  }

  // ---- Which rows are drawn ------------------------------------------------------------

  /** `rangeBounds?.start.getTime() || -Infinity`: no window, an end that is not
      a real day (NaN) and the epoch itself (time 0 is falsy) all leave the row
      unbounded on that side. */
  function LowerBound(range: Option<Range>): (b: Option<int>)
    ensures b.Some? ==> range.Some? && Valid(range.value.start) && b.value == DayNumber(range.value.start)
    ensures range.Some? && Valid(range.value.start) && DayNumber(range.value.start) != EpochDay ==> b.Some?
  {
    match range
    case None => None
    case Some(r) =>
      match Time(r.start)
      case None => None
      case Some(t) => if t == EpochDay then None else Some(t)
  }

  function UpperBound(range: Option<Range>): (b: Option<int>)
    ensures b.Some? ==> range.Some? && Valid(range.value.end) && b.value == DayNumber(range.value.end)
    ensures range.Some? && Valid(range.value.end) && DayNumber(range.value.end) != EpochDay ==> b.Some?
  {
    match range
    case None => None
    case Some(r) =>
      match Time(r.end)
      case None => None
      case Some(t) => if t == EpochDay then None else Some(t)
  }

  /** A feature row is skipped when it ends before the window or starts after
      it; a comparison with NaN is false, so unreadable dates never hide a row. */
  predicate RowHidden(f: Feature, range: Option<Range>) {
    (Time(f.endDate).Some? && LowerBound(range).Some? && Time(f.endDate).value < LowerBound(range).value)
    || (Time(f.startDate).Some? && UpperBound(range).Some? && Time(f.startDate).value > UpperBound(range).value)
  }

  /** Without a window every row is drawn. */
  lemma AllTimeShowsEveryRow(f: Feature)
    ensures !RowHidden(f, None)
  {
  }

  /** For real, well-ordered feature and window ranges whose ends are not the
      epoch, a row is hidden exactly when the feature shares no day with the
      window. */
  lemma RowHiddenIffDisjoint(f: Feature, w: Range)
    requires Valid(f.startDate) && Valid(f.endDate) && Valid(w.start) && Valid(w.end)
    requires DayNumber(f.startDate) <= DayNumber(f.endDate) && DayNumber(w.start) <= DayNumber(w.end)
    requires DayNumber(w.start) != EpochDay && DayNumber(w.end) != EpochDay
    ensures RowHidden(f, Some(w)) <==> !RangesOverlap(f.startDate, f.endDate, w.start, w.end)
  {
    assert LowerBound(Some(w)) == Some(DayNumber(w.start));
    assert UpperBound(Some(w)) == Some(DayNumber(w.end));
  }

  /** A window that starts on 1 January 1970 does not hide features that end
      earlier: the epoch's time is 0, which the fallback treats as "no bound". */
  lemma EpochWindowKeepsEarlierRows(f: Feature, end: Date)
    requires Valid(f.endDate) && DayNumber(f.endDate) < EpochDay
    requires !Valid(f.startDate) || !Valid(end) || DayNumber(f.startDate) <= DayNumber(end)
    ensures !RowHidden(f, Some(Range(Date(1970, 1, 1), end)))
  {
    EpochIsNewYear1970();
    assert LowerBound(Some(Range(Date(1970, 1, 1), end))) == None;
  }
}
