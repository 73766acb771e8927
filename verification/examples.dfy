/** The worked cases of `testing/suite.ts`, stated about the model. */
module SuiteCases {
  import opened Common
  import opened Dates
  import opened Domain
  import opened Allocations
  import opened Backlog
  import opened Timeline

  /** The first sample feature of the suite. */
  const Task1: Feature := Feature(
    "f1", "Task 1", "Desc 1", Low, Backlog, Date(2026, 1, 1), Date(2026, 1, 31), 1000, 10, "John Doe",
    ["Prog A"], TOM, "J-1", [])

  /** The second sample feature of the suite. */
  const Task2: Feature := Feature(
    "f2", "Task 2", "Desc 2", Critical, Completed, Date(2026, 2, 1), Date(2026, 2, 28), 5000, 5, "Jane Smith",
    ["Prog B"], EOM, "J-2", [])

  lemma PriorityRanks()
    ensures PriorityScore(Critical) == 0 && PriorityScore(High) == 1
    ensures PriorityScore(Medium) == 2 && PriorityScore(Low) == 3
  {
  }

  /** Moving the first of three items to the end. */
  lemma ReorderThree()
    ensures Reorder([1, 2, 3], 0, 2) == [2, 3, 1]
  {
    assert RemoveAt([1, 2, 3], 0) == [2, 3];
    assert InsertAt([2, 3], 2, 1) == [2, 3, 1];
  }

  /** Two allocations of 4 and 5 points add up to 9. */
  lemma AllocatedNine()
    ensures AllocatedPoints(Task1.(sprintAllocations := [SprintAllocation("s1", 4), SprintAllocation("s2", 5)])) == 9
  {
    var a := [SprintAllocation("s1", 4), SprintAllocation("s2", 5)];
    assert a[1..] == [SprintAllocation("s2", 5)];
    assert a[1..][1..] == [];
  }

  /** 1-14 March overlaps 10-24 March but not 15-30 March. */
  lemma OverlapCases()
    ensures RangesOverlap(Date(2026, 3, 1), Date(2026, 3, 14), Date(2026, 3, 10), Date(2026, 3, 24))
    ensures !RangesOverlap(Date(2026, 3, 1), Date(2026, 3, 14), Date(2026, 3, 15), Date(2026, 3, 30))
  {
    var a, b, c := Date(2026, 3, 1), Date(2026, 3, 14), Date(2026, 3, 10);
    var d, e, f := Date(2026, 3, 24), Date(2026, 3, 15), Date(2026, 3, 30);
    assert Valid(a) && Valid(b) && Valid(c) && Valid(d) && Valid(e) && Valid(f);
    assert DayNumber(b) == DayNumber(a) + 13;
    assert DayNumber(c) == DayNumber(a) + 9;
    assert DayNumber(d) == DayNumber(a) + 23;
    assert DayNumber(e) == DayNumber(a) + 14;
    assert DayNumber(f) == DayNumber(a) + 29;
  }

  const S1: Sprint := Sprint("s1", "S1", Date(2026, 3, 1), Date(2026, 3, 14), Date(2026, 3, 15), 40, None, Some(TOM))
  const S2: Sprint := Sprint("s2", "S2", Date(2026, 4, 1), Date(2026, 4, 14), Date(2026, 4, 15), 40, None, Some(TOM))
  const SyncAllocations: seq<SprintAllocation> := [SprintAllocation("s1", 5), SprintAllocation("s2", 5)]

  lemma SyncResolvesBoth()
    ensures AssociatedSprints(Task1.(sprintAllocations := SyncAllocations), [S1, S2]) == [S1, S2]
  {
    var a := SyncAllocations;
    assert a[0].sprintId == "s1" && a[1].sprintId == "s2";
    assert Referenced(a)(S1) && Referenced(a)(S2);
    FilterCons(S1, [S2], Referenced(a));
    FilterCons(S2, [], Referenced(a));
  }

  lemma SyncHull()
    ensures AllValid(StartDates([S1, S2])) && AllValid(EndDates([S1, S2]))
    ensures Earliest(StartDates([S1, S2])) == Date(2026, 3, 1)
    ensures Latest(EndDates([S1, S2])) == Date(2026, 4, 14)
  {
    var starts, ends := StartDates([S1, S2]), EndDates([S1, S2]);
    assert starts == [S1.startDate, S2.startDate] && ends == [S1.endDate, S2.endDate];
    assert Valid(S1.startDate) && Valid(S2.startDate) && Valid(S1.endDate) && Valid(S2.endDate);
    assert DayNumber(S2.startDate) == DayNumber(S1.startDate) + 31;
    assert DayNumber(S2.endDate) == DayNumber(S1.endDate) + 31;
    assert starts[1..] == [S2.startDate] && ends[1..] == [S2.endDate];
  }

  /** A feature allocated to a March and an April sprint spans from the start
      of the first to the end of the second. */
  lemma SprintSync()
    ensures var f := Task1.(sprintAllocations := SyncAllocations);
      DatesFromSprints(f, [S1, S2]) == Ok(f.(startDate := Date(2026, 3, 1), endDate := Date(2026, 4, 14)))
  {
    SyncResolvesBoth();
    SyncHull();
  }

  lemma Task2Completed()
    ensures FeatureMatches(Task2, "Completed", "", "All")
  {
    assert OccursAt(Lower(Task2.owner), Lower(""), 0);
  }

  lemma Task1NotCompleted()
    ensures !FeatureMatches(Task1, "Completed", "", "All")
  {
    assert StatusName(Backlog) != "Completed";
  }

  /** Filtering by the completed status keeps only the second sample. */
  lemma StatusFilter()
    ensures FilterFeatures([Task1, Task2], "Completed", "", "All") == [Task2]
  {
    Task2Completed();
    Task1NotCompleted();
    FilterCons(Task1, [Task2], FeatureFilter("Completed", "", "All"));
    FilterCons(Task2, [], FeatureFilter("Completed", "", "All"));
  }

  /** When every day's month lies between the first day's and the last day's,
      the earliest day is in the first month and the latest in the last. */
  lemma {:induction false} MonthsOfEnds(ds: seq<Date>)
    requires ds != [] && AllValid(ds)
    requires forall i :: 0 <= i < |ds| ==> MonthIndex(ds[0]) <= MonthIndex(ds[i]) <= MonthIndex(ds[|ds| - 1])
    ensures MonthIndex(Earliest(ds)) == MonthIndex(ds[0])
    ensures MonthIndex(Latest(ds)) == MonthIndex(ds[|ds| - 1])
  {
    var lo, hi := Earliest(ds), Latest(ds);
    var i :| 0 <= i < |ds| && ds[i] == lo;
    var j :| 0 <= j < |ds| && ds[j] == hi;
    MonthIndexMonotone(lo, ds[0]);
    MonthIndexMonotone(ds[|ds| - 1], hi);
  }

  /** Features from January to March give a three-month grid. */
  lemma ThreeMonthGrid()
    ensures var fs := [Task1.(endDate := Date(2026, 1, 15)), Task2.(startDate := Date(2026, 3, 1), endDate := Date(2026, 3, 15))];
      GridBounds(fs, None) == Some((MonthIndex(Date(2026, 1, 1)), MonthIndex(Date(2026, 3, 1))))
  {
    var fs := [Task1.(endDate := Date(2026, 1, 15)), Task2.(startDate := Date(2026, 3, 1), endDate := Date(2026, 3, 15))];
    var ds := FeatureDates(fs);
    assert ds == [Date(2026, 1, 1), Date(2026, 1, 15), Date(2026, 3, 1), Date(2026, 3, 15)];
    assert Valid(ds[0]) && Valid(ds[1]) && Valid(ds[2]) && Valid(ds[3]);
    MonthsOfEnds(ds);
  }

  /** The January and February buckets of year `y`. */
  function JanFebOf(y: int): seq<int> {
    [y * 12, y * 12 + 1]
  }

  const JanFeb: seq<int> := JanFebOf(2026)

  /** In a year without 29 February, the January-February grid spans 58 days
      from 1 January. */
  lemma JanFebWindow(y: int)
    requires !IsLeapYear(y)
    ensures Window(JanFebOf(y), None) == Some((DayNumber(Date(y, 1, 1)), DayNumber(Date(y, 1, 1)) + 58))
  {
    var ms := JanFebOf(y);
    assert MonthStart(ms[0]) == Date(y, 1, 1);
    assert MonthEnd(ms[1]) == Date(y, 2, 28);
    SameYearDistance(Date(y, 1, 1), Date(y, 2, 28));
  }

  /** Fourteen days of a 58-day window is between a fifth and three tenths of it. */
  lemma FourteenOfFiftyEight()
    ensures 20.0 < (14 as real) / (58 as real) * 100.0 < 30.0
  {
  }

  /** On the January-February grid of a year without 29 February, 15 January
      sits about a quarter of the way in. */
  lemma MidJanuaryPositionIn(y: int)
    requires !IsLeapYear(y)
    ensures var p := DatePosition(Date(y, 1, 15), JanFebOf(y), None);
      p.Some? && 20.0 < p.value < 30.0
  {
    JanFebWindow(y);
    SameYearDistance(Date(y, 1, 1), Date(y, 1, 15));
    var lo := DayNumber(Date(y, 1, 1));
    PositionInWindow(Date(y, 1, 15), JanFebOf(y), None, lo, lo + 58);
    FourteenOfFiftyEight();
  }

  /** The suite's case: 15 January 2026 on a January-February 2026 grid. */
  lemma MidJanuaryPosition()
    ensures var p := DatePosition(Date(2026, 1, 15), JanFeb, None);
      p.Some? && 20.0 < p.value < 30.0
  {
    MidJanuaryPositionIn(2026);
  }
}
