/** The allocation engine of `utils.ts`: points a feature has committed to
    sprints, sprint date-range overlap, and the rule that derives a feature's
    dates from the sprints it is allocated to. */
module Allocations {
  import opened Common
  import opened Dates
  import opened Domain

  // ---- Points -------------------------------------------------------------

  /** Sum of allocation points (the reduce of getFeatureAllocatedPoints). */
  function SumPoints(a: seq<SprintAllocation>): int {
    if a == [] then 0 else a[0].points + SumPoints(a[1..])
  }

  function AllocatedPoints(f: Feature): int {
    SumPoints(f.sprintAllocations)
  }

  lemma {:induction false} SumPointsAppend(a: seq<SprintAllocation>, b: seq<SprintAllocation>)
    ensures SumPoints(a + b) == SumPoints(a) + SumPoints(b)
  {
    if a == [] {
      assert a + b == b;
    } else {
      assert (a + b)[1..] == a[1..] + b;
      SumPointsAppend(a[1..], b);
    }
  }

  /** Some allocation references the sprint (`sprintAllocations.some(...)`). */
  predicate AllocatedTo(a: seq<SprintAllocation>, sprintId: string) {
    exists i :: 0 <= i < |a| && a[i].sprintId == sprintId
  }

  function ForSprint(sprintId: string): SprintAllocation -> bool {
    (sa: SprintAllocation) => sa.sprintId == sprintId
  }

  function NotForSprint(sprintId: string): SprintAllocation -> bool {
    (sa: SprintAllocation) => sa.sprintId != sprintId
  }

  /** The allocations that do not reference the sprint, in order. */
  function WithoutSprint(a: seq<SprintAllocation>, sprintId: string): (r: seq<SprintAllocation>)
    ensures !AllocatedTo(r, sprintId)
    ensures forall i :: 0 <= i < |a| ==> (a[i] in r <==> a[i].sprintId != sprintId)
    ensures |r| == |a| <==> !AllocatedTo(a, sprintId)
  {
    Filter(a, NotForSprint(sprintId))
  }

  /** Dropping a sprint's allocations keeps the other allocations in their order. */
  lemma {:induction false} WithoutSprintKeepsOrder(a: seq<SprintAllocation>, b: seq<SprintAllocation>, sprintId: string)
    ensures WithoutSprint(a + b, sprintId) == WithoutSprint(a, sprintId) + WithoutSprint(b, sprintId)
  {
    FilterAppend(a, b, NotForSprint(sprintId));
  }

  /** Points committed to every sprint but this one. */
  function OtherSum(a: seq<SprintAllocation>, sprintId: string): int {
    SumPoints(WithoutSprint(a, sprintId))
  }

  /** How many allocations reference the sprint. */
  function CountFor(a: seq<SprintAllocation>, sprintId: string): (n: nat)
    ensures n == 0 <==> !AllocatedTo(a, sprintId)
  {
    |Filter(a, ForSprint(sprintId))|
  }

  /** The total splits into this sprint's share and everybody else's. */
  lemma {:induction false} SumSplits(a: seq<SprintAllocation>, sprintId: string)
    ensures SumPoints(a) == OtherSum(a, sprintId) + SumPoints(Filter(a, ForSprint(sprintId)))
  {
    if a != [] {
      SumSplits(a[1..], sprintId);
    }
  }

  /** Every allocation to the sprint set to `v` (both drawers' `map` over allocations). */
  function SetPoints(a: seq<SprintAllocation>, sprintId: string, v: int): (r: seq<SprintAllocation>)
    ensures |r| == |a|
    ensures forall i :: 0 <= i < |a| ==> r[i].sprintId == a[i].sprintId
    ensures forall i :: 0 <= i < |a| && a[i].sprintId != sprintId ==> r[i] == a[i]
    ensures forall i :: 0 <= i < |a| && a[i].sprintId == sprintId ==> r[i].points == v
  {
    if a == [] then []
    else [if a[0].sprintId == sprintId then a[0].(points := v) else a[0]] + SetPoints(a[1..], sprintId, v)
  }

  /** `SetPoints` leaves the allocations to other sprints untouched. */
  lemma {:induction false} SetPointsKeepsOthers(a: seq<SprintAllocation>, sprintId: string, v: int)
    ensures WithoutSprint(SetPoints(a, sprintId, v), sprintId) == WithoutSprint(a, sprintId)
  {
    FilterAgrees(SetPoints(a, sprintId, v), a, NotForSprint(sprintId));
  }

  /** Setting the same value twice is setting it once. */
  lemma {:induction false} SetPointsTwice(a: seq<SprintAllocation>, sprintId: string, v: int)
    ensures SetPoints(SetPoints(a, sprintId, v), sprintId, v) == SetPoints(a, sprintId, v)
  {
    if a != [] {
      SetPointsTwice(a[1..], sprintId, v);
      var r := SetPoints(a, sprintId, v);
      assert r[1..] == SetPoints(a[1..], sprintId, v);
    }
  }

  /** A run of allocations that all carry `v` points sums to `v` per entry. */
  lemma {:induction false} UniformSum(s: seq<SprintAllocation>, v: int)
    requires forall i :: 0 <= i < |s| ==> s[i].points == v
    ensures SumPoints(s) == v * |s|
  {
    if s != [] {
      UniformSum(s[1..], v);
      assert v * |s| == v * |s[1..]| + v;
    }
  }

  /** `SetPoints` keeps the number of entries that reference the sprint. */
  lemma {:induction false} SetPointsCount(a: seq<SprintAllocation>, sprintId: string, v: int)
    ensures |Filter(SetPoints(a, sprintId, v), ForSprint(sprintId))| == |Filter(a, ForSprint(sprintId))|
  {
    FilterLengthAgrees(SetPoints(a, sprintId, v), a, ForSprint(sprintId));
  }

  /** After `SetPoints` the sprint's share is `v` per matching entry. */
  lemma SetPointsShare(a: seq<SprintAllocation>, sprintId: string, v: int)
    ensures SumPoints(Filter(SetPoints(a, sprintId, v), ForSprint(sprintId))) == v * CountFor(a, sprintId)
  {
    var r := SetPoints(a, sprintId, v);
    var share := Filter(r, ForSprint(sprintId));
    forall i | 0 <= i < |share|
      ensures share[i].points == v
    {
      assert share[i] in r && share[i].sprintId == sprintId;
      var j :| 0 <= j < |r| && r[j] == share[i];
    }
    UniformSum(share, v);
    SetPointsCount(a, sprintId, v);
  }

  /** After `SetPoints` the total is the others' share plus `v` per matching entry. */
  lemma SetPointsSum(a: seq<SprintAllocation>, sprintId: string, v: int)
    ensures SumPoints(SetPoints(a, sprintId, v)) == OtherSum(a, sprintId) + v * CountFor(a, sprintId)
  {
    SumSplits(SetPoints(a, sprintId, v), sprintId);
    SetPointsKeepsOthers(a, sprintId, v);
    SetPointsShare(a, sprintId, v);
  }

  /** The points of the first allocation to the sprint, 0 when there is none
      (`sprintAllocations.find(...)?.points || 0`). */
  function FirstPointsFor(f: Feature, sprintId: string): (p: int)
    ensures !AllocatedTo(f.sprintAllocations, sprintId) ==> p == 0
    ensures AllocatedTo(f.sprintAllocations, sprintId) ==>
      exists i :: 0 <= i < |f.sprintAllocations| && f.sprintAllocations[i].sprintId == sprintId
        && f.sprintAllocations[i].points == p
        && forall j :: 0 <= j < i ==> f.sprintAllocations[j].sprintId != sprintId
  {
    match Find(f.sprintAllocations, ForSprint(sprintId))
    case None => 0
    case Some(sa) => sa.points
  }

  /** Points the features put into one sprint, counting each feature's first allocation. */
  function SprintLoad(features: seq<Feature>, sprintId: string): int {
    if features == [] then 0 else FirstPointsFor(features[0], sprintId) + SprintLoad(features[1..], sprintId)
  }

  /** The feature has an allocation to the sprint. */
  function Referencing(sprintId: string): Feature -> bool {
    (f: Feature) => AllocatedTo(f.sprintAllocations, sprintId)
  }

  /** Features without an allocation to the sprint add nothing to its load, so
      keeping only the referencing ones keeps the load. */
  lemma {:induction false} ReferencingCarryLoad(fs: seq<Feature>, sprintId: string)
    ensures SprintLoad(Filter(fs, Referencing(sprintId)), sprintId) == SprintLoad(fs, sprintId)
  {
    if fs != [] {
      var p := Referencing(sprintId);
      var rest := Filter(fs[1..], p);
      ReferencingCarryLoad(fs[1..], sprintId);
      assert fs == [fs[0]] + fs[1..];
      FilterCons(fs[0], fs[1..], p);
      assert SprintLoad(fs, sprintId) == FirstPointsFor(fs[0], sprintId) + SprintLoad(fs[1..], sprintId);
      if p(fs[0]) {
        assert ([fs[0]] + rest)[1..] == rest;
        assert SprintLoad([fs[0]] + rest, sprintId) == FirstPointsFor(fs[0], sprintId) + SprintLoad(rest, sprintId);
      } else {
        assert FirstPointsFor(fs[0], sprintId) == 0;
      }
    }
  }

  lemma {:induction false} SprintLoadAppend(a: seq<Feature>, b: seq<Feature>, sprintId: string)
    ensures SprintLoad(a + b, sprintId) == SprintLoad(a, sprintId) + SprintLoad(b, sprintId)
  {
    if a == [] {
      assert a + b == b;
    } else {
      assert (a + b)[1..] == a[1..] + b;
      SprintLoadAppend(a[1..], b, sprintId);
    }
  }

  /** Percentage of capacity used, as an exact real; 0 for a sprint without
      positive capacity. */
  function Utilization(used: int, capacity: int): (u: real)
    ensures capacity <= 0 ==> u == 0.0
    ensures capacity > 0 ==> u * (capacity as real) == (used as real) * 100.0
    ensures capacity > 0 ==> (u <= 100.0 <==> used <= capacity)
    ensures capacity > 0 ==> (u >= 0.0 <==> used >= 0)
  {
    if capacity > 0 then (used as real) / (capacity as real) * 100.0 else 0.0
  }

  // ---- Overlap --------------------------------------------------------------

  /** `d` is a real day inside the closed range [start, end] of real days. */
  predicate Within(d: Date, start: Date, end: Date) {
    Valid(d) && Valid(start) && Valid(end) && DayNumber(start) <= DayNumber(d) <= DayNumber(end)
  }

  /** doSprintsOverlap on two date ranges: false for unreadable or inverted ranges,
      otherwise the closed intervals intersect (touching ends count). */
  function RangesOverlap(s1: Date, e1: Date, s2: Date, e2: Date): (r: bool)
    ensures r ==> Valid(s1) && Valid(e1) && Valid(s2) && Valid(e2)
    ensures r ==> DayNumber(s1) <= DayNumber(e1) && DayNumber(s2) <= DayNumber(e2)
  {
    match (Time(s1), Time(e1), Time(s2), Time(e2))
    case (Some(start1), Some(end1), Some(start2), Some(end2)) =>
      if start1 > end1 || start2 > end2 then false
      else start1 <= end2 && start2 <= end1
    case _ => false
  }

  predicate SprintsOverlap(a: Sprint, b: Sprint) {
    RangesOverlap(a.startDate, a.endDate, b.startDate, b.endDate)
  }

  lemma OverlapSymmetric(a: Sprint, b: Sprint)
    ensures SprintsOverlap(a, b) == SprintsOverlap(b, a)
  {
  }

  /** Overlap means exactly that some real day lies in both ranges. */
  lemma OverlapIsSharedDay(s1: Date, e1: Date, s2: Date, e2: Date)
    ensures RangesOverlap(s1, e1, s2, e2) <==> exists d :: Within(d, s1, e1) && Within(d, s2, e2)
  {
    if RangesOverlap(s1, e1, s2, e2) {
      var d := if DayNumber(s1) >= DayNumber(s2) then s1 else s2;
      assert Within(d, s1, e1) && Within(d, s2, e2);
    }
  }

  // ---- Dates derived from sprints ------------------------------------------------

  /** `toISOString()` of a NaN time throws a RangeError. */
  datatype DateFault = InvalidTime

  function Referenced(a: seq<SprintAllocation>): Sprint -> bool {
    (s: Sprint) => AllocatedTo(a, s.id)
  }

  /** The sprints the feature's allocations resolve to, in sprint-list order;
      dangling references are skipped. */
  function AssociatedSprints(f: Feature, sprints: seq<Sprint>): (r: seq<Sprint>)
    ensures forall i :: 0 <= i < |r| ==> r[i] in sprints && AllocatedTo(f.sprintAllocations, r[i].id)
    ensures forall i :: 0 <= i < |sprints| ==> (sprints[i] in r <==> AllocatedTo(f.sprintAllocations, sprints[i].id))
  {
    Filter(sprints, Referenced(f.sprintAllocations))
  }

  function StartDates(ss: seq<Sprint>): (r: seq<Date>)
    ensures |r| == |ss| && forall i :: 0 <= i < |ss| ==> r[i] == ss[i].startDate
  {
    if ss == [] then [] else [ss[0].startDate] + StartDates(ss[1..])
  }

  function EndDates(ss: seq<Sprint>): (r: seq<Date>)
    ensures |r| == |ss| && forall i :: 0 <= i < |ss| ==> r[i] == ss[i].endDate
  {
    if ss == [] then [] else [ss[0].endDate] + EndDates(ss[1..])
  }

  /** updateFeatureDatesFromSprints. */
  function DatesFromSprints(f: Feature, sprints: seq<Sprint>): (r: Result<Feature, DateFault>)
    // no allocations, or none resolves: the authored dates stand
    ensures f.sprintAllocations == [] ==> r == Ok(f)
    ensures AssociatedSprints(f, sprints) == [] ==> r == Ok(f)
    // an unreadable date among the resolved sprints makes the conversion throw
    ensures r.Err? <==>
      f.sprintAllocations != [] && AssociatedSprints(f, sprints) != []
      && !(AllValid(StartDates(AssociatedSprints(f, sprints))) && AllValid(EndDates(AssociatedSprints(f, sprints))))
    // only the two dates change
    ensures r.Ok? ==> r.value.(startDate := f.startDate, endDate := f.endDate) == f
  {
    if f.sprintAllocations == [] then Ok(f)
    else
      var assoc := AssociatedSprints(f, sprints);
      if assoc == [] then Ok(f)
      else
        var starts, ends := StartDates(assoc), EndDates(assoc);
        if !AllValid(starts) || !AllValid(ends) then Err(InvalidTime)
        else Ok(f.(startDate := Earliest(starts), endDate := Latest(ends)))
  }

  /** [start, end] is the hull of the sprints' ranges: it starts at the
      earliest sprint start and ends at the latest sprint end. */
  predicate IsHull(ss: seq<Sprint>, start: Date, end: Date) {
    && Valid(start) && Valid(end)
    && (forall i :: 0 <= i < |ss| ==> Valid(ss[i].startDate) && Valid(ss[i].endDate))
    && (exists i :: 0 <= i < |ss| && ss[i].startDate == start)
    && (exists i :: 0 <= i < |ss| && ss[i].endDate == end)
    && (forall i :: 0 <= i < |ss| ==> DayNumber(start) <= DayNumber(ss[i].startDate))
    && (forall i :: 0 <= i < |ss| ==> DayNumber(ss[i].endDate) <= DayNumber(end))
  }

  lemma {:induction false} EarliestStart(ss: seq<Sprint>)
    requires |ss| > 0 && AllValid(StartDates(ss))
    ensures exists i :: 0 <= i < |ss| && ss[i].startDate == Earliest(StartDates(ss))
    ensures forall i :: 0 <= i < |ss| ==> Valid(ss[i].startDate)
  {
    var starts := StartDates(ss);
    var i :| 0 <= i < |starts| && starts[i] == Earliest(starts);
    assert ss[i].startDate == Earliest(starts);
    assert forall k :: 0 <= k < |ss| ==> Valid(starts[k]);
  }

  lemma {:induction false} LatestEnd(ss: seq<Sprint>)
    requires |ss| > 0 && AllValid(EndDates(ss))
    ensures exists i :: 0 <= i < |ss| && ss[i].endDate == Latest(EndDates(ss))
    ensures forall i :: 0 <= i < |ss| ==> Valid(ss[i].endDate)
  {
    var ends := EndDates(ss);
    var j :| 0 <= j < |ends| && ends[j] == Latest(ends);
    assert ss[j].endDate == Latest(ends);
    assert forall k :: 0 <= k < |ss| ==> Valid(ends[k]);
  }

  lemma {:induction false} SprintHull(ss: seq<Sprint>)
    requires |ss| > 0 && AllValid(StartDates(ss)) && AllValid(EndDates(ss))
    ensures IsHull(ss, Earliest(StartDates(ss)), Latest(EndDates(ss)))
  {
    EarliestStart(ss);
    LatestEnd(ss);
  }

  /** When allocations resolve, the derived range is the hull of the resolved
      sprints' ranges. */
  lemma DatesFromSprintsIsHull(f: Feature, sprints: seq<Sprint>)
    requires f.sprintAllocations != [] && AssociatedSprints(f, sprints) != []
    requires DatesFromSprints(f, sprints).Ok?
    ensures var g := DatesFromSprints(f, sprints).value;
      IsHull(AssociatedSprints(f, sprints), g.startDate, g.endDate)
  {
    var assoc := AssociatedSprints(f, sprints);
    SprintHull(assoc);
  }

  /** Re-deriving the dates a second time changes nothing. */
  lemma DatesFromSprintsIdempotent(f: Feature, sprints: seq<Sprint>)
    requires DatesFromSprints(f, sprints).Ok?
    ensures DatesFromSprints(DatesFromSprints(f, sprints).value, sprints) == DatesFromSprints(f, sprints)
  {
    var g := DatesFromSprints(f, sprints).value;
    assert g.sprintAllocations == f.sprintAllocations;
    assert Referenced(g.sprintAllocations) == Referenced(f.sprintAllocations);
    assert AssociatedSprints(g, sprints) == AssociatedSprints(f, sprints);
  }
}
