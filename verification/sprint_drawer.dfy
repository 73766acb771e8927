/** The sprint editor (`components/SprintDrawer.tsx`): a draft of the sprint
    and a staged copy of the backlog that is edited locally and persisted on
    save. Allocation edits here are strict: an edit that would over-allocate a
    feature is refused and nothing changes. */
module SprintEditor {
  import opened Common
  import opened Dates
  import opened Domain
  import opened Allocations

  /** The draft sprint and the three free-form date texts. */
  datatype Form = Form(draft: Sprint, startText: string, endText: string, deployText: string)

  datatype DateField = StartField | EndField | DeployField

  /** The automatic sprint length: the end follows the start by two weeks. */
  const SprintDays: int := 14

  /** handleDateStringUpdate: the text always follows the input; the draft only
      takes `YYYY-MM-DD` texts. A start that names a real day also moves the end
      to two weeks later. */
  function DateTextUpdate(form: Form, field: DateField, val: string): (r: Form)
    // only the three dates of the draft can change
    ensures r.draft.(startDate := form.draft.startDate, endDate := form.draft.endDate,
                     targetDeploymentDate := form.draft.targetDeploymentDate) == form.draft
    ensures !MatchesDatePattern(val) ==> r.draft == form.draft
    ensures field == StartField ==> r.startText == val && r.draft.targetDeploymentDate == form.draft.targetDeploymentDate
    ensures field == EndField ==>
      && r.endText == val && r.startText == form.startText
      && r.draft == (if MatchesDatePattern(val) then form.draft.(endDate := Parse(val).value) else form.draft)
    ensures field == DeployField ==>
      && r.deployText == val && r.startText == form.startText && r.endText == form.endText
      && r.draft == (if MatchesDatePattern(val) then form.draft.(targetDeploymentDate := Parse(val).value) else form.draft)
    // a real start day pulls the end along, and the end text shows it
    ensures field == StartField && MatchesDatePattern(val) ==> r.draft.startDate == Parse(val).value
    ensures field == StartField && MatchesDatePattern(val) && Valid(Parse(val).value) ==>
      && Valid(r.draft.endDate)
      && DayNumber(r.draft.endDate) == DayNumber(r.draft.startDate) + SprintDays
      && r.endText == Format(r.draft.endDate)
    ensures field == StartField && !(MatchesDatePattern(val) && Valid(Parse(val).value)) ==>
      r.draft.endDate == form.draft.endDate && r.endText == form.endText
  {
    match field
    case StartField =>
      var f := form.(startText := val);
      (match Parse(val)
       case None => f
       case Some(start) =>
         if Valid(start) then
           var end := PlusDays(start, SprintDays);
           PlusDaysIsLater(start, SprintDays);
           f.(endText := Format(end), draft := f.draft.(startDate := start, endDate := end))
         else f.(draft := f.draft.(startDate := start)))
    case EndField =>
      var f := form.(endText := val);
      (match Parse(val)
       case None => f
       case Some(end) => f.(draft := f.draft.(endDate := end)))
    case DeployField =>
      var f := form.(deployText := val);
      (match Parse(val)
       case None => f
       case Some(deploy) => f.(draft := f.draft.(targetDeploymentDate := deploy)))
  }

  // ---- Save ----------------------------------------------------------------------

  datatype SaveError = OverlapsAnother | StartAfterEnd

  /** The other sprints (all but the draft's id) whose range overlaps the draft. */
  predicate OverlapsOther(draft: Sprint, allSprints: seq<Sprint>) {
    exists i :: 0 <= i < |allSprints| && allSprints[i].id != draft.id && SprintsOverlap(draft, allSprints[i])
  }

  function OverlapsWith(draft: Sprint): Sprint -> bool {
    (other: Sprint) => SprintsOverlap(draft, other)
  }

  function NotDraft(draft: Sprint): Sprint -> bool {
    (s: Sprint) => s.id != draft.id
  }

  /** `new Date(start) > new Date(end)`: false when either side is NaN. */
  predicate StartsAfterEnd(s: Sprint) {
    match (Time(s.startDate), Time(s.endDate))
    case (Some(a), Some(b)) => a > b
    case _ => false
  }

  /** What a successful save persists: the draft, then each staged feature that
      differs from the stored feature with its id, in staged order. */
  datatype Saved = Saved(sprint: Sprint, features: seq<Feature>)

  function HasId(id: string): Feature -> bool {
    (f: Feature) => f.id == id
  }

  /** The staged features that replace a different stored original. */
  function ChangedFeatures(staged: seq<Feature>, stored: seq<Feature>): (r: seq<Feature>)
    ensures forall i :: 0 <= i < |r| ==> r[i] in staged
    ensures forall i :: 0 <= i < |staged| ==>
      (staged[i] in r <== Find(stored, HasId(staged[i].id)).Some? && Find(stored, HasId(staged[i].id)).value != staged[i])
    ensures forall i :: 0 <= i < |r| ==>
      Find(stored, HasId(r[i].id)).Some? && Find(stored, HasId(r[i].id)).value != r[i]
  {
    if staged == [] then []
    else
      var f := staged[0];
      var rest := ChangedFeatures(staged[1..], stored);
      match Find(stored, HasId(f.id))
      case Some(original) => if original != f then [f] + rest else rest
      case None => rest
  }

  /** The changed features keep their staged order and multiplicity: the
      selection distributes over concatenation, and a single staged feature is
      kept exactly when its stored original exists and differs. */
  lemma {:induction false} ChangedFeaturesKeepOrder(a: seq<Feature>, b: seq<Feature>, f: Feature, stored: seq<Feature>)
    ensures ChangedFeatures(a + b, stored) == ChangedFeatures(a, stored) + ChangedFeatures(b, stored)
    ensures ChangedFeatures([f], stored)
         == if Find(stored, HasId(f.id)).Some? && Find(stored, HasId(f.id)).value != f then [f] else []
  {
    if a != [] {
      assert (a + b)[0] == a[0] && (a + b)[1..] == a[1..] + b;
      ChangedFeaturesKeepOrder(a[1..], b, f, stored);
    } else {
      assert a + b == b;
    }
    assert [f][1..] == [];
  }

  /** handleSave: an overlap with another sprint is refused first, then a start
      after the end; otherwise the draft and the changed features are persisted. */
  function Save(draft: Sprint, staged: seq<Feature>, allSprints: seq<Sprint>, stored: seq<Feature>): (r: Result<Saved, SaveError>)
    ensures r == Err(OverlapsAnother) <==> OverlapsOther(draft, allSprints)
    ensures r == Err(StartAfterEnd) <==> !OverlapsOther(draft, allSprints) && StartsAfterEnd(draft)
    ensures r.Ok? ==> r.value.sprint == draft && r.value.features == ChangedFeatures(staged, stored)
  {
    var others := Filter(allSprints, NotDraft(draft));
    if exists i :: 0 <= i < |others| && OverlapsWith(draft)(others[i]) then
      var i :| 0 <= i < |others| && OverlapsWith(draft)(others[i]);
      assert others[i] in allSprints;
      Err(OverlapsAnother)
    else if StartsAfterEnd(draft) then
      Err(StartAfterEnd)
    else
      Ok(Saved(draft, ChangedFeatures(staged, stored)))
  }

  /** A saved sprint never overlaps another sprint and never ends before it starts. */
  lemma SavedSprintIsConsistent(draft: Sprint, staged: seq<Feature>, allSprints: seq<Sprint>, stored: seq<Feature>)
    requires Save(draft, staged, allSprints, stored).Ok?
    ensures forall i :: 0 <= i < |allSprints| && allSprints[i].id != draft.id ==> !SprintsOverlap(draft, allSprints[i])
    ensures Valid(draft.startDate) && Valid(draft.endDate) ==> DayNumber(draft.startDate) <= DayNumber(draft.endDate)
  {
  }

  // ---- Staged allocation edits ------------------------------------------------------

  datatype ToggleAction = Add | Remove

  /** toggleFeatureInSprintLocally on one feature: an add appends the feature's
      unallocated remainder (never negative) to this sprint; a remove drops every
      allocation to it. */
  function Toggle(f: Feature, sprintId: string, action: ToggleAction): (r: Feature)
    ensures r.(sprintAllocations := f.sprintAllocations) == f
    ensures action == Remove ==> r.sprintAllocations == WithoutSprint(f.sprintAllocations, sprintId)
    ensures action == Add ==> |r.sprintAllocations| == |f.sprintAllocations| + 1
    ensures action == Add ==> r.sprintAllocations[..|f.sprintAllocations|] == f.sprintAllocations
    ensures action == Add ==> r.sprintAllocations[|f.sprintAllocations|].sprintId == sprintId
    ensures action == Add ==> r.sprintAllocations[|f.sprintAllocations|].points >= 0
  {
    match action
    case Add =>
      var remaining := Max(0, f.points - AllocatedPoints(f));
      f.(sprintAllocations := f.sprintAllocations + [SprintAllocation(sprintId, remaining)])
    case Remove =>
      f.(sprintAllocations := WithoutSprint(f.sprintAllocations, sprintId))
  }

  /** After an add the feature has exactly its points allocated, or keeps its
      larger total when it was already over-allocated. */
  lemma {:induction false} AddFillsFeature(f: Feature, sprintId: string)
    ensures AllocatedPoints(Toggle(f, sprintId, Add)) == Max(AllocatedPoints(f), f.points)
  {
    var remaining := Max(0, f.points - AllocatedPoints(f));
    SumPointsAppend(f.sprintAllocations, [SprintAllocation(sprintId, remaining)]);
    assert SumPoints([SprintAllocation(sprintId, remaining)]) == remaining;
  }

  /** After a remove the feature no longer references the sprint. */
  lemma RemoveClearsSprint(f: Feature, sprintId: string)
    ensures !AllocatedTo(Toggle(f, sprintId, Remove).sprintAllocations, sprintId)
  {
  }

  /** The toggle applied across the staged backlog; a closed draft locks it. */
  function ToggleInStaged(staged: seq<Feature>, draft: Sprint, sprintId: string, featureId: string,
                          action: ToggleAction): (r: seq<Feature>)
    ensures IsClosed(draft) ==> r == staged
    ensures |r| == |staged|
    ensures forall i :: 0 <= i < |staged| && (IsClosed(draft) || staged[i].id != featureId) ==> r[i] == staged[i]
    ensures forall i :: 0 <= i < |staged| && !IsClosed(draft) && staged[i].id == featureId ==>
      r[i] == Toggle(staged[i], sprintId, action)
  {
    if IsClosed(draft) then staged
    else MapToggle(staged, sprintId, featureId, action)
  }

  function MapToggle(fs: seq<Feature>, sprintId: string, featureId: string, action: ToggleAction): (r: seq<Feature>)
    ensures |r| == |fs|
    ensures forall i :: 0 <= i < |fs| ==>
      r[i] == if fs[i].id == featureId then Toggle(fs[i], sprintId, action) else fs[i]
  {
    if fs == [] then []
    else
      var head := if fs[0].id == featureId then Toggle(fs[0], sprintId, action) else fs[0];
      [head] + MapToggle(fs[1..], sprintId, featureId, action)
  }

  /** The outcome of a points edit: applied, silently ignored, or refused with
      the over-allocation message. */
  datatype PointsEdit = Applied(features: seq<Feature>) | Ignored | Refused

  function SetFeaturePoints(fs: seq<Feature>, featureId: string, sprintId: string, v: int): (r: seq<Feature>)
    ensures |r| == |fs|
    ensures forall i :: 0 <= i < |fs| ==>
      r[i] == if fs[i].id == featureId
              then fs[i].(sprintAllocations := SetPoints(fs[i].sprintAllocations, sprintId, v))
              else fs[i]
  {
    if fs == [] then []
    else
      var head := if fs[0].id == featureId
                  then fs[0].(sprintAllocations := SetPoints(fs[0].sprintAllocations, sprintId, v))
                  else fs[0];
      [head] + SetFeaturePoints(fs[1..], featureId, sprintId, v)
  }

  /** updateAllocationLocally: nothing happens on a closed draft or an unknown
      feature; an edit that would take the feature's other allocations plus the
      new points above its points is refused; otherwise this sprint's entries
      of that feature take the new points. */
  function UpdateAllocationLocally(staged: seq<Feature>, draft: Sprint, sprintId: string,
                                   featureId: string, newPoints: int): (r: PointsEdit)
    ensures r.Ignored? <==> IsClosed(draft) || Find(staged, HasId(featureId)).None?
    ensures r.Refused? <==>
      && !IsClosed(draft)
      && Find(staged, HasId(featureId)).Some?
      && OtherSum(Find(staged, HasId(featureId)).value.sprintAllocations, sprintId) + newPoints
         > Find(staged, HasId(featureId)).value.points
    ensures r.Applied? ==> r.features == SetFeaturePoints(staged, featureId, sprintId, newPoints)
  {
    if IsClosed(draft) then Ignored
    else match Find(staged, HasId(featureId))
      case None => Ignored
      case Some(f) =>
        if OtherSum(f.sprintAllocations, sprintId) + newPoints > f.points then Refused
        else Applied(SetFeaturePoints(staged, featureId, sprintId, newPoints))
  }

  /** An applied edit keeps the edited feature within its points when it holds
      exactly one allocation to the sprint. */
  lemma {:induction false} AppliedEditWithinPoints(staged: seq<Feature>, draft: Sprint, sprintId: string,
                                                  featureId: string, newPoints: int, i: nat)
    requires UpdateAllocationLocally(staged, draft, sprintId, featureId, newPoints).Applied?
    requires i < |staged| && staged[i] == Find(staged, HasId(featureId)).value
    requires CountFor(staged[i].sprintAllocations, sprintId) == 1
    ensures var g := UpdateAllocationLocally(staged, draft, sprintId, featureId, newPoints).features[i];
      AllocatedPoints(g) <= g.points
  {
    var f := staged[i];
    SetPointsSum(f.sprintAllocations, sprintId, newPoints);
    assert OtherSum(f.sprintAllocations, sprintId) + newPoints <= f.points;
  }

  // ---- Figures -------------------------------------------------------------------------

  /** The staged features that reference the sprint, and the others. */
  function InSprint(fs: seq<Feature>, sprintId: string): (r: seq<Feature>)
    ensures forall i :: 0 <= i < |fs| ==> (fs[i] in r <==> AllocatedTo(fs[i].sprintAllocations, sprintId))
  {
    Filter(fs, Referencing(sprintId))
  }

  function Available(fs: seq<Feature>, sprintId: string): (r: seq<Feature>)
    ensures forall i :: 0 <= i < |fs| ==> (fs[i] in r <==> !AllocatedTo(fs[i].sprintAllocations, sprintId))
  {
    Filter(fs, (f: Feature) => !AllocatedTo(f.sprintAllocations, sprintId))
  }

  /** usedPoints sums the first allocation of each assigned feature; the
      features outside the sprint would add nothing, so it is the sprint load of
      the whole staged backlog. */
  lemma UsedPointsIsLoad(fs: seq<Feature>, sprintId: string)
    ensures SprintLoad(InSprint(fs, sprintId), sprintId) == SprintLoad(fs, sprintId)
  {
    ReferencingCarryLoad(fs, sprintId);
  }

  /** usedPoints: the load of the assigned features, which is the load of the
      whole staged backlog. */
  function UsedPoints(staged: seq<Feature>, sprintId: string): (n: int)
    ensures n == SprintLoad(staged, sprintId)
  {
    UsedPointsIsLoad(staged, sprintId);
    SprintLoad(InSprint(staged, sprintId), sprintId)
  }

  /** The draft's utilization of its capacity, 0 without positive capacity.
      `usedPoints` is the load of the whole staged backlog (`UsedPoints`), so
      the load stands in for it here. */
  function DraftUtilization(staged: seq<Feature>, draft: Sprint, sprintId: string): (u: real)
    ensures draft.capacity <= 0 ==> u == 0.0
    ensures draft.capacity > 0 ==> u * (draft.capacity as real) == (SprintLoad(staged, sprintId) as real) * 100.0
    ensures draft.capacity > 0 ==> (u <= 100.0 <==> SprintLoad(staged, sprintId) <= draft.capacity)
  {
    Utilization(SprintLoad(staged, sprintId), draft.capacity)
  }

  /** The editor has unsaved work when the draft or the staged backlog differs. */
  predicate Dirty(draft: Sprint, sprint: Sprint, staged: seq<Feature>, stored: seq<Feature>) {
    draft != sprint || staged != stored
  }

  predicate DistinctIds(fs: seq<Feature>) {
    forall i, j :: 0 <= i < j < |fs| ==> fs[i].id != fs[j].id
  }

  /** With distinct ids, saving an unedited staging persists no feature. */
  lemma {:induction false} CleanSavePersistsNoFeature(staged: seq<Feature>)
    requires DistinctIds(staged)
    ensures ChangedFeatures(staged, staged) == []
  {
    forall i | 0 <= i < |staged|
      ensures Find(staged, HasId(staged[i].id)) == Some(staged[i])
    {
      var k := FindFirst(staged, HasId(staged[i].id)).value;
      assert staged[k].id == staged[i].id;
    }
    NothingChanged(staged, staged);
  }

  /** Staged features that are all stored as they are yield nothing to persist. */
  lemma {:induction false} NothingChanged(staged: seq<Feature>, stored: seq<Feature>)
    requires forall i :: 0 <= i < |staged| ==> Find(stored, HasId(staged[i].id)) == Some(staged[i])
    ensures ChangedFeatures(staged, stored) == []
  {
    if staged != [] {
      assert Find(stored, HasId(staged[0].id)) == Some(staged[0]);
      NothingChanged(staged[1..], stored);
    }
  }
}
