/** The feature editor (`components/FeatureDrawer.tsx`): a draft of one feature
    with two free-form date texts. Sprint associations re-derive the feature's
    dates from its sprints; allocation edits are clamped rather than refused. */
module FeatureEditor {
  import opened Common
  import opened Dates
  import opened Domain
  import opened Allocations

  /** The draft feature and its two date texts. */
  datatype Form = Form(draft: Feature, startText: string, endText: string)

  datatype DateField = StartField | EndField

  /** The form is dirty when the draft differs from the stored feature
      (the two serialise differently exactly when their values differ). */
  predicate Dirty(form: Form, stored: Feature) {
    form.draft != stored
  }

  // ---- Date texts --------------------------------------------------------------

  /** handleDateStringUpdate: the text always follows the input; the draft only
      takes texts of the form `YYYY-MM-DD`. Unlike the sprint editor nothing
      else moves, and the day need not exist. */
  function DateTextUpdate(form: Form, field: DateField, val: string): (r: Form)
    ensures field == StartField ==> r.startText == val && r.endText == form.endText
    ensures field == EndField ==> r.endText == val && r.startText == form.startText
    // only the edited date of the draft can change, and only to a well-formed text
    ensures field == StartField ==> r.draft.(startDate := form.draft.startDate) == form.draft
    ensures field == EndField ==> r.draft.(endDate := form.draft.endDate) == form.draft
    ensures r.draft != form.draft ==> MatchesDatePattern(val)
  {
    match field
    case StartField =>
      var f := form.(startText := val);
      (match Parse(val)
       case None => f
       case Some(d) => f.(draft := f.draft.(startDate := d)))
    case EndField =>
      var f := form.(endText := val);
      (match Parse(val)
       case None => f
       case Some(d) => f.(draft := f.draft.(endDate := d)))
  }

  /** Typing the formatted text of a date stores exactly that date, so the
      text and the draft agree. */
  lemma TypedDateIsStored(form: Form, field: DateField, d: Date)
    requires Shaped(d)
    ensures field == StartField ==> DateTextUpdate(form, field, Format(d)).draft.startDate == d
    ensures field == EndField ==> DateTextUpdate(form, field, Format(d)).draft.endDate == d
  {
    ParseFormat(d);
  }

  /** A text that is not `YYYY-MM-DD` leaves the draft, and so its dirtiness, alone. */
  lemma MalformedTextKeepsDraft(form: Form, field: DateField, val: string, stored: Feature)
    requires !MatchesDatePattern(val)
    ensures DateTextUpdate(form, field, val).draft == form.draft
    ensures Dirty(DateTextUpdate(form, field, val), stored) == Dirty(form, stored)
  {
  }

  // ---- Sprint associations ----------------------------------------------------------

  datatype AssociationAction = Assign | Unassign

  /** The allocations after handleSprintAssociation's first step: an assignment
      to a sprint the feature already references changes nothing; otherwise it
      appends the given points, or by default the unallocated remainder (never
      negative). An unassignment drops every allocation to the sprint. */
  function NextAllocations(f: Feature, sprintId: string, action: AssociationAction, points: Option<int>)
    : (r: seq<SprintAllocation>)
    ensures action == Assign ==> AllocatedTo(r, sprintId)
    ensures action == Unassign ==> !AllocatedTo(r, sprintId)
    ensures action == Unassign ==> forall i :: 0 <= i < |f.sprintAllocations| ==>
      (f.sprintAllocations[i] in r <==> f.sprintAllocations[i].sprintId != sprintId)
    ensures action == Assign && AllocatedTo(f.sprintAllocations, sprintId) ==> r == f.sprintAllocations
    ensures action == Assign && !AllocatedTo(f.sprintAllocations, sprintId) ==>
      && |r| == |f.sprintAllocations| + 1
      && r[..|f.sprintAllocations|] == f.sprintAllocations
      && r[|f.sprintAllocations|].sprintId == sprintId
      && (points.Some? ==> r[|f.sprintAllocations|].points == points.value)
      && (points.None? ==> r[|f.sprintAllocations|].points >= 0)
  {
    var a := f.sprintAllocations;
    match action
    case Assign =>
      if AllocatedTo(a, sprintId) then a
      else
        var added := SprintAllocation(sprintId, points.GetOr(Max(0, f.points - AllocatedPoints(f))));
        assert (a + [added])[|a|] == added;
        a + [added]
    case Unassign => WithoutSprint(a, sprintId)
  }

  /** Assigning without naming points brings the total up to the feature's
      points, or keeps a larger total that was already there. */
  lemma DefaultAssignFills(f: Feature, sprintId: string)
    requires !AllocatedTo(f.sprintAllocations, sprintId)
    ensures SumPoints(NextAllocations(f, sprintId, Assign, None)) == Max(AllocatedPoints(f), f.points)
  {
    var remaining := Max(0, f.points - AllocatedPoints(f));
    SumPointsAppend(f.sprintAllocations, [SprintAllocation(sprintId, remaining)]);
    assert SumPoints([SprintAllocation(sprintId, remaining)]) == remaining;
  }

  /** Assigning twice is assigning once. */
  lemma AssignIdempotent(f: Feature, sprintId: string, points: Option<int>, again: Option<int>)
    ensures var once := f.(sprintAllocations := NextAllocations(f, sprintId, Assign, points));
      NextAllocations(once, sprintId, Assign, again) == once.sprintAllocations
  {
  }

  /** Unassigning a sprint that was just assigned restores the allocations. */
  lemma UnassignUndoesAssign(f: Feature, sprintId: string, points: Option<int>)
    requires !AllocatedTo(f.sprintAllocations, sprintId)
    ensures var once := f.(sprintAllocations := NextAllocations(f, sprintId, Assign, points));
      NextAllocations(once, sprintId, Unassign, None) == f.sprintAllocations
  {
    var a := f.sprintAllocations;
    var r := NextAllocations(f, sprintId, Assign, points);
    assert r == a + [r[|a|]];
    FilterAppend(a, [r[|a|]], NotForSprint(sprintId));
    FilterAll(a, NotForSprint(sprintId));
  }

  /** handleSprintAssociation: the allocations change as above, then the dates
      are re-derived from the referenced sprints (which throws on an unreadable
      sprint date) and both texts show the derived dates. */
  function SprintAssociation(form: Form, sprints: seq<Sprint>, sprintId: string,
                             action: AssociationAction, points: Option<int>): (r: Result<Form, DateFault>)
    ensures var next := form.draft.(sprintAllocations := NextAllocations(form.draft, sprintId, action, points));
      && (r.Err? <==> DatesFromSprints(next, sprints).Err?)
      && (r.Ok? ==> r.value.draft == DatesFromSprints(next, sprints).value)
    ensures r.Ok? ==> r.value.startText == Format(r.value.draft.startDate) && r.value.endText == Format(r.value.draft.endDate)
    // the derived dates are already in step with the sprints
    ensures r.Ok? ==> DatesFromSprints(r.value.draft, sprints) == Ok(r.value.draft)
  {
    var next := form.draft.(sprintAllocations := NextAllocations(form.draft, sprintId, action, points));
    match DatesFromSprints(next, sprints)
    case Err(e) => Err(e)
    case Ok(g) =>
      DatesFromSprintsIdempotent(next, sprints);
      Ok(Form(g, Format(g.startDate), Format(g.endDate)))
  }

  /** An association that changes no allocation, on a draft whose dates are
      already derived, leaves the draft as it was. */
  lemma RedundantAssociationKeepsDraft(form: Form, sprints: seq<Sprint>, sprintId: string,
                                      action: AssociationAction, points: Option<int>)
    requires DatesFromSprints(form.draft, sprints) == Ok(form.draft)
    requires action == Assign <==> AllocatedTo(form.draft.sprintAllocations, sprintId)
    ensures SprintAssociation(form, sprints, sprintId, action, points).Ok?
    ensures SprintAssociation(form, sprints, sprintId, action, points).value.draft == form.draft
  {
    var a := form.draft.sprintAllocations;
    if action == Unassign {
      FilterAll(a, NotForSprint(sprintId));
    }
    assert form.draft.(sprintAllocations := NextAllocations(form.draft, sprintId, action, points)) == form.draft;
  }

  /** The sprint picker offers the open sprints the feature does not reference yet. */
  function Assignable(f: Feature): Sprint -> bool {
    (s: Sprint) => !IsClosed(s) && !AllocatedTo(f.sprintAllocations, s.id)
  }

  function PickerSprints(sprints: seq<Sprint>, f: Feature): (r: seq<Sprint>)
    ensures forall i :: 0 <= i < |r| ==> r[i] in sprints && !IsClosed(r[i]) && !AllocatedTo(f.sprintAllocations, r[i].id)
    ensures forall i :: 0 <= i < |sprints| ==>
      (sprints[i] in r <==> !IsClosed(sprints[i]) && !AllocatedTo(f.sprintAllocations, sprints[i].id))
  {
    Filter(sprints, Assignable(f))
  }

  /** A sprint picked from the picker gets exactly one new allocation and then
      disappears from the picker. */
  lemma PickedSprintLeavesPicker(sprints: seq<Sprint>, f: Feature, i: nat)
    requires i < |PickerSprints(sprints, f)|
    ensures var s := PickerSprints(sprints, f)[i];
      var g := f.(sprintAllocations := NextAllocations(f, s.id, Assign, None));
      && |g.sprintAllocations| == |f.sprintAllocations| + 1
      && s !in PickerSprints(sprints, g)
  {
    var s := PickerSprints(sprints, f)[i];
    var g := f.(sprintAllocations := NextAllocations(f, s.id, Assign, None));
    assert AllocatedTo(g.sprintAllocations, s.id);
  }

  // ---- Allocation edits ------------------------------------------------------------

  /** updateAllocation: the new value is capped so that the sprint's entry plus
      everybody else's does not exceed the feature's points. There is no lower
      bound, and the edit applies to every entry for the sprint. */
  function UpdateAllocation(f: Feature, sprintId: string, val: int): (r: Feature)
    ensures r.(sprintAllocations := f.sprintAllocations) == f
    ensures |r.sprintAllocations| == |f.sprintAllocations|
    ensures forall i :: 0 <= i < |f.sprintAllocations| && f.sprintAllocations[i].sprintId != sprintId ==>
      r.sprintAllocations[i] == f.sprintAllocations[i]
    ensures forall i :: 0 <= i < |f.sprintAllocations| && f.sprintAllocations[i].sprintId == sprintId ==>
      && r.sprintAllocations[i].sprintId == sprintId
      && r.sprintAllocations[i].points <= val
      && r.sprintAllocations[i].points + OtherSum(f.sprintAllocations, sprintId) <= f.points
      && (r.sprintAllocations[i].points == val
          || r.sprintAllocations[i].points + OtherSum(f.sprintAllocations, sprintId) == f.points)
  {
    f.(sprintAllocations := Capped(f.sprintAllocations, f.points, sprintId, val))
  }

  /** The allocations with the sprint's entries set to `val`, capped at what the
      other sprints leave of `points`. */
  function Capped(a: seq<SprintAllocation>, points: int, sprintId: string, val: int): seq<SprintAllocation> {
    SetPoints(a, sprintId, Min(val, points - OtherSum(a, sprintId)))
  }

  lemma CappedIs(b: seq<SprintAllocation>, points: int, sprintId: string, val: int, other: int)
    requires OtherSum(b, sprintId) == other
    ensures Capped(b, points, sprintId, val) == SetPoints(b, sprintId, Min(val, points - other))
  {
  }

  lemma CappedTwice(a: seq<SprintAllocation>, points: int, sprintId: string, val: int)
    ensures Capped(Capped(a, points, sprintId, val), points, sprintId, val) == Capped(a, points, sprintId, val)
  {
    var other := OtherSum(a, sprintId);
    var safe := Min(val, points - other);
    CappedIs(a, points, sprintId, val, other);
    SetPointsKeepsOthers(a, sprintId, safe);
    CappedIs(SetPoints(a, sprintId, safe), points, sprintId, val, other);
    SetPointsTwice(a, sprintId, safe);
  }

  /** With a single entry for the sprint the feature is never over-allocated by
      the edit: the total is the requested split when it fits, and exactly the
      feature's points when it does not. */
  lemma UpdateAllocationTotal(f: Feature, sprintId: string, val: int)
    requires CountFor(f.sprintAllocations, sprintId) == 1
    ensures AllocatedPoints(UpdateAllocation(f, sprintId, val)) <= f.points
    ensures AllocatedPoints(UpdateAllocation(f, sprintId, val))
      == Min(OtherSum(f.sprintAllocations, sprintId) + val, f.points)
  {
    var other := OtherSum(f.sprintAllocations, sprintId);
    CappedIs(f.sprintAllocations, f.points, sprintId, val, other);
    SetPointsSum(f.sprintAllocations, sprintId, Min(val, f.points - other));
  }

  /** An edit for a sprint the feature does not reference changes nothing. */
  lemma UpdateAllocationOfOtherSprint(f: Feature, sprintId: string, val: int)
    requires !AllocatedTo(f.sprintAllocations, sprintId)
    ensures UpdateAllocation(f, sprintId, val) == f
  {
    var r := UpdateAllocation(f, sprintId, val);
    assert r.sprintAllocations == f.sprintAllocations;
  }

  /** Repeating the same edit changes nothing more. */
  lemma UpdateAllocationIdempotent(f: Feature, sprintId: string, val: int)
    ensures UpdateAllocation(UpdateAllocation(f, sprintId, val), sprintId, val) == UpdateAllocation(f, sprintId, val)
  {
    CappedTwice(f.sprintAllocations, f.points, sprintId, val);
  }

  // ---- Program suggestions ------------------------------------------------------------

  /** Every program named by any feature. */
  function ProgramSet(fs: seq<Feature>): (r: set<string>)
    ensures forall p :: p in r <==> exists i :: 0 <= i < |fs| && p in fs[i].programs
  {
    set i, j | 0 <= i < |fs| && 0 <= j < |fs[i].programs| :: fs[i].programs[j]
  }

  /** existingPrograms: the distinct programs of all features, in code-unit order. */
  function ExistingPrograms(fs: seq<Feature>): (r: seq<string>)
    ensures forall k :: 0 <= k < |r| ==> exists i :: 0 <= i < |fs| && r[k] in fs[i].programs
    ensures forall i, p :: 0 <= i < |fs| && p in fs[i].programs ==> p in r
    ensures forall k, l :: 0 <= k < l < |r| ==> TextLt(r[k], r[l])
    ensures forall k, l :: 0 <= k < l < |r| ==> r[k] != r[l]
  {
    var all := ProgramSet(fs);
    SortedTextsCover(all);
    var r := SortedTexts(all);
    forall k, l | 0 <= k < l < |r|
      ensures r[k] != r[l]
    {
      TextLtIrreflexive(r[k]);
    }
    r
  }
}
