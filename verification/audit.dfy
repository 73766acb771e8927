/** The audit string of `createLogDescription`: a field-by-field comparison of
    an entity before and after an edit. Object keys are the record's field
    names; two values are "equal as JSON" exactly when they are equal values
    (every field the records carry serialises injectively). */
module Audit {
  import opened Common
  import opened Dates
  import opened Domain

  /** The field names that occur as keys of a feature or sprint object. */
  datatype FieldName =
    | IdField | NameField | DescriptionField | PriorityField | StatusField
    | StartDateField | EndDateField | EstimatedCostField | PointsField | OwnerField
    | ProgramsField | SystemField | JiraNumberField | SprintAllocationsField
    | TargetDeploymentDateField | CapacityField | IsClosedField

  function KeyName(k: FieldName): string {
    match k
    case IdField => "id"
    case NameField => "name"
    case DescriptionField => "description"
    case PriorityField => "priority"
    case StatusField => "status"
    case StartDateField => "startDate"
    case EndDateField => "endDate"
    case EstimatedCostField => "estimatedCost"
    case PointsField => "points"
    case OwnerField => "owner"
    case ProgramsField => "programs"
    case SystemField => "system"
    case JiraNumberField => "jiraNumber"
    case SprintAllocationsField => "sprintAllocations"
    case TargetDeploymentDateField => "targetDeploymentDate"
    case CapacityField => "capacity"
    case IsClosedField => "isClosed"
  }

  /** A property value as JavaScript sees it; `Absent` is `undefined`. */
  datatype FieldValue =
    | Text(s: string)
    | Num(n: int)
    | Day(d: Date)
    | Flag(b: bool)
    | Texts(items: seq<string>)
    | Allocs(allocs: seq<SprintAllocation>)
    | Absent

  /** An object: its own keys in insertion order, and a property read. */
  datatype Entity = Entity(keys: seq<FieldName>, get: FieldName -> FieldValue)

  /** JavaScript truthiness of a value. */
  predicate Truthy(v: FieldValue) {
    match v
    case Text(s) => s != ""
    case Num(n) => n != 0
    case Day(_) => true
    case Flag(b) => b
    case Texts(_) => true
    case Allocs(_) => true
    case Absent => false
  }

  /** `parts` joined with `sep` between neighbours (Array.prototype.join). */
  function Join(parts: seq<string>, sep: string): (r: string)
    ensures parts == [] ==> r == ""
    ensures |parts| > 0 && |parts[0]| > 0 ==> |r| > 0 && r[0] == parts[0][0]
  {
    if parts == [] then ""
    else if |parts| == 1 then parts[0]
    else parts[0] + sep + Join(parts[1..], sep)
  }

  /** The text a template literal gives a value (`${value}`). */
  function Show(v: FieldValue): string {
    match v
    case Text(s) => s
    case Num(n) => IntToString(n)
    case Day(d) => Format(d)
    case Flag(b) => if b then "true" else "false"
    case Texts(items) => Join(items, ",")
    case Allocs(a) => Join(seq(|a|, _ => "[object Object]"), ",")
    case Absent => "undefined"
  }

  const NoChanges: string := "No identifiable changes"
  const AllocationNote: string := "Updated sprint allocations"

  /** The key is compared field by field: everything but the id and the allocations. */
  predicate Compared(k: FieldName) {
    k != IdField && k != SprintAllocationsField
  }

  /** The key is reported: compared, and its value differs between the two objects. */
  predicate Differs(before: Entity, after: Entity, k: FieldName) {
    Compared(k) && before.get(k) != after.get(k)
  }

  function DiffersIn(before: Entity, after: Entity): FieldName -> bool {
    k => Differs(before, after, k)
  }

  /** The reported keys, in the key order of the new object. */
  function ChangedKeys(before: Entity, after: Entity): (r: seq<FieldName>)
    ensures forall i :: 0 <= i < |r| ==> r[i] in after.keys && Compared(r[i])
    ensures forall i :: 0 <= i < |after.keys| ==>
      (after.keys[i] in r <==> Differs(before, after, after.keys[i]))
    ensures r == [] <==> forall i :: 0 <= i < |after.keys| ==> !Differs(before, after, after.keys[i])
  {
    Filter(after.keys, DiffersIn(before, after))
  }

  /** Every reported key really differs between the two objects. */
  lemma ChangedKeysDiffer(before: Entity, after: Entity)
    ensures forall i :: 0 <= i < |ChangedKeys(before, after)| ==>
      Differs(before, after, ChangedKeys(before, after)[i])
  {
  }

  function Fragment(k: FieldName, before: FieldValue, after: FieldValue): (r: string)
    ensures |r| > 0 && r[0] == 'C'
  {
    "Changed " + KeyName(k) + " from \"" + Show(before) + "\" to \"" + Show(after) + "\""
  }

  function Fragments(keys: seq<FieldName>, before: Entity, after: Entity): (r: seq<string>)
    ensures |r| == |keys|
    ensures forall i :: 0 <= i < |keys| ==> r[i] == Fragment(keys[i], before.get(keys[i]), after.get(keys[i]))
  {
    if keys == [] then []
    else [Fragment(keys[0], before.get(keys[0]), after.get(keys[0]))] + Fragments(keys[1..], before, after)
  }

  /** The allocation list is present on the new object and differs from the old one. */
  predicate AllocationsChanged(before: Entity, after: Entity) {
    Truthy(after.get(SprintAllocationsField))
    && before.get(SprintAllocationsField) != after.get(SprintAllocationsField)
  }

  /** The change fragments: one per reported key, then the allocation note. */
  function Changes(before: Entity, after: Entity): (r: seq<string>)
    ensures |r| == |ChangedKeys(before, after)| + (if AllocationsChanged(before, after) then 1 else 0)
    ensures AllocationsChanged(before, after) ==> r[|r| - 1] == AllocationNote
    ensures r[..|ChangedKeys(before, after)|] == Fragments(ChangedKeys(before, after), before, after)
  {
    var frags := Fragments(ChangedKeys(before, after), before, after);
    var note := if AllocationsChanged(before, after) then [AllocationNote] else [];
    frags + note
  }

  /** Every fragment starts with "Changed" or "Updated", never like the
      no-change text. */
  lemma ChangesInitials(before: Entity, after: Entity)
    ensures forall i :: 0 <= i < |Changes(before, after)| ==>
      |Changes(before, after)[i]| > 0 && Changes(before, after)[i][0] != NoChanges[0]
  {
    var r := Changes(before, after);
    var frags := Fragments(ChangedKeys(before, after), before, after);
    assert forall i :: 0 <= i < |frags| ==> |frags[i]| > 0 && frags[i][0] == 'C';
    assert r[..|frags|] == frags;
  }

  /** createLogDescription. */
  function Describe(before: Entity, after: Entity): (r: string)
    ensures r == NoChanges <==>
      ChangedKeys(before, after) == [] && !AllocationsChanged(before, after)
  {
    var parts := Changes(before, after);
    ChangesInitials(before, after);
    if |parts| > 0 then Join(parts, "; ") else NoChanges
  }

  // ---- Features and sprints as objects ------------------------------------------

  /** The keys of a feature object, in declaration order. */
  const FeatureKeys: seq<FieldName> := [
    IdField, NameField, DescriptionField, PriorityField, StatusField, StartDateField,
    EndDateField, EstimatedCostField, PointsField, OwnerField, ProgramsField, SystemField,
    JiraNumberField, SprintAllocationsField]

  function FeatureValue(f: Feature, k: FieldName): FieldValue {
    match k
    case IdField => Text(f.id)
    case NameField => Text(f.name)
    case DescriptionField => Text(f.description)
    case PriorityField => Text(PriorityName(f.priority))
    case StatusField => Text(StatusName(f.status))
    case StartDateField => Day(f.startDate)
    case EndDateField => Day(f.endDate)
    case EstimatedCostField => Num(f.estimatedCost)
    case PointsField => Num(f.points)
    case OwnerField => Text(f.owner)
    case ProgramsField => Texts(f.programs)
    case SystemField => Text(SystemName(f.system))
    case JiraNumberField => Text(f.jiraNumber)
    case SprintAllocationsField => Allocs(f.sprintAllocations)
    case _ => Absent
  }

  function FeatureObject(f: Feature): Entity {
    Entity(FeatureKeys, k => FeatureValue(f, k))
  }

  /** The keys of a sprint object; the optional fields only when present. */
  function SprintKeys(s: Sprint): seq<FieldName> {
    [IdField, NameField, StartDateField, EndDateField, TargetDeploymentDateField, CapacityField]
      + (if s.isClosed.Some? then [IsClosedField] else [])
      + (if s.system.Some? then [SystemField] else [])
  }

  function SprintValue(s: Sprint, k: FieldName): FieldValue {
    match k
    case IdField => Text(s.id)
    case NameField => Text(s.name)
    case StartDateField => Day(s.startDate)
    case EndDateField => Day(s.endDate)
    case TargetDeploymentDateField => Day(s.targetDeploymentDate)
    case CapacityField => Num(s.capacity)
    case IsClosedField => if s.isClosed.Some? then Flag(s.isClosed.value) else Absent
    case SystemField => if s.system.Some? then Text(SystemName(s.system.value)) else Absent
    case _ => Absent
  }

  function SprintObject(s: Sprint): Entity {
    Entity(SprintKeys(s), k => SprintValue(s, k))
  }

  function FeatureDescription(before: Feature, after: Feature): string {
    Describe(FeatureObject(before), FeatureObject(after))
  }

  function SprintDescription(before: Sprint, after: Sprint): string {
    Describe(SprintObject(before), SprintObject(after))
  }

  /** The identifier and the allocation list are never reported as field changes. */
  lemma IdAndAllocationsNeverListed(before: Entity, after: Entity)
    ensures IdField !in ChangedKeys(before, after)
    ensures SprintAllocationsField !in ChangedKeys(before, after)
  {
  }

  /** Nothing is reported exactly when every compared key of the new object
      reads the same value in both objects. */
  lemma SilentIff(before: Entity, after: Entity)
    ensures Describe(before, after) == NoChanges <==>
      (forall i :: 0 <= i < |after.keys| && Compared(after.keys[i]) ==>
         before.get(after.keys[i]) == after.get(after.keys[i]))
      && !AllocationsChanged(before, after)
  {
  }

  /** The feature fields a template literal or JSON text distinguishes. */
  predicate SameFeatureFields(before: Feature, after: Feature) {
    forall i :: 1 <= i < 13 ==> FeatureValue(before, FeatureKeys[i]) == FeatureValue(after, FeatureKeys[i])
  }

  /** One compared feature field read from the predicate. */
  lemma SameFeatureFieldAt(before: Feature, after: Feature, i: int)
    requires SameFeatureFields(before, after) && 1 <= i < 13
    ensures FeatureValue(before, FeatureKeys[i]) == FeatureValue(after, FeatureKeys[i])
  {
  }

  lemma {:induction false} SameFeatureFieldsIff(before: Feature, after: Feature)
    ensures SameFeatureFields(before, after) && before.sprintAllocations == after.sprintAllocations
      <==> after == before.(id := after.id)
  {
    if SameFeatureFields(before, after) && before.sprintAllocations == after.sprintAllocations {
      NamesAreDistinct();
      SameFeatureFieldAt(before, after, 1);
      SameFeatureFieldAt(before, after, 2);
      SameFeatureFieldAt(before, after, 3);
      SameFeatureFieldAt(before, after, 4);
      SameFeatureFieldAt(before, after, 5);
      SameFeatureFieldAt(before, after, 6);
      SameFeatureFieldAt(before, after, 7);
      SameFeatureFieldAt(before, after, 8);
      SameFeatureFieldAt(before, after, 9);
      SameFeatureFieldAt(before, after, 10);
      SameFeatureFieldAt(before, after, 11);
      SameFeatureFieldAt(before, after, 12);
    }
  }

  lemma FeatureKeysCompared(before: Feature, after: Feature)
    ensures var b, a := FeatureObject(before), FeatureObject(after);
      (forall i :: 0 <= i < |a.keys| && Compared(a.keys[i]) ==> b.get(a.keys[i]) == a.get(a.keys[i]))
      <==> SameFeatureFields(before, after)
  {
    var b, a := FeatureObject(before), FeatureObject(after);
    assert a.keys == FeatureKeys;
    assert forall i :: 0 <= i < |FeatureKeys| ==> (Compared(FeatureKeys[i]) <==> 1 <= i < 13);
    assert forall k :: b.get(k) == FeatureValue(before, k) && a.get(k) == FeatureValue(after, k);
  }

  /** A feature edit produces no log text exactly when nothing but (possibly)
      the identifier changed. */
  lemma {:induction false} FeatureUnchangedIff(before: Feature, after: Feature)
    ensures FeatureDescription(before, after) == NoChanges <==> after == before.(id := after.id)
  {
    var b, a := FeatureObject(before), FeatureObject(after);
    SilentIff(b, a);
    SameFeatureFieldsIff(before, after);
    FeatureKeysCompared(before, after);
    FeatureAllocationNote(before, after);
    assert FeatureDescription(before, after) == Describe(b, a);
  }

  /** For features the allocation note appears exactly when the list changed. */
  lemma FeatureAllocationNote(before: Feature, after: Feature)
    ensures AllocationsChanged(FeatureObject(before), FeatureObject(after))
      <==> before.sprintAllocations != after.sprintAllocations
  {
  }

  /** The name, the three dates and the capacity are unchanged, and every
      optional field the new sprint carries has its old value. */
  predicate SameSprintFields(before: Sprint, after: Sprint) {
    && after.name == before.name
    && after.startDate == before.startDate
    && after.endDate == before.endDate
    && after.targetDeploymentDate == before.targetDeploymentDate
    && after.capacity == before.capacity
    && (after.isClosed.Some? ==> after.isClosed == before.isClosed)
    && (after.system.Some? ==> after.system == before.system)
  }

  /** Every compared key of the new sprint object reads the same in both. */
  predicate SprintKeysAgree(before: Sprint, after: Sprint) {
    var b, a := SprintObject(before), SprintObject(after);
    forall i :: 0 <= i < |a.keys| && Compared(a.keys[i]) ==> b.get(a.keys[i]) == a.get(a.keys[i])
  }

  /** The agreement at one compared key of the new sprint object. */
  lemma SprintKeyAgreesAt(before: Sprint, after: Sprint, i: int, k: FieldName)
    requires SprintKeysAgree(before, after)
    requires 0 <= i < |SprintKeys(after)| && SprintKeys(after)[i] == k && Compared(k)
    ensures SprintValue(before, k) == SprintValue(after, k)
  {
    var b, a := SprintObject(before), SprintObject(after);
    assert a.keys[i] == k;
    assert b.get(k) == a.get(k);
  }

  lemma SprintFixedKeysAgree(before: Sprint, after: Sprint)
    requires SprintKeysAgree(before, after)
    ensures after.name == before.name && after.startDate == before.startDate
    ensures after.endDate == before.endDate && after.targetDeploymentDate == before.targetDeploymentDate
    ensures after.capacity == before.capacity
  {
    var keys := SprintKeys(after);
    assert keys[1] == NameField && keys[2] == StartDateField && keys[3] == EndDateField;
    assert keys[4] == TargetDeploymentDateField && keys[5] == CapacityField;
    SprintKeyAgreesAt(before, after, 1, NameField);
    SprintKeyAgreesAt(before, after, 2, StartDateField);
    SprintKeyAgreesAt(before, after, 3, EndDateField);
    SprintKeyAgreesAt(before, after, 4, TargetDeploymentDateField);
    SprintKeyAgreesAt(before, after, 5, CapacityField);
  }

  lemma SprintClosedKeyAgrees(before: Sprint, after: Sprint)
    requires SprintKeysAgree(before, after) && after.isClosed.Some?
    ensures after.isClosed == before.isClosed
  {
    assert SprintKeys(after)[6] == IsClosedField;
    SprintKeyAgreesAt(before, after, 6, IsClosedField);
  }

  lemma SprintSystemKeyAgrees(before: Sprint, after: Sprint)
    requires SprintKeysAgree(before, after) && after.system.Some?
    ensures after.system == before.system
  {
    var j := if after.isClosed.Some? then 7 else 6;
    assert SprintKeys(after)[j] == SystemField;
    SprintKeyAgreesAt(before, after, j, SystemField);
    NamesAreDistinct();
  }

  lemma SprintKeysAgreeSame(before: Sprint, after: Sprint)
    requires SprintKeysAgree(before, after)
    ensures SameSprintFields(before, after)
  {
    SprintFixedKeysAgree(before, after);
    if after.isClosed.Some? {
      SprintClosedKeyAgrees(before, after);
    }
    if after.system.Some? {
      SprintSystemKeyAgrees(before, after);
    }
  }

  lemma {:induction false} SameSprintKeysAgree(before: Sprint, after: Sprint)
    requires SameSprintFields(before, after)
    ensures SprintKeysAgree(before, after)
  {
    var b, a := SprintObject(before), SprintObject(after);
    forall i | 0 <= i < |a.keys| && Compared(a.keys[i])
      ensures b.get(a.keys[i]) == a.get(a.keys[i])
    {
      var k := a.keys[i];
      assert k in SprintKeys(after);
      assert k.IsClosedField? ==> after.isClosed.Some?;
      assert k.SystemField? ==> after.system.Some?;
    }
  }

  lemma {:induction false} SprintKeysCompared(before: Sprint, after: Sprint)
    ensures SprintKeysAgree(before, after) <==> SameSprintFields(before, after)
  {
    if SprintKeysAgree(before, after) {
      SprintKeysAgreeSame(before, after);
    }
    if SameSprintFields(before, after) {
      SameSprintKeysAgree(before, after);
    }
  }

  /** A sprint object never yields the allocation note. */
  lemma SprintHasNoAllocationNote(before: Sprint, after: Sprint)
    ensures !AllocationsChanged(SprintObject(before), SprintObject(after))
  {
  }

  /** A sprint edit is silent exactly when the name, the three dates and the
      capacity are unchanged and every optional field the new object carries
      has its old value; dropping an optional field goes unreported. */
  lemma {:induction false} SprintUnchangedIff(before: Sprint, after: Sprint)
    ensures SprintDescription(before, after) == NoChanges <==> SameSprintFields(before, after)
  {
    var b, a := SprintObject(before), SprintObject(after);
    SilentIff(b, a);
    SprintKeysCompared(before, after);
    SprintHasNoAllocationNote(before, after);
    assert SprintDescription(before, after) == Describe(b, a);
  }

  /** Renaming a feature and changing its points alters the values of those
      two keys and of no other. */
  lemma RenameRepointValues(f: Feature, name: string, points: int, k: FieldName)
    ensures var g := f.(name := name, points := points);
      (FeatureValue(f, k) != FeatureValue(g, k)) <==> (k == NameField && name != f.name) || (k == PointsField && points != f.points)
  {
  }

  /** Renaming a feature and changing its points reports exactly those two
      fields. */
  lemma {:induction false} RenameAndRepointKeys(f: Feature, name: string, points: int)
    requires name != f.name && points != f.points
    ensures var g := f.(name := name, points := points);
      var r := ChangedKeys(FeatureObject(f), FeatureObject(g));
      && NameField in r && PointsField in r
      && forall i :: 0 <= i < |r| ==> r[i] == NameField || r[i] == PointsField
  {
    var g := f.(name := name, points := points);
    var b, a := FeatureObject(f), FeatureObject(g);
    var r := ChangedKeys(b, a);
    assert a.keys[1] == NameField && a.keys[8] == PointsField;
    RenameRepointValues(f, name, points, NameField);
    RenameRepointValues(f, name, points, PointsField);
    assert Differs(b, a, a.keys[1]) && Differs(b, a, a.keys[8]);
    forall i | 0 <= i < |r|
      ensures r[i] == NameField || r[i] == PointsField
    {
      ChangedKeysDiffer(b, a);
      assert Differs(b, a, r[i]);
      RenameRepointValues(f, name, points, r[i]);
    }
  }
}
