/** The in-memory session of `App.tsx`: the feature backlog, the sprint list,
    the run-rate table and the audit log, with the handlers that change them.
    Each handler is a state-to-state function; the log entry's random id and
    the wall-clock time are passed in as a `Stamp`. */
module Session {
  import opened Common
  import opened Domain
  import opened Allocations
  import opened Backlog
  import opened Audit

  datatype State = State(
    features: seq<Feature>,
    sprints: seq<Sprint>,
    runRates: RunRateData,
    logs: seq<LogEntry>,
    isAdmin: bool)

  /** The id and creation time a new log entry receives. */
  datatype Stamp = Stamp(id: string, now: int)

  // ---- Audit log --------------------------------------------------------------

  /** addLog: the new entry goes in front, so the log reads newest first. */
  function AddLog(logs: seq<LogEntry>, stamp: Stamp, kind: LogKind, entityId: string,
                  entityName: string, action: string, details: string): (r: seq<LogEntry>)
    ensures |r| == |logs| + 1 && r[1..] == logs
    ensures r[0] == LogEntry(stamp.id, stamp.now, kind, entityId, entityName, action, details)
  {
    [LogEntry(stamp.id, stamp.now, kind, entityId, entityName, action, details)] + logs
  }

  predicate NewestFirst(logs: seq<LogEntry>) {
    forall i, j :: 0 <= i < j < |logs| ==> logs[i].timestamp >= logs[j].timestamp
  }

  /** A log kept newest first stays so when entries are stamped with a clock
      that does not run backwards. */
  lemma {:induction false} AddLogKeepsOrder(logs: seq<LogEntry>, stamp: Stamp, kind: LogKind, entityId: string,
                                           entityName: string, action: string, details: string)
    requires NewestFirst(logs)
    requires logs != [] ==> stamp.now >= logs[0].timestamp
    ensures NewestFirst(AddLog(logs, stamp, kind, entityId, entityName, action, details))
  {
    var r := AddLog(logs, stamp, kind, entityId, entityName, action, details);
    forall i, j | 0 <= i < j < |r|
      ensures r[i].timestamp >= r[j].timestamp
    {
      if i > 0 {
        assert r[i] == logs[i - 1] && r[j] == logs[j - 1];
      } else {
        assert r[j] == logs[j - 1];
      }
    }
  }

  // ---- Replace by id ------------------------------------------------------------

  function HasId(id: string): Feature -> bool {
    (f: Feature) => f.id == id
  }

  function SprintHasId(id: string): Sprint -> bool {
    (s: Sprint) => s.id == id
  }

  function LacksId(id: string): Feature -> bool {
    (f: Feature) => f.id != id
  }

  function SprintLacksId(id: string): Sprint -> bool {
    (s: Sprint) => s.id != id
  }

  /** Replacing twice with the same record is replacing once. */
  lemma ReplaceFeatureIdempotent(fs: seq<Feature>, updated: Feature)
    ensures var p := HasId(updated.id);
      Replace(Replace(fs, p, updated), p, updated) == Replace(fs, p, updated)
  {
  }

  /** After the replacement the first feature with that id is the update,
      provided one existed. */
  lemma {:induction false} ReplaceFeatureFinds(fs: seq<Feature>, updated: Feature)
    requires Find(fs, HasId(updated.id)).Some?
    ensures Find(Replace(fs, HasId(updated.id), updated), HasId(updated.id)) == Some(updated)
  {
    var r := Replace(fs, HasId(updated.id), updated);
    var p := HasId(updated.id);
    var k := FindFirst(fs, p).value;
    assert p(r[k]);
    forall j | 0 <= j < k
      ensures !p(r[j])
    {
      assert !p(fs[j]);
    }
    FirstIsFound(r, p, k);
  }

  /** The first index satisfying `p` is the one `FindFirst` reports. */
  lemma FirstIsFound<T>(s: seq<T>, p: T -> bool, k: nat)
    requires k < |s| && p(s[k]) && forall j :: 0 <= j < k ==> !p(s[j])
    ensures FindFirst(s, p) == Some(k) && Find(s, p) == Some(s[k])
  {
  }

  // ---- Feature handlers -----------------------------------------------------------

  /** handleUpdateFeature: replace by id, and log the field changes when the
      feature was known and the description is not the no-change text. */
  function UpdateFeature(s: State, updated: Feature, stamp: Stamp): (r: State)
    ensures r.features == Replace(s.features, HasId(updated.id), updated)
    ensures r.sprints == s.sprints && r.runRates == s.runRates && r.isAdmin == s.isAdmin
    ensures r.logs == s.logs || (|r.logs| > 0 && r.logs[1..] == s.logs)
  {
    var logs :=
      match Find(s.features, HasId(updated.id))
      case Some(original) =>
        var details := FeatureDescription(original, updated);
        if details != NoChanges
        then AddLog(s.logs, stamp, FeatureLog, updated.id, updated.name, "Updated Feature", details)
        else s.logs
      case None => s.logs;
    s.(features := Replace(s.features, HasId(updated.id), updated), logs := logs)
  }

  /** An update is logged exactly when a feature with that id exists and the
      first such feature differs from the update. */
  lemma {:induction false} UpdateFeatureLogsIff(s: State, updated: Feature, stamp: Stamp)
    ensures |UpdateFeature(s, updated, stamp).logs| == |s.logs| + 1
      <==> Find(s.features, HasId(updated.id)).Some? && Find(s.features, HasId(updated.id)).value != updated
    ensures |UpdateFeature(s, updated, stamp).logs| == |s.logs|
      <==> !(Find(s.features, HasId(updated.id)).Some? && Find(s.features, HasId(updated.id)).value != updated)
  {
    match Find(s.features, HasId(updated.id))
    case Some(original) =>
      FeatureUnchangedIff(original, updated);
      assert original.id == updated.id;
      assert original.(id := updated.id) == original;
    case None =>
  }

  /** handleDeleteFeature: drop every feature with the id; log when one existed. */
  function DeleteFeature(s: State, id: string, stamp: Stamp): (r: State)
    ensures forall i :: 0 <= i < |r.features| ==> r.features[i].id != id && r.features[i] in s.features
    ensures forall i :: 0 <= i < |s.features| && s.features[i].id != id ==> s.features[i] in r.features
    ensures r.sprints == s.sprints && r.runRates == s.runRates && r.isAdmin == s.isAdmin
    ensures |r.logs| == |s.logs| + (if exists i :: 0 <= i < |s.features| && s.features[i].id == id then 1 else 0)
  {
    var logs :=
      match Find(s.features, HasId(id))
      case Some(original) =>
        AddLog(s.logs, stamp, FeatureLog, id, original.name, "Deleted Feature", "Feature removed from backlog.")
      case None => s.logs;
    s.(features := Filter(s.features, LacksId(id)), logs := logs)
  }

  /** Deleting keeps the backlog order and multiplicity of what remains: the
      filter distributes over concatenation, and a single feature stays exactly
      when its id differs. */
  lemma {:induction false} DeleteFeatureKeepsOrder(s: State, a: seq<Feature>, b: seq<Feature>, f: Feature, id: string, stamp: Stamp)
    ensures DeleteFeature(s.(features := a + b), id, stamp).features
         == DeleteFeature(s.(features := a), id, stamp).features + DeleteFeature(s.(features := b), id, stamp).features
    ensures DeleteFeature(s.(features := [f]), id, stamp).features == (if f.id != id then [f] else [])
  {
    FilterAppend(a, b, LacksId(id));
    FilterCons(f, [], LacksId(id));
    assert [f] + [] == [f];
  }

  /** handleAddFeature: append and log. */
  function AddFeature(s: State, f: Feature, stamp: Stamp): (r: State)
    ensures |r.features| == |s.features| + 1 && r.features[..|s.features|] == s.features
    ensures r.features[|s.features|] == f
    ensures r.logs == AddLog(s.logs, stamp, FeatureLog, f.id, f.name, "Added Feature", "New feature created.")
    ensures r.sprints == s.sprints && r.runRates == s.runRates && r.isAdmin == s.isAdmin
  {
    s.(features := s.features + [f],
       logs := AddLog(s.logs, stamp, FeatureLog, f.id, f.name, "Added Feature", "New feature created."))
  }

  /** Adding a feature with a fresh id and then deleting that id restores the
      backlog; the log keeps both entries. */
  lemma {:induction false} AddThenDeleteFeature(s: State, f: Feature, stamp1: Stamp, stamp2: Stamp)
    requires forall i :: 0 <= i < |s.features| ==> s.features[i].id != f.id
    ensures DeleteFeature(AddFeature(s, f, stamp1), f.id, stamp2).features == s.features
    ensures |DeleteFeature(AddFeature(s, f, stamp1), f.id, stamp2).logs| == |s.logs| + 2
  {
    var t := AddFeature(s, f, stamp1);
    var p := LacksId(f.id);
    FilterAppend(s.features, [f], p);
    FilterAll(s.features, p);
    FilterCons(f, [], p);
    assert t.features == s.features + [f];
    assert t.features[|s.features|].id == f.id;
  }

  /** handleReorderFeatures. */
  function ReorderFeatures(s: State, fromIndex: int, toIndex: int): (r: State)
    requires |s.features| > 0 && fromIndex < |s.features|
    ensures |r.features| == |s.features| && multiset(r.features) == multiset(s.features)
    ensures r.features[SpliceIndex(toIndex, |s.features| - 1)] == s.features[SpliceIndex(fromIndex, |s.features|)]
    ensures r.sprints == s.sprints && r.logs == s.logs && r.runRates == s.runRates
  {
    s.(features := Reorder(s.features, fromIndex, toIndex))
  }

  // ---- Sprint handlers -----------------------------------------------------------

  /** handleAddSprint: append and log. */
  function AddSprint(s: State, sprint: Sprint, stamp: Stamp): (r: State)
    ensures |r.sprints| == |s.sprints| + 1 && r.sprints[..|s.sprints|] == s.sprints
    ensures r.sprints[|s.sprints|] == sprint
    ensures r.logs == AddLog(s.logs, stamp, SprintLog, sprint.id, sprint.name, "Added Sprint", "New sprint created.")
    ensures r.features == s.features && r.runRates == s.runRates && r.isAdmin == s.isAdmin
  {
    s.(sprints := s.sprints + [sprint],
       logs := AddLog(s.logs, stamp, SprintLog, sprint.id, sprint.name, "Added Sprint", "New sprint created."))
  }

  /** handleUpdateSprint: replace by id, logging real changes of a known sprint. */
  function UpdateSprint(s: State, updated: Sprint, stamp: Stamp): (r: State)
    ensures r.sprints == Replace(s.sprints, SprintHasId(updated.id), updated)
    ensures r.features == s.features && r.runRates == s.runRates && r.isAdmin == s.isAdmin
    ensures r.logs == s.logs || (|r.logs| > 0 && r.logs[1..] == s.logs)
  {
    var logs :=
      match Find(s.sprints, SprintHasId(updated.id))
      case Some(original) =>
        var details := SprintDescription(original, updated);
        if details != NoChanges
        then AddLog(s.logs, stamp, SprintLog, updated.id, updated.name, "Updated Sprint", details)
        else s.logs
      case None => s.logs;
    s.(sprints := Replace(s.sprints, SprintHasId(updated.id), updated), logs := logs)
  }

  /** A sprint update is logged exactly when a sprint with that id exists and
      the update changes one of the fields the description compares. */
  lemma {:induction false} UpdateSprintLogsIff(s: State, updated: Sprint, stamp: Stamp)
    ensures |UpdateSprint(s, updated, stamp).logs| == |s.logs| + 1
      <==> Find(s.sprints, SprintHasId(updated.id)).Some?
           && !SameSprintFields(Find(s.sprints, SprintHasId(updated.id)).value, updated)
  {
    match Find(s.sprints, SprintHasId(updated.id))
    case Some(original) =>
      SprintUnchangedIff(original, updated);
    case None =>
  }

  /** The allocation cascade of handleDeleteSprint over the backlog: features
      referencing the sprint lose those allocations and get their dates
      re-derived from the remaining sprints; the others are untouched. A
      remaining sprint with an unreadable date makes the derivation throw. */
  function DropSprint(fs: seq<Feature>, id: string, remaining: seq<Sprint>): (r: Result<seq<Feature>, DateFault>)
    ensures r.Ok? <==> forall i :: 0 <= i < |fs| ==> Cleaned(fs[i], id, remaining).Ok?
    ensures r.Ok? ==> |r.value| == |fs|
    ensures r.Ok? ==> forall i :: 0 <= i < |fs| ==> Ok(r.value[i]) == Cleaned(fs[i], id, remaining)
  {
    if fs == [] then Ok([])
    else
      var head := Cleaned(fs[0], id, remaining);
      var tail := DropSprint(fs[1..], id, remaining);
      if head.Err? then Err(head.error)
      else if tail.Err? then Err(tail.error)
      else
        var r := [head.value] + tail.value;
        assert forall i :: 1 <= i < |fs| ==> fs[i] == fs[1..][i - 1] && r[i] == tail.value[i - 1];
        Ok(r)
  }

  /** One feature of the cascade. */
  function Cleaned(f: Feature, id: string, remaining: seq<Sprint>): (r: Result<Feature, DateFault>)
    ensures !AllocatedTo(f.sprintAllocations, id) ==> r == Ok(f)
  {
    if AllocatedTo(f.sprintAllocations, id)
    then DatesFromSprints(f.(sprintAllocations := WithoutSprint(f.sprintAllocations, id)), remaining)
    else Ok(f)
  }

  /** handleDeleteSprint. */
  function DeleteSprint(s: State, id: string, stamp: Stamp): (r: Result<State, DateFault>)
    ensures r.Ok? ==> r.value.sprints == Filter(s.sprints, SprintLacksId(id))
    ensures r.Ok? ==> r.value.runRates == s.runRates && r.value.isAdmin == s.isAdmin
    ensures r.Ok? ==> |r.value.logs| == |s.logs| + (if exists i :: 0 <= i < |s.sprints| && s.sprints[i].id == id then 1 else 0)
  {
    var remaining := Filter(s.sprints, SprintLacksId(id));
    var logs :=
      match Find(s.sprints, SprintHasId(id))
      case Some(original) => AddLog(s.logs, stamp, SprintLog, id, original.name, "Deleted Sprint", "Sprint removed.")
      case None => s.logs;
    match DropSprint(s.features, id, remaining)
    case Err(e) => Err(e)
    case Ok(fs) => Ok(s.(features := fs, sprints := remaining, logs := logs))
  }

  /** After a successful delete no sprint with the id remains and every other
      sprint is kept, in order. */
  lemma DeleteSprintRemovesExactly(s: State, id: string, stamp: Stamp)
    requires DeleteSprint(s, id, stamp).Ok?
    ensures var ss := DeleteSprint(s, id, stamp).value.sprints;
      && (forall i :: 0 <= i < |ss| ==> ss[i].id != id && ss[i] in s.sprints)
      && (forall i :: 0 <= i < |s.sprints| && s.sprints[i].id != id ==> s.sprints[i] in ss)
  {
  }

  /** The cascade on one feature that references the sprint: that sprint's
      allocations go, the others stay in order, no field but the dates and the
      allocations changes, and the dates are derived from the remaining sprints. */
  lemma {:induction false} CascadeOnFeature(s: State, id: string, stamp: Stamp, i: nat)
    requires DeleteSprint(s, id, stamp).Ok? && i < |s.features|
    requires AllocatedTo(s.features[i].sprintAllocations, id)
    ensures var f, g := s.features[i], DeleteSprint(s, id, stamp).value.features[i];
      && g.sprintAllocations == WithoutSprint(f.sprintAllocations, id)
      && g.(startDate := f.startDate, endDate := f.endDate, sprintAllocations := f.sprintAllocations) == f
      && Ok(g) == DatesFromSprints(f.(sprintAllocations := g.sprintAllocations),
                                   DeleteSprint(s, id, stamp).value.sprints)
  {
    var remaining := Filter(s.sprints, SprintLacksId(id));
    var f := s.features[i];
    var h := f.(sprintAllocations := WithoutSprint(f.sprintAllocations, id));
    assert Cleaned(f, id, remaining) == DatesFromSprints(h, remaining);
  }

  /** Features that do not reference the sprint come through unchanged. */
  lemma CascadeSkipsOthers(s: State, id: string, stamp: Stamp, i: nat)
    requires DeleteSprint(s, id, stamp).Ok? && i < |s.features|
    requires !AllocatedTo(s.features[i].sprintAllocations, id)
    ensures DeleteSprint(s, id, stamp).value.features[i] == s.features[i]
  {
  }

  /** A feature whose only allocations were to the deleted sprint keeps its
      authored dates: with no allocation left there is nothing to derive from. */
  lemma {:induction false} CascadeKeepsDatesOfOrphans(s: State, id: string, stamp: Stamp, i: nat)
    requires DeleteSprint(s, id, stamp).Ok? && i < |s.features|
    requires AllocatedTo(s.features[i].sprintAllocations, id)
    requires forall j :: 0 <= j < |s.features[i].sprintAllocations| ==> s.features[i].sprintAllocations[j].sprintId == id
    ensures DeleteSprint(s, id, stamp).value.features[i]
         == s.features[i].(sprintAllocations := [])
  {
    var f := s.features[i];
    var w := WithoutSprint(f.sprintAllocations, id);
  }

  // ---- Run rates ---------------------------------------------------------------

  /** A month record with every platform at 0. */
  const ZeroRates: MonthRates := map[TOM := 0, EOM := 0, C3 := 0]

  /** handleUpdateRunRate: only an administrator may edit; a missing year or
      month record is created (the month with every platform at 0) and the one
      cell is set. */
  function UpdateRunRate(s: State, year: int, month: int, system: System, amount: int): (r: State)
    ensures !s.isAdmin ==> r == s
    ensures r.features == s.features && r.sprints == s.sprints && r.logs == s.logs && r.isAdmin == s.isAdmin
  {
    if !s.isAdmin then s
    else s.(runRates := SetRate(s.runRates, year, month, system, amount))
  }

  function SetRate(rr: RunRateData, year: int, month: int, system: System, amount: int): (r: RunRateData)
    ensures year in r && month in r[year] && system in r[year][month] && r[year][month][system] == amount
    ensures r.Keys == rr.Keys + {year}
    ensures year in rr ==> r[year].Keys == rr[year].Keys + {month}
    ensures year !in rr ==> r[year].Keys == {month}
  {
    var yearRecord := if year in rr then rr[year] else map[];
    var monthRecord := if month in yearRecord then yearRecord[month] else ZeroRates;
    rr[year := yearRecord[month := monthRecord[system := amount]]]
  }

  /** Nothing but the one cell changes: other years, other months and other
      platforms keep their values, and a freshly created month has 0 elsewhere. */
  lemma SetRateFrame(rr: RunRateData, year: int, month: int, system: System, amount: int)
    ensures var r := SetRate(rr, year, month, system, amount);
      && (forall y :: y in rr && y != year ==> r[y] == rr[y])
      && (forall mo :: year in rr && mo in rr[year] && mo != month ==> r[year][mo] == rr[year][mo])
      && (forall p :: p != system && year in rr && month in rr[year] && p in rr[year][month]
            ==> p in r[year][month] && r[year][month][p] == rr[year][month][p])
      && (forall p :: p != system && !(year in rr && month in rr[year]) ==> r[year][month][p] == 0)
  {
  }

  // ---- Platform scope ------------------------------------------------------------

  /** The features shown for the selected platform. */
  function VisibleFeatures(fs: seq<Feature>, scope: Scope): (r: seq<Feature>)
    ensures scope.Global? ==> r == fs
    ensures forall i :: 0 <= i < |r| ==> r[i] in fs
    ensures scope.Only? ==> forall i :: 0 <= i < |fs| ==> (fs[i] in r <==> fs[i].system == scope.system)
  {
    match scope
    case Global => fs
    case Only(sys) => Filter(fs, (f: Feature) => f.system == sys)
  }

  /** The sprints shown for the selected platform; a sprint without a platform
      is shown only in the global view. */
  function VisibleSprints(ss: seq<Sprint>, scope: Scope): (r: seq<Sprint>)
    ensures scope.Global? ==> r == ss
    ensures forall i :: 0 <= i < |r| ==> r[i] in ss
    ensures scope.Only? ==> forall i :: 0 <= i < |ss| ==> (ss[i] in r <==> ss[i].system == Some(scope.system))
  {
    match scope
    case Global => ss
    case Only(sys) => Filter(ss, (sp: Sprint) => sp.system == Some(sys))
  }

  /** The platform views partition the backlog: each feature is shown under
      exactly one platform. */
  lemma VisibleUnderOwnPlatform(fs: seq<Feature>, i: nat, sys: System)
    requires i < |fs|
    ensures fs[i] in VisibleFeatures(fs, Only(sys)) <==> sys == fs[i].system
  {
  }

  /** Scoping keeps the backlog order: the platform view lists the features in
      the same relative order as the full list. */
  lemma {:induction false} VisibleKeepsOrder(a: seq<Feature>, b: seq<Feature>, scope: Scope)
    ensures VisibleFeatures(a + b, scope) == VisibleFeatures(a, scope) + VisibleFeatures(b, scope)
  {
    match scope
    case Global =>
    case Only(sys) => FilterAppend(a, b, (f: Feature) => f.system == sys);
  }

  /** Scoping the sprint list to a platform keeps the sprints' relative order. */
  lemma {:induction false} VisibleSprintsKeepOrder(a: seq<Sprint>, b: seq<Sprint>, scope: Scope)
    ensures VisibleSprints(a + b, scope) == VisibleSprints(a, scope) + VisibleSprints(b, scope)
  {
    match scope
    case Global =>
    case Only(sys) => FilterAppend(a, b, (sp: Sprint) => sp.system == Some(sys));
  }
}
