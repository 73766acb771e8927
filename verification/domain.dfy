/** The planner's records: features, sprints, their allocations, the run-rate
    table and audit log entries. Enumerations are closed datatypes; their
    display names are the strings the application stores and compares. */
module Domain {
  import opened Common
  import opened Dates

  datatype Priority = Low | Medium | High | Critical

  datatype Status = Backlog | Ready | InProgress | Completed | OnHold

  /** The platform a feature or sprint belongs to. */
  datatype System = TOM | EOM | C3

  /** Points of a feature committed to one sprint (a weak reference by id). */
  datatype SprintAllocation = SprintAllocation(sprintId: string, points: int)

  datatype Feature = Feature(
    id: string,
    name: string,
    description: string,
    priority: Priority,
    status: Status,
    startDate: Date,
    endDate: Date,
    estimatedCost: int,
    points: int,
    owner: string,
    programs: seq<string>,
    system: System,
    jiraNumber: string,
    sprintAllocations: seq<SprintAllocation>)

  /** `isClosed` and `system` are optional fields of the stored object. */
  datatype Sprint = Sprint(
    id: string,
    name: string,
    startDate: Date,
    endDate: Date,
    targetDeploymentDate: Date,
    capacity: int,
    isClosed: Option<bool>,
    system: Option<System>)

  /** An absent closure flag means the sprint is open. */
  predicate IsClosed(s: Sprint) {
    s.isClosed == Some(true)
  }

  /** One month of run-rate spend per platform; a missing platform counts as 0. */
  type MonthRates = map<System, int>

  /** year -> month index (0-11) -> platform -> amount. */
  type RunRateData = map<int, map<int, MonthRates>>

  datatype LogKind = FeatureLog | SprintLog

  /** An audit record; `timestamp` is the creation time in milliseconds. */
  datatype LogEntry = LogEntry(
    id: string,
    timestamp: int,
    kind: LogKind,
    entityId: string,
    entityName: string,
    action: string,
    details: string)

  /** The platform selector of the session: everything, or one platform. */
  datatype Scope = Global | Only(system: System)

  function PriorityName(p: Priority): string {
    match p
    case Low => "Low"
    case Medium => "Medium"
    case High => "High"
    case Critical => "Critical"
  }

  function StatusName(s: Status): string {
    match s
    case Backlog => "Backlog"
    case Ready => "Ready"
    case InProgress => "In Progress"
    case Completed => "Completed"
    case OnHold => "On Hold"
  }

  function SystemName(s: System): string {
    match s
    case TOM => "TOM"
    case EOM => "EOM"
    case C3 => "C3"
  }

  function LogKindName(k: LogKind): string {
    match k
    case FeatureLog => "feature"
    case SprintLog => "sprint"
  }

  /** Display names identify the enumeration values. */
  lemma NamesAreDistinct()
    ensures forall p, q :: PriorityName(p) == PriorityName(q) ==> p == q
    ensures forall s, t :: StatusName(s) == StatusName(t) ==> s == t
    ensures forall s, t :: SystemName(s) == SystemName(t) ==> s == t
  {
  }

  /** Every date the record carries has the `YYYY-MM-DD` shape. */
  predicate FeatureShaped(f: Feature) {
    Shaped(f.startDate) && Shaped(f.endDate)
  }

  predicate SprintShaped(s: Sprint) {
    Shaped(s.startDate) && Shaped(s.endDate) && Shaped(s.targetDeploymentDate)
  }
}
