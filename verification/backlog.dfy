/** Backlog helpers of `utils.ts`: priority ranking and sorting, moving one
    entry of a list, the feature and log filters, and the summary figures. */
module Backlog {
  import opened Common
  import opened Domain

  // ---- Priority -------------------------------------------------------------

  /** Rank of a priority, most urgent first. */
  function PriorityScore(p: Priority): (n: nat)
    ensures n <= 3
    ensures n == 0 <==> p == Critical
  {
    match p
    case Critical => 0
    case High => 1
    case Medium => 2
    case Low => 3
  }

  /** A more urgent priority ranks strictly lower, so the ranking is injective. */
  lemma PriorityScoreOrder()
    ensures PriorityScore(Critical) < PriorityScore(High) < PriorityScore(Medium) < PriorityScore(Low)
    ensures forall p, q :: PriorityScore(p) == PriorityScore(q) ==> p == q
  {
  }

  function ScoreKey(): Feature -> real {
    (f: Feature) => PriorityScore(f.priority) as real
  }

  /** sortFeaturesByPriority: a stable sort of a copy by ascending rank. */
  function SortByPriority(fs: seq<Feature>): (r: seq<Feature>)
    ensures multiset(r) == multiset(fs)
    ensures forall i, j :: 0 <= i < j < |r| ==> PriorityScore(r[i].priority) <= PriorityScore(r[j].priority)
    ensures forall p: Priority :: WithKey(r, ScoreKey(), PriorityScore(p) as real) == WithKey(fs, ScoreKey(), PriorityScore(p) as real)
  {
    SortIsSorted(fs, ScoreKey());
    var r := SortByKey(fs, ScoreKey());
    assert forall i, j :: 0 <= i < j < |r| ==> ScoreKey()(r[i]) <= ScoreKey()(r[j]);
    forall p: Priority
      ensures WithKey(r, ScoreKey(), PriorityScore(p) as real) == WithKey(fs, ScoreKey(), PriorityScore(p) as real)
    {
      SortIsStable(fs, ScoreKey(), PriorityScore(p) as real);
    }
    r
  }

  // ---- Moving one entry -------------------------------------------------------

  /** Where `Array.prototype.splice` starts for an index into a list of `len` entries:
      negative indices count from the end, and both ends are clamped. */
  function SpliceIndex(i: int, len: nat): (k: nat)
    ensures k <= len
    ensures 0 <= i <= len ==> k == i
  {
    if i < 0 then (if len + i < 0 then 0 else len + i)
    else if i > len then len
    else i
  }

  /** `list` without its entry at `i` (`splice(i, 1)`). */
  function RemoveAt<T>(list: seq<T>, i: nat): (r: seq<T>)
    requires i < |list|
    ensures |r| == |list| - 1
    ensures multiset(r) + multiset{list[i]} == multiset(list)
  {
    assert list == list[..i] + [list[i]] + list[i + 1..];
    list[..i] + list[i + 1..]
  }

  /** `list` with `x` inserted before position `i` (`splice(i, 0, x)`). */
  function InsertAt<T>(list: seq<T>, i: nat, x: T): (r: seq<T>)
    requires i <= |list|
    ensures |r| == |list| + 1 && r[i] == x
    ensures multiset(r) == multiset(list) + multiset{x}
    ensures r[..i] + r[i + 1..] == list
  {
    assert list == list[..i] + list[i..];
    var r := list[..i] + [x] + list[i..];
    assert r[..i] == list[..i] && r[i + 1..] == list[i..];
    r
  }

  /** reorderList: takes out the entry at `fromIndex` and inserts it again at
      `toIndex` of the shortened list. The source only reads an entry that exists,
      so `fromIndex` must name one (negative values count from the end). */
  function Reorder<T>(list: seq<T>, fromIndex: int, toIndex: int): (r: seq<T>)
    requires |list| > 0 && fromIndex < |list|
    ensures |r| == |list|
    ensures multiset(r) == multiset(list)
    ensures var f, t := SpliceIndex(fromIndex, |list|), SpliceIndex(toIndex, |list| - 1);
      && r[t] == list[f]
      && r[..t] + r[t + 1..] == list[..f] + list[f + 1..]
  {
    var f := SpliceIndex(fromIndex, |list|);
    var rest := RemoveAt(list, f);
    InsertAt(rest, SpliceIndex(toIndex, |rest|), list[f])
  }

  /** Two lists that agree at `i` and agree once `i` is taken out are equal. */
  lemma SameAroundIndex<T>(a: seq<T>, b: seq<T>, i: nat)
    requires i < |a| == |b| && a[i] == b[i]
    requires a[..i] + a[i + 1..] == b[..i] + b[i + 1..]
    ensures a == b
  {
    var ra, rb := a[..i] + a[i + 1..], b[..i] + b[i + 1..];
    forall k | 0 <= k < |a|
      ensures a[k] == b[k]
    {
      if k < i {
        assert a[k] == ra[k] && b[k] == rb[k];
      } else if k > i {
        assert a[k] == ra[k - 1] && b[k] == rb[k - 1];
      }
    }
  }

  /** Moving an entry to where it already is changes nothing. */
  lemma ReorderInPlace<T>(list: seq<T>, i: int)
    requires 0 <= i < |list|
    ensures Reorder(list, i, i) == list
  {
    SameAroundIndex(Reorder(list, i, i), list, i);
  }

  /** Moving an entry away and back again restores the list. */
  lemma ReorderUndo<T>(list: seq<T>, i: int, j: int)
    requires 0 <= i < |list| && 0 <= j < |list|
    ensures Reorder(Reorder(list, i, j), j, i) == list
  {
    var r := Reorder(list, i, j);
    SameAroundIndex(Reorder(r, j, i), list, i);
  }

  // ---- Filters ---------------------------------------------------------------

  /** The three backlog filters; 'All' switches the status and system filters off
      and the owner filter is a case-insensitive substring test. */
  predicate FeatureMatches(f: Feature, statusFilter: string, requestorFilter: string, systemFilter: string) {
    && (statusFilter == "All" || StatusName(f.status) == statusFilter)
    && Contains(Lower(f.owner), Lower(requestorFilter))
    && (systemFilter == "All" || SystemName(f.system) == systemFilter)
  }

  function FeatureFilter(statusFilter: string, requestorFilter: string, systemFilter: string): Feature -> bool {
    (f: Feature) => FeatureMatches(f, statusFilter, requestorFilter, systemFilter)
  }

  /** filterFeatures: the matching features, in backlog order. */
  function FilterFeatures(fs: seq<Feature>, statusFilter: string, requestorFilter: string, systemFilter: string): (r: seq<Feature>)
    ensures forall i :: 0 <= i < |r| ==> r[i] in fs && FeatureMatches(r[i], statusFilter, requestorFilter, systemFilter)
    ensures forall i :: 0 <= i < |fs| ==> (fs[i] in r <==> FeatureMatches(fs[i], statusFilter, requestorFilter, systemFilter))
  {
    Filter(fs, FeatureFilter(statusFilter, requestorFilter, systemFilter))
  }

  /** With every filter at its neutral setting the whole backlog is shown. */
  lemma NeutralFiltersKeepAll(fs: seq<Feature>)
    ensures FilterFeatures(fs, "All", "", "All") == fs
  {
    forall i | 0 <= i < |fs|
      ensures FeatureFilter("All", "", "All")(fs[i])
    {
      ContainsEmpty(Lower(fs[i].owner));
    }
    FilterAll(fs, FeatureFilter("All", "", "All"));
  }

  /** The log's type selector and free-text search. */
  predicate LogMatches(log: LogEntry, query: string, kind: string) {
    && (kind == "All" || LogKindName(log.kind) == Lower(kind))
    && (Contains(Lower(log.entityName), Lower(query))
        || Contains(Lower(log.action), Lower(query))
        || Contains(Lower(log.details), Lower(query)))
  }

  function LogFilter(query: string, kind: string): LogEntry -> bool {
    (log: LogEntry) => LogMatches(log, query, kind)
  }

  /** Sort key that puts later timestamps first. */
  function NewestFirst(): LogEntry -> real {
    (log: LogEntry) => (-log.timestamp) as real
  }

  /** filterLogs: the matching entries, newest first; entries with equal
      timestamps keep their order. */
  function FilterLogs(logs: seq<LogEntry>, query: string, kind: string): (r: seq<LogEntry>)
    ensures multiset(r) == multiset(Filter(logs, LogFilter(query, kind)))
    ensures forall i :: 0 <= i < |r| ==> LogMatches(r[i], query, kind)
    ensures forall i :: 0 <= i < |logs| ==> (logs[i] in r <==> LogMatches(logs[i], query, kind))
    ensures forall i, j :: 0 <= i < j < |r| ==> r[i].timestamp >= r[j].timestamp
    ensures forall k: real :: WithKey(r, NewestFirst(), k) == WithKey(Filter(logs, LogFilter(query, kind)), NewestFirst(), k)
  {
    var kept := Filter(logs, LogFilter(query, kind));
    SortIsSorted(kept, NewestFirst());
    var r := SortByKey(kept, NewestFirst());
    assert forall i, j :: 0 <= i < j < |r| ==> NewestFirst()(r[i]) <= NewestFirst()(r[j]);
    forall i | 0 <= i < |r|
      ensures LogMatches(r[i], query, kind)
    {
      assert r[i] in multiset(kept);
    }
    forall i | 0 <= i < |logs|
      ensures logs[i] in r <==> LogMatches(logs[i], query, kind)
    {
      assert logs[i] in r <==> logs[i] in multiset(kept);
    }
    forall k: real
      ensures WithKey(r, NewestFirst(), k) == WithKey(kept, NewestFirst(), k)
    {
      SortIsStable(kept, NewestFirst(), k);
    }
    r
  }

  // ---- Summary figures --------------------------------------------------------------

  function TotalPoints(fs: seq<Feature>): int {
    if fs == [] then 0 else fs[0].points + TotalPoints(fs[1..])
  }

  function HasPriority(p: Priority): Feature -> bool {
    (f: Feature) => f.priority == p
  }

  function HasStatus(s: Status): Feature -> bool {
    (f: Feature) => f.status == s
  }

  datatype Stats = Stats(totalPoints: int, avgPoints: real, criticalCount: nat, highCount: nat, inProgressCount: nat)

  /** getFeatureStats (the average before its one-decimal text rendering). */
  function FeatureStats(fs: seq<Feature>): (r: Stats)
    ensures r.totalPoints == TotalPoints(fs)
    ensures fs == [] ==> r.avgPoints == 0.0
    ensures fs != [] ==> r.avgPoints * (|fs| as real) == r.totalPoints as real
    ensures r.criticalCount + r.highCount <= |fs|
    ensures r.criticalCount == Count(fs, HasPriority(Critical))
    ensures r.highCount == Count(fs, HasPriority(High))
    ensures r.inProgressCount == Count(fs, HasStatus(InProgress))
  {
    var total := TotalPoints(fs);
    PriorityCountsDisjoint(fs);
    Stats(total,
          if |fs| == 0 then 0.0 else Mean(total, |fs|),
          Count(fs, HasPriority(Critical)),
          Count(fs, HasPriority(High)),
          Count(fs, HasStatus(InProgress)))
  }

  function Mean(total: int, n: nat): (m: real)
    requires n > 0
    ensures m * (n as real) == total as real
  {
    total as real / n as real
  }

  /** A feature has one priority, so the critical and high counts never overlap. */
  lemma {:induction false} PriorityCountsDisjoint(fs: seq<Feature>)
    ensures Count(fs, HasPriority(Critical)) + Count(fs, HasPriority(High)) <= |fs|
  {
    if fs != [] {
      PriorityCountsDisjoint(fs[1..]);
    }
  }

  /** `Math.round(completed / total * 100)` in exact arithmetic: the nearest whole
      percentage, halves rounded up. The source rounds a binary64 quotient, which
      can fall just below a half (23 of 40 gives 57, not 58). */
  function ProgramReadiness(fs: seq<Feature>): (r: int)
    ensures fs == [] ==> r == 0
    ensures 0 <= r <= 100
    ensures fs != [] ==>
      var c, n := Count(fs, HasStatus(Completed)), |fs|;
      2 * r * n - n <= 200 * c < 2 * r * n + n
  {
    if fs == [] then 0
    else
      var c, n := Count(fs, HasStatus(Completed)), |fs|;
      RoundedPercent(c, n)
  }

  /** round(c / n * 100) for 0 <= c <= n, taken as the integer nearest to the exact
      value 100c/n; the binary64 rounding of the quotient is not modelled. */
  function RoundedPercent(c: nat, n: nat): (r: int)
    requires c <= n && n > 0
    ensures 0 <= r <= 100
    ensures 2 * r * n - n <= 200 * c < 2 * r * n + n
  {
    var d := 2 * n;
    var r := (200 * c + n) / d;
    DivBounds(200 * c + n, d);
    assert r * d == 2 * r * n;
    assert r <= 100 by {
      if r > 100 {
        MulMonotone(101, r, d);
      }
    }
    r
  }

  lemma DivBounds(a: nat, d: nat)
    requires d > 0
    ensures (a / d) * d <= a < (a / d) * d + d
    ensures a / d >= 0
  {
  }

  lemma MulMonotone(a: int, b: int, d: nat)
    requires a <= b
    ensures a * d <= b * d
  {
  }
}
