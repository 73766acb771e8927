/** Money by month: the delivered-value schedule (getMonthlyFinancials) and the
    comparison of delivered value against the run-rate spend
    (getFinancialComparison). Amounts are whole currency units. */
module Financials {
  import opened Common
  import opened Dates
  import opened Domain
  import opened MonthKeys

  // ---- Reference definitions ----------------------------------------------------

  function TotalCost(fs: seq<Feature>): int {
    if fs == [] then 0 else fs[0].estimatedCost + TotalCost(fs[1..])
  }

  /** Estimated cost of the features ending in bucket `k`. */
  function CostIn(fs: seq<Feature>, k: MonthKey): int {
    if fs == [] then 0
    else (if EndKey(fs[0]) == k then fs[0].estimatedCost else 0) + CostIn(fs[1..], k)
  }

  /** Sum of `CostIn` over a list of buckets. */
  function CostOver(fs: seq<Feature>, ks: seq<MonthKey>): int {
    if ks == [] then 0 else CostIn(fs, ks[0]) + CostOver(fs, ks[1..])
  }

  lemma {:induction false} CostOverAppend(fs: seq<Feature>, a: seq<MonthKey>, b: seq<MonthKey>)
    ensures CostOver(fs, a + b) == CostOver(fs, a) + CostOver(fs, b)
  {
    if a == [] {
      assert a + b == b;
    } else {
      assert (a + b)[1..] == a[1..] + b;
      CostOverAppend(fs, a[1..], b);
    }
  }

  /** One feature contributes its cost to exactly one of distinct buckets listing its own. */
  lemma {:induction false} CostOverCons(f: Feature, fs: seq<Feature>, ks: seq<MonthKey>)
    requires forall i, j :: 0 <= i < j < |ks| ==> ks[i] != ks[j]
    ensures CostOver([f] + fs, ks)
         == CostOver(fs, ks) + (if EndKey(f) in ks then f.estimatedCost else 0)
  {
    assert ([f] + fs)[1..] == fs;
    if ks != [] {
      CostOverCons(f, fs, ks[1..]);
      if EndKey(f) == ks[0] {
        assert EndKey(f) !in ks[1..];
      }
    }
  }

  /** Conservation: buckets that together list every end month account for the whole cost. */
  lemma {:induction false} CostOverPartition(fs: seq<Feature>, ks: seq<MonthKey>)
    requires forall i, j :: 0 <= i < j < |ks| ==> ks[i] != ks[j]
    requires forall i :: 0 <= i < |fs| ==> EndKey(fs[i]) in ks
    ensures CostOver(fs, ks) == TotalCost(fs)
  {
    if fs == [] {
      CostOverEmpty(ks);
    } else {
      assert fs == [fs[0]] + fs[1..];
      CostOverPartition(fs[1..], ks);
      CostOverCons(fs[0], fs[1..], ks);
    }
  }

  lemma {:induction false} CostOverEmpty(ks: seq<MonthKey>)
    ensures CostOver([], ks) == 0
  {
    if ks != [] {
      CostOverEmpty(ks[1..]);
    }
  }

  // ---- The source's accumulation -------------------------------------------------

  /** The `forEach` that adds each feature's cost to its bucket of `m`. */
  function AccumulateCosts(fs: seq<Feature>, m: map<MonthKey, int>): map<MonthKey, int> {
    if fs == [] then m
    else
      var k := EndKey(fs[0]);
      AccumulateCosts(fs[1..], m[k := (if k in m then m[k] else 0) + fs[0].estimatedCost])
  }

  /** The accumulated map holds exactly the buckets seen, each with its total. */
  lemma {:induction false} AccumulateIsCostIn(fs: seq<Feature>, m: map<MonthKey, int>)
    ensures AccumulateCosts(fs, m).Keys == m.Keys + EndKeys(fs)
    ensures forall k :: k in AccumulateCosts(fs, m) ==>
      AccumulateCosts(fs, m)[k] == (if k in m then m[k] else 0) + CostIn(fs, k)
  {
    if fs != [] {
      var k := EndKey(fs[0]);
      var m' := m[k := (if k in m then m[k] else 0) + fs[0].estimatedCost];
      var r := AccumulateCosts(fs[1..], m');
      assert r == AccumulateCosts(fs, m);
      AccumulateIsCostIn(fs[1..], m');
      forall x | x in r
        ensures r[x] == (if x in m then m[x] else 0) + CostIn(fs, x)
      {
        if x == k {
          assert r[x] == m'[k] + CostIn(fs[1..], x);
        } else if x in m {
          assert r[x] == m[x] + CostIn(fs[1..], x);
        } else {
          assert r[x] == CostIn(fs[1..], x);
        }
      }
    }
  }

  // ---- Monthly schedule -------------------------------------------------------------

  datatype MonthRow = MonthRow(key: MonthKey, payment: int, cumulative: int)

  /** Rows for the listed buckets, carrying a running total that starts at `running`. */
  function MonthlyRows(ks: seq<MonthKey>, m: map<MonthKey, int>, running: int): (r: seq<MonthRow>)
    requires forall i :: 0 <= i < |ks| ==> ks[i] in m
    ensures |r| == |ks|
    ensures forall i :: 0 <= i < |r| ==> r[i].key == ks[i] && r[i].payment == m[ks[i]]
    ensures |r| > 0 ==> r[0].cumulative == running + r[0].payment
    ensures forall i :: 0 < i < |r| ==> r[i].cumulative == r[i - 1].cumulative + r[i].payment
  {
    if ks == [] then []
    else
      var c := running + m[ks[0]];
      var rest := MonthlyRows(ks[1..], m, c);
      [MonthRow(ks[0], m[ks[0]], c)] + rest
  }

  /** The running total of a row is the cost of every bucket up to and including it. */
  lemma {:induction false} MonthlyRowsCumulative(fs: seq<Feature>, ks: seq<MonthKey>, m: map<MonthKey, int>, running: int)
    requires forall i :: 0 <= i < |ks| ==> ks[i] in m && m[ks[i]] == CostIn(fs, ks[i])
    ensures forall i :: 0 <= i < |ks| ==> MonthlyRows(ks, m, running)[i].cumulative == running + CostOver(fs, ks[..i + 1])
  {
    var r := MonthlyRows(ks, m, running);
    if ks != [] {
      var c := running + m[ks[0]];
      var rest := MonthlyRows(ks[1..], m, c);
      assert r == [MonthRow(ks[0], m[ks[0]], c)] + rest;
      MonthlyRowsCumulative(fs, ks[1..], m, c);
      forall i | 0 <= i < |r|
        ensures r[i].cumulative == running + CostOver(fs, ks[..i + 1])
      {
        if i > 0 {
          assert r[i] == rest[i - 1];
          assert rest[i - 1].cumulative == c + CostOver(fs, ks[1..][..i - 1 + 1]);
          assert ks[..i + 1][1..] == ks[1..][..i];
          assert CostOver(fs, ks[..i + 1]) == CostIn(fs, ks[0]) + CostOver(fs, ks[1..][..i]);
        } else {
          assert ks[..1] == [ks[0]];
          assert ks[..1][1..] == [];
        }
      }
    }
  }

  /** The last running total covers every listed bucket. */
  lemma {:induction false} MonthlyRowsLast(fs: seq<Feature>, ks: seq<MonthKey>, m: map<MonthKey, int>)
    requires forall i :: 0 <= i < |ks| ==> ks[i] in m && m[ks[i]] == CostIn(fs, ks[i])
    ensures ks != [] ==> MonthlyRows(ks, m, 0)[|ks| - 1].cumulative == CostOver(fs, ks)
  {
    if ks != [] {
      MonthlyRowsCumulative(fs, ks, m, 0);
      assert ks[..|ks| - 1 + 1] == ks;
    }
  }

  /** The bucket list of the schedule: the accumulated map's keys, sorted. */
  function ScheduleKeys(fs: seq<Feature>): seq<MonthKey> {
    SortedKeys(AccumulateCosts(fs, map[]).Keys)
  }

  lemma {:induction false} MonthlyFacts(fs: seq<Feature>)
    ensures var m, ks := AccumulateCosts(fs, map[]), ScheduleKeys(fs);
      && (forall i :: 0 <= i < |ks| ==> ks[i] in m && ks[i] in EndKeys(fs) && m[ks[i]] == CostIn(fs, ks[i]))
      && (forall i :: 0 <= i < |fs| ==> EndKey(fs[i]) in ks)
      && (fs == [] <==> ks == [])
      && CostOver(fs, ks) == TotalCost(fs)
  {
    var m, ks := AccumulateCosts(fs, map[]), ScheduleKeys(fs);
    AccumulateIsCostIn(fs, map[]);
    assert m.Keys == EndKeys(fs);
    SortedKeysCover(m.Keys);
    EndKeysMembers(fs);
    forall i | 0 <= i < |fs|
      ensures EndKey(fs[i]) in ks
    {
      assert EndKey(fs[i]) in m.Keys;
    }
    if fs != [] {
      assert EndKey(fs[0]) in ks;
    }
    forall i, j | 0 <= i < j < |ks|
      ensures ks[i] != ks[j]
    {
      KeyLtIsStrictTotal(ks[i], ks[j], ks[j]);
    }
    CostOverPartition(fs, ks);
  }

  /** Estimated cost of the features ending in bucket `k` or earlier. */
  function CostUpTo(fs: seq<Feature>, k: MonthKey): int {
    if fs == [] then 0
    else (if !KeyLt(k, EndKey(fs[0])) then fs[0].estimatedCost else 0) + CostUpTo(fs[1..], k)
  }

  /** Over sorted buckets that list every end month, the buckets up to the i-th
      hold exactly the features ending no later than it. */
  lemma {:induction false} CostOverPrefix(fs: seq<Feature>, ks: seq<MonthKey>, i: int)
    requires forall a, b :: 0 <= a < b < |ks| ==> KeyLt(ks[a], ks[b])
    requires forall j :: 0 <= j < |fs| ==> EndKey(fs[j]) in ks
    requires 0 <= i < |ks|
    ensures CostOver(fs, ks[..i + 1]) == CostUpTo(fs, ks[i])
  {
    var pre := ks[..i + 1];
    forall a, b | 0 <= a < b < |pre|
      ensures pre[a] != pre[b]
    {
      KeyLtIsStrictTotal(pre[a], pre[b], pre[b]);
    }
    if fs == [] {
      CostOverEmpty(pre);
    } else {
      assert fs == [fs[0]] + fs[1..];
      CostOverPrefix(fs[1..], ks, i);
      CostOverCons(fs[0], fs[1..], pre);
      var e := EndKey(fs[0]);
      var j :| 0 <= j < |ks| && ks[j] == e;
      if j <= i {
        assert e in pre;
        if j < i {
          KeyLtIsStrictTotal(ks[j], ks[i], ks[i]);
        }
      } else {
        assert KeyLt(ks[i], e);
        forall a | 0 <= a < |pre|
          ensures pre[a] != e
        {
          KeyLtIsStrictTotal(ks[a], ks[j], ks[j]);
        }
      }
    }
  }

  /** The schedule's buckets: ascending, drawn from the end months, and covering all of them. */
  lemma {:induction false} ScheduleBuckets(fs: seq<Feature>, ks: seq<MonthKey>, m: map<MonthKey, int>, r: seq<MonthRow>)
    requires m == AccumulateCosts(fs, map[]) && ks == ScheduleKeys(fs)
    requires r == MonthlyRows(ks, m, 0)
    ensures forall i, j :: 0 <= i < j < |r| ==> KeyLt(r[i].key, r[j].key)
    ensures forall i :: 0 <= i < |r| ==> r[i].key in EndKeys(fs)
    ensures forall i :: 0 <= i < |fs| ==> exists j :: 0 <= j < |r| && r[j].key == EndKey(fs[i])
    ensures fs == [] <==> r == []
  {
    MonthlyFacts(fs);
    forall i | 0 <= i < |fs|
      ensures exists j :: 0 <= j < |r| && r[j].key == EndKey(fs[i])
    {
      var j :| 0 <= j < |ks| && ks[j] == EndKey(fs[i]);
      assert r[j].key == EndKey(fs[i]);
    }
  }

  /** The schedule's amounts: each row's payment is its bucket's cost, its running
      total the cost of every feature ending no later, and the last one the whole cost. */
  lemma {:induction false} ScheduleAmounts(fs: seq<Feature>, ks: seq<MonthKey>, m: map<MonthKey, int>, r: seq<MonthRow>)
    requires m == AccumulateCosts(fs, map[]) && ks == ScheduleKeys(fs)
    requires r == MonthlyRows(ks, m, 0)
    ensures forall i :: 0 <= i < |r| ==> r[i].payment == CostIn(fs, r[i].key)
    ensures forall i :: 0 <= i < |r| ==> r[i].cumulative == CostUpTo(fs, r[i].key)
    ensures r != [] ==> r[|r| - 1].cumulative == TotalCost(fs)
  {
    MonthlyFacts(fs);
    MonthlyRowsCumulative(fs, ks, m, 0);
    MonthlyRowsLast(fs, ks, m);
    forall i | 0 <= i < |r|
      ensures r[i].cumulative == CostUpTo(fs, r[i].key)
    {
      CostOverPrefix(fs, ks, i);
    }
  }

  /** getMonthlyFinancials: one row per end-date month in ascending order, with
      that month's cost and the running total so far. */
  function MonthlyFinancials(fs: seq<Feature>): (r: seq<MonthRow>)
    ensures |r| > 0 ==> r[0].cumulative == r[0].payment
    ensures forall i :: 0 < i < |r| ==> r[i].cumulative == r[i - 1].cumulative + r[i].payment
  {
    MonthlyFacts(fs);
    MonthlyRows(ScheduleKeys(fs), AccumulateCosts(fs, map[]), 0)
  }

  /** The schedule, stated on `MonthlyFinancials` itself. */
  lemma {:induction false} MonthlyFinancialsSchedule(fs: seq<Feature>)
    ensures var r := MonthlyFinancials(fs);
      && (forall i, j :: 0 <= i < j < |r| ==> KeyLt(r[i].key, r[j].key))
      && (forall i :: 0 <= i < |r| ==> r[i].key in EndKeys(fs))
      && (forall i :: 0 <= i < |fs| ==> exists j :: 0 <= j < |r| && r[j].key == EndKey(fs[i]))
      && (forall i :: 0 <= i < |r| ==> r[i].payment == CostIn(fs, r[i].key))
      && (forall i :: 0 <= i < |r| ==> r[i].cumulative == CostUpTo(fs, r[i].key))
      && (fs == [] <==> r == [])
      && (r != [] ==> r[|r| - 1].cumulative == TotalCost(fs))
  {
    var m, ks := AccumulateCosts(fs, map[]), ScheduleKeys(fs);
    MonthlyFacts(fs);
    var r := MonthlyRows(ks, m, 0);
    ScheduleBuckets(fs, ks, m, r);
    ScheduleAmounts(fs, ks, m, r);
  }

  // ---- Burn against delivered value -----------------------------------------------------

  /** A month record's spend under the platform selector; a missing platform is 0. */
  function Rate(rec: MonthRates, scope: Scope): int {
    match scope
    case Global =>
      (if EOM in rec then rec[EOM] else 0) + (if TOM in rec then rec[TOM] else 0) + (if C3 in rec then rec[C3] else 0)
    case Only(s) => if s in rec then rec[s] else 0
  }

  /** The run-rate of a bucket: the record of its year and month, 0 when absent. */
  function RunRateAt(runRates: RunRateData, scope: Scope, k: MonthKey): int {
    match k
    case NaNMonth => 0
    case Month(i) =>
      var y, mo := i / 12, i % 12;
      if y in runRates && mo in runRates[y] then Rate(runRates[y][mo], scope) else 0
  }

  /** The bucket of month `mo` (0-11) of year `y`. */
  function Bucket(y: int, mo: int): MonthKey {
    Month(y * 12 + mo)
  }

  /** All twelve buckets of every year the run-rate table has. */
  function RunRateKeys(runRates: RunRateData): (ks: set<MonthKey>)
    ensures forall k :: k in ks ==> k.Month? && k.index / 12 in runRates
  {
    set y, mo | y in runRates && 0 <= mo < 12 :: Bucket(y, mo)
  }

  lemma RunRateKeysMembers(runRates: RunRateData, k: MonthKey)
    ensures k in RunRateKeys(runRates) <==> k.Month? && k.index / 12 in runRates
  {
    if k.Month? && k.index / 12 in runRates {
      assert k == Bucket(k.index / 12, k.index % 12);
    }
  }

  /** One bucket of the comparison: delivered value and spend. */
  datatype Cell = Cell(budget: int, runRate: int)

  /** First pass: every feature's cost added to its bucket's budget. */
  function CollectBudgets(fs: seq<Feature>, cells: map<MonthKey, Cell>): map<MonthKey, Cell> {
    if fs == [] then cells
    else
      var k := EndKey(fs[0]);
      var c := if k in cells then cells[k] else Cell(0, 0);
      CollectBudgets(fs[1..], cells[k := c.(budget := c.budget + fs[0].estimatedCost)])
  }

  /** Second pass over one year, months `mo` to 11: make sure the bucket exists
      and copy the month record's spend when there is one. */
  function CollectYear(runRates: RunRateData, scope: Scope, y: int, mo: int, cells: map<MonthKey, Cell>): map<MonthKey, Cell>
    requires 0 <= mo <= 12
    decreases 12 - mo
  {
    if mo == 12 then cells
    else
      var k := Bucket(y, mo);
      var c := if k in cells then cells[k] else Cell(0, 0);
      var c' := if y in runRates && mo in runRates[y] then c.(runRate := Rate(runRates[y][mo], scope)) else c;
      CollectYear(runRates, scope, y, mo + 1, cells[k := c'])
  }

  /** The second pass over the listed years. */
  function CollectRunRates(runRates: RunRateData, scope: Scope, years: seq<int>, cells: map<MonthKey, Cell>): map<MonthKey, Cell> {
    if years == [] then cells
    else CollectRunRates(runRates, scope, years[1..], CollectYear(runRates, scope, years[0], 0, cells))
  }

  /** `k` is a bucket of year `y` at month `mo` or later. */
  predicate InYearFrom(k: MonthKey, y: int, mo: int) {
    k.Month? && k.index / 12 == y && k.index % 12 >= mo
  }

  /** The year a bucket belongs to is one of `years`. */
  predicate InYears(k: MonthKey, years: set<int>) {
    k.Month? && k.index / 12 in years
  }

  /** Visiting months `mo`..11 of year `y` adds their buckets, keeps every budget,
      and sets the spend of the months that have a record. */
  lemma {:induction false} CollectYearEffect(runRates: RunRateData, scope: Scope, y: int, mo: int, cells: map<MonthKey, Cell>)
    requires 0 <= mo <= 12
    ensures var c' := CollectYear(runRates, scope, y, mo, cells);
      && (forall k :: k in c' <==> k in cells || InYearFrom(k, y, mo))
      && (forall k :: k in c' ==> c'[k].budget == (if k in cells then cells[k].budget else 0))
      && (forall k :: k in c' ==>
            c'[k].runRate == if InYearFrom(k, y, mo) && y in runRates && k.index % 12 in runRates[y]
                             then RunRateAt(runRates, scope, k)
                             else if k in cells then cells[k].runRate else 0)
    decreases 12 - mo
  {
    if mo < 12 {
      var k := Bucket(y, mo);
      var c := if k in cells then cells[k] else Cell(0, 0);
      var c' := if y in runRates && mo in runRates[y] then c.(runRate := Rate(runRates[y][mo], scope)) else c;
      CollectYearEffect(runRates, scope, y, mo + 1, cells[k := c']);
      assert k.index / 12 == y && k.index % 12 == mo;
      forall j: MonthKey | InYearFrom(j, y, mo) && !InYearFrom(j, y, mo + 1)
        ensures j == k
      {
        assert j.index == y * 12 + mo;
      }
    }
  }

  /** What the comparison map holds once the years in `done` have been visited. */
  ghost predicate CellsAgree(fs: seq<Feature>, runRates: RunRateData, scope: Scope, done: set<int>, cells: map<MonthKey, Cell>) {
    && (forall k :: k in cells <==> k in EndKeys(fs) || InYears(k, done))
    && (forall k :: k in cells ==> cells[k].budget == CostIn(fs, k))
    && (forall k :: k in cells ==> cells[k].runRate == if InYears(k, done) then RunRateAt(runRates, scope, k) else 0)
  }

  /** The first pass leaves each bucket with the cost of the features ending in it. */
  lemma {:induction false} CollectBudgetsAgree(fs: seq<Feature>, cells: map<MonthKey, Cell>)
    requires forall k :: k in cells ==> cells[k].runRate == 0
    ensures CollectBudgets(fs, cells).Keys == cells.Keys + EndKeys(fs)
    ensures forall k :: k in CollectBudgets(fs, cells) ==>
              && CollectBudgets(fs, cells)[k].budget == (if k in cells then cells[k].budget else 0) + CostIn(fs, k)
              && CollectBudgets(fs, cells)[k].runRate == 0
  {
    if fs != [] {
      var k := EndKey(fs[0]);
      var c := if k in cells then cells[k] else Cell(0, 0);
      CollectBudgetsAgree(fs[1..], cells[k := c.(budget := c.budget + fs[0].estimatedCost)]);
    }
  }

  /** A bucket no feature ends in carries no cost. */
  lemma {:induction false} CostInOutside(fs: seq<Feature>, k: MonthKey)
    requires k !in EndKeys(fs)
    ensures CostIn(fs, k) == 0
  {
    if fs != [] {
      CostInOutside(fs[1..], k);
    }
  }

  /** Visiting year `y` adds exactly that year's twelve buckets. */
  lemma {:induction false} CollectYearKeys(fs: seq<Feature>, runRates: RunRateData, scope: Scope, done: set<int>, y: int, cells: map<MonthKey, Cell>)
    requires CellsAgree(fs, runRates, scope, done, cells)
    ensures forall k :: k in CollectYear(runRates, scope, y, 0, cells) <==> k in EndKeys(fs) || InYears(k, done + {y})
  {
    CollectYearEffect(runRates, scope, y, 0, cells);
    var c' := CollectYear(runRates, scope, y, 0, cells);
    forall k
      ensures k in c' <==> k in EndKeys(fs) || InYears(k, done + {y})
    {
      YearAdded(k, done, y);
    }
  }

  /** A bucket is in one more year exactly when it was in the old years or in that year. */
  lemma YearAdded(k: MonthKey, done: set<int>, y: int)
    ensures InYears(k, done + {y}) <==> InYears(k, done) || InYearFrom(k, y, 0)
  {
  }

  /** Visiting a year leaves every budget equal to its bucket's cost. */
  lemma {:induction false} CollectYearBudgets(fs: seq<Feature>, runRates: RunRateData, scope: Scope, done: set<int>, y: int, cells: map<MonthKey, Cell>)
    requires CellsAgree(fs, runRates, scope, done, cells)
    ensures forall k :: k in CollectYear(runRates, scope, y, 0, cells) ==>
              CollectYear(runRates, scope, y, 0, cells)[k].budget == CostIn(fs, k)
  {
    CollectYearEffect(runRates, scope, y, 0, cells);
    var c' := CollectYear(runRates, scope, y, 0, cells);
    forall k | k in c'
      ensures c'[k].budget == CostIn(fs, k)
    {
      if k !in cells {
        CostInOutside(fs, k);
      }
    }
  }

  /** Visiting a year gives its buckets their recorded spend. */
  lemma {:induction false} CollectYearSpend(fs: seq<Feature>, runRates: RunRateData, scope: Scope, done: set<int>, y: int, cells: map<MonthKey, Cell>)
    requires CellsAgree(fs, runRates, scope, done, cells)
    ensures forall k :: k in CollectYear(runRates, scope, y, 0, cells) ==>
              CollectYear(runRates, scope, y, 0, cells)[k].runRate
              == if InYears(k, done + {y}) then RunRateAt(runRates, scope, k) else 0
  {
    CollectYearEffect(runRates, scope, y, 0, cells);
    var c' := CollectYear(runRates, scope, y, 0, cells);
    forall k | k in c'
      ensures c'[k].runRate == if InYears(k, done + {y}) then RunRateAt(runRates, scope, k) else 0
    {
      YearAdded(k, done, y);
    }
  }

  /** Visiting one more year keeps the agreement, now including that year. */
  lemma {:induction false} CollectYearAgree(fs: seq<Feature>, runRates: RunRateData, scope: Scope, done: set<int>, y: int, cells: map<MonthKey, Cell>)
    requires CellsAgree(fs, runRates, scope, done, cells)
    ensures CellsAgree(fs, runRates, scope, done + {y}, CollectYear(runRates, scope, y, 0, cells))
  {
    CollectYearKeys(fs, runRates, scope, done, y, cells);
    CollectYearBudgets(fs, runRates, scope, done, y, cells);
    CollectYearSpend(fs, runRates, scope, done, y, cells);
  }

  /** The years of a non-empty list: its head and the years of its tail. */
  lemma YearsCons(done: set<int>, years: seq<int>)
    requires years != []
    ensures done + {years[0]} + (set y | y in years[1..]) == done + (set y | y in years)
  {
    forall x | x in years && x != years[0]
      ensures x in years[1..]
    {
      var i :| 0 <= i < |years| && years[i] == x;
      assert years[1..][i - 1] == x;
    }
  }

  /** The second pass over a list of years visits each of them. */
  lemma {:induction false} CollectRunRatesAgree(fs: seq<Feature>, runRates: RunRateData, scope: Scope, done: set<int>, years: seq<int>, cells: map<MonthKey, Cell>)
    requires CellsAgree(fs, runRates, scope, done, cells)
    ensures CellsAgree(fs, runRates, scope, done + (set y | y in years), CollectRunRates(runRates, scope, years, cells))
    decreases |years|
  {
    if years == [] {
      assert done + (set y | y in years) == done;
    } else {
      var c1 := CollectYear(runRates, scope, years[0], 0, cells);
      CollectYearAgree(fs, runRates, scope, done, years[0], cells);
      CollectRunRatesAgree(fs, runRates, scope, done + {years[0]}, years[1..], c1);
      YearsCons(done, years);
    }
  }

  /** One row of getFinancialComparison. */
  datatype CompareRow = CompareRow(key: MonthKey, budget: int, runRate: int, diff: int)

  function CompareRows(ks: seq<MonthKey>, cells: map<MonthKey, Cell>): (r: seq<CompareRow>)
    requires forall i :: 0 <= i < |ks| ==> ks[i] in cells
    ensures |r| == |ks|
    ensures forall i :: 0 <= i < |r| ==>
              && r[i].key == ks[i] && r[i].budget == cells[ks[i]].budget
              && r[i].runRate == cells[ks[i]].runRate && r[i].diff == r[i].runRate - r[i].budget
  {
    if ks == [] then [] else
      var c := cells[ks[0]];
      [CompareRow(ks[0], c.budget, c.runRate, c.runRate - c.budget)] + CompareRows(ks[1..], cells)
  }

  /** The comparison map after both passes. */
  function ComparisonCells(fs: seq<Feature>, runRates: RunRateData, scope: Scope): map<MonthKey, Cell> {
    CollectRunRates(runRates, scope, SortedInts(runRates.Keys), CollectBudgets(fs, map[]))
  }

  /** getFinancialComparison: per bucket, the delivered value and the spend, in
      ascending bucket order, with their difference. */
  function FinancialComparison(fs: seq<Feature>, runRates: RunRateData, scope: Scope): (r: seq<CompareRow>)
    ensures forall i :: 0 <= i < |r| ==> r[i].diff == r[i].runRate - r[i].budget
    ensures forall i, j :: 0 <= i < j < |r| ==> KeyLt(r[i].key, r[j].key)
  {
    var cells := ComparisonCells(fs, runRates, scope);
    CompareRows(SortedKeys(cells.Keys), cells)
  }

  /** After the first pass no year has been visited. */
  lemma BudgetsAgree(fs: seq<Feature>, runRates: RunRateData, scope: Scope)
    ensures CellsAgree(fs, runRates, scope, {}, CollectBudgets(fs, map[]))
  {
    CollectBudgetsAgree(fs, map[]);
  }

  /** The ascending year list names exactly the table's years. */
  lemma SortedYears(s: set<int>)
    ensures {} + (set y | y in SortedInts(s)) == s
  {
    SortedIntsCover(s);
  }

  /** The comparison map agrees with the reference definitions. */
  lemma {:induction false} ComparisonCellsAgree(fs: seq<Feature>, runRates: RunRateData, scope: Scope)
    ensures CellsAgree(fs, runRates, scope, runRates.Keys, ComparisonCells(fs, runRates, scope))
  {
    BudgetsAgree(fs, runRates, scope);
    CollectRunRatesAgree(fs, runRates, scope, {}, SortedInts(runRates.Keys), CollectBudgets(fs, map[]));
    SortedYears(runRates.Keys);
  }

  /** Rows read off an agreeing map carry the reference values. */
  lemma {:induction false} RowValues(fs: seq<Feature>, runRates: RunRateData, scope: Scope, cells: map<MonthKey, Cell>, r: seq<CompareRow>)
    requires CellsAgree(fs, runRates, scope, runRates.Keys, cells)
    requires r == CompareRows(SortedKeys(cells.Keys), cells)
    ensures forall i :: 0 <= i < |r| ==> r[i].key in EndKeys(fs) || InYears(r[i].key, runRates.Keys)
    ensures forall i :: 0 <= i < |r| ==> r[i].budget == CostIn(fs, r[i].key)
    ensures forall i :: 0 <= i < |r| ==> r[i].runRate == RunRateAt(runRates, scope, r[i].key)
  {
    forall i | 0 <= i < |r|
      ensures r[i].runRate == RunRateAt(runRates, scope, r[i].key)
    {
      var k := r[i].key;
      assert k in cells;
      if !InYears(k, runRates.Keys) {
        assert cells[k].runRate == 0;
      }
    }
  }

  /** Rows over a list of buckets name every listed bucket. */
  lemma RowsListKeys(ks: seq<MonthKey>, cells: map<MonthKey, Cell>, k: MonthKey)
    requires forall i :: 0 <= i < |ks| ==> ks[i] in cells
    requires k in ks
    ensures exists i :: 0 <= i < |CompareRows(ks, cells)| && CompareRows(ks, cells)[i].key == k
  {
    var i :| 0 <= i < |ks| && ks[i] == k;
    assert CompareRows(ks, cells)[i].key == k;
  }

  /** Rows read off an agreeing map list every bucket it should have. */
  lemma {:induction false} RowCoverage(fs: seq<Feature>, runRates: RunRateData, scope: Scope, cells: map<MonthKey, Cell>, r: seq<CompareRow>)
    requires CellsAgree(fs, runRates, scope, runRates.Keys, cells)
    requires r == CompareRows(SortedKeys(cells.Keys), cells)
    ensures forall k :: k in EndKeys(fs) || InYears(k, runRates.Keys) ==> exists i :: 0 <= i < |r| && r[i].key == k
  {
    SortedKeysCover(cells.Keys);
    forall k | k in EndKeys(fs) || InYears(k, runRates.Keys)
      ensures exists i :: 0 <= i < |r| && r[i].key == k
    {
      RowsListKeys(SortedKeys(cells.Keys), cells, k);
    }
  }

  /** Rows cover exactly the end months and every month of every run-rate year;
      each carries its bucket's delivered value and its recorded spend (0 when
      absent). */
  lemma {:induction false} ComparisonRows(fs: seq<Feature>, runRates: RunRateData, scope: Scope, r: seq<CompareRow>)
    requires r == FinancialComparison(fs, runRates, scope)
    ensures forall i :: 0 <= i < |r| ==> r[i].key in EndKeys(fs) || InYears(r[i].key, runRates.Keys)
    ensures forall k :: k in EndKeys(fs) || InYears(k, runRates.Keys) ==> exists i :: 0 <= i < |r| && r[i].key == k
    ensures forall i :: 0 <= i < |r| ==> r[i].budget == CostIn(fs, r[i].key)
    ensures forall i :: 0 <= i < |r| ==> r[i].runRate == RunRateAt(runRates, scope, r[i].key)
  {
    var cells := ComparisonCells(fs, runRates, scope);
    ComparisonCellsAgree(fs, runRates, scope);
    RowValues(fs, runRates, scope, cells, r);
    RowCoverage(fs, runRates, scope, cells, r);
  }

  /** Sum of the budget column. */
  function BudgetSum(r: seq<CompareRow>): int {
    if r == [] then 0 else r[0].budget + BudgetSum(r[1..])
  }

  lemma {:induction false} BudgetSumIsCostOver(fs: seq<Feature>, r: seq<CompareRow>, ks: seq<MonthKey>)
    requires |ks| == |r|
    requires forall i :: 0 <= i < |r| ==> r[i].key == ks[i] && r[i].budget == CostIn(fs, ks[i])
    ensures BudgetSum(r) == CostOver(fs, ks)
  {
    if r != [] {
      BudgetSumIsCostOver(fs, r[1..], ks[1..]);
    }
  }

  /** Conservation: the budget column adds up to the whole estimated cost. */
  lemma {:induction false} ComparisonBudgetTotal(fs: seq<Feature>, runRates: RunRateData, scope: Scope)
    ensures BudgetSum(FinancialComparison(fs, runRates, scope)) == TotalCost(fs)
  {
    var r := FinancialComparison(fs, runRates, scope);
    ComparisonRows(fs, runRates, scope, r);
    var ks := seq(|r|, i requires 0 <= i < |r| => r[i].key);
    BudgetSumIsCostOver(fs, r, ks);
    forall i, j | 0 <= i < j < |ks|
      ensures ks[i] != ks[j]
    {
      KeyLtIsStrictTotal(ks[i], ks[j], ks[j]);
    }
    forall i | 0 <= i < |fs|
      ensures EndKey(fs[i]) in ks
    {
      EndKeysMembers(fs);
      var j :| 0 <= j < |r| && r[j].key == EndKey(fs[i]);
      assert ks[j] == EndKey(fs[i]);
    }
    CostOverPartition(fs, ks);
  }
}
