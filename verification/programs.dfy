/** Cost by program (getProgramFinancials): each feature's estimated cost is
    split evenly over the programs it serves ("Unassigned" when it names none),
    the shares are summed per program name in first-seen order, and the result
    is listed by decreasing cost. Shares are fractional, so costs are `real`. */
module ProgramCosts {
  import opened Common
  import opened Domain

  /** The programs a feature's cost is split over. */
  function Programs(f: Feature): (ps: seq<string>)
    ensures |ps| > 0
    ensures f.programs == [] <==> ps == ["Unassigned"] && f.programs != ["Unassigned"]
    ensures f.programs != [] ==> ps == f.programs
  {
    if f.programs == [] then ["Unassigned"] else f.programs
  }

  /** The part of a feature's cost each of its programs receives, as an exact
      real (the source divides in binary64). */
  function ShareOf(f: Feature): real {
    f.estimatedCost as real / |Programs(f)| as real
  }

  datatype ProgramCost = ProgramCost(name: string, cost: real)

  /** How often `p` occurs in `ps`. */
  function Occurrences(ps: seq<string>, p: string): (n: nat)
    ensures n == 0 <==> p !in ps
  {
    if ps == [] then 0 else (if ps[0] == p then 1 else 0) + Occurrences(ps[1..], p)
  }

  /** The amount `p` receives from one feature: one share per time it is listed. */
  function SharesFor(ps: seq<string>, p: string, share: real): real {
    if ps == [] then 0.0 else (if ps[0] == p then share else 0.0) + SharesFor(ps[1..], p, share)
  }

  lemma {:induction false} SharesForCount(ps: seq<string>, p: string, share: real)
    ensures SharesFor(ps, p, share) == Occurrences(ps, p) as real * share
  {
    if ps != [] {
      SharesForCount(ps[1..], p, share);
      if ps[0] == p {
        OneMoreShare(Occurrences(ps[1..], p), share);
      }
    }
  }

  /** Reference: the cost program `p` receives from the features `fs`. */
  function Share(fs: seq<Feature>, p: string): real {
    if fs == [] then 0.0
    else SharesFor(Programs(fs[0]), p, ShareOf(fs[0])) + Share(fs[1..], p)
  }

  /** Every program some feature is split over. */
  function AllPrograms(fs: seq<Feature>): set<string> {
    if fs == [] then {} else (set p | p in Programs(fs[0])) + AllPrograms(fs[1..])
  }

  predicate DistinctNames(acc: seq<ProgramCost>) {
    forall i, j :: 0 <= i < j < |acc| ==> acc[i].name != acc[j].name
  }

  function Names(acc: seq<ProgramCost>): set<string> {
    set i | 0 <= i < |acc| :: acc[i].name
  }

  /** The accumulated cost of `q`, 0 when it has no entry (`map[p] || 0`). */
  function Lookup(acc: seq<ProgramCost>, q: string): real {
    if acc == [] then 0.0 else if acc[0].name == q then acc[0].cost else Lookup(acc[1..], q)
  }

  /** `map[p] = (map[p] || 0) + amount`: update the entry in place, or append a new one. */
  function AddCost(acc: seq<ProgramCost>, p: string, amount: real): (r: seq<ProgramCost>)
    ensures |r| == |acc| || |r| == |acc| + 1
  {
    if acc == [] then [ProgramCost(p, amount)]
    else if acc[0].name == p then [ProgramCost(p, acc[0].cost + amount)] + acc[1..]
    else [acc[0]] + AddCost(acc[1..], p, amount)
  }

  /** One feature: its share added once per listed program. */
  function AddShares(acc: seq<ProgramCost>, ps: seq<string>, share: real): seq<ProgramCost>
    decreases |ps|
  {
    if ps == [] then acc else AddShares(AddCost(acc, ps[0], share), ps[1..], share)
  }

  /** The source's `forEach` over the features. */
  function Accumulate(fs: seq<Feature>, acc: seq<ProgramCost>): seq<ProgramCost> {
    if fs == [] then acc else Accumulate(fs[1..], AddShares(acc, Programs(fs[0]), ShareOf(fs[0])))
  }

  function CostDescending(): ProgramCost -> real {
    (e: ProgramCost) => -e.cost
  }

  /** getProgramFinancials: the per-program totals, highest cost first (ties keep
      first-seen order, as the sort is stable). */
  function ProgramFinancials(fs: seq<Feature>): (r: seq<ProgramCost>)
    ensures forall i, j :: 0 <= i < j < |r| ==> r[i].cost >= r[j].cost
    ensures multiset(r) == multiset(Accumulate(fs, []))
  {
    SortIsSorted(Accumulate(fs, []), CostDescending());
    SortByKey(Accumulate(fs, []), CostDescending())
  }

  // ---- Accumulation lemmas ------------------------------------------------------------

  lemma {:induction false} AddCostEffect(acc: seq<ProgramCost>, p: string, amount: real)
    requires DistinctNames(acc)
    ensures DistinctNames(AddCost(acc, p, amount))
    ensures Names(AddCost(acc, p, amount)) == Names(acc) + {p}
    ensures forall q :: Lookup(AddCost(acc, p, amount), q) == Lookup(acc, q) + (if q == p then amount else 0.0)
  {
    var r := AddCost(acc, p, amount);
    if acc == [] {
      assert Names(r) == {p} by {
        assert r[0].name == p;
      }
    } else if acc[0].name == p {
      AddCostAtHead(acc, p, amount);
    } else {
      AddCostEffect(acc[1..], p, amount);
      AddCostPastHead(acc, p, amount);
    }
  }

  /** The program already heads the list: its entry grows in place. */
  lemma AddCostAtHead(acc: seq<ProgramCost>, p: string, amount: real)
    requires DistinctNames(acc) && acc != [] && acc[0].name == p
    ensures DistinctNames(AddCost(acc, p, amount))
    ensures Names(AddCost(acc, p, amount)) == Names(acc) + {p}
    ensures forall q :: Lookup(AddCost(acc, p, amount), q) == Lookup(acc, q) + (if q == p then amount else 0.0)
  {
    var r := AddCost(acc, p, amount);
    assert r[1..] == acc[1..];
    assert forall i :: 0 <= i < |r| ==> r[i].name == acc[i].name;
    forall x | x in Names(acc)
      ensures x in Names(r)
    {
      var i :| 0 <= i < |acc| && acc[i].name == x;
      assert r[i].name == x;
    }
    forall x | x in Names(r)
      ensures x in Names(acc)
    {
      var i :| 0 <= i < |r| && r[i].name == x;
      assert acc[i].name == x;
    }
  }

  /** The program is not at the head: the head stays, the rest is updated. */
  lemma AddCostPastHead(acc: seq<ProgramCost>, p: string, amount: real)
    requires DistinctNames(acc) && acc != [] && acc[0].name != p
    requires DistinctNames(AddCost(acc[1..], p, amount))
    requires Names(AddCost(acc[1..], p, amount)) == Names(acc[1..]) + {p}
    requires forall q :: Lookup(AddCost(acc[1..], p, amount), q) == Lookup(acc[1..], q) + (if q == p then amount else 0.0)
    ensures DistinctNames(AddCost(acc, p, amount))
    ensures Names(AddCost(acc, p, amount)) == Names(acc) + {p}
    ensures forall q :: Lookup(AddCost(acc, p, amount), q) == Lookup(acc, q) + (if q == p then amount else 0.0)
  {
    var t := acc[1..];
    var rt := AddCost(t, p, amount);
    assert AddCost(acc, p, amount) == [acc[0]] + rt;
    assert acc == [acc[0]] + t;
    HeadNotInTail(acc);
    NamesCons(acc[0], t);
    NamesCons(acc[0], rt);
    ConsDistinct(acc[0], rt);
    forall q
      ensures Lookup([acc[0]] + rt, q) == Lookup(acc, q) + (if q == p then amount else 0.0)
    {
      assert ([acc[0]] + rt)[1..] == rt;
    }
  }

  /** In a list with distinct names the head's name is not among the tail's. */
  lemma HeadNotInTail(acc: seq<ProgramCost>)
    requires DistinctNames(acc) && acc != []
    ensures acc[0].name !in Names(acc[1..])
  {
    var t := acc[1..];
    forall i | 0 <= i < |t|
      ensures t[i].name != acc[0].name
    {
      assert t[i] == acc[i + 1];
    }
  }

  /** Putting an entry with a new name in front keeps the names distinct. */
  lemma ConsDistinct(e: ProgramCost, t: seq<ProgramCost>)
    requires DistinctNames(t) && e.name !in Names(t)
    ensures DistinctNames([e] + t)
  {
    var r := [e] + t;
    forall i, j | 0 <= i < j < |r|
      ensures r[i].name != r[j].name
    {
      assert r[j] == t[j - 1];
      assert t[j - 1].name in Names(t);
      if i > 0 {
        assert r[i] == t[i - 1];
      }
    }
  }

  lemma NamesCons(e: ProgramCost, t: seq<ProgramCost>)
    ensures Names([e] + t) == {e.name} + Names(t)
  {
    var s := [e] + t;
    forall x | x in Names(s)
      ensures x in {e.name} + Names(t)
    {
      var i :| 0 <= i < |s| && s[i].name == x;
      if i > 0 {
        assert t[i - 1].name == x;
      }
    }
    forall x | x in Names(t)
      ensures x in Names(s)
    {
      var i :| 0 <= i < |t| && t[i].name == x;
      assert s[i + 1].name == x;
    }
    assert s[0].name == e.name;
  }

  lemma {:induction false} AddSharesEffect(acc: seq<ProgramCost>, ps: seq<string>, share: real)
    requires DistinctNames(acc)
    ensures DistinctNames(AddShares(acc, ps, share))
    ensures Names(AddShares(acc, ps, share)) == Names(acc) + (set p | p in ps)
    ensures forall q :: Lookup(AddShares(acc, ps, share), q) == Lookup(acc, q) + SharesFor(ps, q, share)
    decreases |ps|
  {
    if ps == [] {
      assert (set p | p in ps) == {};
    } else {
      var a1 := AddCost(acc, ps[0], share);
      AddCostEffect(acc, ps[0], share);
      AddSharesEffect(a1, ps[1..], share);
      assert (set p | p in ps) == {ps[0]} + (set p | p in ps[1..]) by {
        forall x | x in ps && x != ps[0]
          ensures x in ps[1..]
        {
          var i :| 0 <= i < |ps| && ps[i] == x;
          assert ps[1..][i - 1] == x;
        }
      }
    }
  }

  /** The accumulation gives each program its reference share and lists each program once. */
  lemma {:induction false} AccumulateEffect(fs: seq<Feature>, acc: seq<ProgramCost>)
    requires DistinctNames(acc)
    ensures DistinctNames(Accumulate(fs, acc))
    ensures Names(Accumulate(fs, acc)) == Names(acc) + AllPrograms(fs)
    ensures forall q :: Lookup(Accumulate(fs, acc), q) == Lookup(acc, q) + Share(fs, q)
  {
    if fs != [] {
      var a1 := AddShares(acc, Programs(fs[0]), ShareOf(fs[0]));
      AddSharesEffect(acc, Programs(fs[0]), ShareOf(fs[0]));
      AccumulateEffect(fs[1..], a1);
    }
  }

  /** In a list with distinct names, an entry's cost is what `Lookup` finds for its name. */
  lemma {:induction false} LookupFinds(acc: seq<ProgramCost>, i: int)
    requires DistinctNames(acc)
    requires 0 <= i < |acc|
    ensures Lookup(acc, acc[i].name) == acc[i].cost
  {
    if i > 0 {
      assert acc[0].name != acc[i].name;
      assert acc[1..][i - 1] == acc[i];
      LookupFinds(acc[1..], i - 1);
    }
  }

  /** Every entry of a permutation is an entry of the original. */
  lemma PermutedEntry(acc: seq<ProgramCost>, r: seq<ProgramCost>, i: int) returns (j: int)
    requires multiset(r) == multiset(acc) && 0 <= i < |r|
    ensures 0 <= j < |acc| && acc[j] == r[i]
  {
    assert r[i] in multiset(acc);
    j :| 0 <= j < |acc| && acc[j] == r[i];
  }

  /** A permutation of the accumulated list keeps each program's reference share. */
  lemma PermutedCosts(fs: seq<Feature>, acc: seq<ProgramCost>, r: seq<ProgramCost>)
    requires multiset(r) == multiset(acc) && DistinctNames(acc)
    requires forall q :: Lookup(acc, q) == Share(fs, q)
    ensures forall i :: 0 <= i < |r| ==> r[i].cost == Share(fs, r[i].name)
  {
    forall i | 0 <= i < |r|
      ensures r[i].cost == Share(fs, r[i].name)
    {
      var j := PermutedEntry(acc, r, i);
      LookupFinds(acc, j);
    }
  }

  /** A permutation of the accumulated list names exactly the programs. */
  lemma PermutedNames(fs: seq<Feature>, acc: seq<ProgramCost>, r: seq<ProgramCost>)
    requires multiset(r) == multiset(acc) && Names(acc) == AllPrograms(fs)
    ensures forall p :: p in AllPrograms(fs) <==> exists i :: 0 <= i < |r| && r[i].name == p
  {
    forall p
      ensures p in AllPrograms(fs) <==> exists i :: 0 <= i < |r| && r[i].name == p
    {
      if p in AllPrograms(fs) {
        assert p in Names(acc);
        var j :| 0 <= j < |acc| && acc[j].name == p;
        assert acc[j] in multiset(r);
        var i :| 0 <= i < |r| && r[i] == acc[j];
      }
      if exists i :: 0 <= i < |r| && r[i].name == p {
        var i :| 0 <= i < |r| && r[i].name == p;
        var j := PermutedEntry(acc, r, i);
        assert p in Names(acc);
      }
    }
  }

  /** The result lists every program exactly once, each with its reference share. */
  lemma {:induction false} ProgramFinancialsShares(fs: seq<Feature>)
    ensures var r := ProgramFinancials(fs);
      && (forall i, j :: 0 <= i < j < |r| ==> r[i].name != r[j].name)
      && (forall i :: 0 <= i < |r| ==> r[i].cost == Share(fs, r[i].name))
      && (forall p :: p in AllPrograms(fs) <==> exists i :: 0 <= i < |r| && r[i].name == p)
  {
    var acc := Accumulate(fs, []);
    var r := ProgramFinancials(fs);
    AccumulateEffect(fs, []);
    assert Names([]) == {};
    assert forall q :: Lookup([], q) == 0.0;
    PermutedCosts(fs, acc, r);
    PermutedNames(fs, acc, r);
    forall i, j | 0 <= i < j < |r|
      ensures r[i].name != r[j].name
    {
      DistinctSurvivesPermutation(acc, r, i, j);
    }
  }

  /** A permutation of a list with distinct names has distinct names. */
  lemma DistinctSurvivesPermutation(acc: seq<ProgramCost>, r: seq<ProgramCost>, i: int, j: int)
    requires DistinctNames(acc) && multiset(r) == multiset(acc)
    requires 0 <= i < j < |r|
    ensures r[i].name != r[j].name
  {
    if r[i].name == r[j].name {
      assert r[i] in multiset(acc) && r[j] in multiset(acc);
      var a :| 0 <= a < |acc| && acc[a] == r[i];
      var b :| 0 <= b < |acc| && acc[b] == r[j];
      if a == b {
        // the same entry twice in `r` would occur twice in `acc`
        assert r[i] == r[j];
        assert multiset(r)[r[i]] >= 2 by {
          assert r == r[..i] + [r[i]] + r[i + 1..j] + [r[j]] + r[j + 1..];
        }
        OccursOnce(acc, a);
      }
    }
  }

  /** In a list with distinct names every entry occurs once. */
  lemma OccursOnce(acc: seq<ProgramCost>, a: int)
    requires DistinctNames(acc) && 0 <= a < |acc|
    ensures multiset(acc)[acc[a]] == 1
  {
    assert acc == acc[..a] + [acc[a]] + acc[a + 1..];
    forall k | 0 <= k < |acc| && k != a
      ensures acc[k] != acc[a]
    {
    }
    NotIn(acc[..a], acc[a]);
    NotIn(acc[a + 1..], acc[a]);
  }

  lemma NotIn(s: seq<ProgramCost>, x: ProgramCost)
    requires x !in s
    ensures multiset(s)[x] == 0
  {
  }

  // ---- Conservation -------------------------------------------------------------------

  function TotalOf(acc: seq<ProgramCost>): real {
    if acc == [] then 0.0 else acc[0].cost + TotalOf(acc[1..])
  }

  function CostSum(fs: seq<Feature>): real {
    if fs == [] then 0.0 else fs[0].estimatedCost as real + CostSum(fs[1..])
  }

  lemma {:induction false} AddCostTotal(acc: seq<ProgramCost>, p: string, amount: real)
    ensures TotalOf(AddCost(acc, p, amount)) == TotalOf(acc) + amount
  {
    if acc != [] && acc[0].name != p {
      AddCostTotal(acc[1..], p, amount);
      assert ([acc[0]] + AddCost(acc[1..], p, amount))[1..] == AddCost(acc[1..], p, amount);
    } else if acc != [] {
      assert ([ProgramCost(p, acc[0].cost + amount)] + acc[1..])[1..] == acc[1..];
    }
  }

  lemma {:induction false} AddSharesTotal(acc: seq<ProgramCost>, ps: seq<string>, share: real)
    ensures TotalOf(AddShares(acc, ps, share)) == TotalOf(acc) + |ps| as real * share
    decreases |ps|
  {
    if ps != [] {
      var a1 := AddCost(acc, ps[0], share);
      AddCostTotal(acc, ps[0], share);
      AddSharesTotal(a1, ps[1..], share);
      var n := |ps| - 1;
      calc {
        TotalOf(AddShares(acc, ps, share));
        TotalOf(AddShares(a1, ps[1..], share));
        TotalOf(a1) + n as real * share;
        TotalOf(acc) + share + n as real * share;
        { OneMoreShare(n, share); }
        TotalOf(acc) + (n + 1) as real * share;
      }
    }
  }

  lemma OneMoreShare(n: nat, share: real)
    ensures (n + 1) as real * share == share + n as real * share
  {
  }

  /** Splitting a cost into equal shares loses nothing. */
  lemma SharesAddUp(c: real, n: nat)
    requires n > 0
    ensures n as real * (c / n as real) == c
  {
  }

  /** One feature's shares add its whole cost to the total. */
  lemma FeatureTotal(acc: seq<ProgramCost>, f: Feature)
    ensures TotalOf(AddShares(acc, Programs(f), ShareOf(f))) == TotalOf(acc) + f.estimatedCost as real
  {
    var ps := Programs(f);
    AddSharesTotal(acc, ps, ShareOf(f));
    SharesAddUp(f.estimatedCost as real, |ps|);
  }

  lemma {:induction false} AccumulateTotal(fs: seq<Feature>, acc: seq<ProgramCost>)
    ensures TotalOf(Accumulate(fs, acc)) == TotalOf(acc) + CostSum(fs)
  {
    if fs != [] {
      FeatureTotal(acc, fs[0]);
      AccumulateTotal(fs[1..], AddShares(acc, Programs(fs[0]), ShareOf(fs[0])));
    }
  }

  /** Dropping matching entries from two permutations of each other leaves permutations. */
  lemma RemoveMatching(a: seq<ProgramCost>, b: seq<ProgramCost>, k: int)
    requires multiset(a) == multiset(b) && a != [] && 0 <= k < |b| && b[k] == a[0]
    ensures multiset(a[1..]) == multiset(b[..k] + b[k + 1..])
  {
    assert a == [a[0]] + a[1..];
    assert b == b[..k] + [b[k]] + b[k + 1..];
    assert multiset(a[1..]) == multiset(a) - multiset{a[0]};
    assert multiset(b[..k] + b[k + 1..]) == multiset(b) - multiset{b[k]};
  }

  lemma {:induction false} TotalOfPermutation(a: seq<ProgramCost>, b: seq<ProgramCost>)
    requires multiset(a) == multiset(b)
    ensures TotalOf(a) == TotalOf(b)
    decreases |a|
  {
    if a != [] {
      assert a[0] in multiset(b);
      var k :| 0 <= k < |b| && b[k] == a[0];
      RemoveMatching(a, b, k);
      TotalOfPermutation(a[1..], b[..k] + b[k + 1..]);
      TotalOfRemove(b, k);
    }
  }

  lemma {:induction false} TotalOfRemove(b: seq<ProgramCost>, k: int)
    requires 0 <= k < |b|
    ensures TotalOf(b) == b[k].cost + TotalOf(b[..k] + b[k + 1..])
  {
    if k > 0 {
      TotalOfRemove(b[1..], k - 1);
      assert b[1..][..k - 1] + b[1..][k..] == (b[..k] + b[k + 1..])[1..];
    } else {
      assert b[..k] + b[k + 1..] == b[1..];
    }
  }

  /** Conservation: the program costs add up to the features' total estimated cost. */
  lemma ProgramFinancialsTotal(fs: seq<Feature>)
    ensures TotalOf(ProgramFinancials(fs)) == CostSum(fs)
  {
    AccumulateTotal(fs, []);
    TotalOfPermutation(ProgramFinancials(fs), Accumulate(fs, []));
  }
}
