/** Month bucket keys. A feature's end date falls in the month with index
    `year * 12 + month - 1`; an unreadable date falls in the "NaN-NaN" bucket,
    which sorts after every real month, as that text sorts after digits. */
module MonthKeys {
  import opened Dates
  import opened Domain

  datatype MonthKey = Month(index: int) | NaNMonth

  /** Strict order of the keys: months by index, the NaN bucket last. */
  predicate KeyLt(a: MonthKey, b: MonthKey) {
    match (a, b)
    case (Month(i), Month(j)) => i < j
    case (Month(_), NaNMonth) => true
    case (NaNMonth, _) => false
  }

  lemma KeyLtIsStrictTotal(a: MonthKey, b: MonthKey, c: MonthKey)
    ensures !KeyLt(a, a)
    ensures a != b ==> (KeyLt(a, b) <==> !KeyLt(b, a))
    ensures KeyLt(a, b) && KeyLt(b, c) ==> KeyLt(a, c)
  {
  }

  /** The bucket of a date (`${getFullYear()}-${getMonth() + 1}`). */
  function KeyOf(d: Date): (k: MonthKey)
    ensures k.NaNMonth? <==> !Valid(d)
    ensures Valid(d) ==> k == Month(MonthIndex(d))
  {
    if Valid(d) then Month(MonthIndex(d)) else NaNMonth
  }

  function EndKey(f: Feature): MonthKey {
    KeyOf(f.endDate)
  }

  /** The buckets the features' end dates fall in. */
  function EndKeys(fs: seq<Feature>): set<MonthKey> {
    if fs == [] then {} else {EndKey(fs[0])} + EndKeys(fs[1..])
  }

  /** A bucket is an end bucket exactly when some feature ends in it. */
  lemma {:induction false} EndKeysMembers(fs: seq<Feature>)
    ensures forall i :: 0 <= i < |fs| ==> EndKey(fs[i]) in EndKeys(fs)
    ensures forall k :: k in EndKeys(fs) ==> exists i :: 0 <= i < |fs| && EndKey(fs[i]) == k
  {
    if fs != [] {
      EndKeysMembers(fs[1..]);
      forall i | 1 <= i < |fs|
        ensures EndKey(fs[i]) in EndKeys(fs)
      {
        assert fs[i] == fs[1..][i - 1];
      }
      forall k | k in EndKeys(fs[1..])
        ensures exists i :: 0 <= i < |fs| && EndKey(fs[i]) == k
      {
        var i :| 0 <= i < |fs[1..]| && EndKey(fs[1..][i]) == k;
        assert fs[i + 1] == fs[1..][i];
      }
    }
  }

  /** `m` is the least key of `s`. */
  predicate IsLeast(m: MonthKey, s: set<MonthKey>) {
    m in s && forall k :: k in s && k != m ==> KeyLt(m, k)
  }

  lemma {:induction false} LeastExists(s: set<MonthKey>)
    requires s != {}
    ensures exists m :: IsLeast(m, s)
    decreases |s|
  {
    var x :| x in s;
    if s == {x} {
      assert IsLeast(x, s);
    } else {
      LeastExists(s - {x});
      var m :| IsLeast(m, s - {x});
      if KeyLt(x, m) {
        forall k | k in s && k != x
          ensures KeyLt(x, k)
        {
          if k != m {
            KeyLtIsStrictTotal(x, m, k);
          }
        }
        assert IsLeast(x, s);
      } else {
        KeyLtIsStrictTotal(m, x, x);
        assert IsLeast(m, s);
      }
    }
  }

  /** The keys of a set in ascending order (`Object.keys(...).sort()`). */
  function SortedKeys(s: set<MonthKey>): (r: seq<MonthKey>)
    ensures |r| == |s|
    ensures forall i :: 0 <= i < |r| ==> r[i] in s
    ensures forall i, j :: 0 <= i < j < |r| ==> KeyLt(r[i], r[j])
    decreases |s|
  {
    if s == {} then []
    else
      LeastExists(s);
      var m :| IsLeast(m, s);
      var rest := SortedKeys(s - {m});
      LeastFirst(m, s, rest);
      [m] + rest
  }

  /** Putting the least key in front of the sorted rest keeps the sequence sorted. */
  lemma LeastFirst(m: MonthKey, s: set<MonthKey>, rest: seq<MonthKey>)
    requires IsLeast(m, s)
    requires |rest| == |s - {m}| && forall i :: 0 <= i < |rest| ==> rest[i] in s - {m}
    requires forall i, j :: 0 <= i < j < |rest| ==> KeyLt(rest[i], rest[j])
    ensures |[m] + rest| == |s|
    ensures forall i :: 0 <= i < |[m] + rest| ==> ([m] + rest)[i] in s
    ensures forall i, j :: 0 <= i < j < |[m] + rest| ==> KeyLt(([m] + rest)[i], ([m] + rest)[j])
  {
    var r := [m] + rest;
    assert |s - {m}| == |s| - 1;
    assert forall i :: 1 <= i < |r| ==> r[i] == rest[i - 1];
  }

  /** Every key of the set appears in its sorted sequence. */
  lemma {:induction false} SortedKeysCover(s: set<MonthKey>)
    ensures forall k :: k in s ==> k in SortedKeys(s)
    decreases |s|
  {
    if s != {} {
      var r := SortedKeys(s);
      var m := r[0];
      assert IsLeast(m, s) && r[1..] == SortedKeys(s - {m});
      SortedKeysCover(s - {m});
      forall k | k in s
        ensures k in r
      {
        if k != m {
          assert k in r[1..];
        }
      }
    }
  }
}
