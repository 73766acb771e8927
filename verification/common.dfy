/** Small shared vocabulary: optional values, results, and the few sequence
    operations (filter, find-first, stable sort) that the planning logic uses
    in many places. Each is defined once here and specified by its meaning. */
module Common {

  /** A value that may be absent (JavaScript `undefined`). */
  datatype Option<+T> = None | Some(value: T) {
    function GetOr(default: T): T {
      match this
      case Some(v) => v
      case None => default
    }
  }

  /** Either a value or an error that the caller must handle. */
  datatype Result<+T, +E> = Ok(value: T) | Err(error: E)

  /** The elements of `s` that satisfy `p`, in their original order (Array.prototype.filter). */
  function Filter<T>(s: seq<T>, p: T -> bool): (r: seq<T>)
    ensures |r| <= |s|
    ensures forall i :: 0 <= i < |r| ==> r[i] in s && p(r[i])
    ensures forall i :: 0 <= i < |s| ==> (s[i] in r <==> p(s[i]))
    ensures |r| == |s| <==> forall i :: 0 <= i < |s| ==> p(s[i])
    ensures |r| == 0 <==> forall i :: 0 <= i < |s| ==> !p(s[i])
  {
    if s == [] then []
    else if p(s[0]) then [s[0]] + Filter(s[1..], p)
    else Filter(s[1..], p)
  }

  /** One step of the filter on a sequence with a known head. */
  lemma FilterCons<T>(x: T, s: seq<T>, p: T -> bool)
    ensures Filter([x] + s, p) == if p(x) then [x] + Filter(s, p) else Filter(s, p)
  {
    assert ([x] + s)[1..] == s;
  }

  /** How many elements satisfy `p` (`filter(p).length`). */
  function Count<T>(s: seq<T>, p: T -> bool): (n: nat)
    ensures n <= |s|
    ensures n == 0 <==> forall i :: 0 <= i < |s| ==> !p(s[i])
  {
    if s == [] then 0 else (if p(s[0]) then 1 else 0) + Count(s[1..], p)
  }

  /** Counting is the length of the filtered sequence. */
  lemma {:induction false} CountIsFilterLength<T>(s: seq<T>, p: T -> bool)
    ensures Count(s, p) == |Filter(s, p)|
  {
    if s != [] {
      CountIsFilterLength(s[1..], p);
    }
  }

  /** Filtering distributes over concatenation, so relative order is kept. */
  lemma {:induction false} FilterAppend<T>(a: seq<T>, b: seq<T>, p: T -> bool)
    ensures Filter(a + b, p) == Filter(a, p) + Filter(b, p)
  {
    if a == [] {
      assert a + b == b;
    } else {
      assert (a + b)[0] == a[0];
      assert (a + b)[1..] == a[1..] + b;
      FilterAppend(a[1..], b, p);
    }
  }

  /** Two sequences on which `p` agrees position by position keep equally many elements. */
  lemma {:induction false} FilterLengthAgrees<T>(a: seq<T>, b: seq<T>, p: T -> bool)
    requires |a| == |b| && forall i :: 0 <= i < |a| ==> p(a[i]) == p(b[i])
    ensures |Filter(a, p)| == |Filter(b, p)|
  {
    if a != [] {
      assert p(a[0]) == p(b[0]);
      FilterLengthAgrees(a[1..], b[1..], p);
    }
  }

  /** Two sequences that agree on `p` everywhere and on the elements it keeps filter alike. */
  lemma {:induction false} FilterAgrees<T>(a: seq<T>, b: seq<T>, p: T -> bool)
    requires |a| == |b|
    requires forall i :: 0 <= i < |a| ==> p(a[i]) == p(b[i]) && (p(a[i]) ==> a[i] == b[i])
    ensures Filter(a, p) == Filter(b, p)
  {
    if a != [] {
      assert p(a[0]) == p(b[0]);
      FilterAgrees(a[1..], b[1..], p);
    }
  }

  /** Filtering with a predicate that holds everywhere changes nothing. */
  lemma {:induction false} FilterAll<T>(s: seq<T>, p: T -> bool)
    requires forall i :: 0 <= i < |s| ==> p(s[i])
    ensures Filter(s, p) == s
  {
    if s != [] {
      FilterAll(s[1..], p);
    }
  }

  /** The index of the first element satisfying `p` (Array.prototype.findIndex). */
  function FindFirst<T>(s: seq<T>, p: T -> bool): (r: Option<nat>)
    ensures r.Some? ==> r.value < |s| && p(s[r.value])
    ensures r.Some? ==> forall j :: 0 <= j < r.value ==> !p(s[j])
    ensures r.None? <==> forall j :: 0 <= j < |s| ==> !p(s[j])
  {
    if s == [] then None
    else if p(s[0]) then Some(0)
    else match FindFirst(s[1..], p)
      case None => None
      case Some(i) => Some(i + 1)
  }

  /** The first element satisfying `p` (Array.prototype.find). */
  function Find<T>(s: seq<T>, p: T -> bool): (r: Option<T>)
    ensures r.Some? <==> exists i :: 0 <= i < |s| && p(s[i])
    ensures r.Some? ==> r.value in s && p(r.value)
  {
    match FindFirst(s, p)
    case None => None
    case Some(i) => Some(s[i])
  }

  /** Every element satisfying `p` becomes `x`, in place; the others stay
      (Array.prototype.map with a conditional replacement). */
  function Replace<T>(s: seq<T>, p: T -> bool, x: T): (r: seq<T>)
    ensures |r| == |s|
    ensures forall i :: 0 <= i < |s| && !p(s[i]) ==> r[i] == s[i]
    ensures forall i :: 0 <= i < |s| && p(s[i]) ==> r[i] == x
  {
    if s == [] then [] else [if p(s[0]) then x else s[0]] + Replace(s[1..], p, x)
  }

  /** Inserts `x` in front of the first element whose key is not smaller. */
  function InsertByKey<T>(x: T, s: seq<T>, key: T -> real): (r: seq<T>)
    ensures multiset(r) == multiset(s) + multiset{x}
    ensures |r| == |s| + 1
  {
    if s == [] || key(x) <= key(s[0]) then [x] + s
    else
      assert s == [s[0]] + s[1..];
      [s[0]] + InsertByKey(x, s[1..], key)
  }

  /** Keys never decrease along `s`. */
  predicate SortedByKey<T>(s: seq<T>, key: T -> real) {
    forall i, j :: 0 <= i < j < |s| ==> key(s[i]) <= key(s[j])
  }

  /** The elements of `s` whose key is `k`, in order. */
  function WithKey<T>(s: seq<T>, key: T -> real, k: real): (r: seq<T>)
    ensures forall i :: 0 <= i < |r| ==> key(r[i]) == k
  {
    if s == [] then []
    else (if key(s[0]) == k then [s[0]] else []) + WithKey(s[1..], key, k)
  }

  /** Stable ascending sort by a numeric key (Array.prototype.sort is stable). */
  function SortByKey<T>(s: seq<T>, key: T -> real): (r: seq<T>)
    ensures multiset(r) == multiset(s)
    ensures |r| == |s|
  {
    if s == [] then []
    else
      assert s == [s[0]] + s[1..];
      InsertByKey(s[0], SortByKey(s[1..], key), key)
  }

  lemma {:induction false} InsertKeepsSorted<T>(x: T, s: seq<T>, key: T -> real)
    requires SortedByKey(s, key)
    ensures SortedByKey(InsertByKey(x, s, key), key)
  {
    if s == [] || key(x) <= key(s[0]) {
    } else {
      InsertKeepsSorted(x, s[1..], key);
      var t := InsertByKey(x, s[1..], key);
      assert multiset(t) == multiset(s[1..]) + multiset{x};
      var r := [s[0]] + t;
      forall i, j | 0 <= i < j < |r|
        ensures key(r[i]) <= key(r[j])
      {
        if i == 0 {
          assert r[j] in multiset(t);
          assert r[j] in multiset(s[1..]) || r[j] == x;
          if r[j] != x {
            assert r[j] in s[1..];
            var k :| 0 <= k < |s[1..]| && s[1..][k] == r[j];
            assert s[k + 1] == r[j];
          }
        }
      }
    }
  }

  /** The sort orders its output by key. */
  lemma {:induction false} SortIsSorted<T>(s: seq<T>, key: T -> real)
    ensures SortedByKey(SortByKey(s, key), key)
  {
    if s != [] {
      SortIsSorted(s[1..], key);
      InsertKeepsSorted(s[0], SortByKey(s[1..], key), key);
    }
  }

  lemma {:induction false} InsertWithKey<T>(x: T, s: seq<T>, key: T -> real, k: real)
    ensures WithKey(InsertByKey(x, s, key), key, k)
         == (if key(x) == k then [x] else []) + WithKey(s, key, k)
  {
    if s == [] || key(x) <= key(s[0]) {
      assert ([x] + s)[1..] == s;
    } else {
      InsertWithKey(x, s[1..], key, k);
      assert ([s[0]] + InsertByKey(x, s[1..], key))[1..] == InsertByKey(x, s[1..], key);
      if key(x) == k {
        assert key(s[0]) != k;
      }
    }
  }

  /** Stability: elements with equal keys keep their original relative order. */
  lemma {:induction false} SortIsStable<T>(s: seq<T>, key: T -> real, k: real)
    ensures WithKey(SortByKey(s, key), key, k) == WithKey(s, key, k)
  {
    if s != [] {
      SortIsStable(s[1..], key, k);
      InsertWithKey(s[0], SortByKey(s[1..], key), key, k);
    }
  }

  /** Decimal text of a natural number, as JavaScript's String() prints it. */
  function NatToString(n: nat): (r: string)
    ensures |r| >= 1
    ensures forall i :: 0 <= i < |r| ==> '0' <= r[i] <= '9'
    decreases n
  {
    if n < 10 then [DigitChar(n)] else NatToString(n / 10) + [DigitChar(n % 10)]
  }

  function DigitChar(d: nat): (c: char)
    requires d < 10
    ensures '0' <= c <= '9'
  {
    (('0' as int) + d) as char
  }

  /** Decimal text of an integer, with a leading minus when negative. */
  function IntToString(n: int): (r: string)
    ensures (|r| > 0 && r[0] == '-') <==> n < 0
  {
    if n < 0 then "-" + NatToString(-n) else NatToString(n)
  }

  /** Lower-case of one character; only the ASCII letters A-Z change. */
  function LowerChar(c: char): (r: char)
    ensures 'A' <= c <= 'Z' ==> r as int == c as int + 32
    ensures !('A' <= c <= 'Z') ==> r == c
  {
    if 'A' <= c <= 'Z' then (c as int + 32) as char else c
  }

  /** `String.prototype.toLowerCase` restricted to ASCII letters. */
  function Lower(s: string): (r: string)
    ensures |r| == |s| && forall i :: 0 <= i < |s| ==> r[i] == LowerChar(s[i])
  {
    if s == [] then [] else [LowerChar(s[0])] + Lower(s[1..])
  }

  /** `sub` occurs in `s` at some position (`String.prototype.includes`). */
  predicate Contains(s: string, sub: string) {
    exists i :: 0 <= i <= |s| - |sub| && OccursAt(s, sub, i)
  }

  predicate OccursAt(s: string, sub: string, i: int)
    requires 0 <= i <= |s| - |sub|
  {
    s[i..i + |sub|] == sub
  }

  /** The empty string occurs in every string. */
  lemma ContainsEmpty(s: string)
    ensures Contains(s, "")
  {
    assert OccursAt(s, "", 0);
  }

  /** `Math.max` and `Math.min` on two integers. */
  function Max(a: int, b: int): int {
    if a >= b then a else b
  }

  function Min(a: int, b: int): int {
    if a <= b then a else b
  }

  /** `m` is the smallest element of `s`. */
  predicate IsMin(m: int, s: set<int>) {
    m in s && forall x :: x in s ==> m <= x
  }

  lemma {:induction false} MinExists(s: set<int>)
    requires s != {}
    ensures exists m :: IsMin(m, s)
    decreases |s|
  {
    if forall y :: y !in s {
      assert false;
    }
    var x :| x in s;
    if s == {x} {
      assert IsMin(x, s);
    } else {
      var rest := s - {x};
      MinExists(rest);
      var m :| IsMin(m, rest);
      if x < m {
        forall y | y in s
          ensures x <= y
        {
          if y != x {
            assert y in rest;
          }
        }
        assert IsMin(x, s);
      } else {
        forall y | y in s
          ensures m <= y
        {
          if y != x {
            assert y in rest;
          }
        }
        assert IsMin(m, s);
      }
    }
  }

  /** The elements of a finite set of integers in ascending order (the order in
      which `Object.keys` lists integer-like keys). */
  function SortedInts(s: set<int>): (r: seq<int>)
    ensures |r| == |s|
    ensures forall i :: 0 <= i < |r| ==> r[i] in s
    ensures forall i, j :: 0 <= i < j < |r| ==> r[i] < r[j]
    decreases |s|
  {
    if s == {} then []
    else
      MinExists(s);
      var m :| IsMin(m, s);
      assert |s - {m}| == |s| - 1;
      [m] + SortedInts(s - {m})
  }

  /** Every element of the set is listed. */
  lemma {:induction false} SortedIntsCover(s: set<int>)
    ensures forall x :: x in s ==> x in SortedInts(s)
    decreases |s|
  {
    if s != {} {
      var r := SortedInts(s);
      var m := r[0];
      assert IsMin(m, s) && r[1..] == SortedInts(s - {m});
      SortedIntsCover(s - {m});
      forall x | x in s
        ensures x in r
      {
        if x != m {
          assert x in r[1..];
        }
      }
    }
  }

  /** Code-unit order on texts, the default order of `Array.prototype.sort`:
      a proper prefix comes first, otherwise the first differing character decides. */
  predicate TextLt(a: string, b: string)
    decreases |a|
  {
    if a == [] then b != []
    else if b == [] then false
    else a[0] < b[0] || (a[0] == b[0] && TextLt(a[1..], b[1..]))
  }

  lemma {:induction false} TextLtIrreflexive(a: string)
    ensures !TextLt(a, a)
    decreases |a|
  {
    if a != [] {
      TextLtIrreflexive(a[1..]);
    }
  }

  lemma {:induction false} TextLtTransitive(a: string, b: string, c: string)
    requires TextLt(a, b) && TextLt(b, c)
    ensures TextLt(a, c)
    decreases |a|
  {
    if a != [] && a[0] == b[0] && b[0] == c[0] {
      TextLtTransitive(a[1..], b[1..], c[1..]);
    }
  }

  lemma {:induction false} TextLtTotal(a: string, b: string)
    requires a != b
    ensures TextLt(a, b) || TextLt(b, a)
    decreases |a|
  {
    if a != [] && b != [] && a[0] == b[0] {
      assert a == [a[0]] + a[1..] && b == [b[0]] + b[1..];
      TextLtTotal(a[1..], b[1..]);
    }
  }

  /** `m` comes first among the texts of `s`. */
  predicate IsFirstText(m: string, s: set<string>) {
    m in s && forall x :: x in s && x != m ==> TextLt(m, x)
  }

  lemma {:induction false} FirstTextExists(s: set<string>)
    requires s != {}
    ensures exists m :: IsFirstText(m, s)
    decreases |s|
  {
    if forall y :: y !in s {
      assert false;
    }
    var x :| x in s;
    if s == {x} {
      assert IsFirstText(x, s);
    } else {
      var rest := s - {x};
      FirstTextExists(rest);
      var m :| IsFirstText(m, rest);
      if TextLt(x, m) {
        forall y | y in s && y != x
          ensures TextLt(x, y)
        {
          if y != m {
            TextLtTransitive(x, m, y);
          }
        }
        assert IsFirstText(x, s);
      } else {
        TextLtTotal(x, m);
        assert IsFirstText(m, s);
      }
    }
  }

  lemma FirstTextUnique(s: set<string>)
    ensures forall a, b :: IsFirstText(a, s) && IsFirstText(b, s) ==> a == b
  {
    forall a, b | IsFirstText(a, s) && IsFirstText(b, s)
      ensures a == b
    {
      if a != b {
        TextLtIrreflexive(a);
        TextLtTransitive(a, b, a);
      }
    }
  }

  /** The texts of a finite set in ascending code-unit order, each once
      (`Array.from(set).sort()`). */
  function SortedTexts(s: set<string>): (r: seq<string>)
    ensures |r| == |s|
    ensures forall i :: 0 <= i < |r| ==> r[i] in s
    ensures forall i, j :: 0 <= i < j < |r| ==> TextLt(r[i], r[j])
    decreases |s|
  {
    if s == {} then []
    else
      FirstTextExists(s);
      FirstTextUnique(s);
      var m :| IsFirstText(m, s);
      assert |s - {m}| == |s| - 1;
      [m] + SortedTexts(s - {m})
  }

  /** Every text of the set is listed. */
  lemma {:induction false} SortedTextsCover(s: set<string>)
    ensures forall x :: x in s ==> x in SortedTexts(s)
    decreases |s|
  {
    if s != {} {
      var r := SortedTexts(s);
      var m := r[0];
      assert IsFirstText(m, s) && r[1..] == SortedTexts(s - {m});
      SortedTextsCover(s - {m});
      forall x | x in s
        ensures x in r
      {
        if x != m {
          assert x in r[1..];
        }
      }
    }
  }
}
