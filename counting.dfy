/** Filters, counts and the integer percentage the reports print. */
module Counting {
  import opened Wrappers

  /** `s.filter(p)` */
  function Filter<T>(s: seq<T>, p: T -> bool): (r: seq<T>)
    ensures |r| <= |s|
    ensures forall i :: 0 <= i < |r| ==> r[i] in s && p(r[i])
    ensures forall i :: 0 <= i < |s| && p(s[i]) ==> s[i] in r
  {
    if s == [] then [] else (if p(s[0]) then [s[0]] else []) + Filter(s[1..], p)
  }

  /** An element that passes the test survives the filter. */
  lemma FilterKeepsMember<T>(s: seq<T>, p: T -> bool, x: T)
    requires x in s && p(x)
    ensures x in Filter(s, p)
  {
    var i :| 0 <= i < |s| && s[i] == x;
  }

  /** Filters under pointwise-equal predicates agree. */
  lemma {:induction false} FilterExt<T>(s: seq<T>, p: T -> bool, q: T -> bool)
    requires forall i :: 0 <= i < |s| ==> p(s[i]) == q(s[i])
    ensures Filter(s, p) == Filter(s, q)
  {
    if s != [] {
      FilterExt(s[1..], p, q);
    }
  }

  /** Filtering twice is filtering once by the conjunction. */
  lemma {:induction false} FilterFilter<T>(s: seq<T>, p: T -> bool, q: T -> bool, pq: T -> bool)
    requires forall x :: pq(x) == (p(x) && q(x))
    ensures Filter(Filter(s, p), q) == Filter(s, pq)
  {
    if s != [] {
      FilterFilter(s[1..], p, q, pq);
      var t := Filter(s[1..], p);
      if p(s[0]) {
        assert Filter(s, p) == [s[0]] + t;
        assert ([s[0]] + t)[1..] == t;
      } else {
        assert Filter(s, p) == t;
      }
    }
  }

  /** The position `findOne` / `find` returns: the first element satisfying `p`. */
  function FirstIndex<T>(s: seq<T>, p: T -> bool): (r: Option<nat>)
    ensures r.Some? ==> r.value < |s| && p(s[r.value])
    ensures r.Some? ==> forall j :: 0 <= j < r.value ==> !p(s[j])
    ensures r.None? ==> forall j :: 0 <= j < |s| ==> !p(s[j])
  {
    if s == [] then None
    else if p(s[0]) then Some(0)
    else match FirstIndex(s[1..], p)
      case None => None
      case Some(k) => Some(k + 1)
  }

  /** No element occurs twice. */
  predicate Distinct<T(==)>(s: seq<T>) {
    forall i, j :: 0 <= i < j < |s| ==> s[i] != s[j]
  }

  /** A sequence without repetitions has as many elements as its set. */
  lemma {:induction false} DistinctCard<T>(s: seq<T>)
    requires Distinct(s)
    ensures |set x | x in s| == |s|
  {
    if s != [] {
      DistinctCard(s[1..]);
      assert (set x | x in s) == {s[0]} + (set x | x in s[1..]);
      assert s[0] !in s[1..];
    }
  }

  /** Filtering keeps a sequence free of repetitions. */
  lemma {:induction false} FilterDistinct<T>(s: seq<T>, p: T -> bool)
    requires Distinct(s)
    ensures Distinct(Filter(s, p))
  {
    if s != [] {
      FilterDistinct(s[1..], p);
      assert s[0] !in s[1..];
      assert s[0] !in Filter(s[1..], p);
    }
  }

  /** No two elements of `s` have the same key. */
  predicate DistinctBy<T, K(==)>(s: seq<T>, key: T -> K) {
    forall i, j :: 0 <= i < j < |s| ==> key(s[i]) != key(s[j])
  }

  /** Filtering keeps keys unique. */
  lemma {:induction false} FilterDistinctBy<T, K>(s: seq<T>, p: T -> bool, key: T -> K)
    requires DistinctBy(s, key)
    ensures DistinctBy(Filter(s, p), key)
  {
    if s != [] {
      var tail := s[1..];
      FilterDistinctBy(tail, p, key);
      var rt := Filter(tail, p);
      forall a | 0 <= a < |rt| ensures key(rt[a]) != key(s[0]) {
        assert rt[a] in tail;
        var k :| 0 <= k < |tail| && tail[k] == rt[a];
        assert tail[k] == s[k + 1];
      }
      var r := Filter(s, p);
      if p(s[0]) {
        assert r == [s[0]] + rt;
        forall a, b | 0 <= a < b < |r| ensures key(r[a]) != key(r[b]) {
          if a == 0 {
            assert r[b] == rt[b - 1];
          } else {
            assert r[a] == rt[a - 1] && r[b] == rt[b - 1];
          }
        }
      } else {
        assert r == rt;
      }
    }
  }

  /** A filter that keeps everything returns the sequence itself. */
  lemma {:induction false} FilterKeepsAll<T>(s: seq<T>, p: T -> bool)
    requires forall i :: 0 <= i < |s| ==> p(s[i])
    ensures Filter(s, p) == s
  {
    if s != [] {
      FilterKeepsAll(s[1..], p);
    }
  }

  /** A filter that drops exactly the element at `k` removes that position. */
  lemma {:induction false} FilterDropsOne<T>(s: seq<T>, p: T -> bool, k: nat)
    requires k < |s| && !p(s[k])
    requires forall i :: 0 <= i < |s| && i != k ==> p(s[i])
    ensures Filter(s, p) == s[..k] + s[k + 1..]
  {
    var t := s[1..];
    if k == 0 {
      assert Filter(t, p) == t by {
        forall i | 0 <= i < |t| ensures p(t[i]) {
          assert t[i] == s[i + 1];
        }
        FilterKeepsAll(t, p);
      }
      assert Filter(s, p) == Filter(t, p);
    } else {
      assert Filter(t, p) == t[..k - 1] + t[k..] by {
        forall i | 0 <= i < |t| && i != k - 1 ensures p(t[i]) {
          assert t[i] == s[i + 1];
        }
        FilterDropsOne(t, p, k - 1);
      }
      assert Filter(s, p) == [s[0]] + Filter(t, p);
      DropShift(s, k);
    }
  }

  /** Removing position `k > 0` keeps the head in front. */
  lemma DropShift<T>(s: seq<T>, k: nat)
    requires 0 < k < |s|
    ensures s[..k] + s[k + 1..] == [s[0]] + (s[1..][..k - 1] + s[1..][k..])
  {
    var t := s[1..];
    assert s[..k] == [s[0]] + t[..k - 1];
    assert s[k + 1..] == t[k..];
  }

  /** `s.filter(p).length` */
  function Count<T>(s: seq<T>, p: T -> bool): nat {
    |Filter(s, p)|
  }

  lemma {:induction false} FilterAppend<T>(a: seq<T>, b: seq<T>, p: T -> bool)
    ensures Filter(a + b, p) == Filter(a, p) + Filter(b, p)
  {
    if a == [] {
      assert a + b == b;
    } else {
      assert (a + b)[1..] == a[1..] + b;
      FilterAppend(a[1..], b, p);
    }
  }

  /** Counting one more element. */
  lemma CountSnoc<T>(s: seq<T>, x: T, p: T -> bool)
    ensures Count(s + [x], p) == Count(s, p) + if p(x) then 1 else 0
  {
    FilterAppend(s, [x], p);
    assert Filter([x], p) == (if p(x) then [x] else []) + Filter([], p);
  }

  /** Every element is counted on exactly one side of a predicate. */
  lemma {:induction false} CountSplit<T>(s: seq<T>, p: T -> bool, q: T -> bool)
    requires forall x :: q(x) == !p(x)
    ensures Count(s, p) + Count(s, q) == |s|
  {
    if s != [] {
      CountSplit(s[1..], p, q);
    }
  }

  /** A count under a stronger predicate is no larger. */
  lemma {:induction false} CountMonotone<T>(s: seq<T>, p: T -> bool, q: T -> bool)
    requires forall x :: p(x) ==> q(x)
    ensures Count(s, p) <= Count(s, q)
  {
    if s != [] {
      CountMonotone(s[1..], p, q);
    }
  }

  /** One element passing the test is counted. */
  lemma CountPositive<T>(s: seq<T>, p: T -> bool, k: nat)
    requires k < |s| && p(s[k])
    ensures Count(s, p) > 0
  {
    assert s[k] in Filter(s, p);
  }

  /** A filter that keeps everything keeps the whole sequence. */
  lemma {:induction false} CountAll<T>(s: seq<T>, p: T -> bool)
    requires forall i :: 0 <= i < |s| ==> p(s[i])
    ensures Count(s, p) == |s|
  {
    if s != [] {
      CountAll(s[1..], p);
    }
  }

  /** Counts under two disjoint predicates add up to the count under their union. */
  lemma {:induction false} CountDisjoint<T>(s: seq<T>, p: T -> bool, q: T -> bool, pq: T -> bool)
    requires forall x :: pq(x) == (p(x) || q(x))
    requires forall x :: !(p(x) && q(x))
    ensures Count(s, pq) == Count(s, p) + Count(s, q)
  {
    if s != [] {
      CountDisjoint(s[1..], p, q, pq);
    }
  }

  /** First occurrences of the elements of `s`, in order: `[...new Set(s)]`. */
  function Dedupe<T(==)>(s: seq<T>): (r: seq<T>)
    ensures Distinct(r)
    ensures forall i :: 0 <= i < |r| ==> r[i] in s
    ensures forall i :: 0 <= i < |s| ==> s[i] in r
  {
    if s == [] then []
    else
      var init := s[..|s| - 1];
      var d := Dedupe(init);
      assert forall i :: 0 <= i < |s| - 1 ==> s[i] == init[i];
      if s[|s| - 1] in d then d else d + [s[|s| - 1]]
  }

  /** `s.map(f)` */
  function Project<T, K>(s: seq<T>, f: T -> K): (r: seq<K>)
    ensures |r| == |s| && forall k :: 0 <= k < |s| ==> r[k] == f(s[k])
  {
    seq(|s|, k requires 0 <= k < |s| => f(s[k]))
  }

  /** The distinct keys of `s` under `f` in first-seen order: the key order of
      an object filled by a `reduce` over `s`. */
  function Keys<T, K(==)>(s: seq<T>, f: T -> K): (r: seq<K>)
    ensures Distinct(r)
    ensures forall i :: 0 <= i < |r| ==> exists j :: 0 <= j < |s| && f(s[j]) == r[i]
    ensures forall j :: 0 <= j < |s| ==> exists i :: 0 <= i < |r| && r[i] == f(s[j])
  {
    var m := Project(s, f);
    var r := Dedupe(m);
    assert forall i :: 0 <= i < |r| ==> exists j :: 0 <= j < |m| && m[j] == r[i];
    assert forall i :: 0 <= i < |s| ==> m[i] == f(s[i]) && m[i] in r;
    r
  }

  /** `x` occurs in `s` before any occurrence of `y`. */
  predicate OccursBefore<T(==)>(s: seq<T>, x: T, y: T) {
    exists a :: 0 <= a < |s| && s[a] == x && forall b :: 0 <= b <= a ==> s[b] != y
  }

  /** Some element of `s` has key `x` and comes before every element with
      key `y`. */
  predicate SeenBefore<T, K(==)>(s: seq<T>, f: T -> K, x: K, y: K) {
    exists a :: 0 <= a < |s| && f(s[a]) == x && forall b :: 0 <= b <= a ==> f(s[b]) != y
  }

  /** Deduplication keeps first-seen order. */
  lemma {:induction false} DedupeFirstSeen<T>(s: seq<T>, i: nat, j: nat)
    requires i < j < |Dedupe(s)|
    ensures OccursBefore(s, Dedupe(s)[i], Dedupe(s)[j])
  {
    var init := s[..|s| - 1];
    var d := Dedupe(init);
    assert forall k :: 0 <= k < |s| - 1 ==> s[k] == init[k];
    if j < |d| {
      DedupeFirstSeen(init, i, j);
      var a :| 0 <= a < |init| && init[a] == d[i] && forall b :: 0 <= b <= a ==> init[b] != d[j];
      assert s[a] == Dedupe(s)[i];
    } else {
      var last := s[|s| - 1];
      assert Dedupe(s) == d + [last] && last !in d;
      var a :| 0 <= a < |init| && init[a] == d[i];
      forall b | 0 <= b <= a ensures s[b] != last {
        assert init[b] in d;
      }
      assert s[a] == Dedupe(s)[i];
    }
  }

  /** The keys come in the order in which they are first seen. */
  lemma KeysFirstSeen<T, K>(s: seq<T>, f: T -> K, i: nat, j: nat)
    requires i < j < |Keys(s, f)|
    ensures SeenBefore(s, f, Keys(s, f)[i], Keys(s, f)[j])
  {
    assert Keys(s, f) == Dedupe(Project(s, f));
    ProjectFirstSeen(s, f, i, j);
  }

  lemma ProjectFirstSeen<T, K>(s: seq<T>, f: T -> K, i: nat, j: nat)
    requires i < j < |Dedupe(Project(s, f))|
    ensures SeenBefore(s, f, Dedupe(Project(s, f))[i], Dedupe(Project(s, f))[j])
  {
    var m := Project(s, f);
    var x, y := Dedupe(m)[i], Dedupe(m)[j];
    DedupeFirstSeen(m, i, j);
    var a :| 0 <= a < |m| && m[a] == x && forall b :: 0 <= b <= a ==> m[b] != y;
    assert f(s[a]) == x;
  }

  /** The test "the key of x is k". */
  function KeyIs<T, K(==)>(f: T -> K, k: K): T -> bool {
    (x: T) => f(x) == k
  }

  /** The test "the key of x is one of keys". */
  function KeyIn<T, K(==)>(f: T -> K, keys: seq<K>): T -> bool {
    (x: T) => f(x) in keys
  }

  /** The sum, over `keys`, of how many elements of `s` have each key. */
  function SumCounts<T, K(==)>(s: seq<T>, f: T -> K, keys: seq<K>): nat {
    if keys == [] then 0 else Count(s, KeyIs(f, keys[0])) + SumCounts(s, f, keys[1..])
  }

  /** Counting per distinct key counts every element whose key is listed once. */
  lemma {:induction false} CountByKeys<T, K>(s: seq<T>, f: T -> K, keys: seq<K>)
    requires Distinct(keys)
    ensures SumCounts(s, f, keys) == Count(s, KeyIn(f, keys))
  {
    if keys == [] {
      CountNone(s, KeyIn(f, keys));
    } else {
      var rest := keys[1..];
      assert keys[0] !in rest;
      CountByKeys(s, f, rest);
      CountDisjoint(s, KeyIs(f, keys[0]), KeyIn(f, rest), KeyIn(f, keys));
    }
  }

  lemma {:induction false} CountNone<T>(s: seq<T>, p: T -> bool)
    requires forall i :: 0 <= i < |s| ==> !p(s[i])
    ensures Count(s, p) == 0
  {
    if s != [] {
      CountNone(s[1..], p);
    }
  }

  /** The per-key counts of all the keys of `s` add up to `|s|`. */
  lemma KeyCountsSumToTotal<T, K>(s: seq<T>, f: T -> K)
    ensures SumCounts(s, f, Keys(s, f)) == |s|
  {
    var keys := Keys(s, f);
    CountByKeys(s, f, keys);
    forall j | 0 <= j < |s| ensures KeyIn(f, keys)(s[j]) {
      var i :| 0 <= i < |keys| && keys[i] == f(s[j]);
    }
    CountAll(s, KeyIn(f, keys));
  }

  /** A sequence without repetitions whose elements all equal `x` has at most one. */
  lemma DistinctConstant<T>(s: seq<T>, x: T)
    requires Distinct(s)
    requires forall i :: 0 <= i < |s| ==> s[i] == x
    ensures s == [] || s == [x]
  {
    DistinctCard(s);
    SubsetCard(set y | y in s, {x});
    assert |s| <= 1;
  }

  /** A subset is no larger than its superset. */
  lemma {:induction false} SubsetCard<T>(a: set<T>, b: set<T>)
    requires a <= b
    ensures |a| <= |b|
    decreases |b|
  {
    if b != {} {
      var x :| x in b;
      SubsetCard(a - {x}, b - {x});
    } else {
      assert a == {};
    }
  }

  /** `Math.round(p / t * 100)` for `t > 0`, with halves rounded up. */
  function RoundPercent(p: nat, t: nat): nat
    requires t > 0
  {
    (200 * p + t) / (2 * t)
  }

  /** The rate the reports print: 0 when the denominator is 0. */
  function Rate(p: nat, t: nat): nat {
    if t > 0 then RoundPercent(p, t) else 0
  }

  /** `RoundPercent(p, t)` is the integer nearest to 100p/t, halves going up. */
  lemma RoundPercentNearest(p: nat, t: nat)
    requires t > 0
    ensures 2 * t * RoundPercent(p, t) <= 200 * p + t < 2 * t * (RoundPercent(p, t) + 1)
  {
    var r := RoundPercent(p, t);
    var q := 200 * p + t;
    assert q == (2 * t) * r + q % (2 * t);
  }

  /** A part of a whole gets a rate between 0 and 100. */
  lemma RateBounded(p: nat, t: nat)
    requires p <= t
    ensures Rate(p, t) <= 100
  {
    if t > 0 {
      DivBelow(200 * p + t, 2 * t, 101);
    }
  }

  /** The whole gets exactly 100. */
  lemma RateOfWhole(t: nat)
    requires t > 0
    ensures Rate(t, t) == 100
  {
    DivBetween(200 * t + t, 2 * t, 100);
  }

  lemma MulLeft(d: nat, a: int, b: int)
    requires a <= b
    ensures d * a <= d * b
  {
  }

  lemma DivBelow(q: nat, d: nat, k: nat)
    requires d > 0 && q < d * k
    ensures q / d < k
  {
    var m := q / d;
    assert q == d * m + q % d;
    if m >= k { MulLeft(d, k, m); }
  }

  lemma DivBetween(q: nat, d: nat, k: nat)
    requires d > 0 && d * k <= q < d * (k + 1)
    ensures q / d == k
  {
    var m := q / d;
    assert q == d * m + q % d;
    if m > k { MulLeft(d, k + 1, m); }
    else if m < k { MulLeft(d, m + 1, k); }
  }
}
