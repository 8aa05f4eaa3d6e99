/** The stable `Array.prototype.sort` the translation memory uses, for
    comparators that order by up to three integer keys, biggest first. */
module Sorting {

  /** A lexicographic sort key: `major` first, then `middle`, then `minor`. */
  datatype SortKey = SortKey(major: int, middle: int, minor: int)

  /** `a` sorts strictly before `b` when ordering biggest first. */
  predicate Above(a: SortKey, b: SortKey) {
    || a.major > b.major
    || (a.major == b.major && a.middle > b.middle)
    || (a.major == b.major && a.middle == b.middle && a.minor > b.minor)
  }

  /** No element sorts strictly before an element to its left. */
  ghost predicate SortedDesc<T>(s: seq<T>, key: T -> SortKey) {
    forall i, j :: 0 <= i < j < |s| ==> !Above(key(s[j]), key(s[i]))
  }

  /** Places `x` in front of the first element that does not sort before it,
      so `x` stays ahead of the elements it ties with. */
  function Insert<T>(x: T, s: seq<T>, key: T -> SortKey): (r: seq<T>)
    requires SortedDesc(s, key)
    ensures SortedDesc(r, key)
    ensures multiset(r) == multiset(s) + multiset{x}
    decreases |s|
  {
    if |s| == 0 || !Above(key(s[0]), key(x)) then
      assert forall j :: 0 <= j < |s| ==> !Above(key(s[j]), key(x)) by {
        forall j | 0 <= j < |s| ensures !Above(key(s[j]), key(x)) {
          if j > 0 {
            assert !Above(key(s[j]), key(s[0]));
          }
        }
      }
      InsertFront(x, s, key);
      [x] + s
    else
      var rest := Insert(x, s[1..], key);
      assert s == [s[0]] + s[1..];
      forall y | y in rest ensures !Above(key(y), key(s[0])) {
        assert y in multiset(rest);
        if y != x {
          var k :| 0 <= k < |s[1..]| && s[1..][k] == y;
          assert s[k + 1] == y;
        }
      }
      InsertFront(s[0], rest, key);
      [s[0]] + rest
  }

  /** An element that nothing in a sorted sequence sorts before may go in front. */
  lemma InsertFront<T>(x: T, s: seq<T>, key: T -> SortKey)
    requires SortedDesc(s, key)
    requires forall y :: y in s ==> !Above(key(y), key(x))
    ensures SortedDesc([x] + s, key)
  {
    var r := [x] + s;
    forall i, j | 0 <= i < j < |r| ensures !Above(key(r[j]), key(r[i])) {
      assert r[j] == s[j - 1];
      if i > 0 {
        assert r[i] == s[i - 1];
      }
    }
  }

  /** Stable sort, biggest key first. */
  function SortDesc<T>(s: seq<T>, key: T -> SortKey): (r: seq<T>)
    ensures SortedDesc(r, key)
    ensures multiset(r) == multiset(s) && |r| == |s|
    decreases |s|
  {
    if |s| == 0 then []
    else
      assert s == [s[0]] + s[1..];
      Insert(s[0], SortDesc(s[1..], key), key)
  }

  /** The elements of `s` whose key is `k`, in their order in `s`. */
  function WithKey<T>(s: seq<T>, key: T -> SortKey, k: SortKey): seq<T>
    decreases |s|
  {
    if |s| == 0 then [] else (if key(s[0]) == k then [s[0]] else []) + WithKey(s[1..], key, k)
  }

  /** Insertion puts `x` ahead of every element it ties with and moves no
      other element past another. */
  lemma {:induction false} InsertWithKey<T>(x: T, s: seq<T>, key: T -> SortKey, k: SortKey)
    requires SortedDesc(s, key)
    ensures WithKey(Insert(x, s, key), key, k) == (if key(x) == k then [x] else []) + WithKey(s, key, k)
    decreases |s|
  {
    var front := if key(x) == k then [x] else [];
    if |s| == 0 || !Above(key(s[0]), key(x)) {
      assert ([x] + s)[0] == x && ([x] + s)[1..] == s;
    } else {
      var rest := Insert(x, s[1..], key);
      var head := if key(s[0]) == k then [s[0]] else [];
      assert SortedDesc(s[1..], key) by {
        forall i, j | 0 <= i < j < |s[1..]| ensures !Above(key(s[1..][j]), key(s[1..][i])) {
          assert s[1..][i] == s[i + 1] && s[1..][j] == s[j + 1];
        }
      }
      InsertWithKey(x, s[1..], key, k);
      assert ([s[0]] + rest)[0] == s[0] && ([s[0]] + rest)[1..] == rest;
      assert WithKey(s, key, k) == head + WithKey(s[1..], key, k);
      // `s[0]` sorts strictly before `x`, so at most one of them has key `k`.
      assert head == [] || front == [];
    }
  }

  /** The sort is stable: the elements with any one key keep their relative order. */
  lemma {:induction false} SortDescStable<T>(s: seq<T>, key: T -> SortKey, k: SortKey)
    ensures WithKey(SortDesc(s, key), key, k) == WithKey(s, key, k)
    decreases |s|
  {
    if |s| > 0 {
      SortDescStable(s[1..], key, k);
      InsertWithKey(s[0], SortDesc(s[1..], key), key, k);
    }
  }

  /** The eviction step shared by the memory and decision stores: when more
      than `cap` items are held, sort biggest key first and keep the first `cap`. */
  function Retain<T>(s: seq<T>, key: T -> SortKey, cap: nat): (r: seq<T>)
    ensures |r| == if |s| > cap then cap else |s|
    ensures |s| <= cap ==> r == s
    ensures multiset(r) <= multiset(s)
  {
    if |s| > cap then
      var t := SortDesc(s, key);
      SplitMultiset(t, cap);
      t[..cap]
    else s
  }

  /** Eviction keeps the biggest keys: no evicted item sorts before a kept one. */
  lemma RetainKeepsBiggest<T>(s: seq<T>, key: T -> SortKey, cap: nat, kept: T, evicted: T)
    requires kept in Retain(s, key, cap)
    requires evicted in multiset(s) - multiset(Retain(s, key, cap))
    ensures !Above(key(evicted), key(kept))
  {
    RetainEvicted(s, key, cap);
    var t := SortDesc(s, key);
    var i :| 0 <= i < cap && t[i] == kept;
    var j := SuffixIndex(t, cap, evicted);
  }

  /** An element of a suffix sits at some position of the suffix. */
  lemma SuffixIndex<T>(t: seq<T>, n: nat, x: T) returns (j: nat)
    requires n <= |t| && x in multiset(t[n..])
    ensures n <= j < |t| && t[j] == x
  {
    var k :| 0 <= k < |t[n..]| && t[n..][k] == x;
    j := n + k;
  }

  /** What eviction drops: the sorted tail beyond the cap, or nothing. */
  lemma RetainEvicted<T>(s: seq<T>, key: T -> SortKey, cap: nat)
    ensures |s| > cap ==> multiset(s) - multiset(Retain(s, key, cap)) == multiset(SortDesc(s, key)[cap..])
    ensures |s| <= cap ==> multiset(s) - multiset(Retain(s, key, cap)) == multiset{}
  {
    if |s| > cap {
      SplitMultiset(SortDesc(s, key), cap);
    }
  }

  /** A sequence's elements are those of a prefix and the rest. */
  lemma SplitMultiset<T>(t: seq<T>, n: nat)
    requires n <= |t|
    ensures multiset(t) == multiset(t[..n]) + multiset(t[n..])
  {
    assert t == t[..n] + t[n..];
  }

  /** `s.slice(0, n)`. */
  function Take<T>(s: seq<T>, n: nat): (r: seq<T>)
    ensures |r| == if |s| > n then n else |s|
    ensures r == s[..|r|]
  {
    if |s| > n then s[..n] else s
  }

  /** A prefix of a sorted sequence is sorted and holds only its elements. */
  lemma TakeSorted<T>(s: seq<T>, key: T -> SortKey, n: nat)
    requires SortedDesc(s, key)
    ensures SortedDesc(Take(s, n), key)
    ensures forall x :: x in Take(s, n) ==> x in s
  {
    var r := Take(s, n);
    forall i, j | 0 <= i < j < |r| ensures !Above(key(r[j]), key(r[i])) {
      assert r[i] == s[i] && r[j] == s[j];
    }
  }

  /** All items have pairwise different `f`-images. */
  ghost predicate DistinctBy<T, K>(s: seq<T>, f: T -> K) {
    forall i, j :: 0 <= i < j < |s| ==> f(s[i]) != f(s[j])
  }

  /** An item whose image no other item shares may go in front. */
  lemma DistinctCons<T, K>(x: T, s: seq<T>, f: T -> K)
    requires DistinctBy(s, f)
    requires forall y :: y in s ==> f(y) != f(x)
    ensures DistinctBy([x] + s, f)
  {
    var r := [x] + s;
    forall i, j | 0 <= i < j < |r| ensures f(r[i]) != f(r[j]) {
      assert r[j] == s[j - 1];
      if i > 0 {
        assert r[i] == s[i - 1];
      }
    }
  }

  /** Dropping the front item keeps the images distinct. */
  lemma DistinctTail<T, K>(s: seq<T>, f: T -> K)
    requires |s| > 0 && DistinctBy(s, f)
    ensures DistinctBy(s[1..], f)
    ensures forall y :: y in s[1..] ==> f(y) != f(s[0])
  {
    forall i, j | 0 <= i < j < |s[1..]| ensures f(s[1..][i]) != f(s[1..][j]) {
      assert s[1..][i] == s[i + 1] && s[1..][j] == s[j + 1];
    }
    forall y | y in s[1..] ensures f(y) != f(s[0]) {
      var k :| 0 <= k < |s[1..]| && s[1..][k] == y;
      assert s[k + 1] == y;
    }
  }

  lemma {:induction false} InsertKeepsDistinct<T, K>(x: T, s: seq<T>, key: T -> SortKey, f: T -> K)
    requires SortedDesc(s, key)
    requires DistinctBy(s, f)
    requires forall y :: y in s ==> f(y) != f(x)
    ensures DistinctBy(Insert(x, s, key), f)
    decreases |s|
  {
    if |s| == 0 || !Above(key(s[0]), key(x)) {
      DistinctCons(x, s, f);
    } else {
      DistinctTail(s, f);
      InsertKeepsDistinct(x, s[1..], key, f);
      var rest := Insert(x, s[1..], key);
      forall y | y in rest ensures f(y) != f(s[0]) {
        assert y in multiset(rest);
        if y != x {
          assert y in s[1..];
        }
      }
      DistinctCons(s[0], rest, f);
    }
  }

  lemma {:induction false} SortKeepsDistinct<T, K>(s: seq<T>, key: T -> SortKey, f: T -> K)
    requires DistinctBy(s, f)
    ensures DistinctBy(SortDesc(s, key), f)
    decreases |s|
  {
    if |s| > 0 {
      DistinctTail(s, f);
      SortKeepsDistinct(s[1..], key, f);
      var t := SortDesc(s[1..], key);
      forall y | y in t ensures f(y) != f(s[0]) {
        assert y in multiset(t);
        assert y in s[1..];
      }
      InsertKeepsDistinct(s[0], t, key, f);
    }
  }

  /** Eviction never creates two items with the same `f`-image. */
  lemma RetainKeepsDistinct<T, K>(s: seq<T>, key: T -> SortKey, cap: nat, f: T -> K)
    requires DistinctBy(s, f)
    ensures DistinctBy(Retain(s, key, cap), f)
  {
    if |s| > cap {
      SortKeepsDistinct(s, key, f);
      var t := SortDesc(s, key);
      assert |t| == |multiset(t)| == |multiset(s)| == |s|;
      assert forall i :: 0 <= i < cap ==> t[..cap][i] == t[i];
    }
  }
}
