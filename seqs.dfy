/** Sequence helpers that mirror the JavaScript array idioms the schedule
    component relies on: `Array.prototype.filter`, `map`, and
    `Array.from(new Set(xs))`, which keeps the first occurrence of every
    element in insertion order. */
module Seqs {

  datatype Option<T> = None | Some(value: T)

  /** `xs.find(p)`: the first element satisfying `p`, or `undefined`. */
  function Find<T>(s: seq<T>, p: T -> bool): (r: Option<T>)
    ensures r.Some? <==> exists i :: 0 <= i < |s| && p(s[i])
    ensures r.Some? ==> r.value in s && p(r.value)
  {
    if s == [] then None else if p(s[0]) then Some(s[0]) else Find(s[1..], p)
  }

  /** `xs.filter(p)`: the elements satisfying `p`, in their original order. */
  function Filter<T(!new)>(s: seq<T>, p: T -> bool): (r: seq<T>)
    ensures |r| <= |s|
    ensures forall x :: x in r <==> x in s && p(x)
  {
    if s == [] then []
    else if p(s[0]) then [s[0]] + Filter(s[1..], p)
    else Filter(s[1..], p)
  }

  /** `xs.map(f)`. */
  function Map<T, U>(s: seq<T>, f: T -> U): (r: seq<U>)
    ensures |r| == |s|
    ensures forall i :: 0 <= i < |s| ==> r[i] == f(s[i])
  {
    seq(|s|, i requires 0 <= i < |s| => f(s[i]))
  }

  /** Number of elements satisfying `p`. */
  function Count<T>(s: seq<T>, p: T -> bool): nat
  {
    if s == [] then 0 else (if p(s[0]) then 1 else 0) + Count(s[1..], p)
  }

  predicate NoDup<T(==)>(s: seq<T>)
  {
    forall i, j :: 0 <= i < j < |s| ==> s[i] != s[j]
  }

  /** No two elements share a key. */
  predicate DistinctBy<T, K(==)>(s: seq<T>, key: T -> K)
  {
    forall i, j :: 0 <= i < j < |s| ==> key(s[i]) != key(s[j])
  }

  /** `Array.from(new Set(s))`: a `Set` remembers insertion order, so an element
      is appended only when it has not been seen before. */
  function Dedup<T(==,!new)>(s: seq<T>): (r: seq<T>)
    ensures NoDup(r)
    ensures forall x :: x in r <==> x in s
    ensures |r| <= |s|
    decreases |s|
  {
    if s == [] then []
    else
      var init := s[..|s| - 1];
      var r := Dedup(init);
      assert s == init + [s[|s| - 1]];
      if s[|s| - 1] in r then r else r + [s[|s| - 1]]
  }

  /** Index of the first occurrence of `x` in `s`. */
  function FirstIndex<T(==)>(s: seq<T>, x: T): (k: nat)
    requires x in s
    ensures k < |s| && s[k] == x && x !in s[..k]
  {
    if s[0] == x then 0 else 1 + FirstIndex(s[1..], x)
  }

  lemma {:induction false} FilterLength<T(!new)>(s: seq<T>, p: T -> bool)
    ensures |Filter(s, p)| == Count(s, p)
  {
    if s != [] {
      FilterLength(s[1..], p);
    }
  }

  lemma {:induction false} FilterAppend<T(!new)>(a: seq<T>, b: seq<T>, p: T -> bool)
    ensures Filter(a + b, p) == Filter(a, p) + Filter(b, p)
  {
    if a == [] {
      assert a + b == b;
    } else {
      assert (a + b)[0] == a[0];
      assert (a + b)[1..] == a[1..] + b;
      FilterAppend(a[1..], b, p);
    }
  }

  /** A filter whose predicate holds of every element returns its input. */
  lemma {:induction false} FilterKeepsAll<T(!new)>(s: seq<T>, p: T -> bool)
    requires forall i :: 0 <= i < |s| ==> p(s[i])
    ensures Filter(s, p) == s
  {
    if s != [] {
      FilterKeepsAll(s[1..], p);
    }
  }

  /** Two predicates that agree on the elements give the same filter. */
  lemma {:induction false} FilterCongruent<T(!new)>(s: seq<T>, p: T -> bool, q: T -> bool)
    requires forall i :: 0 <= i < |s| ==> p(s[i]) == q(s[i])
    ensures Filter(s, p) == Filter(s, q)
  {
    if s != [] {
      FilterCongruent(s[1..], p, q);
    }
  }

  /** Filtering by a stronger predicate after a weaker one is filtering by
      the stronger one alone. */
  lemma {:induction false} FilterFilter<T(!new)>(s: seq<T>, p: T -> bool, q: T -> bool)
    requires forall i :: 0 <= i < |s| && q(s[i]) ==> p(s[i])
    ensures Filter(Filter(s, p), q) == Filter(s, q)
  {
    if s != [] {
      FilterFilter(s[1..], p, q);
    }
  }

  /** Filtering keeps the relative order, so distinct keys stay distinct. */
  lemma {:induction false} FilterPreservesDistinct<T(!new), K>(s: seq<T>, p: T -> bool, key: T -> K)
    requires DistinctBy(s, key)
    ensures DistinctBy(Filter(s, p), key)
  {
    if s != [] {
      var t := s[1..];
      assert DistinctBy(t, key) by {
        forall i, j | 0 <= i < j < |t| ensures key(t[i]) != key(t[j]) {
          assert t[i] == s[i + 1] && t[j] == s[j + 1];
        }
      }
      FilterPreservesDistinct(t, p, key);
      if p(s[0]) {
        var f := Filter(t, p);
        forall y | y in f ensures key(y) != key(s[0]) {
          var k :| 0 <= k < |t| && t[k] == y;
          assert s[k + 1] == y;
        }
        var r := [s[0]] + f;
        forall i, j | 0 <= i < j < |r| ensures key(r[i]) != key(r[j]) {
          if i == 0 {
            assert r[j] == f[j - 1] && r[j] in f;
          } else {
            assert r[i] == f[i - 1] && r[j] == f[j - 1];
          }
        }
      }
    }
  }

  lemma MapAppend<T, U>(a: seq<T>, b: seq<T>, f: T -> U)
    ensures Map(a + b, f) == Map(a, f) + Map(b, f)
  {
  }

  lemma {:induction false} FirstIndexAppend<T>(s: seq<T>, y: T, x: T)
    requires x in s
    ensures FirstIndex(s + [y], x) == FirstIndex(s, x)
  {
    if s[0] != x {
      assert (s + [y])[1..] == s[1..] + [y];
      FirstIndexAppend(s[1..], y, x);
    }
  }

  lemma FirstIndexOfNew<T>(s: seq<T>, y: T)
    requires y !in s
    ensures FirstIndex(s + [y], y) == |s|
  {
  }

  /** `Array.from(new Set(s))` lists the elements in the order of their first
      occurrence in `s`. */
  lemma {:induction false} DedupFirstOccurrenceOrder<T(!new)>(s: seq<T>)
    ensures forall i, j :: 0 <= i < j < |Dedup(s)| ==>
      FirstIndex(s, Dedup(s)[i]) < FirstIndex(s, Dedup(s)[j])
    decreases |s|
  {
    if s != [] {
      var init := s[..|s| - 1];
      var y := s[|s| - 1];
      assert s == init + [y];
      DedupFirstOccurrenceOrder(init);
      var r := Dedup(init);
      forall x | x in init ensures FirstIndex(s, x) == FirstIndex(init, x) {
        FirstIndexAppend(init, y, x);
      }
      if y !in r {
        FirstIndexOfNew(init, y);
        var d := r + [y];
        assert Dedup(s) == d;
        forall i, j | 0 <= i < j < |d| ensures FirstIndex(s, d[i]) < FirstIndex(s, d[j]) {
          assert d[i] == r[i] && r[i] in init;
          if j < |r| {
            assert d[j] == r[j] && r[j] in init;
          }
        }
      }
    }
  }

  /** In `Array.from(new Set(a.concat(b)))` every element that occurs in `a`
      comes before every element that occurs only in `b`. */
  lemma DedupPrefixFirst<T(!new)>(a: seq<T>, b: seq<T>)
    ensures forall i, j :: 0 <= i < j < |Dedup(a + b)| && Dedup(a + b)[j] in a ==> Dedup(a + b)[i] in a
  {
    var s := a + b;
    var d := Dedup(s);
    DedupFirstOccurrenceOrder(s);
    forall i, j | 0 <= i < j < |d| && d[j] in a ensures d[i] in a {
      var kj := FirstIndex(s, d[j]);
      var ka := FirstIndex(a, d[j]);
      assert s[ka] == d[j];
      var ki := FirstIndex(s, d[i]);
      assert ki < kj <= ka < |a|;
      assert a[ki] == s[ki] == d[i];
    }
  }
}
