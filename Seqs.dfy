/** Order-preserving selection from a sequence, the shape of every result bucket in the pipeline:
    a loop that appends the current element to a list when it satisfies a test. */
module Seqs {

  /** The elements of `s` that satisfy `p`, in their order in `s`. Defined from the end so that a
      loop appending element `i` extends `Filter(s[..i], p)` to `Filter(s[..i + 1], p)`. */
  function Filter<T>(s: seq<T>, p: T -> bool): seq<T>
    decreases |s|
  {
    if s == [] then []
    else Filter(s[..|s| - 1], p) + (if p(s[|s| - 1]) then [s[|s| - 1]] else [])
  }

  /** An element is selected exactly when it is in `s` and passes the test. */
  lemma {:induction false} FilterMembers<T>(s: seq<T>, p: T -> bool, x: T)
    ensures x in Filter(s, p) <==> x in s && p(x)
    decreases |s|
  {
    if s != [] {
      FilterMembers(s[..|s| - 1], p, x);
      LastSplit(s);
    }
  }

  /** The same, for every element at once. */
  lemma FilterMembersAll<T(!new)>(s: seq<T>, p: T -> bool)
    ensures forall x :: x in Filter(s, p) <==> x in s && p(x)
  {
    forall x ensures x in Filter(s, p) <==> x in s && p(x) {
      FilterMembers(s, p, x);
    }
  }

  lemma FilterAppend<T>(s: seq<T>, x: T, p: T -> bool)
    ensures Filter(s + [x], p) == Filter(s, p) + (if p(x) then [x] else [])
  {
    assert (s + [x])[..|s|] == s;
  }

  /** Selection distributes over concatenation. */
  lemma {:induction false} FilterConcat<T>(a: seq<T>, b: seq<T>, p: T -> bool)
    ensures Filter(a + b, p) == Filter(a, p) + Filter(b, p)
    decreases |b|
  {
    if b == [] {
      assert a + b == a;
    } else {
      var init, x := b[..|b| - 1], b[|b| - 1];
      assert b == init + [x];
      assert a + b == (a + init) + [x];
      FilterConcat(a, init, p);
      FilterAppend(a + init, x, p);
      FilterAppend(init, x, p);
    }
  }

  /** Selecting a single element. */
  lemma FilterSingle<T>(x: T, p: T -> bool)
    ensures Filter([x], p) == if p(x) then [x] else []
  {
    FilterAppend([], x, p);
    assert [] + [x] == [x];
  }

  /** `x` passes exactly one of the three bucket tests. */
  predicate ExactlyOne<T>(x: T, p: T -> bool, q: T -> bool, r: T -> bool) {
    if p(x) then !q(x) && !r(x) else q(x) != r(x)
  }

  lemma FilterStep<T>(s: seq<T>, p: T -> bool)
    requires s != []
    ensures multiset(Filter(s, p)) == multiset(Filter(s[..|s| - 1], p))
      + (if p(s[|s| - 1]) then multiset{s[|s| - 1]} else multiset{})
  {
  }

  lemma LastSplit<T>(s: seq<T>)
    requires s != []
    ensures multiset(s) == multiset(s[..|s| - 1]) + multiset{s[|s| - 1]}
  {
    assert s == s[..|s| - 1] + [s[|s| - 1]];
  }

  /** Three exclusive, exhaustive tests split `s` into three order-preserving buckets whose
      union, counted with multiplicity, is `s`. */
  lemma {:induction false} FilterPartition3<T>(s: seq<T>, p: T -> bool, q: T -> bool, r: T -> bool)
    requires forall k :: 0 <= k < |s| ==> ExactlyOne(s[k], p, q, r)
    ensures multiset(Filter(s, p)) + multiset(Filter(s, q)) + multiset(Filter(s, r)) == multiset(s)
    decreases |s|
  {
    if s != [] {
      var init, x := s[..|s| - 1], s[|s| - 1];
      assert forall k :: 0 <= k < |init| ==> init[k] == s[k];
      FilterPartition3(init, p, q, r);
      assert ExactlyOne(x, p, q, r);
      FilterStep(s, p);
      FilterStep(s, q);
      FilterStep(s, r);
      LastSplit(s);
    }
  }

  /** The three buckets' sizes add up to the number of inputs. */
  lemma FilterPartition3Size<T>(s: seq<T>, p: T -> bool, q: T -> bool, r: T -> bool)
    requires forall k :: 0 <= k < |s| ==> ExactlyOne(s[k], p, q, r)
    ensures |Filter(s, p)| + |Filter(s, q)| + |Filter(s, r)| == |s|
  {
    FilterPartition3(s, p, q, r);
    assert |multiset(s)| == |s|;
  }

  /** No two elements of `s` share a key. */
  predicate DistinctBy<T, K(==)>(s: seq<T>, key: T -> K) {
    forall i, j :: 0 <= i < j < |s| ==> key(s[i]) != key(s[j])
  }

  /** The keys of the elements of `s`. */
  function KeySet<T(==), K>(s: seq<T>, key: T -> K): set<K> {
    set x | x in s :: key(x)
  }

  /** When keys are distinct, the selected elements have as many keys as there are of them. */
  lemma {:induction false} FilterKeySetSize<T, K>(s: seq<T>, p: T -> bool, key: T -> K)
    requires DistinctBy(s, key)
    ensures |KeySet(Filter(s, p), key)| == |Filter(s, p)|
    decreases |s|
  {
    if s != [] {
      var init, x := s[..|s| - 1], s[|s| - 1];
      assert DistinctBy(init, key) by {
        forall i, j | 0 <= i < j < |init| ensures key(init[i]) != key(init[j]) {
          assert init[i] == s[i] && init[j] == s[j];
        }
      }
      FilterKeySetSize(init, p, key);
      var f := Filter(init, p);
      if p(x) {
        assert Filter(s, p) == f + [x];
        assert KeySet(f + [x], key) == KeySet(f, key) + {key(x)};
        assert key(x) !in KeySet(f, key) by {
          forall y | y in f ensures key(y) != key(x) {
            FilterMembers(init, p, y);
          }
        }
        assert |KeySet(f + [x], key)| == |KeySet(f, key)| + 1;
      } else {
        assert Filter(s, p) == f;
      }
    }
  }

  /** The test every element passes. */
  predicate Always<T>(x: T) {
    true
  }

  /** Selecting with `Always` keeps everything. */
  lemma {:induction false} FilterAlways<T>(s: seq<T>)
    ensures Filter(s, Always) == s
    decreases |s|
  {
    if s != [] {
      FilterAlways(s[..|s| - 1]);
      assert s[..|s| - 1] + [s[|s| - 1]] == s;
    }
  }

  /** The test no element passes: a two-way split is a three-way split with an empty third list. */
  predicate Never<T>(x: T) {
    false
  }

  lemma {:induction false} FilterNever<T>(s: seq<T>)
    ensures Filter(s, Never) == []
    decreases |s|
  {
    if s != [] {
      FilterNever(s[..|s| - 1]);
    }
  }

  /** A sequence with distinct keys has as many keys as elements. */
  lemma KeySetSize<T, K>(s: seq<T>, key: T -> K)
    requires DistinctBy(s, key)
    ensures |KeySet(s, key)| == |s|
  {
    FilterKeySetSize(s, Always, key);
    FilterAlways(s);
  }

  /** A list has at most as many keys as elements, and as many only when no key repeats. */
  lemma {:induction false} KeySetSizeBound<T, K>(s: seq<T>, key: T -> K)
    ensures |KeySet(s, key)| <= |s|
    ensures |KeySet(s, key)| == |s| ==> DistinctBy(s, key)
    decreases |s|
  {
    if s != [] {
      var init, x := s[..|s| - 1], s[|s| - 1];
      KeySetSizeBound(init, key);
      assert s == init + [x];
      assert KeySet(s, key) == KeySet(init, key) + {key(x)};
      if |KeySet(s, key)| == |s| {
        assert key(x) !in KeySet(init, key);
        assert |KeySet(init, key)| == |init|;
        forall i, j | 0 <= i < j < |s| ensures key(s[i]) != key(s[j]) {
          if j == |s| - 1 {
            assert s[i] == init[i];
            assert key(init[i]) in KeySet(init, key);
          } else {
            assert s[i] == init[i] && s[j] == init[j];
          }
        }
      }
    }
  }

  /** `f` applied to every element, in order: a list comprehension. */
  function Map<T, U>(s: seq<T>, f: T -> U): (r: seq<U>)
    ensures |r| == |s|
    ensures forall k :: 0 <= k < |s| ==> r[k] == f(s[k])
  {
    seq(|s|, k requires 0 <= k < |s| => f(s[k]))
  }
}
