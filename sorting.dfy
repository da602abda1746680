/**
 * Generic sequence operations that the pipeline's library calls perform:
 * sorting by a total preorder (pandas `sort_values`), keeping the first
 * row per key (`drop_duplicates(keep='first')`) and row filtering.
 */
module Sorting {

  ghost predicate Sorted<T>(s: seq<T>, le: (T, T) -> bool)
  {
    forall i, j :: 0 <= i < j < |s| ==> le(s[i], s[j])
  }

  ghost predicate TotalPreorder<T(!new)>(le: (T, T) -> bool)
  {
    && (forall a, b :: le(a, b) || le(b, a))
    && (forall a, b, c :: le(a, b) && le(b, c) ==> le(a, c))
  }

  /** A lower bound of `x` and of every element of `s` bounds every element of a permutation of `s` plus `x`. */
  lemma LowerBoundKept<T>(a: T, x: T, s: seq<T>, r: seq<T>, le: (T, T) -> bool)
    requires le(a, x) && forall k :: 0 <= k < |s| ==> le(a, s[k])
    requires multiset(r) == multiset(s) + multiset{x}
    ensures forall k :: 0 <= k < |r| ==> le(a, r[k])
  {
    forall k | 0 <= k < |r| ensures le(a, r[k]) {
      assert r[k] in multiset(r);
      if r[k] != x {
        assert r[k] in multiset(s);
        var m :| 0 <= m < |s| && s[m] == r[k];
      }
    }
  }

  /** Inserts `x` before the first element it does not come after. */
  function Insert<T(==,!new)>(x: T, s: seq<T>, le: (T, T) -> bool): (r: seq<T>)
    requires TotalPreorder(le) && Sorted(s, le)
    ensures Sorted(r, le)
    ensures multiset(r) == multiset(s) + multiset{x}
  {
    if s == [] then [x]
    else if le(x, s[0]) then
      assert s == [s[0]] + s[1..];
      [x] + s
    else
      var rest := Insert(x, s[1..], le);
      assert s == [s[0]] + s[1..];
      LowerBoundKept(s[0], x, s[1..], rest, le);
      [s[0]] + rest
  }

  /** A sorted permutation of `s`. */
  function InsertionSort<T(==,!new)>(s: seq<T>, le: (T, T) -> bool): (r: seq<T>)
    requires TotalPreorder(le)
    ensures Sorted(r, le)
    ensures multiset(r) == multiset(s)
  {
    if s == [] then []
    else
      assert s == [s[0]] + s[1..];
      Insert(s[0], InsertionSort(s[1..], le), le)
  }

  /** Whether some element before position `n` of `s` has the same key as `s[n]`. */
  predicate SeenBefore<T, K(==)>(s: seq<T>, n: nat, key: T -> K)
    requires n < |s|
  {
    exists i :: 0 <= i < n && key(s[i]) == key(s[n])
  }

  /** The elements of `s` whose key did not occur earlier, in their order. */
  function KeepFirst<T, K(==)>(s: seq<T>, key: T -> K): seq<T>
  {
    if s == [] then []
    else if SeenBefore(s, |s| - 1, key) then KeepFirst(s[..|s| - 1], key)
    else KeepFirst(s[..|s| - 1], key) + [s[|s| - 1]]
  }

  lemma SeenBeforeInPrefix<T, K>(s: seq<T>, key: T -> K)
    requires s != []
    ensures forall n :: 0 <= n < |s| - 1 ==> (SeenBefore(s[..|s| - 1], n, key) <==> SeenBefore(s, n, key))
  {
    var init := s[..|s| - 1];
    forall n | 0 <= n < |s| - 1 ensures SeenBefore(init, n, key) <==> SeenBefore(s, n, key) {
      if SeenBefore(s, n, key) {
        var i :| 0 <= i < n && key(s[i]) == key(s[n]);
        assert key(init[i]) == key(init[n]);
      }
    }
  }

  /** Every kept element is an element of `s` whose key does not occur before it. */
  lemma {:induction false} KeepFirstOrigins<T, K>(s: seq<T>, key: T -> K)
    ensures forall m :: 0 <= m < |KeepFirst(s, key)| ==>
      exists n :: 0 <= n < |s| && s[n] == KeepFirst(s, key)[m] && !SeenBefore(s, n, key)
  {
    if s != [] {
      var init := s[..|s| - 1];
      KeepFirstOrigins(init, key);
      SeenBeforeInPrefix(s, key);
      var kept := KeepFirst(init, key);
      var r := KeepFirst(s, key);
      forall m | 0 <= m < |r|
        ensures exists n :: 0 <= n < |s| && s[n] == r[m] && !SeenBefore(s, n, key)
      {
        if m < |kept| {
          var n :| 0 <= n < |init| && init[n] == kept[m] && !SeenBefore(init, n, key);
          assert s[n] == r[m];
        } else {
          assert s[|s| - 1] == r[m];
        }
      }
    } else {
      assert KeepFirst(s, key) == [];
    }
  }

  /** No two kept elements share a key. */
  lemma {:induction false} KeepFirstUnique<T, K>(s: seq<T>, key: T -> K)
    ensures forall i, j :: 0 <= i < j < |KeepFirst(s, key)| ==>
      key(KeepFirst(s, key)[i]) != key(KeepFirst(s, key)[j])
  {
    if s != [] {
      var init := s[..|s| - 1];
      KeepFirstUnique(init, key);
      if !SeenBefore(s, |s| - 1, key) {
        var kept := KeepFirst(init, key);
        KeepFirstOrigins(init, key);
        forall m | 0 <= m < |kept| ensures key(kept[m]) != key(s[|s| - 1]) {
          var n :| 0 <= n < |init| && init[n] == kept[m] && !SeenBefore(init, n, key);
          assert s[n] == kept[m];
        }
      }
    }
  }

  /** Every key of `s` is the key of some kept element. */
  lemma {:induction false} KeepFirstCovers<T, K>(s: seq<T>, key: T -> K)
    ensures forall n :: 0 <= n < |s| ==>
      exists m :: 0 <= m < |KeepFirst(s, key)| && key(KeepFirst(s, key)[m]) == key(s[n])
  {
    if s != [] {
      var init := s[..|s| - 1];
      KeepFirstCovers(init, key);
      var kept := KeepFirst(init, key);
      var r := KeepFirst(s, key);
      forall n | 0 <= n < |s|
        ensures exists m :: 0 <= m < |r| && key(r[m]) == key(s[n])
      {
        if n < |s| - 1 {
          assert s[n] == init[n];
          var m :| 0 <= m < |kept| && key(kept[m]) == key(init[n]);
          assert r[m] == kept[m];
        } else if SeenBefore(s, n, key) {
          var i :| 0 <= i < n && key(s[i]) == key(s[n]);
          assert s[i] == init[i];
          var m :| 0 <= m < |kept| && key(kept[m]) == key(init[i]);
          assert r[m] == kept[m];
        } else {
          assert r[|r| - 1] == s[n];
        }
      }
      assert r == KeepFirst(s, key);
    }
  }

  /** The elements of `s` that satisfy `keep`, in their order. */
  function Filter<T(==)>(s: seq<T>, keep: T -> bool): (r: seq<T>)
    ensures forall y :: y in r ==> y in s && keep(y)
    ensures forall x :: x in s && keep(x) ==> x in r
    ensures multiset(r) <= multiset(s)
  {
    if s == [] then []
    else
      var init, last := s[..|s| - 1], s[|s| - 1];
      assert s == init + [last];
      var r := Filter(init, keep);
      if keep(last) then r + [last] else r
  }

  /** Filtering one more element appends it exactly when it passes. */
  lemma FilterSnoc<T>(s: seq<T>, x: T, keep: T -> bool)
    ensures Filter(s + [x], keep) == if keep(x) then Filter(s, keep) + [x] else Filter(s, keep)
  {
    assert (s + [x])[..|s + [x]| - 1] == s;
  }

  /** Filtering a prefix one element longer appends that element exactly when it passes. */
  lemma FilterPrefixStep<T>(s: seq<T>, j: nat, keep: T -> bool)
    requires j < |s|
    ensures Filter(s[..j + 1], keep) == if keep(s[j]) then Filter(s[..j], keep) + [s[j]] else Filter(s[..j], keep)
  {
    assert s[..j + 1][..j] == s[..j];
  }

  /** Each element that passes occurs in the filter as often as in `s`. */
  lemma {:induction false} FilterCounts<T>(s: seq<T>, keep: T -> bool, x: T)
    requires keep(x)
    ensures multiset(Filter(s, keep))[x] == multiset(s)[x]
  {
    if s != [] {
      var init := s[..|s| - 1];
      assert s == init + [s[|s| - 1]];
      FilterCounts(init, keep, x);
    }
  }

  /** Filtering a concatenation filters each part and keeps them in order. */
  lemma {:induction false} FilterAppend<T>(a: seq<T>, b: seq<T>, keep: T -> bool)
    ensures Filter(a + b, keep) == Filter(a, keep) + Filter(b, keep)
  {
    if b != [] {
      var init := b[..|b| - 1];
      assert b == init + [b[|b| - 1]];
      assert a + b == (a + init) + [b[|b| - 1]];
      FilterAppend(a, init, keep);
    } else {
      assert a + b == a;
    }
  }

  /** A sequence whose elements all pass is its own filter. */
  lemma {:induction false} FilterKeepsAll<T>(s: seq<T>, keep: T -> bool)
    requires forall x :: x in s ==> keep(x)
    ensures Filter(s, keep) == s
  {
    if s != [] {
      var init := s[..|s| - 1];
      assert s == init + [s[|s| - 1]];
      FilterKeepsAll(init, keep);
    }
  }

  /** An element at two positions occurs at least twice. */
  lemma TwiceCounted<T>(s: seq<T>, i: nat, j: nat)
    requires i < j < |s| && s[i] == s[j]
    ensures multiset(s)[s[i]] >= 2
  {
    assert s == s[..j] + [s[j]] + s[j + 1..];
    assert s[i] in s[..j];
  }

  /** In a sequence whose keys are distinct, an element occurs at most once. */
  lemma {:induction false} DistinctKeysCountedOnce<T, K>(s: seq<T>, key: T -> K, x: T)
    requires forall i, j :: 0 <= i < j < |s| ==> key(s[i]) != key(s[j])
    ensures multiset(s)[x] <= 1
  {
    if s != [] {
      var init := s[..|s| - 1];
      assert s == init + [s[|s| - 1]];
      DistinctKeysCountedOnce(init, key, x);
      if s[|s| - 1] == x {
        assert x !in init by {
          forall k | 0 <= k < |init| ensures init[k] != x {
            assert key(s[k]) != key(s[|s| - 1]);
          }
        }
      }
    }
  }

  /** Taking a sub-multiset (a filter, a permutation) keeps keys distinct. */
  lemma DistinctKeysSurvive<T, K>(s: seq<T>, t: seq<T>, key: T -> K)
    requires multiset(s) <= multiset(t)
    requires forall i, j :: 0 <= i < j < |t| ==> key(t[i]) != key(t[j])
    ensures forall i, j :: 0 <= i < j < |s| ==> key(s[i]) != key(s[j])
  {
    forall i, j | 0 <= i < j < |s| ensures key(s[i]) != key(s[j]) {
      assert s[i] in multiset(t) && s[j] in multiset(t);
      var p :| 0 <= p < |t| && t[p] == s[i];
      var q :| 0 <= q < |t| && t[q] == s[j];
      if p == q {
        TwiceCounted(s, i, j);
        DistinctKeysCountedOnce(t, key, s[i]);
      }
    }
  }

  /** A sub-multiset is no longer. */
  lemma SubMultisetShorter<T>(s: seq<T>, t: seq<T>)
    requires multiset(s) <= multiset(t)
    ensures |s| <= |t|
  {
    assert multiset(t) == multiset(s) + (multiset(t) - multiset(s));
    assert |multiset(t)| == |multiset(s)| + |multiset(t) - multiset(s)|;
  }
}
