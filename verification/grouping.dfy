/** List operations the report queries are built from: a `WHERE` filter, the
    distinct keys of a `GROUP BY` in first-occurrence order, the members of
    one group, and sums for `COUNT`/`AVG`. */
module Grouping {

  /** No value occurs twice. */
  predicate Distinct<K(==)>(s: seq<K>) {
    forall i, j :: 0 <= i < j < |s| ==> s[i] != s[j]
  }

  /** The elements that satisfy `keep`, in their original order, each as
      often as it occurs in `s`. */
  function Filter<T(==,!new)>(s: seq<T>, keep: T -> bool): (r: seq<T>)
    ensures |r| <= |s|
    ensures forall i :: 0 <= i < |r| ==> keep(r[i])
  {
    if |s| == 0 then []
    else Filter(s[..|s| - 1], keep) + (if keep(s[|s| - 1]) then [s[|s| - 1]] else [])
  }

  /** Each kept element occurs in the result as often as in the input. */
  lemma {:induction false} FilterCount<T(!new)>(s: seq<T>, keep: T -> bool)
    ensures forall x :: multiset(Filter(s, keep))[x] == if keep(x) then multiset(s)[x] else 0
  {
    if |s| > 0 {
      var init := s[..|s| - 1];
      assert s == init + [s[|s| - 1]];
      FilterCount(init, keep);
    }
  }

  lemma FilterIn<T(!new)>(s: seq<T>, keep: T -> bool)
    ensures forall x :: x in Filter(s, keep) <==> x in s && keep(x)
  {
    FilterCount(s, keep);
    forall x ensures x in Filter(s, keep) <==> x in s && keep(x) {
      assert x in Filter(s, keep) <==> x in multiset(Filter(s, keep));
      assert x in s <==> x in multiset(s);
    }
  }

  /** Filtering twice is filtering once when the second test is the narrower. */
  lemma {:induction false} FilterNarrower<T(!new)>(s: seq<T>, wide: T -> bool, narrow: T -> bool)
    requires forall x :: narrow(x) ==> wide(x)
    ensures Filter(Filter(s, wide), narrow) == Filter(s, narrow)
  {
    if |s| > 0 {
      var init := s[..|s| - 1];
      var x := s[|s| - 1];
      FilterNarrower(init, wide, narrow);
      var w := Filter(init, wide);
      if wide(x) {
        assert Filter(s, wide) == w + [x];
        assert (w + [x])[..|w|] == w;
      } else {
        assert Filter(s, wide) == w;
      }
    }
  }

  /** Two tests that agree everywhere filter alike. */
  lemma {:induction false} FilterEquivalent<T(!new)>(s: seq<T>, p: T -> bool, q: T -> bool)
    requires forall x :: p(x) == q(x)
    ensures Filter(s, p) == Filter(s, q)
  {
    if |s| > 0 {
      FilterEquivalent(s[..|s| - 1], p, q);
    }
  }

  /** A list none of whose elements pass filters to nothing. */
  lemma {:induction false} FilterNone<T(!new)>(s: seq<T>, keep: T -> bool)
    requires forall i :: 0 <= i < |s| ==> !keep(s[i])
    ensures Filter(s, keep) == []
  {
    if |s| > 0 {
      FilterNone(s[..|s| - 1], keep);
    }
  }

  /** A list all of whose elements pass is its own filtering. */
  lemma {:induction false} FilterAll<T(!new)>(s: seq<T>, keep: T -> bool)
    requires forall i :: 0 <= i < |s| ==> keep(s[i])
    ensures Filter(s, keep) == s
  {
    if |s| > 0 {
      FilterAll(s[..|s| - 1], keep);
      assert s == s[..|s| - 1] + [s[|s| - 1]];
    }
  }

  /** Filtering distributes over concatenation. */
  lemma {:induction false} FilterConcat<T(!new)>(a: seq<T>, b: seq<T>, keep: T -> bool)
    ensures Filter(a + b, keep) == Filter(a, keep) + Filter(b, keep)
  {
    if |b| == 0 {
      assert a + b == a;
      assert Filter(b, keep) == [];
    } else {
      var init := b[..|b| - 1];
      var x := b[|b| - 1];
      var tail := if keep(x) then [x] else [];
      FilterConcat(a, init, keep);
      assert b == init + [x];
      assert a + b == (a + init) + [x];
      FilterSnoc(a + init, x, keep);
      FilterSnoc(init, x, keep);
      calc {
        Filter(a + b, keep);
        Filter(a + init, keep) + tail;
        (Filter(a, keep) + Filter(init, keep)) + tail;
        Filter(a, keep) + (Filter(init, keep) + tail);
        Filter(a, keep) + Filter(b, keep);
      }
    }
  }

  lemma FilterSnoc<T(!new)>(s: seq<T>, x: T, keep: T -> bool)
    ensures Filter(s + [x], keep) == Filter(s, keep) + (if keep(x) then [x] else [])
  {
    assert (s + [x])[..|s|] == s;
  }

  /** The distinct keys of `s`, in order of first occurrence. */
  function Keys<T, K(==)>(s: seq<T>, key: T -> K): (r: seq<K>)
    ensures Distinct(r)
    ensures |r| <= |s|
  {
    if |s| == 0 then []
    else
      var prior := Keys(s[..|s| - 1], key);
      var k := key(s[|s| - 1]);
      if k in prior then prior else prior + [k]
  }

  /** The keys are exactly the values `key` takes on `s`. */
  lemma {:induction false} KeysCover<T, K>(s: seq<T>, key: T -> K)
    ensures forall i :: 0 <= i < |s| ==> key(s[i]) in Keys(s, key)
    ensures forall k :: k in Keys(s, key) ==> exists i :: 0 <= i < |s| && key(s[i]) == k
  {
    if |s| > 0 {
      var init := s[..|s| - 1];
      KeysCover(init, key);
      assert forall i :: 0 <= i < |init| ==> init[i] == s[i];
    }
  }

  /** The rows of the group with key `k`. */
  function Members<T(==,!new), K(==)>(s: seq<T>, key: T -> K, k: K): (r: seq<T>)
    ensures |r| <= |s|
    ensures forall i :: 0 <= i < |r| ==> key(r[i]) == k
  {
    Filter(s, x => key(x) == k)
  }

  /** A key has members exactly when it is one of the keys. */
  lemma MembersOfKey<T(!new), K>(s: seq<T>, key: T -> K, k: K)
    ensures |Members(s, key, k)| > 0 <==> k in Keys(s, key)
  {
    var m := Members(s, key, k);
    FilterIn(s, x => key(x) == k);
    KeysCover(s, key);
    if k in Keys(s, key) {
      var i :| 0 <= i < |s| && key(s[i]) == k;
      assert s[i] in m;
    }
  }

  /** Adding one row adds it to its own group only. */
  lemma MembersAppend<T(!new), K>(s: seq<T>, x: T, key: T -> K, k: K)
    ensures Members(s + [x], key, k) == Members(s, key, k) + (if key(x) == k then [x] else [])
  {
    FilterSnoc(s, x, y => key(y) == k);
  }

  /** The group sizes of the keys `ks`, added up. */
  function SumSizes<T(==,!new), K(==)>(s: seq<T>, key: T -> K, ks: seq<K>): nat {
    if |ks| == 0 then 0
    else SumSizes(s, key, ks[..|ks| - 1]) + |Members(s, key, ks[|ks| - 1])|
  }

  lemma {:induction false} SumSizesAppend<T(!new), K>(s: seq<T>, x: T, key: T -> K, ks: seq<K>)
    requires Distinct(ks)
    ensures SumSizes(s + [x], key, ks) == SumSizes(s, key, ks) + (if key(x) in ks then 1 else 0)
  {
    if |ks| > 0 {
      var init := ks[..|ks| - 1];
      var last := ks[|ks| - 1];
      SumSizesAppend(s, x, key, init);
      MembersAppend(s, x, key, last);
      assert ks == init + [last];
      assert key(x) in ks <==> key(x) in init || key(x) == last;
      assert key(x) == last ==> key(x) !in init;
    }
  }

  lemma SumSizesExtend<T(!new), K>(s: seq<T>, key: T -> K, ks: seq<K>, k: K)
    ensures SumSizes(s, key, ks + [k]) == SumSizes(s, key, ks) + |Members(s, key, k)|
  {
    assert (ks + [k])[..|ks|] == ks;
  }

  /** Every row lies in exactly one group: the group sizes add up to the
      number of rows. */
  lemma {:induction false} GroupsPartition<T(!new), K>(s: seq<T>, key: T -> K)
    ensures SumSizes(s, key, Keys(s, key)) == |s|
  {
    if |s| > 0 {
      var init := s[..|s| - 1];
      var x := s[|s| - 1];
      assert s == init + [x];
      GroupsPartition(init, key);
      var prior := Keys(init, key);
      SumSizesAppend(init, x, key, prior);
      if key(x) !in prior {
        SumSizesExtend(s, key, prior, key(x));
        MembersAppend(init, x, key, key(x));
        MembersOfKey(init, key, key(x));
      }
    }
  }

  /** The sum of `value` over `s`. */
  function Total<T>(s: seq<T>, value: T -> real): real {
    if |s| == 0 then 0.0 else Total(s[..|s| - 1], value) + value(s[|s| - 1])
  }

  /** The sum is bounded by the count times any common bound. */
  lemma {:induction false} TotalBounds<T>(s: seq<T>, value: T -> real, lo: real, hi: real)
    requires forall x :: x in s ==> lo <= value(x) <= hi
    ensures (|s| as real) * lo <= Total(s, value) <= (|s| as real) * hi
  {
    if |s| == 0 {
      assert (|s| as real) * lo == 0.0 && (|s| as real) * hi == 0.0;
    } else {
      var init := s[..|s| - 1];
      var last := s[|s| - 1];
      assert forall x :: x in init ==> x in s;
      TotalBounds(init, value, lo, hi);
      assert last in s;
      assert Total(s, value) == Total(init, value) + value(last);
      assert |s| as real == |init| as real + 1.0;
      BoundStep(|init| as real, Total(init, value), value(last), lo, hi);
    }
  }

  lemma BoundStep(n: real, t: real, v: real, lo: real, hi: real)
    requires n * lo <= t <= n * hi && lo <= v <= hi
    ensures (n + 1.0) * lo <= t + v <= (n + 1.0) * hi
  {
    assert (n + 1.0) * lo == n * lo + lo;
    assert (n + 1.0) * hi == n * hi + hi;
  }

  /** `AVG` over a group; zero for a key with no members. */
  function Mean<T(==,!new), K(==)>(s: seq<T>, key: T -> K, k: K, value: T -> real): real {
    var m := Members(s, key, k);
    if |m| == 0 then 0.0 else Total(m, value) / (|m| as real)
  }

  /** A mean lies within the bounds of what it averages. */
  lemma MeanBounds<T(!new), K>(s: seq<T>, key: T -> K, k: K, value: T -> real, lo: real, hi: real)
    requires |Members(s, key, k)| > 0
    requires forall x :: x in s ==> lo <= value(x) <= hi
    ensures lo <= Mean(s, key, k, value) <= hi
  {
    var m := Members(s, key, k);
    FilterIn(s, x => key(x) == k);
    assert forall x :: x in m ==> lo <= value(x) <= hi;
    TotalBounds(m, value, lo, hi);
    Quotient(Total(m, value), |m| as real, lo, hi);
  }

  lemma Quotient(t: real, n: real, lo: real, hi: real)
    requires n > 0.0 && n * lo <= t <= n * hi
    ensures lo <= t / n <= hi
  {
    assert t / n * n == t;
  }

  lemma {:induction false} TotalConcat<T>(a: seq<T>, b: seq<T>, value: T -> real)
    ensures Total(a + b, value) == Total(a, value) + Total(b, value)
  {
    if |b| > 0 {
      var init := b[..|b| - 1];
      TotalConcat(a, init, value);
      assert (a + b)[..|a + b| - 1] == a + init;
    } else {
      assert a + b == a;
    }
  }

  /** A sum does not depend on the order of its terms. */
  lemma {:induction false} TotalPermutation<T>(a: seq<T>, b: seq<T>, value: T -> real)
    requires multiset(a) == multiset(b)
    ensures Total(a, value) == Total(b, value)
    decreases |a|
  {
    if |a| == 0 {
      assert |multiset(b)| == 0;
    } else {
      var init := a[..|a| - 1];
      var x := a[|a| - 1];
      assert a == init + [x];
      assert x in multiset(b);
      var j :| 0 <= j < |b| && b[j] == x;
      var front, back := b[..j], b[j + 1..];
      assert b == front + [x] + back;
      RemoveMatched(a, b, init, x, front, back);
      TotalPermutation(init, front + back, value);
      TotalMiddle(front, x, back, value);
    }
  }

  lemma RemoveMatched<T>(a: seq<T>, b: seq<T>, init: seq<T>, x: T, front: seq<T>, back: seq<T>)
    requires multiset(a) == multiset(b)
    requires a == init + [x] && b == front + [x] + back
    ensures multiset(init) == multiset(front + back)
  {
    assert multiset(a) == multiset(init) + multiset{x};
    assert multiset(b) == multiset(front + back) + multiset{x};
    assert multiset(init) == multiset(a) - multiset{x};
    assert multiset(front + back) == multiset(b) - multiset{x};
  }

  lemma TotalMiddle<T>(front: seq<T>, x: T, back: seq<T>, value: T -> real)
    ensures Total(front + [x] + back, value) == Total(front + back, value) + value(x)
  {
    TotalConcat(front, back, value);
    TotalConcat(front + [x], back, value);
    TotalConcat(front, [x], value);
    assert Total([x], value) == value(x) by {
      assert [x][..0] == [];
    }
  }

  /** A sequence is duplicate-free exactly when no multiplicity exceeds one. */
  lemma DistinctMultiplicity<T>(s: seq<T>)
    ensures Distinct(s) <==> forall x :: multiset(s)[x] <= 1
  {
    if Distinct(s) {
      DistinctCountsOnce(s);
    } else {
      RepeatCountsTwice(s);
    }
  }

  lemma {:induction false} DistinctCountsOnce<T>(s: seq<T>)
    requires Distinct(s)
    ensures forall x :: multiset(s)[x] <= 1
  {
    if |s| > 0 {
      var rest := s[1..];
      assert s == [s[0]] + rest;
      assert Distinct(rest) by {
        forall i, j | 0 <= i < j < |rest| ensures rest[i] != rest[j] {
          assert rest[i] == s[i + 1] && rest[j] == s[j + 1];
        }
      }
      DistinctCountsOnce(rest);
      assert s[0] !in rest by {
        forall i | 0 <= i < |rest| ensures rest[i] != s[0] {
          assert rest[i] == s[i + 1];
        }
      }
      assert multiset(s) == multiset{s[0]} + multiset(rest);
      assert multiset(rest)[s[0]] == 0;
    }
  }

  lemma RepeatCountsTwice<T>(s: seq<T>)
    requires !Distinct(s)
    ensures exists x :: multiset(s)[x] > 1
  {
    var i, j :| 0 <= i < j < |s| && s[i] == s[j];
    var front, back := s[..j], s[j..];
    assert s == front + back;
    assert s[i] == front[i];
    assert s[j] == back[0];
    assert multiset(front)[s[i]] >= 1;
    assert multiset(back)[s[i]] >= 1;
    assert multiset(s)[s[i]] == multiset(front)[s[i]] + multiset(back)[s[i]];
  }

  /** Reordering keeps a sequence duplicate-free. */
  lemma DistinctPermutation<T>(a: seq<T>, b: seq<T>)
    requires multiset(a) == multiset(b)
    requires Distinct(a)
    ensures Distinct(b)
  {
    DistinctMultiplicity(a);
    DistinctMultiplicity(b);
  }
}
