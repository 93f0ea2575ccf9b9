/** Python's `filter` and its stable `list.sort(key=...)`, as `CandidateTiles` and
    `TileSubset.partition_iter` use them. The sort is specified by what Python promises of
    it: the result is sorted by the key, is a permutation of the input, and elements with
    equal keys keep their relative order. */
module Sorting {

  /** `filter(p, s)`: the elements of `s` that satisfy `p`, in order. */
  function Filter<T(!new)>(p: T -> bool, s: seq<T>): (r: seq<T>)
    ensures |r| <= |s|
    ensures forall k :: 0 <= k < |r| ==> p(r[k])
  {
    if |s| == 0 then []
    else (if p(s[0]) then [s[0]] else []) + Filter(p, s[1..])
  }

  /** The filter keeps exactly the elements that satisfy the predicate. */
  lemma {:induction false} FilterContains<T(!new)>(p: T -> bool, s: seq<T>, x: T)
    ensures x in Filter(p, s) <==> x in s && p(x)
    decreases |s|
  {
    if |s| > 0 {
      FilterContains(p, s[1..], x);
      assert s == [s[0]] + s[1..];
    }
  }

  /** The complement of a predicate, as `itertools.filterfalse` uses it. */
  function Not<T(!new)>(p: T -> bool): (q: T -> bool)
    ensures forall x :: q(x) == !p(x)
  {
    x => !p(x)
  }

  lemma {:induction false} FilterConcat<T(!new)>(p: T -> bool, a: seq<T>, b: seq<T>)
    ensures Filter(p, a + b) == Filter(p, a) + Filter(p, b)
    decreases |a|
  {
    if |a| > 0 {
      FilterConcat(p, a[1..], b);
      assert (a + b)[0] == a[0] && (a + b)[1..] == a[1..] + b;
    } else {
      assert a + b == b;
    }
  }

  /** Every element of `s` goes to exactly one of `Filter(p, s)` and `Filter(Not(p), s)`. */
  lemma {:induction false} FilterPartition<T(!new)>(p: T -> bool, s: seq<T>)
    ensures multiset(Filter(p, s)) + multiset(Filter(Not(p), s)) == multiset(s)
    ensures |Filter(p, s)| + |Filter(Not(p), s)| == |s|
    decreases |s|
  {
    if |s| > 0 {
      FilterPartition(p, s[1..]);
      assert s == [s[0]] + s[1..];
      FilterCons(p, s[0], s[1..]);
      FilterCons(Not(p), s[0], s[1..]);
    }
  }

  /** A filter that keeps everything is the identity. */
  lemma {:induction false} FilterAll<T(!new)>(p: T -> bool, s: seq<T>)
    requires forall k :: 0 <= k < |s| ==> p(s[k])
    ensures Filter(p, s) == s
    decreases |s|
  {
    if |s| > 0 {
      FilterAll(p, s[1..]);
      assert s == [s[0]] + s[1..];
    }
  }

  /** Two elements that pass the filter keep their order in its result. */
  lemma FilterKeepsOrder<T(!new)>(p: T -> bool, s: seq<T>, i: int, j: int)
    requires 0 <= i < j < |s| && p(s[i]) && p(s[j])
    ensures var f := Filter(p, s);
      var i', j' := |Filter(p, s[..i])|, |Filter(p, s[..j])|;
      i' < j' < |f| && f[i'] == s[i] && f[j'] == s[j]
  {
    FilterAt(p, s, i);
    FilterAt(p, s, j);
    FilterConcat(p, s[..i], s[i..j]);
    assert s[..j] == s[..i] + s[i..j];
    assert s[i..j] == [s[i]] + s[i + 1..j];
  }

  /** An element that passes the filter sits in its result after the ones before it. */
  lemma FilterAt<T(!new)>(p: T -> bool, s: seq<T>, i: int)
    requires 0 <= i < |s| && p(s[i])
    ensures var k := |Filter(p, s[..i])|; k < |Filter(p, s)| && Filter(p, s)[k] == s[i]
  {
    assert s == s[..i] + ([s[i]] + s[i + 1..]);
    FilterConcat(p, s[..i], [s[i]] + s[i + 1..]);
    assert Filter(p, [s[i]] + s[i + 1..]) == [s[i]] + Filter(p, s[i + 1..]) by {
      assert ([s[i]] + s[i + 1..])[1..] == s[i + 1..];
    }
  }

  /** `s` is in ascending order of `key`. */
  predicate Sorted<T(!new)>(s: seq<T>, key: T -> int)
  {
    forall i, j :: 0 <= i < j < |s| ==> key(s[i]) <= key(s[j])
  }

  /** The elements whose key is `c`. */
  function KeyIs<T(!new)>(key: T -> int, c: int): (p: T -> bool)
    ensures forall x :: p(x) <==> key(x) == c
  {
    x => key(x) == c
  }

  /** `x` inserted before the first element whose key is not smaller. */
  function Insert<T(!new)>(x: T, s: seq<T>, key: T -> int): (r: seq<T>)
    ensures multiset(r) == multiset(s) + multiset{x}
    ensures |r| == |s| + 1
  {
    if |s| == 0 then [x]
    else if key(x) <= key(s[0]) then [x] + s
    else
      assert s == [s[0]] + s[1..];
      [s[0]] + Insert(x, s[1..], key)
  }

  /** `list.sort(key=key)`: a stable sort, written as an insertion sort from the back. */
  function StableSort<T(!new)>(s: seq<T>, key: T -> int): (r: seq<T>)
    ensures multiset(r) == multiset(s)
    ensures |r| == |s|
  {
    if |s| == 0 then []
    else
      assert s == [s[0]] + s[1..];
      Insert(s[0], StableSort(s[1..], key), key)
  }

  lemma {:induction false} InsertSorted<T(!new)>(x: T, s: seq<T>, key: T -> int)
    requires Sorted(s, key)
    ensures Sorted(Insert(x, s, key), key)
    ensures Insert(x, s, key)[0] == if |s| == 0 || key(x) <= key(s[0]) then x else s[0]
    decreases |s|
  {
    if |s| == 0 {
    } else if key(x) <= key(s[0]) {
      SortedCons(x, s, key);
    } else {
      SortedTail(s, key);
      InsertSorted(x, s[1..], key);
      var t := Insert(x, s[1..], key);
      assert key(s[0]) <= key(t[0]) by {
        if |s| > 1 {
          assert key(s[0]) <= key(s[1]);
        }
      }
      SortedCons(s[0], t, key);
    }
  }

  /** An element no greater than the head of a sorted sequence keeps it sorted in front. */
  lemma SortedCons<T(!new)>(y: T, t: seq<T>, key: T -> int)
    requires Sorted(t, key) && (|t| > 0 ==> key(y) <= key(t[0]))
    ensures Sorted([y] + t, key)
  {
    var r := [y] + t;
    forall i, j | 0 <= i < j < |r| ensures key(r[i]) <= key(r[j]) {
      assert r[j] == t[j - 1];
      if i > 0 {
        assert r[i] == t[i - 1];
      } else if j > 1 {
        assert key(t[0]) <= key(t[j - 1]);
      }
    }
  }

  /** The result of the sort is in ascending order of the key. */
  lemma {:induction false} StableSortSorted<T(!new)>(s: seq<T>, key: T -> int)
    ensures Sorted(StableSort(s, key), key)
    decreases |s|
  {
    if |s| > 0 {
      StableSortSorted(s[1..], key);
      InsertSorted(s[0], StableSort(s[1..], key), key);
    }
  }

  lemma {:induction false} InsertStable<T(!new)>(x: T, s: seq<T>, key: T -> int, c: int)
    requires Sorted(s, key)
    ensures Filter(KeyIs(key, c), Insert(x, s, key)) ==
      (if key(x) == c then [x] else []) + Filter(KeyIs(key, c), s)
    decreases |s|
  {
    var p := KeyIs(key, c);
    if |s| > 0 {
      if key(x) <= key(s[0]) {
        FilterCons(p, x, s);
      } else {
        SortedTail(s, key);
        InsertStable(x, s[1..], key, c);
        var t := Insert(x, s[1..], key);
        assert Insert(x, s, key) == [s[0]] + t;
        FilterCons(p, s[0], t);
        FilterCons(p, s[0], s[1..]);
        assert s == [s[0]] + s[1..];
        assert key(x) == c ==> !p(s[0]);
      }
    }
  }

  lemma SortedTail<T(!new)>(s: seq<T>, key: T -> int)
    requires |s| > 0 && Sorted(s, key)
    ensures Sorted(s[1..], key)
  {
    forall i, j | 0 <= i < j < |s| - 1 ensures key(s[1..][i]) <= key(s[1..][j]) {
      assert s[1..][i] == s[i + 1] && s[1..][j] == s[j + 1];
    }
  }

  lemma FilterCons<T(!new)>(p: T -> bool, x: T, s: seq<T>)
    ensures Filter(p, [x] + s) == (if p(x) then [x] else []) + Filter(p, s)
  {
    assert ([x] + s)[0] == x && ([x] + s)[1..] == s;
  }

  /** Stability: for every key value, the elements with that key keep their order. */
  lemma {:induction false} StableSortStable<T(!new)>(s: seq<T>, key: T -> int, c: int)
    ensures Filter(KeyIs(key, c), StableSort(s, key)) == Filter(KeyIs(key, c), s)
    decreases |s|
  {
    if |s| > 0 {
      StableSortStable(s[1..], key, c);
      StableSortSorted(s[1..], key);
      InsertStable(s[0], StableSort(s[1..], key), key, c);
    }
  }

  /** A sub-sequence picked by a filter from a sorted sequence is sorted. */
  lemma {:induction false} FilterSorted<T(!new)>(p: T -> bool, s: seq<T>, key: T -> int)
    requires Sorted(s, key)
    ensures Sorted(Filter(p, s), key)
    decreases |s|
  {
    if |s| > 0 {
      FilterSorted(p, s[1..], key);
      var t := Filter(p, s[1..]);
      if p(s[0]) {
        var f := [s[0]] + t;
        forall j | 0 < j < |f| ensures key(f[0]) <= key(f[j]) {
          assert f[j] == t[j - 1];
          FilterContains(p, s[1..], t[j - 1]);
          var k :| 0 <= k < |s[1..]| && s[1..][k] == t[j - 1];
          assert s[k + 1] == f[j];
        }
        forall i, j | 0 < i < j < |f| ensures key(f[i]) <= key(f[j]) {
          assert f[i] == t[i - 1] && f[j] == t[j - 1];
        }
      }
    }
  }

  /** A filter that keeps nothing gives the empty sequence. */
  lemma {:induction false} FilterNone<T(!new)>(p: T -> bool, s: seq<T>)
    requires forall k :: 0 <= k < |s| ==> !p(s[k])
    ensures Filter(p, s) == []
    decreases |s|
  {
    if |s| > 0 {
      FilterNone(p, s[1..]);
    }
  }

  /** Predicates that agree on the elements of `s` filter it alike. */
  lemma {:induction false} FilterSame<T(!new)>(p: T -> bool, q: T -> bool, s: seq<T>)
    requires forall k :: 0 <= k < |s| ==> p(s[k]) == q(s[k])
    ensures Filter(p, s) == Filter(q, s)
    decreases |s|
  {
    if |s| > 0 {
      FilterSame(p, q, s[1..]);
    }
  }

  /** Filtering by one predicate and then by another is filtering in the other order. */
  lemma {:induction false} FilterCommute<T(!new)>(p: T -> bool, q: T -> bool, s: seq<T>)
    ensures Filter(p, Filter(q, s)) == Filter(q, Filter(p, s))
    decreases |s|
  {
    if |s| > 0 {
      var x, rest := s[0], s[1..];
      FilterCommute(p, q, rest);
      var hp: seq<T> := if p(x) then [x] else [];
      var hq: seq<T> := if q(x) then [x] else [];
      FilterConcat(p, hq, Filter(q, rest));
      FilterConcat(q, hp, Filter(p, rest));
      FilterCons(p, x, []);
      FilterCons(q, x, []);
      assert [x] + [] == [x];
    }
  }

  /** An element occurs in a filter's result as often as in its input if it passes, and
      not at all otherwise. */
  lemma {:induction false} FilterCount<T(!new)>(p: T -> bool, s: seq<T>, x: T)
    ensures multiset(Filter(p, s))[x] == if p(x) then multiset(s)[x] else 0
    decreases |s|
  {
    if |s| > 0 {
      FilterCount(p, s[1..], x);
      assert s == [s[0]] + s[1..];
    }
  }

  /** Permuting the input permutes the filter's result. */
  lemma FilterPermutation<T(!new)>(p: T -> bool, s: seq<T>, t: seq<T>)
    requires multiset(s) == multiset(t)
    ensures multiset(Filter(p, s)) == multiset(Filter(p, t))
  {
    forall x ensures multiset(Filter(p, s))[x] == multiset(Filter(p, t))[x] {
      FilterCount(p, s, x);
      FilterCount(p, t, x);
    }
  }

  /** A sequence sorted by a key that is 0 on the elements satisfying `p` and 1 on the others
      lists all of the first kind, then all of the second. */
  lemma {:induction false} SortedSplit<T(!new)>(s: seq<T>, key: T -> int, p: T -> bool)
    requires Sorted(s, key)
    requires forall k :: 0 <= k < |s| ==> key(s[k]) == if p(s[k]) then 0 else 1
    ensures s == Filter(p, s) + Filter(Not(p), s)
    decreases |s|
  {
    if |s| > 0 {
      var x, rest := s[0], s[1..];
      SortedTail(s, key);
      SortedSplit(rest, key, p);
      assert s == [x] + rest;
      FilterCons(p, x, rest);
      FilterCons(Not(p), x, rest);
      if p(x) {
        assert Filter(p, s) + Filter(Not(p), s) == [x] + (Filter(p, rest) + Filter(Not(p), rest));
      } else {
        forall k | 0 <= k < |rest| ensures !p(rest[k]) {
          assert key(s[0]) <= key(s[k + 1]);
        }
        FilterNone(p, rest);
        FilterAll(Not(p), rest);
        assert Filter(p, s) + Filter(Not(p), s) == [x] + rest;
      }
    }
  }

  /** A sequence sorted by `k2` in which the elements of each `k2` value are sorted by `k1`
      is in lexicographic order of (`k2`, `k1`). */
  lemma LexOrder<T(!new)>(r: seq<T>, k1: T -> int, k2: T -> int)
    requires Sorted(r, k2)
    requires forall c :: Sorted(Filter(KeyIs(k2, c), r), k1)
    ensures forall i, j :: 0 <= i < j < |r| && k2(r[i]) == k2(r[j]) ==> k1(r[i]) <= k1(r[j])
  {
    forall i, j | 0 <= i < j < |r| && k2(r[i]) == k2(r[j]) ensures k1(r[i]) <= k1(r[j]) {
      FilterKeepsOrder(KeyIs(k2, k2(r[i])), r, i, j);
    }
  }

  /** Two stable sorts, by `k1` and then by `k2`, order by `k2` and then by `k1`: this is
      how `update_border_and_candidate_tiles` ranks candidates by contact length and then
      by distance to the centre. */
  lemma TwoPassSort<T(!new)>(s: seq<T>, k1: T -> int, k2: T -> int)
    ensures var r := StableSort(StableSort(s, k1), k2);
      Sorted(r, k2) &&
      forall i, j :: 0 <= i < j < |r| && k2(r[i]) == k2(r[j]) ==> k1(r[i]) <= k1(r[j])
  {
    var s1 := StableSort(s, k1);
    var r := StableSort(s1, k2);
    StableSortSorted(s1, k2);
    StableSortSorted(s, k1);
    forall c ensures Sorted(Filter(KeyIs(k2, c), r), k1) {
      StableSortStable(s1, k2, c);
      FilterSorted(KeyIs(k2, c), s1, k1);
    }
    LexOrder(r, k1, k2);
  }
}
