/** Facts about sequences without repeated elements, shared by the outline
    (pairwise distinct points) and the candidate index (no duplicate keys). */
module SeqFacts {

  /** No element occurs twice. */
  predicate Distinct<T(==)>(s: seq<T>)
  {
    forall a, b :: 0 <= a < b < |s| ==> s[a] != s[b]
  }

  /** The set of elements of a sequence. */
  function Elems<T(==)>(s: seq<T>): set<T>
  {
    set x | x in s
  }

  /** A sequence has as many distinct elements as entries exactly when it has no repeats
      (this is how Python's `len(set(xs)) == len(xs)` tests uniqueness). */
  lemma {:induction false} DistinctIffCard<T>(s: seq<T>)
    ensures |Elems(s)| <= |s|
    ensures Distinct(s) <==> |Elems(s)| == |s|
  {
    if s != [] {
      var rest := s[1..];
      DistinctIffCard(rest);
      assert Elems(s) == {s[0]} + Elems(rest);
      if s[0] in rest {
        assert Elems(s) == Elems(rest);
        var b :| 0 <= b < |rest| && rest[b] == s[0];
        assert s[0] == s[b + 1];
        assert !Distinct(s);
      } else {
        assert |Elems(s)| == |Elems(rest)| + 1;
        if Distinct(rest) {
          forall a, b | 0 <= a < b < |s| ensures s[a] != s[b] {
            if a > 0 {
              assert s[a] == rest[a - 1] && s[b] == rest[b - 1];
            } else {
              assert s[b] == rest[b - 1];
            }
          }
        } else {
          var a, b :| 0 <= a < b < |rest| && rest[a] == rest[b];
          assert s[a + 1] == s[b + 1];
        }
      }
    }
  }

  /** In a sequence without repeats every element occurs exactly once. */
  lemma {:induction false} DistinctCounts<T>(s: seq<T>, x: T)
    requires Distinct(s)
    ensures multiset(s)[x] == (if x in s then 1 else 0)
  {
    if s != [] {
      assert s == [s[0]] + s[1..];
      assert Distinct(s[1..]) by {
        forall a, b | 0 <= a < b < |s[1..]| ensures s[1..][a] != s[1..][b] {
          assert s[1..][a] == s[a + 1] && s[1..][b] == s[b + 1];
        }
      }
      DistinctCounts(s[1..], x);
      assert s[0] !in s[1..] by {
        forall b | 0 <= b < |s[1..]| ensures s[1..][b] != s[0] {
          assert s[1..][b] == s[b + 1];
        }
      }
    }
  }

  /** A sequence whose elements, counted with repeats, are among those of a sequence without
      repeats (a permutation of it, or a part of one) has no repeats either. */
  lemma SubMultisetKeepsDistinct<T>(s: seq<T>, t: seq<T>)
    requires Distinct(s) && multiset(t) <= multiset(s)
    ensures Distinct(t)
  {
    forall a, b | 0 <= a < b < |t| ensures t[a] != t[b] {
      if t[a] == t[b] {
        var x := t[a];
        assert t == t[..b] + t[b..];
        assert x in t[..b] && x in t[b..];
        assert multiset(t)[x] == multiset(t[..b])[x] + multiset(t[b..])[x];
        DistinctCounts(s, x);
        assert false;
      }
    }
  }
}
