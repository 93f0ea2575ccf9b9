/** `Boundary.common_segments` (boundary.py): the shared points of two outlines,
    joined into runs that are walked forwards on one outline and backwards on the other. */
module Segments {
  import opened Wrappers
  import opened Vectors
  import opened SeqFacts
  import opened Outlines
  import Modular

  /** A common segment `(i, j, L)`: `L + 1` shared points, from index `i` on the first
      outline and from index `j + L` back to `j` on the second one. */
  datatype Segment = Segment(i: int, j: int, len: int)

  /** The meaning of a segment: `a[(i + k) mod n] == b[(j + L - k) mod m]` for `0 <= k <= L`. */
  predicate Matches(a: seq<Vect>, b: seq<Vect>, s: Segment)
    requires |a| > 0 && |b| > 0
  {
    s.len >= 0 && forall k :: 0 <= k <= s.len ==> MatchesAt(a, b, s, k)
  }

  /** Point `k` of the segment is the same on both outlines. */
  predicate MatchesAt(a: seq<Vect>, b: seq<Vect>, s: Segment, k: int)
    requires |a| > 0 && |b| > 0
  {
    a[(s.i + k) % |a|] == b[(s.j + s.len - k) % |b|]
  }

  /** The index of `p` in `s`, as the point-to-index dictionary of `common_segments` gives
      it once the points are known to be unique. */
  function IndexOf(s: seq<Vect>, p: Vect): (k: nat)
    requires p in s
    ensures k < |s| && s[k] == p
  {
    if s[0] == p then 0 else 1 + IndexOf(s[1..], p)
  }

  /** Zero-length segments: well placed, in strictly increasing `i` order, each a shared point. */
  predicate PointRuns(a: seq<Vect>, b: seq<Vect>, r: seq<Segment>)
  {
    SharedPoints(a, b, r) && forall t, u :: 0 <= t < u < |r| ==> r[t].i < r[u].i
  }

  /** Zero-length segments, each a shared point within range. */
  predicate SharedPoints(a: seq<Vect>, b: seq<Vect>, r: seq<Segment>)
  {
    forall t :: 0 <= t < |r| ==>
      0 <= r[t].i < |a| && 0 <= r[t].j < |b| && r[t].len == 0 && a[r[t].i] == b[r[t].j]
  }

  /** The first-outline indices at which the segments start. */
  function Starts(r: seq<Segment>): set<int>
  {
    set t | 0 <= t < |r| :: r[t].i
  }

  lemma StartsCons(s: Segment, r: seq<Segment>)
    ensures Starts([s] + r) == {s.i} + Starts(r)
  {
    var c := [s] + r;
    assert c[0].i == s.i;
    forall x | x in Starts(c) ensures x in {s.i} + Starts(r) {
      var t :| 0 <= t < |c| && c[t].i == x;
      if t > 0 {
        assert r[t - 1].i == x;
      }
    }
    forall x | x in Starts(r) ensures x in Starts(c) {
      var t :| 0 <= t < |r| && r[t].i == x;
      assert c[t + 1].i == x;
    }
  }

  /** The common points with index at least `lo` in `a`, as the sorted list of
      triples `(i, j, 0)` that `common_segments` builds. */
  function ZeroRuns(a: seq<Vect>, b: seq<Vect>, lo: nat): (r: seq<Segment>)
    requires lo <= |a|
    ensures PointRuns(a, b, r)
    ensures forall t :: 0 <= t < |r| ==> lo <= r[t].i
    ensures forall i :: lo <= i < |a| && a[i] in b ==> i in Starts(r)
    decreases |a| - lo
  {
    if lo == |a| then []
    else
      var rest := ZeroRuns(a, b, lo + 1);
      if a[lo] in b then
        var r := [Segment(lo, IndexOf(b, a[lo]), 0)] + rest;
        PointRunsCons(a, b, r[0], rest);
        r
      else rest
  }

  /** A shared point in front of runs that start further on keeps them point runs. */
  lemma PointRunsCons(a: seq<Vect>, b: seq<Vect>, s: Segment, rest: seq<Segment>)
    requires 0 <= s.i < |a| && 0 <= s.j < |b| && s.len == 0 && a[s.i] == b[s.j]
    requires PointRuns(a, b, rest) && forall t :: 0 <= t < |rest| ==> s.i < rest[t].i
    ensures PointRuns(a, b, [s] + rest)
    ensures forall t :: 0 <= t < |[s] + rest| ==> s.i <= ([s] + rest)[t].i
    ensures Starts([s] + rest) == {s.i} + Starts(rest)
  {
    var r := [s] + rest;
    assert r[0] == s && r[1..] == rest;
    forall t | 0 < t < |r|
      ensures 0 <= r[t].i < |a| && 0 <= r[t].j < |b| && r[t].len == 0 && a[r[t].i] == b[r[t].j]
      ensures s.i < r[t].i
    {
      assert r[t] == rest[t - 1];
    }
    forall t, u | 0 <= t < u < |r| ensures r[t].i < r[u].i {
      assert r[u] == rest[u - 1];
      if t > 0 {
        assert r[t] == rest[t - 1];
      }
    }
    StartsCons(s, rest);
  }

  /** Zero run `t` continues the run that starts at `r[0]`: one step further on the
      first outline, one step back (modulo `m`) on the second. */
  predicate Extends(r: seq<Segment>, m: int, t: nat)
    requires m > 0 && 0 < t < |r|
  {
    r[t].i == r[0].i + t && r[t].j == (r[0].j - t) % m
  }

  /** The inner `while` loop of `recurse_join_segments`, from cursor `t` on: how many of the
      following zero runs continue the run that starts at `r[0]`. */
  function RunLength(r: seq<Segment>, m: int, t: nat): (L: nat)
    requires m > 0 && 1 <= t <= |r|
    ensures t - 1 <= L < |r|
    ensures forall u :: t <= u <= L ==> Extends(r, m, u)
    ensures L + 1 < |r| ==> !Extends(r, m, L + 1)
    decreases |r| - t
  {
    if t == |r| || !Extends(r, m, t) then t - 1 else RunLength(r, m, t + 1)
  }

  /** `recurse_join_segments`: the maximal run starting at the first zero run becomes the
      segment `(i, (j - L) mod m, L)`, and the rest is joined the same way. */
  function JoinRuns(r: seq<Segment>, m: int): (s: seq<Segment>)
    requires m > 0 || |r| == 0
    ensures forall t :: 0 <= t < |s| ==> s[t].len >= 0
    decreases |r|
  {
    if |r| == 0 then []
    else
      var L := RunLength(r, m, 1);
      [Segment(r[0].i, (r[0].j - L) % m, L)] + JoinRuns(r[L + 1..], m)
  }

  /** The zero runs a segment stands for: `(i + k, (j + L - k) mod m, 0)` for `0 <= k <= L`. */
  function Expand(s: Segment, m: int): (r: seq<Segment>)
    requires m > 0 && s.len >= 0
    ensures |r| == s.len + 1
  {
    seq(s.len + 1, k requires 0 <= k <= s.len => Segment(s.i + k, (s.j + s.len - k) % m, 0))
  }

  function ExpandAll(ss: seq<Segment>, m: int): seq<Segment>
    requires m > 0 && forall t :: 0 <= t < |ss| ==> ss[t].len >= 0
  {
    if |ss| == 0 then [] else Expand(ss[0], m) + ExpandAll(ss[1..], m)
  }

  /** Point `k` of the first joined segment is zero run `k`. */
  lemma ExpandRunAt(r: seq<Segment>, m: int, L: nat, k: nat)
    requires m > 0 && L < |r| && k <= L
    requires r[0].len == 0 && r[k].len == 0 && 0 <= r[0].j < m
    requires k > 0 ==> Extends(r, m, k)
    ensures Expand(Segment(r[0].i, (r[0].j - L) % m, L), m)[k] == r[k]
  {
    var x := r[0].j - L;
    Modular.ModOfSum(x, L - k, m);
    assert x + (L - k) == r[0].j - k;
    if k == 0 {
      Modular.ModSmall(r[0].j, m);
    }
  }

  /** The first joined segment expands to the run of zero runs it was built from, and
      the others are the rest joined. */
  lemma ExpandFirstRun(r: seq<Segment>, m: int)
    requires m > 0 && |r| > 0
    requires forall t :: 0 <= t < |r| ==> r[t].len == 0 && 0 <= r[t].j < m
    ensures |JoinRuns(r, m)| > 0
    ensures Expand(JoinRuns(r, m)[0], m) == r[..RunLength(r, m, 1) + 1]
    ensures JoinRuns(r, m)[1..] == JoinRuns(r[RunLength(r, m, 1) + 1..], m)
  {
    var L := RunLength(r, m, 1);
    var e := Expand(Segment(r[0].i, (r[0].j - L) % m, L), m);
    forall k | 0 <= k <= L ensures e[k] == r[k] {
      ExpandRunAt(r, m, L, k);
    }
  }

  /** Joining loses and invents nothing: expanding the joined segments gives back the
      sorted common points. */
  lemma {:induction false} JoinRunsExpand(r: seq<Segment>, m: int)
    requires m > 0
    requires forall t :: 0 <= t < |r| ==> r[t].len == 0 && 0 <= r[t].j < m
    ensures ExpandAll(JoinRuns(r, m), m) == r
    decreases |r|
  {
    if |r| > 0 {
      var L := RunLength(r, m, 1);
      var rest := r[L + 1..];
      JoinRunsExpand(rest, m);
      ExpandFirstRun(r, m);
      var js := JoinRuns(r, m);
      assert ExpandAll(js, m) == Expand(js[0], m) + ExpandAll(js[1..], m);
      assert r == r[..L + 1] + rest;
    }
  }

  /** Segments as `recurse_join_segments` leaves them: each lies inside `[0, n)` on the
      first outline without wrapping, and each ends before the next one starts. */
  predicate Ordered(ss: seq<Segment>)
  {
    forall t, u :: 0 <= t < u < |ss| ==> ss[t].i + ss[t].len < ss[u].i
  }

  /** A shared segment that does not wrap on the first outline. */
  predicate Straight(a: seq<Vect>, b: seq<Vect>, s: Segment)
  {
    |a| > 0 && |b| > 0 && Matches(a, b, s) && 0 <= s.i && s.i + s.len < |a| && 0 <= s.j < |b|
  }

  /** The first joined segment is a shared segment covering zero runs `0..L`. */
  lemma FirstRunSound(a: seq<Vect>, b: seq<Vect>, r: seq<Segment>)
    requires |b| > 0 && |r| > 0 && SharedPoints(a, b, r)
    ensures |JoinRuns(r, |b|)| > 0
    ensures Straight(a, b, JoinRuns(r, |b|)[0])
    ensures JoinRuns(r, |b|)[0].i == r[0].i
    ensures JoinRuns(r, |b|)[0].i + JoinRuns(r, |b|)[0].len == r[RunLength(r, |b|, 1)].i
  {
    var m := |b|;
    var L := RunLength(r, m, 1);
    ExpandFirstRun(r, m);
    var s := JoinRuns(r, m)[0];
    var e := Expand(s, m);
    forall k | 0 <= k <= s.len ensures MatchesAt(a, b, s, k) {
      assert e[k] == r[k];
      ExpandedMatch(a, b, s, k);
    }
    assert e[L] == r[L] && e[0] == r[0];
  }

  /** A point of a segment's expansion that is a shared point is a matching point. */
  lemma ExpandedMatch(a: seq<Vect>, b: seq<Vect>, s: Segment, k: int)
    requires |a| > 0 && |b| > 0 && 0 <= k <= s.len
    requires 0 <= Expand(s, |b|)[k].i < |a| && a[Expand(s, |b|)[k].i] == b[Expand(s, |b|)[k].j]
    ensures MatchesAt(a, b, s, k)
  {
    Modular.ModSmall(s.i + k, |a|);
  }

  /** Every joined segment is a shared segment that does not wrap, and starts no earlier
      than the zero runs it was joined from. */
  lemma {:induction false} JoinRunsStraight(a: seq<Vect>, b: seq<Vect>, r: seq<Segment>, lo: int)
    requires |b| > 0 && PointRuns(a, b, r)
    requires forall t :: 0 <= t < |r| ==> lo <= r[t].i
    ensures forall t :: 0 <= t < |JoinRuns(r, |b|)| ==>
      Straight(a, b, JoinRuns(r, |b|)[t]) && lo <= JoinRuns(r, |b|)[t].i
    decreases |r|
  {
    if |r| > 0 {
      var m := |b|;
      var L := RunLength(r, m, 1);
      var rest := r[L + 1..];
      PointRunsSuffix(a, b, r, L + 1);
      JoinRunsStraight(a, b, rest, lo);
      FirstRunSound(a, b, r);
      var head := Segment(r[0].i, (r[0].j - L) % m, L);
      assert JoinRuns(r, m) == [head] + JoinRuns(rest, m);
      StraightCons(a, b, head, JoinRuns(rest, m), lo);
    }
  }

  /** What is left after the first `k` of some point runs are point runs that start after
      the `k`-th. */
  lemma PointRunsSuffix(a: seq<Vect>, b: seq<Vect>, r: seq<Segment>, k: nat)
    requires PointRuns(a, b, r) && 0 < k <= |r|
    ensures PointRuns(a, b, r[k..])
    ensures k < |r| ==> r[k - 1].i < r[k].i
  {
    var rest := r[k..];
    forall t | 0 <= t < |rest|
      ensures 0 <= rest[t].i < |a| && 0 <= rest[t].j < |b| && rest[t].len == 0 && a[rest[t].i] == b[rest[t].j]
    {
      assert rest[t] == r[k + t];
    }
    forall t, u | 0 <= t < u < |rest| ensures rest[t].i < rest[u].i {
      assert rest[t] == r[k + t] && rest[u] == r[k + u];
    }
  }

  /** A straight first segment in front of straight segments, all starting no earlier
      than `lo`, gives straight segments starting no earlier than `lo`. */
  lemma StraightCons(a: seq<Vect>, b: seq<Vect>, s: Segment, tail: seq<Segment>, lo: int)
    requires Straight(a, b, s) && lo <= s.i
    requires forall t :: 0 <= t < |tail| ==> Straight(a, b, tail[t]) && lo <= tail[t].i
    ensures forall t :: 0 <= t < |[s] + tail| ==> Straight(a, b, ([s] + tail)[t]) && lo <= ([s] + tail)[t].i
  {
    var js := [s] + tail;
    forall t | 0 < t < |js| ensures Straight(a, b, js[t]) && lo <= js[t].i {
      assert js[t] == tail[t - 1];
    }
  }

  /** A segment that ends before the first of some ordered segments keeps them ordered. */
  lemma OrderedCons(s: Segment, tail: seq<Segment>)
    requires Ordered(tail) && forall t :: 0 <= t < |tail| ==> tail[t].len >= 0
    requires |tail| > 0 ==> s.i + s.len < tail[0].i
    ensures Ordered([s] + tail)
  {
    var js := [s] + tail;
    forall t, u | 0 <= t < u < |js| ensures js[t].i + js[t].len < js[u].i {
      assert js[u] == tail[u - 1];
      if t > 0 {
        assert js[t] == tail[t - 1];
      } else if u > 1 {
        assert tail[0].i + tail[0].len < tail[u - 1].i;
      }
    }
  }

  /** The joined segments come in increasing order, each ending before the next starts. */
  lemma {:induction false} JoinRunsOrdered(a: seq<Vect>, b: seq<Vect>, r: seq<Segment>)
    requires |b| > 0 && PointRuns(a, b, r)
    ensures Ordered(JoinRuns(r, |b|))
    decreases |r|
  {
    if |r| > 0 {
      var m := |b|;
      var L := RunLength(r, m, 1);
      var rest := r[L + 1..];
      PointRunsSuffix(a, b, r, L + 1);
      JoinRunsOrdered(a, b, rest);
      JoinRunsStraight(a, b, rest, r[L].i + 1);
      FirstRunSound(a, b, r);
      ExpandFirstRun(r, m);
      var js := JoinRuns(r, m);
      OrderedCons(js[0], js[1..]);
      assert js == [js[0]] + js[1..];
    }
  }

  /** The wrap test of `common_segments`, corrected: the last segment ends on the last point
      of the first outline, the first one starts on its first point, and on the second
      outline the point after the first segment's start comes right before the last's. */
  predicate WrapContiguous(segs: seq<Segment>, n: int, m: int)
    requires m > 0 && |segs| >= 2
  {
    var first, last := segs[0], segs[|segs| - 1];
    first.i == 0 && last.i + last.len == n - 1 && (last.j - first.j) % m == first.len + 1
  }

  /** The wrap test as boundary.py:175 writes it: the gap on the second outline is compared
      with `L_first + L_last + 1` instead of `L_first + 1`. */
  predicate WrapContiguousAsWritten(segs: seq<Segment>, n: int, m: int): (r: bool)
    requires m > 0 && |segs| >= 2
    ensures segs[|segs| - 1].len == 0 ==> (r <==> WrapContiguous(segs, n, m))
  {
    var first, last := segs[0], segs[|segs| - 1];
    first.i == 0 && last.i + last.len == n - 1 && (last.j - first.j) % m == first.len + last.len + 1
  }

  /** The fix-up step: drop the first segment and extend the last one across index 0. */
  function JoinAcrossWrap(segs: seq<Segment>): (r: seq<Segment>)
    requires |segs| >= 2
    ensures |r| == |segs| - 1
    ensures r[..|r| - 1] == segs[1..|segs| - 1]
  {
    var first, last := segs[0], segs[|segs| - 1];
    segs[1..|segs| - 1] + [Segment(last.i, first.j, first.len + last.len + 1)]
  }

  /** The fix-up drops the first segment and puts the joined one in place of the last. */
  lemma JoinAcrossWrapInPlace(segs: seq<Segment>)
    requires |segs| >= 2
    ensures var first, last := segs[0], segs[|segs| - 1];
      JoinAcrossWrap(segs) == segs[1..][|segs| - 2 := Segment(last.i, first.j, first.len + last.len + 1)]
  {
  }

  /** `r` is `segs` with its first segment folded into its last one. */
  predicate FoldedAcrossWrap(segs: seq<Segment>, r: seq<Segment>)
    requires |segs| >= 2
  {
    var first, last := segs[0], segs[|segs| - 1];
    |r| == |segs| - 1 && r[..|r| - 1] == segs[1..|segs| - 1]
    && r[|r| - 1].i == last.i && r[|r| - 1].len + 1 == (first.len + 1) + (last.len + 1)
  }

  /** The corrected wrap-around fix-up. It merges at most once: either nothing changes, or
      the first segment is dropped, the middle ones are kept, and the last one, from the same
      start, grows by the first segment's `L_first + 1` points. */
  function FixUp(segs: seq<Segment>, n: int, m: int): (r: seq<Segment>)
    requires m > 0 || |segs| == 0
    ensures |r| == |segs| ==> r == segs
    ensures |r| != |segs| ==> |segs| >= 2 && FoldedAcrossWrap(segs, r)
  {
    if |segs| >= 2 && WrapContiguous(segs, n, m) then JoinAcrossWrap(segs) else segs
  }

  /** The wrap-around fix-up as written; it merges in the same way, under its own test. */
  function FixUpAsWritten(segs: seq<Segment>, n: int, m: int): (r: seq<Segment>)
    requires m > 0 || |segs| == 0
    ensures |r| == |segs| ==> r == segs
    ensures |r| != |segs| ==> |segs| >= 2 && FoldedAcrossWrap(segs, r)
  {
    if |segs| >= 2 && WrapContiguousAsWritten(segs, n, m) then JoinAcrossWrap(segs) else segs
  }

  /** Segment `t` of the final result: shared, starting on both outlines within range,
      shorter than both outlines. */
  predicate Sound(a: seq<Vect>, b: seq<Vect>, s: Segment)
  {
    |a| > 0 && |b| > 0 && Matches(a, b, s) && 0 <= s.i < |a| && 0 <= s.j < |b|
    && s.len < |a| && s.len < |b|
  }

  /** A shared segment shorter than a first outline without repeated points is also
      shorter than the second outline: otherwise one point of the second outline would
      stand for two different points of the first. */
  lemma ShorterThanBoth(a: seq<Vect>, b: seq<Vect>, s: Segment)
    requires |a| > 0 && |b| > 0 && Distinct(a) && Matches(a, b, s) && s.len < |a|
    ensures s.len < |b|
  {
    var n, m := |a|, |b|;
    if s.len >= m {
      assert MatchesAt(a, b, s, 0) && MatchesAt(a, b, s, m);
      Modular.ModAddMultiple(s.j + s.len - m, 1, m);
      assert s.j + s.len - m + 1 * m == s.j + s.len;
      Modular.ModOfSum(s.i, m, n);
      Modular.ModOfSum(s.i, 0, n);
      var x := s.i % n;
      if x + m < n {
        Modular.ModSmall(x + m, n);
      } else {
        Modular.ModAddMultiple(x + m - n, 1, n);
        assert x + m - n + 1 * n == x + m;
        Modular.ModSmall(x + m - n, n);
      }
      assert false;
    }
  }


  /** A straight shared segment is a sound one. */
  lemma StraightIsSound(a: seq<Vect>, b: seq<Vect>, s: Segment)
    requires Distinct(a) && Straight(a, b, s)
    ensures Sound(a, b, s)
  {
    ShorterThanBoth(a, b, s);
  }

  /** The joined segment agrees with the last segment on its first `L_last + 1` points. */
  lemma AcrossWrapLastPart(a: seq<Vect>, b: seq<Vect>, first: Segment, last: Segment, k: int)
    requires |a| > 0 && |b| > 0 && Matches(a, b, last) && 0 <= k <= last.len
    requires (last.j - first.j) % |b| == first.len + 1
    ensures MatchesAt(a, b, Segment(last.i, first.j, first.len + last.len + 1), k)
  {
    var m := |b|;
    assert MatchesAt(a, b, last, k);
    var q := (last.j - first.j) / m;
    assert last.j - first.j == q * m + first.len + 1;
    Modular.ModAddMultiple(first.j + first.len + last.len + 1 - k, q, m);
    assert first.j + first.len + last.len + 1 - k + q * m == last.j + last.len - k;
  }

  /** After the first `L_last + 1` points, the joined segment continues with the first segment. */
  lemma AcrossWrapFirstPart(a: seq<Vect>, b: seq<Vect>, first: Segment, last: Segment, k: int)
    requires |a| > 0 && |b| > 0 && Matches(a, b, first) && first.i == 0 && first.len < |a|
    requires last.i + last.len == |a| - 1 && 0 <= k - last.len - 1 <= first.len
    ensures MatchesAt(a, b, Segment(last.i, first.j, first.len + last.len + 1), k)
  {
    var n, k' := |a|, k - last.len - 1;
    assert MatchesAt(a, b, first, k');
    assert last.i + k == k' + 1 * n;
    Modular.ModAddMultiple(k', 1, n);
    assert first.j + (first.len + last.len + 1) - k == first.j + first.len - k';
  }

  /** The corrected fix-up joins two segments that really are contiguous across index 0. */
  lemma JoinAcrossWrapMatches(a: seq<Vect>, b: seq<Vect>, first: Segment, last: Segment)
    requires Straight(a, b, first) && Straight(a, b, last)
    requires first.i == 0 && last.i + last.len == |a| - 1 && (last.j - first.j) % |b| == first.len + 1
    ensures Matches(a, b, Segment(last.i, first.j, first.len + last.len + 1))
  {
    var joined := Segment(last.i, first.j, first.len + last.len + 1);
    forall k | 0 <= k <= joined.len ensures MatchesAt(a, b, joined, k) {
      if k <= last.len {
        AcrossWrapLastPart(a, b, first, last, k);
      } else {
        AcrossWrapFirstPart(a, b, first, last, k);
      }
    }
  }

  /** The corrected wrap test says exactly that the runs continue each other: past the
      last run's end, point `n - 1` of the first outline (point `last.j` of the second), the
      first outline's point 0 is the second outline's point `last.j - 1`. */
  lemma WrapContiguousIffContinues(a: seq<Vect>, b: seq<Vect>, first: Segment, last: Segment)
    requires Straight(a, b, first) && Straight(a, b, last) && Distinct(b)
    requires first.i == 0 && last.i + last.len == |a| - 1 && first.len + 1 < |b|
    ensures (last.j - first.j) % |b| == first.len + 1 <==> a[0] == b[(last.j - 1) % |b|]
  {
    var m := |b|;
    var x, y := (first.j + first.len) % m, (last.j - 1) % m;
    assert MatchesAt(a, b, first, 0);
    assert a[0] == b[x];
    if (last.j - first.j) % m == first.len + 1 {
      var q := (last.j - first.j) / m;
      assert last.j - 1 == first.j + first.len + q * m;
      Modular.ModAddMultiple(first.j + first.len, q, m);
    }
    if a[0] == b[y] {
      assert x == y;
      var q1, q2 := (last.j - 1) / m, (first.j + first.len) / m;
      assert last.j - 1 == q1 * m + y && first.j + first.len == q2 * m + x;
      assert last.j - first.j == (q1 - q2) * m + (first.len + 1);
      Modular.ModUnique(last.j - first.j, q1 - q2, first.len + 1, m);
    }
  }

  /** After the corrected fix-up every segment is sound and the starts still increase. */
  lemma FixUpSound(a: seq<Vect>, b: seq<Vect>, segs: seq<Segment>)
    requires |b| > 0 && Distinct(a) && Ordered(segs)
    requires forall t :: 0 <= t < |segs| ==> Straight(a, b, segs[t])
    ensures forall t :: 0 <= t < |FixUp(segs, |a|, |b|)| ==> Sound(a, b, FixUp(segs, |a|, |b|)[t])
    ensures forall t, u :: 0 <= t < u < |FixUp(segs, |a|, |b|)| ==>
      FixUp(segs, |a|, |b|)[t].i < FixUp(segs, |a|, |b|)[u].i
  {
    var r := FixUp(segs, |a|, |b|);
    if |segs| >= 2 && WrapContiguous(segs, |a|, |b|) {
      var first, last := segs[0], segs[|segs| - 1];
      var joined := Segment(last.i, first.j, first.len + last.len + 1);
      assert Straight(a, b, first) && Straight(a, b, last);
      assert first.i + first.len < last.i;
      JoinAcrossWrapMatches(a, b, first, last);
      ShorterThanBoth(a, b, joined);
      assert r == segs[1..|segs| - 1] + [joined];
      forall t | 0 <= t < |r| ensures Sound(a, b, r[t]) {
        if t < |r| - 1 {
          assert r[t] == segs[t + 1];
          StraightIsSound(a, b, segs[t + 1]);
        }
      }
      forall t, u | 0 <= t < u < |r| ensures r[t].i < r[u].i {
        assert r[t] == segs[t + 1];
        if u < |r| - 1 {
          assert r[u] == segs[u + 1];
        }
      }
    } else {
      forall t | 0 <= t < |r| ensures Sound(a, b, r[t]) {
        StraightIsSound(a, b, segs[t]);
      }
    }
  }


  /** The runs `common_segments` joins before its wrap-around fix-up. */
  function JoinedRuns(a: Outline, b: Outline): (js: seq<Segment>)
    ensures |b.points| == 0 ==> js == []
    ensures |b.points| > 0 ==> Ordered(js) && forall t :: 0 <= t < |js| ==> Straight(a.points, b.points, js[t])
  {
    var zs := ZeroRuns(a.points, b.points, 0);
    assert |b.points| == 0 ==> zs == [] by {
      if |zs| > 0 {
        assert 0 <= zs[0].j < |b.points|;
      }
    }
    var js := JoinRuns(zs, |b.points|);
    assert |b.points| > 0 ==> Ordered(js) && forall t :: 0 <= t < |js| ==> Straight(a.points, b.points, js[t]) by {
      if |b.points| > 0 {
        JoinRunsStraight(a.points, b.points, zs, 0);
        JoinRunsOrdered(a.points, b.points, zs);
      }
    }
    js
  }

  /** `common_segments` with the corrected wrap-around test. It fails exactly when one of
      the outlines repeats a point; otherwise every segment it returns is shared by the two
      outlines, starts within range on both and is shorter than both, and the segments
      come in strictly increasing order of their start on the first outline. */
  function CommonSegmentsOf(a: Outline, b: Outline): (r: Checked<seq<Segment>>)
    requires a.Valid() && b.Valid()
    ensures r.AssertionFailure? <==> !Distinct(a.points) || !Distinct(b.points)
    ensures r.Ok? ==> forall t :: 0 <= t < |r.value| ==> Sound(a.points, b.points, r.value[t])
    ensures r.Ok? ==> forall t, u :: 0 <= t < u < |r.value| ==> r.value[t].i < r.value[u].i
  {
    if !IsUniquePoints(a) || !IsUniquePoints(b) then AssertionFailure
    else
      var js := JoinedRuns(a, b);
      assert |b.points| > 0 ==> var r := FixUp(js, |a.points|, |b.points|);
        (forall t :: 0 <= t < |r| ==> Sound(a.points, b.points, r[t]))
        && (forall t, u :: 0 <= t < u < |r| ==> r[t].i < r[u].i) by {
        if |b.points| > 0 {
          FixUpSound(a.points, b.points, js);
        }
      }
      Ok(FixUp(js, |a.points|, |b.points|))
  }

  /** `common_segments` exactly as written, with the wrap-around test of boundary.py:175.
      It agrees with the corrected version whenever the last joined run is a single point. */
  function CommonSegmentsAsWritten(a: Outline, b: Outline): (r: Checked<seq<Segment>>)
    requires a.Valid() && b.Valid()
    ensures r.AssertionFailure? <==> !Distinct(a.points) || !Distinct(b.points)
    ensures var js := JoinedRuns(a, b); |js| == 0 || js[|js| - 1].len == 0 ==> r == CommonSegmentsOf(a, b)
  {
    if !IsUniquePoints(a) || !IsUniquePoints(b) then AssertionFailure
    else Ok(FixUpAsWritten(JoinedRuns(a, b), |a.points|, |b.points|))
  }


  /** Point `k` of segment `s` is point `x` of the first outline and point `y` of the second. */
  predicate OnSegment(n: int, m: int, s: Segment, k: int, x: int, y: int)
    requires n > 0 && m > 0
  {
    0 <= k <= s.len && (s.i + k) % n == x && (s.j + s.len - k) % m == y
  }

  /** Every zero run of an expansion comes from point `k` of one of the expanded segments. */
  lemma {:induction false} ExpandAllMember(ss: seq<Segment>, m: int, p: int) returns (t: nat, k: nat)
    requires m > 0 && forall u :: 0 <= u < |ss| ==> ss[u].len >= 0
    requires 0 <= p < |ExpandAll(ss, m)|
    ensures t < |ss| && k <= ss[t].len && ExpandAll(ss, m)[p] == Expand(ss[t], m)[k]
    decreases |ss|
  {
    var head := Expand(ss[0], m);
    assert ExpandAll(ss, m) == head + ExpandAll(ss[1..], m);
    if p < |head| {
      t, k := 0, p;
    } else {
      var t' : nat;
      t', k := ExpandAllMember(ss[1..], m, p - |head|);
      t := t' + 1;
    }
  }

  /** A shared point is one of the zero runs. */
  lemma ZeroRunAt(a: seq<Vect>, b: seq<Vect>, x: int, y: int) returns (p: nat)
    requires Distinct(b) && 0 <= x < |a| && 0 <= y < |b| && a[x] == b[y]
    ensures p < |ZeroRuns(a, b, 0)| && ZeroRuns(a, b, 0)[p] == Segment(x, y, 0)
  {
    var zs := ZeroRuns(a, b, 0);
    assert x in Starts(zs);
    p :| 0 <= p < |zs| && zs[p].i == x;
    assert b[zs[p].j] == b[y];
  }

  /** A zero run lies on the segment whose expansion holds it. */
  lemma ExpandedRunOn(a: seq<Vect>, b: seq<Vect>, s: Segment, k: nat, x: int, y: int)
    requires Straight(a, b, s) && k <= s.len && Expand(s, |b|)[k] == Segment(x, y, 0)
    ensures OnSegment(|a|, |b|, s, k, x, y)
  {
    Modular.ModSmall(s.i + k, |a|);
  }

  /** A shared point lies on one of the joined runs. */
  lemma JoinedRunsComplete(a: Outline, b: Outline, x: int, y: int) returns (t: nat, k: nat)
    requires Distinct(b.points) && 0 <= x < |a.points| && 0 <= y < |b.points|
    requires a.points[x] == b.points[y]
    ensures t < |JoinedRuns(a, b)| && OnSegment(|a.points|, |b.points|, JoinedRuns(a, b)[t], k, x, y)
  {
    var m := |b.points|;
    var zs := ZeroRuns(a.points, b.points, 0);
    var js := JoinedRuns(a, b);
    assert js == JoinRuns(zs, m);
    var p := ZeroRunAt(a.points, b.points, x, y);
    JoinRunsExpand(zs, m);
    t, k := ExpandAllMember(js, m, p);
    ExpandedRunOn(a.points, b.points, js[t], k, x, y);
  }

  /** The corrected fix-up keeps every point of every segment: after the join, the points of
      the first segment continue the last one across index 0. */
  lemma FixUpComplete(n: int, m: int, segs: seq<Segment>, t: nat, k: int, x: int, y: int)
    returns (t': nat, k': int)
    requires n > 0 && m > 0 && forall u :: 0 <= u < |segs| ==> segs[u].len >= 0
    requires t < |segs| && OnSegment(n, m, segs[t], k, x, y)
    ensures t' < |FixUp(segs, n, m)| && OnSegment(n, m, FixUp(segs, n, m)[t'], k', x, y)
  {
    if |segs| >= 2 && WrapContiguous(segs, n, m) {
      var first, last := segs[0], segs[|segs| - 1];
      var joined := Segment(last.i, first.j, first.len + last.len + 1);
      var r := JoinAcrossWrap(segs);
      assert r[|r| - 1] == joined;
      if t == 0 {
        t', k' := |r| - 1, last.len + 1 + k;
        assert joined.i + k' == k + 1 * n;
        Modular.ModAddMultiple(k, 1, n);
        assert joined.j + joined.len - k' == first.j + first.len - k;
      } else if t == |segs| - 1 {
        t', k' := |r| - 1, k;
        var q := (last.j - first.j) / m;
        assert last.j - first.j == q * m + first.len + 1;
        Modular.ModAddMultiple(joined.j + joined.len - k, q, m);
        assert joined.j + joined.len - k + q * m == last.j + last.len - k;
      } else {
        t', k' := t - 1, k;
        assert r[t - 1] == segs[t];
      }
    } else {
      t', k' := t, k;
    }
  }

  /** Nothing shared is lost: every point the two outlines have in common is a point of one
      of the segments `common_segments` returns. */
  lemma CommonSegmentsComplete(a: Outline, b: Outline)
    requires a.Valid() && b.Valid() && CommonSegmentsOf(a, b).Ok?
    ensures var r := CommonSegmentsOf(a, b).value;
      forall x, y :: 0 <= x < |a.points| && 0 <= y < |b.points| && a.points[x] == b.points[y] ==>
        exists t, k :: 0 <= t < |r| && OnSegment(|a.points|, |b.points|, r[t], k, x, y)
  {
    var r := CommonSegmentsOf(a, b).value;
    CommonSegmentsUnfold(a, b);
    forall x, y | 0 <= x < |a.points| && 0 <= y < |b.points| && a.points[x] == b.points[y]
      ensures exists t, k :: 0 <= t < |r| && OnSegment(|a.points|, |b.points|, r[t], k, x, y)
    {
      var t, k := JoinedRunsComplete(a, b, x, y);
      var t', k' := FixUpComplete(|a.points|, |b.points|, JoinedRuns(a, b), t, k, x, y);
      assert OnSegment(|a.points|, |b.points|, r[t'], k', x, y);
    }
  }


  /** The wrap test as written joins two runs that are not contiguous. The first outline is
      `[P, Y, Q, R]`, the second is the unit tile `[P, X, R, Q]` that `get_tile(0, 0)` builds; the joined runs
      are `(0, 0, 0)` (the point `P`) and `(2, 2, 1)` (`Q, R` against `R, Q`). On the second
      outline the point before `R`'s successor is not `P`, so the runs do not continue each
      other, yet `(2 - 0) mod 4 == 0 + 1 + 1` passes and they are fused into `(2, 0, 2)`,
      whose first point is `Q` on one outline and `R` on the other. */
  lemma WrapTestAsWrittenCounterexample(a: Outline, b: Outline)
    requires a == Outline([Vect(0, 0), Vect(5, 5), Vect(0, 1), Vect(1, 1)], [None, None, None, None])
    requires b == Outline([Vect(0, 0), Vect(1, 0), Vect(1, 1), Vect(0, 1)], [None, None, None, None])
    ensures CommonSegmentsAsWritten(a, b) == Ok([Segment(2, 0, 2)])
    ensures !Matches(a.points, b.points, Segment(2, 0, 2))
    ensures CommonSegmentsOf(a, b) == Ok([Segment(0, 0, 0), Segment(2, 2, 1)])
  {
    CounterexampleUnique(a, b);
    CommonSegmentsUnfold(a, b);
    CounterexampleRuns(a, b);
    CounterexampleFixUps(JoinedRuns(a, b));
    CounterexampleMismatch(a.points, b.points);
  }

  /** The wrap test as written also misses runs that are contiguous, on a map the game
      reaches. Laying tiles at `(0, 0)`, `(1, 0)`, `(0, 1)`, `(0, 2)` and `(1, 2)` in that
      order leaves the border `NotchBorder()`, with the free cell `(1, 1)` in a notch; the
      second outline is `get_tile(1, 1)`. The joined runs are `(0, 2, 1)` (the points
      `(1, 2), (2, 2)`) and `(10, 0, 1)` (`(2, 1), (1, 1)`), and they continue each other
      across index 0; as written the test asks for a gap of `1 + 1 + 1` instead of `1 + 1` and
      keeps them apart, so the cell gets two segments instead of `(10, 2, 3)`. */
  lemma WrapTestAsWrittenNotchCounterexample(a: Outline, b: Outline)
    requires a == Outline(NotchBorder(), [None, None, None, None, None, None, None, None, None, None, None, None])
    requires b == Outline([Vect(1, 1), Vect(2, 1), Vect(2, 2), Vect(1, 2)], [None, None, None, None])
    ensures CommonSegmentsAsWritten(a, b) == Ok([Segment(0, 2, 1), Segment(10, 0, 1)])
    ensures CommonSegmentsOf(a, b) == Ok([Segment(10, 2, 3)])
    ensures Matches(a.points, b.points, Segment(10, 2, 3))
  {
    NotchUnique(a, b);
    CommonSegmentsUnfold(a, b);
    NotchRuns(a, b);
    NotchFixUps(JoinedRuns(a, b));
    NotchJoinedMatches(a.points, b.points);
  }

  /** The border of the five tiles `(0, 0)`, `(1, 0)`, `(0, 1)`, `(0, 2)`, `(1, 2)`, as the
      merges leave it. */
  function NotchBorder(): (r: seq<Vect>)
    ensures |r| == 12
  {
    [Vect(1, 2), Vect(2, 2), Vect(2, 3), Vect(1, 3), Vect(0, 3), Vect(0, 2),
     Vect(0, 1), Vect(0, 0), Vect(1, 0), Vect(2, 0), Vect(2, 1), Vect(1, 1)]
  }

  lemma NotchUnique(a: Outline, b: Outline)
    requires a == Outline(NotchBorder(), [None, None, None, None, None, None, None, None, None, None, None, None])
    requires b == Outline([Vect(1, 1), Vect(2, 1), Vect(2, 2), Vect(1, 2)], [None, None, None, None])
    ensures IsUniquePoints(a) && IsUniquePoints(b)
  {
    assert Distinct(a.points);
    assert Distinct(b.points);
  }

  lemma NotchRuns(a: Outline, b: Outline)
    requires a == Outline(NotchBorder(), [None, None, None, None, None, None, None, None, None, None, None, None])
    requires b == Outline([Vect(1, 1), Vect(2, 1), Vect(2, 2), Vect(1, 2)], [None, None, None, None])
    ensures JoinedRuns(a, b) == [Segment(0, 2, 1), Segment(10, 0, 1)]
  {
    NotchZeroRuns(a.points, b.points);
    NotchJoin(ZeroRuns(a.points, b.points, 0));
  }

  lemma NotchZeroRuns(ap: seq<Vect>, bp: seq<Vect>)
    requires ap == NotchBorder()
    requires bp == [Vect(1, 1), Vect(2, 1), Vect(2, 2), Vect(1, 2)]
    ensures ZeroRuns(ap, bp, 0) == [Segment(0, 3, 0), Segment(1, 2, 0), Segment(10, 1, 0), Segment(11, 0, 0)]
  {
    NotchZeroRunsFrom2(ap, bp);
    NotchTileIndices(bp);
    ZeroRunsTwoHits(ap, bp, 3, 2);
  }

  /** From index 2 on, only the last two points of the notch border are shared. */
  lemma NotchZeroRunsFrom2(ap: seq<Vect>, bp: seq<Vect>)
    requires ap == NotchBorder()
    requires bp == [Vect(1, 1), Vect(2, 1), Vect(2, 2), Vect(1, 2)]
    ensures ZeroRuns(ap, bp, 2) == [Segment(10, 1, 0), Segment(11, 0, 0)]
  {
    NotchZeroRunsTail(ap, bp);
    NotchMiddleUnshared(ap, bp);
  }

  /** Two shared points head the zero runs. */
  lemma ZeroRunsTwoHits(a: seq<Vect>, b: seq<Vect>, j0: nat, j1: nat)
    requires 2 <= |a| && a[0] in b && a[1] in b && IndexOf(b, a[0]) == j0 && IndexOf(b, a[1]) == j1
    ensures ZeroRuns(a, b, 0) == [Segment(0, j0, 0), Segment(1, j1, 0)] + ZeroRuns(a, b, 2)
  {
    ZeroRunsHit(a, b, 1);
    ZeroRunsHit(a, b, 0);
  }

  /** Where the notch's shared points sit on the tile `get_tile(1, 1)`. */
  lemma NotchTileIndices(bp: seq<Vect>)
    requires bp == [Vect(1, 1), Vect(2, 1), Vect(2, 2), Vect(1, 2)]
    ensures IndexOf(bp, Vect(1, 1)) == 0 && IndexOf(bp, Vect(2, 1)) == 1
    ensures IndexOf(bp, Vect(2, 2)) == 2 && IndexOf(bp, Vect(1, 2)) == 3
  {
    assert bp[1..] == [Vect(2, 1), Vect(2, 2), Vect(1, 2)];
    assert bp[1..][1..] == [Vect(2, 2), Vect(1, 2)];
    assert bp[1..][1..][1..] == [Vect(1, 2)];
  }

  /** A shared point heads the zero runs from its index. */
  lemma ZeroRunsHit(a: seq<Vect>, b: seq<Vect>, lo: nat)
    requires lo < |a| && a[lo] in b
    ensures ZeroRuns(a, b, lo) == [Segment(lo, IndexOf(b, a[lo]), 0)] + ZeroRuns(a, b, lo + 1)
  {
  }

  /** The last two points of the notch border are the tile's first two. */
  lemma NotchZeroRunsTail(ap: seq<Vect>, bp: seq<Vect>)
    requires ap == NotchBorder()
    requires bp == [Vect(1, 1), Vect(2, 1), Vect(2, 2), Vect(1, 2)]
    ensures ZeroRuns(ap, bp, 10) == [Segment(10, 1, 0), Segment(11, 0, 0)]
  {
    assert IndexOf(bp, Vect(1, 1)) == 0;
    assert IndexOf(bp, Vect(2, 1)) == 1;
    assert ZeroRuns(ap, bp, 12) == [];
    assert ZeroRuns(ap, bp, 11) == [Segment(11, 0, 0)];
  }

  /** Points 2 to 9 of the notch border are not on the tile. */
  lemma NotchMiddleUnshared(ap: seq<Vect>, bp: seq<Vect>)
    requires ap == NotchBorder()
    requires bp == [Vect(1, 1), Vect(2, 1), Vect(2, 2), Vect(1, 2)]
    ensures ZeroRuns(ap, bp, 2) == ZeroRuns(ap, bp, 10)
  {
    assert ap[9] !in bp && ap[8] !in bp && ap[7] !in bp && ap[6] !in bp;
    assert ap[5] !in bp && ap[4] !in bp && ap[3] !in bp && ap[2] !in bp;
    assert ZeroRuns(ap, bp, 9) == ZeroRuns(ap, bp, 10);
    assert ZeroRuns(ap, bp, 8) == ZeroRuns(ap, bp, 9);
    assert ZeroRuns(ap, bp, 7) == ZeroRuns(ap, bp, 8);
    assert ZeroRuns(ap, bp, 6) == ZeroRuns(ap, bp, 7);
    assert ZeroRuns(ap, bp, 5) == ZeroRuns(ap, bp, 6);
    assert ZeroRuns(ap, bp, 4) == ZeroRuns(ap, bp, 5);
    assert ZeroRuns(ap, bp, 3) == ZeroRuns(ap, bp, 4);
  }

  lemma NotchJoin(zs: seq<Segment>)
    requires zs == [Segment(0, 3, 0), Segment(1, 2, 0), Segment(10, 1, 0), Segment(11, 0, 0)]
    ensures JoinRuns(zs, 4) == [Segment(0, 2, 1), Segment(10, 0, 1)]
  {
    assert (3 - 1) % 4 == 2;
    assert RunLength(zs, 4, 2) == 1;
    assert RunLength(zs, 4, 1) == 1;
    var rest := zs[2..];
    assert rest == [Segment(10, 1, 0), Segment(11, 0, 0)];
    assert (1 - 1) % 4 == 0;
    assert RunLength(rest, 4, 2) == 1;
    assert RunLength(rest, 4, 1) == 1;
    assert JoinRuns(rest[2..], 4) == [];
    assert JoinRuns(rest, 4) == [Segment(10, 0, 1)];
  }

  /** The two fix-ups of the notch's joined runs. */
  lemma NotchFixUps(js: seq<Segment>)
    requires js == [Segment(0, 2, 1), Segment(10, 0, 1)]
    ensures FixUpAsWritten(js, 12, 4) == js
    ensures FixUp(js, 12, 4) == [Segment(10, 2, 3)]
  {
    assert (0 - 2) % 4 == 2;
    assert WrapContiguous(js, 12, 4) && !WrapContiguousAsWritten(js, 12, 4);
    assert js[1..|js| - 1] == [];
    assert JoinAcrossWrap(js) == [Segment(10, 2, 3)];
  }

  /** The joined segment is shared: `(2, 1), (1, 1), (1, 2), (2, 2)` on both outlines. */
  lemma NotchJoinedMatches(ap: seq<Vect>, bp: seq<Vect>)
    requires ap == NotchBorder()
    requires bp == [Vect(1, 1), Vect(2, 1), Vect(2, 2), Vect(1, 2)]
    ensures Matches(ap, bp, Segment(10, 2, 3))
  {
    assert (10 + 0) % 12 == 10 && (2 + 3 - 0) % 4 == 1;
    assert (10 + 1) % 12 == 11 && (2 + 3 - 1) % 4 == 0;
    assert (10 + 2) % 12 == 0 && (2 + 3 - 2) % 4 == 3;
    assert (10 + 3) % 12 == 1 && (2 + 3 - 3) % 4 == 2;
    assert MatchesAt(ap, bp, Segment(10, 2, 3), 0);
    assert MatchesAt(ap, bp, Segment(10, 2, 3), 1);
    assert MatchesAt(ap, bp, Segment(10, 2, 3), 2);
    assert MatchesAt(ap, bp, Segment(10, 2, 3), 3);
  }

  /** The two fix-ups of the counterexample's joined runs. */
  lemma CounterexampleFixUps(js: seq<Segment>)
    requires js == [Segment(0, 0, 0), Segment(2, 2, 1)]
    ensures FixUpAsWritten(js, 4, 4) == [Segment(2, 0, 2)]
    ensures FixUp(js, 4, 4) == js
  {
    assert (2 - 0) % 4 == 2;
    assert WrapContiguousAsWritten(js, 4, 4) && !WrapContiguous(js, 4, 4);
    assert js[1..|js| - 1] == [];
    assert JoinAcrossWrap(js) == [Segment(2, 0, 2)];
  }

  /** The fused segment's first point differs on the two outlines. */
  lemma CounterexampleMismatch(ap: seq<Vect>, bp: seq<Vect>)
    requires ap == [Vect(0, 0), Vect(5, 5), Vect(0, 1), Vect(1, 1)]
    requires bp == [Vect(0, 0), Vect(1, 0), Vect(1, 1), Vect(0, 1)]
    ensures !MatchesAt(ap, bp, Segment(2, 0, 2), 0)
    ensures !Matches(ap, bp, Segment(2, 0, 2))
  {
    assert (2 + 0) % 4 == 2 && (0 + 2 - 0) % 4 == 2;
  }

  /** Both outlines of the counterexample have unique points. */
  lemma CounterexampleUnique(a: Outline, b: Outline)
    requires a == Outline([Vect(0, 0), Vect(5, 5), Vect(0, 1), Vect(1, 1)], [None, None, None, None])
    requires b == Outline([Vect(0, 0), Vect(1, 0), Vect(1, 1), Vect(0, 1)], [None, None, None, None])
    ensures IsUniquePoints(a) && IsUniquePoints(b)
  {
    assert Distinct(a.points);
    assert Distinct(b.points);
  }

  /** On outlines with unique points, both versions are the fix-up of the joined runs. */
  lemma CommonSegmentsUnfold(a: Outline, b: Outline)
    requires a.Valid() && b.Valid()
    requires IsUniquePoints(a) && IsUniquePoints(b)
    ensures CommonSegmentsAsWritten(a, b) == Ok(FixUpAsWritten(JoinedRuns(a, b), |a.points|, |b.points|))
    ensures CommonSegmentsOf(a, b) == Ok(FixUp(JoinedRuns(a, b), |a.points|, |b.points|))
  {
  }

  /** The runs of the counterexample before the fix-up. */
  lemma CounterexampleRuns(a: Outline, b: Outline)
    requires a == Outline([Vect(0, 0), Vect(5, 5), Vect(0, 1), Vect(1, 1)], [None, None, None, None])
    requires b == Outline([Vect(0, 0), Vect(1, 0), Vect(1, 1), Vect(0, 1)], [None, None, None, None])
    ensures JoinedRuns(a, b) == [Segment(0, 0, 0), Segment(2, 2, 1)]
  {
    CounterexampleZeroRuns(a.points, b.points);
    CounterexampleJoin(ZeroRuns(a.points, b.points, 0));
  }

  lemma CounterexampleZeroRuns(ap: seq<Vect>, bp: seq<Vect>)
    requires ap == [Vect(0, 0), Vect(5, 5), Vect(0, 1), Vect(1, 1)]
    requires bp == [Vect(0, 0), Vect(1, 0), Vect(1, 1), Vect(0, 1)]
    ensures ZeroRuns(ap, bp, 0) == [Segment(0, 0, 0), Segment(2, 3, 0), Segment(3, 2, 0)]
  {
    assert IndexOf(bp, Vect(1, 1)) == 2;
    assert IndexOf(bp, Vect(0, 1)) == 3;
    assert IndexOf(bp, Vect(0, 0)) == 0;
    assert Vect(5, 5) !in bp;
    assert ZeroRuns(ap, bp, 4) == [];
    assert ZeroRuns(ap, bp, 3) == [Segment(3, 2, 0)];
    assert ZeroRuns(ap, bp, 2) == [Segment(2, 3, 0), Segment(3, 2, 0)];
    assert ZeroRuns(ap, bp, 1) == [Segment(2, 3, 0), Segment(3, 2, 0)];
  }

  lemma CounterexampleJoin(zs: seq<Segment>)
    requires zs == [Segment(0, 0, 0), Segment(2, 3, 0), Segment(3, 2, 0)]
    ensures JoinRuns(zs, 4) == [Segment(0, 0, 0), Segment(2, 2, 1)]
  {
    assert RunLength(zs, 4, 1) == 0;
    var rest := zs[1..];
    assert rest == [Segment(2, 3, 0), Segment(3, 2, 0)];
    assert (3 - 1) % 4 == 2;
    assert RunLength(rest, 4, 2) == 1;
    assert RunLength(rest, 4, 1) == 1;
    assert JoinRuns(rest[2..], 4) == [];
    assert JoinRuns(rest, 4) == [Segment(2, 2, 1)];
  }
}
