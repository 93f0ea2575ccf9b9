/** The mutable `Boundary` object of boundary.py: two parallel lists that `append`,
    `__append`, `__replace` and `merge` change in place, and `common_segments`, whose
    run-joining loop is proved to compute `CommonSegmentsOf`. */
module Boundaries {
  import opened Wrappers
  import opened Vectors
  import opened SeqFacts
  import opened Outlines
  import opened Segments
  import Modular

  class Boundary {
    var points: seq<Vect>
    var labels: seq<Label>

    /** The lists have the same length, as `__len__` asserts; every method keeps this. */
    predicate Valid()
      reads this
    {
      |points| == |labels|
    }

    /** The contents of the boundary as a value. */
    function Value(): (o: Outline)
      reads this
      ensures o.points == points && o.labels == labels
      ensures o.Valid() <==> Valid()
    {
      Outline(points, labels)
    }

    /** `Boundary()`: an empty boundary. */
    constructor ()
      ensures points == [] && labels == [] && Valid()
    {
      points := [];
      labels := [];
    }

    /** `__len__`: the number of points, or the failure of its assert when the two lists
        have drifted apart. */
    function Len(): (r: Checked<nat>)
      reads this
      ensures r.Ok? <==> Valid()
      ensures r.Ok? ==> r.value == |points| && r.value == |labels|
    {
      if |points| == |labels| then Ok(|points|) else AssertionFailure
    }

    /** `append(vect, label)`: one more point and the label of the edge leaving it. */
    method Append(v: Vect, tag: Label)
      modifies this
      ensures points == old(points) + [v] && labels == old(labels) + [tag]
      ensures old(Valid()) ==> Valid() && |points| == old(|points|) + 1
    {
      points := points + [v];
      labels := labels + [tag];
    }

    /** `__append(other)`: the contents of `other` appended after these. */
    method AppendAll(other: Outline)
      modifies this
      ensures points == old(points) + other.points && labels == old(labels) + other.labels
      ensures old(Valid()) && other.Valid() ==> Valid() && Value() == Concat(old(Value()), other)
    {
      points := points + other.points;
      labels := labels + other.labels;
    }

    /** `__replace(other)`: the contents become those of `other`. */
    method Replace(other: Outline)
      modifies this
      ensures Value() == other
    {
      points := other.points;
      labels := other.labels;
    }

    /** `common_segments(other)`. The shared points are listed in order of their index on
        this boundary; the `while` cursor loop then joins each maximal run of them and the
        outer loop stands for the tail recursion of `recurse_join_segments`; last comes the
        fix-up across index 0, with the corrected wrap test. */
    method CommonSegments(other: Boundary) returns (r: Checked<seq<Segment>>)
      requires Valid() && other.Valid()
      ensures r == CommonSegmentsOf(Value(), other.Value())
    {
      if !IsUniquePoints(Value()) || !IsUniquePoints(other.Value()) {
        return AssertionFailure;
      }
      var n, m := |points|, |other.points|;
      var zs := ZeroRuns(points, other.points, 0);
      assert m == 0 ==> zs == [] by {
        if |zs| > 0 {
          assert 0 <= zs[0].j < m;
        }
      }
      var segs := JoinSegments(zs, m);
      assert segs == JoinedRuns(Value(), other.Value());
      CommonSegmentsUnfold(Value(), other.Value());
      segs := FixUpAcrossWrap(segs, n, m);
      return Ok(segs);
    }

    /** `merge(other)`. An empty boundary takes the contents of `other`. Otherwise the
        two must share exactly one segment and have the same orientation (else the
        asserts fail and nothing changes), and the boundary becomes the part of `other`
        outside the segment followed by its own part outside the segment. */
    method Merge(other: Boundary) returns (ok: bool)
      requires Valid() && other.Valid()
      modifies this
      ensures Valid()
      ensures var res := MergeOf(old(Value()), old(other.Value()));
        (ok <==> res.Ok?) && (ok ==> Value() == res.value)
      ensures !ok ==> Value() == old(Value())
    {
      var self, that := Value(), other.Value();
      if |self.points| == 0 {
        Replace(that);
        return true;
      }
      var segments := CommonSegments(other);
      assert segments == CommonSegmentsOf(self, that);
      if segments.AssertionFailure? || |segments.value| != 1 {
        return false;
      }
      if GetOrientation(self) != GetOrientation(that) {
        return false;
      }
      var s := segments.value[0];
      assert segments.value == [s];
      MergeOfOne(self, that, s);
      MergedParts(self, that, s);
      var otherPart := Slice(that, s.j + s.len, s.j);
      var ownPart := Slice(self, s.i + s.len, s.i);
      var result := Concat(otherPart, ownPart);
      assert MergeOf(self, that) == Ok(result);
      var merged := Stitched(otherPart, ownPart);
      Replace(merged.Value());
      assert Value() == result;
      return true;
    }
  }

  /** The new boundary `merge` fills with two `__append` calls. */
  method Stitched(first: Outline, second: Outline) returns (b: Boundary)
    requires first.Valid() && second.Valid()
    ensures fresh(b) && b.Valid() && b.Value() == Concat(first, second)
  {
    b := new Boundary();
    b.AppendAll(first);
    b.AppendAll(second);
  }

  /** `recurse_join_segments`: the run that starts at the first remaining zero run is
      emitted as `(i, (j - L) mod m, L)`; the loop stands for the tail call on the
      remaining runs. */
  method JoinSegments(zs: seq<Segment>, m: int) returns (segs: seq<Segment>)
    requires m > 0 || |zs| == 0
    ensures segs == JoinRuns(zs, m)
  {
    segs := [];
    var rem := zs;
    while |rem| > 0
      invariant segs + JoinRuns(rem, m) == JoinRuns(zs, m)
      decreases |rem|
    {
      var L := MeasureRun(rem, m);
      var seg := Segment(rem[0].i, (rem[0].j - L) % m, L);
      assert JoinRuns(rem, m) == [seg] + JoinRuns(rem[L + 1..], m);
      assert segs + JoinRuns(rem, m) == (segs + [seg]) + JoinRuns(rem[L + 1..], m);
      segs := segs + [seg];
      rem := rem[L + 1..];
    }
  }

  /** The `while` cursor loop of `recurse_join_segments`: `L` counts the zero runs after the
      first that continue it, one step on along the first outline and one step back
      (modulo `m`) along the second; the first one that does not ends the run. */
  method MeasureRun(rem: seq<Segment>, m: int) returns (L: nat)
    requires m > 0 && |rem| > 0
    ensures L == RunLength(rem, m, 1)
  {
    var prevI, prevJ := rem[0].i, rem[0].j;
    L := 0;
    var idx := 1;
    while idx < |rem|
      invariant 1 <= idx <= |rem| && L == idx - 1
      invariant RunLength(rem, m, idx) == RunLength(rem, m, 1)
      decreases |rem| - idx
    {
      var i, j := rem[idx].i, rem[idx].j;
      L := L + 1;
      idx := idx + 1;
      if i != prevI + L || j != (prevJ - L) % m {
        L := L - 1;
        assert !Extends(rem, m, idx - 1);
        break;
      }
    }
  }

  /** The fix-up of `common_segments` for a run that wraps past index 0, with the
      corrected test: the first segment is dropped and the last one extended across. */
  method FixUpAcrossWrap(segs: seq<Segment>, n: int, m: int) returns (r: seq<Segment>)
    requires m > 0 || |segs| == 0
    ensures r == FixUp(segs, n, m)
  {
    r := segs;
    if |r| >= 2 {
      var first, last := r[0], r[|r| - 1];
      if first.i == 0 && last.i + last.len == n - 1 && (last.j - first.j) % m == first.len + 1 {
        JoinAcrossWrapInPlace(segs);
        r := r[1..];
        r := r[|r| - 1 := Segment(last.i, first.j, first.len + last.len + 1)];
      }
    }
  }

  /** The stitched outline: the part of `b` from `j + L` round to `j`, then the part of `a`
      from `i + L` round to `i`. */
  function Merged(a: Outline, b: Outline, s: Segment): (r: Outline)
    requires a.Valid() && b.Valid() && |a.points| > 0 && |b.points| > 0
    ensures r.Valid()
  {
    Concat(Slice(b, s.j + s.len, s.j), Slice(a, s.i + s.len, s.i))
  }

  /** What `merge` leaves in the boundary, or the failure of one of its asserts. A segment
      of length `L` drops `L` points from each side, so the length law of boundary.py:194
      holds: `|merged| + 2 L == |a| + |b|`. */
  function MergeOf(a: Outline, b: Outline): (r: Checked<Outline>)
    requires a.Valid() && b.Valid()
    ensures r.Ok? ==> r.value.Valid()
    ensures |a.points| == 0 ==> r == Ok(b)
    ensures |a.points| > 0 ==> (r.Ok? <==>
      var cs := CommonSegmentsOf(a, b);
      cs.Ok? && |cs.value| == 1 && GetOrientation(a) == GetOrientation(b))
    ensures |a.points| > 0 && r.Ok? ==>
      |r.value.points| + 2 * CommonSegmentsOf(a, b).value[0].len == |a.points| + |b.points|
  {
    if |a.points| == 0 then Ok(b)
    else
      var cs := CommonSegmentsOf(a, b);
      if cs.AssertionFailure? || |cs.value| != 1 || GetOrientation(a) != GetOrientation(b) then
        AssertionFailure
      else
        var s := cs.value[0];
        assert Sound(a.points, b.points, s);
        MergedLength(a, b, s);
        Ok(Merged(a, b, s))
  }

  /** When `merge` succeeds on a non-empty boundary, it stitches the slices outside the
      one common segment. */
  lemma MergeOfOne(a: Outline, b: Outline, s: Segment)
    requires a.Valid() && b.Valid() && |a.points| > 0
    requires CommonSegmentsOf(a, b) == Ok([s]) && GetOrientation(a) == GetOrientation(b)
    ensures |b.points| > 0
    ensures MergeOf(a, b) == Ok(Merged(a, b, s))
  {
    assert CommonSegmentsOf(a, b).value[0] == s;
    assert Sound(a.points, b.points, s);
  }

  /** The two parts `merge` appends one after the other. */
  lemma MergedParts(a: Outline, b: Outline, s: Segment)
    requires a.Valid() && b.Valid() && |a.points| > 0 && |b.points| > 0
    ensures Merged(a, b, s) == Concat(Slice(b, s.j + s.len, s.j), Slice(a, s.i + s.len, s.i))
  {
  }

  /** Each slice leaves out exactly the `L` points of the segment that the other side keeps. */
  lemma MergedLength(a: Outline, b: Outline, s: Segment)
    requires a.Valid() && b.Valid() && Sound(a.points, b.points, s)
    ensures |Merged(a, b, s).points| + 2 * s.len == |a.points| + |b.points|
  {
    ComplementLength(|a.points|, s.i, s.len);
    ComplementLength(|b.points|, s.j, s.len);
  }

  /** The cyclic slice from `x + L` round to `x` has `n - L` points. */
  lemma ComplementLength(n: nat, x: int, L: int)
    requires n > 0 && 0 <= L < n
    ensures SliceLength(n, x + L, x) == n - L
  {
    if L == 0 {
      assert (x - (x + L)) % n == 0;
    } else {
      Modular.ModUnique(x - (x + L), -1, n - L, n);
    }
  }
}
