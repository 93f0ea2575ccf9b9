/** The tile-side values of carcassonne.py: `Tile`, the grid positions `PositionedTile` and
    `PlacedTile` with their segment getters and boundaries, `TileSubset.partition_iter`,
    `iterate_tilesets` and `select_tile_placement`. */
module Tiles {
  import opened Wrappers
  import opened Vectors
  import opened Outlines
  import opened Segments
  import opened Sorting
  import Modular

  /** A game tile, as far as placement sees it: the labels of its four sides. */
  datatype Tile = Tile(desc: seq<Label>)

  /** `PositionedTile` (a free cell next to the map) and its subclass `PlacedTile` (a tile
      laid on a cell, turned by `r` quarter turns). `segment` is the cell's common segment
      with the map boundary, or `None` when it is unknown or forbidden. */
  datatype PositionedTile =
    | Positioned(pos: Vect, segment: Option<Segment>)
    | Placed(pos: Vect, segment: Option<Segment>, tile: Tile, r: int)
  {
    /** `get_tile` asserts four side labels. */
    predicate WellFormed()
    {
      Placed? ==> |tile.desc| == 4
    }
  }

  /** `PositionedTile(pos, segments)`: the segment is kept only when exactly one is given. */
  function NewPositionedTile(pos: Vect, segments: seq<Segment>): (p: PositionedTile)
    ensures p.Positioned? && p.pos == pos
    ensures p.segment.Some? <==> |segments| == 1
    ensures p.segment.Some? ==> p.segment.value == segments[0]
  {
    Positioned(pos, if |segments| == 1 then Some(segments[0]) else None)
  }

  /** `PlacedTile(tile, pos, r, segment)`: the base constructor is called with the segment
      as a one-element list, or with no segment. */
  function NewPlacedTile(tile: Tile, pos: Vect, r: int, segment: Option<Segment>): (p: PositionedTile)
    ensures p.Placed? && p.pos == pos && p.tile == tile && p.r == r
    ensures p.segment == segment
  {
    var base := NewPositionedTile(pos, if segment.None? then [] else [segment.value]);
    Placed(base.pos, base.segment, tile, r)
  }

  /** `PlacedTile.from_positioned_tile`: the same cell and segment, now with a tile on it. */
  function FromPositionedTile(p: PositionedTile, tile: Tile, r: int): (q: PositionedTile)
    ensures q.Placed? && q.pos == p.pos && q.segment == p.segment && q.tile == tile && q.r == r
  {
    NewPlacedTile(tile, p.pos, r, p.segment)
  }

  /** `get_segment`: a missing segment reads as `(0, 0, 0)`. */
  function GetSegment(p: PositionedTile): (s: Segment)
    ensures p.segment.Some? ==> s == p.segment.value
    ensures p.segment.None? ==> s == Segment(0, 0, 0)
  {
    if p.segment.Some? then p.segment.value else Segment(0, 0, 0)
  }

  /** `get_segment_length`. */
  function GetSegmentLength(p: PositionedTile): (len: int)
    ensures len == GetSegment(p).len
  {
    GetSegment(p).len
  }

  /** `get_l1_distance`: the distance of the cell to the map centre. */
  function GetL1Distance(p: PositionedTile): (d: int)
    ensures d >= 0 && (d == 0 <==> p.pos == Vect(0, 0))
  {
    p.pos.L1Distance()
  }

  /** A cell built from a list of segments has a contact length only when the list has
      exactly one segment: two segments (a cell touching the map on two sides) read as
      length 0, which `CandidateTiles` treats as "to be deleted". */
  lemma SegmentOnlyIfExactlyOne(pos: Vect, segments: seq<Segment>)
    ensures GetSegmentLength(NewPositionedTile(pos, segments)) == if |segments| == 1 then segments[0].len else 0
    ensures |segments| != 1 ==> GetSegment(NewPositionedTile(pos, segments)) == Segment(0, 0, 0)
  {
  }

  /** `collections.deque(d).rotate(r)`: every element moves `r` places to the right,
      cyclically (to the left when `r` is negative); see `RotateRightMoves`. */
  function RotateRight<T>(d: seq<T>, r: int): (e: seq<T>)
    ensures |e| == |d|
  {
    if |d| == 0 then []
    else
      var s := (-r) % |d|;
      d[s..] + d[..s]
  }

  /** Element `k - r` of the original, cyclically, is element `k` of the rotated sequence. */
  lemma RotateRightAt<T>(d: seq<T>, r: int, k: int)
    requires 0 <= k < |d|
    ensures RotateRight(d, r)[k] == d[(k - r) % |d|]
  {
    var n := |d|;
    var s := (-r) % n;
    assert (s + k) % n == (k - r) % n by {
      Modular.ModOfSum(-r, k, n);
      assert -r + k == k - r;
    }
    if k < n - s {
      Modular.ModSmall(s + k, n);
    } else {
      Modular.ModUnique(s + k, 1, s + k - n, n);
    }
  }

  /** Element `k` moves to position `k + r`, cyclically. */
  lemma RotateRightMoves<T>(d: seq<T>, r: int, k: int)
    requires 0 <= k < |d|
    ensures RotateRight(d, r)[(k + r) % |d|] == d[k]
  {
    var n := |d|;
    RotateRightAt(d, r, (k + r) % n);
    Modular.ModOfSum(k + r, -r, n);
    Modular.ModSmall(k, n);
  }

  /** Rotations compose by adding their amounts (`r` names the total). */
  lemma RotateRightCompose<T>(d: seq<T>, r1: int, r2: int, r: int)
    requires r == r1 + r2
    ensures RotateRight(RotateRight(d, r1), r2) == RotateRight(d, r)
  {
    forall k | 0 <= k < |d|
      ensures RotateRight(RotateRight(d, r1), r2)[k] == RotateRight(d, r)[k]
    {
      RotateRightComposeAt(d, r1, r2, r, k);
    }
  }

  lemma RotateRightComposeAt<T>(d: seq<T>, r1: int, r2: int, r: int, k: int)
    requires 0 <= k < |d| && r == r1 + r2
    ensures RotateRight(RotateRight(d, r1), r2)[k] == RotateRight(d, r)[k]
  {
    var n := |d|;
    var m := (k - r2) % n;
    var x := (m + -r1) % n;
    assert x == (k - r) % n by {
      Modular.ModOfSum(k - r2, -r1, n);
      assert k - r2 + -r1 == k - r;
    }
    RotateRightAt(RotateRight(d, r1), r2, k);
    RotateRightAt(d, r1, m);
    assert m - r1 == m + -r1;
    RotateRightAt(d, r, k);
  }

  /** Rotating by the length, or by nothing, leaves the sequence as it was. */
  lemma RotateRightFullTurn<T>(d: seq<T>)
    ensures RotateRight(d, |d|) == d
    ensures RotateRight(d, 0) == d
  {
    var n := |d|;
    forall k | 0 <= k < n ensures RotateRight(d, n)[k] == d[k] && RotateRight(d, 0)[k] == d[k] {
      RotateRightAt(d, n, k);
      RotateRightAt(d, 0, k);
      Modular.ModAddMultiple(k, -1, n);
      Modular.ModSmall(k, n);
    }
  }

  /** `PositionedTile.get_boundary(desc)`: the unit cell at `pos` with the given side labels. */
  function GetBoundaryWith(p: PositionedTile, desc: seq<Label>): (b: Outline)
    requires |desc| == 4
    ensures b.Valid() && |b.points| == 4 && b.points[0] == p.pos && b.labels == desc
    ensures GetOrientation(b) == Enum(CounterClockwise) && IsUniquePoints(b)
  {
    GetTileOrientation(p.pos.x, p.pos.y, desc);
    GetTileUnique(p.pos.x, p.pos.y, desc);
    GetTile(p.pos.x, p.pos.y, desc)
  }

  /** `get_boundary()`: an unlabelled cell for a `PositionedTile`; for a `PlacedTile`, the
      cell whose side `k + r` carries side `k` of the tile (`desc` rotated right by `r`). */
  function GetBoundary(p: PositionedTile): (b: Outline)
    requires p.WellFormed()
    ensures b.Valid() && |b.points| == 4 && b.points[0] == p.pos
    ensures p.Positioned? ==> b.labels == [None, None, None, None]
    ensures p.Placed? ==> b.labels == RotateRight(p.tile.desc, p.r)
  {
    match p
    case Positioned(_, _) => GetBoundaryWith(p, [None, None, None, None])
    case Placed(_, _, tile, r) => GetBoundaryWith(p, RotateRight(tile.desc, r))
  }

  /** One step of a walk along a boundary: a vertex, the edge leaving it and its label. */
  datatype EdgeStep = EdgeStep(point: Vect, edge: Vect, tag: Label)

  function Labels(steps: seq<EdgeStep>): (ls: seq<Label>)
    ensures |ls| == |steps| && forall k :: 0 <= k < |steps| ==> ls[k] == steps[k].tag
  {
    seq(|steps|, k requires 0 <= k < |steps| => steps[k].tag)
  }

  /** The step at vertex `x` of the cycle, for any integer `x`. */
  function Step(o: Outline, x: int): EdgeStep
    requires o.Valid() && |o.points| > 0
  {
    EdgeStep(o.points[x % |o.points|], GetEdge(o, x), o.labels[x % |o.points|])
  }

  /** The walk over the entries of `s`, the cyclic slice of `o` starting at `i`. */
  function Walk(o: Outline, s: Outline, i: int, len: nat): (r: seq<EdgeStep>)
    requires o.Valid() && |o.points| > 0 && s.Valid() && len <= |s.points|
    ensures |r| == len
  {
    seq(len, k requires 0 <= k < len => EdgeStep(s.points[k], GetEdge(o, i + k), s.labels[k]))
  }

  /** `iter_slice(i, j)`: the steps from vertex `i` up to (not including) vertex `j`, round
      the cycle; as the unit tests expect, `iter_slice(j, j)` is empty. */
  function IterSlice(o: Outline, i: int, j: int): (r: seq<EdgeStep>)
    requires o.Valid() && |o.points| > 0
    ensures |r| == (j - i) % |o.points|
    ensures forall k :: 0 <= k < |r| ==> r[k] == Step(o, i + k)
  {
    var s := Slice(o, i, j);
    Walk(o, s, i, (j - i) % |o.points|)
  }

  /** `iter_all(j)`: every step of the cycle, starting at vertex `j`. */
  function IterAll(o: Outline, j: int): (r: seq<EdgeStep>)
    requires o.Valid() && |o.points| > 0
    ensures |r| == |o.points|
    ensures forall k :: 0 <= k < |r| ==> r[k] == Step(o, j + k)
  {
    var s := Slice(o, j, j);
    Walk(o, s, j, |o.points|)
  }

  /** The steps of `b` along the segment `s`, from `s.j` to `s.j + s.len`. */
  function SegmentSteps(b: Outline, s: Segment): (r: seq<EdgeStep>)
    requires b.Valid() && |b.points| > 0
  {
    IterSlice(b, s.j, s.j + s.len)
  }

  /** The steps of `b` off the segment `s`; with no contact (`s.len == 0`), the whole cycle
      from `s.j`. */
  function ComplementSteps(b: Outline, s: Segment): (r: seq<EdgeStep>)
    requires b.Valid() && |b.points| > 0
  {
    if s.len == 0 then IterAll(b, s.j) else IterSlice(b, s.j + s.len, s.j)
  }

  /** On a cell, the walk along a segment takes `L mod 4` steps. */
  lemma SegmentStepsLength(b: Outline, s: Segment)
    requires b.Valid() && |b.points| == 4
    ensures |SegmentSteps(b, s)| == s.len % 4
  {
    assert s.j + s.len - s.j == s.len;
  }

  /** `iter_segment`: the steps of the tile's boundary along its common segment, one per
      edge of the contact (`IterComplementSegment` says where they start). */
  function IterSegment(p: PositionedTile): (r: seq<EdgeStep>)
    requires p.WellFormed()
    ensures |r| == GetSegment(p).len % 4
  {
    var b := GetBoundary(p);
    var s := GetSegment(p);
    SegmentStepsLength(b, s);
    SegmentSteps(b, s)
  }

  /** `iter_complement_segment`: the steps of the tile's boundary off its common segment.
      It continues `iter_segment` round the cycle back to the segment's start, and with no
      contact length it is the whole cycle. */
  function IterComplementSegment(p: PositionedTile): (r: seq<EdgeStep>)
    requires p.WellFormed()
    ensures GetSegment(p).len % 4 != 0 ==> IterSegment(p) + r == IterAll(GetBoundary(p), GetSegment(p).j)
    ensures GetSegment(p).len == 0 ==> r == IterAll(GetBoundary(p), GetSegment(p).j)
  {
    CoverCycle(GetBoundary(p), GetSegment(p));
    ComplementSteps(GetBoundary(p), GetSegment(p))
  }

  /** The segment steps and the complement steps share no edge and together walk the whole
      cycle once: the complement starts where the segment ends and runs round to its start.
      Without a contact length, the segment is empty and the complement is the whole cycle. */
  lemma CoverCycle(b: Outline, s: Segment)
    requires b.Valid() && |b.points| > 0
    ensures s.len % |b.points| != 0 ==> SegmentSteps(b, s) + ComplementSteps(b, s) == IterAll(b, s.j)
    ensures s.len == 0 ==> SegmentSteps(b, s) == [] && ComplementSteps(b, s) == IterAll(b, s.j)
  {
    SliceCoverCycle(b, s);
    if s.len != 0 {
      assert ComplementSteps(b, s) == IterSlice(b, s.j + s.len, s.j);
    }
  }

  /** The labels read along and off the contact segment `(_, 1, 2)` of a tile with sides
      `f, p, t, q`, unturned and turned once; with no contact length the complement reads the
      whole cycle from side 1. */
  lemma SegmentLabels(tile: Tile, pos: Vect, f: Label, p: Label, t: Label, q: Label)
    requires tile.desc == [f, p, t, q]
    ensures var c := NewPlacedTile(tile, pos, 0, Some(Segment(42, 1, 2)));
      Labels(IterSegment(c)) == [p, t] && Labels(IterComplementSegment(c)) == [q, f]
    ensures var c := NewPlacedTile(tile, pos, 1, Some(Segment(42, 1, 2)));
      Labels(IterSegment(c)) == [f, p] && Labels(IterComplementSegment(c)) == [t, q]
    ensures var c := NewPlacedTile(tile, pos, 0, Some(Segment(42, 1, 0)));
      Labels(IterSegment(c)) == [] && Labels(IterComplementSegment(c)) == [p, t, q, f]
  {
    RotateRightFullTurn(tile.desc);
    var turned := RotateRight(tile.desc, 1);
    forall k | 0 <= k < 4 ensures turned[k] == tile.desc[(k - 1) % 4] {
      RotateRightAt(tile.desc, 1, k);
    }
    assert turned == [q, f, p, t];
    ContactLabels(NewPlacedTile(tile, pos, 0, Some(Segment(42, 1, 2))));
    ContactLabels(NewPlacedTile(tile, pos, 1, Some(Segment(42, 1, 2))));
    NoContactLabels(NewPlacedTile(tile, pos, 0, Some(Segment(42, 1, 0))));
  }

  lemma ContactLabels(c: PositionedTile)
    requires c.Placed? && c.WellFormed() && c.segment == Some(Segment(42, 1, 2))
    ensures var ls := RotateRight(c.tile.desc, c.r);
      Labels(IterSegment(c)) == [ls[1], ls[2]] && Labels(IterComplementSegment(c)) == [ls[3], ls[0]]
  {
    var b := GetBoundary(c);
    assert IterSegment(c) == IterSlice(b, 1, 3);
    assert IterComplementSegment(c) == IterSlice(b, 3, 1);
    CellLabels(b);
  }

  lemma NoContactLabels(c: PositionedTile)
    requires c.Placed? && c.WellFormed() && c.segment == Some(Segment(42, 1, 0))
    ensures var ls := RotateRight(c.tile.desc, c.r);
      Labels(IterSegment(c)) == [] && Labels(IterComplementSegment(c)) == [ls[1], ls[2], ls[3], ls[0]]
  {
    var b := GetBoundary(c);
    assert IterSegment(c) == IterSlice(b, 1, 1);
    assert IterComplementSegment(c) == IterAll(b, 1);
    CellLabels(b);
  }

  /** The labels read by the three walks `SegmentLabels` uses, on any four-sided cycle. */
  lemma CellLabels(b: Outline)
    requires b.Valid() && |b.points| == 4
    ensures Labels(IterSlice(b, 1, 3)) == [b.labels[1], b.labels[2]]
    ensures Labels(IterSlice(b, 3, 1)) == [b.labels[3], b.labels[0]]
    ensures Labels(IterAll(b, 1)) == [b.labels[1], b.labels[2], b.labels[3], b.labels[0]]
    ensures IterSlice(b, 1, 1) == []
  {
    assert (1 - 3) % 4 == 2 && 4 % 4 == 0 && (1 - 1) % 4 == 0;
  }

  lemma SliceCoverCycle(b: Outline, s: Segment)
    requires b.Valid() && |b.points| > 0
    ensures s.len % |b.points| != 0 ==>
      IterSlice(b, s.j, s.j + s.len) + IterSlice(b, s.j + s.len, s.j) == IterAll(b, s.j)
    ensures s.len == 0 ==> IterSlice(b, s.j, s.j + s.len) == []
  {
    if s.len % |b.points| != 0 {
      SliceAndRestCoverCycle(b, s.j, s.len, s.j + s.len);
    }
    if s.len == 0 {
      assert (s.j + s.len - s.j) % |b.points| == 0;
    }
  }

  /** The steps from `j` to `e = j + len` and from there back round to `j` make up the
      cycle. */
  lemma SliceAndRestCoverCycle(b: Outline, j: int, len: int, e: int)
    requires b.Valid() && |b.points| > 0 && len % |b.points| != 0 && e == j + len
    ensures IterSlice(b, j, e) + IterSlice(b, e, j) == IterAll(b, j)
  {
    var n := |b.points|;
    ComplementLength(n, j, len, e);
    assert e - j == len;
    forall k | 0 <= k < n
      ensures (IterSlice(b, j, e) + IterSlice(b, e, j))[k] == IterAll(b, j)[k]
    {
      CoverAt(b, j, len, e, k);
    }
  }

  /** Step `k` of the cycle from `j` is on the segment when `k < len mod n`, and on the
      way back otherwise. */
  lemma CoverAt(b: Outline, j: int, len: int, e: int, k: int)
    requires b.Valid() && |b.points| > 0 && 0 <= k < |b.points| && e == j + len
    requires |IterSlice(b, j, e)| == len % |b.points|
    requires |IterSlice(b, e, j)| == |b.points| - len % |b.points|
    ensures (IterSlice(b, j, e) + IterSlice(b, e, j))[k] == IterAll(b, j)[k]
  {
    var L := len % |b.points|;
    if k >= L {
      RestStepAt(b, j, len, e, k);
    }
  }

  /** The way back round from `e = j + len` to `j` has `n - len mod n` steps. */
  lemma ComplementLength(n: int, j: int, len: int, e: int)
    requires n > 0 && len % n != 0 && e == j + len
    ensures (j - e) % n == n - len % n
  {
    Modular.ModUnique(j - e, -(len / n) - 1, n - len % n, n);
  }

  /** Step `k - len mod n` of the way back is step `k` of the whole cycle from `j`. */
  lemma RestStepAt(b: Outline, j: int, len: int, e: int, k: int)
    requires b.Valid() && |b.points| > 0 && len % |b.points| <= k < |b.points| && e == j + len
    requires |IterSlice(b, e, j)| == |b.points| - len % |b.points|
    ensures IterSlice(b, e, j)[k - len % |b.points|] == IterAll(b, j)[k]
  {
    var n := |b.points|;
    var t := k - len % n;
    CycleIndex(j, len, t, k, n);
    assert e + t == j + len + t;
    SameStep(b, e + t, j + k);
  }

  /** Step `t` after the end of a segment of length `len` is step `k` after its start. */
  lemma CycleIndex(j: int, len: int, t: int, k: int, n: int)
    requires n > 0 && k == len % n + t
    ensures (j + len + t) % n == (j + k) % n
  {
    assert j + len + t == j + k + (len / n) * n;
    Modular.ModAddMultiple(j + k, len / n, n);
  }

  /** Two indices that agree modulo the length give the same step. */
  lemma SameStep(b: Outline, x: int, y: int)
    requires b.Valid() && |b.points| > 0 && x % |b.points| == y % |b.points|
    ensures Step(b, x) == Step(b, y)
  {
    var n := |b.points|;
    Modular.ModOfSum(x, 1, n);
    Modular.ModOfSum(y, 1, n);
  }

  /** `select_tile_placement`: the first candidate; its assert fails on an empty list. */
  function SelectTilePlacement<T>(candidates: seq<T>): (r: Checked<T>)
    ensures r.Ok? <==> |candidates| > 0
    ensures r.Ok? ==> r.value in candidates && r.value == candidates[0]
  {
    if |candidates| > 0 then Ok(candidates[0]) else AssertionFailure
  }

  /** A `TileSubset`: a predicate on tiles, whether to shuffle, and how many to output
      (all when negative). */
  datatype TileSubset<!T> = TileSubset(accepts: T -> bool, shuffle: bool, outputN: int)

  /** `partition_iter(tileset)`: the tiles the predicate selects (shuffled by `random.sample`,
      which is the given permutation `sample`, then cut to the first `outputN`), and
      separately the tiles it rejects, in their order. */
  function PartitionIter<T(!new)>(subset: TileSubset<T>, tiles: seq<T>, sample: seq<T>): (r: (seq<T>, seq<T>))
    requires subset.shuffle ==> multiset(sample) == multiset(Filter(subset.accepts, tiles))
    ensures r.1 == Filter(Not(subset.accepts), tiles)
    ensures forall k :: 0 <= k < |r.0| ==> subset.accepts(r.0[k])
    ensures forall k :: 0 <= k < |r.1| ==> !subset.accepts(r.1[k])
    ensures multiset(r.0) <= multiset(Filter(subset.accepts, tiles))
    ensures var n := |Filter(subset.accepts, tiles)|;
      |r.0| == if 0 <= subset.outputN < n then subset.outputN else n
    ensures !subset.shuffle ==> r.0 <= Filter(subset.accepts, tiles)
  {
    var selection := Filter(subset.accepts, tiles);
    var shuffled := if subset.shuffle then sample else selection;
    Reordered(subset.accepts, shuffled, selection);
    (Cut(shuffled, subset.outputN), Filter(Not(subset.accepts), tiles))
  }

  /** `selection[:output_n]` when `output_n >= 0`: a prefix, so no element is new. */
  function Cut<T>(s: seq<T>, n: int): (c: seq<T>)
    ensures |c| == if 0 <= n < |s| then n else |s|
    ensures c <= s && multiset(c) <= multiset(s)
  {
    if 0 <= n < |s| then
      assert s == s[..n] + s[n..];
      s[..n]
    else s
  }

  /** A reordering of elements that all satisfy `p` has the same length and elements that all
      satisfy `p`. */
  lemma Reordered<T(!new)>(p: T -> bool, s: seq<T>, t: seq<T>)
    requires multiset(s) == multiset(t) && forall k :: 0 <= k < |t| ==> p(t[k])
    ensures |s| == |t| && forall k :: 0 <= k < |s| ==> p(s[k])
  {
    assert |multiset(s)| == |multiset(t)|;
    forall k | 0 <= k < |s| ensures p(s[k]) {
      assert s[k] in multiset(t);
    }
  }

  /** Nothing is invented and nothing is selected twice: the two parts together are a
      sub-multiset of the input, and all of it unless `outputN` cuts the selection. */
  lemma PartitionIterLosesOnlyCut<T(!new)>(subset: TileSubset<T>, tiles: seq<T>, sample: seq<T>)
    requires subset.shuffle ==> multiset(sample) == multiset(Filter(subset.accepts, tiles))
    ensures var r := PartitionIter(subset, tiles, sample);
      multiset(r.0) + multiset(r.1) <= multiset(tiles) &&
      (subset.outputN < 0 || subset.outputN >= |Filter(subset.accepts, tiles)| ==>
        multiset(r.0) + multiset(r.1) == multiset(tiles))
  {
    var r := PartitionIter(subset, tiles, sample);
    var sel := Filter(subset.accepts, tiles);
    FilterPartition(subset.accepts, tiles);
    if subset.outputN < 0 || subset.outputN >= |sel| {
      assert |multiset(r.0)| == |multiset(sel)|;
      SubMultisetSameSize(multiset(r.0), multiset(sel));
    }
  }

  /** A sub-multiset of the same size is the whole multiset. */
  lemma SubMultisetSameSize<T>(a: multiset<T>, b: multiset<T>)
    requires a <= b && |a| == |b|
    ensures a == b
  {
    var d := b - a;
    assert a + d == b;
    assert |d| == 0;
  }

  /** One pass of the `while True` loop of `iterate_tilesets`: the river tileset (always when
      it is reused periodically, only on the first pass when the period is 0), then
      `max(1, period)` copies of the regular tileset; without river tiles, the regular
      tileset alone. */
  function TilesetRound<T>(river: seq<T>, regular: seq<T>, period: int, first: bool): (r: seq<seq<T>>)
    ensures |r| == if |river| == 0 then 1 else if period == 0 then (if first then 2 else 1)
                   else 1 + (if period < 1 then 1 else period)
    ensures |river| > 0 && (period != 0 || first) ==> r[0] == river
    ensures forall k :: 0 <= k < |r| ==> r[k] == river || r[k] == regular
    ensures r[|r| - 1] == regular
  {
    if |river| > 0 then
      var head := if period == 0 then (if first then [river] else []) else [river];
      head + seq(if period < 1 then 1 else period, _ => regular)
    else [regular]
  }

  /** The first `rounds` passes of the generator: one pass when `infinite` is false,
      otherwise `rounds` of them, only the first of which is marked first. */
  function IterateTilesets<T>(river: seq<T>, regular: seq<T>, period: int, infinite: bool, rounds: nat): (r: seq<seq<T>>)
    ensures forall k :: 0 <= k < |r| ==> r[k] == river || r[k] == regular
    ensures |river| > 0 && |r| > 0 ==> r[0] == river
    ensures !infinite || rounds > 0 ==> |r| > 0 && r[|r| - 1] == regular
    decreases rounds
  {
    if !infinite then TilesetRound(river, regular, period, true)
    else if rounds == 0 then []
    else IterateTilesets(river, regular, period, infinite, rounds - 1) + TilesetRound(river, regular, period, rounds == 1)
  }

  /** How many tilesets the generator yields in its first `rounds` passes: with a period of
      0 the river tileset comes once, at the start; with a positive period it comes on
      every pass, followed by `period` regular tilesets. */
  lemma {:induction false} IterateTilesetsLength<T>(river: seq<T>, regular: seq<T>, period: int, rounds: nat)
    requires |river| > 0 && period >= 0
    ensures |IterateTilesets(river, regular, period, true, rounds)| ==
      if period == 0 then (if rounds == 0 then 0 else rounds + 1) else rounds * (1 + period)
    ensures rounds > 0 ==> IterateTilesets(river, regular, period, true, rounds)[0] == river
  {
    if rounds > 0 {
      IterateTilesetsLength(river, regular, period, rounds - 1);
      var prev := IterateTilesets(river, regular, period, true, rounds - 1);
      var next := TilesetRound(river, regular, period, rounds == 1);
      assert IterateTilesets(river, regular, period, true, rounds) == prev + next;
    }
  }
}
