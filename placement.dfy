/** The step of carcassonne.py that grows the map: the free cell found across an edge of
    the map boundary (`PositionedTile.from_boundary_edge`), and the update of the map
    boundary and of the candidate cells once a tile has been placed
    (`update_border_and_candidate_tiles`). */
module Placement {
  import opened Wrappers
  import opened Vectors
  import opened Outlines
  import opened Segments
  import opened Boundaries
  import opened Sorting
  import opened Tiles
  import opened Candidates
  import Modular
  import opened SeqFacts

  /** `rotate_to_start_with(p)`: the same cycle, read from its vertex `p` on. */
  function RotateToStartWith(o: Outline, p: Vect): (r: Outline)
    requires o.Valid() && p in o.points
    ensures r.Valid() && |r.points| == |o.points| && r.points[0] == p
    ensures GetOrientation(r) == GetOrientation(o)
  {
    var k := IndexOf(o.points, p);
    CyclicShiftKeepsOrientation(o, k);
    Modular.ModSmall(k, |o.points|);
    assert Slice(o, k, k).points[0] == o.points[(k + 0) % |o.points|];
    Slice(o, k, k)
  }

  /** Rotating a cycle keeps its set of vertices. */
  lemma RotateKeepsPoints(o: Outline, p: Vect, q: Vect)
    requires o.Valid() && p in o.points
    ensures q in RotateToStartWith(o, p).points <==> q in o.points
  {
    SliceKeepsPoints(o, IndexOf(o.points, p), q);
  }

  /** The cyclic slice of a whole turn has the vertices of the cycle. */
  lemma SliceKeepsPoints(o: Outline, k: int, q: Vect)
    requires o.Valid() && 0 <= k < |o.points|
    ensures q in Slice(o, k, k).points <==> q in o.points
  {
    var r, n := Slice(o, k, k), |o.points|;
    if q in o.points {
      var t := IndexOf(o.points, q);
      var x := t - k;
      var d := x % n;
      Modular.ModOfSum(x, k, n);
      assert x + k == t;
      Modular.ModSmall(t, n);
      assert r.points[d] == o.points[(k + d) % n];
    }
  }

  /** Every vertex of `RotateToStartWith(o, p)` is a vertex of `o` and conversely. */
  lemma RotateKeepsAllPoints(o: Outline, p: Vect)
    requires o.Valid() && p in o.points
    ensures forall q :: q in RotateToStartWith(o, p).points <==> q in o.points
  {
    forall q ensures q in RotateToStartWith(o, p).points <==> q in o.points {
      RotateKeepsPoints(o, p, q);
    }
  }

  /** `bottom_left()` followed by `rotate_to_start_with`: the same cycle, read from its
      lowest-leftmost vertex. */
  function FromBottomLeft(o: Outline): (r: Outline)
    requires o.Valid() && |o.points| > 0
    ensures r.Valid() && |r.points| == |o.points| && Vect(BottomLeft(o).0, BottomLeft(o).1) == r.points[0]
    ensures forall q :: q in r.points <==> q in o.points
    ensures forall q :: q in r.points ==> KeyLe(r.points[0].CmpKey(), q.CmpKey())
    ensures GetOrientation(r) == GetOrientation(o)
  {
    var pos := Vect(BottomLeft(o).0, BottomLeft(o).1);
    RotateKeepsAllPoints(o, pos);
    RotateToStartWith(o, pos)
  }

  /** The cell across the edge `edge` leaving `point`, on the `domain` side: the
      unlabelled square walked counterclockwise from `point` in the first direction of
      `from_edge`, read from its lowest-leftmost corner (`CellOfShape` states what it is). */
  function CellOf(point: Vect, edge: Vect, domain: Domain): (r: Outline)
    ensures r.Valid() && |r.points| == 4
  {
    FromBottomLeft(Outline(SquareCorners(point, StartDirection(edge, CounterClockwise, domain)), [None, None, None, None]))
  }

  /** The cell across an edge has the corners of that square, among them the edge's start
      and the corner one step along the first direction; it is read from its
      lowest-leftmost corner; and for a unit edge of the grid it is the unlabelled unit
      tile `get_tile` builds at that corner. */
  lemma CellOfShape(point: Vect, edge: Vect, domain: Domain)
    ensures var r, d := CellOf(point, edge, domain), StartDirection(edge, CounterClockwise, domain);
      (forall q :: q in r.points <==> q in SquareCorners(point, d)) &&
      point in r.points && point.Add(d) in r.points &&
      (forall q :: q in r.points ==> KeyLe(r.points[0].CmpKey(), q.CmpKey())) &&
      (IsUnitStep(edge) ==> r == GetTile(SquareCorner(point, d).x, SquareCorner(point, d).y, [None, None, None, None]))
  {
    var d := StartDirection(edge, CounterClockwise, domain);
    var o := Outline(SquareCorners(point, d), [None, None, None, None]);
    assert o.points[0] == point && o.points[1] == point.Add(d);
    if IsUnitStep(edge) {
      UnitStepTurned(edge, domain);
      UnitSquareIsTile(o, point, d);
    }
  }

  /** The first two lines of `from_boundary_edge`: the cell on the `domain` side of the
      edge `edge` leaving `point`, walked counterclockwise from its bottom-left corner. */
  method CellAcross(point: Vect, edge: Vect, domain: Domain) returns (cell: Outline)
    ensures cell == CellOf(point, edge, domain)
    ensures edge != Vect(0, 0) ==> GetOrientation(cell) == Enum(CounterClockwise)
  {
    var tileBorder := FromEdge(point, edge, CounterClockwise, domain);
    SquareOutline(tileBorder, point, StartDirection(edge, CounterClockwise, domain));
    cell := FromBottomLeft(tileBorder);
  }

  /** `PositionedTile.from_boundary_edge(border, point, edge, domain)`: the cell across the
      edge, and its common segments with `border`. Besides the tile, the cell is returned
      so that callers can state what was computed. */
  method FromBoundaryEdge(border: Boundary, point: Vect, edge: Vect, domain: Domain)
    returns (r: Checked<PositionedTile>, cell: Outline)
    requires border.Valid()
    ensures cell == CellOf(point, edge, domain)
    ensures edge != Vect(0, 0) ==> GetOrientation(cell) == Enum(CounterClockwise)
    ensures r == TileAcross(border.Value(), point, edge, domain)
  {
    cell := CellAcross(point, edge, domain);
    var segs := SegmentsWithCell(border, cell);
    r := if segs.AssertionFailure? then AssertionFailure else Ok(NewPositionedTile(cell.points[0], segs.value));
    TileAcrossOfCell(border.Value(), point, edge, domain, cell, segs);
  }

  /** `border.common_segments(Boundary(cell))`, on a fresh boundary holding the cell. */
  method SegmentsWithCell(border: Boundary, cell: Outline) returns (segs: Checked<seq<Segment>>)
    requires border.Valid() && cell.Valid()
    ensures segs == CommonSegmentsOf(border.Value(), cell)
  {
    var that := new Boundary();
    that.Replace(cell);
    segs := border.CommonSegments(that);
  }

  /** The tile built from the cell across the edge and its common segments is the tile
      across the edge. */
  lemma TileAcrossOfCell(b: Outline, point: Vect, edge: Vect, domain: Domain, cell: Outline, segs: Checked<seq<Segment>>)
    requires b.Valid() && cell == CellOf(point, edge, domain) && segs == CommonSegmentsOf(b, cell)
    ensures TileAcross(b, point, edge, domain) ==
      if segs.AssertionFailure? then AssertionFailure else Ok(NewPositionedTile(cell.points[0], segs.value))
  {
  }

  /** The four steps of length one along the grid axes. */
  predicate IsUnitStep(v: Vect)
  {
    v == Vect(1, 0) || v == Vect(0, 1) || v == Vect(-1, 0) || v == Vect(0, -1)
  }

  function Min(x: int, y: int): int
  {
    if x <= y then x else y
  }

  /** The corners of the square walked counterclockwise from `point`, first along `d`. */
  function SquareCorners(point: Vect, d: Vect): (r: seq<Vect>)
    ensures |r| == 4 && r[0] == point && r[1] == point.Add(d)
  {
    [point, point.Add(d), point.Add(d).Add(d.Rotate(1)), point.Add(d.Rotate(1))]
  }

  /** The lowest-leftmost corner of that square: the smaller coordinates of `point` and of
      the corner opposite to it. */
  function SquareCorner(point: Vect, d: Vect): Vect
  {
    var far := point.Add(d).Add(d.Rotate(1));
    Vect(Min(point.x, far.x), Min(point.y, far.y))
  }

  /** The cycle `from_edge` walks, with quarter turns `+1`, visits the corners of the square. */
  lemma WalkedSquareCorners(b: Outline, point: Vect, d: Vect)
    requires b.Valid() && |b.points| == 4 && b.points[0] == point
    requires forall k :: 0 <= k < 4 ==> GetEdge(b, k) == d.Rotate(1 * k)
    ensures b.points == SquareCorners(point, d)
  {
    assert 0 % 4 == 0 && 1 % 4 == 1 && 2 % 4 == 2 && 3 % 4 == 3;
    assert GetEdge(b, 0) == d.Rotate(0) == d;
    assert GetEdge(b, 1) == d.Rotate(1);
    assert GetEdge(b, 2) == d.Rotate(2) == Vect(-d.x, -d.y);
  }

  /** The outline `from_edge` walks is the unlabelled square on its first direction. */
  lemma SquareOutline(b: Outline, point: Vect, d: Vect)
    requires b.Valid() && |b.points| == 4 && b.points[0] == point
    requires forall k :: 0 <= k < 4 ==> GetEdge(b, k) == d.Rotate(1 * k)
    requires forall k :: 0 <= k < 4 ==> b.labels[k] == None
    ensures b == Outline(SquareCorners(point, d), [None, None, None, None])
  {
    WalkedSquareCorners(b, point, d);
    NoLabels(b.labels);
  }

  /** Four missing labels. */
  lemma NoLabels(labels: seq<Label>)
    requires |labels| == 4 && forall k :: 0 <= k < 4 ==> labels[k] == None
    ensures labels == [None, None, None, None]
  {
  }

  /** Seen from the inside or turned a quarter clockwise for the outside, a unit edge gives a
      unit first direction. */
  lemma UnitStepTurned(edge: Vect, domain: Domain)
    requires IsUnitStep(edge)
    ensures IsUnitStep(StartDirection(edge, CounterClockwise, domain))
  {
    QuarterTurns(edge);
  }

  /** Read from its lowest-leftmost corner, the unlabelled square walked from `point` along
      a unit step is the unit tile at that corner. */
  lemma UnitSquareIsTile(o: Outline, point: Vect, d: Vect)
    requires o.points == SquareCorners(point, d) && o.labels == [None, None, None, None]
    requires IsUnitStep(d)
    ensures FromBottomLeft(o) == GetTile(SquareCorner(point, d).x, SquareCorner(point, d).y, [None, None, None, None])
  {
    QuarterTurns(d);
    var c := SquareCorner(point, d);
    var t := TileCorners(c);
    if d == Vect(1, 0) {
      assert o.points == [t[0], t[1], t[2], t[3]];
      TileReadFrom(o, c, 0);
    } else if d == Vect(0, 1) {
      assert o.points == [t[1], t[2], t[3], t[0]];
      TileReadFrom(o, c, 3);
    } else if d == Vect(-1, 0) {
      assert o.points == [t[2], t[3], t[0], t[1]];
      TileReadFrom(o, c, 2);
    } else {
      assert o.points == [t[3], t[0], t[1], t[2]];
      TileReadFrom(o, c, 1);
    }
  }

  /** The corners of the unit tile at `c`, counterclockwise from `c`. */
  function TileCorners(c: Vect): (r: seq<Vect>)
    ensures |r| == 4
  {
    [c, Vect(c.x + 1, c.y), Vect(c.x + 1, c.y + 1), Vect(c.x, c.y + 1)]
  }

  /** The unit tile at `c`, corner by corner. */
  lemma GetTileCorners(c: Vect)
    ensures GetTile(c.x, c.y, [None, None, None, None]) == Outline(TileCorners(c), [None, None, None, None])
  {
  }

  /** The unlabelled corners of the unit tile at `c`, with the corner `c` at index `k`, read
      from `c`, are that tile. */
  lemma TileReadFrom(o: Outline, c: Vect, k: int)
    requires o.labels == [None, None, None, None] && 0 <= k < 4
    requires var t := TileCorners(c);
      (k == 0 && o.points == t) || (k == 3 && o.points == [t[1], t[2], t[3], t[0]]) ||
      (k == 2 && o.points == [t[2], t[3], t[0], t[1]]) || (k == 1 && o.points == [t[3], t[0], t[1], t[2]])
    ensures FromBottomLeft(o) == GetTile(c.x, c.y, [None, None, None, None])
  {
    TileCornersRotated(o, c, k);
    CornerStartsTile(o, k, c);
  }

  /** What `CornerStartsTile` needs of such a cycle, for one literal `k`. */
  lemma TileCornersRotated(o: Outline, c: Vect, k: int)
    requires o.labels == [None, None, None, None]
    requires var t := TileCorners(c);
      (k == 0 && o.points == t) || (k == 3 && o.points == [t[1], t[2], t[3], t[0]]) ||
      (k == 2 && o.points == [t[2], t[3], t[0], t[1]]) || (k == 1 && o.points == [t[3], t[0], t[1], t[2]])
    ensures o.Valid() && 0 <= k < |o.points| && Distinct(o.points) && o.points[k] == c
    ensures forall q :: q in o.points ==> KeyLe(c.CmpKey(), q.CmpKey())
    ensures o.points[k..] + o.points[..k] == TileCorners(c)
    ensures o.labels[k..] + o.labels[..k] == [None, None, None, None]
  {
  }

  /** A four-vertex cycle without repeated vertices whose vertex `k` has the least key and,
      read from there, runs through the corners of the unit tile at `c` counterclockwise,
      all unlabelled, is that tile once read from its lowest-leftmost vertex. */
  lemma CornerStartsTile(o: Outline, k: int, c: Vect)
    requires o.Valid() && 0 <= k < |o.points| && Distinct(o.points) && o.points[k] == c
    requires forall q :: q in o.points ==> KeyLe(c.CmpKey(), q.CmpKey())
    requires o.points[k..] + o.points[..k] == TileCorners(c)
    requires o.labels[k..] + o.labels[..k] == [None, None, None, None]
    ensures FromBottomLeft(o) == GetTile(c.x, c.y, [None, None, None, None])
  {
    BottomLeftIs(o, c);
    IndexOfDistinct(o.points, k);
    SliceAtVertex(o, k);
    GetTileCorners(c);
    assert FromBottomLeft(o) == RotateToStartWith(o, c) == Slice(o, k, k);
  }

  /** In a sequence without repeats, the index of the element at `k` is `k`. */
  lemma IndexOfDistinct(s: seq<Vect>, k: int)
    requires Distinct(s) && 0 <= k < |s|
    ensures IndexOf(s, s[k]) == k
  {
    var x := IndexOf(s, s[k]);
    assert s[x] == s[k];
  }

  /** Read from vertex `k` to vertex `k` again, a cycle is its tail from `k` followed by
      its head up to `k`. */
  lemma SliceAtVertex(o: Outline, k: int)
    requires o.Valid() && 0 <= k < |o.points|
    ensures Slice(o, k, k) == Outline(o.points[k..] + o.points[..k], o.labels[k..] + o.labels[..k])
  {
    Modular.ModSmall(k, |o.points|);
  }

  /** A vertex whose key is no larger than that of any vertex is the bottom-left one. */
  lemma BottomLeftIs(o: Outline, c: Vect)
    requires c in o.points && forall q :: q in o.points ==> KeyLe(c.CmpKey(), q.CmpKey())
    ensures Vect(BottomLeft(o).0, BottomLeft(o).1) == c
  {
    var pos := Vect(BottomLeft(o).0, BottomLeft(o).1);
    KeyLeTotalOrder(pos, c, c);
  }

  /** `neighbor_edges`: a (point, edge) pair for each step of the placed tile's boundary off
      its contact segment, then, for every such step but the last, the same edge moved to
      the far end of the step. */
  function NeighborEdges(steps: seq<EdgeStep>): (r: seq<(Vect, Vect)>)
    ensures |r| == |steps| + (if |steps| == 0 then 0 else |steps| - 1)
    ensures forall k :: 0 <= k < |steps| ==> r[k] == (steps[k].point, steps[k].edge)
  {
    var edges := seq(|steps|, k requires 0 <= k < |steps| => (steps[k].point, steps[k].edge));
    edges + seq(if |edges| == 0 then 0 else |edges| - 1,
                k requires 0 <= k < |edges| - 1 => (edges[k].0.Add(edges[k].1), edges[k].1))
  }

  /** On any walk along a boundary (such as `iter_slice`, `iter_all` and so
      `iter_complement_segment`), the moved copy of edge `k` starts at vertex `k + 1` of
      the walk: the second half of `NeighborEdges` pairs each vertex of the walk after the
      first with the edge that arrives there. */
  lemma MovedEdgeStartsAtNextVertex(b: Outline, x: int, steps: seq<EdgeStep>, k: int)
    requires b.Valid() && |b.points| > 0
    requires forall t :: 0 <= t < |steps| ==> steps[t] == Step(b, x + t)
    requires 0 <= k < |steps| - 1
    ensures NeighborEdges(steps)[|steps| + k] == (steps[k + 1].point, steps[k].edge)
  {
    var z := x + k;
    assert steps[k] == Step(b, z);
    assert steps[k + 1] == Step(b, z + 1);
  }

  /** The dictionary after the updates `ts`, in order. */
  function ApplyUpdates(m: Index, ts: seq<PositionedTile>): Index
  {
    if |ts| == 0 then m else Updated(ApplyUpdates(m, ts[..|ts| - 1]), ts[|ts| - 1])
  }

  /** One more update on top of a run of updates. */
  lemma ApplyUpdatesSnoc(m: Index, ts: seq<PositionedTile>, i: int)
    requires 0 <= i < |ts|
    ensures ApplyUpdates(m, ts[..i + 1]) == Updated(ApplyUpdates(m, ts[..i]), ts[i])
  {
    assert ts[..i + 1][..i] == ts[..i];
  }

  /** A position no update of the run touches keeps its entry. */
  lemma {:induction false} UntouchedKept(m: Index, ts: seq<PositionedTile>, v: Vect)
    requires forall k :: 0 <= k < |ts| ==> ts[k].pos != v
    ensures v in ApplyUpdates(m, ts) <==> v in m
    ensures v in m ==> ApplyUpdates(m, ts)[v] == m[v]
  {
    if |ts| > 0 {
      UntouchedKept(m, ts[..|ts| - 1], v);
    }
  }

  /** After a run of updates, a position holds the last update made there when that
      update has a contact length, and nothing when it has none. */
  lemma {:induction false} LastUpdateWins(m: Index, ts: seq<PositionedTile>, k: int)
    requires 0 <= k < |ts|
    requires forall l :: k < l < |ts| ==> ts[l].pos != ts[k].pos
    ensures ts[k].pos in ApplyUpdates(m, ts) <==> !ToBeDeleted(ts[k])
    ensures ts[k].pos in ApplyUpdates(m, ts) ==> ApplyUpdates(m, ts)[ts[k].pos] == ts[k]
  {
    var init := ts[..|ts| - 1];
    if k < |ts| - 1 {
      assert init[k] == ts[k];
      LastUpdateWins(m, init, k);
    }
  }

  /** The candidate tile across the edge `edge` leaving `point` of the map boundary `b`, on
      the `domain` side: at the bottom-left corner of the cell there, with that cell's
      common segments with `b`, or the failed uniqueness assertion of `common_segments`. */
  function TileAcross(b: Outline, point: Vect, edge: Vect, domain: Domain): Checked<PositionedTile>
    requires b.Valid()
  {
    var cell := CellOf(point, edge, domain);
    match CommonSegmentsOf(b, cell)
    case AssertionFailure => AssertionFailure
    case Ok(segs) => Ok(NewPositionedTile(cell.points[0], segs))
  }

  /** The candidate tile across an edge fails exactly when the boundary or the cell repeats
      a point; otherwise it sits at the cell's bottom-left corner, and it has a contact
      segment exactly when the cell shares a single segment with the boundary, that one. */
  lemma TileAcrossMeaning(b: Outline, point: Vect, edge: Vect, domain: Domain)
    requires b.Valid()
    ensures var r, cell := TileAcross(b, point, edge, domain), CellOf(point, edge, domain);
      (r.AssertionFailure? <==> !Distinct(b.points) || !Distinct(cell.points)) &&
      (r.Ok? ==> (var segs := CommonSegmentsOf(b, cell).value;
        r.value.Positioned? && r.value.pos == cell.points[0] &&
        (r.value.segment.Some? <==> |segs| == 1) && (r.value.segment.Some? ==> r.value.segment.value == segs[0])))
  {
  }

  /** The candidate tile across each edge, outside the map boundary `b`. */
  function TileResults(b: Outline, edges: seq<(Vect, Vect)>): (rs: seq<Checked<PositionedTile>>)
    requires b.Valid()
    ensures |rs| == |edges|
    ensures forall k :: 0 <= k < |edges| ==> rs[k] == TileAcross(b, edges[k].0, edges[k].1, Exterior)
  {
    seq(|edges|, k requires 0 <= k < |edges| && b.Valid() => TileAcross(b, edges[k].0, edges[k].1, Exterior))
  }

  /** `tiles_to_update`: the candidate tiles across the edges, in order, outside the map
      boundary `b`. It fails exactly when the tile across one of the edges fails;
      otherwise tile `k` is the one across edge `k`. */
  function TilesAcross(b: Outline, edges: seq<(Vect, Vect)>): (r: Checked<seq<PositionedTile>>)
    requires b.Valid()
    ensures r.Ok? ==> |r.value| == |edges|
    ensures r.Ok? ==> forall k :: 0 <= k < |edges| ==> TileAcross(b, edges[k].0, edges[k].1, Exterior) == Ok(r.value[k])
    ensures r.AssertionFailure? <==>
      exists k :: 0 <= k < |edges| && TileAcross(b, edges[k].0, edges[k].1, Exterior).AssertionFailure?
  {
    var rs := TileResults(b, edges);
    assert forall k :: 0 <= k < |edges| ==> rs[k] == TileAcross(b, edges[k].0, edges[k].1, Exterior);
    Collect(rs)
  }

  /** The loop that builds `tiles_to_update`, which stops at the first failed assertion. */
  method RefreshedCells(border: Boundary, edges: seq<(Vect, Vect)>) returns (r: Checked<seq<PositionedTile>>)
    requires border.Valid()
    ensures r == TilesAcross(border.Value(), edges)
  {
    ghost var rs := TileResults(border.Value(), edges);
    var tiles: seq<PositionedTile> := [];
    var i := 0;
    while i < |edges|
      invariant 0 <= i <= |edges|
      invariant Collect(rs[..i]) == Ok(tiles)
    {
      var t, cell := FromBoundaryEdge(border, edges[i].0, edges[i].1, Exterior);
      assert rs[i] == t;
      CollectSnoc(rs, i);
      if t.AssertionFailure? {
        assert Collect(rs).AssertionFailure?;
        return AssertionFailure;
      }
      tiles := tiles + [t.value];
      i := i + 1;
    }
    assert rs[..i] == rs;
    return Ok(tiles);
  }

  /** The loop `for pos_tile in tiles_to_update: candidate_tiles.update(pos_tile)`. */
  method UpdateAll(candidates: CandidateTiles, ts: seq<PositionedTile>)
    requires candidates.Valid()
    modifies candidates
    ensures candidates.Valid() && candidates.tiles == ApplyUpdates(old(candidates.tiles), ts)
  {
    var i := 0;
    while i < |ts|
      invariant 0 <= i <= |ts|
      invariant candidates.Valid() && candidates.tiles == ApplyUpdates(old(candidates.tiles), ts[..i])
    {
      ApplyUpdatesSnoc(old(candidates.tiles), ts, i);
      candidates.Update(ts[i]);
      i := i + 1;
    }
    assert ts[..i] == ts;
  }

  /** The live candidates, in iteration order, by contact length, longest first, and among
      equal lengths by distance to the centre, nearest first. */
  ghost predicate Ranked(r: seq<PositionedTile>)
  {
    (forall i, j :: 0 <= i < j < |r| ==> GetSegmentLength(r[i]) >= GetSegmentLength(r[j])) &&
    (forall i, j :: 0 <= i < j < |r| && GetSegmentLength(r[i]) == GetSegmentLength(r[j]) ==>
      GetL1Distance(r[i]) <= GetL1Distance(r[j]))
  }

  /** The two sorts that end `update_border_and_candidate_tiles`: by distance to the
      centre, then, stably, by contact length in reverse; the entries stay the same. */
  method RankCandidates(candidates: CandidateTiles) returns (ok: bool)
    requires candidates.Valid()
    modifies candidates
    ensures candidates.Valid() && candidates.tiles == old(candidates.tiles)
    ensures ok ==> Ranked(LiveTiles(candidates.sortedPositions, candidates.tiles))
    ensures (KeysInRange(candidates.tiles, GetL1Distance, false) &&
             KeysInRange(candidates.tiles, GetSegmentLength, true)) ==> ok
  {
    var sp0 := candidates.sortedPositions;
    ok := candidates.Sort(GetL1Distance, false);
    if !ok {
      return;
    }
    var sp1 := candidates.sortedPositions;
    ok := candidates.Sort(GetSegmentLength, true);
    if !ok {
      return;
    }
    ghost var m := candidates.tiles;
    RankedByContactThenDistance(sp0, m, sp1);
    assert LiveTiles(candidates.sortedPositions, m) ==
      LiveTiles(StableSort(sp1, SortKey(m, GetSegmentLength, true)), m);
  }

  /** The candidate part of `update_border_and_candidate_tiles`, once `border` holds the
      merged boundary: drop the placed cell, refresh the cells across the neighbour edges
      and rank the candidates. */
  method RefreshCandidates(placed: PositionedTile, border: Boundary, candidates: CandidateTiles)
    returns (r: Checked<seq<PositionedTile>>)
    requires placed.WellFormed() && border.Valid() && candidates.Valid()
    modifies candidates
    ensures candidates.Valid()
    ensures r.Ok? ==> r == TilesAcross(border.Value(), NeighborEdges(IterComplementSegment(placed)))
    ensures r.Ok? ==> candidates.tiles == ApplyUpdates(old(candidates.tiles) - {placed.pos}, r.value)
    ensures r.Ok? ==> Ranked(LiveTiles(candidates.sortedPositions, candidates.tiles))
  {
    candidates.Delete(placed.pos);
    r := RefreshedCells(border, NeighborEdges(IterComplementSegment(placed)));
    if r.AssertionFailure? {
      return;
    }
    UpdateAll(candidates, r.value);
    var ok := RankCandidates(candidates);
    if !ok {
      return AssertionFailure;
    }
  }

  /** `update_border_and_candidate_tiles(placed, border, candidates)`: merge the placed
      tile into the map boundary, drop its cell from the candidates, refresh the cells
      next to its boundary off the contact segment, and rank the candidates by contact
      length, longest first, then by distance to the centre, nearest first. A failed
      assertion (in the merge, in a common-segment computation or in the resize after a
      sort) ends the update there. */
  method UpdateBorderAndCandidateTiles(placed: PositionedTile, border: Boundary, candidates: CandidateTiles)
    returns (r: Checked<PositionedTile>, refreshed: seq<PositionedTile>)
    requires placed.Placed? && placed.WellFormed()
    requires border.Valid() && candidates.Valid()
    modifies border, candidates
    ensures border.Valid() && candidates.Valid()
    ensures MergeOf(old(border.Value()), GetBoundary(placed)).AssertionFailure? ==>
      r.AssertionFailure? && border.Value() == old(border.Value()) && unchanged(candidates)
    ensures r.Ok? ==> r.value == placed && MergeOf(old(border.Value()), GetBoundary(placed)) == Ok(border.Value())
    ensures r.Ok? ==> TilesAcross(border.Value(), NeighborEdges(IterComplementSegment(placed))) == Ok(refreshed)
    ensures r.Ok? ==> candidates.tiles == ApplyUpdates(old(candidates.tiles) - {placed.pos}, refreshed)
    ensures r.Ok? ==> Ranked(LiveTiles(candidates.sortedPositions, candidates.tiles))
  {
    refreshed := [];
    var tileBoundary := new Boundary();
    tileBoundary.Replace(GetBoundary(placed));
    var merged := border.Merge(tileBoundary);
    if !merged {
      return AssertionFailure, refreshed;
    }
    var pending := RefreshCandidates(placed, border, candidates);
    if pending.AssertionFailure? {
      return AssertionFailure, refreshed;
    }
    return Ok(placed), pending.value;
  }
}
