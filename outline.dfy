/** The value of a boundary: a cyclic polygon held as two parallel lists, the
    vertices and the labels of the edges leaving them (boundary.py). */
module Outlines {
  import opened Wrappers
  import opened Vectors
  import opened SeqFacts
  import Modular

  /** An edge label: a side letter such as 'F', 'P', 'T' or 'R', or Python's None. */
  type Label = Option<char>

  /** The contents of a boundary: vertex `k` and the label of the edge leaving it. */
  datatype Outline = Outline(points: seq<Vect>, labels: seq<Label>)
  {
    /** The invariant `__len__` asserts: both lists have the same length. */
    predicate Valid()
    {
      |points| == |labels|
    }
  }

  /** Length of the cyclic range from `i` to `j`: `(j - i) mod n`, or all `n` when `i == j (mod n)`. */
  function SliceLength(n: nat, i: int, j: int): nat
    requires n > 0
  {
    if (j - i) % n == 0 then n else (j - i) % n
  }

  /** Index facts for the two branches of `slice`. */
  lemma SliceIndex(n: int, i: int, j: int, k: int)
    requires n > 0 && 0 <= k
    ensures i % n < j % n && k < j % n - i % n ==> (i + k) % n == i % n + k
    ensures i % n >= j % n && k < n - i % n ==> (i + k) % n == i % n + k
    ensures i % n >= j % n && n - i % n <= k < n ==> (i + k) % n == i % n + k - n
  {
    Modular.ModOfSum(i, k, n);
    if i % n + k < n {
      Modular.ModSmall(i % n + k, n);
    } else if k < n {
      Modular.ModAddMultiple(i % n + k - n, 1, n);
      Modular.ModSmall(i % n + k - n, n);
    }
  }

  /** The cyclic slice `[i, j)` of an outline, as `Boundary.slice` builds it. */
  function Slice(o: Outline, i: int, j: int): (r: Outline)
    requires o.Valid() && |o.points| > 0
    ensures r.Valid()
    ensures |r.points| == SliceLength(|o.points|, i, j)
    ensures forall k :: 0 <= k < |r.points| ==>
      r.points[k] == o.points[(i + k) % |o.points|] && r.labels[k] == o.labels[(i + k) % |o.points|]
  {
    var n := |o.points|;
    var r := SliceBetween(o, i % n, j % n);
    assert |r.points| == SliceLength(n, i, j) by {
      Modular.ModDiff(i, j, n);
    }
    forall k | 0 <= k < |r.points|
      ensures r.points[k] == o.points[(i + k) % n] && r.labels[k] == o.labels[(i + k) % n]
    {
      SliceAt(o, i, j, k);
    }
    r
  }

  /** The two branches of `slice` on indices already reduced modulo the length. */
  function SliceBetween(o: Outline, imod: int, jmod: int): (r: Outline)
    requires o.Valid() && 0 <= imod < |o.points| && 0 <= jmod < |o.points|
    ensures r.Valid()
    ensures |r.points| == if imod < jmod then jmod - imod else |o.points| - imod + jmod
  {
    if imod < jmod then Outline(o.points[imod..jmod], o.labels[imod..jmod])
    else Outline(o.points[imod..] + o.points[..jmod], o.labels[imod..] + o.labels[..jmod])
  }

  /** Entry `k` of the slice is entry `i + k` of the cycle. */
  lemma SliceAt(o: Outline, i: int, j: int, k: int)
    requires o.Valid() && |o.points| > 0
    requires 0 <= k < |SliceBetween(o, i % |o.points|, j % |o.points|).points|
    ensures var r, n := SliceBetween(o, i % |o.points|, j % |o.points|), |o.points|;
      r.points[k] == o.points[(i + k) % n] && r.labels[k] == o.labels[(i + k) % n]
  {
    var n := |o.points|;
    SliceIndex(n, i, j, k);
  }

  /** The concatenation used by `__append`. */
  function Concat(a: Outline, b: Outline): (r: Outline)
    requires a.Valid() && b.Valid()
    ensures r.Valid() && |r.points| == |a.points| + |b.points|
  {
    Outline(a.points + b.points, a.labels + b.labels)
  }

  /** Edge `idx` (any integer, taken modulo the length): from vertex `idx` to the next one. */
  function GetEdge(o: Outline, idx: int): (e: Vect)
    requires o.Valid() && |o.points| > 0
    ensures o.points[idx % |o.points|].Add(e) == o.points[(idx + 1) % |o.points|]
  {
    var n := |o.points|;
    o.points[(idx + 1) % n].Sub(o.points[idx % n])
  }

  /** Sum of the first `k` edges, walking the cycle from vertex 0. */
  function EdgeSum(o: Outline, k: nat): Vect
    requires o.Valid() && |o.points| > 0
  {
    if k == 0 then Vect(0, 0) else EdgeSum(o, k - 1).Add(GetEdge(o, k - 1))
  }

  /** Walking `k` edges from vertex 0 lands on vertex `k mod n`. */
  lemma {:induction false} EdgeWalk(o: Outline, k: nat)
    requires o.Valid() && |o.points| > 0
    ensures EdgeSum(o, k) == o.points[k % |o.points|].Sub(o.points[0])
  {
    if k == 0 {
      assert 0 % |o.points| == 0;
    } else {
      EdgeWalk(o, k - 1);
    }
  }

  /** The edges of the whole cycle sum to zero: the polygon is closed. */
  lemma EdgesSumToZero(o: Outline)
    requires o.Valid() && |o.points| > 0
    ensures EdgeSum(o, |o.points|) == Vect(0, 0)
  {
    EdgeWalk(o, |o.points|);
    assert |o.points| % |o.points| == 0;
  }

  /** The turn at the vertex between edge `t` and edge `t + 1`. */
  function Turn(o: Outline, t: int): int
    requires o.Valid() && |o.points| > 0
  {
    GetEdge(o, t).CrossZ(GetEdge(o, t + 1))
  }

  /** The sum of the turns `t` for `lo <= t < hi`. */
  function TurnSum(o: Outline, lo: int, hi: int): int
    requires o.Valid() && |o.points| > 0 && lo <= hi
    decreases hi - lo
  {
    if lo == hi then 0 else TurnSum(o, lo, hi - 1) + Turn(o, hi - 1)
  }

  /** What `orientation()` returns: a member of the enumeration, or the integer 0. */
  datatype OrientationValue = Enum(value: Orientation) | IntZero

  /** `orientation()`: the sign of the sum of the turns over the whole cycle. In the
      degenerate case it returns the integer 0, so `Undefined` is never produced. */
  function GetOrientation(o: Outline): (r: OrientationValue)
    requires o.Valid()
    ensures r != Enum(Undefined)
    ensures |o.points| == 0 ==> r == IntZero
  {
    var total := if |o.points| == 0 then 0 else TurnSum(o, 0, |o.points|);
    if total > 0 then Enum(CounterClockwise)
    else if total < 0 then Enum(Clockwise)
    else IntZero
  }

  /** Edges, and hence turns, repeat with the period of the cycle. */
  lemma EdgePeriodic(o: Outline, t: int)
    requires o.Valid() && |o.points| > 0
    ensures GetEdge(o, t + |o.points|) == GetEdge(o, t)
    ensures Turn(o, t + |o.points|) == Turn(o, t)
  {
    var n := |o.points|;
    Modular.ModAddMultiple(t, 1, n);
    Modular.ModAddMultiple(t + 1, 1, n);
    Modular.ModAddMultiple(t + 2, 1, n);
    assert t + n + 1 == t + 1 + 1 * n;
    assert t + n + 2 == t + 2 + 1 * n;
  }

  /** A sum of turns splits at any middle index. */
  lemma {:induction false} TurnSumSplit(o: Outline, a: int, b: int, c: int)
    requires o.Valid() && |o.points| > 0 && a <= b <= c
    ensures TurnSum(o, a, c) == TurnSum(o, a, b) + TurnSum(o, b, c)
    decreases c - b
  {
    if b < c {
      TurnSumSplit(o, a, b, c - 1);
    }
  }

  /** Any window of `n` consecutive turns sums to the same total. */
  lemma {:induction false} TurnSumWindow(o: Outline, lo: int)
    requires o.Valid() && |o.points| > 0
    ensures TurnSum(o, lo, lo + |o.points|) == TurnSum(o, 0, |o.points|)
    decreases if lo < 0 then -lo else lo
  {
    if lo > 0 {
      TurnSumWindow(o, lo - 1);
      WindowStep(o, lo - 1);
    } else if lo < 0 {
      TurnSumWindow(o, lo + 1);
      WindowStep(o, lo);
    }
  }

  /** Sliding a window of `n` turns by one drops turn `lo` and adds its copy `lo + n`. */
  lemma WindowStep(o: Outline, lo: int)
    requires o.Valid() && |o.points| > 0
    ensures TurnSum(o, lo, lo + |o.points|) == TurnSum(o, lo + 1, lo + 1 + |o.points|)
  {
    var n := |o.points|;
    TurnSumSplit(o, lo, lo + 1, lo + n);
    TurnSumSplit(o, lo + 1, lo + n, lo + 1 + n);
    EdgePeriodic(o, lo);
  }

  /** The same cycle read from vertex `k`: `slice(k, k)` is the whole outline. */
  lemma {:induction false} ShiftedEdge(o: Outline, k: int, t: int)
    requires o.Valid() && |o.points| > 0
    ensures |Slice(o, k, k).points| == |o.points|
    ensures GetEdge(Slice(o, k, k), t) == GetEdge(o, t + k)
  {
    var n := |o.points|;
    assert (k - k) % n == 0;
    Modular.ModOfSum(t + 1, k, n);
    Modular.ModOfSum(t, k, n);
    assert (t + 1) % n + k == k + (t + 1) % n;
    assert t % n + k == k + t % n;
  }

  /** Reading a cycle from another start vertex does not change its orientation. */
  lemma CyclicShiftKeepsOrientation(o: Outline, k: int)
    requires o.Valid() && |o.points| > 0
    ensures GetOrientation(Slice(o, k, k)) == GetOrientation(o)
  {
    var n := |o.points|;
    var o' := Slice(o, k, k);
    ShiftedTurnSum(o, k, n);
    TurnSumWindow(o, k);
    SameTotalSameOrientation(o', o);
  }

  /** The orientation depends only on the total turn. */
  lemma SameTotalSameOrientation(o: Outline, o': Outline)
    requires o.Valid() && |o.points| > 0 && o'.Valid() && |o'.points| > 0
    requires TurnSum(o, 0, |o.points|) == TurnSum(o', 0, |o'.points|)
    ensures GetOrientation(o) == GetOrientation(o')
  {
    OrientationBySign(o);
    OrientationBySign(o');
  }

  lemma ShiftedTurnSum(o: Outline, k: int, h: nat)
    requires o.Valid() && |o.points| > 0
    ensures |Slice(o, k, k).points| == |o.points|
    ensures TurnSum(Slice(o, k, k), 0, h) == TurnSum(o, k, k + h)
  {
    var o' := Slice(o, k, k);
    ShiftedEdge(o, k, 0);
    forall t ensures Turn(o', t) == Turn(o, t + k) {
      ShiftedTurn(o, k, t);
    }
    TurnSumShift(o, o', k, h);
  }

  /** Turn sums agree on two outlines whose turns agree up to a shift by `k`. */
  lemma {:induction false} TurnSumShift(o: Outline, o': Outline, k: int, h: nat)
    requires o.Valid() && |o.points| > 0 && o'.Valid() && |o'.points| > 0
    requires forall t :: Turn(o', t) == Turn(o, t + k)
    ensures TurnSum(o', 0, h) == TurnSum(o, k, k + h)
  {
    if h > 0 {
      TurnSumShift(o, o', k, h - 1);
      assert Turn(o', h - 1) == Turn(o, h - 1 + k);
    }
  }

  /** Turn `t` of the cycle read from vertex `k` is turn `t + k` of the outline. */
  lemma ShiftedTurn(o: Outline, k: int, t: int)
    requires o.Valid() && |o.points| > 0
    ensures |Slice(o, k, k).points| == |o.points|
    ensures Turn(Slice(o, k, k), t) == Turn(o, t + k)
  {
    ShiftedEdge(o, k, t);
    ShiftedEdge(o, k, t + 1);
  }

  /** The outline traversed in the opposite direction. */
  function Reversed(o: Outline): (r: Outline)
    requires o.Valid()
    ensures r.Valid() && |r.points| == |o.points|
  {
    var n := |o.points|;
    Outline(seq(n, i requires 0 <= i < n => o.points[n - 1 - i]),
            seq(n, i requires 0 <= i < n => o.labels[n - 1 - i]))
  }

  /** Edge `t` of the reversed outline is edge `n - 2 - t` of the original, negated. */
  lemma ReversedEdge(o: Outline, t: int)
    requires o.Valid() && |o.points| > 0 && 0 <= t < |o.points|
    ensures GetEdge(Reversed(o), t) == GetEdge(o, |o.points| - 2 - t).Mult(-1)
  {
    var n := |o.points|;
    Modular.ModSmall(t, n);
    if t + 1 < n {
      Modular.ModSmall(t + 1, n);
      Modular.ModSmall(n - 1 - t, n);
      Modular.ModSmall(n - 2 - t, n);
    } else {
      Modular.ModAddMultiple(0, 1, n);
      Modular.ModAddMultiple(-1, 1, n);
      Modular.ModSmall(n - 1, n);
      assert (n - 2 - t) % n == n - 1;
      assert (n - 2 - t + 1) % n == 0;
    }
  }

  /** Turn `t` of the reversed outline is minus turn `n - 3 - t` of the original. */
  lemma ReversedTurn(o: Outline, t: int)
    requires o.Valid() && |o.points| > 0 && 0 <= t < |o.points|
    ensures Turn(Reversed(o), t) == -Turn(o, |o.points| - 3 - t)
  {
    var n := |o.points|;
    var r := Reversed(o);
    ReversedEdge(o, t);
    if t + 1 < n {
      ReversedEdge(o, t + 1);
    } else {
      EdgePeriodic(r, 0);
      ReversedEdge(o, 0);
      EdgePeriodic(o, -2);
    }
    var a, b := GetEdge(o, n - 2 - t), GetEdge(o, n - 3 - t);
    CrossNegated(a, b);
    CrossAntisymmetric(a, b, 0);
  }

  lemma {:induction false} ReversedTurnSum(o: Outline, h: nat)
    requires o.Valid() && |o.points| > 0 && h <= |o.points|
    ensures TurnSum(Reversed(o), 0, h) == -TurnSum(o, |o.points| - 2 - h, |o.points| - 2)
  {
    var n := |o.points|;
    if h > 0 {
      ReversedTurnSum(o, h - 1);
      ReversedTurn(o, h - 1);
      TurnSumSplit(o, n - 2 - h, n - 1 - h, n - 2);
    }
  }

  /** Orientation sign law: traversing the points in reverse order swaps clockwise and
      counter-clockwise, and keeps a degenerate outline degenerate. */
  lemma ReversalFlipsOrientation(o: Outline)
    requires o.Valid()
    ensures GetOrientation(o) == Enum(CounterClockwise) <==> GetOrientation(Reversed(o)) == Enum(Clockwise)
    ensures GetOrientation(o) == Enum(Clockwise) <==> GetOrientation(Reversed(o)) == Enum(CounterClockwise)
    ensures GetOrientation(o) == IntZero <==> GetOrientation(Reversed(o)) == IntZero
  {
    var n := |o.points|;
    if n > 0 {
      ReversedTurnSum(o, n);
      TurnSumWindow(o, -2);
    }
  }

  /** `is_unique_points`: `len(set(points)) == len(points)`, i.e. no vertex repeats. */
  function IsUniquePoints(o: Outline): (r: bool)
    ensures r <==> Distinct(o.points)
  {
    DistinctIffCard(o.points);
    |Elems(o.points)| == |o.points|
  }

  /** Python's strict tuple comparison of sort keys. */
  predicate KeyLt(a: (int, int), b: (int, int))
  {
    a.0 < b.0 || (a.0 == b.0 && a.1 < b.1)
  }

  /** `min(points, key=cmp_key)`: a left-to-right scan that keeps the first smallest key. */
  function MinByKey(s: seq<Vect>): (m: Vect)
    requires |s| > 0
    ensures m in s
    ensures forall p :: p in s ==> KeyLe(m.CmpKey(), p.CmpKey())
  {
    if |s| == 1 then s[0]
    else
      var m := MinByKey(s[..|s| - 1]);
      assert forall p :: p in s ==> p in s[..|s| - 1] || p == s[|s| - 1];
      if KeyLt(s[|s| - 1].CmpKey(), m.CmpKey()) then s[|s| - 1] else m
  }

  /** `bottomleft()`: the coordinates of the vertex with the smallest `(x, y)` key. */
  function BottomLeft(o: Outline): (r: (int, int))
    requires |o.points| > 0
    ensures Vect(r.0, r.1) in o.points
    ensures forall p :: p in o.points ==> KeyLe(r, p.CmpKey())
  {
    var m := MinByKey(o.points);
    (m.x, m.y)
  }

  /** A 4-cycle whose edges are one direction turned by `r` quarter turns at each vertex. */
  lemma SquareTurns(b: Outline, d: Vect, r: int)
    requires b.Valid() && |b.points| == 4 && (r == 1 || r == -1)
    requires forall k :: 0 <= k < 4 ==> GetEdge(b, k) == d.Rotate(r * k)
    ensures TurnSum(b, 0, |b.points|) == 4 * d.CrossZ(d.Rotate(r))
  {
    var n := |b.points|;
    var c := d.CrossZ(d.Rotate(r));
    EdgePeriodic(b, 0);
    RotatePeriodic(d, 0, r);
    forall k | 0 <= k < 4 ensures Turn(b, k) == c {
      QuarterTurnStep(b, d, r, k);
    }
    assert TurnSum(b, 0, n) == TurnSum(b, 0, 3) + Turn(b, 3);
    assert TurnSum(b, 0, 3) == TurnSum(b, 0, 2) + Turn(b, 2);
    assert TurnSum(b, 0, 2) == TurnSum(b, 0, 1) + Turn(b, 1);
    assert TurnSum(b, 0, 1) == Turn(b, 0);
  }

  /** Each turn of such a square is the cross product of the first edge with its quarter turn. */
  lemma QuarterTurnStep(b: Outline, d: Vect, r: int, k: int)
    requires b.Valid() && |b.points| == 4 && 0 <= k < 4
    requires forall k :: 0 <= k < 4 ==> GetEdge(b, k) == d.Rotate(r * k)
    requires GetEdge(b, 4) == GetEdge(b, 0) && d.Rotate(0 + 4 * r) == d.Rotate(0)
    ensures Turn(b, k) == d.CrossZ(d.Rotate(r))
  {
    assert GetEdge(b, k + 1) == d.Rotate(r * (k + 1)) by {
      if k == 3 {
        assert r * (k + 1) == 0 + 4 * r;
      }
    }
    RotateCompose(d, r, r * k);
    assert r + r * k == r * (k + 1);
    CrossRotateInvariant(d, d.Rotate(r), r * k);
  }

  /** `get_tile(i, j, desc)`: the unit cell with bottom-left corner `(i, j)`, walked
      counter-clockwise from that corner, side `k` labelled `desc[k]`. */
  function GetTile(i: int, j: int, desc: seq<Label>): (r: Outline)
    requires |desc| == 4
    ensures r.Valid() && |r.points| == 4 && r.labels == desc
    ensures r.points[0] == Vect(i, j)
    ensures forall k :: 0 <= k < 4 ==> GetEdge(r, k) == Vect(1, 0).Rotate(k)
  {
    var r := Outline([Vect(i, j), Vect(i + 1, j), Vect(i + 1, j + 1), Vect(i, j + 1)], desc);
    assert 0 % 4 == 0 && 1 % 4 == 1 && 2 % 4 == 2 && 3 % 4 == 3 && 4 % 4 == 0;
    r
  }

  /** A unit tile is walked counter-clockwise. */
  lemma GetTileOrientation(i: int, j: int, desc: seq<Label>)
    requires |desc| == 4
    ensures GetOrientation(GetTile(i, j, desc)) == Enum(CounterClockwise)
  {
    var t := GetTile(i, j, desc);
    forall k | 0 <= k < 4 ensures GetEdge(t, k) == Vect(1, 0).Rotate(1 * k) {
      assert 1 * k == k;
    }
    SquareTurns(t, Vect(1, 0), 1);
    SquareOrientation(t, Vect(1, 0), 1);
  }

  /** The bottom-left corner of a unit tile is its position. */
  lemma GetTileBottomLeft(i: int, j: int, desc: seq<Label>)
    requires |desc| == 4
    ensures BottomLeft(GetTile(i, j, desc)) == (i, j)
  {
    var t := GetTile(i, j, desc);
    var m := MinByKey(t.points);
    assert KeyLe(m.CmpKey(), t.points[0].CmpKey());
  }

  /** The four corners of a unit tile are distinct. */
  lemma GetTileUnique(i: int, j: int, desc: seq<Label>)
    requires |desc| == 4
    ensures IsUniquePoints(GetTile(i, j, desc))
  {
    var t := GetTile(i, j, desc);
    assert Distinct(t.points);
  }

  /** The direction of the first edge `from_edge` walks, and the quarter turn it takes at each vertex. */
  function StartDirection(edge: Vect, orientation: Orientation, domain: Domain): (r: Vect)
    ensures domain == Interior ==> r == edge
    ensures r == Vect(0, 0) <==> edge == Vect(0, 0)
  {
    var r := if orientation == CounterClockwise then 1 else -1;
    if domain == Interior then edge else edge.Rotate(-r)
  }

  /** The first direction has the edge's length; outside, it is the edge turned a quarter
      against the walk, so that the edge is a quarter turn in the walk's direction from it
      and the cell lies on the far side of the edge. */
  lemma StartDirectionSide(edge: Vect, orientation: Orientation, domain: Domain)
    ensures StartDirection(edge, orientation, domain).Norm2() == edge.Norm2()
    ensures domain == Exterior ==>
      StartDirection(edge, orientation, domain).CrossZ(edge) == (if orientation == CounterClockwise then edge.Norm2() else -edge.Norm2())
  {
    QuarterTurns(edge);
  }

  /** `from_edge`: the 4-vertex outline of the cell on the `domain` side of the edge
      starting at `point`, walked in the requested orientation. With a non-zero edge its
      orientation is the requested one (`Undefined` is walked clockwise, as the source does);
      a zero edge gives a degenerate outline. */
  method FromEdge(point: Vect, edge: Vect, orientation: Orientation, domain: Domain) returns (b: Outline)
    ensures b.Valid() && |b.points| == 4 && b.points[0] == point
    ensures forall k :: 0 <= k < 4 ==> b.labels[k] == None
    ensures forall k :: 0 <= k < 4 ==>
      GetEdge(b, k) == StartDirection(edge, orientation, domain).Rotate((if orientation == CounterClockwise then 1 else -1) * k)
    ensures edge != Vect(0, 0) ==>
      GetOrientation(b) == Enum(if orientation == CounterClockwise then CounterClockwise else Clockwise)
    ensures edge == Vect(0, 0) ==> GetOrientation(b) == IntZero
  {
    var points: seq<Vect> := [];
    var labels: seq<Label> := [];
    var currentPoint := point;
    var r := if orientation == CounterClockwise then 1 else -1;
    var d0 := if domain == Interior then edge else edge.Rotate(-r);
    assert d0 == StartDirection(edge, orientation, domain);
    var currentDir := d0;
    for i := 0 to 4
      invariant |points| == i && |labels| == i
      invariant forall k :: 0 <= k < i ==> labels[k] == None
      invariant i > 0 ==> points[0] == point
      invariant forall k :: 0 <= k < i - 1 ==> points[k + 1] == points[k].Add(d0.Rotate(r * k))
      invariant i == 0 ==> currentPoint == point
      invariant i > 0 ==> currentPoint == points[i - 1].Add(d0.Rotate(r * (i - 1)))
      invariant currentDir == d0.Rotate(r * i)
    {
      points := points + [currentPoint];
      labels := labels + [None];
      currentPoint := currentPoint.Add(currentDir);
      TurnStep(d0, r, i);
      currentDir := currentDir.Rotate(r);
    }
    b := Outline(points, labels);
    WalkedSquareOrientation(b, edge, orientation, domain);
  }

  /** One more quarter turn `r` after `i` of them. */
  lemma TurnStep(d0: Vect, r: int, i: int)
    ensures d0.Rotate(r * i).Rotate(r) == d0.Rotate(r * (i + 1))
  {
    RotateCompose(d0, r * i, r);
    assert r * i + r == r * (i + 1);
  }

  /** The square `from_edge` walks has the edges and the orientation it promises. */
  lemma WalkedSquareOrientation(b: Outline, edge: Vect, orientation: Orientation, domain: Domain)
    requires b.Valid() && |b.points| == 4
    requires var r := if orientation == CounterClockwise then 1 else -1;
      forall k :: 0 <= k < 3 ==>
        b.points[k + 1] == b.points[k].Add(StartDirection(edge, orientation, domain).Rotate(r * k))
    ensures forall k :: 0 <= k < 4 ==>
      GetEdge(b, k) == StartDirection(edge, orientation, domain).Rotate((if orientation == CounterClockwise then 1 else -1) * k)
    ensures edge != Vect(0, 0) ==>
      GetOrientation(b) == Enum(if orientation == CounterClockwise then CounterClockwise else Clockwise)
    ensures edge == Vect(0, 0) ==> GetOrientation(b) == IntZero
  {
    var r := if orientation == CounterClockwise then 1 else -1;
    var d0 := StartDirection(edge, orientation, domain);
    assert d0 == Vect(0, 0) <==> edge == Vect(0, 0);
    WalkedSquare(b, d0, r);
    SquareOrientation(b, d0, r);
  }

  /** The orientation of a square walked with quarter turns `r` along edges of direction `d`. */
  lemma SquareOrientation(b: Outline, d: Vect, r: int)
    requires b.Valid() && |b.points| > 0 && (r == 1 || r == -1)
    requires TurnSum(b, 0, |b.points|) == 4 * d.CrossZ(d.Rotate(r))
    ensures d == Vect(0, 0) ==> GetOrientation(b) == IntZero
    ensures d != Vect(0, 0) ==> GetOrientation(b) == Enum(if r == 1 then CounterClockwise else Clockwise)
  {
    FourQuarterTurnsSign(TurnSum(b, 0, |b.points|), d, r);
    OrientationBySign(b);
  }

  /** The orientation read off the sign of the total turn. */
  lemma OrientationBySign(b: Outline)
    requires b.Valid() && |b.points| > 0
    ensures TurnSum(b, 0, |b.points|) == 0 ==> GetOrientation(b) == IntZero
    ensures TurnSum(b, 0, |b.points|) > 0 ==> GetOrientation(b) == Enum(CounterClockwise)
    ensures TurnSum(b, 0, |b.points|) < 0 ==> GetOrientation(b) == Enum(Clockwise)
  {
  }

  /** The outline `from_edge` walks: three edges turning by `r`, closed by a fourth. */
  lemma WalkedSquare(b: Outline, d0: Vect, r: int)
    requires b.Valid() && |b.points| == 4 && (r == 1 || r == -1)
    requires forall k :: 0 <= k < 3 ==> b.points[k + 1] == b.points[k].Add(d0.Rotate(r * k))
    ensures forall k :: 0 <= k < 4 ==> GetEdge(b, k) == d0.Rotate(r * k)
    ensures TurnSum(b, 0, |b.points|) == 4 * d0.CrossZ(d0.Rotate(r))
  {
    var p := b.points;
    assert 0 % 4 == 0 && 1 % 4 == 1 && 2 % 4 == 2 && 3 % 4 == 3 && 4 % 4 == 0;
    assert -1 % 4 == 3 && -2 % 4 == 2 && -3 % 4 == 1;
    assert p[1] == p[0].Add(d0.Rotate(r * 0));
    assert p[2] == p[1].Add(d0.Rotate(r * 1));
    assert p[3] == p[2].Add(d0.Rotate(r * 2));
    if r == 1 {
      assert d0.Rotate(0) == d0 && d0.Rotate(1) == Vect(-d0.y, d0.x) && d0.Rotate(2) == Vect(-d0.x, -d0.y);
      assert d0.Rotate(3) == Vect(d0.y, -d0.x);
    } else {
      assert d0.Rotate(0) == d0 && d0.Rotate(-1) == Vect(d0.y, -d0.x) && d0.Rotate(-2) == Vect(-d0.x, -d0.y);
      assert d0.Rotate(-3) == Vect(-d0.y, d0.x);
    }
    assert GetEdge(b, 3) == d0.Rotate(r * 3);
    SquareTurns(b, d0, r);
  }
}
