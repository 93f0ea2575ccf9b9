/** Integer 2-D vectors and the two enumerations of boundary.py. */
module Vectors {
  import Modular

  /** An integer 2-D point or direction; equality is by component. */
  datatype Vect = Vect(x: int, y: int)
  {
    /** Moving by `other`: the point stays where it is exactly for the zero step. */
    function Add(other: Vect): (r: Vect)
      ensures r == this <==> other == Vect(0, 0)
    {
      Vect(x + other.x, y + other.y)
    }

    /** The step from `other` to this point; it is zero exactly when the two points coincide. */
    function Sub(other: Vect): (r: Vect)
      ensures r == Vect(0, 0) <==> this == other
    {
      Vect(x - other.x, y - other.y)
    }

    /** Scaling by an integer factor; by `-1` it is the opposite vector. */
    function Mult(m: int): (r: Vect)
      ensures m == -1 ==> r.Add(this) == Vect(0, 0)
      ensures m == 0 ==> r == Vect(0, 0)
    {
      Vect(m * x, m * y)
    }

    /** The z component of the 3-D cross product (twice a signed triangle area). */
    function CrossZ(other: Vect): (r: int)
      ensures other == this ==> r == 0
    {
      x * other.y - y * other.x
    }

    /** The squared Euclidean length, used to state what rotation preserves. */
    function Norm2(): (r: int)
      ensures r >= 0
      ensures r == 0 <==> this == Vect(0, 0)
    {
      x * x + y * y
    }

    /** Rotation by `r` quarter turns counter-clockwise; only `r % 4` matters. */
    function Rotate(r: int): (v: Vect)
      ensures v == Vect(0, 0) <==> this == Vect(0, 0)
    {
      var rmod := r % 4;
      if rmod == 0 then Vect(x, y)
      else if rmod == 1 then Vect(-y, x)
      else if rmod == 2 then Vect(-x, -y)
      else Vect(y, -x)
    }

    /** The sort key of a vector: the pair `(x, y)`. */
    function CmpKey(): (k: (int, int))
      ensures Vect(k.0, k.1) == this
    {
      (x, y)
    }

    /** L1 norm `|x| + |y|`: the distance of a position to the map centre. */
    function L1Distance(): (r: int)
      ensures r >= 0
      ensures r == 0 <==> this == Vect(0, 0)
      ensures r >= x && r >= -x && r >= y && r >= -y
    {
      (if x < 0 then -x else x) + (if y < 0 then -y else y)
    }
  }

  /** Python's lexicographic comparison of the `(x, y)` sort keys. */
  predicate KeyLe(a: (int, int), b: (int, int))
  {
    a.0 < b.0 || (a.0 == b.0 && a.1 <= b.1)
  }

  datatype Orientation = Clockwise | CounterClockwise | Undefined

  datatype Domain = Interior | Exterior

  /** `(1, 0) x (0, 1) == 1`: the basis is counter-clockwise. */
  lemma CrossUnitExample(ex: Vect, ey: Vect)
    requires ex == Vect(1, 0) && ey == Vect(0, 1)
    ensures ex.CrossZ(ey) == 1 && ey.CrossZ(ex) == -1
  {
  }

  /** A quarter turn maps `(x, y)` to `(-y, x)`, and its inverse to `(y, -x)`. */
  lemma QuarterTurns(v: Vect)
    ensures v.Rotate(1) == Vect(-v.y, v.x)
    ensures v.Rotate(-1) == Vect(v.y, -v.x)
  {
    assert -1 % 4 == 3;
  }

  /** The cross product is antisymmetric and vanishes on parallel vectors. */
  lemma CrossAntisymmetric(a: Vect, b: Vect, m: int)
    ensures a.CrossZ(b) == -b.CrossZ(a)
    ensures a.CrossZ(a.Mult(m)) == 0
  {
  }

  /** Rotating both operands by the same quarter turns keeps the cross product. */
  lemma CrossRotateInvariant(a: Vect, b: Vect, r: int)
    ensures a.Rotate(r).CrossZ(b.Rotate(r)) == a.CrossZ(b)
  {
  }

  /** Quarter turns preserve length. */
  lemma RotatePreservesNorm(v: Vect, r: int)
    ensures v.Rotate(r).Norm2() == v.Norm2()
  {
  }

  /** A vector crossed with its own quarter turn gives plus or minus its squared length. */
  lemma CrossWithQuarterTurn(d: Vect)
    ensures d.CrossZ(d.Rotate(1)) == d.Norm2()
    ensures d.CrossZ(d.Rotate(-1)) == -d.Norm2()
  {
    QuarterTurns(d);
  }

  /** A non-zero vector crossed with its quarter turn has the sign of the turn. */
  lemma QuarterTurnCrossSign(d: Vect, r: int)
    requires r == 1 || r == -1
    ensures d == Vect(0, 0) ==> d.CrossZ(d.Rotate(r)) == 0
    ensures d != Vect(0, 0) && r == 1 ==> d.CrossZ(d.Rotate(r)) > 0
    ensures d != Vect(0, 0) && r == -1 ==> d.CrossZ(d.Rotate(r)) < 0
  {
    CrossWithQuarterTurn(d);
  }

  /** Four times that cross product has the same sign. */
  lemma FourQuarterTurnsSign(t: int, d: Vect, r: int)
    requires r == 1 || r == -1
    requires t == 4 * d.CrossZ(d.Rotate(r))
    ensures d == Vect(0, 0) ==> t == 0
    ensures d != Vect(0, 0) && r == 1 ==> t > 0
    ensures d != Vect(0, 0) && r == -1 ==> t < 0
  {
    QuarterTurnCrossSign(d, r);
  }

  /** Negating both vectors keeps their cross product. */
  lemma CrossNegated(a: Vect, b: Vect)
    ensures a.Mult(-1).CrossZ(b.Mult(-1)) == a.CrossZ(b)
  {
  }

  /** `rotate(r)` depends only on `r % 4`. */
  lemma RotatePeriodic(v: Vect, r: int, k: int)
    ensures v.Rotate(r + 4 * k) == v.Rotate(r)
  {
    Modular.ModAddMultiple(r, k, 4);
  }

  /** Quarter turns compose by adding their counts; four of them are the identity. */
  lemma {:induction false} RotateCompose(v: Vect, a: int, b: int)
    ensures v.Rotate(a).Rotate(b) == v.Rotate(a + b)
    ensures v.Rotate(1).Rotate(1).Rotate(1).Rotate(1) == v
  {
    Modular.ModOfSum(a, b, 4);
    Modular.ModOfSum(b, a % 4, 4);
    Modular.ModOfSum(a % 4, b, 4);
    var am, bm := a % 4, b % 4;
    assert (a + b) % 4 == (am + bm) % 4 by {
      Modular.ModOfSum(b, am, 4);
      assert (am + b) % 4 == (a + b) % 4;
    }
    if am + bm < 4 {
      Modular.ModSmall(am + bm, 4);
    } else {
      Modular.ModAddMultiple(am + bm - 4, 1, 4);
      Modular.ModSmall(am + bm - 4, 4);
    }
  }

  /** The key order is a total order on vectors (no two vectors share a key). */
  lemma KeyLeTotalOrder(a: Vect, b: Vect, c: Vect)
    ensures KeyLe(a.CmpKey(), b.CmpKey()) || KeyLe(b.CmpKey(), a.CmpKey())
    ensures KeyLe(a.CmpKey(), b.CmpKey()) && KeyLe(b.CmpKey(), a.CmpKey()) ==> a == b
    ensures KeyLe(a.CmpKey(), b.CmpKey()) && KeyLe(b.CmpKey(), c.CmpKey()) ==> KeyLe(a.CmpKey(), c.CmpKey())
  {
  }
}
