/**
N-dimensional boxes (contrib/cube/cubedata.h and cube.c). Corners are kept as entered, a
point stores one corner only, and a dimension a cube does not have counts as zero.
Coordinates are real numbers.
 */
module CubeBox {

  /** `NDBOX`: lower-left coordinates, then upper-right ones unless the point flag is set. */
  datatype Cube = Cube(dim: nat, point: bool, x: seq<real>) {
    predicate Valid() {
      |x| == if point then dim else 2 * dim
    }

    function LL(i: nat): real
      requires Valid() && i < dim
    {
      x[i]
    }

    function UR(i: nat): real
      requires Valid() && i < dim
    {
      if point then x[i] else x[i + dim]
    }

    /** The lower bound in dimension i; corners may come in any order. */
    function Lo(i: nat): real
      requires Valid()
    {
      if i < dim then Min(LL(i), UR(i)) else 0.0
    }

    /** The upper bound in dimension i. */
    function Hi(i: nat): real
      requires Valid()
    {
      if i < dim then Max(LL(i), UR(i)) else 0.0
    }
  }

  function Min(a: real, b: real): real {
    if a < b then a else b
  }

  function Max(a: real, b: real): real {
    if a > b then a else b
  }

  function Abs(x: real): real {
    if x < 0.0 then -x else x
  }

  function MaxDim(a: Cube, b: Cube): nat {
    if a.dim < b.dim then b.dim else a.dim
  }

  /** k holds x in every dimension, and has at least its dimensions. */
  ghost predicate Encloses(k: Cube, x: Cube)
    requires k.Valid() && x.Valid()
  {
    x.dim <= k.dim && forall i: nat :: k.Lo(i) <= x.Lo(i) && x.Hi(i) <= k.Hi(i)
  }

  lemma LoHi(c: Cube, i: nat)
    requires c.Valid()
    ensures c.Lo(i) <= c.Hi(i)
  {
  }

  lemma EnclosesTransitive(a: Cube, b: Cube, c: Cube)
    requires a.Valid() && b.Valid() && c.Valid() && Encloses(a, b) && Encloses(b, c)
    ensures Encloses(a, c)
  {
  }

  // ----- Unions -----

  /** c is the bounding box of a and b, missing dimensions counting as zero. */
  ghost predicate IsUnion(c: Cube, a: Cube, b: Cube)
    requires a.Valid() && b.Valid()
  {
    && c.Valid() && c.dim == MaxDim(a, b)
    && forall i: nat :: c.Lo(i) == Min(a.Lo(i), b.Lo(i)) && c.Hi(i) == Max(a.Hi(i), b.Hi(i))
  }

  /** The union encloses both cubes. */
  lemma UnionEncloses(u: Cube, a: Cube, b: Cube)
    requires a.Valid() && b.Valid() && IsUnion(u, a, b)
    ensures Encloses(u, a) && Encloses(u, b)
  {
  }

  /** The union is the least cube that encloses both. */
  lemma UnionIsLeast(u: Cube, a: Cube, b: Cube, c: Cube)
    requires a.Valid() && b.Valid() && IsUnion(u, a, b)
    requires c.Valid() && Encloses(c, a) && Encloses(c, b)
    ensures Encloses(c, u)
  {
    forall i: nat
      ensures c.Lo(i) <= u.Lo(i) && u.Hi(i) <= c.Hi(i)
    {
      assert c.Lo(i) <= a.Lo(i) && c.Lo(i) <= b.Lo(i);
    }
  }

  ghost predicate AllValid(cubes: seq<Cube>) {
    forall i | 0 <= i < |cubes| :: cubes[i].Valid()
  }

  ghost predicate EnclosesAll(c: Cube, cubes: seq<Cube>)
    requires c.Valid() && AllValid(cubes)
  {
    forall i | 0 <= i < |cubes| :: Encloses(c, cubes[i])
  }

  /** c is the bounding box of the cubes: it encloses them all, and every cube that does encloses c. */
  ghost predicate LeastBox(c: Cube, cubes: seq<Cube>)
    requires c.Valid() && AllValid(cubes)
  {
    && EnclosesAll(c, cubes)
    && forall d: Cube | d.Valid() && EnclosesAll(d, cubes) :: Encloses(d, c)
  }

  lemma LeastBoxOfOne(c: Cube)
    requires c.Valid()
    ensures LeastBox(c, [c])
  {
    forall d: Cube | d.Valid() && EnclosesAll(d, [c])
      ensures Encloses(d, c)
    {
      assert Encloses(d, [c][0]);
    }
  }

  lemma LeastBoxAdd(u: Cube, c: Cube, cubes: seq<Cube>, x: Cube)
    requires c.Valid() && AllValid(cubes) && x.Valid() && LeastBox(c, cubes) && IsUnion(u, c, x)
    ensures LeastBox(u, cubes + [x])
  {
    var more := cubes + [x];
    UnionEncloses(u, c, x);
    forall i | 0 <= i < |more|
      ensures Encloses(u, more[i])
    {
      if i < |cubes| {
        EnclosesTransitive(u, c, cubes[i]);
      }
    }
    forall d: Cube | d.Valid() && EnclosesAll(d, more)
      ensures Encloses(d, u)
    {
      assert Encloses(d, more[|cubes|]);
      forall i | 0 <= i < |cubes| ensures Encloses(d, cubes[i]) { assert more[i] == cubes[i]; }
      UnionIsLeast(u, c, x, d);
    }
  }

  /**
  `cube_union_v0` on two different cubes: swap so that `a` has at least the dimensions of `b`,
  merge the common dimensions, then widen the others to zero. The result is stored as a point
  exactly when its corners coincide.
   */
  method ComputeUnion(a0: Cube, b0: Cube) returns (c: Cube)
    requires a0.Valid() && b0.Valid()
    ensures IsUnion(c, a0, b0)
    ensures c.point <==> forall i: nat | i < c.dim :: c.Lo(i) == c.Hi(i)
  {
    var a, b := a0, b0;
    if a.dim < b.dim {
      a, b := b, a;
    }
    var dim := a.dim;
    var lo, hi := new real[dim](_ => 0.0), new real[dim](_ => 0.0);
    var i := 0;
    while i < b.dim
      invariant i <= b.dim
      invariant forall k: nat | k < i :: lo[k] == Min(a0.Lo(k), b0.Lo(k)) && hi[k] == Max(a0.Hi(k), b0.Hi(k))
    {
      lo[i] := Min(Min(a.LL(i), a.UR(i)), Min(b.LL(i), b.UR(i)));
      hi[i] := Max(Max(a.LL(i), a.UR(i)), Max(b.LL(i), b.UR(i)));
      i := i + 1;
    }
    while i < a.dim
      invariant b.dim <= i <= a.dim
      invariant forall k: nat | k < i :: lo[k] == Min(a0.Lo(k), b0.Lo(k)) && hi[k] == Max(a0.Hi(k), b0.Hi(k))
    {
      lo[i] := Min(0.0, Min(a.LL(i), a.UR(i)));
      hi[i] := Max(0.0, Max(a.LL(i), a.UR(i)));
      i := i + 1;
    }
    c := StoreBounds(lo[..], hi[..]);
  }

  /** The end of `cube_union_v0`: `cube_is_point_internal` decides how the result is stored. */
  method StoreBounds(lo: seq<real>, hi: seq<real>) returns (c: Cube)
    requires |lo| == |hi| && forall i | 0 <= i < |lo| :: lo[i] <= hi[i]
    ensures c.Valid() && c.dim == |lo|
    ensures forall i: nat | i < c.dim :: c.Lo(i) == lo[i] && c.Hi(i) == hi[i]
    ensures c.point <==> lo == hi
  {
    for i := 0 to |lo|
      invariant lo[..i] == hi[..i]
    {
      if lo[i] != hi[i] {
        return Cube(|lo|, false, lo + hi);
      }
    }
    return Cube(|lo|, true, lo);
  }
}
