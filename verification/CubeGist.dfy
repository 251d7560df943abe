/**
Searching a GiST index of cubes (contrib/cube/cube.c): the operators, the consistent
functions for leaf and internal entries, and when pruning by internal keys is safe.
 */
module CubeGist {
  import opened Options
  import opened CubeBox

  datatype Strategy = OverlapStrategy | SameStrategy | ContainsStrategy | ContainedByStrategy

  /** The boxes share a point, missing dimensions counting as zero. */
  ghost predicate Overlap(a: Cube, b: Cube)
    requires a.Valid() && b.Valid()
  {
    forall i: nat :: a.Lo(i) <= b.Hi(i) && b.Lo(i) <= a.Hi(i)
  }

  /** a contains b: excess dimensions of b must be zero, excess dimensions of a are ignored. */
  ghost predicate Contains(a: Cube, b: Cube)
    requires a.Valid() && b.Valid()
  {
    forall i: nat | i < b.dim ::
      if i < a.dim then a.Lo(i) <= b.Lo(i) && b.Hi(i) <= a.Hi(i)
      else b.Lo(i) == 0.0 && b.Hi(i) == 0.0
  }

  /** The same dimensions and the same normalised corners. */
  ghost predicate Same(a: Cube, b: Cube)
    requires a.Valid() && b.Valid()
  {
    a.dim == b.dim && forall i: nat :: a.Lo(i) == b.Lo(i) && a.Hi(i) == b.Hi(i)
  }

  /** `cube_overlap_v0`. */
  method CubeOverlap(a0: Cube, b0: Cube) returns (r: bool)
    requires a0.Valid() && b0.Valid()
    ensures r <==> Overlap(a0, b0)
  {
    var a, b := a0, b0;
    if a.dim < b.dim {
      a, b := b, a;
    }
    for i := 0 to b.dim
      invariant forall k: nat | k < i :: a.Lo(k) <= b.Hi(k) && b.Lo(k) <= a.Hi(k)
    {
      if Min(a.LL(i), a.UR(i)) > Max(b.LL(i), b.UR(i)) || Max(a.LL(i), a.UR(i)) < Min(b.LL(i), b.UR(i)) {
        assert !(a.Lo(i) <= b.Hi(i) && b.Lo(i) <= a.Hi(i));
        return false;
      }
    }
    for i := b.dim to a.dim
      invariant forall k: nat | k < i :: a.Lo(k) <= b.Hi(k) && b.Lo(k) <= a.Hi(k)
    {
      if Min(a.LL(i), a.UR(i)) > 0.0 || Max(a.LL(i), a.UR(i)) < 0.0 {
        assert !(a.Lo(i) <= b.Hi(i) && b.Lo(i) <= a.Hi(i));
        return false;
      }
    }
    return true;
  }

  /** `cube_contains_v0`. */
  method CubeContains(a: Cube, b: Cube) returns (r: bool)
    requires a.Valid() && b.Valid()
    ensures r <==> Contains(a, b)
  {
    var common := if a.dim < b.dim then a.dim else b.dim;
    for i := common to b.dim
      invariant forall k: nat | a.dim <= k < i :: b.Lo(k) == 0.0 && b.Hi(k) == 0.0
    {
      if b.LL(i) != 0.0 || b.UR(i) != 0.0 {
        assert !(b.Lo(i) == 0.0 && b.Hi(i) == 0.0);
        return false;
      }
    }
    for i := 0 to common
      invariant forall k: nat | k < i :: a.Lo(k) <= b.Lo(k) && b.Hi(k) <= a.Hi(k)
    {
      if Min(a.LL(i), a.UR(i)) > Min(b.LL(i), b.UR(i)) || Max(a.LL(i), a.UR(i)) < Max(b.LL(i), b.UR(i)) {
        assert !(a.Lo(i) <= b.Lo(i) && b.Hi(i) <= a.Hi(i));
        return false;
      }
    }
    return true;
  }

  /** `g_cube_leaf_consistent`. */
  ghost predicate LeafConsistent(x: Cube, query: Cube, strategy: Strategy)
    requires x.Valid() && query.Valid()
  {
    match strategy
    case OverlapStrategy => Overlap(x, query)
    case SameStrategy => Same(x, query)
    case ContainsStrategy => Contains(x, query)
    case ContainedByStrategy => Contains(query, x)
  }

  /** `g_cube_internal_consistent`. */
  ghost predicate InternalConsistent(key: Cube, query: Cube, strategy: Strategy)
    requires key.Valid() && query.Valid()
  {
    match strategy
    case OverlapStrategy => Overlap(key, query)
    case SameStrategy => Contains(key, query)
    case ContainsStrategy => Contains(key, query)
    case ContainedByStrategy => Overlap(key, query)
  }

  // ----- Pruning -----

  lemma OverlapMonotone(key: Cube, x: Cube, query: Cube)
    requires key.Valid() && x.Valid() && query.Valid() && Encloses(key, x) && Overlap(x, query)
    ensures Overlap(key, query)
  {
  }

  lemma ContainsMonotone(key: Cube, x: Cube, query: Cube)
    requires key.Valid() && x.Valid() && query.Valid() && Encloses(key, x) && Contains(x, query)
    ensures Contains(key, query)
  {
  }

  /** The dimensions in which the query extends beyond the data straddle zero. */
  ghost predicate ExcessStraddlesZero(query: Cube, dim: nat)
    requires query.Valid()
  {
    forall i: nat | dim <= i < query.dim :: query.Lo(i) <= 0.0 <= query.Hi(i)
  }

  /** A key above a matching cube passes the internal test, except perhaps for contained-by. */
  lemma NoMatchPruned(key: Cube, x: Cube, query: Cube, strategy: Strategy)
    requires key.Valid() && x.Valid() && query.Valid() && Encloses(key, x)
    requires LeafConsistent(x, query, strategy)
    requires strategy == ContainedByStrategy ==> ExcessStraddlesZero(query, x.dim)
    ensures InternalConsistent(key, query, strategy)
  {
    match strategy
    case OverlapStrategy => OverlapMonotone(key, x, query);
    case SameStrategy =>
      assert Contains(x, query);
      ContainsMonotone(key, x, query);
    case ContainsStrategy => ContainsMonotone(key, x, query);
    case ContainedByStrategy =>
      ContainedOverlaps(x, query);
      OverlapMonotone(key, x, query);
  }

  lemma ContainedOverlaps(x: Cube, query: Cube)
    requires x.Valid() && query.Valid() && Contains(query, x) && ExcessStraddlesZero(query, x.dim)
    ensures Overlap(x, query)
  {
  }

  /**
  For a cube contained by the query, the contained-by search reaches it under every key above
  it exactly when the query straddles zero in all its excess dimensions.
   */
  lemma ContainedByIff(x: Cube, query: Cube)
    requires x.Valid() && query.Valid() && LeafConsistent(x, query, ContainedByStrategy)
    ensures (forall key: Cube | key.Valid() && Encloses(key, x) ::
               InternalConsistent(key, query, ContainedByStrategy))
            <==> ExcessStraddlesZero(query, x.dim)
  {
    if ExcessStraddlesZero(query, x.dim) {
      forall key: Cube | key.Valid() && Encloses(key, x)
        ensures InternalConsistent(key, query, ContainedByStrategy)
      {
        NoMatchPruned(key, x, query, ContainedByStrategy);
      }
    } else {
      var i: nat :| x.dim <= i < query.dim && !(query.Lo(i) <= 0.0 <= query.Hi(i));
      assert !(x.Lo(i) <= query.Hi(i) && query.Lo(i) <= x.Hi(i));
      assert Encloses(x, x) && !InternalConsistent(x, query, ContainedByStrategy);
    }
  }

  /** The one-dimensional point 1 is contained by the box ((0,5),(2,6)), and is pruned. */
  lemma ContainedByLosesPoint()
    ensures var x, query := Cube(1, true, [1.0]), Cube(2, false, [0.0, 5.0, 2.0, 6.0]);
            && LeafConsistent(x, query, ContainedByStrategy)
            && !InternalConsistent(x, query, ContainedByStrategy)
  {
    var x, query := Cube(1, true, [1.0]), Cube(2, false, [0.0, 5.0, 2.0, 6.0]);
    assert !(x.Lo(1) <= query.Hi(1) && query.Lo(1) <= x.Hi(1));
  }

  // ----- What the tests mean -----

  /** A point that has all coordinates, those a cube lacks being zero in the cube. */
  ghost predicate HasPoint(c: Cube, p: nat -> real)
    requires c.Valid()
  {
    forall i: nat :: c.Lo(i) <= p(i) <= c.Hi(i)
  }

  /** Cubes overlap exactly if they have a point in common. */
  lemma {:induction false} OverlapIff(a: Cube, b: Cube)
    requires a.Valid() && b.Valid()
    ensures Overlap(a, b) <==> exists p: nat -> real :: HasPoint(a, p) && HasPoint(b, p)
  {
    if Overlap(a, b) {
      var p: nat -> real := (i: nat) => if a.Lo(i) < b.Lo(i) then b.Lo(i) else a.Lo(i);
      forall i: nat
        ensures a.Lo(i) <= p(i) <= a.Hi(i) && b.Lo(i) <= p(i) <= b.Hi(i)
      {
        LoHi(a, i);
        LoHi(b, i);
      }
      assert HasPoint(a, p) && HasPoint(b, p);
    }
    if p: nat -> real :| HasPoint(a, p) && HasPoint(b, p) {
      forall i: nat
        ensures a.Lo(i) <= b.Hi(i) && b.Lo(i) <= a.Hi(i)
      {
        assert a.Lo(i) <= p(i) <= b.Hi(i);
      }
    }
  }

  /** The point lies in the cube as far as dimensions below n go. */
  ghost predicate HasPointBelow(c: Cube, p: nat -> real, n: nat)
    requires c.Valid()
  {
    forall i: nat | i < n :: c.Lo(i) <= p(i) <= c.Hi(i)
  }

  /** A cube contains another exactly if it has all its points, looking only at the dimensions the other has. */
  lemma {:induction false} ContainsIff(a: Cube, b: Cube)
    requires a.Valid() && b.Valid()
    ensures Contains(a, b) <==> forall p: nat -> real | HasPoint(b, p) :: HasPointBelow(a, p, b.dim)
  {
    if forall p: nat -> real | HasPoint(b, p) :: HasPointBelow(a, p, b.dim) {
      var lo: nat -> real, hi: nat -> real := (i: nat) => b.Lo(i), (i: nat) => b.Hi(i);
      forall i: nat
        ensures b.Lo(i) <= lo(i) <= b.Hi(i) && b.Lo(i) <= hi(i) <= b.Hi(i)
      {
        LoHi(b, i);
      }
      assert HasPoint(b, lo) && HasPoint(b, hi);
      forall i: nat | i < b.dim
        ensures a.Lo(i) <= b.Lo(i) && b.Hi(i) <= a.Hi(i)
      {
        assert a.Lo(i) <= lo(i) && hi(i) <= a.Hi(i);
      }
    }
    if Contains(a, b) {
      forall p: nat -> real | HasPoint(b, p)
        ensures HasPointBelow(a, p, b.dim)
      {
        forall i: nat | i < b.dim
          ensures a.Lo(i) <= p(i) <= a.Hi(i)
        {
          assert b.Lo(i) <= p(i) <= b.Hi(i);
        }
      }
    }
  }

  /**
  What an internal key answers: whether some cube it encloses overlaps the query, or contains it.
  Same is searched like contains, and contained-by like overlap.
   */
  lemma {:induction false} InternalIff(key: Cube, query: Cube)
    requires key.Valid() && query.Valid()
    ensures InternalConsistent(key, query, OverlapStrategy) <==>
            exists x: Cube :: x.Valid() && Encloses(key, x) && Overlap(x, query)
    ensures InternalConsistent(key, query, ContainedByStrategy) <==>
            exists x: Cube :: x.Valid() && Encloses(key, x) && Overlap(x, query)
    ensures InternalConsistent(key, query, ContainsStrategy) <==>
            exists x: Cube :: x.Valid() && Encloses(key, x) && Contains(x, query)
    ensures InternalConsistent(key, query, SameStrategy) <==>
            exists x: Cube :: x.Valid() && Encloses(key, x) && Contains(x, query)
  {
    assert Encloses(key, key);
    if x: Cube :| x.Valid() && Encloses(key, x) && Overlap(x, query) {
      OverlapMonotone(key, x, query);
    }
    if x: Cube :| x.Valid() && Encloses(key, x) && Contains(x, query) {
      ContainsMonotone(key, x, query);
    }
  }

  // ----- Trees -----

  /** A key of the index: a leaf entry, or the bounding box of other keys (in any grouping). */
  datatype Origin = Entry(cube: Cube) | UnionOf(key: Cube, parts: seq<Origin>)

  function KeyOf(o: Origin): Cube {
    match o
    case Entry(c) => c
    case UnionOf(key, _) => key
  }

  function KeysOf(os: seq<Origin>): (keys: seq<Cube>)
    ensures |keys| == |os| && forall i | 0 <= i < |os| :: keys[i] == KeyOf(os[i])
  {
    if os == [] then [] else KeysOf(os[..|os| - 1]) + [KeyOf(os[|os| - 1])]
  }

  /** Every key was computed by the union or split method from the keys it stands above. */
  ghost predicate Built(o: Origin) {
    match o
    case Entry(c) => c.Valid()
    case UnionOf(key, parts) =>
      && (forall i | 0 <= i < |parts| :: Built(parts[i]))
      && key.Valid() && AllValid(KeysOf(parts)) && LeastBox(key, KeysOf(parts))
  }

  predicate Below(o: Origin, x: Cube) {
    match o
    case Entry(c) => c == x
    case UnionOf(_, parts) => exists i | 0 <= i < |parts| :: Below(parts[i], x)
  }

  /** Every ancestor key encloses every cube below it, at any height and with any mix of dimensions. */
  lemma {:induction false} AncestorEncloses(o: Origin, x: Cube)
    requires Built(o) && Below(o, x)
    ensures x.Valid() && KeyOf(o).Valid() && Encloses(KeyOf(o), x)
  {
    match o
    case Entry(_) =>
    case UnionOf(key, parts) =>
      var i :| 0 <= i < |parts| && Below(parts[i], x);
      AncestorEncloses(parts[i], x);
      assert Encloses(key, KeysOf(parts)[i]);
      EnclosesTransitive(key, KeyOf(parts[i]), x);
  }

  /**
  A search finds every matching cube. For contained-by the query must straddle zero in the
  dimensions the cube lacks, as it does when it has no more dimensions than the cube.
   */
  lemma SearchIsComplete(o: Origin, x: Cube, query: Cube, strategy: Strategy)
    requires Built(o) && Below(o, x) && x.Valid() && query.Valid()
    requires LeafConsistent(x, query, strategy)
    requires strategy == ContainedByStrategy ==> ExcessStraddlesZero(query, x.dim)
    ensures KeyOf(o).Valid() && InternalConsistent(KeyOf(o), query, strategy)
  {
    AncestorEncloses(o, x);
    NoMatchPruned(KeyOf(o), x, query, strategy);
  }

  lemma {:induction false} LeastBoxMore(u: Cube, c: Cube, front: seq<Cube>, x: Cube, more: seq<Cube>)
    requires AllValid(front) && c.Valid() && x.Valid() && LeastBox(c, front) && IsUnion(u, c, x)
    requires more == front + [x]
    ensures AllValid(more) && LeastBox(u, more)
  {
    LeastBoxAdd(u, c, front, x);
  }

  lemma {:induction false} LeastBoxNext(u: Cube, c: Cube, entries: seq<Cube>, i: nat)
    requires AllValid(entries) && i < |entries| && c.Valid() && LeastBox(c, entries[..i]) && IsUnion(u, c, entries[i])
    ensures LeastBox(u, entries[..i + 1])
  {
    LeastBoxMore(u, c, entries[..i], entries[i], entries[..i + 1]);
  }

  /** `g_cube_union`; with a single entry the C function returns a null pointer. */
  method GistUnion(entries: seq<Cube>) returns (out: Option<Cube>)
    requires entries != [] && AllValid(entries)
    ensures out.Some? <==> |entries| >= 2
    ensures out.Some? ==> out.value.Valid() && LeastBox(out.value, entries)
  {
    var tmp := entries[0];
    out := None;
    LeastBoxOfOne(tmp);
    assert entries[..1] == [tmp];
    for i := 1 to |entries|
      invariant tmp.Valid() && LeastBox(tmp, entries[..i])
      invariant if i >= 2 then out == Some(tmp) else out == None
    {
      var u := ComputeUnion(tmp, entries[i]);
      LeastBoxNext(u, tmp, entries, i);
      tmp := u;
      out := Some(tmp);
    }
    assert entries[..|entries|] == entries;
  }
}
