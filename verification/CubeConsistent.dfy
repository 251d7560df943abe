/**
The consistent functions of the cube index as the code calls them (contrib/cube/cube.c), on the
comparison, overlap and containment routines.
 */
module CubeConsistent {
  import opened CubeBox
  import opened CubeGist
  import opened CubeCompare

  /** `g_cube_leaf_consistent`: same is a comparison that gives zero. */
  method TestLeaf(key: Cube, query: Cube, strategy: Strategy) returns (r: bool)
    requires key.Valid() && query.Valid()
    ensures r <==> LeafConsistent(key, query, strategy)
    ensures strategy == SameStrategy ==> (r <==> Compare(key, query) == 0)
  {
    match strategy
    case OverlapStrategy => r := CubeOverlap(key, query);
    case SameStrategy =>
      var c := CubeCmp(key, query);
      CompareZeroIff(key, query);
      r := c == 0;
    case ContainsStrategy => r := CubeContains(key, query);
    case ContainedByStrategy => r := CubeContains(query, key);
  }

  /** `g_cube_internal_consistent`. */
  method TestInternal(key: Cube, query: Cube, strategy: Strategy) returns (r: bool)
    requires key.Valid() && query.Valid()
    ensures r <==> InternalConsistent(key, query, strategy)
  {
    match strategy
    case OverlapStrategy => r := CubeOverlap(key, query);
    case SameStrategy => r := CubeContains(key, query);
    case ContainsStrategy => r := CubeContains(key, query);
    case ContainedByStrategy => r := CubeOverlap(key, query);
  }

  /** On a leaf, same means that each contains the other and that their dimensions agree. */
  lemma {:induction false} SameIff(x: Cube, query: Cube)
    requires x.Valid() && query.Valid()
    ensures LeafConsistent(x, query, SameStrategy) <==> x.dim == query.dim && Contains(x, query) && Contains(query, x)
  {
    if x.dim == query.dim && Contains(x, query) && Contains(query, x) {
      forall i: nat
        ensures x.Lo(i) == query.Lo(i) && x.Hi(i) == query.Hi(i)
      {
        assert i < x.dim ==> x.Lo(i) <= query.Lo(i) && query.Lo(i) <= x.Lo(i);
      }
    }
  }
}
