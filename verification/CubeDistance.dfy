/**
Nearest-neighbour search over cubes (contrib/cube/cube.c): the three distances and the
coordinate ordering `~>`, and why the value computed for an internal key never exceeds the
value of a cube below it. The Euclidean distance is modelled by its square.
 */
module CubeDistance {
  import opened Options
  import opened CubeBox
  import opened CubeGist

  datatype Metric = Taxicab | EuclidSquared | Chebyshev

  /** `distance_1D`. */
  function Distance1D(a1: real, a2: real, b1: real, b2: real): real {
    if a1 <= b1 && a2 <= b1 && a1 <= b2 && a2 <= b2 then Min(b1, b2) - Max(a1, a2)
    else if a1 > b1 && a2 > b1 && a1 > b2 && a2 > b2 then Min(a1, a2) - Max(b1, b2)
    else 0.0
  }

  /** How far two cubes are apart in one dimension. */
  function Gap(a: Cube, b: Cube, i: nat): real
    requires a.Valid() && b.Valid()
  {
    if a.Hi(i) < b.Lo(i) then b.Lo(i) - a.Hi(i)
    else if b.Hi(i) < a.Lo(i) then a.Lo(i) - b.Hi(i)
    else 0.0
  }

  function Accumulate(metric: Metric, acc: real, d: real): real {
    match metric
    case Taxicab => acc + Abs(d)
    case EuclidSquared => acc + d * d
    case Chebyshev => if Abs(d) > acc then Abs(d) else acc
  }

  /** The gaps of the first n dimensions combined. */
  function Combined(metric: Metric, a: Cube, b: Cube, n: nat): real
    requires a.Valid() && b.Valid()
  {
    if n == 0 then 0.0 else Accumulate(metric, Combined(metric, a, b, n - 1), Gap(a, b, n - 1))
  }

  /** The distance of two cubes of any dimensions. */
  function Distance(metric: Metric, a: Cube, b: Cube): real
    requires a.Valid() && b.Valid()
  {
    Combined(metric, a, b, MaxDim(a, b))
  }

  lemma Distance1DIsGap(a1: real, a2: real, b1: real, b2: real)
    ensures var lo, hi, lo', hi' := Min(a1, a2), Max(a1, a2), Min(b1, b2), Max(b1, b2);
            Distance1D(a1, a2, b1, b2) ==
            if hi < lo' then lo' - hi else if hi' < lo then lo - hi' else 0.0
  {
  }

  /** `distance_taxicab`, `cube_distance` before its square root, and `distance_chebyshev`. */
  method ComputeDistance(metric: Metric, a0: Cube, b0: Cube) returns (distance: real)
    requires a0.Valid() && b0.Valid()
    ensures distance == Distance(metric, a0, b0)
  {
    var a, b := a0, b0;
    if a.dim < b.dim {
      a, b := b, a;
    }
    distance := 0.0;
    for i := 0 to b.dim
      invariant distance == Combined(metric, a0, b0, i)
    {
      var d := Distance1D(a.LL(i), a.UR(i), b.LL(i), b.UR(i));
      Distance1DIsGap(a.LL(i), a.UR(i), b.LL(i), b.UR(i));
      assert d == Gap(a0, b0, i);
      distance := Accumulate(metric, distance, d);
    }
    for i := b.dim to a.dim
      invariant distance == Combined(metric, a0, b0, i)
    {
      var d := Distance1D(a.LL(i), a.UR(i), 0.0, 0.0);
      Distance1DIsGap(a.LL(i), a.UR(i), 0.0, 0.0);
      assert d == Gap(a0, b0, i);
      distance := Accumulate(metric, distance, d);
    }
  }

  // ----- Lower bounds -----

  lemma SquareMonotone(d: real, d': real)
    requires 0.0 <= d <= d'
    ensures 0.0 <= d * d <= d' * d'
  {
  }

  lemma ProductPositive(acc: real, x: real, y: real)
    requires acc >= 0.0 && x > 0.0 && y > 0.0
    ensures acc + x * y > 0.0
  {
  }

  lemma AccumulateMonotone(metric: Metric, acc: real, acc': real, d: real, d': real)
    requires 0.0 <= acc <= acc' && 0.0 <= d <= d'
    ensures 0.0 <= Accumulate(metric, acc, d) <= Accumulate(metric, acc', d')
  {
    SquareMonotone(d, d');
  }

  lemma AccumulateZeroIff(metric: Metric, acc: real, d: real)
    requires acc >= 0.0 && d >= 0.0
    ensures Accumulate(metric, acc, d) >= 0.0
    ensures Accumulate(metric, acc, d) == 0.0 <==> acc == 0.0 && d == 0.0
  {
    if d > 0.0 {
      ProductPositive(acc, d, d);
    }
  }

  lemma GapMonotone(key: Cube, x: Cube, query: Cube, i: nat)
    requires key.Valid() && x.Valid() && query.Valid() && Encloses(key, x)
    ensures 0.0 <= Gap(key, query, i) <= Gap(x, query, i)
  {
  }

  lemma {:induction false} CombinedMonotone(metric: Metric, key: Cube, x: Cube, query: Cube, n: nat)
    requires key.Valid() && x.Valid() && query.Valid() && Encloses(key, x)
    ensures 0.0 <= Combined(metric, key, query, n) <= Combined(metric, x, query, n)
  {
    if n > 0 {
      CombinedMonotone(metric, key, x, query, n - 1);
      GapMonotone(key, x, query, n - 1);
      AccumulateMonotone(metric, Combined(metric, key, query, n - 1), Combined(metric, x, query, n - 1),
                         Gap(key, query, n - 1), Gap(x, query, n - 1));
    }
  }

  /** Dimensions that neither cube has add nothing. */
  lemma {:induction false} CombinedBeyond(metric: Metric, a: Cube, b: Cube, n: nat)
    requires a.Valid() && b.Valid() && MaxDim(a, b) <= n
    ensures Combined(metric, a, b, n) == Distance(metric, a, b)
  {
    if n > MaxDim(a, b) {
      CombinedBeyond(metric, a, b, n - 1);
      CombinedNonNegative(metric, a, b, n - 1);
    }
  }

  lemma {:induction false} CombinedNonNegative(metric: Metric, a: Cube, b: Cube, n: nat)
    requires a.Valid() && b.Valid()
    ensures Combined(metric, a, b, n) >= 0.0
  {
    if n > 0 {
      CombinedNonNegative(metric, a, b, n - 1);
      AccumulateZeroIff(metric, Combined(metric, a, b, n - 1), Gap(a, b, n - 1));
    }
  }

  /** The distance to a key bounds the distance to every cube it encloses. */
  lemma DistanceLowerBound(metric: Metric, key: Cube, x: Cube, query: Cube)
    requires key.Valid() && x.Valid() && query.Valid() && Encloses(key, x)
    ensures Distance(metric, key, query) <= Distance(metric, x, query)
  {
    var n := MaxDim(key, query);
    CombinedMonotone(metric, key, x, query, n);
    CombinedBeyond(metric, x, query, n);
  }

  /** All three distances vanish exactly for cubes that overlap. */
  lemma ZeroIffOverlap(metric: Metric, a: Cube, b: Cube)
    requires a.Valid() && b.Valid()
    ensures Distance(metric, a, b) == 0.0 <==> Overlap(a, b)
  {
    CombinedZeroIff(metric, a, b, MaxDim(a, b));
    if forall i: nat | i < MaxDim(a, b) :: Gap(a, b, i) == 0.0 {
      forall i: nat
        ensures a.Lo(i) <= b.Hi(i) && b.Lo(i) <= a.Hi(i)
      {
        assert i < MaxDim(a, b) ==> Gap(a, b, i) == 0.0;
      }
    } else {
      var i: nat :| i < MaxDim(a, b) && Gap(a, b, i) != 0.0;
      assert !(a.Lo(i) <= b.Hi(i) && b.Lo(i) <= a.Hi(i));
    }
  }

  lemma {:induction false} CombinedZeroIff(metric: Metric, a: Cube, b: Cube, n: nat)
    requires a.Valid() && b.Valid()
    ensures Combined(metric, a, b, n) == 0.0 <==> forall i: nat | i < n :: Gap(a, b, i) == 0.0
  {
    if n > 0 {
      CombinedZeroIff(metric, a, b, n - 1);
      CombinedNonNegative(metric, a, b, n - 1);
      AccumulateZeroIff(metric, Combined(metric, a, b, n - 1), Gap(a, b, n - 1));
    }
  }

  // ----- What the distances are -----

  /** How far two cubes are apart in each dimension that one of them has. */
  function Gaps(a: Cube, b: Cube): (gs: seq<real>)
    requires a.Valid() && b.Valid()
    ensures |gs| == MaxDim(a, b) && forall i | 0 <= i < |gs| :: gs[i] == Gap(a, b, i)
  {
    seq(MaxDim(a, b), i requires 0 <= i < MaxDim(a, b) => Gap(a, b, i))
  }

  function Sum(s: seq<real>): real {
    if s == [] then 0.0 else Sum(s[..|s| - 1]) + s[|s| - 1]
  }

  function Squares(s: seq<real>): seq<real> {
    seq(|s|, i requires 0 <= i < |s| => s[i] * s[i])
  }

  predicate Within(c: Cube, i: nat, x: real)
    requires c.Valid()
  {
    c.Lo(i) <= x <= c.Hi(i)
  }

  /** A gap is the least distance of two numbers between the bounds of the cubes. */
  lemma {:induction false} GapIsLeast(a: Cube, b: Cube, i: nat) returns (x: real, y: real)
    requires a.Valid() && b.Valid()
    ensures forall u, v | Within(a, i, u) && Within(b, i, v) :: Gap(a, b, i) <= Abs(u - v)
    ensures Within(a, i, x) && Within(b, i, y) && Abs(x - y) == Gap(a, b, i)
  {
    LoHi(a, i);
    LoHi(b, i);
    if a.Hi(i) < b.Lo(i) {
      x, y := a.Hi(i), b.Lo(i);
    } else if b.Hi(i) < a.Lo(i) {
      x, y := a.Lo(i), b.Hi(i);
    } else {
      x := if a.Lo(i) < b.Lo(i) then b.Lo(i) else a.Lo(i);
      y := x;
    }
  }

  lemma {:induction false} GapNonNegative(a: Cube, b: Cube, i: nat)
    requires a.Valid() && b.Valid()
    ensures Gap(a, b, i) >= 0.0
  {
    LoHi(a, i);
    LoHi(b, i);
  }

  lemma {:induction false} SumNext(s: seq<real>, x: real)
    ensures Sum(s + [x]) == Sum(s) + x
  {
    assert (s + [x])[..|s|] == s;
  }

  lemma {:induction false} SquaresNext(s: seq<real>, x: real)
    ensures Squares(s + [x]) == Squares(s) + [x * x]
  {
    var t := s + [x];
    forall i | 0 <= i < |t|
      ensures Squares(t)[i] == (Squares(s) + [x * x])[i]
    {
      if i < |s| {
        assert t[i] == s[i];
      } else {
        assert t[i] == x;
      }
    }
  }

  function CombineAll(metric: Metric, gs: seq<real>): real {
    if gs == [] then 0.0 else Accumulate(metric, CombineAll(metric, gs[..|gs| - 1]), gs[|gs| - 1])
  }

  lemma {:induction false} CombinedGaps(metric: Metric, a: Cube, b: Cube, n: nat)
    requires a.Valid() && b.Valid() && n <= MaxDim(a, b)
    ensures Combined(metric, a, b, n) == CombineAll(metric, Gaps(a, b)[..n])
  {
    if n > 0 {
      CombinedGaps(metric, a, b, n - 1);
      assert Gaps(a, b)[..n][..n - 1] == Gaps(a, b)[..n - 1];
    }
  }

  lemma {:induction false} DistanceOfGaps(metric: Metric, a: Cube, b: Cube)
    requires a.Valid() && b.Valid()
    ensures Distance(metric, a, b) == CombineAll(metric, Gaps(a, b))
    ensures forall i | 0 <= i < |Gaps(a, b)| :: Gaps(a, b)[i] >= 0.0
  {
    CombinedGaps(metric, a, b, MaxDim(a, b));
    assert Gaps(a, b)[..MaxDim(a, b)] == Gaps(a, b);
    forall i | 0 <= i < |Gaps(a, b)|
      ensures Gaps(a, b)[i] >= 0.0
    {
      GapNonNegative(a, b, i);
    }
  }

  lemma {:induction false} TaxicabOf(gs: seq<real>)
    requires forall i | 0 <= i < |gs| :: gs[i] >= 0.0
    ensures CombineAll(Taxicab, gs) == Sum(gs)
  {
    if gs != [] {
      TaxicabOf(gs[..|gs| - 1]);
    }
  }

  lemma {:induction false} EuclidOf(gs: seq<real>)
    ensures CombineAll(EuclidSquared, gs) == Sum(Squares(gs))
  {
    if gs != [] {
      var front, x := gs[..|gs| - 1], gs[|gs| - 1];
      EuclidOf(front);
      assert gs == front + [x];
      SquaresNext(front, x);
      SumNext(Squares(front), x * x);
    }
  }

  lemma {:induction false} ChebyshevOf(gs: seq<real>)
    requires forall i | 0 <= i < |gs| :: gs[i] >= 0.0
    ensures forall i | 0 <= i < |gs| :: gs[i] <= CombineAll(Chebyshev, gs)
    ensures CombineAll(Chebyshev, gs) == 0.0 || CombineAll(Chebyshev, gs) in gs
  {
    if gs != [] {
      ChebyshevOf(gs[..|gs| - 1]);
    }
  }

  /** The taxicab distance is the sum of the gaps. */
  lemma {:induction false} TaxicabIsSum(a: Cube, b: Cube)
    requires a.Valid() && b.Valid()
    ensures Distance(Taxicab, a, b) == Sum(Gaps(a, b))
  {
    DistanceOfGaps(Taxicab, a, b);
    TaxicabOf(Gaps(a, b));
  }

  /** The square of the Euclidean distance is the sum of the squares of the gaps. */
  lemma {:induction false} EuclidIsSumOfSquares(a: Cube, b: Cube)
    requires a.Valid() && b.Valid()
    ensures Distance(EuclidSquared, a, b) == Sum(Squares(Gaps(a, b)))
  {
    DistanceOfGaps(EuclidSquared, a, b);
    EuclidOf(Gaps(a, b));
  }

  /** The Chebyshev distance is the greatest of the gaps. */
  lemma {:induction false} ChebyshevIsMaximum(a: Cube, b: Cube)
    requires a.Valid() && b.Valid()
    ensures forall i | 0 <= i < MaxDim(a, b) :: Gaps(a, b)[i] <= Distance(Chebyshev, a, b)
    ensures if MaxDim(a, b) == 0 then Distance(Chebyshev, a, b) == 0.0 else Distance(Chebyshev, a, b) in Gaps(a, b)
  {
    DistanceOfGaps(Chebyshev, a, b);
    ChebyshevOf(Gaps(a, b));
    if MaxDim(a, b) > 0 && Distance(Chebyshev, a, b) == 0.0 {
      GapNonNegative(a, b, 0);
      assert Gaps(a, b)[0] <= Distance(Chebyshev, a, b);
    }
  }

  // ----- Ordering by a coordinate -----

  /**
  `cube_coord_llur`: coordinate 2N - 1 is the lower bound of the N-th dimension, 2N the upper
  one, and a negative number asks for the negated value. Zero is an error.
   */
  function CoordLlur(c: Cube, coord: int): Option<real>
    requires c.Valid()
  {
    if coord == 0 then None
    else
      var k := if coord < 0 then -coord else coord;
      var index := (k - 1) / 2;
      var upper := (k - 1) % 2 == 1;
      var v :=
        if k <= 2 * c.dim then
          if c.point then c.x[index]
          else if upper then Max(c.x[index], c.x[index + c.dim])
          else Min(c.x[index], c.x[index + c.dim])
        else 0.0;
      Some(if coord < 0 then -v else v)
  }

  /** The coordinate case of `g_cube_distance`. */
  function CoordDistance(c: Cube, coord: int, isLeaf: bool): Option<real>
    requires c.Valid()
  {
    if coord == 0 then None
    else
      var inverse := coord < 0;
      var k := if inverse then -coord else coord;
      var index := (k - 1) / 2;
      var upper := (k - 1) % 2 == 1;
      var v :=
        if k <= 2 * c.dim then
          if c.point then c.x[index]
          else if (if isLeaf then upper else inverse) then Max(c.x[index], c.x[index + c.dim])
          else Min(c.x[index], c.x[index + c.dim])
        else 0.0;
      Some(if inverse then -v else v)
  }

  /** What the ordering means: a bound of one dimension, zero where the cube has none. */
  lemma CoordLlurMeaning(c: Cube, dimension: nat, upper: bool, inverse: bool)
    requires c.Valid()
    ensures var k := 2 * dimension + (if upper then 2 else 1);
            var v := if upper then c.Hi(dimension) else c.Lo(dimension);
            CoordLlur(c, if inverse then -k else k) == Some(if inverse then -v else v)
  {
    var k := 2 * dimension + (if upper then 2 else 1);
    assert (k - 1) / 2 == dimension && ((k - 1) % 2 == 1 <==> upper);
  }

  /** At a leaf the index orders by the operator itself. */
  lemma LeafCoordExact(c: Cube, coord: int)
    requires c.Valid()
    ensures CoordDistance(c, coord, true) == CoordLlur(c, coord)
  {
  }

  /** On a key, the coordinate value bounds that of every cube the key encloses. */
  lemma CoordLowerBound(key: Cube, x: Cube, coord: int)
    requires key.Valid() && x.Valid() && Encloses(key, x) && coord != 0
    ensures CoordDistance(key, coord, false).value <= CoordLlur(x, coord).value
  {
    var k := if coord < 0 then -coord else coord;
    var i := (k - 1) / 2;
    assert k <= 2 * key.dim <==> i < key.dim;
    assert k <= 2 * x.dim <==> i < x.dim;
    assert key.Lo(i) <= x.Lo(i) && x.Hi(i) <= key.Hi(i);
    LoHi(x, i);
  }

  /** No better bound is possible: the value computed for a key is that of a point it encloses. */
  lemma {:induction false} CoordAttained(key: Cube, coord: int) returns (x: Cube)
    requires key.Valid() && coord != 0
    ensures x.Valid() && Encloses(key, x) && CoordLlur(x, coord) == CoordDistance(key, coord, false)
  {
    x := Cube(key.dim, true, seq(key.dim, i requires 0 <= i < key.dim => if coord < 0 then key.Hi(i) else key.Lo(i)));
    forall i: nat
      ensures key.Lo(i) <= x.Lo(i) && x.Hi(i) <= key.Hi(i)
    {
      LoHi(key, i);
    }
    var k := if coord < 0 then -coord else coord;
    var i := (k - 1) / 2;
    assert k <= 2 * key.dim <==> i < key.dim;
  }

  /** The order in which nearest-neighbour search visits an index of any height is sound. */
  lemma SearchOrderSound(o: Origin, x: Cube, query: Cube, metric: Metric, coord: int)
    requires Built(o) && Below(o, x) && query.Valid() && coord != 0
    ensures x.Valid() && KeyOf(o).Valid()
    ensures Distance(metric, KeyOf(o), query) <= Distance(metric, x, query)
    ensures CoordDistance(KeyOf(o), coord, false).value <= CoordDistance(x, coord, true).value
  {
    AncestorEncloses(o, x);
    DistanceLowerBound(metric, KeyOf(o), x, query);
    CoordLowerBound(KeyOf(o), x, coord);
    LeafCoordExact(x, coord);
  }
}
