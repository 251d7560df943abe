/**
The comparison of cubes (contrib/cube/cube.c, `cube_cmp_v0`): common dimensions first, then
the others against zero, then the number of dimensions.
 */
module CubeCompare {
  import opened CubeBox
  import opened CubeGist

  // ----- Lexicographic comparison -----

  function LexCmp(u: seq<real>, v: seq<real>): int
    requires |u| == |v|
  {
    if u == [] then 0
    else if u[0] > v[0] then 1
    else if u[0] < v[0] then -1
    else LexCmp(u[1..], v[1..])
  }

  lemma {:induction false} LexAntisymmetric(u: seq<real>, v: seq<real>)
    requires |u| == |v|
    ensures LexCmp(u, v) == -LexCmp(v, u)
  {
    if u != [] && u[0] == v[0] {
      LexAntisymmetric(u[1..], v[1..]);
    }
  }

  lemma {:induction false} LexZeroIff(u: seq<real>, v: seq<real>)
    requires |u| == |v|
    ensures LexCmp(u, v) == 0 <==> u == v
  {
    if u != [] {
      LexZeroIff(u[1..], v[1..]);
      assert u == [u[0]] + u[1..] && v == [v[0]] + v[1..];
    }
  }

  lemma {:induction false} LexTransitive(u: seq<real>, v: seq<real>, w: seq<real>)
    requires |u| == |v| == |w|
    requires LexCmp(u, v) <= 0 && LexCmp(v, w) <= 0
    ensures LexCmp(u, w) <= 0
  {
    if u != [] && u[0] == v[0] == w[0] {
      LexTransitive(u[1..], v[1..], w[1..]);
    }
  }

  /** The first difference decides. */
  lemma {:induction false} LexAt(u: seq<real>, v: seq<real>, j: nat)
    requires |u| == |v| && j < |u| && u[j] != v[j]
    requires forall k | 0 <= k < j :: u[k] == v[k]
    ensures LexCmp(u, v) == if u[j] > v[j] then 1 else -1
  {
    if j > 0 {
      LexAt(u[1..], v[1..], j - 1);
    }
  }

  // ----- What is compared -----

  function Los(c: Cube, from: nat, to: nat): (s: seq<real>)
    requires c.Valid() && from <= to
    ensures |s| == to - from && forall k | 0 <= k < |s| :: s[k] == c.Lo(from + k)
  {
    if from == to then [] else Los(c, from, to - 1) + [c.Lo(to - 1)]
  }

  function His(c: Cube, from: nat, to: nat): (s: seq<real>)
    requires c.Valid() && from <= to
    ensures |s| == to - from && forall k | 0 <= k < |s| :: s[k] == c.Hi(from + k)
  {
    if from == to then [] else His(c, from, to - 1) + [c.Hi(to - 1)]
  }

  /** Lower bounds below m, upper bounds below m, the same from m to n, and the dimension. */
  function SortKey(c: Cube, m: nat, n: nat): (s: seq<real>)
    requires c.Valid() && m <= n
    ensures |s| == 2 * n + 1
  {
    Los(c, 0, m) + His(c, 0, m) + Los(c, m, n) + His(c, m, n) + [c.dim as real]
  }

  function MinDim(a: Cube, b: Cube): nat {
    if a.dim < b.dim then a.dim else b.dim
  }

  /** The order as one lexicographic comparison; the sort key depends on both dimensions. */
  function Compare(a: Cube, b: Cube): int
    requires a.Valid() && b.Valid()
  {
    LexCmp(SortKey(a, MinDim(a, b), MaxDim(a, b)), SortKey(b, MinDim(a, b), MaxDim(a, b)))
  }

  lemma SortKeyAt(c: Cube, m: nat, n: nat, i: nat)
    requires c.Valid() && m <= n
    ensures i < m ==> SortKey(c, m, n)[i] == c.Lo(i) && SortKey(c, m, n)[m + i] == c.Hi(i)
    ensures m <= i < n ==> SortKey(c, m, n)[m + i] == c.Lo(i) && SortKey(c, m, n)[n + i] == c.Hi(i)
    ensures SortKey(c, m, n)[2 * n] == c.dim as real
  {
  }

  ghost predicate AgreeUpTo(u: seq<real>, v: seq<real>, j: nat) {
    |u| == |v| && j <= |u| && forall k | 0 <= k < j :: u[k] == v[k]
  }

  function Bound(c: Cube, i: nat, upper: bool): real
    requires c.Valid()
  {
    if upper then c.Hi(i) else c.Lo(i)
  }

  /** u has the bounds of c from `from` to `to` at positions `base` onwards. */
  ghost predicate HasBlock(u: seq<real>, c: Cube, from: nat, to: nat, upper: bool, base: nat)
    requires c.Valid()
  {
    from <= to && base + to <= |u| && forall i: nat | from <= i < to :: u[base + i] == Bound(c, i, upper)
  }

  /** One scan of `cube_cmp_v0` over a block of the sort keys u and v; 0 means they agree there. */
  method CompareBlock(a: Cube, b: Cube, from: nat, to: nat, upper: bool,
                      ghost u: seq<real>, ghost v: seq<real>, ghost base: nat)
    returns (r: int)
    requires a.Valid() && b.Valid() && AgreeUpTo(u, v, base + from)
    requires HasBlock(u, a, from, to, upper, base) && HasBlock(v, b, from, to, upper, base)
    ensures r != 0 ==> r == LexCmp(u, v)
    ensures r == 0 ==> AgreeUpTo(u, v, base + to)
  {
    for i := from to to
      invariant AgreeUpTo(u, v, base + i)
    {
      assert u[base + i] == Bound(a, i, upper) && v[base + i] == Bound(b, i, upper);
      var x, y := Bound(a, i, upper), Bound(b, i, upper);
      if x != y {
        LexAt(u, v, base + i);
        return if x > y then 1 else -1;
      }
    }
    return 0;
  }

  lemma SortKeyBlocks(c: Cube, m: nat, n: nat)
    requires c.Valid() && m <= n
    ensures HasBlock(SortKey(c, m, n), c, 0, m, false, 0) && HasBlock(SortKey(c, m, n), c, 0, m, true, m)
    ensures HasBlock(SortKey(c, m, n), c, m, n, false, m) && HasBlock(SortKey(c, m, n), c, m, n, true, n)
  {
    forall i: nat
      ensures i < m ==> SortKey(c, m, n)[i] == c.Lo(i) && SortKey(c, m, n)[m + i] == c.Hi(i)
      ensures m <= i < n ==> SortKey(c, m, n)[m + i] == c.Lo(i) && SortKey(c, m, n)[n + i] == c.Hi(i)
    {
      SortKeyAt(c, m, n, i);
    }
  }

  /** `cube_cmp_v0`. */
  method CubeCmp(a: Cube, b: Cube) returns (r: int)
    requires a.Valid() && b.Valid()
    ensures r == Compare(a, b)
  {
    var m, n := MinDim(a, b), MaxDim(a, b);
    ghost var u, v := SortKey(a, m, n), SortKey(b, m, n);
    SortKeyBlocks(a, m, n);
    SortKeyBlocks(b, m, n);
    r := CompareBlock(a, b, 0, m, false, u, v, 0);
    if r != 0 { return; }
    r := CompareBlock(a, b, 0, m, true, u, v, m);
    if r != 0 { return; }
    r := CompareBlock(a, b, m, n, false, u, v, m);
    if r != 0 { return; }
    r := CompareBlock(a, b, m, n, true, u, v, n);
    if r != 0 { return; }
    SortKeyAt(a, m, n, n);
    SortKeyAt(b, m, n, n);
    if a.dim != b.dim {
      LexAt(u, v, 2 * n);
      return if a.dim > b.dim then 1 else -1;
    }
    assert u == v;
    LexZeroIff(u, v);
  }

  // ----- What decides -----

  function Sign(x: real, y: real): int {
    if x > y then 1 else if x < y then -1 else 0
  }

  /** The cubes have the same lower (or upper) bounds in a range of dimensions. */
  ghost predicate AgreeOn(a: Cube, b: Cube, from: nat, to: nat, upper: bool)
    requires a.Valid() && b.Valid()
  {
    forall i: nat | from <= i < to :: Bound(a, i, upper) == Bound(b, i, upper)
  }

  lemma {:induction false} BlocksAgree(a: Cube, b: Cube, u: seq<real>, v: seq<real>, from: nat, to: nat, upper: bool, base: nat)
    requires a.Valid() && b.Valid() && AgreeUpTo(u, v, base + from) && AgreeOn(a, b, from, to, upper)
    requires HasBlock(u, a, from, to, upper, base) && HasBlock(v, b, from, to, upper, base)
    ensures AgreeUpTo(u, v, base + to)
  {
    forall k | 0 <= k < base + to
      ensures u[k] == v[k]
    {
      if k >= base + from {
        var i: nat := k - base;
        assert u[base + i] == Bound(a, i, upper) && v[base + i] == Bound(b, i, upper);
      }
    }
  }

  lemma {:induction false} BlockDecides(a: Cube, b: Cube, u: seq<real>, v: seq<real>, from: nat, to: nat, upper: bool,
                                        base: nat, i: nat)
    requires a.Valid() && b.Valid() && AgreeUpTo(u, v, base + from) && from <= i < to && AgreeOn(a, b, from, i, upper)
    requires HasBlock(u, a, from, to, upper, base) && HasBlock(v, b, from, to, upper, base)
    requires Bound(a, i, upper) != Bound(b, i, upper)
    ensures LexCmp(u, v) == Sign(Bound(a, i, upper), Bound(b, i, upper))
  {
    BlocksAgree(a, b, u, v, from, i, upper, base);
    assert u[base + i] == Bound(a, i, upper) && v[base + i] == Bound(b, i, upper);
    LexAt(u, v, base + i);
  }

  /** The first lower bound to differ in the common dimensions decides. */
  lemma {:induction false} LowerDecides(a: Cube, b: Cube, i: nat)
    requires a.Valid() && b.Valid() && i < MinDim(a, b) && AgreeOn(a, b, 0, i, false) && a.Lo(i) != b.Lo(i)
    ensures Compare(a, b) == Sign(a.Lo(i), b.Lo(i))
  {
    var m, n := MinDim(a, b), MaxDim(a, b);
    SortKeyBlocks(a, m, n);
    SortKeyBlocks(b, m, n);
    BlockDecides(a, b, SortKey(a, m, n), SortKey(b, m, n), 0, m, false, 0, i);
  }

  /** With the lower bounds equal there, the first upper bound does. */
  lemma {:induction false} UpperDecides(a: Cube, b: Cube, i: nat)
    requires a.Valid() && b.Valid() && i < MinDim(a, b) && AgreeOn(a, b, 0, MinDim(a, b), false)
    requires AgreeOn(a, b, 0, i, true) && a.Hi(i) != b.Hi(i)
    ensures Compare(a, b) == Sign(a.Hi(i), b.Hi(i))
  {
    var m, n := MinDim(a, b), MaxDim(a, b);
    SortKeyBlocks(a, m, n);
    SortKeyBlocks(b, m, n);
    var u, v := SortKey(a, m, n), SortKey(b, m, n);
    BlocksAgree(a, b, u, v, 0, m, false, 0);
    BlockDecides(a, b, u, v, 0, m, true, m, i);
  }

  /** With the common dimensions equal, the others do: the lower bounds first, against zero. */
  lemma {:induction false} ExcessLowerDecides(a: Cube, b: Cube, i: nat)
    requires a.Valid() && b.Valid() && MinDim(a, b) <= i < MaxDim(a, b)
    requires AgreeOn(a, b, 0, MinDim(a, b), false) && AgreeOn(a, b, 0, MinDim(a, b), true)
    requires AgreeOn(a, b, MinDim(a, b), i, false) && a.Lo(i) != b.Lo(i)
    ensures Compare(a, b) == Sign(a.Lo(i), b.Lo(i))
  {
    var m, n := MinDim(a, b), MaxDim(a, b);
    SortKeyBlocks(a, m, n);
    SortKeyBlocks(b, m, n);
    var u, v := SortKey(a, m, n), SortKey(b, m, n);
    BlocksAgree(a, b, u, v, 0, m, false, 0);
    BlocksAgree(a, b, u, v, 0, m, true, m);
    BlockDecides(a, b, u, v, m, n, false, m, i);
  }

  /** Then the upper bounds there. */
  lemma {:induction false} ExcessUpperDecides(a: Cube, b: Cube, i: nat)
    requires a.Valid() && b.Valid() && MinDim(a, b) <= i < MaxDim(a, b)
    requires AgreeOn(a, b, 0, MaxDim(a, b), false) && AgreeOn(a, b, 0, i, true) && a.Hi(i) != b.Hi(i)
    ensures Compare(a, b) == Sign(a.Hi(i), b.Hi(i))
  {
    var m, n := MinDim(a, b), MaxDim(a, b);
    SortKeyBlocks(a, m, n);
    SortKeyBlocks(b, m, n);
    var u, v := SortKey(a, m, n), SortKey(b, m, n);
    BlocksAgree(a, b, u, v, 0, m, false, 0);
    BlocksAgree(a, b, u, v, 0, m, true, m);
    BlocksAgree(a, b, u, v, m, n, false, m);
    BlockDecides(a, b, u, v, m, n, true, n, i);
  }

  /** With all bounds equal, the cube with more dimensions is greater. */
  lemma {:induction false} DimensionDecides(a: Cube, b: Cube)
    requires a.Valid() && b.Valid() && AgreeOn(a, b, 0, MaxDim(a, b), false) && AgreeOn(a, b, 0, MaxDim(a, b), true)
    ensures Compare(a, b) == Sign(a.dim as real, b.dim as real)
  {
    var m, n := MinDim(a, b), MaxDim(a, b);
    SortKeyBlocks(a, m, n);
    SortKeyBlocks(b, m, n);
    var u, v := SortKey(a, m, n), SortKey(b, m, n);
    BlocksAgree(a, b, u, v, 0, m, false, 0);
    BlocksAgree(a, b, u, v, 0, m, true, m);
    BlocksAgree(a, b, u, v, m, n, false, m);
    BlocksAgree(a, b, u, v, m, n, true, n);
    SortKeyAt(a, m, n, n);
    SortKeyAt(b, m, n, n);
    if a.dim != b.dim {
      LexAt(u, v, 2 * n);
    } else {
      assert u == v;
      LexZeroIff(u, v);
    }
  }

  // ----- Laws -----

  /** Swapping the arguments negates the result, for all cubes. */
  lemma CompareAntisymmetric(a: Cube, b: Cube)
    requires a.Valid() && b.Valid()
    ensures Compare(a, b) == -Compare(b, a)
  {
    LexAntisymmetric(SortKey(a, MinDim(a, b), MaxDim(a, b)), SortKey(b, MinDim(a, b), MaxDim(a, b)));
  }

  /** Zero exactly for cubes with the same dimensions and the same normalised corners. */
  lemma CompareZeroIff(a: Cube, b: Cube)
    requires a.Valid() && b.Valid()
    ensures Compare(a, b) == 0 <==> Same(a, b)
  {
    var m, n := MinDim(a, b), MaxDim(a, b);
    LexZeroIff(SortKey(a, m, n), SortKey(b, m, n));
    SortKeyAt(a, m, n, n);
    SortKeyAt(b, m, n, n);
    if SortKey(a, m, n) == SortKey(b, m, n) {
      forall i: nat
        ensures a.Lo(i) == b.Lo(i) && a.Hi(i) == b.Hi(i)
      {
        SortKeyAt(a, m, n, i);
        SortKeyAt(b, m, n, i);
      }
    }
    if Same(a, b) {
      assert Los(a, 0, m) == Los(b, 0, m) && His(a, 0, m) == His(b, 0, m);
    }
  }

  /** The comparison is transitive on the cubes whose dimension is d or e. */
  ghost predicate TransitiveOn(d: nat, e: nat) {
    forall a: Cube, b: Cube, c: Cube
      | && a.Valid() && b.Valid() && c.Valid()
        && a.dim in {d, e} && b.dim in {d, e} && c.dim in {d, e}
        && Compare(a, b) <= 0 && Compare(b, c) <= 0 :: Compare(a, c) <= 0
  }

  /** Where blocks end makes no difference if one of the two kinds of blocks is empty. */
  lemma {:induction false} SortKeySplit(c: Cube, d: nat)
    requires c.Valid()
    ensures SortKey(c, 0, d) == SortKey(c, d, d)
  {
    assert Los(c, 0, 0) == [] && Los(c, d, d) == [] && His(c, 0, 0) == [] && His(c, d, d) == [];
  }

  /** Two cubes without dimensions have the same sort key. */
  lemma {:induction false} NoDimensions(a: Cube, b: Cube, d: nat)
    requires a.Valid() && b.Valid() && a.dim == 0 && b.dim == 0
    ensures SortKey(a, d, d) == SortKey(b, d, d)
  {
    assert Los(a, 0, d) == Los(b, 0, d) && His(a, 0, d) == His(b, 0, d);
    assert Los(a, d, d) == [] == Los(b, d, d) && His(a, d, d) == [] == His(b, d, d);
  }

  /** Between cubes of dimension d or zero, one sort key serves all comparisons. */
  lemma {:induction false} OneSortKey(a: Cube, b: Cube, d: nat)
    requires a.Valid() && b.Valid() && a.dim in {0, d} && b.dim in {0, d}
    ensures Compare(a, b) == LexCmp(SortKey(a, d, d), SortKey(b, d, d))
  {
    SortKeySplit(a, d);
    SortKeySplit(b, d);
    if MaxDim(a, b) == d {
      assert MinDim(a, b) in {0, d};
    } else {
      NoDimensions(a, b, 0);
      NoDimensions(a, b, d);
      LexZeroIff(SortKey(a, 0, 0), SortKey(b, 0, 0));
      LexZeroIff(SortKey(a, d, d), SortKey(b, d, d));
    }
  }

  lemma TransitiveWithZero(a: Cube, b: Cube, c: Cube, d: nat)
    requires a.Valid() && b.Valid() && c.Valid()
    requires a.dim in {0, d} && b.dim in {0, d} && c.dim in {0, d}
    requires Compare(a, b) <= 0 && Compare(b, c) <= 0
    ensures Compare(a, c) <= 0
  {
    OneSortKey(a, b, d);
    OneSortKey(b, c, d);
    OneSortKey(a, c, d);
    LexTransitive(SortKey(a, d, d), SortKey(b, d, d), SortKey(c, d, d));
  }

  /** A box of dimension n that is zero but for its upper bound in dimension 0 and one unit step. */
  function Probe(n: nat, top: real, step: nat): (c: Cube)
    requires n > 0
    ensures c.Valid() && c.dim == n
    ensures forall i: nat | i < n :: c.LL(i) == (if i == step then 1.0 else 0.0)
    ensures forall i: nat | i < n :: c.UR(i) == (if i == 0 then top else if i == step then 1.0 else 0.0)
  {
    Cube(n, false,
         seq(n, i => if i == step then 1.0 else 0.0) +
         seq(n, i => if i == 0 then top else if i == step then 1.0 else 0.0))
  }

  /** Two different positive dimensions allow a cycle of three cubes. */
  lemma CompareCycle(d: nat, e: nat)
    requires 0 < d < e
    ensures Compare(Probe(d, 5.0, e), Probe(e, 4.0, d)) == 1
    ensures Compare(Probe(e, 4.0, d), Probe(e, 6.0, e)) == 1
    ensures Compare(Probe(d, 5.0, e), Probe(e, 6.0, e)) == -1
  {
    var a, b, c := Probe(d, 5.0, e), Probe(e, 4.0, d), Probe(e, 6.0, e);
    FirstUpper(a, b, d, e);
    FirstUpper(a, c, d, e);
    SortKeyBlocks(b, e, e);
    SortKeyBlocks(c, e, e);
    var u, v := SortKey(b, e, e), SortKey(c, e, e);
    forall k: nat | k < d
      ensures u[k] == v[k]
    {
      assert u[0 + k] == Bound(b, k, false) && v[0 + k] == Bound(c, k, false);
    }
    assert u[0 + d] == Bound(b, d, false) && v[0 + d] == Bound(c, d, false);
    LexAt(u, v, d);
  }

  /** When the common lower bounds agree, the upper bound in dimension 0 comes next. */
  lemma FirstUpper(a: Cube, b: Cube, d: nat, e: nat)
    requires a.Valid() && b.Valid() && a.dim == d && b.dim == e && 0 < d < e
    requires (forall i: nat | i < d :: a.Lo(i) == b.Lo(i)) && a.Hi(0) != b.Hi(0)
    ensures Compare(a, b) == if a.Hi(0) > b.Hi(0) then 1 else -1
  {
    SortKeyBlocks(a, d, e);
    SortKeyBlocks(b, d, e);
    var u, v := SortKey(a, d, e), SortKey(b, d, e);
    forall k: nat | k < d
      ensures u[k] == v[k]
    {
      assert u[0 + k] == Bound(a, k, false) && v[0 + k] == Bound(b, k, false);
    }
    assert u[d + 0] == Bound(a, 0, true) && v[d + 0] == Bound(b, 0, true);
    LexAt(u, v, d);
  }

  lemma TransitiveOver(d: nat, e: nat)
    requires d == e || d == 0 || e == 0
    ensures TransitiveOn(d, e)
  {
    var n := if d == 0 then e else d;
    forall a: Cube, b: Cube, c: Cube
      | && a.Valid() && b.Valid() && c.Valid()
        && a.dim in {d, e} && b.dim in {d, e} && c.dim in {d, e}
        && Compare(a, b) <= 0 && Compare(b, c) <= 0
      ensures Compare(a, c) <= 0
    {
      TransitiveWithZero(a, b, c, n);
    }
  }

  lemma CycleOver(d: nat, e: nat) returns (a: Cube, b: Cube, c: Cube)
    requires 0 < d < e
    ensures a.Valid() && b.Valid() && c.Valid() && a.dim in {d, e} && b.dim in {d, e} && c.dim in {d, e}
    ensures Compare(a, b) <= 0 && Compare(b, c) <= 0 && Compare(a, c) > 0
  {
    a, b, c := Probe(d, 5.0, e), Probe(e, 6.0, e), Probe(e, 4.0, d);
    CompareCycle(d, e);
    CompareAntisymmetric(b, c);
  }

  /** Transitivity holds over two dimensions exactly when they are equal or one of them is zero. */
  lemma TransitiveIff(d: nat, e: nat)
    ensures TransitiveOn(d, e) <==> d == e || d == 0 || e == 0
  {
    if d == e || d == 0 || e == 0 {
      TransitiveOver(d, e);
    } else if d < e {
      var a, b, c := CycleOver(d, e);
    } else {
      var a, b, c := CycleOver(e, d);
    }
  }
}
