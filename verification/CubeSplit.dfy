/**
Splitting a page of cubes (contrib/cube/cube.c, `g_cube_picksplit`): Guttman's quadratic
split, with sizes computed over the reals.
 */
module CubeSplit {
  import opened CubeBox

  function Product(s: seq<real>): real {
    if s == [] then 1.0 else Product(s[..|s| - 1]) * s[|s| - 1]
  }

  /** The side lengths of a box, corners in any order. */
  function Sides(c: Cube): (s: seq<real>)
    requires c.Valid()
    ensures |s| == c.dim
  {
    seq(c.dim, i requires 0 <= i < c.dim => Abs(c.UR(i) - c.LL(i)))
  }

  /** The volume of a box; a box without dimensions has none. */
  function Volume(sides: seq<real>): real {
    if sides == [] then 0.0 else Product(sides)
  }

  /** The product of two lists together is that of the one times that of the other. */
  lemma {:induction false} ProductConcat(s: seq<real>, t: seq<real>)
    ensures Product(s + t) == Product(s) * Product(t)
    ensures |s| == 1 ==> Product(s) == s[0]
  {
    if t == [] {
      assert s + t == s;
    } else {
      ProductConcat(s, t[..|t| - 1]);
      assert (s + t)[..|s + t| - 1] == s + t[..|t| - 1];
    }
    if |s| == 1 {
      assert s[..0] == [] && Product(s[..0]) == 1.0;
    }
  }

  lemma {:induction false} ProductZeroIff(s: seq<real>)
    ensures Product(s) == 0.0 <==> 0.0 in s
  {
    if s != [] {
      var front, last := s[..|s| - 1], s[|s| - 1];
      ProductZeroIff(front);
      assert s == front + [last];
      NoZeroDivisors(Product(front), last);
    }
  }

  lemma {:induction false} NoZeroDivisors(x: real, y: real)
    ensures x * y == 0.0 <==> x == 0.0 || y == 0.0
  {
    if x * y == 0.0 && y != 0.0 {
      assert x == (x * y) / y;
    }
  }

  /** Exactly the boxes without dimensions and those that are flat in some dimension have no volume. */
  lemma {:induction false} VolumeZeroIff(sides: seq<real>)
    ensures Volume(sides) == 0.0 <==> sides == [] || 0.0 in sides
    ensures sides != [] ==> Volume(sides) == Product(sides)
  {
    ProductZeroIff(sides);
  }

  /** The side lengths are the distances of the bounds. */
  lemma {:induction false} SidesAre(c: Cube, i: nat)
    requires c.Valid() && i < c.dim
    ensures Sides(c)[i] == c.Hi(i) - c.Lo(i)
  {
  }

  lemma FlatHasNoVolume(sides: seq<real>)
    requires sides != [] && sides[|sides| - 1] == 0.0
    ensures Volume(sides) == 0.0
  {
  }

  /** `rt_cube_size`, which takes a shortcut for points. */
  method Size(c: Cube) returns (size: real)
    requires c.Valid()
    ensures size == Volume(Sides(c))
  {
    if c.point || c.dim == 0 {
      if c.dim > 0 {
        FlatHasNoVolume(Sides(c));
      }
      return 0.0;
    }
    size := 1.0;
    ghost var sides := Sides(c);
    for i := 0 to c.dim
      invariant size == Product(sides[..i])
    {
      assert sides[..i + 1][..i] == sides[..i];
      size := size * Abs(c.UR(i) - c.LL(i));
    }
    assert sides[..c.dim] == sides;
  }

  /** `cube_inter`: the corners may come out crossed when the cubes do not overlap. */
  method Intersect(a0: Cube, b0: Cube) returns (c: Cube)
    requires a0.Valid() && b0.Valid()
    ensures c.Valid() && c.dim == MaxDim(a0, b0)
    ensures forall i: nat | i < c.dim ::
              c.LL(i) == Max(a0.Lo(i), b0.Lo(i)) && c.UR(i) == Min(a0.Hi(i), b0.Hi(i))
  {
    var a, b := a0, b0;
    if a.dim < b.dim {
      a, b := b, a;
    }
    var lo, hi := new real[a.dim](_ => 0.0), new real[a.dim](_ => 0.0);
    for i := 0 to a.dim
      invariant forall k: nat | k < i :: lo[k] == Max(a0.Lo(k), b0.Lo(k)) && hi[k] == Min(a0.Hi(k), b0.Hi(k))
    {
      if i < b.dim {
        lo[i] := Max(Min(a.LL(i), a.UR(i)), Min(b.LL(i), b.UR(i)));
        hi[i] := Min(Max(a.LL(i), a.UR(i)), Max(b.LL(i), b.UR(i)));
      } else {
        lo[i] := Max(0.0, Min(a.LL(i), a.UR(i)));
        hi[i] := Min(0.0, Max(a.LL(i), a.UR(i)));
      }
    }
    if lo[..] == hi[..] {
      assert forall k: nat | k < a.dim :: lo[k] == lo[..][k] == hi[..][k] == hi[k];
      return Cube(a.dim, true, lo[..]);
    }
    return Cube(a.dim, false, lo[..] + hi[..]);
  }

  // ----- Bounding boxes of sets of entries -----

  ghost predicate EnclosesThose(c: Cube, entries: seq<Cube>, s: set<nat>)
    requires c.Valid() && AllValid(entries)
  {
    forall i | i in s :: i < |entries| && Encloses(c, entries[i])
  }

  /** c is the least cube that encloses the entries in s. */
  ghost predicate BoxOf(c: Cube, entries: seq<Cube>, s: set<nat>)
    requires c.Valid() && AllValid(entries)
  {
    && EnclosesThose(c, entries, s)
    && forall d: Cube | d.Valid() && EnclosesThose(d, entries, s) :: Encloses(d, c)
  }

  lemma BoxOfOne(entries: seq<Cube>, i: nat)
    requires AllValid(entries) && i < |entries|
    ensures BoxOf(entries[i], entries, {i})
  {
  }

  lemma BoxAdd(u: Cube, c: Cube, entries: seq<Cube>, s: set<nat>, i: nat)
    requires c.Valid() && AllValid(entries) && BoxOf(c, entries, s)
    requires i < |entries| && IsUnion(u, c, entries[i])
    ensures BoxOf(u, entries, s + {i})
  {
    UnionEncloses(u, c, entries[i]);
    forall k | k in s + {i}
      ensures k < |entries| && Encloses(u, entries[k])
    {
      if k in s {
        EnclosesTransitive(u, c, entries[k]);
      }
    }
    forall d: Cube | d.Valid() && EnclosesThose(d, entries, s + {i})
      ensures Encloses(d, u)
    {
      assert i in s + {i};
      assert forall k | k in s :: k in s + {i};
      UnionIsLeast(u, c, entries[i], d);
    }
  }

  // ----- The split -----

  /** The extents of two cubes together. */
  function UnionSides(a: Cube, b: Cube): seq<real>
    requires a.Valid() && b.Valid()
  {
    seq(MaxDim(a, b), i requires 0 <= i => Max(a.Hi(i), b.Hi(i)) - Min(a.Lo(i), b.Lo(i)))
  }

  /** The common extents of two cubes; where there is none, the width of the space between. */
  function InterSides(a: Cube, b: Cube): seq<real>
    requires a.Valid() && b.Valid()
  {
    seq(MaxDim(a, b), i requires 0 <= i => Abs(Min(a.Hi(i), b.Hi(i)) - Max(a.Lo(i), b.Lo(i))))
  }

  /** The space a pair wastes when stored together. */
  function WasteOf(a: Cube, b: Cube): real
    requires a.Valid() && b.Valid()
  {
    Volume(UnionSides(a, b)) - Volume(InterSides(a, b))
  }

  lemma SidesOfUnion(u: Cube, a: Cube, b: Cube)
    requires a.Valid() && b.Valid() && IsUnion(u, a, b)
    ensures Sides(u) == UnionSides(a, b)
  {
  }

  /** A cube stored with one that it encloses wastes the space around that one. */
  lemma {:induction false} WasteEnclosed(a: Cube, b: Cube)
    requires a.Valid() && b.Valid() && a.dim == b.dim && Encloses(a, b)
    ensures WasteOf(a, b) == Volume(Sides(a)) - Volume(Sides(b)) == WasteOf(b, a)
  {
    forall i: nat | i < a.dim
      ensures UnionSides(a, b)[i] == UnionSides(b, a)[i] == Sides(a)[i]
      ensures InterSides(a, b)[i] == InterSides(b, a)[i] == Sides(b)[i]
    {
      assert a.Lo(i) <= b.Lo(i) && b.Hi(i) <= a.Hi(i);
      LoHi(b, i);
      SidesAre(a, i);
      SidesAre(b, i);
    }
    assert UnionSides(a, b) == Sides(a) == UnionSides(b, a);
    assert InterSides(a, b) == Sides(b) == InterSides(b, a);
  }

  /** The waste computation of the seed loop. */
  method Waste(a: Cube, b: Cube) returns (waste: real)
    requires a.Valid() && b.Valid()
    ensures waste == WasteOf(a, b)
  {
    var u := ComputeUnion(a, b);
    var v := Intersect(a, b);
    SidesOfUnion(u, a, b);
    assert Sides(v) == InterSides(a, b);
    var unionSize := Size(u);
    var interSize := Size(v);
    waste := unionSize - interSize;
  }

  /** The best pair seen so far, if any. */
  datatype Seeds = Seeds(first: nat, second: nat, waste: real, found: bool)

  ghost predicate SeedsOk(s: Seeds, entries: seq<Cube>)
    requires AllValid(entries)
  {
    && 1 <= s.first < s.second < |entries|
    && (s.found ==> s.waste == WasteOf(entries[s.first], entries[s.second]))
  }

  ghost predicate NoBetter(s: Seeds, entries: seq<Cube>, p: nat, q: nat)
    requires AllValid(entries) && p < |entries| && q < |entries|
  {
    s.found && WasteOf(entries[p], entries[q]) <= s.waste
  }

  /** No pair (p, q) before (i, j) in loop order wastes more. */
  ghost predicate BestBefore(s: Seeds, entries: seq<Cube>, i: nat, j: nat)
    requires AllValid(entries)
  {
    forall p: nat, q: nat | 1 <= p < q < |entries| - 1 && (p < i || (p == i && q < j)) :: NoBetter(s, entries, p, q)
  }

  /** The inner seed loop, over the partners of entry i. */
  method PickPartner(entries: seq<Cube>, i: nat, s0: Seeds) returns (s: Seeds)
    requires AllValid(entries) && 1 <= i && i + 1 < |entries| && SeedsOk(s0, entries) && BestBefore(s0, entries, i, 0)
    ensures SeedsOk(s, entries) && BestBefore(s, entries, i + 1, 0)
  {
    s := s0;
    for j := i + 1 to |entries| - 1
      invariant SeedsOk(s, entries) && BestBefore(s, entries, i, j)
    {
      var w := Waste(entries[i], entries[j]);
      ghost var before := s;
      if w > s.waste || !s.found {
        s := Seeds(i, j, w, true);
      }
      forall p: nat, q: nat | 1 <= p < q < |entries| - 1 && (p < i || (p == i && q < j + 1))
        ensures NoBetter(s, entries, p, q)
      {
        if (p, q) != (i, j) {
          assert NoBetter(before, entries, p, q);
        }
      }
    }
  }

  /** The seed loops: the most wasteful pair among all entries but the last, which is the new one. */
  method PickSeeds(entries: seq<Cube>) returns (seed1: nat, seed2: nat)
    requires |entries| >= 3 && AllValid(entries)
    ensures 1 <= seed1 < seed2 < |entries|
    ensures forall i: nat, j: nat | 1 <= i < j < |entries| - 1 ::
              WasteOf(entries[i], entries[j]) <= WasteOf(entries[seed1], entries[seed2])
  {
    var s := Seeds(1, 2, 0.0, false);
    for i := 1 to |entries| - 2
      invariant SeedsOk(s, entries) && BestBefore(s, entries, i, 0)
    {
      s := PickPartner(entries, i, s);
    }
    seed1, seed2 := s.first, s.second;
    forall i: nat, j: nat | 1 <= i < j < |entries| - 1
      ensures WasteOf(entries[i], entries[j]) <= WasteOf(entries[seed1], entries[seed2])
    {
      assert NoBetter(s, entries, i, j);
    }
  }

  ghost predicate Increasing(s: seq<nat>) {
    forall i, j | 0 <= i < j < |s| :: s[i] < s[j]
  }

  ghost function Elements(s: seq<nat>): set<nat> {
    set i | 0 <= i < |s| :: s[i]
  }

  /** The sides hold the offsets from 1 up to n, each on exactly one side, in order. */
  ghost predicate Parted(left: seq<nat>, right: seq<nat>, n: nat) {
    && Increasing(left) && Increasing(right)
    && (forall k | k in left :: 1 <= k < n) && (forall k | k in right :: 1 <= k < n)
    && (forall k: nat | 1 <= k < n :: k in left <==> k !in right)
  }

  lemma PartedNext(left: seq<nat>, right: seq<nat>, n: nat)
    requires Parted(left, right, n) && n >= 1
    ensures Parted(left + [n], right, n + 1) && Parted(left, right + [n], n + 1)
    ensures Elements(left + [n]) == Elements(left) + {n} && Elements(right + [n]) == Elements(right) + {n}
  {
    IncreasingNext(left, n);
    IncreasingNext(right, n);
  }

  lemma IncreasingNext(s: seq<nat>, n: nat)
    requires Increasing(s) && forall k | k in s :: k < n
    ensures Increasing(s + [n]) && Elements(s + [n]) == Elements(s) + {n}
  {
    var s' := s + [n];
    forall i, j | 0 <= i < j < |s'|
      ensures s'[i] < s'[j]
    {
      assert s'[i] in s;
    }
    assert s'[|s|] == n;
    forall k | k in Elements(s) + {n}
      ensures k in Elements(s')
    {
      if k in Elements(s) {
        var i :| 0 <= i < |s| && s[i] == k;
        assert s'[i] == k;
      }
    }
  }

  /** One side of the split: the offsets placed so far, and the box of those and of the seed. */
  datatype Side = Side(offsets: seq<nat>, datum: Cube, size: real)

  ghost predicate SideOk(side: Side, entries: seq<Cube>, seed: nat)
    requires AllValid(entries)
  {
    side.datum.Valid() && BoxOf(side.datum, entries, Elements(side.offsets) + {seed})
  }

  lemma SideSeed(side: Side, entries: seq<Cube>, seed: nat)
    requires AllValid(entries) && SideOk(side, entries, seed)
    requires Elements(side.offsets + [seed]) == Elements(side.offsets) + {seed}
    ensures SideOk(side.(offsets := side.offsets + [seed]), entries, seed)
  {
  }

  lemma SideAdd(side: Side, entries: seq<Cube>, seed: nat, i: nat, u: Cube, size: real)
    requires AllValid(entries) && SideOk(side, entries, seed) && i < |entries|
    requires IsUnion(u, side.datum, entries[i])
    requires Elements(side.offsets + [i]) == Elements(side.offsets) + {i}
    ensures SideOk(Side(side.offsets + [i], u, size), entries, seed)
  {
    BoxAdd(u, side.datum, entries, Elements(side.offsets) + {seed}, i);
    assert Elements(side.offsets) + {seed} + {i} == Elements(side.offsets) + {i} + {seed};
  }

  /** Place an entry that is no seed on the side that it enlarges less; ties go right. */
  method PlaceEntry(entries: seq<Cube>, l: Side, r: Side, seed1: nat, seed2: nat, i: nat)
    returns (l': Side, r': Side)
    requires AllValid(entries) && 1 <= i < |entries| && Parted(l.offsets, r.offsets, i)
    requires SideOk(l, entries, seed1) && SideOk(r, entries, seed2)
    ensures SideOk(l', entries, seed1) && SideOk(r', entries, seed2)
    ensures var growL := Volume(UnionSides(l.datum, entries[i])) - l.size;
            var growR := Volume(UnionSides(r.datum, entries[i])) - r.size;
            if growL < growR then l'.offsets == l.offsets + [i] && l'.size == growL + l.size && r' == r
            else l' == l && r'.offsets == r.offsets + [i] && r'.size == growR + r.size
  {
    PartedNext(l.offsets, r.offsets, i);
    var unionL := ComputeUnion(l.datum, entries[i]);
    var unionR := ComputeUnion(r.datum, entries[i]);
    SidesOfUnion(unionL, l.datum, entries[i]);
    SidesOfUnion(unionR, r.datum, entries[i]);
    var alpha := Size(unionL);
    var beta := Size(unionR);
    l', r' := l, r;
    if alpha - l.size < beta - r.size {
      SideAdd(l, entries, seed1, i, unionL, alpha);
      l' := Side(l.offsets + [i], unionL, alpha);
    } else {
      SideAdd(r, entries, seed2, i, unionR, beta);
      r' := Side(r.offsets + [i], unionR, beta);
    }
  }

  /** The distribution loop of `g_cube_picksplit`. */
  method Distribute(entries: seq<Cube>, seed1: nat, seed2: nat) returns (l: Side, r: Side)
    requires AllValid(entries) && 1 <= seed1 < seed2 < |entries|
    ensures Parted(l.offsets, r.offsets, |entries|) && seed1 in l.offsets && seed2 in r.offsets
    ensures SideOk(l, entries, seed1) && SideOk(r, entries, seed2)
  {
    BoxOfOne(entries, seed1);
    BoxOfOne(entries, seed2);
    var sizeL := Size(entries[seed1]);
    var sizeR := Size(entries[seed2]);
    l, r := Side([], entries[seed1], sizeL), Side([], entries[seed2], sizeR);
    assert Elements([]) + {seed1} == {seed1} && Elements([]) + {seed2} == {seed2};
    for i := 1 to |entries|
      invariant Parted(l.offsets, r.offsets, i)
      invariant (seed1 < i ==> seed1 in l.offsets) && (seed2 < i ==> seed2 in r.offsets)
      invariant SideOk(l, entries, seed1) && SideOk(r, entries, seed2)
    {
      PartedNext(l.offsets, r.offsets, i);
      if i == seed1 {
        SideSeed(l, entries, seed1);
        l := l.(offsets := l.offsets + [i]);
      } else if i == seed2 {
        SideSeed(r, entries, seed2);
        r := r.(offsets := r.offsets + [i]);
      } else {
        l, r := PlaceEntry(entries, l, r, seed1, seed2, i);
      }
    }
  }

  /**
  `g_cube_picksplit`: every offset from 1 on goes to exactly one side, both sides are in order
  and not empty, and each datum is the bounding box of its side. Offset 0 is not used.
   */
  method PickSplit(entries: seq<Cube>) returns (left: seq<nat>, right: seq<nat>, ldatum: Cube, rdatum: Cube)
    requires |entries| >= 3 && AllValid(entries)
    ensures left != [] && right != [] && Parted(left, right, |entries|)
    ensures forall k: nat :: (k in left <==> 1 <= k < |entries| && k !in right) && (k in right ==> 1 <= k < |entries|)
    ensures ldatum.Valid() && BoxOf(ldatum, entries, Elements(left))
    ensures rdatum.Valid() && BoxOf(rdatum, entries, Elements(right))
  {
    var seed1, seed2 := PickSeeds(entries);
    var l, r := Distribute(entries, seed1, seed2);
    assert Elements(l.offsets) + {seed1} == Elements(l.offsets);
    assert Elements(r.offsets) + {seed2} == Elements(r.offsets);
    left, right, ldatum, rdatum := l.offsets, r.offsets, l.datum, r.datum;
  }
}
