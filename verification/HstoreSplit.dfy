/** `ghstore_picksplit` (contrib/hstore/hstore_gist.c). */
module HstoreSplit {
  import opened HstoreSignature

  // ----- Seeds -----

  /** The state of the seed loops; a waste of -1 says that no pair was seen. */
  datatype Seeds = Seeds(first: nat, second: nat, waste: int)

  ghost function Apart(keys: seq<GistKey>, siglen: nat, i: nat, j: nat): int
    requires i < |keys| && j < |keys|
  {
    Distance(keys[i].Expanded(siglen), keys[j].Expanded(siglen))
  }

  ghost predicate SeedsOk(s: Seeds, keys: seq<GistKey>, siglen: nat) {
    || s == Seeds(0, 0, -1)
    || (1 <= s.first < s.second < |keys| - 1 && s.waste == Apart(keys, siglen, s.first, s.second))
  }

  ghost predicate NoBetter(s: Seeds, keys: seq<GistKey>, siglen: nat, i: nat, j: nat)
    requires i < |keys| && j < |keys|
  {
    Apart(keys, siglen, i, j) <= s.waste
  }

  /** No pair before (i, j) in loop order is further apart. */
  ghost predicate BestBefore(s: Seeds, keys: seq<GistKey>, siglen: nat, i: nat, j: nat) {
    forall p: nat, q: nat | 1 <= p < q < |keys| - 1 && (p < i || (p == i && q < j)) :: NoBetter(s, keys, siglen, p, q)
  }

  lemma BestNext(s: Seeds, s': Seeds, keys: seq<GistKey>, siglen: nat, i: nat, j: nat)
    requires 1 <= i < j < |keys| - 1 && BestBefore(s, keys, siglen, i, j) && s.waste <= s'.waste
    requires NoBetter(s', keys, siglen, i, j)
    ensures BestBefore(s', keys, siglen, i, j + 1)
  {
    forall p: nat, q: nat | 1 <= p < q < |keys| - 1 && (p < i || (p == i && q < j + 1))
      ensures NoBetter(s', keys, siglen, p, q)
    {
      assert (p, q) != (i, j) ==> NoBetter(s, keys, siglen, p, q);
    }
  }

  /** The inner seed loop. */
  method PickPartner(keys: seq<GistKey>, siglen: nat, k: nat, s0: Seeds) returns (s: Seeds)
    requires AllValid(keys, siglen) && 1 <= k < |keys| - 2
    requires SeedsOk(s0, keys, siglen) && BestBefore(s0, keys, siglen, k, 0)
    ensures SeedsOk(s, keys, siglen) && BestBefore(s, keys, siglen, k + 1, 0)
  {
    s := s0;
    for j := k + 1 to |keys| - 1
      invariant SeedsOk(s, keys, siglen) && BestBefore(s, keys, siglen, k, j)
    {
      s := TryPair(keys, siglen, k, j, s);
    }
  }

  /** Take a pair if it is further apart than the seeds so far. */
  method TryPair(keys: seq<GistKey>, siglen: nat, k: nat, j: nat, s: Seeds) returns (s': Seeds)
    requires AllValid(keys, siglen) && 1 <= k < j < |keys| - 1
    requires SeedsOk(s, keys, siglen) && BestBefore(s, keys, siglen, k, j)
    ensures SeedsOk(s', keys, siglen) && BestBefore(s', keys, siglen, k, j + 1)
  {
    var waste := HemDist(keys[k], keys[j], siglen);
    s' := if waste > s.waste then Seeds(k, j, waste) else s;
    assert NoBetter(s', keys, siglen, k, j);
    BestNext(s, s', keys, siglen, k, j);
  }

  /** The seed loops: the two keys furthest apart among all but the last, or the only two. */
  method PickSeeds(keys: seq<GistKey>, siglen: nat) returns (seed1: nat, seed2: nat)
    requires AllValid(keys, siglen) && |keys| >= 3
    ensures 1 <= seed1 < seed2 < |keys|
    ensures forall p: nat, q: nat | 1 <= p < q < |keys| - 1 :: Apart(keys, siglen, p, q) <= Apart(keys, siglen, seed1, seed2)
  {
    var s := Seeds(0, 0, -1);
    for k := 1 to |keys| - 2
      invariant SeedsOk(s, keys, siglen) && BestBefore(s, keys, siglen, k, 0)
    {
      s := PickPartner(keys, siglen, k, s);
    }
    seed1, seed2 := s.first, s.second;
    if seed1 == 0 || seed2 == 0 {
      seed1, seed2 := 1, 2;
    }
    forall p: nat, q: nat | 1 <= p < q < |keys| - 1
      ensures Apart(keys, siglen, p, q) <= Apart(keys, siglen, seed1, seed2)
    {
      assert NoBetter(s, keys, siglen, p, q);
    }
  }

  // ----- Sides -----

  /** A datum under construction: its flag, and the bit vector that is ORed into. */
  function DatumOf(all: bool, sign: Signature): GistKey {
    if all then AllTrue else Signed(sign)
  }

  /** `ghstore_alloc` with the flag and the bits of a key. */
  method CopyKey(key: GistKey, siglen: nat) returns (all: bool, sign: array<BitSet>)
    requires key.Valid(siglen)
    ensures fresh(sign) && sign.Length == siglen && Fits(sign[..]) && DatumOf(all, sign[..]) == key
  {
    all := key.AllTrue?;
    sign := new BitSet[siglen](_ => {});
    if key.Signed? {
      for i := 0 to siglen
        invariant forall k | 0 <= k < siglen :: sign[k] == if k < i then key.sign[k] else {}
      {
        sign[i] := key.sign[i];
      }
    }
  }

  /** Add a key to a side; a key with the flag fills the vector instead of setting the flag. */
  method AddKey(all: bool, sign: array<BitSet>, key: GistKey)
    requires key.Valid(sign.Length) && Fits(sign[..])
    modifies sign
    ensures Fits(sign[..])
    ensures DatumOf(all, sign[..]).Expanded(sign.Length) ==
            old(DatumOf(all, sign[..])).Expanded(sign.Length) + key.Expanded(sign.Length)
  {
    ghost var datum := DatumOf(all, sign[..]);
    ExpandedWithin(datum, sign.Length);
    ExpandedWithin(key, sign.Length);
    if all || key.AllTrue? {
      if !all {
        for i := 0 to sign.Length
          invariant forall k | 0 <= k < i :: sign[k] == FULL_BYTE
        {
          sign[i] := FULL_BYTE;
        }
        FullIff(sign[..]);
      }
    } else {
      OrInto(sign, key.sign);
    }
  }

  // ----- Distribution -----

  /** A sorted cost vector lists every offset from 1 up to n once. */
  ghost predicate OffsetsOnce(order: seq<nat>, n: nat) {
    forall k: nat :: multiset(order)[k] == if 1 <= k < n then 1 else 0
  }

  predicate InRange(offsets: seq<nat>, n: nat) {
    forall i | 0 <= i < |offsets| :: offsets[i] < n
  }

  /** The keys at some offsets. */
  ghost function Select(keys: seq<GistKey>, offsets: seq<nat>): (r: seq<GistKey>)
    requires InRange(offsets, |keys|)
  {
    seq(|offsets|, i requires 0 <= i < |offsets| => keys[offsets[i]])
  }

  /** A datum has exactly the bits of the keys on its side and of its seed. */
  ghost predicate SideOk(datum: GistKey, keys: seq<GistKey>, siglen: nat, offsets: seq<nat>, seed: nat) {
    && InRange(offsets, |keys|) && seed < |keys|
    && datum.Expanded(siglen) == UnionBits(Select(keys, offsets), siglen) + keys[seed].Expanded(siglen)
  }

  lemma {:induction false} SelectNext(keys: seq<GistKey>, offsets: seq<nat>, j: nat)
    requires InRange(offsets, |keys|) && j < |keys|
    ensures InRange(offsets + [j], |keys|) && Select(keys, offsets + [j]) == Select(keys, offsets) + [keys[j]]
  {
  }

  lemma {:induction false} SideNext(datum: GistKey, datum': GistKey, keys: seq<GistKey>, siglen: nat, offsets: seq<nat>,
                                    seed: nat, j: nat)
    requires SideOk(datum, keys, siglen, offsets, seed) && j < |keys|
    requires datum'.Expanded(siglen) == datum.Expanded(siglen) + keys[j].Expanded(siglen)
    ensures SideOk(datum', keys, siglen, offsets + [j], seed)
  {
    var selected := Select(keys, offsets);
    SelectNext(keys, offsets, j);
    UnionBitsNext(selected, siglen, keys[j]);
    AddInTheMiddle(UnionBits(selected, siglen), keys[seed].Expanded(siglen), keys[j].Expanded(siglen));
  }

  lemma AddInTheMiddle(a: set<int>, b: set<int>, c: set<int>)
    ensures (a + b) + c == (a + c) + b
  {
  }

  /** Once the seed is on its side, it adds nothing. */
  lemma SideDone(datum: GistKey, keys: seq<GistKey>, siglen: nat, offsets: seq<nat>, seed: nat)
    requires SideOk(datum, keys, siglen, offsets, seed) && seed in offsets
    ensures datum.Expanded(siglen) == UnionBits(Select(keys, offsets), siglen)
  {
    var i :| 0 <= i < |offsets| && offsets[i] == seed;
    UnionBitsInclude(Select(keys, offsets), siglen, i);
  }

  /** WISH_F: a bonus for the side with fewer keys. */
  function Wish(a: int, b: int, c: real): real {
    -(((a - b) * (a - b) * (a - b)) as real) * c
  }

  /** The bonus counts against the side that already has more keys, and is the same for both. */
  lemma {:induction false} WishFavours(a: int, b: int, c: real)
    requires c > 0.0
    ensures Wish(a, b, c) > 0.0 <==> a < b
    ensures Wish(a, b, c) == -Wish(b, a, c)
  {
    var d := a - b;
    assert b - a == -d && (-d) * (-d) * (-d) == -(d * d * d);
    CubeSign(d);
    ProductSign(-((d * d * d) as real), c);
  }

  lemma {:induction false} CubeSign(d: int)
    ensures d * d * d < 0 <==> d < 0
  {
    if d > 0 {
      assert d * d > 0;
    } else if d < 0 {
      assert d * d > 0;
    }
  }

  lemma {:induction false} ProductSign(x: real, c: real)
    requires c > 0.0
    ensures x * c > 0.0 <==> x > 0.0
  {
    if x <= 0.0 {
      assert (-x) * c >= 0.0;
    }
  }

  /** The choice between the sides. */
  method GoesLeft(l: GistKey, r: GistKey, key: GistKey, siglen: nat, nleft: nat, nright: nat) returns (b: bool)
    requires l.Valid(siglen) && r.Valid(siglen) && key.Valid(siglen)
    ensures b <==>
            Distance(l.Expanded(siglen), key.Expanded(siglen)) as real <
            Distance(r.Expanded(siglen), key.Expanded(siglen)) as real + Wish(nleft, nright, 0.0001)
  {
    var alpha := HemDist(l, key, siglen);
    var beta := HemDist(r, key, siglen);
    b := alpha as real < beta as real + Wish(nleft, nright, 0.0001);
  }

  /** The cost of an offset: how much further it is from one seed than from the other. */
  ghost function CostOf(l: GistKey, r: GistKey, key: GistKey, siglen: nat): nat {
    var d := Distance(l.Expanded(siglen), key.Expanded(siglen)) - Distance(r.Expanded(siglen), key.Expanded(siglen));
    if d < 0 then -d else d
  }

  method Cost(l: GistKey, r: GistKey, key: GistKey, siglen: nat) returns (cost: nat)
    requires l.Valid(siglen) && r.Valid(siglen) && key.Valid(siglen)
    ensures cost == CostOf(l, r, key, siglen)
  {
    var alpha := HemDist(l, key, siglen);
    var beta := HemDist(r, key, siglen);
    cost := if alpha < beta then beta - alpha else alpha - beta;
  }

  /** The cost vector. */
  method Costs(keys: seq<GistKey>, siglen: nat, l: GistKey, r: GistKey) returns (costs: seq<nat>)
    requires AllValid(keys, siglen) && l.Valid(siglen) && r.Valid(siglen) && keys != []
    ensures |costs| == |keys| - 1 && forall i | 0 <= i < |costs| :: costs[i] == CostOf(l, r, keys[i + 1], siglen)
  {
    costs := [];
    for j := 1 to |keys|
      invariant |costs| == j - 1 && forall i | 0 <= i < |costs| :: costs[i] == CostOf(l, r, keys[i + 1], siglen)
    {
      var cost := Cost(l, r, keys[j], siglen);
      costs := costs + [cost];
    }
  }

  /** Both sides together hold the offsets placed so far. */
  ghost predicate Parted(left: seq<nat>, right: seq<nat>, placed: seq<nat>) {
    multiset(left) + multiset(right) == multiset(placed)
  }

  lemma PartedNext(left: seq<nat>, right: seq<nat>, placed: seq<nat>, j: nat)
    requires Parted(left, right, placed)
    ensures Parted(left + [j], right, placed + [j]) && Parted(left, right + [j], placed + [j])
  {
  }

  /** The two sides after some offsets were placed. */
  ghost predicate SidesOk(l: GistKey, r: GistKey, keys: seq<GistKey>, siglen: nat, left: seq<nat>, right: seq<nat>,
                          seed1: nat, seed2: nat, placed: seq<nat>)
  {
    && SideOk(l, keys, siglen, left, seed1) && SideOk(r, keys, siglen, right, seed2)
    && seed1 !in right && seed2 !in left && Parted(left, right, placed)
  }

  /** Put a key on a side. */
  method Place(keys: seq<GistKey>, siglen: nat, all: bool, sign: array<BitSet>, ghost offsets: seq<nat>, ghost seed: nat, j: nat)
    requires AllValid(keys, siglen) && j < |keys| && sign.Length == siglen && Fits(sign[..])
    requires SideOk(DatumOf(all, sign[..]), keys, siglen, offsets, seed)
    modifies sign
    ensures Fits(sign[..]) && SideOk(DatumOf(all, sign[..]), keys, siglen, offsets + [j], seed)
  {
    ghost var datum := DatumOf(all, sign[..]);
    AddKey(all, sign, keys[j]);
    SideNext(datum, DatumOf(all, sign[..]), keys, siglen, offsets, seed, j);
  }

  lemma PlaceSeed(datum: GistKey, keys: seq<GistKey>, siglen: nat, offsets: seq<nat>, seed: nat)
    requires SideOk(datum, keys, siglen, offsets, seed)
    ensures SideOk(datum, keys, siglen, offsets + [seed], seed)
  {
    SideNext(datum, datum, keys, siglen, offsets, seed, seed);
  }

  /** The body of the distribution loop. */
  method PlaceOne(keys: seq<GistKey>, siglen: nat, seed1: nat, seed2: nat, j: nat,
                  allL: bool, signL: array<BitSet>, allR: bool, signR: array<BitSet>,
                  left: seq<nat>, right: seq<nat>, ghost placed: seq<nat>)
    returns (left': seq<nat>, right': seq<nat>)
    requires AllValid(keys, siglen) && seed1 != seed2 && j < |keys|
    requires signL != signR && signL.Length == signR.Length == siglen && Fits(signL[..]) && Fits(signR[..])
    requires SidesOk(DatumOf(allL, signL[..]), DatumOf(allR, signR[..]), keys, siglen, left, right, seed1, seed2, placed)
    modifies signL, signR
    ensures Fits(signL[..]) && Fits(signR[..])
    ensures SidesOk(DatumOf(allL, signL[..]), DatumOf(allR, signR[..]), keys, siglen, left', right', seed1, seed2, placed + [j])
  {
    PartedNext(left, right, placed, j);
    if j == seed1 {
      PlaceSeed(DatumOf(allL, signL[..]), keys, siglen, left, seed1);
      return left + [j], right;
    }
    if j == seed2 {
      PlaceSeed(DatumOf(allR, signR[..]), keys, siglen, right, seed2);
      return left, right + [j];
    }
    var goesLeft := GoesLeft(DatumOf(allL, signL[..]), DatumOf(allR, signR[..]), keys[j], siglen, |left|, |right|);
    if goesLeft {
      Place(keys, siglen, allL, signL, left, seed1, j);
      return left + [j], right;
    }
    Place(keys, siglen, allR, signR, right, seed2, j);
    return left, right + [j];
  }

  /** The distribution loop. */
  method Distribute(keys: seq<GistKey>, siglen: nat, seed1: nat, seed2: nat, order: seq<nat>,
                    allL: bool, signL: array<BitSet>, allR: bool, signR: array<BitSet>)
    returns (left: seq<nat>, right: seq<nat>)
    requires AllValid(keys, siglen) && seed1 != seed2 && InRange(order, |keys|)
    requires signL != signR && signL.Length == signR.Length == siglen && Fits(signL[..]) && Fits(signR[..])
    requires SidesOk(DatumOf(allL, signL[..]), DatumOf(allR, signR[..]), keys, siglen, [], [], seed1, seed2, [])
    modifies signL, signR
    ensures Fits(signL[..]) && Fits(signR[..])
    ensures SidesOk(DatumOf(allL, signL[..]), DatumOf(allR, signR[..]), keys, siglen, left, right, seed1, seed2, order)
  {
    left, right := [], [];
    for k := 0 to |order|
      invariant Fits(signL[..]) && Fits(signR[..])
      invariant SidesOk(DatumOf(allL, signL[..]), DatumOf(allR, signR[..]), keys, siglen, left, right, seed1, seed2, order[..k])
    {
      left, right := PlaceOne(keys, siglen, seed1, seed2, order[k], allL, signL, allR, signR, left, right, order[..k]);
      assert order[..k + 1] == order[..k] + [order[k]];
    }
    assert order[..|order|] == order;
  }

  /** Each offset is on exactly one side, and the seeds are on theirs. */
  lemma EachOnce(left: seq<nat>, right: seq<nat>, order: seq<nat>, n: nat, seed1: nat, seed2: nat)
    requires OffsetsOnce(order, n) && Parted(left, right, order) && seed1 !in right && seed2 !in left
    requires 1 <= seed1 < n && 1 <= seed2 < n
    ensures forall k: nat :: multiset(left)[k] + multiset(right)[k] == if 1 <= k < n then 1 else 0
    ensures seed1 in left && seed2 in right
  {
    forall k: nat
      ensures multiset(left)[k] + multiset(right)[k] == if 1 <= k < n then 1 else 0
    {
      assert (multiset(left) + multiset(right))[k] == multiset(order)[k];
    }
    assert multiset(left)[seed1] + multiset(right)[seed1] == 1;
    assert multiset(left)[seed2] + multiset(right)[seed2] == 1;
  }

  lemma SideStart(keys: seq<GistKey>, siglen: nat, seed: nat)
    requires seed < |keys|
    ensures SideOk(keys[seed], keys, siglen, [], seed)
  {
  }

  lemma OnceInRange(order: seq<nat>, n: nat)
    requires OffsetsOnce(order, n)
    ensures InRange(order, n)
  {
    assert forall i | 0 <= i < |order| :: multiset(order)[order[i]] > 0;
  }

  /**
  `ghstore_picksplit`, whatever order the cost vector is sorted into: each offset from 1 on goes to
  exactly one side, neither side is empty, and each datum has exactly the bits of its side.
   */
  method PickSplit(keys: seq<GistKey>, siglen: nat, sort: seq<nat> -> seq<nat>)
    returns (left: seq<nat>, right: seq<nat>, ldatum: GistKey, rdatum: GistKey)
    requires AllValid(keys, siglen) && |keys| >= 3
    requires forall costs :: OffsetsOnce(sort(costs), |costs| + 1)
    ensures left != [] && right != [] && InRange(left, |keys|) && InRange(right, |keys|)
    ensures forall k: nat :: multiset(left)[k] + multiset(right)[k] == if 1 <= k < |keys| then 1 else 0
    ensures ldatum.Valid(siglen) && ldatum.Expanded(siglen) == UnionBits(Select(keys, left), siglen)
    ensures rdatum.Valid(siglen) && rdatum.Expanded(siglen) == UnionBits(Select(keys, right), siglen)
  {
    var seed1, seed2 := PickSeeds(keys, siglen);
    var allL, signL := CopyKey(keys[seed1], siglen);
    var allR, signR := CopyKey(keys[seed2], siglen);
    var costs := Costs(keys, siglen, keys[seed1], keys[seed2]);
    var order := sort(costs);
    OnceInRange(order, |keys|);
    SideStart(keys, siglen, seed1);
    SideStart(keys, siglen, seed2);
    left, right := Distribute(keys, siglen, seed1, seed2, order, allL, signL, allR, signR);
    EachOnce(left, right, order, |keys|, seed1, seed2);
    ldatum, rdatum := DatumOf(allL, signL[..]), DatumOf(allR, signR[..]);
    SideDone(ldatum, keys, siglen, left, seed1);
    SideDone(rdatum, keys, siglen, right, seed2);
  }
}
