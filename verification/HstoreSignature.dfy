/**
Signatures of hstore values (contrib/hstore/hstore_gist.c): bit vectors in which every key and
every value that is not null sets one bit, and a shortcut for vectors with all bits set.
 */
module HstoreSignature {
  import opened ByteStrings
  import opened HstoreFormat

  /** BITBYTE. */
  const BYTE_BITS: int := 8

  /** One byte of a signature, as the set of its one bits: `|` is union. */
  type BitSet = set<int>
  type Signature = seq<BitSet>

  /** All bits of a byte (0xff). */
  const FULL_BYTE: BitSet := {0, 1, 2, 3, 4, 5, 6, 7}

  predicate Fits(sign: Signature) {
    forall i | 0 <= i < |sign| :: sign[i] <= FULL_BYTE
  }

  /** GETBIT. */
  predicate Bit(sign: Signature, b: int)
    requires 0 <= b < |sign| * BYTE_BITS
  {
    b % BYTE_BITS in sign[b / BYTE_BITS]
  }

  /** The bits that are set. */
  ghost function Bits(sign: Signature): set<int> {
    set b | 0 <= b < |sign| * BYTE_BITS && Bit(sign, b)
  }

  /** The numbers below n. */
  ghost function Below(n: nat): (s: set<int>)
    ensures forall i :: i in s <==> 0 <= i < n
  {
    if n == 0 then {} else Below(n - 1) + {n - 1}
  }

  ghost function AllBits(siglen: nat): set<int> {
    Below(siglen * BYTE_BITS)
  }

  /** An index key (GISTTYPE): the ALLISTRUE flag alone, or a signature. */
  datatype GistKey = AllTrue | Signed(sign: Signature) {
    predicate Valid(siglen: nat) {
      Signed? ==> |sign| == siglen && Fits(sign)
    }

    /** The bits the key stands for. */
    ghost function Expanded(siglen: nat): set<int> {
      if AllTrue? then AllBits(siglen) else Bits(sign)
    }
  }

  /** What signing depends on: the signature length in bytes, and CRC-32. */
  datatype GistOptions = GistOptions(siglen: nat, crc: Bytes -> nat) {
    predicate Valid() {
      siglen > 0
    }

    /** HASHVAL. */
    function HashBit(val: Bytes): (b: int)
      requires Valid()
      ensures 0 <= b < siglen * BYTE_BITS && exists q :: crc(val) == q * (siglen * BYTE_BITS) + b
    {
      assert crc(val) == (crc(val) / (siglen * BYTE_BITS)) * (siglen * BYTE_BITS) + crc(val) % (siglen * BYTE_BITS);
      crc(val) % (siglen * BYTE_BITS)
    }
  }

  /** The bits of one pair; a null value sets none. */
  function PairBits(opts: GistOptions, p: Pair): set<int>
    requires opts.Valid()
  {
    {opts.HashBit(p.key)} + if p.isNull then {} else {opts.HashBit(p.val)}
  }

  /** The bits of a list of pairs. */
  function ValueBits(opts: GistOptions, ps: seq<Pair>): set<int>
    requires opts.Valid()
  {
    if ps == [] then {} else ValueBits(opts, ps[..|ps| - 1]) + PairBits(opts, ps[|ps| - 1])
  }

  lemma {:induction false} PairBitsIncluded(opts: GistOptions, ps: seq<Pair>, i: nat)
    requires opts.Valid() && i < |ps|
    ensures PairBits(opts, ps[i]) <= ValueBits(opts, ps)
  {
    if i < |ps| - 1 {
      PairBitsIncluded(opts, ps[..|ps| - 1], i);
    }
  }

  /** The bits of a value are those of its keys and of its values that are not null. */
  lemma {:induction false} ValueBitsIff(opts: GistOptions, ps: seq<Pair>, b: int)
    requires opts.Valid()
    ensures b in ValueBits(opts, ps) <==>
            exists i | 0 <= i < |ps| :: b == opts.HashBit(ps[i].key) || (!ps[i].isNull && b == opts.HashBit(ps[i].val))
  {
    if ps != [] {
      var front := ps[..|ps| - 1];
      ValueBitsIff(opts, front, b);
      assert forall i | 0 <= i < |front| :: front[i] == ps[i];
    }
  }

  // ----- Bytes and bits -----

  /** SETBIT adds one bit and leaves every other bit alone. */
  lemma SetBit(sign: Signature, b: int)
    requires 0 <= b < |sign| * BYTE_BITS && Fits(sign)
    ensures var sign' := sign[b / BYTE_BITS := sign[b / BYTE_BITS] + {b % BYTE_BITS}];
            Fits(sign') && Bits(sign') == Bits(sign) + {b}
  {
  }

  lemma NoBits(sign: Signature)
    requires forall i | 0 <= i < |sign| :: sign[i] == {}
    ensures Fits(sign) && Bits(sign) == {}
  {
  }

  /** Only a vector of full bytes has all its bits set. */
  lemma FullIff(sign: Signature)
    requires Fits(sign)
    ensures (forall i | 0 <= i < |sign| :: sign[i] == FULL_BYTE) <==> Bits(sign) == AllBits(|sign|)
  {
    if Bits(sign) == AllBits(|sign|) {
      forall i | 0 <= i < |sign|
        ensures sign[i] == FULL_BYTE
      {
        forall j | j in FULL_BYTE
          ensures j in sign[i]
        {
          var b := i * BYTE_BITS + j;
          assert b / BYTE_BITS == i && b % BYTE_BITS == j;
          assert b in AllBits(|sign|);
        }
      }
    }
  }

  /** Bytewise `|` is union. */
  lemma OrBytes(a: Signature, b: Signature, c: Signature)
    requires |a| == |b| == |c| && forall i | 0 <= i < |a| :: c[i] == a[i] + b[i]
    ensures Bits(c) == Bits(a) + Bits(b)
    ensures Fits(a) && Fits(b) ==> Fits(c)
  {
  }

  // ----- Counting bits -----

  /** How many of the numbers below n are in a set. */
  ghost function CountIn(s: set<int>, n: nat): nat {
    if n == 0 then 0 else CountIn(s, n - 1) + if n - 1 in s then 1 else 0
  }

  lemma {:induction false} CountIsSize(s: set<int>, n: nat)
    requires forall x | x in s :: 0 <= x < n
    ensures CountIn(s, n) == |s|
  {
    if n == 0 {
      assert forall x | x in s :: 0 <= x < n;
      assert s == {};
    } else {
      var rest := s - {n - 1};
      CountIsSize(rest, n - 1);
      CountUpTo(s, rest, n - 1);
      assert n - 1 in s ==> s == rest + {n - 1};
      assert n - 1 !in s ==> s == rest;
    }
  }

  lemma {:induction false} CountUpTo(s: set<int>, t: set<int>, n: nat)
    requires forall x | 0 <= x < n :: x in s <==> x in t
    ensures CountIn(s, n) == CountIn(t, n)
  {
    if n > 0 {
      CountUpTo(s, t, n - 1);
    }
  }

  lemma {:induction false} CountComplement(s: set<int>, t: set<int>, n: nat)
    requires forall x | 0 <= x < n :: x in s <==> x !in t
    ensures CountIn(s, n) + CountIn(t, n) == n
  {
    if n > 0 {
      CountComplement(s, t, n - 1);
    }
  }

  /** GETBITBYTE. */
  function BitOf(byte: BitSet, j: int): int {
    if j in byte then 1 else 0
  }

  /** SUMBIT. */
  function SumBit(byte: BitSet): int {
    BitOf(byte, 0) + BitOf(byte, 1) + BitOf(byte, 2) + BitOf(byte, 3) +
    BitOf(byte, 4) + BitOf(byte, 5) + BitOf(byte, 6) + BitOf(byte, 7)
  }

  lemma CountNext(sign: Signature, i: nat, j: nat)
    requires i < |sign| && j < BYTE_BITS
    ensures CountIn(Bits(sign), i * BYTE_BITS + j + 1) == CountIn(Bits(sign), i * BYTE_BITS + j) + BitOf(sign[i], j)
  {
    var b := i * BYTE_BITS + j;
    assert b / BYTE_BITS == i && b % BYTE_BITS == j;
    assert b in Bits(sign) <==> Bit(sign, b);
  }

  /** SUMBIT over the first j bits. */
  ghost function PartSum(byte: BitSet, j: nat): int {
    if j == 0 then 0 else PartSum(byte, j - 1) + BitOf(byte, j - 1)
  }

  lemma PartSumIs(byte: BitSet)
    ensures PartSum(byte, 8) == SumBit(byte)
  {
    assert PartSum(byte, 0) == 0;
    assert PartSum(byte, 1) == BitOf(byte, 0);
    assert PartSum(byte, 2) == BitOf(byte, 0) + BitOf(byte, 1);
    assert PartSum(byte, 4) == PartSum(byte, 2) + BitOf(byte, 2) + BitOf(byte, 3);
    assert PartSum(byte, 6) == PartSum(byte, 4) + BitOf(byte, 4) + BitOf(byte, 5);
  }

  lemma {:induction false} CountPart(sign: Signature, i: nat, j: nat)
    requires i < |sign| && j <= BYTE_BITS
    ensures CountIn(Bits(sign), i * BYTE_BITS + j) == CountIn(Bits(sign), i * BYTE_BITS) + PartSum(sign[i], j)
  {
    if j > 0 {
      CountPart(sign, i, j - 1);
      CountNext(sign, i, j - 1);
    }
  }

  /** `sizebitvec`: the number of bits that are set. */
  method SizeBitVec(sign: Signature) returns (size: nat)
    ensures size == |Bits(sign)|
  {
    size := 0;
    for i := 0 to |sign|
      invariant size == CountIn(Bits(sign), i * BYTE_BITS)
    {
      CountPart(sign, i, BYTE_BITS);
      PartSumIs(sign[i]);
      size := size + SumBit(sign[i]);
    }
    CountIsSize(Bits(sign), |sign| * BYTE_BITS);
  }

  // ----- Hamming distance -----

  /** The number of elements in which two sets differ. */
  ghost function Distance(a: set<int>, b: set<int>): nat {
    |Differing(a, b)|
  }

  ghost function Differing(a: set<int>, b: set<int>): set<int> {
    set x | x in a + b && (x in a) != (x in b)
  }

  /** `hemdistsign`. */
  method HemDistSign(a: Signature, b: Signature) returns (dist: nat)
    requires |a| == |b|
    ensures dist == Distance(Bits(a), Bits(b))
  {
    ghost var differ := Differing(Bits(a), Bits(b));
    dist := 0;
    for i := 0 to |a| * BYTE_BITS
      invariant dist == CountIn(differ, i)
    {
      assert (i in Bits(a) <==> Bit(a, i)) && (i in Bits(b) <==> Bit(b, i));
      if Bit(a, i) != Bit(b, i) {
        dist := dist + 1;
      }
    }
    CountIsSize(differ, |a| * BYTE_BITS);
  }

  lemma DistanceFromAll(s: set<int>, siglen: nat)
    requires s <= AllBits(siglen)
    ensures Distance(AllBits(siglen), s) == Distance(s, AllBits(siglen)) == siglen * BYTE_BITS - |s|
  {
    var all, n := AllBits(siglen), siglen * BYTE_BITS;
    CountIsSize(s, n);
    CountIsSize(all - s, n);
    CountComplement(s, all - s, n);
    assert Differing(all, s) == all - s == Differing(s, all);
  }

  lemma DistanceFromItself(s: set<int>)
    ensures Distance(s, s) == 0
  {
  }

  /** `hemdist`: the Hamming distance of what the two keys stand for, the shortcut included. */
  method HemDist(a: GistKey, b: GistKey, siglen: nat) returns (dist: int)
    requires a.Valid(siglen) && b.Valid(siglen)
    ensures dist == Distance(a.Expanded(siglen), b.Expanded(siglen))
  {
    if a.AllTrue? {
      if b.AllTrue? {
        DistanceFromItself(AllBits(siglen));
        return 0;
      }
      DistanceFromAll(Bits(b.sign), siglen);
      var size := SizeBitVec(b.sign);
      return siglen * BYTE_BITS - size;
    } else if b.AllTrue? {
      DistanceFromAll(Bits(a.sign), siglen);
      var size := SizeBitVec(a.sign);
      return siglen * BYTE_BITS - size;
    }
    dist := HemDistSign(a.sign, b.sign);
  }

  // ----- Compression and union -----

  /** HASH: set the bit of a string. */
  method Hash(opts: GistOptions, sign: array<BitSet>, val: Bytes)
    requires opts.Valid() && sign.Length == opts.siglen && Fits(sign[..])
    modifies sign
    ensures Fits(sign[..]) && Bits(sign[..]) == old(Bits(sign[..])) + {opts.HashBit(val)}
  {
    ghost var before := sign[..];
    var b := opts.HashBit(val);
    sign[b / BYTE_BITS] := sign[b / BYTE_BITS] + {b % BYTE_BITS};
    SetBit(before, b);
    assert sign[..] == before[b / BYTE_BITS := before[b / BYTE_BITS] + {b % BYTE_BITS}];
  }

  /** `ghstore_compress` of a value: a signature with the bits of all its pairs. */
  method CompressLeaf(opts: GistOptions, h: Packed) returns (key: GistKey)
    requires opts.Valid() && h.WellFormed()
    ensures key.Signed? && key.Valid(opts.siglen) && key.Expanded(opts.siglen) == ValueBits(opts, h.Pairs())
  {
    var sign := new BitSet[opts.siglen](_ => {});
    NoBits(sign[..]);
    ghost var ps := h.Pairs();
    for i := 0 to |h.entries|
      invariant Fits(sign[..]) && Bits(sign[..]) == ValueBits(opts, ps[..i])
    {
      var p := h.PairAt(i);
      assert ps[..i + 1][..i] == ps[..i] && ps[i] == p;
      Hash(opts, sign, p.key);
      if !p.isNull {
        Hash(opts, sign, p.val);
      }
    }
    assert ps[..|h.entries|] == ps;
    key := Signed(sign[..]);
  }

  /** `ghstore_compress` of an inner key: a full signature becomes the flag. */
  method CompressInner(opts: GistOptions, key: GistKey) returns (r: GistKey)
    requires opts.Valid() && key.Valid(opts.siglen)
    ensures r.Valid(opts.siglen) && r.Expanded(opts.siglen) == key.Expanded(opts.siglen)
    ensures r.AllTrue? <==> key.Expanded(opts.siglen) == AllBits(opts.siglen)
  {
    if key.Signed? {
      FullIff(key.sign);
      for i := 0 to opts.siglen
        invariant forall k | 0 <= k < i :: key.sign[k] == FULL_BYTE
      {
        if key.sign[i] != FULL_BYTE {
          return key;
        }
      }
    }
    return AllTrue;
  }

  /** The loop that ORs one signature into another. */
  method OrInto(base: array<BitSet>, add: Signature)
    requires base.Length == |add| && Fits(base[..]) && Fits(add)
    modifies base
    ensures Fits(base[..]) && Bits(base[..]) == old(Bits(base[..])) + Bits(add)
  {
    ghost var before := base[..];
    for i := 0 to |add|
      invariant forall k | 0 <= k < i :: base[k] == before[k] + add[k]
      invariant forall k | i <= k < |add| :: base[k] == before[k]
    {
      base[i] := base[i] + add[i];
    }
    OrBytes(before, add, base[..]);
  }

  /** `unionkey`: tells that the union is full instead of adding a key with the flag. */
  method UnionKey(base: array<BitSet>, add: GistKey) returns (full: bool)
    requires add.Valid(base.Length) && Fits(base[..])
    modifies base
    ensures full == add.AllTrue? && Fits(base[..])
    ensures if full then base[..] == old(base[..])
            else Bits(base[..]) == old(Bits(base[..])) + add.Expanded(base.Length)
  {
    if add.AllTrue? {
      return true;
    }
    OrInto(base, add.sign);
    return false;
  }

  predicate AllValid(keys: seq<GistKey>, siglen: nat) {
    forall i | 0 <= i < |keys| :: keys[i].Valid(siglen)
  }

  /** The bits of a list of keys. */
  ghost function UnionBits(keys: seq<GistKey>, siglen: nat): set<int> {
    if keys == [] then {} else UnionBits(keys[..|keys| - 1], siglen) + keys[|keys| - 1].Expanded(siglen)
  }

  lemma UnionBitsNext(keys: seq<GistKey>, siglen: nat, key: GistKey)
    ensures UnionBits(keys + [key], siglen) == UnionBits(keys, siglen) + key.Expanded(siglen)
  {
  }

  lemma {:induction false} UnionBitsInclude(keys: seq<GistKey>, siglen: nat, i: nat)
    requires i < |keys|
    ensures keys[i].Expanded(siglen) <= UnionBits(keys, siglen)
  {
    if i < |keys| - 1 {
      UnionBitsInclude(keys[..|keys| - 1], siglen, i);
    }
  }

  lemma {:induction false} UnionBitsIff(keys: seq<GistKey>, siglen: nat, b: int)
    ensures b in UnionBits(keys, siglen) <==> exists i | 0 <= i < |keys| :: b in keys[i].Expanded(siglen)
  {
    if keys != [] {
      var front := keys[..|keys| - 1];
      UnionBitsIff(front, siglen, b);
      assert forall i | 0 <= i < |front| :: front[i] == keys[i];
    }
  }

  lemma ExpandedWithin(key: GistKey, siglen: nat)
    requires key.Valid(siglen)
    ensures key.Expanded(siglen) <= AllBits(siglen)
  {
  }

  lemma {:induction false} UnionBitsWithin(keys: seq<GistKey>, siglen: nat)
    requires AllValid(keys, siglen)
    ensures UnionBits(keys, siglen) <= AllBits(siglen)
  {
    if keys != [] {
      UnionBitsWithin(keys[..|keys| - 1], siglen);
      ExpandedWithin(keys[|keys| - 1], siglen);
    }
  }

  /** `ghstore_union`: exactly the bits of all keys, found full as soon as one of them is. */
  method Union(keys: seq<GistKey>, siglen: nat) returns (r: GistKey)
    requires AllValid(keys, siglen)
    ensures r.Valid(siglen) && r.Expanded(siglen) == UnionBits(keys, siglen)
  {
    var base := new BitSet[siglen](_ => {});
    NoBits(base[..]);
    for i := 0 to |keys|
      invariant Fits(base[..]) && Bits(base[..]) == UnionBits(keys[..i], siglen)
    {
      var full := UnionKey(base, keys[i]);
      if full {
        UnionBitsInclude(keys, siglen, i);
        UnionBitsWithin(keys, siglen);
        return AllTrue;
      }
      UnionBitsNext(keys[..i], siglen, keys[i]);
      assert keys[..i + 1] == keys[..i] + [keys[i]];
    }
    assert keys[..|keys|] == keys;
    r := Signed(base[..]);
  }
}
