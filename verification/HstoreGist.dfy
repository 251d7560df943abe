/**
Searching the signature index (contrib/hstore/hstore_gist.c): the consistency test, and why no
matching value is missed in a tree of any height.
 */
module HstoreGist {
  import opened Options
  import opened ByteStrings
  import opened HstoreFormat
  import opened HstoreMap
  import opened HstoreSearch
  import opened HstoreSignature

  /** The supported strategies with their queries; array elements may be null. */
  datatype Query =
    | ContainsQuery(tmpl: Packed)
    | ExistsQuery(key: Bytes)
    | ExistsAllQuery(elements: seq<Option<Bytes>>)
    | ExistsAnyQuery(elements: seq<Option<Bytes>>)
  {
    predicate Valid() {
      ContainsQuery? ==> tmpl.WellFormed()
    }
  }

  /** What the operators answer for a value. */
  ghost predicate Satisfies(ps: seq<Pair>, q: Query)
    requires q.Valid()
  {
    match q
    case ContainsQuery(tmpl) => Includes(ps, tmpl.Pairs())
    case ExistsQuery(key) => HasKey(ps, key)
    case ExistsAllQuery(elements) => HasAll(ps, elements)
    case ExistsAnyQuery(elements) => HasAny(ps, elements)
  }

  /** What a set of bits says about a query. */
  ghost predicate Admits(opts: GistOptions, bits: set<int>, q: Query)
    requires opts.Valid() && q.Valid()
  {
    match q
    case ContainsQuery(tmpl) => ValueBits(opts, tmpl.Pairs()) <= bits
    case ExistsQuery(key) => opts.HashBit(key) in bits
    case ExistsAllQuery(elements) =>
      forall i | 0 <= i < |elements| && elements[i].Some? :: opts.HashBit(elements[i].value) in bits
    case ExistsAnyQuery(elements) =>
      exists i | 0 <= i < |elements| && elements[i].Some? :: opts.HashBit(elements[i].value) in bits
  }

  // ----- The test -----

  /** GETBIT of the bit of a string. */
  predicate HasHash(opts: GistOptions, sign: Signature, val: Bytes)
    requires opts.Valid() && |sign| == opts.siglen
    ensures HasHash(opts, sign, val) <==> opts.HashBit(val) in Bits(sign)
  {
    Bit(sign, opts.HashBit(val))
  }

  /** The test for one pair of a template: its key, and its value unless that is null. */
  predicate HasPairHash(opts: GistOptions, sign: Signature, q: Pair)
    requires opts.Valid() && |sign| == opts.siglen
    ensures HasPairHash(opts, sign, q) <==> PairBits(opts, q) <= Bits(sign)
  {
    HasHash(opts, sign, q.key) && (q.isNull || HasHash(opts, sign, q.val))
  }

  /** The loop for contains, which stops at the first pair with a bit missing. */
  method TestPairs(opts: GistOptions, sign: Signature, h: Packed) returns (res: bool)
    requires opts.Valid() && |sign| == opts.siglen && h.WellFormed()
    ensures res <==> ValueBits(opts, h.Pairs()) <= Bits(sign)
  {
    ghost var qs := h.Pairs();
    for i := 0 to |h.entries|
      invariant ValueBits(opts, qs[..i]) <= Bits(sign)
    {
      PairBitsIncluded(opts, qs, i);
      assert qs[..i + 1][..i] == qs[..i];
      if !HasPairHash(opts, sign, h.PairAt(i)) {
        return false;
      }
    }
    assert qs[..|h.entries|] == qs;
    return true;
  }

  /** The loop for exists-all. */
  method TestAll(opts: GistOptions, sign: Signature, elements: seq<Option<Bytes>>) returns (res: bool)
    requires opts.Valid() && |sign| == opts.siglen
    ensures res <==> Admits(opts, Bits(sign), ExistsAllQuery(elements))
  {
    for i := 0 to |elements|
      invariant forall k | 0 <= k < i && elements[k].Some? :: opts.HashBit(elements[k].value) in Bits(sign)
    {
      if elements[i].Some? && !HasHash(opts, sign, elements[i].value) {
        return false;
      }
    }
    return true;
  }

  /** The loop for exists-any. */
  method TestAny(opts: GistOptions, sign: Signature, elements: seq<Option<Bytes>>) returns (res: bool)
    requires opts.Valid() && |sign| == opts.siglen
    ensures res <==> Admits(opts, Bits(sign), ExistsAnyQuery(elements))
  {
    for i := 0 to |elements|
      invariant forall k | 0 <= k < i && elements[k].Some? :: opts.HashBit(elements[k].value) !in Bits(sign)
    {
      if elements[i].Some? && HasHash(opts, sign, elements[i].value) {
        return true;
      }
    }
    return false;
  }

  /** `ghstore_consistent`: a key with the flag is consistent with everything. */
  method Consistent(opts: GistOptions, key: GistKey, q: Query) returns (res: bool)
    requires opts.Valid() && key.Valid(opts.siglen) && q.Valid()
    ensures res <==> key.AllTrue? || Admits(opts, key.Expanded(opts.siglen), q)
  {
    if key.AllTrue? {
      return true;
    }
    match q
    case ContainsQuery(tmpl) => res := TestPairs(opts, key.sign, tmpl);
    case ExistsQuery(k) => res := HasHash(opts, key.sign, k);
    case ExistsAllQuery(elements) => res := TestAll(opts, key.sign, elements);
    case ExistsAnyQuery(elements) => res := TestAny(opts, key.sign, elements);
  }

  // ----- No false negatives -----

  /** The bit of every key of a value is among its bits. */
  lemma {:induction false} KeyBit(opts: GistOptions, ps: seq<Pair>, key: Bytes)
    requires opts.Valid() && HasKey(ps, key)
    ensures opts.HashBit(key) in ValueBits(opts, ps)
  {
    var i :| 0 <= i < |ps| && ps[i].key == key;
    PairBitsIncluded(opts, ps, i);
    assert opts.HashBit(key) in PairBits(opts, ps[i]);
  }

  lemma {:induction false} PairBit(opts: GistOptions, ps: seq<Pair>, q: Pair)
    requires opts.Valid() && HasPair(ps, q)
    ensures PairBits(opts, q) <= ValueBits(opts, ps)
  {
    var i :| 0 <= i < |ps| && ps[i].key == q.key && ValueOf(ps[i]) == ValueOf(q);
    PairBitsIncluded(opts, ps, i);
    assert PairBits(opts, ps[i]) == PairBits(opts, q);
  }

  lemma {:induction false} IncludedBits(opts: GistOptions, ps: seq<Pair>, qs: seq<Pair>)
    requires opts.Valid() && Includes(ps, qs)
    ensures ValueBits(opts, qs) <= ValueBits(opts, ps)
  {
    if qs != [] {
      var n := |qs| - 1;
      assert HasPair(ps, qs[n]);
      assert forall j | 0 <= j < n :: qs[..n][j] == qs[j] && HasPair(ps, qs[j]);
      IncludedBits(opts, ps, qs[..n]);
      PairBit(opts, ps, qs[n]);
    }
  }

  /** Any bits that include those of a matching value admit the query. */
  lemma MatchAdmitted(opts: GistOptions, bits: set<int>, ps: seq<Pair>, q: Query)
    requires opts.Valid() && q.Valid() && Satisfies(ps, q) && ValueBits(opts, ps) <= bits
    ensures Admits(opts, bits, q)
  {
    match q
    case ContainsQuery(tmpl) =>
      IncludedBits(opts, ps, tmpl.Pairs());
    case ExistsQuery(key) =>
      KeyBit(opts, ps, key);
    case ExistsAllQuery(elements) =>
      forall i | 0 <= i < |elements| && elements[i].Some?
        ensures opts.HashBit(elements[i].value) in bits
      {
        KeyBit(opts, ps, elements[i].value);
      }
    case ExistsAnyQuery(elements) =>
      var i :| 0 <= i < |elements| && elements[i].Some? && HasKey(ps, elements[i].value);
      KeyBit(opts, ps, elements[i].value);
  }

  /** A list of pairs with the elements of an array as keys and no values. */
  function KeysOnly(elements: seq<Option<Bytes>>): seq<Pair> {
    if elements == [] then []
    else
      var front, last := KeysOnly(elements[..|elements| - 1]), elements[|elements| - 1];
      if last.None? then front else front + [Pair(last.value, [], true)]
  }

  lemma {:induction false} KeysOnlyHas(elements: seq<Option<Bytes>>, key: Bytes)
    ensures HasKey(KeysOnly(elements), key) <==> Some(key) in elements
    ensures forall i | 0 <= i < |KeysOnly(elements)| :: KeysOnly(elements)[i].isNull
  {
    if elements != [] {
      var front, last := elements[..|elements| - 1], elements[|elements| - 1];
      KeysOnlyHas(front, key);
      assert elements == front + [last];
      var ps, qs := KeysOnly(elements), KeysOnly(front);
      if last.Some? {
        assert ps[|qs|].key == last.value;
        if HasKey(qs, key) {
          var i :| 0 <= i < |qs| && qs[i].key == key;
          assert ps[i].key == key;
        }
      }
    }
  }

  lemma {:induction false} KeysOnlyBits(opts: GistOptions, elements: seq<Option<Bytes>>, bits: set<int>)
    requires opts.Valid() && forall i | 0 <= i < |elements| && elements[i].Some? :: opts.HashBit(elements[i].value) in bits
    ensures ValueBits(opts, KeysOnly(elements)) <= bits
  {
    var ps := KeysOnly(elements);
    forall b | b in ValueBits(opts, ps)
      ensures b in bits
    {
      ValueBitsIff(opts, ps, b);
      var i :| 0 <= i < |ps| && (b == opts.HashBit(ps[i].key) || (!ps[i].isNull && b == opts.HashBit(ps[i].val)));
      KeysOnlyHas(elements, ps[i].key);
      assert HasKey(ps, ps[i].key);
      var k :| 0 <= k < |elements| && elements[k] == Some(ps[i].key);
    }
  }

  lemma {:induction false} OneKeySatisfies(opts: GistOptions, bits: set<int>, key: Bytes)
    requires opts.Valid() && opts.HashBit(key) in bits
    ensures HasKey([Pair(key, [], true)], key) && ValueBits(opts, [Pair(key, [], true)]) <= bits
  {
    var ps := [Pair(key, [], true)];
    assert ps[0].key == key;
    assert ps[..0] == [];
  }

  lemma {:induction false} IncludesItself(ps: seq<Pair>)
    ensures Includes(ps, ps)
  {
    forall j | 0 <= j < |ps|
      ensures HasPair(ps, ps[j])
    {
      assert ps[j].key == ps[j].key;
    }
  }

  /** The value that satisfies a query with as few bits as the query allows. */
  lemma {:induction false} AdmittedValue(opts: GistOptions, bits: set<int>, q: Query) returns (ps: seq<Pair>)
    requires opts.Valid() && q.Valid() && Admits(opts, bits, q)
    ensures Satisfies(ps, q) && ValueBits(opts, ps) <= bits
  {
    match q
    case ContainsQuery(tmpl) =>
      ps := tmpl.Pairs();
      IncludesItself(ps);
    case ExistsQuery(key) =>
      ps := [Pair(key, [], true)];
      OneKeySatisfies(opts, bits, key);
    case ExistsAllQuery(elements) =>
      ps := KeysOnly(elements);
      KeysOnlyBits(opts, elements, bits);
      forall i | 0 <= i < |elements| && elements[i].Some?
        ensures HasKey(ps, elements[i].value)
      {
        assert Some(elements[i].value) in elements;
        KeysOnlyHas(elements, elements[i].value);
      }
    case ExistsAnyQuery(elements) =>
      var i :| 0 <= i < |elements| && elements[i].Some? && opts.HashBit(elements[i].value) in bits;
      ps := [Pair(elements[i].value, [], true)];
      OneKeySatisfies(opts, bits, elements[i].value);
  }

  /** A signature is consistent with a query exactly if some value with no other bits satisfies the query. */
  lemma {:induction false} AdmitsIff(opts: GistOptions, bits: set<int>, q: Query)
    requires opts.Valid() && q.Valid()
    ensures Admits(opts, bits, q) <==> exists ps :: Satisfies(ps, q) && ValueBits(opts, ps) <= bits
  {
    if Admits(opts, bits, q) {
      var ps := AdmittedValue(opts, bits, q);
    }
    if ps :| Satisfies(ps, q) && ValueBits(opts, ps) <= bits {
      MatchAdmitted(opts, bits, ps, q);
    }
  }

  /**
  How a key came about: from a value, from the keys below it by union or split, or by compressing
  another key.
   */
  datatype Origin =
    | Value(key: GistKey, pairs: seq<Pair>)
    | UnionOf(key: GistKey, parts: seq<Origin>)
    | Compressed(key: GistKey, from: Origin)

  function KeysOf(os: seq<Origin>): (keys: seq<GistKey>)
    ensures |keys| == |os| && forall i | 0 <= i < |os| :: keys[i] == os[i].key
  {
    if os == [] then [] else KeysOf(os[..|os| - 1]) + [os[|os| - 1].key]
  }

  /** Every key is what the methods above make of what it came from. */
  ghost predicate Built(opts: GistOptions, o: Origin)
    requires opts.Valid()
  {
    var bits := o.key.Expanded(opts.siglen);
    match o
    case Value(_, pairs) => bits == ValueBits(opts, pairs)
    case UnionOf(_, parts) =>
      bits == UnionBits(KeysOf(parts), opts.siglen) && forall i | 0 <= i < |parts| :: Built(opts, parts[i])
    case Compressed(_, from) => bits == from.key.Expanded(opts.siglen) && Built(opts, from)
  }

  predicate IsBelow(o: Origin, ps: seq<Pair>) {
    match o
    case Value(_, pairs) => pairs == ps
    case UnionOf(_, parts) => exists i | 0 <= i < |parts| :: IsBelow(parts[i], ps)
    case Compressed(_, from) => IsBelow(from, ps)
  }

  /** The bits of every value are in every key above it. */
  lemma {:induction false} AncestorHasBits(opts: GistOptions, o: Origin, ps: seq<Pair>)
    requires opts.Valid() && Built(opts, o) && IsBelow(o, ps)
    ensures ValueBits(opts, ps) <= o.key.Expanded(opts.siglen)
  {
    match o
    case Value(_, _) =>
    case UnionOf(_, parts) =>
      var i :| 0 <= i < |parts| && IsBelow(parts[i], ps);
      AncestorHasBits(opts, parts[i], ps);
      UnionBitsInclude(KeysOf(parts), opts.siglen, i);
    case Compressed(_, from) =>
      AncestorHasBits(opts, from, ps);
  }

  /** No key above a value that satisfies a query is inconsistent with the query. */
  lemma NoFalseNegatives(opts: GistOptions, o: Origin, ps: seq<Pair>, q: Query)
    requires opts.Valid() && q.Valid() && Built(opts, o) && IsBelow(o, ps) && Satisfies(ps, q)
    ensures Admits(opts, o.key.Expanded(opts.siglen), q)
  {
    AncestorHasBits(opts, o, ps);
    MatchAdmitted(opts, o.key.Expanded(opts.siglen), ps, q);
  }
}
