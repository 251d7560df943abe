/**
Which keys stand above which values in a btree_gist `bytea` index
(contrib/btree_gist/btree_utils_var.c): truncated keys built by unions and by splits of leaf
pages cover everything below them. Splits of internal pages do so exactly under a condition
on the child keys, and the condition can fail.
 */
module VarKeyTree {
  import opened Options
  import opened ByteStrings
  import opened VarKey

  // ----- One truncated key above one child key -----

  /** All bytes are 0xFF: no string continues this one and sorts after it without extending it. */
  predicate AllOnes(a: Bytes) {
    forall i | 0 <= i < |a| :: a[i] == 255
  }

  /**
  A child whose upper bound was cut, under a key whose upper bound is a longer continuation of
  it: values below the child may sort past the key.
   */
  predicate Escapes(child: Key, k: Key) {
    Open(child) && child.upper < k.upper && !AllOnes(k.upper[|child.upper|..])
  }

  /** k results from widening child and truncating no shorter than two bytes past the prefix. */
  ghost predicate TruncatedAbove(child: Key, wide: Key, n: nat, k: Key) {
    && Leq(child.lower, child.upper)
    && Leq(wide.lower, child.lower) && Leq(child.upper, wide.upper)
    && n >= PrefixLength(wide) + 2
    && k == Key(Take(wide.lower, n), Take(wide.upper, n))
  }

  lemma TruncatedOrder(child: Key, wide: Key, n: nat, k: Key)
    requires TruncatedAbove(child, wide, n, k)
    ensures Leq(k.lower, k.upper) && Leq(k.lower, child.lower)
    ensures PrefixLength(k) == PrefixLength(wide) <= CommonPrefix(child.lower, wide.upper)
  {
    LeqTransitive(wide.lower, child.lower, child.upper);
    LeqTransitive(wide.lower, child.upper, wide.upper);
    LeqTransitive(child.lower, child.upper, wide.upper);
    TakeMonotone(wide.lower, wide.upper, n);
    TakePrefix(wide.lower, n);
    PrefixLeq(k.lower, wide.lower);
    LeqTransitive(k.lower, wide.lower, child.lower);
    TakeCommonPrefix(wide.lower, wide.upper, n);
    CommonPrefixNarrow(wide.lower, child.lower, wide.upper);
  }

  /** A value inside the wide bounds is covered after truncation. */
  lemma InsideIsCovered(child: Key, wide: Key, n: nat, k: Key, x: Bytes)
    requires TruncatedAbove(child, wide, n, k)
    requires Leq(k.lower, x) && Leq(x, wide.upper)
    ensures Covers(k, x)
  {
    TruncatedOrder(child, wide, n, k);
    TakePrefix(wide.upper, n);
    if !Leq(x, k.upper) {
      LeqTotal(x, k.upper);
      BetweenExtends(k.upper, x, wide.upper);
      assert n < |wide.upper|;
    }
  }

  /** A value that extends the upper bound of an open child is covered unless the child escapes. */
  lemma ExtensionIsCovered(child: Key, wide: Key, n: nat, k: Key, x: Bytes)
    requires TruncatedAbove(child, wide, n, k)
    requires Leq(k.lower, x) && Open(child) && child.upper <= x && !Escapes(child, k)
    ensures Covers(k, x)
  {
    TruncatedOrder(child, wide, n, k);
    TakePrefix(wide.upper, n);
    var u := child.upper;
    if !(u <= wide.upper) {
      ExtensionLeq(u, x, wide.upper);
      InsideIsCovered(child, wide, n, k, x);
    } else {
      CommonPrefixExtend(child.lower, u, wide.upper);
      assert |u| >= PrefixLength(k) + 2;
      if k.upper <= u {
        assert |k.upper| == |u| || |k.upper| == n;
      } else {
        assert u < k.upper;
        OnesAreLast(u, k.upper, x);
      }
    }
  }

  /** Extensions of u either stay below u followed by 0xFF bytes, or extend that too. */
  lemma {:induction false} OnesAreLast(u: Bytes, v: Bytes, x: Bytes)
    requires u <= v && u <= x && AllOnes(v[|u|..])
    ensures Leq(x, v) || v <= x
  {
    if x != [] && v != [] {
      if u != [] {
        assert v[1..][|u[1..]|..] == v[|u|..];
        OnesAreLast(u[1..], v[1..], x[1..]);
        assert v == [v[0]] + v[1..] && x == [x[0]] + x[1..];
      } else {
        assert v[0] == v[|u|..][0];
        assert v[1..] == v[|u|..][1..];
        if x[0] == v[0] {
          OnesAreLast([], v[1..], x[1..]);
          assert v == [v[0]] + v[1..] && x == [x[0]] + x[1..];
        }
      }
    }
  }

  /** A value below an escaping child that sorts past the key and does not extend its upper bound. */
  lemma EscapeWitness(child: Key, k: Key) returns (x: Bytes)
    requires Leq(child.lower, child.upper) && Escapes(child, k)
    ensures Covers(child, x) && !Leq(x, k.upper) && !(k.upper <= x) && child.upper < x
  {
    var tail := k.upper[|child.upper|..];
    var i :| 0 <= i < |tail| && tail[i] != 255;
    var j := |child.upper| + i;
    x := k.upper[..j] + [k.upper[j] + 1];
    assert child.upper <= x;
    PrefixLeq(child.upper, x);
    LeqTransitive(child.lower, child.upper, x);
    PastAt(x, k.upper, j);
  }

  lemma {:induction false} PastAt(x: Bytes, v: Bytes, j: nat)
    requires j < |x| && j < |v| && x[..j] == v[..j] && x[j] > v[j]
    ensures !Leq(x, v)
  {
    if j > 0 {
      assert x[0] == x[..j][0] == v[..j][0] == v[0];
      assert x[1..][..j - 1] == x[..j][1..] == v[..j][1..] == v[1..][..j - 1];
      PastAt(x[1..], v[1..], j - 1);
    }
  }

  /** A truncated key covers all that a child below it covers exactly when the child does not escape. */
  lemma CoverageIff(child: Key, wide: Key, n: nat, k: Key)
    requires TruncatedAbove(child, wide, n, k)
    ensures (forall x | Covers(child, x) :: Covers(k, x)) <==> !Escapes(child, k)
  {
    if Escapes(child, k) {
      var x := EscapeWitness(child, k);
      assert Covers(child, x) && !Covers(k, x);
    } else {
      forall x | Covers(child, x)
        ensures Covers(k, x)
      {
        TruncatedOrder(child, wide, n, k);
        LeqTransitive(k.lower, child.lower, x);
        if Leq(x, child.upper) {
          LeqTransitive(x, child.upper, wide.upper);
          InsideIsCovered(child, wide, n, k, x);
        } else {
          ExtensionIsCovered(child, wide, n, k, x);
        }
      }
    }
  }

  /**
  No search for a value below the child is turned away at the key exactly when the child does
  not escape or the key's lower bound is a prefix of the child's upper bound.
   */
  lemma PruningIff(child: Key, wide: Key, n: nat, k: Key)
    requires TruncatedAbove(child, wide, n, k)
    ensures (forall x | Covers(child, x) :: Admits(k, x))
            <==> !Escapes(child, k) || k.lower <= child.upper
  {
    TruncatedOrder(child, wide, n, k);
    if !Escapes(child, k) {
      CoverageIff(child, wide, n, k);
      forall x | Covers(child, x)
        ensures Admits(k, x)
      {
        CoveredIsAdmitted(k, x);
      }
    } else if k.lower <= child.upper {
      forall x | Covers(child, x)
        ensures Admits(k, x)
      {
        EscapingAdmitted(child, wide, n, k, x);
      }
    } else {
      var x := EscapeWitness(child, k);
      if k.lower <= x {
        LeqTransitive(k.lower, child.lower, child.upper);
        PrefixLeq(child.upper, x);
        BetweenExtends(k.lower, child.upper, x);
      }
      AdmitsIff(k, x);
      assert Covers(child, x) && !Admits(k, x);
    }
  }

  lemma EscapingAdmitted(child: Key, wide: Key, n: nat, k: Key, x: Bytes)
    requires TruncatedAbove(child, wide, n, k) && Escapes(child, k) && k.lower <= child.upper
    requires Covers(child, x)
    ensures Admits(k, x)
  {
    TruncatedOrder(child, wide, n, k);
    LeqTransitive(k.lower, child.lower, x);
    if Leq(x, child.upper) {
      LeqTransitive(x, child.upper, wide.upper);
      InsideIsCovered(child, wide, n, k, x);
      CoveredIsAdmitted(k, x);
    } else {
      assert k.lower <= x;
      assert k.lower != k.upper;
      AdmitsIff(k, x);
    }
  }

  // ----- Unions and splits -----

  lemma {:induction false} BoundsWiden(entries: seq<Key>, i: nat)
    requires i < |entries| && forall j | 0 <= j < |entries| :: Leq(entries[j].lower, entries[j].upper)
    ensures Leq(Bounds(entries).lower, entries[i].lower) && Leq(entries[i].upper, Bounds(entries).upper)
  {
    var n := |entries| - 1;
    var last := entries[n];
    LeqReflexive(last.lower);
    LeqReflexive(last.upper);
    if n > 0 {
      var front := Bounds(entries[..n]);
      LeqTotal(front.lower, last.lower);
      LeqTotal(front.upper, last.upper);
      if i < n {
        BoundsWiden(entries[..n], i);
        assert entries[..n][i] == entries[i];
        if !Leq(front.lower, last.lower) {
          LeqTransitive(last.lower, front.lower, entries[i].lower);
        }
        if !Leq(last.upper, front.upper) {
          LeqTransitive(entries[i].upper, front.upper, last.upper);
        }
      }
    }
  }

  /** The keys made by unions and splits are truncations of bounds around every entry. */
  lemma UnionIsTruncated(entries: seq<Key>, i: nat)
    requires i < |entries| && forall j | 0 <= j < |entries| :: Leq(entries[j].lower, entries[j].upper)
    ensures TruncatedAbove(entries[i], Bounds(entries), PrefixLength(Bounds(entries)) + 2, UnionKey(entries))
  {
    BoundsWiden(entries, i);
  }

  lemma HalfIsTruncated(part: seq<Key>, other: seq<Key>, i: nat)
    requires i < |part| && other != [] && forall j | 0 <= j < |part| :: Leq(part[j].lower, part[j].upper)
    ensures TruncatedAbove(part[i], Bounds(part), LongerPrefix(Bounds(part), Bounds(other)) + 2, HalfKey(part, other))
  {
    BoundsWiden(part, i);
  }

  /** In a union no child escapes: the key is cut at two bytes past its own prefix. */
  lemma UnionNeverEscapes(entries: seq<Key>, i: nat)
    requires i < |entries| && forall j | 0 <= j < |entries| :: Leq(entries[j].lower, entries[j].upper)
    ensures !Escapes(entries[i], UnionKey(entries))
  {
    UnionIsTruncated(entries, i);
    var child, wide, k := entries[i], Bounds(entries), UnionKey(entries);
    if Open(child) && child.upper < k.upper {
      TruncatedOrder(child, wide, PrefixLength(wide) + 2, k);
      TakePrefix(wide.upper, PrefixLength(wide) + 2);
      CommonPrefixExtend(child.lower, child.upper, wide.upper);
    }
  }

  /** A leaf entry never escapes, so a split of a leaf page is always safe. */
  lemma LeafNeverEscapes(x: Bytes, k: Key)
    ensures !Escapes(Key(x, x), k)
  {
    CommonPrefixSelf(x);
  }

  // ----- Trees of any height -----

  /**
  How a key in the index came about: a leaf entry, the union of other keys (page keys and
  adjusted downlinks), or one half of a page split.
   */
  datatype Origin =
    | Entry(value: Bytes)
    | UnionOf(parts: seq<Origin>)
    | HalfOf(parts: seq<Origin>, others: seq<Origin>)

  /** The key stored for an origin. */
  function KeyOf(o: Origin): Key
    requires Wellformed(o)
    decreases o, 1
  {
    match o
    case Entry(x) => Key(x, x)
    case UnionOf(parts) => UnionKey(KeysOf(parts))
    case HalfOf(parts, others) => HalfKey(KeysOf(parts), KeysOf(others))
  }

  function KeysOf(os: seq<Origin>): (keys: seq<Key>)
    requires forall i | 0 <= i < |os| :: Wellformed(os[i])
    ensures |keys| == |os| && forall i | 0 <= i < |os| :: keys[i] == KeyOf(os[i])
    decreases os, 0
  {
    if os == [] then [] else KeysOf(os[..|os| - 1]) + [KeyOf(os[|os| - 1])]
  }

  predicate Wellformed(o: Origin) {
    match o
    case Entry(_) => true
    case UnionOf(parts) => parts != [] && forall i | 0 <= i < |parts| :: Wellformed(parts[i])
    case HalfOf(parts, others) =>
      && parts != [] && others != []
      && (forall i | 0 <= i < |parts| :: Wellformed(parts[i]))
      && (forall i | 0 <= i < |others| :: Wellformed(others[i]))
  }

  /** Every split in the history was a leaf page split, or one whose child keys did not escape. */
  predicate SafeSplits(o: Origin)
    requires Wellformed(o)
  {
    match o
    case Entry(_) => true
    case UnionOf(parts) => forall i | 0 <= i < |parts| :: SafeSplits(parts[i])
    case HalfOf(parts, others) =>
      forall i | 0 <= i < |parts| ::
        SafeSplits(parts[i]) && (parts[i].Entry? || !Escapes(KeyOf(parts[i]), KeyOf(o)))
  }

  /** x is stored below the key. */
  predicate Below(o: Origin, x: Bytes) {
    match o
    case Entry(y) => x == y
    case UnionOf(parts) => exists i | 0 <= i < |parts| :: Below(parts[i], x)
    case HalfOf(parts, _) => exists i | 0 <= i < |parts| :: Below(parts[i], x)
  }

  lemma {:induction false} KeyOrdered(o: Origin)
    requires Wellformed(o)
    ensures Leq(KeyOf(o).lower, KeyOf(o).upper)
  {
    match o
    case Entry(x) => LeqReflexive(x);
    case UnionOf(parts) =>
      forall i | 0 <= i < |parts| ensures Leq(KeyOf(parts[i]).lower, KeyOf(parts[i]).upper) { KeyOrdered(parts[i]); }
      UnionIsTruncated(KeysOf(parts), 0);
      TruncatedOrder(KeyOf(parts[0]), Bounds(KeysOf(parts)), PrefixLength(Bounds(KeysOf(parts))) + 2, KeyOf(o));
    case HalfOf(parts, others) =>
      forall i | 0 <= i < |parts| ensures Leq(KeyOf(parts[i]).lower, KeyOf(parts[i]).upper) { KeyOrdered(parts[i]); }
      HalfIsTruncated(KeysOf(parts), KeysOf(others), 0);
      var n := LongerPrefix(Bounds(KeysOf(parts)), Bounds(KeysOf(others))) + 2;
      TruncatedOrder(KeyOf(parts[0]), Bounds(KeysOf(parts)), n, KeyOf(o));
  }

  /** Every stored value stays covered by every ancestor key, at any height. */
  lemma {:induction false} AncestorCovers(o: Origin, x: Bytes)
    requires Wellformed(o) && SafeSplits(o) && Below(o, x)
    ensures Covers(KeyOf(o), x)
  {
    match o
    case Entry(_) => LeqReflexive(x);
    case UnionOf(parts) =>
      var i :| 0 <= i < |parts| && Below(parts[i], x);
      AncestorCovers(parts[i], x);
      forall j | 0 <= j < |parts| ensures Leq(KeyOf(parts[j]).lower, KeyOf(parts[j]).upper) { KeyOrdered(parts[j]); }
      var keys := KeysOf(parts);
      UnionIsTruncated(keys, i);
      UnionNeverEscapes(keys, i);
      CoverageIff(keys[i], Bounds(keys), PrefixLength(Bounds(keys)) + 2, KeyOf(o));
    case HalfOf(parts, others) =>
      var i :| 0 <= i < |parts| && Below(parts[i], x);
      AncestorCovers(parts[i], x);
      forall j | 0 <= j < |parts| ensures Leq(KeyOf(parts[j]).lower, KeyOf(parts[j]).upper) { KeyOrdered(parts[j]); }
      var keys := KeysOf(parts);
      HalfIsTruncated(keys, KeysOf(others), i);
      var n := LongerPrefix(Bounds(keys), Bounds(KeysOf(others))) + 2;
      if parts[i].Entry? {
        LeafNeverEscapes(parts[i].value, KeyOf(o));
      }
      CoverageIff(keys[i], Bounds(keys), n, KeyOf(o));
  }

  /** For all six strategies, no ancestor turns away a search that a value below it satisfies. */
  lemma NoMatchPruned(o: Origin, x: Bytes, strategy: Strategy, query: Bytes)
    requires Wellformed(o) && SafeSplits(o) && Below(o, x)
    requires LeafConsistent(x, strategy, query)
    ensures NodeConsistent(KeyOf(o), strategy, query)
  {
    AncestorCovers(o, x);
    KeyOrdered(o);
    CoveredIsAdmitted(KeyOf(o), x);
  }

  // ----- An internal page split that loses a value -----

  /** The order in which `gbt_var_picksplit` sorts keys: by lower bound, then by upper bound. */
  predicate KeyLeq(a: Key, b: Key) {
    Leq(a.lower, b.lower) && (a.lower == b.lower ==> Leq(a.upper, b.upper))
  }

  predicate SortedKeys(keys: seq<Key>) {
    forall i, j | 0 <= i < j < |keys| :: KeyLeq(keys[i], keys[j])
  }

  const CHILD1: Origin := UnionOf([Entry([1]), Entry([2, 9, 9])])
  const CHILD2: Origin := UnionOf([Entry([2]), Entry([2, 9, 0])])
  const CHILD3: Origin := UnionOf([Entry([3, 9, 9]), Entry([3, 9, 9, 9])])
  const CHILD4: Origin := UnionOf([Entry([3, 9, 9, 5]), Entry([3, 9, 9, 9, 9])])

  /** The keys of the four leaf pages. */
  const CHILD_KEYS: seq<Key> := [
    Key([1], [2, 9]), Key([2], [2, 9, 0]), Key([3, 9, 9], [3, 9, 9, 9]), Key([3, 9, 9, 5], [3, 9, 9, 9, 9])
  ]

  lemma BoundsOfTwo(a: Key, b: Key)
    ensures Bounds([a, b]) == BinUnion(Some(a), b)
  {
    assert [a, b][..1] == [a];
  }

  lemma PairKeys(a: Origin, b: Origin)
    requires Wellformed(a) && Wellformed(b)
    ensures KeysOf([a, b]) == [KeyOf(a), KeyOf(b)]
  {
    assert [a, b][0] == a && [a, b][1] == b;
  }

  lemma Child1Key()
    ensures KeyOf(CHILD1) == CHILD_KEYS[0]
  {
    PairKeys(Entry([1]), Entry([2, 9, 9]));
    BoundsOfTwo(Key([1], [1]), Key([2, 9, 9], [2, 9, 9]));
  }

  lemma Child2Key()
    ensures KeyOf(CHILD2) == CHILD_KEYS[1]
  {
    PairKeys(Entry([2]), Entry([2, 9, 0]));
    BoundsOfTwo(Key([2], [2]), Key([2, 9, 0], [2, 9, 0]));
  }

  lemma Child3Key()
    ensures KeyOf(CHILD3) == CHILD_KEYS[2]
  {
    PairKeys(Entry([3, 9, 9]), Entry([3, 9, 9, 9]));
    BoundsOfTwo(Key([3, 9, 9], [3, 9, 9]), Key([3, 9, 9, 9], [3, 9, 9, 9]));
    assert CommonPrefix([9, 9], [9, 9, 9]) == 2;
  }

  lemma Child4Key()
    ensures KeyOf(CHILD4) == CHILD_KEYS[3]
  {
    PairKeys(Entry([3, 9, 9, 5]), Entry([3, 9, 9, 9, 9]));
    BoundsOfTwo(Key([3, 9, 9, 5], [3, 9, 9, 5]), Key([3, 9, 9, 9, 9], [3, 9, 9, 9, 9]));
    assert CommonPrefix([9, 9, 5], [9, 9, 9, 9]) == 2;
    assert Leq([9, 9, 5], [9, 9, 9, 9]);
  }

  lemma HalvesKey(parts: seq<Origin>, others: seq<Origin>)
    requires Wellformed(HalfOf(parts, others))
    ensures KeyOf(HalfOf(parts, others)) == HalfKey(KeysOf(parts), KeysOf(others))
  {
  }

  lemma ChildKeysSorted()
    ensures SortedKeys(CHILD_KEYS)
  {
    assert Leq([9, 9], [9, 9, 5]);
  }

  /** Both halves are truncated at five bytes, by the common prefix of the right half. */
  lemma LeftHalfKey()
    ensures HalfKey(CHILD_KEYS[..2], CHILD_KEYS[2..]) == Key([1], [2, 9, 0])
  {
    var a, b := CHILD_KEYS[2], CHILD_KEYS[3];
    assert CHILD_KEYS[..2] == [CHILD_KEYS[0], CHILD_KEYS[1]] && CHILD_KEYS[2..] == [a, b];
    BoundsOfTwo(CHILD_KEYS[0], CHILD_KEYS[1]);
    BoundsOfTwo(a, b);
    RightBounds(a, b);
  }

  lemma RightBounds(a: Key, b: Key)
    requires a == Key([3, 9, 9], [3, 9, 9, 9]) && b == Key([3, 9, 9, 5], [3, 9, 9, 9, 9])
    ensures BinUnion(Some(a), b) == Key([3, 9, 9], [3, 9, 9, 9, 9])
    ensures CommonPrefix([3, 9, 9], [3, 9, 9, 9, 9]) == 3
  {
    assert Leq([9, 9], [9, 9, 5]);
    assert Leq([9, 9, 9], [9, 9, 9, 9]) && !Leq([9, 9, 9, 9], [9, 9, 9]);
    assert CommonPrefix([9, 9], [9, 9, 9, 9]) == 2;
  }

  lemma LeftChildren() returns (left: seq<Origin>)
    ensures |left| == 2 && Wellformed(left[0]) && Wellformed(left[1])
    ensures KeysOf(left) == CHILD_KEYS[..2] && Below(left[0], [2, 9, 9])
  {
    left := [CHILD1, CHILD2];
    Child1Key();
    Child2Key();
    PairKeys(CHILD1, CHILD2);
    assert Below(CHILD1.parts[1], [2, 9, 9]);
  }

  lemma RightChildren() returns (right: seq<Origin>)
    ensures |right| == 2 && Wellformed(right[0]) && Wellformed(right[1])
    ensures KeysOf(right) == CHILD_KEYS[2..]
  {
    right := [CHILD3, CHILD4];
    Child3Key();
    Child4Key();
    PairKeys(CHILD3, CHILD4);
  }

  lemma SortedChildKeys() returns (keys: seq<Key>)
    ensures keys == CHILD_KEYS && |keys| == 4 && SortedKeys(keys) && HalfKey(keys[..2], keys[2..]) == Key([1], [2, 9, 0])
  {
    keys := CHILD_KEYS;
    ChildKeysSorted();
    LeftHalfKey();
  }

  lemma TurnedAway(k: Key, x: Bytes)
    requires k == Key([1], [2, 9, 0]) && x == [2, 9, 9]
    ensures !NodeConsistent(k, Equal, x)
  {
    PastAt(x, k.upper, 2);
  }

  lemma LeftPage(left: seq<Origin>, right: seq<Origin>, keys: seq<Key>, x: Bytes)
    requires |left| == 2 && Wellformed(left[0]) && Wellformed(left[1]) && Below(left[0], x)
    requires |right| == 2 && Wellformed(right[0]) && Wellformed(right[1])
    requires |keys| == 4 && KeysOf(left) == keys[..2] && KeysOf(right) == keys[2..]
    ensures Wellformed(HalfOf(left, right)) && KeysOf(left) + KeysOf(right) == keys
    ensures KeyOf(HalfOf(left, right)) == HalfKey(keys[..2], keys[2..]) && Below(HalfOf(left, right), x)
  {
    HalvesKey(left, right);
    assert keys[..2] + keys[2..] == keys;
  }

  /**
  An internal page with four children whose keys are in sorted order. Its split puts the first two
  left and gives them the key that `VarKey.PickSplit` computes. The value x is below that key, and
  an equality search for it is turned away there.
   */
  lemma InternalSplitLosesValue() returns (left: seq<Origin>, right: seq<Origin>, keys: seq<Key>, x: Bytes)
    ensures Wellformed(HalfOf(left, right)) && KeysOf(left) + KeysOf(right) == keys && SortedKeys(keys)
    ensures |left| == |keys| / 2
    ensures KeyOf(HalfOf(left, right)) == HalfKey(keys[..|keys| / 2], keys[|keys| / 2..])
    ensures Below(HalfOf(left, right), x) && !NodeConsistent(KeyOf(HalfOf(left, right)), Equal, x)
  {
    keys := SortedChildKeys();
    left := LeftChildren();
    right := RightChildren();
    x := [2, 9, 9];
    LeftPage(left, right, keys, x);
    TurnedAway(HalfKey(keys[..2], keys[2..]), x);
  }
}
