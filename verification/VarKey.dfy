/**
GiST keys for variable-length data (contrib/btree_gist/btree_utils_var.c) in the `bytea`
case: single-byte characters, truncated keys, no leaf-to-node conversion.

An internal key is a pair of truncated bounds. The upper bound stored may lie below values
in the subtree; the prefix test of `gbt_var_consistent` makes up for it.
 */
module VarKey {
  import opened Options
  import opened ByteStrings

  /** `GBT_VARKEY_R`; a leaf entry has equal bounds. */
  datatype Key = Key(lower: Bytes, upper: Bytes)

  datatype Strategy = Less | LessEqual | Equal | GreaterEqual | Greater | NotEqual

  // ----- Keys -----

  /** `gbt_var_bin_union`: widen u by e; ties keep what is there. */
  function BinUnion(u: Option<Key>, e: Key): Key {
    match u
    case None => e
    case Some(r) =>
      Key(if Leq(r.lower, e.lower) then r.lower else e.lower,
          if Leq(e.upper, r.upper) then r.upper else e.upper)
  }

  /** The bounds of all entries together, before truncation. */
  function Bounds(entries: seq<Key>): Key
    requires entries != []
  {
    var n := |entries| - 1;
    BinUnion(if n == 0 then None else Some(Bounds(entries[..n])), entries[n])
  }

  function PrefixLength(k: Key): nat {
    CommonPrefix(k.lower, k.upper)
  }

  /** `gbt_var_node_truncate`: keep cpf + 1 bytes of each bound. */
  function Truncate(k: Key, cpf: nat): Key {
    Key(Take(k.lower, cpf + 1), Take(k.upper, cpf + 1))
  }

  /** `gbt_var_union`. */
  function UnionKey(entries: seq<Key>): Key
    requires entries != []
  {
    var out := Bounds(entries);
    Truncate(out, PrefixLength(out) + 1)
  }

  /** The longer of two common prefix lengths. */
  function LongerPrefix(k: Key, k': Key): nat {
    if PrefixLength(k) < PrefixLength(k') then PrefixLength(k') else PrefixLength(k)
  }

  /** The key `gbt_var_picksplit` gives one half, both halves truncated by the longer prefix. */
  function HalfKey(part: seq<Key>, other: seq<Key>): Key
    requires part != [] && other != []
  {
    Truncate(Bounds(part), LongerPrefix(Bounds(part), Bounds(other)) + 1)
  }

  /** `gbt_var_node_cp_len`. */
  method NodeCommonPrefix(k: Key) returns (len: nat)
    ensures len == PrefixLength(k)
  {
    var ml := if |k.lower| < |k.upper| then |k.lower| else |k.upper|;
    if ml == 0 {
      return 0;
    }
    var i := 0;
    while i < ml
      invariant 0 <= i <= ml
      invariant PrefixLength(k) == i + CommonPrefix(k.lower[i..], k.upper[i..])
    {
      if k.lower[i] != k.upper[i] {
        return i;
      }
      assert k.lower[i..][1..] == k.lower[i + 1..] && k.upper[i..][1..] == k.upper[i + 1..];
      i := i + 1;
    }
    return ml;
  }

  /** `gbt_var_union` over a vector of entries. */
  method Union(entries: seq<Key>) returns (key: Key)
    requires entries != []
    ensures key == UnionKey(entries)
  {
    var out := entries[0];
    assert entries[..1] == [entries[0]];
    for i := 1 to |entries|
      invariant out == Bounds(entries[..i])
    {
      assert entries[..i + 1][..i] == entries[..i];
      out := BinUnion(Some(out), entries[i]);
    }
    assert entries[..|entries|] == entries;
    var plen := NodeCommonPrefix(out);
    key := Truncate(out, plen + 1);
  }

  /** One side of a split under construction: its offsets and the bounds gathered so far. */
  datatype Side = Side(offsets: seq<nat>, datum: Option<Key>)

  function AddTo(side: Side, offset: nat, k: Key): Side {
    Side(side.offsets + [offset], Some(BinUnion(side.datum, k)))
  }

  /** The side that holds the sorted entries from `lo` up to `hi`. */
  function SideOf(keys: seq<Key>, at: seq<nat>, lo: nat, hi: nat): Side
    requires lo <= hi <= |keys| == |at|
  {
    Side(at[lo..hi], BoundsSoFar(keys[lo..hi]))
  }

  lemma SideGrows(keys: seq<Key>, at: seq<nat>, lo: nat, hi: nat)
    requires lo <= hi < |keys| == |at|
    ensures AddTo(SideOf(keys, at, lo, hi), at[hi], keys[hi]) == SideOf(keys, at, lo, hi + 1)
  {
    assert keys[lo..hi + 1] == keys[lo..hi] + [keys[hi]];
    BoundsAppend(keys[lo..hi], keys[hi]);
    assert at[lo..hi + 1] == at[lo..hi] + [at[hi]];
  }

  /** The distribution loop of `gbt_var_picksplit`: the first half goes left, the rest right. */
  method Distribute(keys: seq<Key>, at: seq<nat>) returns (l: Side, r: Side)
    requires |at| == |keys|
    ensures l == SideOf(keys, at, 0, |keys| / 2)
    ensures r == SideOf(keys, at, |keys| / 2, |keys|)
  {
    var half := |keys| / 2;
    l, r := Side([], None), Side([], None);
    for i := 0 to |keys|
      invariant i <= half ==> l == SideOf(keys, at, 0, i) && r == Side([], None)
      invariant i >= half ==> l == SideOf(keys, at, 0, half) && r == SideOf(keys, at, half, i)
    {
      if i + 1 <= half {
        SideGrows(keys, at, 0, i);
        l := AddTo(l, at[i], keys[i]);
      } else {
        SideGrows(keys, at, half, i);
        r := AddTo(r, at[i], keys[i]);
      }
    }
  }

  /** The end of `gbt_var_picksplit`: both keys are truncated by the longer common prefix. */
  method TruncateBoth(l: Key, r: Key) returns (lkey: Key, rkey: Key)
    ensures lkey == Truncate(l, LongerPrefix(l, r) + 1) && rkey == Truncate(r, LongerPrefix(r, l) + 1)
  {
    var ll := NodeCommonPrefix(l);
    var lr := NodeCommonPrefix(r);
    var len := (if ll < lr then lr else ll) + 1;
    lkey, rkey := Truncate(l, len), Truncate(r, len);
  }

  /**
  `gbt_var_picksplit` after its sort: `keys` are the entries in sorted order and `at` their
  original offsets.
   */
  method PickSplit(keys: seq<Key>, at: seq<nat>)
    returns (left: seq<nat>, right: seq<nat>, lkey: Key, rkey: Key)
    requires |keys| >= 2 && |at| == |keys|
    ensures left + right == at && |left| == |keys| / 2 && left != [] && right != []
    ensures lkey == HalfKey(keys[..|left|], keys[|left|..])
    ensures rkey == HalfKey(keys[|left|..], keys[..|left|])
  {
    var half := |keys| / 2;
    var l, r := Distribute(keys, at);
    assert keys[0..half] == keys[..half] && keys[half..|keys|] == keys[half..];
    left, right := l.offsets, r.offsets;
    lkey, rkey := TruncateBoth(l.datum.value, r.datum.value);
  }

  function BoundsSoFar(entries: seq<Key>): Option<Key> {
    if entries == [] then None else Some(Bounds(entries))
  }

  lemma BoundsAppend(entries: seq<Key>, e: Key)
    ensures BoundsSoFar(entries + [e]) == Some(BinUnion(BoundsSoFar(entries), e))
  {
  }

  // ----- The consistent method -----

  /** `gbt_var_node_pf_match`: the query extends one of the bounds. */
  predicate PrefixMatch(k: Key, query: Bytes) {
    k.lower <= query || k.upper <= query
  }

  /** `gbt_var_consistent` on a leaf: the operator itself, applied to the stored value. */
  predicate LeafConsistent(x: Bytes, strategy: Strategy, query: Bytes) {
    match strategy
    case LessEqual => Leq(x, query)
    case Less => Leq(x, query) && x != query
    case Equal => x == query
    case Greater => Leq(query, x) && x != query
    case GreaterEqual => Leq(query, x)
    case NotEqual => x != query
  }

  /** `gbt_var_consistent` on an internal key. */
  predicate NodeConsistent(k: Key, strategy: Strategy, query: Bytes) {
    match strategy
    case LessEqual => Leq(k.lower, query) || PrefixMatch(k, query)
    case Less => Leq(k.lower, query) || PrefixMatch(k, query)
    case Equal => (Leq(k.lower, query) && Leq(query, k.upper)) || PrefixMatch(k, query)
    case Greater => Leq(query, k.upper) || PrefixMatch(k, query)
    case GreaterEqual => Leq(query, k.upper) || PrefixMatch(k, query)
    case NotEqual => !(query == k.lower && query == k.upper)
  }

  /** No search that x satisfies is turned away at the key. */
  ghost predicate Admits(k: Key, x: Bytes) {
    forall strategy, query | LeafConsistent(x, strategy, query) :: NodeConsistent(k, strategy, query)
  }

  /** The key has room above its common prefix for values past its truncated upper bound. */
  predicate Open(k: Key) {
    |k.upper| >= PrefixLength(k) + 2
  }

  /** What truncation guarantees about every value below a key. */
  predicate Covers(k: Key, x: Bytes) {
    Leq(k.lower, x) && (Leq(x, k.upper) || (Open(k) && k.upper <= x))
  }

  /** Exactly the values a key admits, without quantifying over searches. */
  lemma AdmitsIff(k: Key, x: Bytes)
    requires Leq(k.lower, k.upper)
    ensures Admits(k, x) <==>
            && Leq(k.lower, x)
            && (Leq(x, k.upper) || k.upper <= x || k.lower <= x)
            && (k.lower == k.upper ==> x == k.lower)
  {
    if Admits(k, x) {
      assert LeafConsistent(x, Equal, x) && NodeConsistent(k, Equal, x);
      if k.lower <= x {
        PrefixLeq(k.lower, x);
      } else if k.upper <= x {
        PrefixLeq(k.upper, x);
        LeqTransitive(k.lower, k.upper, x);
      }
      assert LeafConsistent(x, NotEqual, k.lower) ==> NodeConsistent(k, NotEqual, k.lower);
    }
    if Leq(k.lower, x) && (Leq(x, k.upper) || k.upper <= x || k.lower <= x)
       && (k.lower == k.upper ==> x == k.lower) {
      forall strategy, query | LeafConsistent(x, strategy, query)
        ensures NodeConsistent(k, strategy, query)
      {
        MatchAdmitted(k, x, strategy, query);
      }
    }
  }

  lemma MatchAdmitted(k: Key, x: Bytes, strategy: Strategy, query: Bytes)
    requires Leq(k.lower, k.upper) && Leq(k.lower, x)
    requires Leq(x, k.upper) || k.upper <= x || k.lower <= x
    requires k.lower == k.upper ==> x == k.lower
    requires LeafConsistent(x, strategy, query)
    ensures NodeConsistent(k, strategy, query)
  {
    match strategy
    case LessEqual => LeqTransitive(k.lower, x, query);
    case Less => LeqTransitive(k.lower, x, query);
    case Equal =>
    case NotEqual =>
    case _ =>
      if Leq(x, k.upper) {
        LeqTransitive(query, x, k.upper);
      } else if !Leq(query, k.upper) {
        LeqTotal(query, k.upper);
        if k.upper <= x {
          BetweenExtends(k.upper, query, x);
        } else {
          LeqTransitive(k.lower, k.upper, query);
          BetweenExtends(k.lower, query, x);
        }
      }
  }

  /** A key admits every value it covers, for all six strategies. */
  lemma CoveredIsAdmitted(k: Key, x: Bytes)
    requires Leq(k.lower, k.upper) && Covers(k, x)
    ensures Admits(k, x)
  {
    if k.lower == k.upper {
      CommonPrefixSelf(k.lower);
      LeqAntisymmetric(k.lower, x);
    }
    AdmitsIff(k, x);
  }

  // ----- What the tests mean -----

  /** The six operators, from the order alone. */
  lemma {:induction false} OperatorsMean(x: Bytes, query: Bytes)
    ensures LeafConsistent(x, Less, query) <==> !Leq(query, x)
    ensures LeafConsistent(x, Greater, query) <==> !Leq(x, query)
    ensures LeafConsistent(x, LessEqual, query) <==> Leq(x, query)
    ensures LeafConsistent(x, GreaterEqual, query) <==> Leq(query, x)
    ensures LeafConsistent(x, Equal, query) <==> x == query
    ensures LeafConsistent(x, NotEqual, query) <==> LeafConsistent(x, Less, query) || LeafConsistent(x, Greater, query)
    ensures LeafConsistent(x, LessEqual, query) <==> LeafConsistent(x, Less, query) || LeafConsistent(x, Equal, query)
    ensures LeafConsistent(x, GreaterEqual, query) <==> LeafConsistent(x, Greater, query) || LeafConsistent(x, Equal, query)
  {
    LeqTotal(x, query);
    LeqReflexive(x);
    if Leq(x, query) && Leq(query, x) {
      LeqAntisymmetric(x, query);
    }
  }

  /** The values a key leaves room for: between the bounds, or continuing one of them. */
  predicate Spans(k: Key, x: Bytes) {
    Leq(k.lower, x) && (Leq(x, k.upper) || k.upper <= x || k.lower <= x)
  }

  /**
  What an internal key answers: whether some value it leaves room for satisfies the operator, with
  strict comparisons weakened. Not-equal looks at the bounds alone.
   */
  lemma {:induction false} NodeConsistentIff(k: Key, query: Bytes)
    requires Leq(k.lower, k.upper)
    ensures NodeConsistent(k, LessEqual, query) <==> exists x :: Spans(k, x) && Leq(x, query)
    ensures NodeConsistent(k, Less, query) <==> exists x :: Spans(k, x) && Leq(x, query)
    ensures NodeConsistent(k, Equal, query) <==> Spans(k, query)
    ensures NodeConsistent(k, GreaterEqual, query) <==> exists x :: Spans(k, x) && Leq(query, x)
    ensures NodeConsistent(k, Greater, query) <==> exists x :: Spans(k, x) && Leq(query, x)
    ensures NodeConsistent(k, NotEqual, query) <==> query != k.lower || query != k.upper
  {
    LeqReflexive(k.lower);
    LeqReflexive(k.upper);
    LeqReflexive(query);
    if PrefixMatch(k, query) {
      PrefixMatchInside(k, query);
    }
    assert Spans(k, k.lower) && Spans(k, k.upper);
    if x :| Spans(k, x) && Leq(x, query) {
      LeqTransitive(k.lower, x, query);
    }
    if x :| Spans(k, x) && Leq(query, x) {
      SpannedAbove(k, query, x);
    }
  }

  lemma {:induction false} PrefixMatchInside(k: Key, query: Bytes)
    requires Leq(k.lower, k.upper) && PrefixMatch(k, query)
    ensures Leq(k.lower, query) && Spans(k, query)
  {
    if k.lower <= query {
      PrefixLeq(k.lower, query);
    } else {
      PrefixLeq(k.upper, query);
      LeqTransitive(k.lower, k.upper, query);
    }
  }

  lemma {:induction false} SpannedAbove(k: Key, query: Bytes, x: Bytes)
    requires Leq(k.lower, k.upper) && Spans(k, x) && Leq(query, x)
    ensures Leq(query, k.upper) || PrefixMatch(k, query)
  {
    if Leq(x, k.upper) {
      LeqTransitive(query, x, k.upper);
    } else if !Leq(query, k.upper) {
      LeqTotal(query, k.upper);
      if k.upper <= x {
        BetweenExtends(k.upper, query, x);
      } else {
        LeqTransitive(k.lower, k.upper, query);
        BetweenExtends(k.lower, query, x);
      }
    }
  }

  /** The bounds before truncation are bounds of entries. */
  lemma {:induction false} BoundsAttained(entries: seq<Key>)
    requires entries != []
    ensures exists i | 0 <= i < |entries| :: entries[i].lower == Bounds(entries).lower
    ensures exists i | 0 <= i < |entries| :: entries[i].upper == Bounds(entries).upper
  {
    var n := |entries| - 1;
    if n > 0 {
      BoundsAttained(entries[..n]);
      var i :| 0 <= i < n && entries[..n][i].lower == Bounds(entries[..n]).lower;
      var j :| 0 <= j < n && entries[..n][j].upper == Bounds(entries[..n]).upper;
      assert entries[i].lower == Bounds(entries).lower || entries[n].lower == Bounds(entries).lower;
      assert entries[j].upper == Bounds(entries).upper || entries[n].upper == Bounds(entries).upper;
    } else {
      assert entries[0] == Bounds(entries);
    }
  }
}
