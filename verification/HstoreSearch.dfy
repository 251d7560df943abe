/**
Looking up keys (contrib/hstore/hstore_op.c): a binary search that starts where the search for a
smaller key ended, and the operators built on it.
 */
module HstoreSearch {
  import opened Options
  import opened ByteStrings
  import opened HstoreFormat
  import opened HstoreMap

  /** A list of pairs has a key, with a given value. */
  ghost predicate HasPair(ps: seq<Pair>, q: Pair) {
    exists i | 0 <= i < |ps| :: ps[i].key == q.key && ValueOf(ps[i]) == ValueOf(q)
  }

  ghost predicate HasKey(ps: seq<Pair>, key: Bytes) {
    exists i | 0 <= i < |ps| :: ps[i].key == key
  }

  ghost predicate Includes(ps: seq<Pair>, qs: seq<Pair>) {
    forall j | 0 <= j < |qs| :: HasPair(ps, qs[j])
  }

  // ----- The search -----

  /** The pairs below the bound come before a key. */
  ghost predicate AllBefore(ps: seq<Pair>, bound: nat, key: Bytes) {
    bound <= |ps| && forall i | 0 <= i < bound :: KeyBefore(ps[i].key, key)
  }

  ghost predicate AllAfter(ps: seq<Pair>, bound: nat, key: Bytes) {
    forall i | bound <= i < |ps| :: KeyBefore(key, ps[i].key)
  }

  lemma BeforeMiddle(ps: seq<Pair>, mid: nat, key: Bytes)
    requires Sorted(ps) && mid < |ps| && KeyBefore(ps[mid].key, key)
    ensures AllBefore(ps, mid + 1, key)
  {
    forall i | 0 <= i < mid + 1
      ensures KeyBefore(ps[i].key, key)
    {
      if i < mid {
        BeforeTransitive(ps[i].key, ps[mid].key, key);
      }
    }
  }

  lemma AfterMiddle(ps: seq<Pair>, mid: nat, key: Bytes)
    requires Sorted(ps) && mid < |ps| && KeyBefore(key, ps[mid].key)
    ensures AllAfter(ps, mid, key)
  {
    forall i | mid <= i < |ps|
      ensures KeyBefore(key, ps[i].key)
    {
      if i > mid {
        BeforeTransitive(key, ps[mid].key, ps[i].key);
      }
    }
  }

  /** Where the search for any later key may start. */
  ghost predicate PassedBy(ps: seq<Pair>, bound: nat, key: Bytes) {
    bound <= |ps| && forall i | 0 <= i < bound :: ps[i].key == key || KeyBefore(ps[i].key, key)
  }

  lemma PassedByLater(ps: seq<Pair>, bound: nat, key: Bytes, later: Bytes)
    requires PassedBy(ps, bound, key) && KeyBefore(key, later)
    ensures AllBefore(ps, bound, later)
  {
    forall i | 0 <= i < bound
      ensures KeyBefore(ps[i].key, later)
    {
      if ps[i].key != key {
        BeforeTransitive(ps[i].key, key, later);
      }
    }
  }

  /** The length comparison and `memcmp` of the search. */
  function Difference(a: Bytes, b: Bytes): (d: int)
    ensures d == 0 <==> a == b
    ensures d < 0 <==> KeyBefore(a, b)
  {
    if |a| == |b| then
      if a == b then 0 else if Leq(a, b) then -1 else 1
    else if |a| > |b| then 1
    else -1
  }

  /** `hstoreFindKey`: the index of a key or -1, and the lower bound for the next search. */
  method FindKey(h: Packed, lowbound: nat, key: Bytes) returns (idx: int, lowbound': nat)
    requires h.WellFormed() && Sorted(h.Pairs()) && AllBefore(h.Pairs(), lowbound, key)
    ensures idx == -1 || (0 <= idx < |h.entries| && h.Pairs()[idx].key == key)
    ensures idx == -1 <==> !HasKey(h.Pairs(), key)
    ensures PassedBy(h.Pairs(), lowbound', key)
  {
    ghost var ps := h.Pairs();
    var low: nat, high: nat := lowbound, |h.entries|;
    while low < high
      invariant low <= high <= |h.entries| && AllBefore(ps, low, key) && AllAfter(ps, high, key)
    {
      var mid := low + (high - low) / 2;
      var difference := Difference(h.PairAt(mid).key, key);
      if difference == 0 {
        BeforeEqual(ps, mid, key);
        return mid, mid + 1;
      } else if difference < 0 {
        BeforeMiddle(ps, mid, key);
        low := mid + 1;
      } else {
        BeforeTotal(ps[mid].key, key);
        AfterMiddle(ps, mid, key);
        high := mid;
      }
    }
    NotThere(ps, low, key);
    return -1, low;
  }

  lemma BeforeEqual(ps: seq<Pair>, mid: nat, key: Bytes)
    requires Sorted(ps) && mid < |ps| && ps[mid].key == key
    ensures HasKey(ps, key) && PassedBy(ps, mid + 1, key)
  {
  }

  lemma NotThere(ps: seq<Pair>, low: nat, key: Bytes)
    requires AllBefore(ps, low, key) && AllAfter(ps, low, key)
    ensures !HasKey(ps, key) && PassedBy(ps, low, key)
  {
  }

  // ----- The operators -----

  lemma OnlyPair(ps: seq<Pair>, idx: nat, q: Pair)
    requires Sorted(ps) && idx < |ps| && ps[idx].key == q.key
    ensures HasPair(ps, q) <==> ValueOf(ps[idx]) == ValueOf(q)
  {
  }

  /** The value comparison of `hstore_contains`: null flags, then lengths and bytes. */
  predicate SameValue(a: Pair, b: Pair) {
    a.isNull == b.isNull && (a.isNull || (|a.val| == |b.val| && a.val == b.val))
  }

  /** The body of the loop of `hstore_contains`. */
  method FindPair(h: Packed, lastidx: nat, q: Pair) returns (found: bool, lastidx': nat)
    requires h.WellFormed() && Sorted(h.Pairs()) && AllBefore(h.Pairs(), lastidx, q.key)
    ensures found <==> HasPair(h.Pairs(), q)
    ensures PassedBy(h.Pairs(), lastidx', q.key)
  {
    var idx;
    idx, lastidx' := FindKey(h, lastidx, q.key);
    if idx < 0 {
      return false, lastidx';
    }
    OnlyPair(h.Pairs(), idx, q);
    return SameValue(q, h.PairAt(idx)), lastidx';
  }

  /** `hstore_contains`: whether every pair of the template is in the value. */
  method Contains(h: Packed, tmpl: Packed) returns (res: bool)
    requires h.WellFormed() && Sorted(h.Pairs()) && tmpl.WellFormed() && Sorted(tmpl.Pairs())
    ensures res <==> Includes(h.Pairs(), tmpl.Pairs())
  {
    ghost var ps, qs := h.Pairs(), tmpl.Pairs();
    var lastidx: nat := 0;
    for i := 0 to |tmpl.entries|
      invariant forall j | 0 <= j < i :: HasPair(ps, qs[j])
      invariant i < |qs| ==> AllBefore(ps, lastidx, qs[i].key)
    {
      var found;
      found, lastidx := FindPair(h, lastidx, tmpl.PairAt(i));
      if !found {
        return false;
      }
      if i + 1 < |tmpl.entries| {
        PassedByLater(ps, lastidx, qs[i].key, qs[i + 1].key);
      }
    }
    return true;
  }

  // ----- Arrays of keys -----

  /** The keys of an array, without its nulls, sorted and without repeats. */
  ghost predicate UniqueKeys(keys: seq<Bytes>, elements: seq<Option<Bytes>>) {
    StrictlySorted(keys) && forall key :: key in keys <==> Some(key) in elements
  }

  ghost predicate StrictlySorted(keys: seq<Bytes>) {
    forall i, j | 0 <= i < j < |keys| :: KeyBefore(keys[i], keys[j])
  }

  /** The outcome of `qsort` with `comparePairs`: a permutation in order, equal keys side by side. */
  ghost predicate SortedFrom(keys: seq<Bytes>, sorted: seq<Bytes>) {
    && multiset(sorted) == multiset(keys)
    && forall i, j | 0 <= i < j < |sorted| :: sorted[i] == sorted[j] || KeyBefore(sorted[i], sorted[j])
  }

  /** The first loop of `hstoreArrayToPairs`: the elements that are not null. */
  method NonNullKeys(elements: seq<Option<Bytes>>) returns (keys: seq<Bytes>)
    ensures forall key :: key in keys <==> Some(key) in elements
  {
    keys := [];
    for i := 0 to |elements|
      invariant forall key :: key in keys <==> Some(key) in elements[..i]
    {
      assert elements[..i + 1] == elements[..i] + [elements[i]];
      if elements[i].Some? {
        keys := keys + [elements[i].value];
      }
    }
    assert elements[..|elements|] == elements;
  }

  /** After ptr keys, the first res + 1 places hold what came before, without repeats. */
  ghost predicate Deduplicated(keys: seq<Bytes>, sorted: seq<Bytes>, ptr: nat, res: nat) {
    && |keys| == |sorted| && res < ptr <= |sorted|
    && StrictlySorted(keys[..res + 1]) && keys[res] == sorted[ptr - 1]
    && (forall key :: key in keys[..res + 1] <==> key in sorted[..ptr])
    && keys[ptr..] == sorted[ptr..]
  }

  lemma {:induction false} DeduplicatedNext(keys: seq<Bytes>, sorted: seq<Bytes>, ptr: nat, res: nat)
    requires Deduplicated(keys, sorted, ptr, res) && ptr < |sorted|
    requires sorted[ptr - 1] == sorted[ptr] || KeyBefore(sorted[ptr - 1], sorted[ptr])
    ensures keys[ptr] == sorted[ptr]
    ensures keys[ptr] == keys[res] ==> Deduplicated(keys, sorted, ptr + 1, res)
    ensures keys[ptr] != keys[res] ==> Deduplicated(keys[res + 1 := keys[ptr]], sorted, ptr + 1, res + 1)
  {
    assert keys[ptr] == keys[ptr..][0] == sorted[ptr..][0];
    assert sorted[..ptr + 1] == sorted[..ptr] + [sorted[ptr]];
    assert keys[ptr + 1..] == keys[ptr..][1..] == sorted[ptr..][1..] == sorted[ptr + 1..];
    if keys[ptr] != keys[res] {
      var front, keys' := keys[..res + 1], keys[res + 1 := keys[ptr]];
      assert keys'[..res + 2] == front + [keys[ptr]];
      SortedAppend(front, keys[ptr]);
      assert keys'[ptr + 1..] == keys[ptr + 1..];
    } else {
      assert keys[res] == keys[..res + 1][res];
    }
  }

  lemma {:induction false} SortedAppend(keys: seq<Bytes>, key: Bytes)
    requires keys != [] && StrictlySorted(keys) && KeyBefore(keys[|keys| - 1], key)
    ensures StrictlySorted(keys + [key])
  {
    var n, all := |keys| - 1, keys + [key];
    forall i, j | 0 <= i < j < |all|
      ensures KeyBefore(all[i], all[j])
    {
      if j == |keys| && i < n {
        BeforeTransitive(keys[i], keys[n], key);
      }
    }
  }

  /** `hstoreUniquePairs` after its sort: repeats are overwritten in place. */
  method Unique(a: array<Bytes>, ghost sorted: seq<Bytes>) returns (l: nat)
    requires a[..] == sorted
    requires forall i, j | 0 <= i < j < |sorted| :: sorted[i] == sorted[j] || KeyBefore(sorted[i], sorted[j])
    modifies a
    ensures l <= a.Length && StrictlySorted(a[..l]) && forall key :: key in a[..l] <==> key in sorted
  {
    if a.Length < 2 {
      assert a[..a.Length] == sorted;
      return a.Length;
    }
    var ptr, res := 1, 0;
    assert a[..][..1] == [sorted[0]] == sorted[..1];
    while ptr < a.Length
      invariant 0 <= res < ptr <= a.Length && Deduplicated(a[..], sorted, ptr, res)
    {
      ghost var keys := a[..];
      DeduplicatedNext(keys, sorted, ptr, res);
      if a[ptr] != a[res] {
        res := res + 1;
        if res != ptr {
          a[res] := a[ptr];
        }
        assert a[..] == keys[res := keys[ptr]];
      }
      ptr := ptr + 1;
    }
    assert sorted[..ptr] == sorted && a[..][..res + 1] == a[..res + 1];
    return res + 1;
  }

  /** `hstoreArrayToPairs`, whatever permutation in order the sort gives. */
  method ArrayToKeys(elements: seq<Option<Bytes>>, sort: seq<Bytes> -> seq<Bytes>) returns (keys: seq<Bytes>)
    requires forall ks :: SortedFrom(ks, sort(ks))
    ensures UniqueKeys(keys, elements)
  {
    var nonNull := NonNullKeys(elements);
    var sorted := sort(nonNull);
    assert SortedFrom(nonNull, sorted);
    var a := new Bytes[|sorted|](i requires 0 <= i < |sorted| => sorted[i]);
    assert a[..] == sorted;
    var l := Unique(a, sorted);
    keys := a[..l];
    forall key
      ensures key in keys <==> Some(key) in elements
    {
      assert key in sorted <==> key in multiset(sorted);
      assert key in nonNull <==> key in multiset(nonNull);
    }
  }

  ghost predicate HasAll(ps: seq<Pair>, elements: seq<Option<Bytes>>) {
    forall i | 0 <= i < |elements| && elements[i].Some? :: HasKey(ps, elements[i].value)
  }

  ghost predicate HasAny(ps: seq<Pair>, elements: seq<Option<Bytes>>) {
    exists i | 0 <= i < |elements| && elements[i].Some? :: HasKey(ps, elements[i].value)
  }

  lemma FoundIn(keys: seq<Bytes>, elements: seq<Option<Bytes>>, ps: seq<Pair>, i: nat)
    requires UniqueKeys(keys, elements) && i < |keys|
    ensures HasKey(ps, keys[i]) ==> HasAny(ps, elements)
    ensures !HasKey(ps, keys[i]) ==> !HasAll(ps, elements)
  {
    assert keys[i] in keys;
    var k :| 0 <= k < |elements| && elements[k] == Some(keys[i]);
  }

  lemma AllKeysSame(keys: seq<Bytes>, elements: seq<Option<Bytes>>, ps: seq<Pair>)
    requires UniqueKeys(keys, elements)
    ensures (forall i | 0 <= i < |keys| :: HasKey(ps, keys[i])) ==> HasAll(ps, elements)
    ensures (forall i | 0 <= i < |keys| :: !HasKey(ps, keys[i])) ==> !HasAny(ps, elements)
  {
  }

  /** `hstore_exists_any`. */
  method ExistsAny(h: Packed, elements: seq<Option<Bytes>>, sort: seq<Bytes> -> seq<Bytes>) returns (res: bool)
    requires h.WellFormed() && Sorted(h.Pairs())
    requires forall ks :: SortedFrom(ks, sort(ks))
    ensures res <==> HasAny(h.Pairs(), elements)
  {
    var keys := ArrayToKeys(elements, sort);
    res := ExistsAnyKey(h, keys, elements);
  }

  /** Its loop over the keys. */
  method ExistsAnyKey(h: Packed, keys: seq<Bytes>, ghost elements: seq<Option<Bytes>>) returns (res: bool)
    requires h.WellFormed() && Sorted(h.Pairs()) && UniqueKeys(keys, elements)
    ensures res <==> HasAny(h.Pairs(), elements)
  {
    ghost var ps := h.Pairs();
    var lowbound: nat := 0;
    for i := 0 to |keys|
      invariant forall j | 0 <= j < i :: !HasKey(ps, keys[j])
      invariant i < |keys| ==> AllBefore(ps, lowbound, keys[i])
    {
      var idx;
      idx, lowbound := FindKey(h, lowbound, keys[i]);
      if idx >= 0 {
        FoundIn(keys, elements, ps, i);
        return true;
      }
      if i + 1 < |keys| {
        PassedByLater(ps, lowbound, keys[i], keys[i + 1]);
      }
    }
    AllKeysSame(keys, elements, ps);
    return false;
  }

  /** `hstore_exists_all`. */
  method ExistsAll(h: Packed, elements: seq<Option<Bytes>>, sort: seq<Bytes> -> seq<Bytes>) returns (res: bool)
    requires h.WellFormed() && Sorted(h.Pairs())
    requires forall ks :: SortedFrom(ks, sort(ks))
    ensures res <==> HasAll(h.Pairs(), elements)
  {
    var keys := ArrayToKeys(elements, sort);
    res := ExistsAllKey(h, keys, elements);
  }

  /** Its loop over the keys. */
  method ExistsAllKey(h: Packed, keys: seq<Bytes>, ghost elements: seq<Option<Bytes>>) returns (res: bool)
    requires h.WellFormed() && Sorted(h.Pairs()) && UniqueKeys(keys, elements)
    ensures res <==> HasAll(h.Pairs(), elements)
  {
    ghost var ps := h.Pairs();
    var lowbound: nat := 0;
    for i := 0 to |keys|
      invariant forall j | 0 <= j < i :: HasKey(ps, keys[j])
      invariant i < |keys| ==> AllBefore(ps, lowbound, keys[i])
    {
      var idx;
      idx, lowbound := FindKey(h, lowbound, keys[i]);
      if idx < 0 {
        FoundIn(keys, elements, ps, i);
        return false;
      }
      if i + 1 < |keys| {
        PassedByLater(ps, lowbound, keys[i], keys[i + 1]);
      }
    }
    AllKeysSame(keys, elements, ps);
    return true;
  }

  // ----- As mappings -----

  lemma {:induction false} ToMapAt(ps: seq<Pair>, i: nat)
    requires Sorted(ps) && i < |ps|
    ensures ps[i].key in ToMap(ps) && ToMap(ps)[ps[i].key] == ValueOf(ps[i])
  {
    var n := |ps| - 1;
    if i < n {
      ToMapAt(ps[..n], i);
      BeforeTotal(ps[i].key, ps[n].key);
    }
  }

  lemma {:induction false} ToMapFrom(ps: seq<Pair>, key: Bytes) returns (i: nat)
    requires key in ToMap(ps)
    ensures i < |ps| && ps[i].key == key && ValueOf(ps[i]) == ToMap(ps)[key]
  {
    var n := |ps| - 1;
    if ps[n].key == key {
      i := n;
    } else {
      i := ToMapFrom(ps[..n], key);
    }
  }

  /** A list of pairs includes another exactly if its mapping extends the other's. */
  lemma IncludesIffExtends(ps: seq<Pair>, qs: seq<Pair>)
    requires Sorted(ps) && Sorted(qs)
    ensures Includes(ps, qs) <==> ToMap(qs).Items <= ToMap(ps).Items
  {
    if Includes(ps, qs) {
      forall item | item in ToMap(qs).Items
        ensures item in ToMap(ps).Items
      {
        var j := ToMapFrom(qs, item.0);
        assert HasPair(ps, qs[j]);
        var i :| 0 <= i < |ps| && ps[i].key == qs[j].key && ValueOf(ps[i]) == ValueOf(qs[j]);
        ToMapAt(ps, i);
      }
    }
    if ToMap(qs).Items <= ToMap(ps).Items {
      forall j | 0 <= j < |qs|
        ensures HasPair(ps, qs[j])
      {
        ToMapAt(qs, j);
        assert (qs[j].key, ValueOf(qs[j])) in ToMap(qs).Items;
        var i := ToMapFrom(ps, qs[j].key);
      }
    }
  }
}
