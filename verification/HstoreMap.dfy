/**
Lists of pairs as mappings from keys to values. The pairs of an hstore are sorted by key, and
assigning to a key puts a pair into its place.
 */
module HstoreMap {
  import opened Options
  import opened ByteStrings
  import opened HstoreFormat

  /** Keys are ordered by length first and then by their bytes. */
  predicate KeyBefore(a: Bytes, b: Bytes) {
    |a| < |b| || (|a| == |b| && a != b && Leq(a, b))
  }

  /** Shorter keys come first, and keys of one length by the first byte that differs, the smaller first. */
  lemma {:induction false} KeyBeforeMeans(a: Bytes, b: Bytes)
    ensures KeyBefore(a, b) <==>
            || |a| < |b|
            || (|a| == |b| && exists n: nat | n < |a| :: a[..n] == b[..n] && a[n] < b[n])
  {
    LeqMeaning(a, b);
  }

  predicate Sorted(ps: seq<Pair>) {
    forall i, j | 0 <= i < j < |ps| :: KeyBefore(ps[i].key, ps[j].key)
  }

  function ValueOf(p: Pair): Option<Bytes> {
    if p.isNull then None else Some(p.val)
  }

  /** The mapping that a list of pairs stands for. */
  function ToMap(ps: seq<Pair>): map<Bytes, Option<Bytes>> {
    if ps == [] then map[] else ToMap(ps[..|ps| - 1])[ps[|ps| - 1].key := ValueOf(ps[|ps| - 1])]
  }

  /** The first position whose key does not come before the given one. */
  function Position(ps: seq<Pair>, key: Bytes): (f: nat)
    ensures f <= |ps|
    ensures forall i | 0 <= i < f :: KeyBefore(ps[i].key, key)
    ensures f < |ps| ==> !KeyBefore(ps[f].key, key)
  {
    if ps == [] || !KeyBefore(ps[0].key, key) then 0 else 1 + Position(ps[1..], key)
  }

  /** Where the pairs after the key start, past a pair with the same key. */
  function Resume(ps: seq<Pair>, key: Bytes, f: nat): nat {
    if f < |ps| && ps[f].key == key then f + 1 else f
  }

  /** The pairs with p put in its place, replacing a pair with the same key. */
  function InsertPair(ps: seq<Pair>, p: Pair): seq<Pair> {
    var f := Position(ps, p.key);
    ps[..f] + [p] + ps[Resume(ps, p.key, f)..]
  }

  lemma BeforeTransitive(a: Bytes, b: Bytes, c: Bytes)
    requires KeyBefore(a, b) && KeyBefore(b, c)
    ensures KeyBefore(a, c)
  {
    if |a| == |c| {
      LeqTransitive(a, b, c);
      if a == c {
        LeqAntisymmetric(a, b);
      }
    }
  }

  lemma BeforeTotal(a: Bytes, b: Bytes)
    ensures KeyBefore(a, b) || a == b || KeyBefore(b, a)
    ensures !(KeyBefore(a, b) && KeyBefore(b, a))
  {
    if |a| == |b| {
      LeqTotal(a, b);
      if Leq(a, b) && Leq(b, a) {
        LeqAntisymmetric(a, b);
      }
    }
  }

  /** Everything after the place of a key comes after the key. */
  lemma TailAfter(ps: seq<Pair>, key: Bytes, f: nat, j: nat)
    requires Sorted(ps) && f <= |ps| && (f < |ps| ==> !KeyBefore(ps[f].key, key))
    requires Resume(ps, key, f) <= j < |ps|
    ensures KeyBefore(key, ps[j].key)
  {
    BeforeTotal(ps[f].key, key);
    if f < j && ps[f].key != key {
      BeforeTransitive(key, ps[f].key, ps[j].key);
    }
  }

  /** The keys stay strictly sorted. */
  lemma InsertSorted(ps: seq<Pair>, p: Pair)
    requires Sorted(ps)
    ensures Sorted(InsertPair(ps, p))
  {
    var f := Position(ps, p.key);
    PlacedSorted(ps, p, f, Resume(ps, p.key, f));
  }

  lemma PlacedSorted(ps: seq<Pair>, p: Pair, f: nat, from: nat)
    requires Sorted(ps) && f <= |ps| && from == Resume(ps, p.key, f)
    requires (forall i | 0 <= i < f :: KeyBefore(ps[i].key, p.key)) && (f < |ps| ==> !KeyBefore(ps[f].key, p.key))
    ensures Sorted(ps[..f] + [p] + ps[from..])
  {
    var r := ps[..f] + [p] + ps[from..];
    forall i, j | 0 <= i < j < |r|
      ensures KeyBefore(r[i].key, r[j].key)
    {
      if j > f {
        TailAfter(ps, p.key, f, from + (j - f - 1));
        if i < f {
          BeforeTransitive(r[i].key, p.key, r[j].key);
        }
      }
    }
  }

  lemma {:induction false} ToMapConcat(a: seq<Pair>, b: seq<Pair>)
    ensures ToMap(a + b) == ToMap(a) + ToMap(b)
  {
    if b == [] {
      assert a + b == a;
    } else {
      var n := |b| - 1;
      ToMapConcat(a, b[..n]);
      assert (a + b)[..|a + b| - 1] == a + b[..n];
    }
  }

  lemma {:induction false} ToMapAbsent(ps: seq<Pair>, key: Bytes)
    requires forall i | 0 <= i < |ps| :: ps[i].key != key
    ensures key !in ToMap(ps)
  {
    if ps != [] {
      ToMapAbsent(ps[..|ps| - 1], key);
    }
  }

  /** Merging a pair is updating the mapping. */
  lemma InsertIsUpdate(ps: seq<Pair>, p: Pair)
    requires Sorted(ps)
    ensures ToMap(InsertPair(ps, p)) == ToMap(ps)[p.key := ValueOf(p)]
  {
    var f := Position(ps, p.key);
    PlacedIsUpdate(ps, p, f, Resume(ps, p.key, f));
  }

  lemma PlacedIsUpdate(ps: seq<Pair>, p: Pair, f: nat, from: nat)
    requires Sorted(ps) && f <= |ps| && from == Resume(ps, p.key, f)
    requires f < |ps| ==> !KeyBefore(ps[f].key, p.key)
    ensures ToMap(ps[..f] + [p] + ps[from..]) == ToMap(ps)[p.key := ValueOf(p)]
  {
    TailKeysDiffer(ps, p.key, f);
    ThreeParts(ps, f, from);
    ReplaceIsUpdate(ps[..f], ps[f..from], ps[from..], p);
  }

  lemma ThreeParts(ps: seq<Pair>, f: nat, from: nat)
    requires f <= from <= |ps|
    ensures ps[..f] + ps[f..from] + ps[from..] == ps
  {
  }

  lemma TailKeysDiffer(ps: seq<Pair>, key: Bytes, f: nat)
    requires Sorted(ps) && f <= |ps| && (f < |ps| ==> !KeyBefore(ps[f].key, key))
    ensures var after := ps[Resume(ps, key, f)..]; forall i | 0 <= i < |after| :: after[i].key != key
  {
  }

  lemma UpdateUnder<K, V>(b: map<K, V>, a: map<K, V>, k: K, u: V, v: V)
    requires k !in a
    ensures b[k := v] + a == (b + a)[k := v] == (b[k := u] + a)[k := v]
  {
  }

  lemma ReplaceIsUpdate(before: seq<Pair>, same: seq<Pair>, after: seq<Pair>, p: Pair)
    requires same == [] || (|same| == 1 && same[0].key == p.key)
    requires forall i | 0 <= i < |after| :: after[i].key != p.key
    ensures ToMap(before + [p] + after) == ToMap(before + same + after)[p.key := ValueOf(p)]
  {
    ToMapAbsent(after, p.key);
    ToMapConcat(before + [p], after);
    ToMapConcat(before + same, after);
    AppendToMap(before, p);
    if same == [] {
      assert before + same == before;
      UpdateUnder(ToMap(before), ToMap(after), p.key, None, ValueOf(p));
    } else {
      assert same == [same[0]];
      AppendToMap(before, same[0]);
      UpdateUnder(ToMap(before), ToMap(after), p.key, ValueOf(same[0]), ValueOf(p));
    }
  }

  lemma AppendToMap(ps: seq<Pair>, p: Pair)
    ensures ToMap(ps + [p]) == ToMap(ps)[p.key := ValueOf(p)]
  {
  }
}
