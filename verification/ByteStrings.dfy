/**
Byte strings in the order of `memcmp` and `byteacmp`: bytes are compared as unsigned numbers and
a proper prefix comes first. Facts about common prefixes and truncation.
 */
module ByteStrings {

  type Byte = b: int | 0 <= b < 256
  type Bytes = seq<Byte>

  /** `byteacmp(a, b) <= 0`: bytewise, and a proper prefix comes first. */
  predicate Leq(a: Bytes, b: Bytes) {
    a == [] || (b != [] && (a[0] < b[0] || (a[0] == b[0] && Leq(a[1..], b[1..]))))
  }

  /** Length of the longest common prefix. */
  function CommonPrefix(a: Bytes, b: Bytes): nat {
    if a == [] || b == [] || a[0] != b[0] then 0 else 1 + CommonPrefix(a[1..], b[1..])
  }

  /** The first n bytes, or all of them. */
  function Take(a: Bytes, n: nat): Bytes {
    if n < |a| then a[..n] else a
  }

  // ----- The order -----

  lemma {:induction false} LeqReflexive(a: Bytes)
    ensures Leq(a, a)
  {
    if a != [] {
      LeqReflexive(a[1..]);
    }
  }

  lemma {:induction false} LeqTotal(a: Bytes, b: Bytes)
    ensures Leq(a, b) || Leq(b, a)
  {
    if a != [] && b != [] {
      LeqTotal(a[1..], b[1..]);
    }
  }

  lemma {:induction false} LeqAntisymmetric(a: Bytes, b: Bytes)
    requires Leq(a, b) && Leq(b, a)
    ensures a == b
  {
    if a != [] {
      LeqAntisymmetric(a[1..], b[1..]);
      assert a == [a[0]] + a[1..] && b == [b[0]] + b[1..];
    }
  }

  lemma {:induction false} LeqTransitive(a: Bytes, b: Bytes, c: Bytes)
    requires Leq(a, b) && Leq(b, c)
    ensures Leq(a, c)
  {
    if a != [] && a[0] == b[0] == c[0] {
      LeqTransitive(a[1..], b[1..], c[1..]);
    }
  }

  // ----- Prefixes -----

  lemma {:induction false} PrefixLeq(p: Bytes, x: Bytes)
    requires p <= x
    ensures Leq(p, x)
  {
    if p != [] {
      PrefixLeq(p[1..], x[1..]);
    }
  }

  /** Whatever lies between a string and an extension of it extends it too. */
  lemma {:induction false} BetweenExtends(p: Bytes, y: Bytes, x: Bytes)
    requires p <= x && Leq(p, y) && Leq(y, x)
    ensures p <= y
  {
    if p != [] {
      BetweenExtends(p[1..], y[1..], x[1..]);
      assert p == [p[0]] + p[1..] && y == [y[0]] + y[1..];
    }
  }

  /** Extensions of u compare with a non-extension of u as u does. */
  lemma {:induction false} ExtensionLeq(u: Bytes, x: Bytes, v: Bytes)
    requires u <= x && Leq(u, v) && !(u <= v)
    ensures Leq(x, v)
  {
    if u[0] == v[0] {
      assert u == [u[0]] + u[1..] && v == [v[0]] + v[1..];
      ExtensionLeq(u[1..], x[1..], v[1..]);
    }
  }

  // ----- Common prefixes -----

  /** The strings agree up to the common prefix and differ behind it, if neither ends there. */
  lemma {:induction false} CommonPrefixIs(a: Bytes, b: Bytes)
    ensures var n := CommonPrefix(a, b);
            && n <= |a| && n <= |b| && a[..n] == b[..n]
            && (n < |a| && n < |b| ==> a[n] != b[n])
  {
    if a != [] && b != [] && a[0] == b[0] {
      CommonPrefixIs(a[1..], b[1..]);
      var n := CommonPrefix(a[1..], b[1..]);
      assert a[..n + 1] == [a[0]] + a[1..][..n] && b[..n + 1] == [b[0]] + b[1..][..n];
    }
  }

  /** The order decides by the first byte that differs, the smaller byte first, or else by length. */
  lemma {:induction false} LeqMeaning(a: Bytes, b: Bytes)
    ensures Leq(a, b) <==>
            || a <= b
            || exists n: nat | n < |a| && n < |b| :: a[..n] == b[..n] && a[n] < b[n]
  {
    CommonPrefixIs(a, b);
    LeqAtPrefix(a, b);
    var m := CommonPrefix(a, b);
    PrefixAt(a, b, m);
    if n: nat :| n < |a| && n < |b| && a[..n] == b[..n] && a[n] < b[n] {
      PrefixAt(a, b, n);
    }
  }

  lemma {:induction false} PrefixAt(a: Bytes, b: Bytes, n: nat)
    requires n <= |a| && n <= |b| && a[..n] == b[..n]
    ensures forall i | 0 <= i < n :: a[i] == b[i]
  {
    forall i | 0 <= i < n
      ensures a[i] == b[i]
    {
      assert a[i] == a[..n][i] && b[i] == b[..n][i];
    }
  }

  lemma {:induction false} LeqAtPrefix(a: Bytes, b: Bytes)
    ensures var n := CommonPrefix(a, b);
            n <= |a| && n <= |b| && (Leq(a, b) <==> n == |a| || (n < |b| && a[n] < b[n]))
  {
    if a != [] && b != [] && a[0] == b[0] {
      LeqAtPrefix(a[1..], b[1..]);
    }
  }

  lemma {:induction false} CommonPrefixSelf(a: Bytes)
    ensures CommonPrefix(a, a) == |a|
  {
    if a != [] {
      CommonPrefixSelf(a[1..]);
    }
  }

  /** Narrowing an interval from below can only lengthen its common prefix. */
  lemma {:induction false} CommonPrefixNarrow(lo: Bytes, l: Bytes, u: Bytes)
    requires Leq(lo, l) && Leq(l, u)
    ensures CommonPrefix(lo, u) <= CommonPrefix(l, u)
  {
    if lo != [] && u != [] && lo[0] == u[0] {
      CommonPrefixNarrow(lo[1..], l[1..], u[1..]);
    }
  }

  /** Extending u does not change a common prefix shorter than u. */
  lemma {:induction false} CommonPrefixExtend(l: Bytes, u: Bytes, v: Bytes)
    requires u <= v && CommonPrefix(l, u) < |u|
    ensures CommonPrefix(l, v) == CommonPrefix(l, u)
  {
    if l != [] && u != [] && l[0] == u[0] {
      CommonPrefixExtend(l[1..], u[1..], v[1..]);
    }
  }

  // ----- Truncation -----

  lemma TakeTail(a: Bytes, n: nat)
    requires a != [] && n > 0
    ensures Take(a, n) != [] && Take(a, n)[0] == a[0] && Take(a, n)[1..] == Take(a[1..], n - 1)
  {
  }

  lemma TakePrefix(a: Bytes, n: nat)
    ensures Take(a, n) <= a && |Take(a, n)| == if n < |a| then n else |a|
  {
  }

  lemma {:induction false} TakeMonotone(a: Bytes, b: Bytes, n: nat)
    requires Leq(a, b)
    ensures Leq(Take(a, n), Take(b, n))
  {
    if n > 0 && a != [] {
      TakeTail(a, n);
      TakeTail(b, n);
      if a[0] == b[0] {
        TakeMonotone(a[1..], b[1..], n - 1);
      }
    }
  }

  /** Truncation beyond the common prefix keeps the common prefix. */
  lemma {:induction false} TakeCommonPrefix(a: Bytes, b: Bytes, n: nat)
    requires n > CommonPrefix(a, b)
    ensures CommonPrefix(Take(a, n), Take(b, n)) == CommonPrefix(a, b)
  {
    if a != [] && b != [] {
      TakeTail(a, n);
      TakeTail(b, n);
      if a[0] == b[0] {
        TakeCommonPrefix(a[1..], b[1..], n - 1);
      }
    }
  }
}
