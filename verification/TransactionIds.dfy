/**
Transaction ids in contrib/amcheck/verify_heapam.c: widening a 32-bit id to 64 bits with the
help of the next id to be assigned, and the bounds verdict of `get_xid_status`.
 */
module TransactionIds {
  import opened CIntegers

  const FIRST_NORMAL: int := 3
  const TWO_TO_THE_64: int := 0x1_0000_0000_0000_0000

  /** A 64-bit id whose low half is not one of the three reserved ids. */
  predicate NormalFull(fxid: int) {
    FIRST_NORMAL <= fxid < TWO_TO_THE_64 && Truncate(fxid) >= FIRST_NORMAL
  }

  /** The low 32 bits (`XidFromFullTransactionId`). */
  function Truncate(fxid: int): int {
    ToUint32(fxid)
  }

  /** `FullTransactionIdFromXidAndCtx`. */
  function Widen(xid: int, next: int): int {
    if xid < FIRST_NORMAL then xid
    else
      var diff := ToInt32(Truncate(next) - xid);
      if diff > 0 && next - FIRST_NORMAL < diff then FIRST_NORMAL
      else (next - diff) % TWO_TO_THE_64
  }

  /** fxid is at most 2^31 ahead of next and less than 2^31 behind it. */
  predicate InWindow(fxid: int, next: int) {
    -TWO_TO_THE_31 <= next - fxid < TWO_TO_THE_31
  }

  /** Two numbers less than 2^32 apart with the same low 32 bits are equal. */
  lemma SameResidue(a: int, b: int)
    requires (a - b) % TWO_TO_THE_32 == 0 && -TWO_TO_THE_32 < a - b < TWO_TO_THE_32
    ensures a == b
  {
  }

  lemma DiffCongruent(xid: int, next: int)
    requires 0 <= xid < TWO_TO_THE_32
    ensures (next - ToInt32(Truncate(next) - xid) - xid) % TWO_TO_THE_32 == 0
  {
  }

  /** Widening exactly undoes truncation for every normal id in the window around next. */
  lemma WidenInvertsTruncate(fxid: int, next: int)
    requires NormalFull(fxid) && NormalFull(next) && InWindow(fxid, next)
    ensures Widen(Truncate(fxid), next) == fxid
  {
    var xid := Truncate(fxid);
    var d := ToInt32(Truncate(next) - xid);
    DiffCongruent(xid, next);
    var q := fxid / TWO_TO_THE_32;
    var k := (next - d - xid) / TWO_TO_THE_32;
    assert fxid == xid + q * TWO_TO_THE_32;
    assert next - d == xid + k * TWO_TO_THE_32;
    assert next - d - fxid == (k - q) * TWO_TO_THE_32;
    SameResidue(next - d, fxid);
  }

  /** f is the one id in the window around next with these low bits, or the first normal id before epoch 0. */
  ghost predicate Widened(f: int, xid: int, next: int) {
    || (NormalFull(f) && Truncate(f) == xid && InWindow(f, next))
    || (f == FIRST_NORMAL && forall g | InWindow(g, next) && Truncate(g) == xid :: g < 0)
  }

  /**
  What widening yields for any normal 32-bit id: the one id in the window with these low bits,
  or the first normal id when that one would lie before epoch 0.
   */
  lemma WidenMeaning(xid: int, next: int)
    requires FIRST_NORMAL <= xid < TWO_TO_THE_32
    requires NormalFull(next) && next + TWO_TO_THE_31 < TWO_TO_THE_64
    ensures Widened(Widen(xid, next), xid, next)
  {
    var d := ToInt32(Truncate(next) - xid);
    DiffCongruent(xid, next);
    var k := (next - d - xid) / TWO_TO_THE_32;
    assert next - d == xid + k * TWO_TO_THE_32;
    if next - d >= 0 {
      assert Truncate(next - d) == xid;
    } else {
      forall g | InWindow(g, next) && Truncate(g) == xid
        ensures g < 0
      {
        var q := g / TWO_TO_THE_32;
        assert g == xid + q * TWO_TO_THE_32;
        assert next - d - g == (k - q) * TWO_TO_THE_32;
        SameResidue(next - d, g);
      }
    }
  }

  /** That description leaves one id only. */
  lemma {:induction false} WidenedUnique(f: int, g: int, xid: int, next: int)
    requires FIRST_NORMAL <= xid < TWO_TO_THE_32 && Widened(f, xid, next) && Widened(g, xid, next)
    ensures f == g
  {
    if NormalFull(f) && Truncate(f) == xid && InWindow(f, next) && NormalFull(g) && Truncate(g) == xid && InWindow(g, next) {
      assert f == xid + (f / TWO_TO_THE_32) * TWO_TO_THE_32 && g == xid + (g / TWO_TO_THE_32) * TWO_TO_THE_32;
      assert f - g == (f / TWO_TO_THE_32 - g / TWO_TO_THE_32) * TWO_TO_THE_32;
      SameResidue(f, g);
    }
  }

  // ----- Bounds -----

  datatype Verdict = Invalid | InFuture | PrecedesClusterMin | PrecedesRelMin | BoundsOk

  /** The verdict for a full id, by plain comparison of 64-bit numbers. */
  function PlainVerdict(fxid: int, next: int, oldest: int, relfrozen: int): Verdict {
    if next <= fxid then InFuture
    else if fxid < oldest then PrecedesClusterMin
    else if fxid < relfrozen then PrecedesRelMin
    else BoundsOk
  }

  /** What the cached range becomes after a lookup. */
  function RangeAfter(fxid: int, next: int, oldest: int, serverNext: int, serverOldest: int): (int, int) {
    if oldest <= fxid < next then (next, oldest) else (serverNext, serverOldest)
  }

  /** An id that the cached and the server's next id can both tell apart, and a cache that is only behind. */
  predicate Distinguishable(fxid: int, next: int, oldest: int, serverNext: int, serverOldest: int) {
    && NormalFull(fxid) && InWindow(fxid, next) && InWindow(fxid, serverNext)
    && next <= serverNext && oldest <= serverOldest
  }

  /**
  For such an id, a lookup agrees with plain 64-bit comparison, and a stale cache never turns an id
  of the future into a valid one.
   */
  lemma VerdictIsPlain(fxid: int, next: int, oldest: int, serverNext: int, serverOldest: int, relfrozen: int)
    requires NormalFull(next) && NormalFull(serverNext)
    requires Distinguishable(fxid, next, oldest, serverNext, serverOldest)
    ensures var (n, o) := RangeAfter(Widen(Truncate(fxid), next), next, oldest, serverNext, serverOldest);
            && PlainVerdict(Widen(Truncate(fxid), n), n, o, relfrozen) == PlainVerdict(fxid, n, o, relfrozen)
            && (PlainVerdict(fxid, n, o, relfrozen) == BoundsOk <==> o <= fxid < n && relfrozen <= fxid)
            && (PlainVerdict(fxid, n, o, relfrozen) == PrecedesClusterMin <==> fxid < n && fxid < o)
            && (PlainVerdict(fxid, n, o, relfrozen) == PrecedesRelMin <==> o <= fxid < n && fxid < relfrozen)
            && (PlainVerdict(fxid, n, o, relfrozen) == InFuture <==> serverNext <= fxid)
            && (PlainVerdict(fxid, serverNext, serverOldest, relfrozen) == BoundsOk ==>
                PlainVerdict(fxid, n, o, relfrozen) == BoundsOk)
  {
    WidenInvertsTruncate(fxid, next);
    WidenInvertsTruncate(fxid, serverNext);
  }

  /** The range of valid ids, as the server knows it and as the check has cached it. */
  class HeapCheckContext {
    var next: int
    var oldest: int
    const relfrozen: int

    constructor (next: int, oldestXid: int, relfrozen: int)
      requires NormalFull(next) && 0 <= oldestXid < TWO_TO_THE_32
      ensures this.next == next && this.oldest == Widen(oldestXid, next) && this.relfrozen == relfrozen
    {
      this.next, this.oldest, this.relfrozen := next, Widen(oldestXid, next), relfrozen;
    }

    /**
    `update_cached_xid_range`: the range becomes the server's, and the server's oldest id is
    recovered from its low 32 bits as long as it is less than 2^31 behind the next one.
     */
    method UpdateCachedRange(serverNext: int, serverOldestXid: int, ghost serverOldest: int)
      requires NormalFull(serverNext) && 0 <= serverOldestXid < TWO_TO_THE_32
      modifies this
      ensures next == serverNext && oldest == Widen(serverOldestXid, serverNext)
      ensures serverOldestXid < FIRST_NORMAL ==> oldest == serverOldestXid
      ensures serverOldestXid >= FIRST_NORMAL && serverNext + TWO_TO_THE_31 < TWO_TO_THE_64
              ==> Widened(oldest, serverOldestXid, next)
      ensures NormalFull(serverOldest) && Truncate(serverOldest) == serverOldestXid && InWindow(serverOldest, next)
              ==> oldest == serverOldest
    {
      next := serverNext;
      oldest := Widen(serverOldestXid, next);
      if serverOldestXid >= FIRST_NORMAL && serverNext + TWO_TO_THE_31 < TWO_TO_THE_64 {
        WidenMeaning(serverOldestXid, serverNext);
      }
      if NormalFull(serverOldest) && Truncate(serverOldest) == serverOldestXid && InWindow(serverOldest, next) {
        WidenInvertsTruncate(serverOldest, next);
      }
    }

    /**
    The bounds part of `get_xid_status` for a 32-bit id. The cached range is refreshed only when
    the id falls outside it. `full` is the 64-bit id that was stored as xid.
     */
    method GetXidBounds(xid: int, serverNext: int, serverOldestXid: int, ghost full: int) returns (v: Verdict)
      requires 0 <= xid < TWO_TO_THE_32 && NormalFull(next)
      requires NormalFull(serverNext) && 0 <= serverOldestXid < TWO_TO_THE_32
      modifies this
      ensures NormalFull(next)
      ensures xid == 0 ==> v == Invalid
      ensures xid in {1, 2} ==> v == BoundsOk
      ensures xid >= FIRST_NORMAL ==>
                var f := Widen(xid, next);
                && (v == BoundsOk <==> oldest <= f < next && relfrozen <= f)
                && (v == InFuture <==> next <= f)
                && (v == PrecedesClusterMin <==> f < next && f < oldest)
                && (v == PrecedesRelMin <==> oldest <= f < next && f < relfrozen)
      ensures xid >= FIRST_NORMAL ==>
                if old(oldest) <= Widen(xid, old(next)) < old(next)
                then next == old(next) && oldest == old(oldest)
                else next == serverNext && oldest == Widen(serverOldestXid, serverNext)
      ensures xid >= FIRST_NORMAL ==>
                (next, oldest) == RangeAfter(Widen(xid, old(next)), old(next), old(oldest), serverNext,
                                             Widen(serverOldestXid, serverNext))
      ensures
        var serverOldest := Widen(serverOldestXid, serverNext);
        xid == Truncate(full) && Distinguishable(full, old(next), old(oldest), serverNext, serverOldest) ==>
          && (v == BoundsOk <==> oldest <= full < next && relfrozen <= full)
          && (v == InFuture <==> serverNext <= full)
          && (v == PrecedesClusterMin <==> full < next && full < oldest)
          && (v == PrecedesRelMin <==> oldest <= full < next && full < relfrozen)
          && (serverOldest <= full < serverNext && relfrozen <= full ==> v == BoundsOk)
    {
      if xid == 0 {
        return Invalid;
      }
      if xid == 1 || xid == 2 {
        return BoundsOk;
      }
      ghost var serverOldest := Widen(serverOldestXid, serverNext);
      if xid == Truncate(full) && Distinguishable(full, next, oldest, serverNext, serverOldest) {
        VerdictIsPlain(full, next, oldest, serverNext, serverOldest, relfrozen);
      }
      var fxid := Widen(xid, next);
      if !(oldest <= fxid && fxid < next) {
        UpdateCachedRange(serverNext, serverOldestXid, serverOldest);
        fxid := Widen(xid, next);
      }
      if next <= fxid {
        return InFuture;
      }
      if fxid < oldest {
        return PrecedesClusterMin;
      }
      if fxid < relfrozen {
        return PrecedesRelMin;
      }
      return BoundsOk;
    }
  }
}
