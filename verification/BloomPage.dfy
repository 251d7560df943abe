/**
One page of a bloom index (contrib/bloom/bloom.h, blutils.c and blvacuum.c): space
accounting, adding a tuple, and the in-place compaction done by bulk deletion.
 */
module BloomPage {
  import opened Options
  import opened BloomSignature

  const BLCKSZ: int := 8192
  /** MAXALIGN(SizeOfPageHeaderData). */
  const PAGE_HEADER: int := 24
  /** MAXALIGN(sizeof(BloomPageOpaqueData)). */
  const PAGE_OPAQUE: int := 8
  /** Block numbers that fit in the metapage beside its other fields (`BloomMetaBlockN`). */
  const META_BLOCKS: int := (BLCKSZ - PAGE_HEADER - PAGE_OPAQUE - 144) / 4

  type Tid = int
  datatype BloomTuple = BloomTuple(heapPtr: Tid, sign: Signature)

  /** A page is either all zeroes (`PageIsNew`) or holds `maxoff` tuples and a deleted flag. */
  datatype Page = New | Data(items: seq<BloomTuple>, deleted: bool)

  /** `sizeOfBloomTuple` for signatures of the given number of words. */
  function TupleSize(words: int): int {
    6 + 2 * words
  }

  /** `BloomPageGetFreeSpace`. */
  function FreeSpace(words: int, maxoff: int): int {
    BLCKSZ - PAGE_HEADER - maxoff * TupleSize(words) - PAGE_OPAQUE
  }

  /** The tuples an index scan sees on a page. */
  function Live(p: Page): seq<BloomTuple> {
    if p.Data? && !p.deleted then p.items else []
  }

  /** What every page keeps: no overfull page, no tuples under a deleted flag, whole signatures. */
  ghost predicate PageOk(words: int, p: Page) {
    p.Data? ==>
      && FreeSpace(words, |p.items|) >= 0
      && (p.deleted ==> p.items == [])
      && forall i | 0 <= i < |p.items| :: |p.items[i].sign| == words
  }

  /** `BloomInitPage`. */
  function InitPage(): Page {
    Data([], false)
  }

  /** `BloomPageAddItem`: None when the tuple does not fit. */
  function AddItem(words: int, p: Page, t: BloomTuple): Option<Page>
    requires p.Data?
  {
    if FreeSpace(words, |p.items|) < TupleSize(words) then None
    else Some(p.(items := p.items + [t]))
  }

  /** What an inserter does with a locked page: reinitialise it if it is unused, then add. */
  function InsertOnPage(words: int, p: Page, t: BloomTuple): Option<Page> {
    AddItem(words, if p.New? || p.deleted then InitPage() else p, t)
  }

  /** The tuples whose heap pointer is not in `dead`, in page order. */
  function Kept(items: seq<BloomTuple>, dead: set<Tid>): seq<BloomTuple> {
    if items == [] then []
    else
      var rest := Kept(items[..|items| - 1], dead);
      var last := items[|items| - 1];
      if last.heapPtr in dead then rest else rest + [last]
  }

  /** The tuples whose heap pointer is in `dead`. */
  ghost function Removed(items: seq<BloomTuple>, dead: set<Tid>): multiset<BloomTuple> {
    if items == [] then multiset{}
    else
      var rest := Removed(items[..|items| - 1], dead);
      var last := items[|items| - 1];
      if last.heapPtr in dead then rest + multiset{last} else rest
  }

  /** A page after bulk deletion has visited it. */
  function VacuumedPage(p: Page, dead: set<Tid>): Page {
    if p.New? || p.deleted then p
    else
      var kept := Kept(p.items, dead);
      if |kept| < |p.items| then Data(kept, kept == []) else p
  }

  /** Bulk deletion lists a page it leaves with tuples and with room for one more. */
  predicate HasRoom(words: int, p: Page) {
    p.Data? && !p.deleted && p.items != [] && FreeSpace(words, |p.items|) >= TupleSize(words)
  }

  // ----- What the tests and functions mean -----

  /** A page takes another tuple exactly if the bytes of all of them fit between header and trailer. */
  lemma {:induction false} AddItemIff(words: int, p: Page, t: BloomTuple)
    requires p.Data?
    ensures AddItem(words, p, t).Some? <==>
            PAGE_HEADER + (|p.items| + 1) * TupleSize(words) + PAGE_OPAQUE <= BLCKSZ
    ensures AddItem(words, p, t).Some? ==> AddItem(words, p, t).value == Data(p.items + [t], p.deleted)
  {
    assert (|p.items| + 1) * TupleSize(words) == |p.items| * TupleSize(words) + TupleSize(words);
  }

  /** Bulk deletion lists exactly the pages that scans see tuples on and that take one more. */
  lemma {:induction false} HasRoomIff(words: int, p: Page)
    ensures HasRoom(words, p) <==> Live(p) != [] && forall t :: InsertOnPage(words, p, t).Some?
  {
    if Live(p) != [] && forall t :: InsertOnPage(words, p, t).Some? {
      var t := BloomTuple(0, []);
      assert InsertOnPage(words, p, t).Some?;
    }
  }

  /** The kept tuples of two pieces are those of the one followed by those of the other. */
  lemma {:induction false} KeptConcat(a: seq<BloomTuple>, b: seq<BloomTuple>, dead: set<Tid>)
    ensures Kept(a + b, dead) == Kept(a, dead) + Kept(b, dead)
    ensures |a| == 1 ==> Kept(a, dead) == if a[0].heapPtr in dead then [] else a
  {
    if b == [] {
      assert a + b == a;
    } else {
      KeptConcat(a, b[..|b| - 1], dead);
      assert (a + b)[..|a + b| - 1] == a + b[..|b| - 1];
    }
    if |a| == 1 {
      assert a[..0] == [] && a == [a[0]];
    }
  }

  /** A page in use is given up by bulk deletion exactly if it had tuples and all of them are dead. */
  lemma {:induction false} GivenUpIff(p: Page, dead: set<Tid>)
    requires p.Data? && !p.deleted
    ensures VacuumedPage(p, dead).Data?
    ensures VacuumedPage(p, dead).deleted <==>
            p.items != [] && forall i | 0 <= i < |p.items| :: p.items[i].heapPtr in dead
  {
    var kept := Kept(p.items, dead);
    forall i | 0 <= i < |p.items|
      ensures p.items[i].heapPtr !in dead ==> kept != []
    {
      KeptMember(p.items, dead, p.items[i]);
    }
    if kept != [] {
      KeptMember(p.items, dead, kept[0]);
      var i :| 0 <= i < |p.items| && p.items[i] == kept[0];
      assert p.items[i].heapPtr !in dead;
    }
  }

  /** A page that is not in use, and one without dead tuples, is left alone. */
  lemma {:induction false} LeftAlone(p: Page, dead: set<Tid>)
    requires p.Data? && !p.deleted ==> forall i | 0 <= i < |p.items| :: p.items[i].heapPtr !in dead
    ensures VacuumedPage(p, dead) == p
  {
    if p.Data? && !p.deleted {
      NoneDropped(p.items, dead);
    }
  }

  lemma {:induction false} NoneDropped(items: seq<BloomTuple>, dead: set<Tid>)
    requires forall i | 0 <= i < |items| :: items[i].heapPtr !in dead
    ensures Kept(items, dead) == items
  {
    if items != [] {
      NoneDropped(items[..|items| - 1], dead);
    }
  }

  // ----- Facts about single pages -----

  /** Adding to a page that is unused always succeeds: "could not add" cannot be reached. */
  lemma UnusedPageHasRoom(words: int, p: Page, t: BloomTuple)
    requires 1 <= words <= 256
    requires p.New? || p.deleted
    ensures InsertOnPage(words, p, t) == Some(Data([t], false))
  {
    assert [] + [t] == [t];
  }

  /** An insertion adds its tuple to what scans see, and nothing else changes. */
  lemma InsertOnPageAdds(words: int, p: Page, t: BloomTuple)
    requires 1 <= words <= 256 && PageOk(words, p) && |t.sign| == words
    requires InsertOnPage(words, p, t).Some?
    ensures PageOk(words, InsertOnPage(words, p, t).value)
    ensures Live(InsertOnPage(words, p, t).value) == Live(p) + [t]
  {
  }

  /** Fewer tuples take less space. */
  lemma SpaceMonotone(words: int, m: int, n: int)
    requires words >= 1 && 0 <= m <= n
    ensures FreeSpace(words, m) >= FreeSpace(words, n)
    ensures FreeSpace(words, n) >= 0 ==> n < 1024
  {
    var size := TupleSize(words);
    assert m * size <= n * size;
    assert n * 8 <= n * size;
  }

  /** Compaction splits the tuples of a page into those kept and those removed. */
  lemma {:induction false} KeptAndRemoved(items: seq<BloomTuple>, dead: set<Tid>)
    ensures multiset(Kept(items, dead)) + Removed(items, dead) == multiset(items)
    ensures |Kept(items, dead)| + |Removed(items, dead)| == |items|
  {
    if items != [] {
      var front, last := items[..|items| - 1], items[|items| - 1];
      KeptAndRemoved(front, dead);
      assert items == front + [last];
      assert multiset(items) == multiset(front) + multiset{last};
    }
  }

  lemma KeptNext(items: seq<BloomTuple>, n: nat, dead: set<Tid>)
    requires n < |items|
    ensures Kept(items[..n + 1], dead) ==
            Kept(items[..n], dead) + if items[n].heapPtr in dead then [] else [items[n]]
  {
    assert items[..n + 1][..n] == items[..n];
  }

  /** Exactly the tuples with a live heap pointer are kept. */
  lemma {:induction false} KeptMember(items: seq<BloomTuple>, dead: set<Tid>, t: BloomTuple)
    ensures t in Kept(items, dead) <==> t in items && t.heapPtr !in dead
  {
    if items != [] {
      var front, last := items[..|items| - 1], items[|items| - 1];
      KeptMember(front, dead, t);
      assert items == front + [last];
    }
  }

  lemma {:induction false} NothingRemoved(items: seq<BloomTuple>, dead: set<Tid>)
    requires |Kept(items, dead)| == |items|
    ensures Kept(items, dead) == items
  {
    if items != [] {
      var front, last := items[..|items| - 1], items[|items| - 1];
      KeptAndRemoved(front, dead);
      NothingRemoved(front, dead);
      assert items == front + [last];
    }
  }

  /** A page keeps its invariant through bulk deletion. */
  lemma VacuumedPageOk(words: int, p: Page, dead: set<Tid>)
    requires 1 <= words <= 256 && PageOk(words, p)
    ensures PageOk(words, VacuumedPage(p, dead))
  {
    if p.Data? && !p.deleted {
      var kept := Kept(p.items, dead);
      KeptAndRemoved(p.items, dead);
      SpaceMonotone(words, |kept|, |p.items|);
      forall i | 0 <= i < |kept|
        ensures |kept[i].sign| == words
      {
        KeptMember(p.items, dead, kept[i]);
      }
    }
  }

  /** What scans see afterwards is what they saw before without the dead tuples, in order. */
  lemma VacuumedPageLive(p: Page, dead: set<Tid>)
    ensures Live(VacuumedPage(p, dead)) == Kept(Live(p), dead)
  {
    if p.Data? && !p.deleted && |Kept(p.items, dead)| >= |p.items| {
      KeptAndRemoved(p.items, dead);
      NothingRemoved(p.items, dead);
    }
  }

  // ----- The page as a buffer changed in place -----

  /** A private copy of a page, as `GenericXLogRegisterBuffer` hands out. */
  class PageBuffer {
    const words: int
    const slots: array<BloomTuple>
    var maxoff: nat
    var deleted: bool

    predicate Valid()
      reads this
    {
      1 <= words <= 256 && slots.Length == 1024 && maxoff < 1024 && FreeSpace(words, maxoff) >= 0
    }

    /** The page image this buffer stands for. */
    function Image(): Page
      requires Valid()
      reads this, slots
    {
      Data(slots[..maxoff], deleted)
    }

    constructor (words: int, p: Page, filler: BloomTuple)
      requires 1 <= words <= 256 && p.Data? && PageOk(words, p)
      ensures Valid() && this.words == words && fresh(slots)
      ensures Image() == p
    {
      this.words := words;
      SpaceMonotone(words, 0, |p.items|);
      var copy := new BloomTuple[1024](i => if 0 <= i < |p.items| then p.items[i] else filler);
      slots := copy;
      maxoff := |p.items|;
      deleted := p.deleted;
      new;
      assert slots[..maxoff] == p.items;
    }

    /** `BloomPageAddItem` on the buffer. */
    method Add(t: BloomTuple) returns (ok: bool)
      requires Valid() && !deleted
      modifies this`maxoff, slots
      ensures Valid()
      ensures ok <==> AddItem(words, old(Image()), t).Some?
      ensures Image() == if ok then AddItem(words, old(Image()), t).value else old(Image())
    {
      if FreeSpace(words, maxoff) < TupleSize(words) {
        return false;
      }
      SpaceMonotone(words, maxoff, maxoff + 1);
      slots[maxoff] := t;
      maxoff := maxoff + 1;
      assert slots[..maxoff] == old(slots[..maxoff]) + [t];
      return true;
    }

    /** What `blbulkdelete` does with one page that is in use. */
    method Compact(dead: set<Tid>) returns (removed: nat)
      requires Valid() && !deleted
      modifies this`maxoff, this`deleted, slots
      ensures Valid()
      ensures Image() == VacuumedPage(old(Image()), dead)
      ensures removed == |Removed(old(Image()).items, dead)| == old(maxoff) - maxoff
    {
      ghost var before := slots[..maxoff];
      var end := maxoff;
      maxoff, removed := CompactTuples(slots, maxoff, dead);
      KeptAndRemoved(before, dead);
      SpaceMonotone(words, maxoff, end);
      if removed > 0 && maxoff == 0 {
        deleted := true;
      }
      if removed == 0 {
        NothingRemoved(before, dead);
      }
    }
  }

  /**
  The tuple loop of `blbulkdelete`: `itup` visits every tuple, `itupPtr` is where the
  next kept tuple goes, and the count of tuples left drops by one for each tuple removed.
   */
  method CompactTuples(slots: array<BloomTuple>, maxoff: nat, dead: set<Tid>)
    returns (left: nat, removed: nat)
    requires maxoff <= slots.Length
    modifies slots
    ensures left <= maxoff
    ensures slots[..left] == Kept(old(slots[..maxoff]), dead)
    ensures removed == |Removed(old(slots[..maxoff]), dead)| == maxoff - left
  {
    ghost var before := slots[..maxoff];
    left, removed := maxoff, 0;
    var itup, itupPtr := 0, 0;
    while itup < maxoff
      invariant itupPtr <= itup <= maxoff
      invariant left == maxoff - removed && itupPtr == itup - removed
      invariant Compacted(slots[..], before, itup, itupPtr, dead)
    {
      CompactedNext(slots[..], before, itup, itupPtr, dead);
      if slots[itup].heapPtr in dead {
        left := left - 1;
        removed := removed + 1;
      } else {
        KeepTuple(slots, itup, itupPtr, before, dead);
        itupPtr := itupPtr + 1;
      }
      itup := itup + 1;
    }
    CompactedAll(slots[..], before, itupPtr, dead);
  }

  /** Copy a tuple to where the next kept one goes, but only if it is not there already. */
  method KeepTuple(slots: array<BloomTuple>, itup: nat, itupPtr: nat, ghost before: seq<BloomTuple>, ghost dead: set<Tid>)
    requires Compacted(slots[..], before, itup, itupPtr, dead) && itup < |before|
    requires slots[itup].heapPtr !in dead
    modifies slots
    ensures Compacted(slots[..], before, itup + 1, itupPtr + 1, dead)
  {
    ghost var was := slots[..];
    CompactedNext(was, before, itup, itupPtr, dead);
    if itupPtr != itup {
      slots[itupPtr] := slots[itup];
    }
    assert slots[..] == was[itupPtr := was[itup]];
  }

  lemma {:induction false} CompactedAll(slots: seq<BloomTuple>, before: seq<BloomTuple>, itupPtr: nat, dead: set<Tid>)
    requires Compacted(slots, before, |before|, itupPtr, dead)
    ensures slots[..itupPtr] == Kept(before, dead) && |Removed(before, dead)| == |before| - itupPtr
  {
    assert before[..|before|] == before;
    KeptAndRemoved(before, dead);
  }

  /** Compaction has visited itup of the tuples before, and kept those now in front of itupPtr. */
  ghost predicate Compacted(slots: seq<BloomTuple>, before: seq<BloomTuple>, itup: nat, itupPtr: nat, dead: set<Tid>) {
    && itupPtr <= itup <= |before| <= |slots|
    && slots[..itupPtr] == Kept(before[..itup], dead)
    && slots[itup..|before|] == before[itup..]
  }

  lemma CompactedNext(slots: seq<BloomTuple>, before: seq<BloomTuple>, itup: nat, itupPtr: nat, dead: set<Tid>)
    requires Compacted(slots, before, itup, itupPtr, dead) && itup < |before|
    ensures slots[itup] == before[itup]
    ensures before[itup].heapPtr in dead ==> Compacted(slots, before, itup + 1, itupPtr, dead)
    ensures before[itup].heapPtr !in dead ==>
              Compacted(slots[itupPtr := slots[itup]], before, itup + 1, itupPtr + 1, dead)
  {
    assert slots[itup] == slots[itup..|before|][0] == before[itup];
    KeptNext(before, itup, dead);
    RestAfter(slots, before, itup);
    var slots' := slots[itupPtr := slots[itup]];
    assert slots'[..itupPtr + 1] == slots[..itupPtr] + [slots[itup]];
    assert slots'[itup + 1..|before|] == slots[itup + 1..|before|];
  }

  lemma RestAfter(slots: seq<BloomTuple>, before: seq<BloomTuple>, n: nat)
    requires n < |before| <= |slots| && slots[n..|before|] == before[n..]
    ensures slots[n + 1..|before|] == before[n + 1..]
  {
    assert slots[n + 1..|before|] == slots[n..|before|][1..];
    assert before[n + 1..] == before[n..][1..];
  }
}
