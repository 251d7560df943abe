/**
The bloom index access method as one backend executes it (contrib/bloom/blinsert.c,
blvacuum.c and blscan.c). The methods of the class `BloomIndex` state what they do to pages and
metapage, and the run of the concurrent protocol that they amount to.
 */
module BloomIndex {
  import opened Options
  import opened BloomRandom
  import opened BloomSignature
  import opened BloomPage
  import opened BloomProtocol
  import opened BloomSequential

  /** Insertion into a private copy of a page; None stands for an aborted WAL record. */
  method TryPage(words: int, p: Page, t: BloomTuple) returns (r: Option<Page>)
    requires 1 <= words <= 256 && PageOk(words, p)
    ensures r == InsertOnPage(words, p, t)
  {
    var start := if p.New? || p.deleted then InitPage() else p;
    var buffer := new PageBuffer(words, start, t);
    var ok := buffer.Add(t);
    if ok {
      return Some(buffer.Image());
    }
    return None;
  }

  /** Bulk deletion on a private copy of a page. */
  method VacuumOnePage(words: int, p: Page, dead: set<Tid>) returns (p': Page, removed: nat)
    requires 1 <= words <= 256 && PageOk(words, p)
    ensures p' == VacuumedPage(p, dead)
    ensures removed == |Removed(Live(p), dead)|
  {
    if p.New? || p.deleted {
      return p, 0;
    }
    var buffer := new PageBuffer(words, p, BloomTuple(0, []));
    removed := buffer.Compact(dead);
    p' := buffer.Image();
  }

  ghost predicate FileOk(words: int, file: seq<Page>) {
    1 <= |file| && file[0] == New && forall b | 0 <= b < |file| :: PageOk(words, file[b])
  }

  // ----- Building -----

  /** One more tuple fits. */
  predicate PageHasRoom(words: int, p: Page) {
    p.Data? && FreeSpace(words, |p.items|) >= TupleSize(words)
  }

  /** The data pages below n are full. */
  ghost predicate FullBelow(words: int, file: seq<Page>, n: int) {
    forall b | 1 <= b < |file| && b < n :: !PageHasRoom(words, file[b])
  }

  /** The tuples of a list of pages, in order. */
  ghost function Stored(file: seq<Page>): seq<BloomTuple> {
    if file == [] then [] else Stored(file[..|file| - 1]) + Live(file[|file| - 1])
  }

  lemma StoredNext(file: seq<Page>, p: Page)
    ensures Stored(file + [p]) == Stored(file) + Live(p)
  {
    assert (file + [p])[..|file|] == file;
  }

  lemma {:induction false} StoredIsContents(file: seq<Page>)
    ensures multiset(Stored(file)) == Contents(file)
  {
    if file != [] {
      StoredIsContents(file[..|file| - 1]);
    }
  }

  /** `bloomBuildCallback`: add to the cached page, flushing it to the file first when it is full. */
  method BuildCallback(words: int, file: seq<Page>, cache: Page, t: BloomTuple)
    returns (file': seq<Page>, cache': Page)
    requires 1 <= words <= 256 && |t.sign| == words
    requires FileOk(words, file) && cache.Data? && !cache.deleted && PageOk(words, cache)
    ensures FileOk(words, file') && cache'.Data? && !cache'.deleted && PageOk(words, cache')
    ensures if PageHasRoom(words, cache) then file' == file && cache'.items == cache.items + [t]
            else file' == file + [cache] && cache'.items == [t]
  {
    file', cache' := file, cache;
    var r := AddItem(words, cache, t);
    if r.None? {
      file', cache' := file + [cache], InitPage();
      UnusedPageHasRoom(words, New, t);
      r := AddItem(words, cache', t);
    }
    InsertOnPageAdds(words, cache', t);
    cache' := r.value;
  }

  /** The heap scan of `blbuild`, with the last flush: no page but the last has room. */
  method BuildPages(words: int, tuples: seq<BloomTuple>) returns (file: seq<Page>)
    requires 1 <= words <= 256
    requires forall i | 0 <= i < |tuples| :: |tuples[i].sign| == words
    ensures FileOk(words, file) && FullBelow(words, file, |file| - 1)
    ensures Stored(file) == tuples
  {
    file := [New];
    var cache := InitPage();
    for i := 0 to |tuples|
      invariant FileOk(words, file) && cache.Data? && !cache.deleted && PageOk(words, cache)
      invariant FullBelow(words, file, |file|)
      invariant Stored(file) + cache.items == tuples[..i]
    {
      ghost var file0, cache0 := file, cache;
      file, cache := BuildCallback(words, file, cache, tuples[i]);
      BuildNext(words, file0, cache0, file, cache, tuples[i]);
      assert tuples[..i + 1] == tuples[..i] + [tuples[i]];
    }
    assert tuples[..|tuples|] == tuples;
    if cache.items != [] {
      StoredNext(file, cache);
      file := file + [cache];
    }
  }

  /** Adding a tuple puts it behind all others and leaves only full pages in the file. */
  lemma {:induction false} BuildNext(words: int, file: seq<Page>, cache: Page, file': seq<Page>, cache': Page, t: BloomTuple)
    requires cache.Data? && !cache.deleted && cache'.Data? && FullBelow(words, file, |file|)
    requires if PageHasRoom(words, cache) then file' == file && cache'.items == cache.items + [t]
             else file' == file + [cache] && cache'.items == [t]
    ensures FullBelow(words, file', |file'|)
    ensures Stored(file') + cache'.items == Stored(file) + cache.items + [t]
  {
    StoredNext(file, cache);
  }

  // ----- Scanning -----

  /** The tuple loop of `blgetbitmap` on one page. */
  method ScanItems(items: seq<BloomTuple>, query: Signature) returns (tids: seq<Tid>)
    requires Fits(query) && forall i | 0 <= i < |items| :: |items[i].sign| == |query|
    ensures tids == MatchingTids(items, query)
  {
    tids := [];
    for offset := 0 to |items|
      invariant tids == MatchingTids(items[..offset], query)
    {
      assert items[..offset + 1][..offset] == items[..offset];
      var res := TestSignature(items[offset].sign, query);
      if res {
        tids := tids + [items[offset].heapPtr];
      }
    }
    assert items[..|items|] == items;
  }

  /** The page loop of `blgetbitmap`. */
  method ScanPages(words: int, pages: seq<Page>, query: Signature) returns (tids: seq<Tid>, ntids: nat)
    requires FileOk(words, pages) && |query| == words && Fits(query)
    ensures tids == MatchesUpTo(pages, query, |pages|) && ntids == |tids|
  {
    tids, ntids := [], 0;
    for blkno := 1 to |pages|
      invariant tids == MatchesUpTo(pages, query, blkno) && ntids == |tids|
    {
      var page := pages[blkno];
      assert PageOk(words, page);
      if !page.New? && !page.deleted {
        var found := ScanItems(page.items, query);
        tids, ntids := tids + found, ntids + |found|;
      }
    }
  }

  // ----- Bulk deletion -----

  /** One round of the page loop of `blbulkdelete`. */
  method VacuumBlock(words: int, ghost before: seq<Page>, pages: seq<Page>, dead: set<Tid>, blkno: nat,
                     found: seq<nat>, removed: nat)
    returns (pages': seq<Page>, found': seq<nat>, removed': nat)
    requires 1 <= words <= 256 && 1 <= blkno < |before| == |pages| && PageOk(words, pages[blkno])
    requires SweepSoFar(words, before, pages, dead, blkno, found, removed)
    ensures SweepSoFar(words, before, pages', dead, blkno + 1, found', removed')
  {
    SweepSoFarNext(words, before, pages, dead, blkno, found, removed);
    var p, n := VacuumOnePage(words, pages[blkno], dead);
    pages' := pages[blkno := p];
    found' := if HasRoom(words, p) && |found| < META_BLOCKS then found + [blkno] else found;
    removed' := removed + n;
  }

  /** The page loop of `blbulkdelete`. */
  method VacuumPages(words: int, before: seq<Page>, dead: set<Tid>) returns (pages: seq<Page>, found: seq<nat>, removed: nat)
    requires 1 <= words <= 256 && FileOk(words, before)
    ensures SweepSoFar(words, before, pages, dead, |before|, found, removed)
    ensures ListsRoom(words, pages, found)
  {
    pages, found, removed := before, [], 0;
    SweepSoFarStart(words, before, dead);
    for blkno := 1 to |before|
      invariant SweepSoFar(words, before, pages, dead, blkno, found, removed)
    {
      SweptSame(words, before, pages, dead, blkno, found, removed);
      pages, found, removed := VacuumBlock(words, before, pages, dead, blkno, found, removed);
    }
    RoomListLists(words, pages);
  }

  lemma {:induction false} SweptSame(words: int, before: seq<Page>, pages: seq<Page>, dead: set<Tid>, n: nat,
                                     found: seq<nat>, removed: nat)
    requires SweepSoFar(words, before, pages, dead, n, found, removed) && n < |before| && FileOk(words, before)
    ensures |pages| == |before| && PageOk(words, pages[n])
  {
    assert pages[n] == before[n];
  }

  // ----- The index -----

  class BloomIndex {
    const words: int
    var pages: seq<Page>
    var nStart: nat
    var notFull: seq<nat>
    ghost var model: State

    /** What the code relies on when it reads pages and metapage. */
    ghost predicate Storage()
      reads this
    {
      && 1 <= words <= 256 && FileOk(words, pages)
      && nStart <= |notFull| && BlockListOk(notFull, |pages|)
    }

    /** The index is what the protocol state says, and nobody holds the metapage. */
    ghost predicate Valid()
      reads this
    {
      && Inv(model) && model.words == words && model.pages == pages
      && model.meta == Meta(nStart, notFull) && model.lock == None
    }

    /** `blbuild`. */
    constructor Build(words: int, tuples: seq<BloomTuple>)
      requires 1 <= words <= 256
      requires forall i | 0 <= i < |tuples| :: |tuples[i].sign| == words
      ensures Valid() && this.words == words
      ensures Stored(pages) == tuples && Contents(pages) == multiset(tuples)
      ensures model == Init(words).(pages := pages, acked := multiset(tuples))
    {
      this.words := words;
      var file := BuildPages(words, tuples);
      StoredIsContents(file);
      pages, nStart, notFull := file, 0, [];
      model := Init(words).(pages := file, acked := multiset(tuples));
    }

    /** `blinsert`, undisturbed: `free` is what the free space map offers. */
    method Insert(t: BloomTuple, free: seq<nat>, ghost pid: Pid) returns (ghost run: seq<Action>)
      requires Valid() && |t.sign| == words && pid !in model.procs
      modifies this
      ensures Valid()
      ensures InsertedAt(words, old(pages), old(notFull), old(nStart), t, pages, Meta(nStart, notFull))
      ensures Legal(old(model), run) && After(old(model), run) == model
      ensures model.acked == old(model.acked) + multiset{t} && model.vacuumed == old(model.vacuumed)
    {
      ghost var s := model;
      InsertPages(t, free);
      run := InsertRun(s, pid, t, pages, Meta(nStart, notFull));
      RunInvariant(s, run);
      model := After(s, run);
    }

    /**
    The two phases of `blinsert`: try the first listed page without the metapage lock, then the
    other listed pages under it, then a recycled or new page.
     */
    method InsertPages(t: BloomTuple, free: seq<nat>)
      requires Storage() && |t.sign| == words
      modifies this`pages, this`nStart, this`notFull
      ensures InsertedAt(words, old(pages), old(notFull), old(nStart), t, pages, Meta(nStart, notFull))
    {
      var tried: Option<nat> := None;
      if nStart < |notFull| {
        var blkno := notFull[nStart];
        var r := TryPage(words, pages[blkno], t);
        if r.Some? {
          pages := pages[blkno := r.value];
          return;
        }
        tried := Some(blkno);
      }
      var at := nStart;
      if at < |notFull| && tried == Some(notFull[at]) {
        at := at + 1;
      }
      var done := InsertListed(t, at);
      if !done {
        InsertNew(t, free);
      }
    }

    /** The loop of `blinsert` over the listed pages. */
    method InsertListed(t: BloomTuple, first: nat) returns (done: bool)
      requires Storage()
      modifies this`pages, this`nStart
      ensures done == (FirstWithRoom(words, old(pages), notFull, first, t) < |notFull|)
      ensures done ==> InsertedAt(words, old(pages), notFull, first, t, pages, Meta(nStart, notFull))
      ensures !done ==> pages == old(pages) && nStart == old(nStart)
    {
      var at := first;
      while at < |notFull|
        invariant pages == old(pages) && nStart == old(nStart)
        invariant FirstWithRoom(words, pages, notFull, first, t) == FirstWithRoom(words, pages, notFull, at, t)
      {
        var blkno := notFull[at];
        var r := TryPage(words, pages[blkno], t);
        if r.Some? {
          pages, nStart := pages[blkno := r.value], at;
          return true;
        }
        at := at + 1;
      }
      return false;
    }

    /** The fallback of `blinsert`: no listed page has room. */
    method InsertNew(t: BloomTuple, free: seq<nat>)
      requires Storage() && |t.sign| == words
      modifies this`pages, this`nStart, this`notFull
      ensures nStart == 0 && |notFull| == 1 && 1 <= notFull[0] <= |old(pages)|
      ensures notFull[0] < |old(pages)| ==> Unused(old(pages)[notFull[0]])
      ensures pages == StorePage(old(pages), notFull[0], Data([t], false))
    {
      var blkno := NewBlock(free);
      UnusedPageHasRoom(words, New, t);
      var page := AddItem(words, InitPage(), t);
      pages := StorePage(pages, blkno, page.value);
      nStart, notFull := 0, [blkno];
    }

    /** `BloomNewBuffer`: the first offered block that is unused, or else the end of the file. */
    method NewBlock(free: seq<nat>) returns (blkno: nat)
      requires 1 <= |pages|
      ensures 1 <= blkno <= |pages|
      ensures blkno < |pages| ==> Unused(pages[blkno]) && blkno in free
      ensures blkno == |pages| ==> forall i | 0 <= i < |free| && 1 <= free[i] < |pages| :: !Unused(pages[free[i]])
    {
      for i := 0 to |free|
        invariant forall k | 0 <= k < i && 1 <= free[k] < |pages| :: !Unused(pages[free[k]])
      {
        if 1 <= free[i] < |pages| && (pages[free[i]].New? || pages[free[i]].deleted) {
          return free[i];
        }
      }
      return |pages|;
    }

    /** `blbulkdelete`, undisturbed. */
    method BulkDelete(dead: set<Tid>, ghost pid: Pid) returns (removed: nat, ghost run: seq<Action>)
      requires Valid() && pid !in model.procs
      modifies this
      ensures Valid()
      ensures pages == SweptPages(old(pages), dead, |pages|)
      ensures nStart == 0 && notFull == RoomList(words, pages, |pages|)
      ensures ListsRoom(words, pages, notFull)
      ensures removed == |RemovedUpTo(old(pages), dead, |pages|)|
      ensures Legal(old(model), run) && After(old(model), run) == model
      ensures model.acked == old(model.acked)
      ensures model.vacuumed == old(model.vacuumed) + RemovedUpTo(old(pages), dead, |pages|)
    {
      ghost var s := model;
      removed := SweepPages(dead);
      run := BulkDeleteRun(s, pid, dead);
      RunInvariant(s, run);
      model := After(s, run);
    }

    /** All pages of `blbulkdelete`, and its update of the metapage. */
    method SweepPages(dead: set<Tid>) returns (removed: nat)
      requires Storage()
      modifies this`pages, this`nStart, this`notFull
      ensures pages == SweptPages(old(pages), dead, |pages|)
      ensures nStart == 0 && notFull == RoomList(words, pages, |pages|)
      ensures ListsRoom(words, pages, notFull)
      ensures removed == |RemovedUpTo(old(pages), dead, |pages|)|
    {
      var found;
      pages, found, removed := VacuumPages(words, pages, dead);
      nStart, notFull := 0, found;
    }

    /**
    `blgetbitmap` of a new scan, undisturbed: nothing for a null key, and otherwise the tuples that
    pass the test with the search signature, every row that satisfies the keys among them.
     */
    method GetBitmap(gen: Generator, opts: SignOptions, keys: seq<ScanKey>, ghost pid: Pid)
      returns (r: ScanResult, ghost run: seq<Action>)
      requires Valid() && opts.Valid() && opts.words == words && pid !in model.procs
      modifies gen
      ensures r.Bitmap? <==> GoodBefore(opts, keys, |keys|)
      ensures r.NullKeyResult? <==> exists k | 0 <= k < |keys| :: GoodBefore(opts, keys, k) && keys[k].arg.None?
      ensures r.Bitmap? ==>
                && |r.sign| == words && Fits(r.sign) && Bits(r.sign) == KeyBits(opts, keys, |keys|)
                && r.tids == MatchesUpTo(pages, r.sign, |pages|) && r.ntids == |r.tids|
      ensures r.Bitmap? ==> forall b, t, values
                | 1 <= b < |pages| && t in Live(pages[b]) && IsRow(opts, t, values) && RowMatches(values, keys)
                :: t.heapPtr in r.tids
      ensures r.Bitmap? ==>
                && Legal(model, run)
                && After(model, run).procs == model.procs[pid := Scanning(r.sign, |pages|, |pages|, r.tids)]
    {
      run := [];
      var signed := FormScanSignature(gen, opts, keys);
      if signed.NullKey? {
        return NullKeyResult, run;
      }
      if signed.Undefined? {
        return UndefinedShift, run;
      }
      var tids, ntids := ScanPages(words, pages, signed.sign);
      run := GetBitmapRun(model, pid, signed.sign);
      r := Bitmap(signed.sign, tids, ntids);
      RowsFound(opts, keys, signed.sign, pages);
    }
  }

  /** What becomes of a scan; the search signature is kept for a rescan. */
  datatype ScanResult = NullKeyResult | UndefinedShift | Bitmap(sign: Signature, tids: seq<Tid>, ntids: nat)

  lemma {:induction false} RowsFound(opts: SignOptions, keys: seq<ScanKey>, query: Signature, pages: seq<Page>)
    requires opts.Valid() && |query| == opts.words && Fits(query) && Bits(query) == KeyBits(opts, keys, |keys|)
    ensures forall b, t, values
              | 1 <= b < |pages| && t in Live(pages[b]) && IsRow(opts, t, values) && RowMatches(values, keys)
              :: t.heapPtr in MatchesUpTo(pages, query, |pages|)
  {
    forall b, t, values | 1 <= b < |pages| && t in Live(pages[b]) && IsRow(opts, t, values) && RowMatches(values, keys)
      ensures t.heapPtr in MatchesUpTo(pages, query, |pages|)
    {
      MatchingRowFound(pages, opts, keys, query, b, t, values);
    }
  }
}
