/**
Concurrent use of a bloom index (contrib/bloom/blinsert.c, blvacuum.c and blscan.c).

Every process works in atomic steps: it locks one page (and, in the second phase of an
insertion, also the metapage), changes it, and unlocks it. Any number of insertions, bulk
deletions and scans interleave in any order. A run is a sequence of actions; the theorems
below hold for every run.
 */
module BloomProtocol {
  import opened Options
  import opened BloomSignature
  import opened BloomPage

  type Pid = int

  /** The metapage's list of pages with room: the entries below nEnd, of which those from nStart count. */
  datatype Meta = Meta(nStart: nat, notFull: seq<nat>)

  /** Where a process stands between two of its steps. */
  datatype Process =
    | Inserting(t: BloomTuple)
    | TryingFirst(t: BloomTuple, blkno: nat)
    | Waiting(t: BloomTuple, tried: Option<nat>)
    | Walking(t: BloomTuple, at: nat)
    | Inserted
    | Vacuuming(dead: set<Tid>, npages: nat, blkno: nat, found: seq<nat>)
    | Vacuumed
    | Scanning(query: Signature, npages: nat, blkno: nat, tids: seq<Tid>)

  /**
  Block 0 is the metapage; `pages[0]` stands in for it and is never touched. `lock` is the
  holder of the exclusive metapage lock. `acked` collects the tuples whose insertion
  returned, `vacuumed` those a bulk deletion was told to delete and did.
   */
  datatype State = State(
    words: int,
    pages: seq<Page>,
    meta: Meta,
    lock: Option<Pid>,
    procs: map<Pid, Process>,
    acked: multiset<BloomTuple>,
    vacuumed: multiset<BloomTuple>)

  datatype Action =
    | BeginInsert(pid: Pid, t: BloomTuple)
    | ReadMeta(pid: Pid)
    | TryFirst(pid: Pid)
    | LockMeta(pid: Pid)
    | TryNext(pid: Pid)
    | Allocate(pid: Pid, blkno: nat)
    | BeginVacuum(pid: Pid, dead: set<Tid>)
    | VacuumPage(pid: Pid)
    | WriteMeta(pid: Pid)
    | BeginScan(pid: Pid, query: Signature)
    | ScanPage(pid: Pid)
    | ExtendFile

  /** The state `blbuildempty` leaves: a metapage and nothing else. */
  function Init(words: int): State {
    State(words, [New], Meta(0, []), None, map[], multiset{}, multiset{})
  }

  // ----- Steps -----

  ghost predicate Enabled(s: State, a: Action) {
    match a
    case BeginInsert(pid, t) => pid !in s.procs && |t.sign| == s.words
    case ReadMeta(pid) => pid in s.procs && s.procs[pid].Inserting? && s.lock.None?
    case TryFirst(pid) => pid in s.procs && s.procs[pid].TryingFirst? && s.procs[pid].blkno < |s.pages|
    case LockMeta(pid) => pid in s.procs && s.procs[pid].Waiting? && s.lock.None?
    case TryNext(pid) =>
      && pid in s.procs && s.procs[pid].Walking? && s.procs[pid].at < |s.meta.notFull|
      && s.meta.notFull[s.procs[pid].at] < |s.pages|
    case Allocate(pid, blkno) =>
      && pid in s.procs && s.procs[pid].Walking? && s.procs[pid].at >= |s.meta.notFull|
      && (blkno == |s.pages| || (1 <= blkno < |s.pages| && Unused(s.pages[blkno])))
    case BeginVacuum(pid, dead) => pid !in s.procs
    case VacuumPage(pid) =>
      pid in s.procs && s.procs[pid].Vacuuming? && s.procs[pid].blkno < s.procs[pid].npages <= |s.pages|
    case WriteMeta(pid) =>
      pid in s.procs && s.procs[pid].Vacuuming? && s.procs[pid].blkno >= s.procs[pid].npages && s.lock.None?
    case BeginScan(pid, query) => pid !in s.procs && |query| == s.words
    case ScanPage(pid) =>
      && pid in s.procs && s.procs[pid].Scanning?
      && s.procs[pid].blkno < s.procs[pid].npages <= |s.pages|
    case ExtendFile => true
  }

  /** A page that `BloomNewBuffer` may recycle. */
  predicate Unused(p: Page) {
    p.New? || p.deleted
  }

  /** First look at the metapage, under a share lock: note the first listed page, if any. */
  ghost function ReadMetaStep(s: State, pid: Pid, t: BloomTuple): State {
    if s.meta.nStart < |s.meta.notFull|
    then s.(procs := s.procs[pid := TryingFirst(t, s.meta.notFull[s.meta.nStart])])
    else s.(procs := s.procs[pid := Waiting(t, None)])
  }

  /** Try the page noted, holding no other lock. */
  ghost function TryFirstStep(s: State, pid: Pid, t: BloomTuple, blkno: nat): State
    requires blkno < |s.pages|
  {
    var r := InsertOnPage(s.words, s.pages[blkno], t);
    if r.Some? then Acknowledge(s.(pages := s.pages[blkno := r.value]), pid, t)
    else s.(procs := s.procs[pid := Waiting(t, Some(blkno))])
  }

  /** Take the metapage exclusively; skip the first listed page if it was just tried. */
  ghost function LockMetaStep(s: State, pid: Pid, t: BloomTuple, tried: Option<nat>): State {
    var nStart := s.meta.nStart;
    var skip := nStart < |s.meta.notFull| && tried == Some(s.meta.notFull[nStart]);
    s.(lock := Some(pid), procs := s.procs[pid := Walking(t, if skip then nStart + 1 else nStart)])
  }

  /** Try one more listed page; success stores the new nStart and releases the metapage. */
  ghost function TryNextStep(s: State, pid: Pid, t: BloomTuple, at: nat): State
    requires at < |s.meta.notFull| && s.meta.notFull[at] < |s.pages|
  {
    var blkno := s.meta.notFull[at];
    var r := InsertOnPage(s.words, s.pages[blkno], t);
    if r.Some?
    then Acknowledge(s.(pages := s.pages[blkno := r.value], meta := s.meta.(nStart := at), lock := None), pid, t)
    else s.(procs := s.procs[pid := Walking(t, at + 1)])
  }

  /** The list is exhausted: initialise a recycled or new page and list it alone. */
  ghost function AllocateStep(s: State, pid: Pid, t: BloomTuple, blkno: nat): State
    requires blkno <= |s.pages|
  {
    var r := AddItem(s.words, InitPage(), t);
    if r.None? then s // "could not add new bloom tuple to empty page"
    else
      var pages := if blkno == |s.pages| then s.pages + [r.value] else s.pages[blkno := r.value];
      Acknowledge(s.(pages := pages, meta := Meta(0, [blkno]), lock := None), pid, t)
  }

  /** Bulk deletion visits one page. */
  ghost function VacuumPageStep(s: State, pid: Pid, v: Process): State
    requires v.Vacuuming? && v.blkno < |s.pages|
  {
    var p := VacuumedPage(s.pages[v.blkno], v.dead);
    var found := if HasRoom(s.words, p) && |v.found| < META_BLOCKS then v.found + [v.blkno] else v.found;
    s.(pages := s.pages[v.blkno := p],
       procs := s.procs[pid := v.(blkno := v.blkno + 1, found := found)],
       vacuumed := s.vacuumed + Removed(Live(s.pages[v.blkno]), v.dead))
  }

  /** A scan visits one page. */
  ghost function ScanPageStep(s: State, pid: Pid, v: Process): State
    requires v.Scanning? && v.blkno < |s.pages|
  {
    var found := MatchingTids(Live(s.pages[v.blkno]), v.query);
    s.(procs := s.procs[pid := v.(blkno := v.blkno + 1, tids := v.tids + found)])
  }

  ghost function Apply(s: State, a: Action): State
    requires Enabled(s, a)
  {
    match a
    case BeginInsert(pid, t) => s.(procs := s.procs[pid := Inserting(t)])
    case ReadMeta(pid) => ReadMetaStep(s, pid, s.procs[pid].t)
    case TryFirst(pid) => TryFirstStep(s, pid, s.procs[pid].t, s.procs[pid].blkno)
    case LockMeta(pid) => LockMetaStep(s, pid, s.procs[pid].t, s.procs[pid].tried)
    case TryNext(pid) => TryNextStep(s, pid, s.procs[pid].t, s.procs[pid].at)
    case Allocate(pid, blkno) => AllocateStep(s, pid, s.procs[pid].t, blkno)
    case BeginVacuum(pid, dead) => s.(procs := s.procs[pid := Vacuuming(dead, |s.pages|, 1, [])])
    case VacuumPage(pid) => VacuumPageStep(s, pid, s.procs[pid])
    case WriteMeta(pid) => s.(meta := Meta(0, s.procs[pid].found), procs := s.procs[pid := Vacuumed])
    case BeginScan(pid, query) => s.(procs := s.procs[pid := Scanning(query, |s.pages|, 1, [])])
    case ScanPage(pid) => ScanPageStep(s, pid, s.procs[pid])
    case ExtendFile => s.(pages := s.pages + [New])
  }

  /** The insertion of t returns to its caller. */
  ghost function Acknowledge(s: State, pid: Pid, t: BloomTuple): State {
    s.(procs := s.procs[pid := Inserted], acked := s.acked + multiset{t})
  }

  /** The heap pointers of the tuples that pass the signature test, in page order. */
  function MatchingTids(items: seq<BloomTuple>, query: Signature): seq<Tid> {
    if items == [] then []
    else
      var rest := MatchingTids(items[..|items| - 1], query);
      var last := items[|items| - 1];
      if |last.sign| == |query| && Matches(last.sign, query) then rest + [last.heapPtr] else rest
  }

  // ----- Runs -----

  /** Each action is possible in the state its predecessors lead to. */
  ghost predicate Legal(s: State, run: seq<Action>)
    decreases |run|
  {
    run == [] || (Enabled(s, run[0]) && Legal(Apply(s, run[0]), run[1..]))
  }

  ghost function After(s: State, run: seq<Action>): State
    requires Legal(s, run)
    decreases |run|
  {
    if run == [] then s else After(Apply(s, run[0]), run[1..])
  }

  // ----- The invariant -----

  /** Everything scans can see, over all pages. */
  ghost function Contents(pages: seq<Page>): multiset<BloomTuple> {
    if pages == [] then multiset{}
    else Contents(pages[..|pages| - 1]) + multiset(Live(pages[|pages| - 1]))
  }

  ghost predicate BlockListOk(blocks: seq<nat>, npages: int) {
    |blocks| <= META_BLOCKS && forall i | 0 <= i < |blocks| :: 1 <= blocks[i] < npages
  }

  ghost predicate ProcessOk(s: State, pid: Pid)
    requires pid in s.procs
  {
    match s.procs[pid]
    case Inserting(t) => |t.sign| == s.words
    case TryingFirst(t, blkno) => |t.sign| == s.words && 1 <= blkno < |s.pages|
    case Waiting(t, _) => |t.sign| == s.words
    case Walking(t, at) => |t.sign| == s.words && s.lock == Some(pid)
    case Inserted => true
    case Vacuuming(_, npages, blkno, found) =>
      1 <= blkno <= npages <= |s.pages| && BlockListOk(found, npages)
    case Vacuumed => true
    case Scanning(query, npages, blkno, _) => 1 <= blkno <= npages <= |s.pages| && |query| == s.words
  }

  /** What holds in every reachable state, apart from the accounting of tuples. */
  ghost predicate WellFormed(s: State) {
    && 1 <= s.words <= 256
    && 1 <= |s.pages| && s.pages[0] == New
    && (forall b | 0 <= b < |s.pages| :: PageOk(s.words, s.pages[b]))
    && s.meta.nStart <= |s.meta.notFull| && BlockListOk(s.meta.notFull, |s.pages|)
    && (forall pid | pid in s.procs :: ProcessOk(s, pid))
    && (s.lock.Some? ==> s.lock.value in s.procs && s.procs[s.lock.value].Walking?)
  }

  /** No tuple is lost or invented: what scans see is what was inserted less what was vacuumed. */
  ghost predicate Conserved(s: State) {
    Contents(s.pages) + s.vacuumed == s.acked
  }

  ghost predicate Inv(s: State) {
    WellFormed(s) && Conserved(s)
  }

  // Arithmetic of multisets: c is an index's contents, c' its contents after one page changed
  // from p to p'.

  type Tuples = multiset<BloomTuple>

  lemma AddBoth(c: Tuples, c': Tuples, p: Tuples, p': Tuples, x: Tuples)
    requires c' + p == c + p'
    ensures (c' + x) + p == (c + x) + p'
  {
    forall t: BloomTuple
      ensures ((c' + x) + p)[t] == ((c + x) + p')[t]
    {
      assert (c' + p)[t] == (c + p')[t];
    }
  }

  lemma PageGrew(c: Tuples, c': Tuples, p: Tuples, added: Tuples, gone: Tuples, total: Tuples)
    requires c' + p == c + (p + added) && c + gone == total
    ensures c' + gone == total + added
  {
    forall t: BloomTuple
      ensures (c' + gone)[t] == (total + added)[t]
    {
      assert (c' + p)[t] == (c + (p + added))[t];
    }
  }

  lemma PageShrank(c: Tuples, c': Tuples, p': Tuples, removed: Tuples, gone: Tuples, total: Tuples)
    requires c' + (p' + removed) == c + p' && c + gone == total
    ensures c' + (gone + removed) == total
  {
    forall t: BloomTuple
      ensures (c' + (gone + removed))[t] == total[t]
    {
      assert (c' + (p' + removed))[t] == (c + p')[t];
      assert total[t] == (c + gone)[t];
    }
  }

  lemma {:induction false} ContentsUpdate(pages: seq<Page>, b: nat, p: Page)
    requires b < |pages|
    ensures Contents(pages[b := p]) + multiset(Live(pages[b])) == Contents(pages) + multiset(Live(p))
  {
    var n := |pages| - 1;
    var pages' := pages[b := p];
    var c, c' := Contents(pages[..n]), Contents(pages'[..n]);
    if b == n {
      assert pages'[..n] == pages[..n];
      assert Contents(pages') == c + multiset(Live(p));
      AddBoth(c, c, multiset{}, multiset{}, multiset(Live(p)) + multiset(Live(pages[n])));
    } else {
      assert pages'[..n] == pages[..n][b := p];
      ContentsUpdate(pages[..n], b, p);
      AddBoth(c, c', multiset(Live(pages[b])), multiset(Live(p)), multiset(Live(pages[n])));
    }
  }

  lemma ContentsExtend(pages: seq<Page>, p: Page)
    ensures Contents(pages + [p]) == Contents(pages) + multiset(Live(p))
  {
  }

  /** A step of one process disturbs no other process, as long as it does not take a lock away. */
  lemma OthersUndisturbed(s: State, s': State, pid: Pid, q: Process)
    requires WellFormed(s)
    requires s'.words == s.words && |s'.pages| >= |s.pages| && s'.procs == s.procs[pid := q]
    requires s'.lock == s.lock || s.lock.None? || s.lock == Some(pid)
    requires ProcessOk(s', pid)
    ensures forall other | other in s'.procs :: ProcessOk(s', other)
  {
  }

  /** Storing a page keeps all pages in order. */
  lemma PagesOkUpdate(words: int, pages: seq<Page>, blkno: nat, p: Page)
    requires 1 <= blkno <= |pages| && pages[0] == New && PageOk(words, p)
    requires forall b | 0 <= b < |pages| :: PageOk(words, pages[b])
    ensures var pages' := if blkno == |pages| then pages + [p] else pages[blkno := p];
            pages'[0] == New && forall b | 0 <= b < |pages'| :: PageOk(words, pages'[b])
  {
  }

  lemma TryFirstKeeps(s: State, pid: Pid, t: BloomTuple, blkno: nat)
    requires Inv(s) && pid in s.procs && s.procs[pid] == TryingFirst(t, blkno)
    requires blkno < |s.pages|
    ensures Inv(TryFirstStep(s, pid, t, blkno))
  {
    assert ProcessOk(s, pid);
    var s' := TryFirstStep(s, pid, t, blkno);
    OthersUndisturbed(s, s', pid, s'.procs[pid]);
    InsertKeeps(s, blkno, t);
  }

  lemma TryNextKeeps(s: State, pid: Pid, t: BloomTuple, at: nat)
    requires Inv(s) && pid in s.procs && s.procs[pid] == Walking(t, at)
    requires at < |s.meta.notFull| && s.meta.notFull[at] < |s.pages|
    ensures Inv(TryNextStep(s, pid, t, at))
  {
    assert ProcessOk(s, pid);
    var s' := TryNextStep(s, pid, t, at);
    OthersUndisturbed(s, s', pid, s'.procs[pid]);
    InsertKeeps(s, s.meta.notFull[at], t);
  }

  lemma InsertKeeps(s: State, blkno: nat, t: BloomTuple)
    requires Inv(s) && 1 <= blkno < |s.pages| && |t.sign| == s.words
    ensures var r := InsertOnPage(s.words, s.pages[blkno], t);
            r.Some? ==>
              var pages := s.pages[blkno := r.value];
              && Contents(pages) + s.vacuumed == s.acked + multiset{t}
              && pages[0] == New
              && forall b | 0 <= b < |pages| :: PageOk(s.words, pages[b])
  {
    var p := s.pages[blkno];
    var r := InsertOnPage(s.words, p, t);
    if r.Some? {
      InsertOnPageAdds(s.words, p, t);
      PagesOkUpdate(s.words, s.pages, blkno, r.value);
      ContentsUpdate(s.pages, blkno, r.value);
      assert multiset(Live(r.value)) == multiset(Live(p)) + multiset{t};
      PageGrew(Contents(s.pages), Contents(s.pages[blkno := r.value]), multiset(Live(p)), multiset{t},
               s.vacuumed, s.acked);
    }
  }

  lemma FreshPageConserved(s: State, blkno: nat, t: BloomTuple)
    requires Inv(s)
    requires blkno <= |s.pages| && (blkno < |s.pages| ==> Unused(s.pages[blkno]))
    ensures var p := Data([t], false);
            var pages := if blkno == |s.pages| then s.pages + [p] else s.pages[blkno := p];
            Contents(pages) + s.vacuumed == s.acked + multiset{t}
  {
    var p := Data([t], false);
    var none: Tuples := multiset{};
    assert multiset(Live(p)) == none + multiset{t};
    if blkno == |s.pages| {
      ContentsExtend(s.pages, p);
      PageGrew(Contents(s.pages), Contents(s.pages + [p]), none, multiset{t}, s.vacuumed, s.acked);
    } else {
      ContentsUpdate(s.pages, blkno, p);
      assert PageOk(s.words, s.pages[blkno]);
      assert multiset(Live(s.pages[blkno])) == none;
      PageGrew(Contents(s.pages), Contents(s.pages[blkno := p]), none, multiset{t}, s.vacuumed, s.acked);
    }
  }

  /** Recycling a page loses nothing, because a page marked deleted holds no tuples. */
  lemma AllocateKeeps(s: State, pid: Pid, t: BloomTuple, blkno: nat)
    requires Inv(s) && pid in s.procs && s.procs[pid].Walking? && s.procs[pid].t == t
    requires 1 <= blkno <= |s.pages| && (blkno < |s.pages| ==> Unused(s.pages[blkno]))
    ensures Inv(AllocateStep(s, pid, t, blkno))
    ensures AllocateStep(s, pid, t, blkno).acked == s.acked + multiset{t}
  {
    assert ProcessOk(s, pid);
    var s' := AllocateStep(s, pid, t, blkno);
    UnusedPageHasRoom(s.words, New, t);
    InsertOnPageAdds(s.words, New, t);
    PagesOkUpdate(s.words, s.pages, blkno, Data([t], false));
    OthersUndisturbed(s, s', pid, Inserted);
    FreshPageConserved(s, blkno, t);
  }

  /** What one page step of bulk deletion leaves conserves the tuples. */
  lemma {:induction false} VacuumConserves(s: State, blkno: nat, dead: set<Tid>)
    requires Inv(s) && blkno < |s.pages|
    ensures var p := s.pages[blkno];
            Contents(s.pages[blkno := VacuumedPage(p, dead)]) + (s.vacuumed + Removed(Live(p), dead)) == s.acked
  {
    var p := s.pages[blkno];
    var p' := VacuumedPage(p, dead);
    VacuumedPageLive(p, dead);
    KeptAndRemoved(Live(p), dead);
    ContentsUpdate(s.pages, blkno, p');
    PageShrank(Contents(s.pages), Contents(s.pages[blkno := p']), multiset(Live(p')), Removed(Live(p), dead),
               s.vacuumed, s.acked);
  }

  lemma {:induction false} VacuumPageKeeps(s: State, pid: Pid)
    requires Inv(s) && pid in s.procs && s.procs[pid].Vacuuming?
    requires s.procs[pid].blkno < s.procs[pid].npages
    ensures s.procs[pid].blkno < |s.pages| && Inv(VacuumPageStep(s, pid, s.procs[pid]))
  {
    assert ProcessOk(s, pid);
    var v := s.procs[pid];
    var s' := VacuumPageStep(s, pid, v);
    VacuumedPageOk(s.words, s.pages[v.blkno], v.dead);
    PagesOkUpdate(s.words, s.pages, v.blkno, s'.pages[v.blkno]);
    VacuumConserves(s, v.blkno, v.dead);
    OthersUndisturbed(s, s', pid, s'.procs[pid]);
  }

  lemma {:induction false} BeginKeeps(s: State, a: Action)
    requires Inv(s) && Enabled(s, a) && (a.BeginInsert? || a.BeginVacuum? || a.BeginScan?)
    ensures Inv(Apply(s, a))
  {
    var s' := Apply(s, a);
    OthersUndisturbed(s, s', a.pid, s'.procs[a.pid]);
  }

  /** Other steps that change no data page. */
  lemma {:induction false} OtherStepsKeep(s: State, a: Action)
    requires Inv(s) && Enabled(s, a) && (a.ReadMeta? || a.LockMeta? || a.WriteMeta? || a.ScanPage?)
    ensures Inv(Apply(s, a))
  {
    var s' := Apply(s, a);
    assert ProcessOk(s, a.pid);
    OthersUndisturbed(s, s', a.pid, s'.procs[a.pid]);
  }

  /** Every step keeps the invariant. */
  lemma StepKeeps(s: State, a: Action)
    requires Inv(s) && Enabled(s, a)
    ensures Inv(Apply(s, a))
  {
    match a
    case TryFirst(pid) => TryFirstKeeps(s, pid, s.procs[pid].t, s.procs[pid].blkno);
    case TryNext(pid) => TryNextKeeps(s, pid, s.procs[pid].t, s.procs[pid].at);
    case Allocate(pid, blkno) => AllocateKeeps(s, pid, s.procs[pid].t, blkno);
    case VacuumPage(pid) => VacuumPageKeeps(s, pid);
    case ExtendFile => ExtendKeeps(s);
    case BeginInsert(_, _) => BeginKeeps(s, a);
    case BeginVacuum(_, _) => BeginKeeps(s, a);
    case BeginScan(_, _) => BeginKeeps(s, a);
    case _ => OtherStepsKeep(s, a);
  }

  lemma ExtendKeeps(s: State)
    requires Inv(s)
    ensures Inv(s.(pages := s.pages + [New]))
  {
  }

  /** The invariant holds after every run from a state that has it. */
  lemma {:induction false} RunInvariant(s: State, run: seq<Action>)
    requires Inv(s) && Legal(s, run)
    ensures Inv(After(s, run))
    decreases |run|
  {
    if run != [] {
      StepKeeps(s, run[0]);
      RunInvariant(Apply(s, run[0]), run[1..]);
    }
  }

  /**
  Whatever the interleaving, the tuples on pages in use are exactly those inserted and not
  vacuumed, and the metapage lists only existing data pages.
   */
  lemma NoTupleLost(words: int, run: seq<Action>)
    requires 1 <= words <= 256 && Legal(Init(words), run)
    ensures var s := After(Init(words), run);
            && s.vacuumed <= s.acked
            && Contents(s.pages) == s.acked - s.vacuumed
            && s.meta.nStart <= |s.meta.notFull| && BlockListOk(s.meta.notFull, |s.pages|)
            && forall b | 0 <= b < |s.pages| && s.pages[b].Data? ::
                 var p := s.pages[b];
                 && PAGE_HEADER + |p.items| * TupleSize(s.words) + PAGE_OPAQUE <= BLCKSZ
                 && (p.deleted ==> p.items == [])
                 && forall i | 0 <= i < |p.items| :: |p.items[i].sign| == s.words
  {
    assert Contents([New]) == multiset{} by {
      assert Contents([New][..0]) == multiset{};
    }
    RunInvariant(Init(words), run);
    var s := After(Init(words), run);
    assert forall b | 0 <= b < |s.pages| :: PageOk(s.words, s.pages[b]);
  }

  /** The process has nothing left to do. */
  ghost predicate Finished(p: Process) {
    p.Inserted? || p.Vacuumed? || (p.Scanning? && p.blkno >= p.npages)
  }
}
