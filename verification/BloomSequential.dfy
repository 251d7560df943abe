/**
What an insertion, a bulk deletion and a scan do when nothing else runs (contrib/bloom/blinsert.c,
blvacuum.c and blscan.c), as functions of the whole index, and why each of them is a run of the
concurrent protocol.
 */
module BloomSequential {
  import opened Options
  import opened BloomSignature
  import opened BloomPage
  import opened BloomProtocol

  // ----- Insertion -----

  /** The position of the first listed page, from `at` on, that takes the tuple. */
  function FirstWithRoom(words: int, pages: seq<Page>, notFull: seq<nat>, at: nat, t: BloomTuple): nat
    decreases |notFull| - at
  {
    if at >= |notFull| then |notFull|
    else if notFull[at] < |pages| && InsertOnPage(words, pages[notFull[at]], t).Some? then at
    else FirstWithRoom(words, pages, notFull, at + 1, t)
  }

  /** No listed page before that position takes the tuple, and the one there does. */
  lemma {:induction false} FirstWithRoomIs(words: int, pages: seq<Page>, notFull: seq<nat>, at: nat, t: BloomTuple)
    requires BlockListOk(notFull, |pages|)
    ensures var k := FirstWithRoom(words, pages, notFull, at, t);
            && k <= |notFull|
            && (forall i | at <= i < k :: InsertOnPage(words, pages[notFull[i]], t).None?)
            && (k < |notFull| ==> at <= k && InsertOnPage(words, pages[notFull[k]], t).Some?)
    decreases |notFull| - at
  {
    if at < |notFull| {
      FirstWithRoomIs(words, pages, notFull, at + 1, t);
    }
  }

  /** The pages once a page was stored in place of another or at the end. */
  function StorePage(pages: seq<Page>, blkno: nat, p: Page): seq<Page> {
    if blkno < |pages| then pages[blkno := p] else pages + [p]
  }

  /**
  What an insertion does to pages and metapage: the first listed page that takes the tuple gets it
  and becomes the first of the list, or else an unused or new page does and is listed alone.
   */
  ghost predicate InsertedAt(words: int, pages: seq<Page>, notFull: seq<nat>, at: nat, t: BloomTuple,
                             pages': seq<Page>, meta': Meta)
  {
    var k := FirstWithRoom(words, pages, notFull, at, t);
    if k < |notFull| then
      && notFull[k] < |pages| && InsertOnPage(words, pages[notFull[k]], t).Some?
      && pages' == pages[notFull[k] := InsertOnPage(words, pages[notFull[k]], t).value]
      && meta' == Meta(k, notFull)
    else
      && meta'.nStart == 0 && |meta'.notFull| == 1 && 1 <= meta'.notFull[0] <= |pages|
      && (meta'.notFull[0] < |pages| ==> Unused(pages[meta'.notFull[0]]))
      && pages' == StorePage(pages, meta'.notFull[0], Data([t], false))
  }

  /** The state after an insertion. */
  ghost function DoneInserting(s: State, pid: Pid, t: BloomTuple, pages': seq<Page>, meta': Meta): State {
    s.(pages := pages', meta := meta', lock := None, procs := s.procs[pid := Inserted], acked := s.acked + multiset{t})
  }

  ghost predicate StorageOk(s: State) {
    1 <= s.words <= 256 && 1 <= |s.pages| && s.meta.nStart <= |s.meta.notFull| && BlockListOk(s.meta.notFull, |s.pages|)
  }

  lemma RunCons(s: State, a: Action, rest: seq<Action>)
    requires Enabled(s, a) && Legal(Apply(s, a), rest)
    ensures Legal(s, [a] + rest) && After(s, [a] + rest) == After(Apply(s, a), rest)
  {
    assert ([a] + rest)[1..] == rest;
  }

  lemma OneStep(s: State, a: Action)
    requires Enabled(s, a)
    ensures Legal(s, [a]) && After(s, [a]) == Apply(s, a)
  {
    RunCons(s, a, []);
    assert [a] + [] == [a];
  }

  ghost predicate StepsTo(s: State, a: Action, s': State) {
    Enabled(s, a) && Apply(s, a) == s'
  }

  /** Each action steps from one state to the next. */
  ghost predicate Chained(states: seq<State>, run: seq<Action>) {
    |states| == |run| + 1 && forall i | 0 <= i < |run| :: StepsTo(states[i], run[i], states[i + 1])
  }

  /** Steps from each state to the next make a run. */
  lemma {:induction false} ChainRun(states: seq<State>, run: seq<Action>)
    requires Chained(states, run)
    ensures Legal(states[0], run) && After(states[0], run) == states[|run|]
    decreases |run|
  {
    if run != [] {
      assert StepsTo(states[0], run[0], states[1]);
      forall i | 0 <= i < |run[1..]|
        ensures StepsTo(states[1..][i], run[1..][i], states[1..][i + 1])
      {
        assert StepsTo(states[i + 1], run[i + 1], states[i + 2]);
      }
      ChainRun(states[1..], run[1..]);
    }
  }

  /** The loop over the list, with the metapage locked. */
  lemma {:induction false} WalkingRun(s: State, pid: Pid, t: BloomTuple, at: nat, pages': seq<Page>, meta': Meta)
    returns (run: seq<Action>)
    requires StorageOk(s) && pid in s.procs && s.procs[pid] == Walking(t, at)
    requires InsertedAt(s.words, s.pages, s.meta.notFull, at, t, pages', meta')
    ensures Legal(s, run) && After(s, run) == DoneInserting(s, pid, t, pages', meta')
    decreases |s.meta.notFull| - at
  {
    if at >= |s.meta.notFull| {
      UnusedPageHasRoom(s.words, New, t);
      run := [Allocate(pid, meta'.notFull[0])];
      OneStep(s, run[0]);
    } else if InsertOnPage(s.words, s.pages[s.meta.notFull[at]], t).Some? {
      run := [TryNext(pid)];
      OneStep(s, run[0]);
    } else {
      var s1 := Apply(s, TryNext(pid));
      var rest := WalkingRun(s1, pid, t, at + 1, pages', meta');
      RunCons(s, TryNext(pid), rest);
      run := [TryNext(pid)] + rest;
      assert s1.procs[pid := Inserted] == s.procs[pid := Inserted];
    }
  }

  /** The second phase; the first listed page is skipped if it was just tried. */
  lemma WaitingRun(s: State, pid: Pid, t: BloomTuple, tried: Option<nat>, pages': seq<Page>, meta': Meta)
    returns (run: seq<Action>)
    requires StorageOk(s) && s.lock.None? && pid in s.procs && s.procs[pid] == Waiting(t, tried)
    requires tried.Some? ==> tried.value < |s.pages| && InsertOnPage(s.words, s.pages[tried.value], t).None?
    requires InsertedAt(s.words, s.pages, s.meta.notFull, s.meta.nStart, t, pages', meta')
    ensures Legal(s, run) && After(s, run) == DoneInserting(s, pid, t, pages', meta')
  {
    var s1 := Apply(s, LockMeta(pid));
    var rest := WalkingRun(s1, pid, t, s1.procs[pid].at, pages', meta');
    RunCons(s, LockMeta(pid), rest);
    run := [LockMeta(pid)] + rest;
    assert s1.procs[pid := Inserted] == s.procs[pid := Inserted];
  }

  /** The first phase. */
  lemma TryingRun(s: State, pid: Pid, t: BloomTuple, pages': seq<Page>, meta': Meta) returns (run: seq<Action>)
    requires StorageOk(s) && s.lock.None? && s.meta.nStart < |s.meta.notFull|
    requires pid in s.procs && s.procs[pid] == TryingFirst(t, s.meta.notFull[s.meta.nStart])
    requires InsertedAt(s.words, s.pages, s.meta.notFull, s.meta.nStart, t, pages', meta')
    ensures Legal(s, run) && After(s, run) == DoneInserting(s, pid, t, pages', meta')
  {
    var blkno := s.meta.notFull[s.meta.nStart];
    if InsertOnPage(s.words, s.pages[blkno], t).Some? {
      run := [TryFirst(pid)];
      OneStep(s, run[0]);
    } else {
      var s1 := Apply(s, TryFirst(pid));
      var rest := WaitingRun(s1, pid, t, Some(blkno), pages', meta');
      RunCons(s, TryFirst(pid), rest);
      run := [TryFirst(pid)] + rest;
      assert s1.procs[pid := Inserted] == s.procs[pid := Inserted];
    }
  }

  /** An insertion, from its first look at the metapage on. */
  lemma ReadingRun(s: State, pid: Pid, t: BloomTuple, pages': seq<Page>, meta': Meta) returns (run: seq<Action>)
    requires StorageOk(s) && s.lock.None? && pid in s.procs && s.procs[pid] == Inserting(t)
    requires InsertedAt(s.words, s.pages, s.meta.notFull, s.meta.nStart, t, pages', meta')
    ensures Legal(s, run) && After(s, run) == DoneInserting(s, pid, t, pages', meta')
  {
    var s1 := Apply(s, ReadMeta(pid));
    var rest;
    if s.meta.nStart < |s.meta.notFull| {
      rest := TryingRun(s1, pid, t, pages', meta');
    } else {
      rest := WaitingRun(s1, pid, t, None, pages', meta');
    }
    RunCons(s, ReadMeta(pid), rest);
    run := [ReadMeta(pid)] + rest;
    assert s1.procs[pid := Inserted] == s.procs[pid := Inserted];
  }

  /** What an undisturbed insertion does is a run of the protocol. */
  lemma InsertRun(s: State, pid: Pid, t: BloomTuple, pages': seq<Page>, meta': Meta) returns (run: seq<Action>)
    requires StorageOk(s) && s.lock.None? && pid !in s.procs && |t.sign| == s.words
    requires InsertedAt(s.words, s.pages, s.meta.notFull, s.meta.nStart, t, pages', meta')
    ensures Legal(s, run) && After(s, run) == DoneInserting(s, pid, t, pages', meta')
  {
    var s1 := Apply(s, BeginInsert(pid, t));
    var rest := ReadingRun(s1, pid, t, pages', meta');
    RunCons(s, BeginInsert(pid, t), rest);
    run := [BeginInsert(pid, t)] + rest;
    assert s1.procs[pid := Inserted] == s.procs[pid := Inserted];
  }

  // ----- Bulk deletion -----

  /** The first pages below n that have room, as many as the metapage can list. */
  function RoomList(words: int, pages: seq<Page>, n: nat): seq<nat>
    requires n <= |pages|
  {
    if n <= 1 then []
    else
      var found := RoomList(words, pages, n - 1);
      if HasRoom(words, pages[n - 1]) && |found| < META_BLOCKS then found + [n - 1] else found
  }

  lemma {:induction false} RoomListFrame(words: int, pages: seq<Page>, pages': seq<Page>, n: nat)
    requires n <= |pages| && n <= |pages'| && forall b | 0 <= b < n :: pages'[b] == pages[b]
    ensures RoomList(words, pages', n) == RoomList(words, pages, n)
  {
    if n > 1 {
      RoomListFrame(words, pages, pages', n - 1);
    }
  }

  /** The pages on which scans see tuples and which take any other tuple. */
  ghost function Offering(words: int, pages: seq<Page>): set<nat> {
    set b: nat | 1 <= b < |pages| && Live(pages[b]) != [] && forall t :: InsertOnPage(words, pages[b], t).Some?
  }

  /** A list of some of the blocks below n, in order: all of them up to the last one, or all as long as it is not full. */
  ghost predicate Lists(blocks: set<nat>, n: nat, list: seq<nat>) {
    && |list| <= META_BLOCKS
    && (forall i, j | 0 <= i < j < |list| :: list[i] < list[j])
    && (forall i | 0 <= i < |list| :: list[i] < n && list[i] in blocks)
    && (forall b | b in blocks && b < n :: b in list || (|list| == META_BLOCKS && list[|list| - 1] < b))
  }

  lemma {:induction false} ListsNext(blocks: set<nat>, n: nat, list: seq<nat>)
    requires Lists(blocks, n, list)
    ensures Lists(blocks, n + 1, if n in blocks && |list| < META_BLOCKS then list + [n] else list)
  {
  }

  /** The list of pages with room: the first of the pages that take a tuple, as many as can be listed. */
  ghost predicate ListsRoom(words: int, pages: seq<Page>, list: seq<nat>) {
    Lists(Offering(words, pages), |pages|, list)
  }

  lemma {:induction false} OfferingIff(words: int, pages: seq<Page>, b: nat)
    requires 1 <= b < |pages|
    ensures b in Offering(words, pages) <==> HasRoom(words, pages[b])
  {
    HasRoomIff(words, pages[b]);
  }

  lemma {:induction false} RoomListFrom(words: int, pages: seq<Page>, n: nat, blocks: set<nat>)
    requires 1 <= n <= |pages| && 0 !in blocks
    requires forall b: nat | 1 <= b < |pages| :: b in blocks <==> HasRoom(words, pages[b])
    ensures Lists(blocks, n, RoomList(words, pages, n))
  {
    if n > 1 {
      var m := n - 1;
      RoomListFrom(words, pages, m, blocks);
      ListsNext(blocks, m, RoomList(words, pages, m));
      assert m in blocks <==> HasRoom(words, pages[m]);
    }
  }

  /** What bulk deletion lists are the pages that take a tuple. */
  lemma {:induction false} RoomListLists(words: int, pages: seq<Page>)
    requires pages != []
    ensures ListsRoom(words, pages, RoomList(words, pages, |pages|))
  {
    forall b: nat | 1 <= b < |pages|
      ensures b in Offering(words, pages) <==> HasRoom(words, pages[b])
    {
      OfferingIff(words, pages, b);
    }
    RoomListFrom(words, pages, |pages|, Offering(words, pages));
  }

  /** Sweeping one page more lists it if it has room. */
  lemma RoomListNext(words: int, pages: seq<Page>, n: nat, p: Page)
    requires 1 <= n < |pages|
    ensures var found := RoomList(words, pages, n);
            RoomList(words, pages[n := p], n + 1) ==
            if HasRoom(words, p) && |found| < META_BLOCKS then found + [n] else found
  {
    RoomListFrame(words, pages, pages[n := p], n);
  }

  /** The tuples that bulk deletion removes from the pages from 1 up to n. */
  ghost function RemovedUpTo(pages: seq<Page>, dead: set<Tid>, n: nat): multiset<BloomTuple>
    requires n <= |pages|
  {
    if n <= 1 then multiset{} else RemovedUpTo(pages, dead, n - 1) + Removed(Live(pages[n - 1]), dead)
  }

  /** The pages when bulk deletion has reached block n. */
  function SweptPages(pages: seq<Page>, dead: set<Tid>, n: nat): seq<Page> {
    seq(|pages|, b requires 0 <= b < |pages| => if b < n then VacuumedPage(pages[b], dead) else pages[b])
  }

  lemma SweptPagesNext(pages: seq<Page>, dead: set<Tid>, n: nat)
    requires n < |pages|
    ensures var swept := SweptPages(pages, dead, n);
            swept[n] == pages[n] && SweptPages(pages, dead, n + 1) == swept[n := VacuumedPage(pages[n], dead)]
  {
  }

  /** The state when a bulk deletion begun in s has reached block n. */
  ghost function SweepingAt(s: State, pid: Pid, dead: set<Tid>, n: nat): State
    requires n <= |s.pages|
  {
    var pages := SweptPages(s.pages, dead, n);
    s.(pages := pages,
       procs := s.procs[pid := Vacuuming(dead, |s.pages|, n, RoomList(s.words, pages, n))],
       vacuumed := s.vacuumed + RemovedUpTo(s.pages, dead, n))
  }

  ghost function DoneSweeping(s: State, pid: Pid, dead: set<Tid>): State {
    var pages := SweptPages(s.pages, dead, |s.pages|);
    s.(pages := pages, meta := Meta(0, RoomList(s.words, pages, |s.pages|)),
       procs := s.procs[pid := Vacuumed], vacuumed := s.vacuumed + RemovedUpTo(s.pages, dead, |s.pages|))
  }

  /** Bulk deletion has reached block n, with a list and a count of what it found. */
  ghost predicate SweepSoFar(words: int, before: seq<Page>, pages: seq<Page>, dead: set<Tid>, n: nat,
                             found: seq<nat>, removed: nat)
  {
    && n <= |before| && pages == SweptPages(before, dead, n)
    && found == RoomList(words, pages, n) && removed == |RemovedUpTo(before, dead, n)|
  }

  lemma {:induction false} SweepSoFarStart(words: int, before: seq<Page>, dead: set<Tid>)
    requires before != [] && before[0] == New
    ensures SweepSoFar(words, before, before, dead, 1, [], 0)
  {
    assert SweptPages(before, dead, 1) == before;
  }

  lemma {:induction false} SweepSoFarNext(words: int, before: seq<Page>, pages: seq<Page>, dead: set<Tid>, n: nat,
                                          found: seq<nat>, removed: nat)
    requires 1 <= n < |before| && SweepSoFar(words, before, pages, dead, n, found, removed)
    ensures pages[n] == before[n]
    ensures var p := VacuumedPage(before[n], dead);
            SweepSoFar(words, before, pages[n := p], dead, n + 1,
                       if HasRoom(words, p) && |found| < META_BLOCKS then found + [n] else found,
                       removed + |Removed(Live(before[n]), dead)|)
  {
    SweptPagesNext(before, dead, n);
    RoomListNext(words, pages, n, VacuumedPage(before[n], dead));
  }

  lemma AddToRemoved(gone: multiset<BloomTuple>, pages: seq<Page>, dead: set<Tid>, n: nat)
    requires 1 <= n < |pages|
    ensures gone + RemovedUpTo(pages, dead, n) + Removed(Live(pages[n]), dead) == gone + RemovedUpTo(pages, dead, n + 1)
  {
    Regroup(gone, RemovedUpTo(pages, dead, n), Removed(Live(pages[n]), dead));
  }

  lemma Regroup(a: multiset<BloomTuple>, b: multiset<BloomTuple>, c: multiset<BloomTuple>)
    ensures (a + b) + c == a + (b + c)
  {
  }

  /** A step of bulk deletion, part by part. */
  lemma {:induction false} VacuumStepsTo(s: State, pid: Pid, v: Process, p: Page, found: seq<nat>, s': State)
    requires v.Vacuuming? && pid in s.procs && s.procs[pid] == v && v.blkno < v.npages <= |s.pages|
    requires p == VacuumedPage(s.pages[v.blkno], v.dead)
    requires found == if HasRoom(s.words, p) && |v.found| < META_BLOCKS then v.found + [v.blkno] else v.found
    requires s'.words == s.words && s'.meta == s.meta && s'.lock == s.lock && s'.acked == s.acked
    requires s'.pages == s.pages[v.blkno := p]
    requires s'.procs == s.procs[pid := Vacuuming(v.dead, v.npages, v.blkno + 1, found)]
    requires s'.vacuumed == s.vacuumed + Removed(Live(s.pages[v.blkno]), v.dead)
    ensures StepsTo(s, VacuumPage(pid), s')
  {
  }

  /** One page step moves a bulk deletion on by one block. */
  lemma {:induction false} SweepStep(s: State, pid: Pid, dead: set<Tid>, n: nat)
    requires 1 <= n < |s.pages|
    ensures StepsTo(SweepingAt(s, pid, dead, n), VacuumPage(pid), SweepingAt(s, pid, dead, n + 1))
  {
    var pages, s1, s2 := SweptPages(s.pages, dead, n), SweepingAt(s, pid, dead, n), SweepingAt(s, pid, dead, n + 1);
    var p := VacuumedPage(pages[n], dead);
    SweptPagesNext(s.pages, dead, n);
    RoomListNext(s.words, pages, n, p);
    AddToRemoved(s.vacuumed, s.pages, dead, n);
    UpdateTwice(s.procs, pid, s1.procs[pid], s2.procs[pid]);
    VacuumStepsTo(s1, pid, s1.procs[pid], p, s2.procs[pid].found, s2);
  }

  lemma {:induction false} UpdateTwice<K, V>(m: map<K, V>, k: K, v: V, v': V)
    ensures m[k := v][k := v'] == m[k := v']
  {
  }

  lemma SweepBegin(s: State, pid: Pid, dead: set<Tid>)
    requires 1 <= |s.pages| && s.pages[0] == New && pid !in s.procs
    ensures StepsTo(s, BeginVacuum(pid, dead), SweepingAt(s, pid, dead, 1))
  {
    assert SweptPages(s.pages, dead, 1) == s.pages;
  }

  lemma SweepEnd(s: State, pid: Pid, dead: set<Tid>)
    requires s.lock.None?
    ensures StepsTo(SweepingAt(s, pid, dead, |s.pages|), WriteMeta(pid), DoneSweeping(s, pid, dead))
  {
    assert SweepingAt(s, pid, dead, |s.pages|).procs[pid := Vacuumed] == s.procs[pid := Vacuumed];
  }

  /** The states and the actions of an undisturbed bulk deletion. */
  ghost function SweepState(s: State, pid: Pid, dead: set<Tid>, i: nat): State
    requires i <= |s.pages| + 1
  {
    if i == 0 then s else if i <= |s.pages| then SweepingAt(s, pid, dead, i) else DoneSweeping(s, pid, dead)
  }

  function SweepAction(npages: nat, pid: Pid, dead: set<Tid>, i: nat): Action {
    if i == 0 then BeginVacuum(pid, dead) else if i < npages then VacuumPage(pid) else WriteMeta(pid)
  }

  lemma SweepSteps(s: State, pid: Pid, dead: set<Tid>, i: nat)
    requires i <= |s.pages| && s.pages != [] && s.pages[0] == New && s.lock.None? && pid !in s.procs
    ensures StepsTo(SweepState(s, pid, dead, i), SweepAction(|s.pages|, pid, dead, i), SweepState(s, pid, dead, i + 1))
  {
    if i == 0 {
      SweepBegin(s, pid, dead);
    } else if i < |s.pages| {
      SweepStep(s, pid, dead, i);
    } else {
      SweepEnd(s, pid, dead);
    }
  }

  lemma {:induction false} SweepStepsTo(s: State, pid: Pid, dead: set<Tid>, i: nat, from: State, a: Action, to: State)
    requires i <= |s.pages| && s.pages != [] && s.pages[0] == New && s.lock.None? && pid !in s.procs
    requires from == SweepState(s, pid, dead, i) && to == SweepState(s, pid, dead, i + 1)
    requires a == SweepAction(|s.pages|, pid, dead, i)
    ensures StepsTo(from, a, to)
  {
    SweepSteps(s, pid, dead, i);
  }

  lemma {:induction false} SweepChained(s: State, pid: Pid, dead: set<Tid>) returns (states: seq<State>, run: seq<Action>)
    requires s.pages != [] && s.pages[0] == New && s.lock.None? && pid !in s.procs
    ensures Chained(states, run) && states[0] == s && states[|run|] == DoneSweeping(s, pid, dead)
  {
    var n := |s.pages|;
    states := seq(n + 2, i requires 0 <= i < n + 2 => SweepState(s, pid, dead, i));
    run := seq(n + 1, i requires 0 <= i < n + 1 => SweepAction(n, pid, dead, i));
    forall i | 0 <= i < n + 1
      ensures StepsTo(states[i], run[i], states[i + 1])
    {
      SweepStepsTo(s, pid, dead, i, states[i], run[i], states[i + 1]);
    }
  }

  /** What an undisturbed bulk deletion does is a run of the protocol. */
  lemma {:induction false} BulkDeleteRun(s: State, pid: Pid, dead: set<Tid>) returns (run: seq<Action>)
    requires s.pages != [] && s.pages[0] == New && s.lock.None? && pid !in s.procs
    ensures Legal(s, run) && After(s, run) == DoneSweeping(s, pid, dead)
  {
    var states;
    states, run := SweepChained(s, pid, dead);
    ChainRun(states, run);
  }

  // ----- Scans -----

  /** What a scan of the blocks from 1 up to n reports. */
  function MatchesUpTo(pages: seq<Page>, query: Signature, n: nat): seq<Tid>
    requires n <= |pages|
  {
    if n <= 1 then [] else MatchesUpTo(pages, query, n - 1) + MatchingTids(Live(pages[n - 1]), query)
  }

  /** A scan that has reached block n. */
  ghost function ScanningAt(s: State, pid: Pid, query: Signature, n: nat): State
    requires n <= |s.pages|
  {
    s.(procs := s.procs[pid := Scanning(query, |s.pages|, n, MatchesUpTo(s.pages, query, n))])
  }

  /** A step of a scan, part by part. */
  lemma {:induction false} ScanStepsTo(s: State, pid: Pid, v: Process, found: seq<Tid>, s': State)
    requires v.Scanning? && pid in s.procs && s.procs[pid] == v && v.blkno < v.npages <= |s.pages|
    requires found == v.tids + MatchingTids(Live(s.pages[v.blkno]), v.query)
    requires s' == s.(procs := s.procs[pid := Scanning(v.query, v.npages, v.blkno + 1, found)])
    ensures StepsTo(s, ScanPage(pid), s')
  {
  }

  lemma {:induction false} GetBitmapStep(s: State, pid: Pid, query: Signature, n: nat)
    requires 1 <= n < |s.pages|
    ensures StepsTo(ScanningAt(s, pid, query, n), ScanPage(pid), ScanningAt(s, pid, query, n + 1))
  {
    var s1, s2 := ScanningAt(s, pid, query, n), ScanningAt(s, pid, query, n + 1);
    UpdateTwice(s.procs, pid, s1.procs[pid], s2.procs[pid]);
    ScanStepsTo(s1, pid, s1.procs[pid], s2.procs[pid].tids, s2);
  }

  /** The states and the actions of an undisturbed scan. */
  ghost function ScanState(s: State, pid: Pid, query: Signature, i: nat): State
    requires i <= |s.pages|
  {
    if i == 0 then s else ScanningAt(s, pid, query, i)
  }

  function ScanAction(pid: Pid, query: Signature, i: nat): Action {
    if i == 0 then BeginScan(pid, query) else ScanPage(pid)
  }

  lemma {:induction false} GetBitmapStepsTo(s: State, pid: Pid, query: Signature, i: nat, from: State, a: Action, to: State)
    requires i < |s.pages| && pid !in s.procs && |query| == s.words
    requires from == ScanState(s, pid, query, i) && to == ScanState(s, pid, query, i + 1) && a == ScanAction(pid, query, i)
    ensures StepsTo(from, a, to)
  {
    if i > 0 {
      GetBitmapStep(s, pid, query, i);
    }
  }

  lemma {:induction false} GetBitmapChained(s: State, pid: Pid, query: Signature)
    returns (states: seq<State>, run: seq<Action>)
    requires 1 <= |s.pages| && pid !in s.procs && |query| == s.words
    ensures Chained(states, run) && states[0] == s && states[|run|] == ScanningAt(s, pid, query, |s.pages|)
  {
    var n := |s.pages|;
    states := seq(n + 1, i requires 0 <= i < n + 1 => ScanState(s, pid, query, i));
    run := seq(n, i requires 0 <= i < n => ScanAction(pid, query, i));
    forall i | 0 <= i < n
      ensures StepsTo(states[i], run[i], states[i + 1])
    {
      GetBitmapStepsTo(s, pid, query, i, states[i], run[i], states[i + 1]);
    }
  }

  /** What an undisturbed scan reports is the outcome of a run of the protocol. */
  lemma {:induction false} GetBitmapRun(s: State, pid: Pid, query: Signature) returns (run: seq<Action>)
    requires 1 <= |s.pages| && pid !in s.procs && |query| == s.words
    ensures Legal(s, run) && After(s, run) == ScanningAt(s, pid, query, |s.pages|)
  {
    var states;
    states, run := GetBitmapChained(s, pid, query);
    ChainRun(states, run);
  }

  lemma {:induction false} MatchesGrow(pages: seq<Page>, query: Signature, m: nat, n: nat)
    requires m <= n <= |pages|
    ensures MatchesUpTo(pages, query, m) <= MatchesUpTo(pages, query, n)
  {
    if m < n {
      MatchesGrow(pages, query, m, n - 1);
    }
  }

  /** What is found on a page is reported. */
  lemma {:induction false} MatchReported(pages: seq<Page>, query: Signature, n: nat, b: nat, h: Tid)
    requires 1 <= b < n <= |pages| && h in MatchingTids(Live(pages[b]), query)
    ensures h in MatchesUpTo(pages, query, n)
  {
    var found := MatchesUpTo(pages, query, b + 1);
    assert h in found;
    MatchesGrow(pages, query, b + 1, n);
    InPrefix(found, MatchesUpTo(pages, query, n), h);
  }

  lemma {:induction false} InPrefix(a: seq<Tid>, b: seq<Tid>, h: Tid)
    requires a <= b && h in a
    ensures h in b
  {
    var i :| 0 <= i < |a| && a[i] == h;
    assert b[i] == h;
  }

  lemma {:induction false} MatchOnPage(items: seq<BloomTuple>, query: Signature, t: BloomTuple)
    requires t in items && |t.sign| == |query| && Matches(t.sign, query)
    ensures t.heapPtr in MatchingTids(items, query)
  {
    var n := |items| - 1;
    if t in items[..n] {
      MatchOnPage(items[..n], query, t);
    } else {
      assert items == items[..n] + [items[n]];
    }
  }

  lemma {:induction false} FoundOnPage(items: seq<BloomTuple>, query: Signature, h: Tid) returns (t: BloomTuple)
    requires h in MatchingTids(items, query)
    ensures t in items && t.heapPtr == h && |t.sign| == |query| && Matches(t.sign, query)
  {
    var n := |items| - 1;
    if h in MatchingTids(items[..n], query) {
      t := FoundOnPage(items[..n], query, h);
    } else {
      t := items[n];
    }
  }

  /** Only tuples on pages in use whose signature passes the test are reported. */
  lemma {:induction false} ReportedMatches(pages: seq<Page>, query: Signature, n: nat, h: Tid) returns (b: nat, t: BloomTuple)
    requires n <= |pages| && h in MatchesUpTo(pages, query, n)
    ensures 1 <= b < n && t in Live(pages[b]) && t.heapPtr == h && |t.sign| == |query| && Matches(t.sign, query)
  {
    if h in MatchesUpTo(pages, query, n - 1) {
      b, t := ReportedMatches(pages, query, n - 1, h);
    } else {
      b := n - 1;
      t := FoundOnPage(Live(pages[b]), query, h);
    }
  }

  /** The row of a tuple. */
  ghost predicate IsRow(opts: SignOptions, t: BloomTuple, values: seq<Option<Datum>>)
    requires opts.Valid()
  {
    |values| <= 32 && |t.sign| == opts.words && Bits(t.sign) == TupleBits(opts, values, |values|)
  }

  /** An undisturbed scan reports every row in the index that satisfies its keys. */
  lemma {:induction false} MatchingRowFound(pages: seq<Page>, opts: SignOptions, keys: seq<ScanKey>, query: Signature,
                                            b: nat, t: BloomTuple, values: seq<Option<Datum>>)
    requires opts.Valid() && |query| == opts.words && Fits(query) && Bits(query) == KeyBits(opts, keys, |keys|)
    requires 1 <= b < |pages| && t in Live(pages[b]) && IsRow(opts, t, values) && RowMatches(values, keys)
    ensures t.heapPtr in MatchesUpTo(pages, query, |pages|)
  {
    NoFalseNegative(opts, values, keys, t.sign, query);
    MatchOnPage(Live(pages[b]), query, t);
    MatchReported(pages, query, |pages|, b, t.heapPtr);
  }
}
