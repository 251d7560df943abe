/**
What scans and bulk deletions achieve while other processes run (contrib/bloom/blscan.c and
blvacuum.c): a scan reports every row that stays in the index exactly once, and a bulk
deletion leaves none of the rows it was told to delete.
 */
module BloomRuns {
  import opened Options
  import opened BloomSignature
  import opened BloomPage
  import opened BloomProtocol

  // ----- Where a heap pointer is -----

  ghost predicate Absent(items: seq<BloomTuple>, h: Tid) {
    forall i | 0 <= i < |items| :: items[i].heapPtr != h
  }

  /** t is on the page, and no other tuple there has its heap pointer. */
  ghost predicate Once(items: seq<BloomTuple>, t: BloomTuple) {
    exists i | 0 <= i < |items| ::
      items[i] == t && forall j | 0 <= j < |items| && j != i :: items[j].heapPtr != t.heapPtr
  }

  /** t is on page b, and its heap pointer is nowhere else in the index. */
  ghost predicate HeldAt(pages: seq<Page>, b: nat, t: BloomTuple) {
    && b < |pages| && Once(Live(pages[b]), t)
    && forall c | 0 <= c < |pages| && c != b :: Absent(Live(pages[c]), t.heapPtr)
  }

  /** In every state of the run, t is in the index and is the only tuple with its heap pointer. */
  ghost predicate PresentThroughout(s: State, run: seq<Action>, t: BloomTuple)
    requires Legal(s, run)
    decreases |run|
  {
    && (exists b :: HeldAt(s.pages, b, t))
    && (run != [] ==> PresentThroughout(Apply(s, run[0]), run[1..], t))
  }

  // ----- One step changes what scans see on one page only -----

  ghost predicate Pending(p: Process) {
    p.Inserting? || p.TryingFirst? || p.Waiting? || p.Walking?
  }

  function LiveAt(pages: seq<Page>, b: nat): seq<BloomTuple> {
    if b < |pages| then Live(pages[b]) else []
  }

  /** Before and after on the one page that changed. */
  ghost predicate Evolves(s: State, l: seq<BloomTuple>, l': seq<BloomTuple>) {
    || l' == l
    || (exists pid :: pid in s.procs && Pending(s.procs[pid]) && l' == l + [s.procs[pid].t])
    || (exists pid :: pid in s.procs && s.procs[pid].Vacuuming? && l' == Kept(l, s.procs[pid].dead))
  }

  /** What scans see changed on page b at most. */
  ghost predicate ChangedOnly(s: State, s': State, b: nat) {
    && |s'.pages| >= |s.pages|
    && (forall c: nat | c != b :: LiveAt(s'.pages, c) == LiveAt(s.pages, c))
    && Evolves(s, LiveAt(s.pages, b), LiveAt(s'.pages, b))
  }

  lemma TryFirstPages(s: State, pid: Pid)
    requires Inv(s) && Enabled(s, TryFirst(pid))
    ensures ChangedOnly(s, TryFirstStep(s, pid, s.procs[pid].t, s.procs[pid].blkno), s.procs[pid].blkno)
  {
  }

  lemma TryNextPages(s: State, pid: Pid)
    requires Inv(s) && Enabled(s, TryNext(pid))
    ensures ChangedOnly(s, TryNextStep(s, pid, s.procs[pid].t, s.procs[pid].at),
                        s.meta.notFull[s.procs[pid].at])
  {
  }

  lemma AllocatePages(s: State, pid: Pid, b: nat)
    requires Inv(s) && Enabled(s, Allocate(pid, b))
    ensures ChangedOnly(s, AllocateStep(s, pid, s.procs[pid].t, b), b)
  {
  }

  lemma VacuumPages(s: State, pid: Pid)
    requires Inv(s) && Enabled(s, VacuumPage(pid))
    ensures ChangedOnly(s, VacuumPageStep(s, pid, s.procs[pid]), s.procs[pid].blkno)
  {
  }

  lemma {:induction false} StepPages(s: State, a: Action) returns (b: nat)
    requires Inv(s) && Enabled(s, a)
    ensures ChangedOnly(s, Apply(s, a), b)
  {
    b := 0;
    match a
    case TryFirst(pid) => b := s.procs[pid].blkno; TryFirstPages(s, pid);
    case TryNext(pid) => b := s.meta.notFull[s.procs[pid].at]; TryNextPages(s, pid);
    case Allocate(pid, blkno) => b := blkno; AllocatePages(s, pid, b);
    case VacuumPage(pid) => b := s.procs[pid].blkno; VacuumPages(s, pid);
    case _ =>
  }

  // ----- Tuples never move -----

  lemma OnceUnique(items: seq<BloomTuple>, t: BloomTuple, t': BloomTuple)
    requires Once(items, t) && t' in items && t'.heapPtr == t.heapPtr
    ensures t' == t
  {
  }

  lemma EvolvesSame(s: State, l: seq<BloomTuple>, l': seq<BloomTuple>, t: BloomTuple, t': BloomTuple)
    requires Evolves(s, l, l') && Once(l, t) && Once(l', t') && t'.heapPtr == t.heapPtr
    ensures t' == t
  {
    if pid :| pid in s.procs && s.procs[pid].Vacuuming? && l' == Kept(l, s.procs[pid].dead) {
      KeptMember(l, s.procs[pid].dead, t');
      OnceUnique(l, t, t');
    } else {
      assert t in l';
      OnceUnique(l', t', t);
    }
  }

  /** A tuple that is in the index before and after a step is on the same page both times. */
  lemma {:induction false} TuplesNeverMove(s: State, a: Action, b: nat, t: BloomTuple, b': nat, t': BloomTuple)
    requires Inv(s) && Enabled(s, a)
    requires HeldAt(s.pages, b, t) && HeldAt(Apply(s, a).pages, b', t') && t'.heapPtr == t.heapPtr
    ensures b' == b && t' == t
  {
    var s' := Apply(s, a);
    var changed := StepPages(s, a);
    assert LiveAt(s.pages, b) == Live(s.pages[b]) && LiveAt(s'.pages, b') == Live(s'.pages[b']);
    if b' != changed {
      assert LiveAt(s.pages, b') == Live(s'.pages[b']);
      assert t' in LiveAt(s.pages, b');
      OnceUnique(Live(s.pages[b]), t, t');
    } else {
      assert b != changed ==> t in LiveAt(s'.pages, b);
      assert b == changed;
      EvolvesSame(s, Live(s.pages[b]), Live(s'.pages[b]), t, t');
    }
  }

  // ----- When a tuple stays -----

  /** No process is about to delete heap pointer h or to insert it again. */
  ghost predicate Spared(s: State, h: Tid) {
    forall pid | pid in s.procs ::
      && (s.procs[pid].Vacuuming? ==> h !in s.procs[pid].dead)
      && (Pending(s.procs[pid]) ==> s.procs[pid].t.heapPtr != h)
  }

  /** The action begins no deletion and no insertion of h. */
  predicate Spares(a: Action, h: Tid) {
    (a.BeginVacuum? ==> h !in a.dead) && (a.BeginInsert? ==> a.t.heapPtr != h)
  }

  ghost predicate AllSpare(run: seq<Action>, h: Tid) {
    forall i | 0 <= i < |run| :: Spares(run[i], h)
  }

  lemma {:induction false} SparedStep(s: State, a: Action, h: Tid)
    requires Enabled(s, a) && Spared(s, h) && Spares(a, h)
    ensures Spared(Apply(s, a), h)
  {
  }

  lemma {:induction false} KeptOnce(items: seq<BloomTuple>, dead: set<Tid>, t: BloomTuple)
    requires t.heapPtr !in dead
    ensures Absent(items, t.heapPtr) ==> Absent(Kept(items, dead), t.heapPtr)
    ensures Once(items, t) ==> Once(Kept(items, dead), t)
  {
    if items != [] {
      var n := |items| - 1;
      KeptOnce(items[..n], dead, t);
      var front, last := Kept(items[..n], dead), items[n];
      if Absent(items, t.heapPtr) {
        assert Absent(items[..n], t.heapPtr);
      }
      if Once(items, t) {
        OnceFront(items, t);
        OnceBack(front, last, t);
      }
    }
  }

  /** Either the last tuple is t, or t is once in front of it. */
  lemma OnceFront(items: seq<BloomTuple>, t: BloomTuple)
    requires Once(items, t)
    ensures var n := |items| - 1;
            if items[n] == t then Absent(items[..n], t.heapPtr)
            else Once(items[..n], t) && items[n].heapPtr != t.heapPtr
  {
    var n := |items| - 1;
    var i :| 0 <= i < |items| && items[i] == t && forall j | 0 <= j < |items| && j != i :: items[j].heapPtr != t.heapPtr;
    if i < n {
      assert items[..n][i] == t;
    }
  }

  lemma OnceBack(items: seq<BloomTuple>, last: BloomTuple, t: BloomTuple)
    ensures last == t && Absent(items, t.heapPtr) ==> Once(items + [last], t)
    ensures last.heapPtr != t.heapPtr && Once(items, t) ==> Once(items + [last], t)
  {
    var all := items + [last];
    if last == t && Absent(items, t.heapPtr) {
      assert all[|items|] == t;
    }
    if last.heapPtr != t.heapPtr && Once(items, t) {
      var i :| 0 <= i < |items| && items[i] == t && forall j | 0 <= j < |items| && j != i :: items[j].heapPtr != t.heapPtr;
      assert all[i] == t;
    }
  }

  /** A page on which t is once, or its heap pointer absent, stays so. */
  lemma EvolvesSpared(s: State, l: seq<BloomTuple>, l': seq<BloomTuple>, t: BloomTuple)
    requires Evolves(s, l, l') && Spared(s, t.heapPtr)
    ensures Once(l, t) ==> Once(l', t)
    ensures Absent(l, t.heapPtr) ==> Absent(l', t.heapPtr)
  {
    if pid :| pid in s.procs && s.procs[pid].Vacuuming? && l' == Kept(l, s.procs[pid].dead) {
      KeptOnce(l, s.procs[pid].dead, t);
    } else if pid :| pid in s.procs && Pending(s.procs[pid]) && l' == l + [s.procs[pid].t] {
      OnceBack(l, s.procs[pid].t, t);
    }
  }

  /** A tuple that no process is about to delete or to insert again stays where it is. */
  lemma {:induction false} HeldStep(s: State, a: Action, b: nat, t: BloomTuple)
    requires Inv(s) && Enabled(s, a) && HeldAt(s.pages, b, t) && Spared(s, t.heapPtr)
    ensures HeldAt(Apply(s, a).pages, b, t)
  {
    var s' := Apply(s, a);
    var changed := StepPages(s, a);
    forall c: nat
      ensures c == b ==> Once(LiveAt(s'.pages, c), t)
      ensures c != b ==> Absent(LiveAt(s'.pages, c), t.heapPtr)
    {
      assert c != b ==> Absent(LiveAt(s.pages, c), t.heapPtr);
      if c == changed {
        EvolvesSpared(s, LiveAt(s.pages, c), LiveAt(s'.pages, c), t);
      }
    }
    HeldFromLive(s'.pages, b, t);
  }

  lemma HeldFromLive(pages: seq<Page>, b: nat, t: BloomTuple)
    requires b < |pages| && Once(LiveAt(pages, b), t)
    requires forall c: nat | c != b :: Absent(LiveAt(pages, c), t.heapPtr)
    ensures HeldAt(pages, b, t)
  {
    forall c | 0 <= c < |pages| && c != b
      ensures Absent(Live(pages[c]), t.heapPtr)
    {
      assert Absent(LiveAt(pages, c), t.heapPtr);
    }
  }

  /** Over a run that neither deletes nor inserts its heap pointer, a tuple is present throughout. */
  lemma {:induction false} StaysPresent(s: State, run: seq<Action>, b: nat, t: BloomTuple)
    requires Inv(s) && Legal(s, run) && HeldAt(s.pages, b, t)
    requires Spared(s, t.heapPtr) && AllSpare(run, t.heapPtr)
    ensures PresentThroughout(s, run, t)
    decreases |run|
  {
    if run != [] {
      assert Spares(run[0], t.heapPtr);
      StepKeeps(s, run[0]);
      HeldStep(s, run[0], b, t);
      SparedStep(s, run[0], t.heapPtr);
      assert forall i | 0 <= i < |run[1..]| :: run[1..][i] == run[i + 1];
      StaysPresent(Apply(s, run[0]), run[1..], b, t);
    }
  }

  // ----- Scans -----

  lemma {:induction false} MatchingTidsCount(items: seq<BloomTuple>, query: Signature, h: Tid)
    ensures Absent(items, h) ==> multiset(MatchingTids(items, query))[h] == 0
    ensures forall t: BloomTuple | Once(items, t) && t.heapPtr == h ::
              multiset(MatchingTids(items, query))[h] == Hits(t, query)
  {
    if items != [] {
      var n := |items| - 1;
      var front, last := items[..n], items[n];
      MatchingTidsCount(front, query, h);
      if Absent(items, h) {
        assert Absent(front, h) by {
          forall i | 0 <= i < |front| ensures front[i].heapPtr != h { assert front[i] == items[i]; }
        }
      }
      forall t: BloomTuple | Once(items, t) && t.heapPtr == h
        ensures multiset(MatchingTids(items, query))[h] == Hits(t, query)
      {
        var i :| 0 <= i < |items| && items[i] == t &&
                 forall j | 0 <= j < |items| && j != i :: items[j].heapPtr != h;
        if i == n {
          assert Absent(front, h);
        } else {
          assert front[i] == t && Once(front, t);
        }
      }
    }
  }

  /** How often a scan should report t. */
  ghost function Hits(t: BloomTuple, query: Signature): nat {
    if |t.sign| == |query| && Matches(t.sign, query) then 1 else 0
  }

  /** The scan has reported t the right number of times for the pages it has passed. */
  ghost predicate ScanSoFar(s: State, pid: Pid, query: Signature, b: nat, t: BloomTuple) {
    && pid in s.procs && s.procs[pid].Scanning? && s.procs[pid].query == query
    && b < s.procs[pid].npages
    && multiset(s.procs[pid].tids)[t.heapPtr] == if b < s.procs[pid].blkno then Hits(t, query) else 0
  }

  lemma ScanStep(s: State, a: Action, pid: Pid, query: Signature, b: nat, t: BloomTuple)
    requires Inv(s) && Enabled(s, a) && ScanSoFar(s, pid, query, b, t) && HeldAt(s.pages, b, t)
    ensures ScanSoFar(Apply(s, a), pid, query, b, t)
  {
    if a == ScanPage(pid) {
      var v := s.procs[pid];
      MatchingTidsCount(Live(s.pages[v.blkno]), query, t.heapPtr);
    }
  }

  lemma {:induction false} ScanRun(
    s: State, run: seq<Action>, pid: Pid, query: Signature, b: nat, t: BloomTuple)
    requires Inv(s) && Legal(s, run) && PresentThroughout(s, run, t)
    requires ScanSoFar(s, pid, query, b, t) && HeldAt(s.pages, b, t)
    ensures ScanSoFar(After(s, run), pid, query, b, t)
    decreases |run|
  {
    if run != [] {
      var s' := Apply(s, run[0]);
      StepKeeps(s, run[0]);
      ScanStep(s, run[0], pid, query, b, t);
      var b' :| HeldAt(s'.pages, b', t);
      TuplesNeverMove(s, run[0], b, t, b', t);
      ScanRun(s', run[1..], pid, query, b, t);
    }
  }

  /**
  A scan that runs to its end, however it interleaves with insertions and bulk deletions,
  reports a tuple that is in every state the only one with its heap pointer exactly once if its
  signature covers the query, and not at all otherwise.
   */
  lemma {:induction false} ScanOfPresent(s: State, pid: Pid, query: Signature, run: seq<Action>, t: BloomTuple)
    requires Inv(s) && Enabled(s, BeginScan(pid, query))
    requires Legal(Apply(s, BeginScan(pid, query)), run)
    requires PresentThroughout(Apply(s, BeginScan(pid, query)), run, t)
    requires var s' := After(Apply(s, BeginScan(pid, query)), run);
             pid in s'.procs && Finished(s'.procs[pid])
    ensures var s' := After(Apply(s, BeginScan(pid, query)), run);
            s'.procs[pid].Scanning? && multiset(s'.procs[pid].tids)[t.heapPtr] == Hits(t, query)
  {
    var s1 := Apply(s, BeginScan(pid, query));
    StepKeeps(s, BeginScan(pid, query));
    var b :| HeldAt(s1.pages, b, t);
    assert b != 0;
    ScanRun(s1, run, pid, query, b, t);
  }

  /**
  The same in terms of the start of the scan and of what is begun while it runs: t is in the
  index, alone with its heap pointer, and no bulk deletion or insertion of that heap pointer is
  under way or begun.
   */
  lemma {:induction false} ScanExactlyOnce(s: State, pid: Pid, query: Signature, run: seq<Action>, b: nat, t: BloomTuple)
    requires Inv(s) && Enabled(s, BeginScan(pid, query))
    requires Legal(Apply(s, BeginScan(pid, query)), run)
    requires HeldAt(s.pages, b, t) && Spared(s, t.heapPtr) && AllSpare(run, t.heapPtr)
    requires var s' := After(Apply(s, BeginScan(pid, query)), run);
             pid in s'.procs && Finished(s'.procs[pid])
    ensures var s' := After(Apply(s, BeginScan(pid, query)), run);
            s'.procs[pid].Scanning? && multiset(s'.procs[pid].tids)[t.heapPtr] == Hits(t, query)
  {
    StepKeeps(s, BeginScan(pid, query));
    SparedStep(s, BeginScan(pid, query), t.heapPtr);
    StaysPresent(Apply(s, BeginScan(pid, query)), run, b, t);
    ScanOfPresent(s, pid, query, run, t);
  }

  /** The same for rows and scan keys: a row that satisfies the keys is reported exactly once. */
  lemma {:induction false} MatchingRowReportedOnce(
    s: State, pid: Pid, query: Signature, run: seq<Action>, b: nat, t: BloomTuple,
    opts: SignOptions, values: seq<Option<Datum>>, keys: seq<ScanKey>)
    requires Inv(s) && Enabled(s, BeginScan(pid, query))
    requires Legal(Apply(s, BeginScan(pid, query)), run)
    requires HeldAt(s.pages, b, t) && Spared(s, t.heapPtr) && AllSpare(run, t.heapPtr)
    requires var s' := After(Apply(s, BeginScan(pid, query)), run);
             pid in s'.procs && Finished(s'.procs[pid])
    requires opts.Valid() && opts.words == s.words && |values| <= 32 && RowMatches(values, keys)
    requires |t.sign| == s.words && Bits(t.sign) == TupleBits(opts, values, |values|)
    requires Fits(query) && Bits(query) == KeyBits(opts, keys, |keys|)
    ensures var s' := After(Apply(s, BeginScan(pid, query)), run);
            s'.procs[pid].Scanning? && multiset(s'.procs[pid].tids)[t.heapPtr] == 1
  {
    NoFalseNegative(opts, values, keys, t.sign, query);
    ScanExactlyOnce(s, pid, query, run, b, t);
  }

  // ----- Bulk deletion -----

  ghost predicate NoneDead(items: seq<BloomTuple>, dead: set<Tid>) {
    forall i | 0 <= i < |items| :: items[i].heapPtr !in dead
  }

  /** No insertion of a heap pointer in `dead` is under way. */
  ghost predicate NoDeadPending(s: State, dead: set<Tid>) {
    forall pid | pid in s.procs && Pending(s.procs[pid]) :: s.procs[pid].t.heapPtr !in dead
  }

  /** The heap does not hand out a heap pointer in `dead` again during the run. */
  ghost predicate NoDeadInserted(run: seq<Action>, dead: set<Tid>) {
    forall i | 0 <= i < |run| :: run[i].BeginInsert? ==> run[i].t.heapPtr !in dead
  }

  /** Pages passed, and pages added since the start, hold no dead tuple. */
  ghost predicate VacuumSoFar(s: State, pid: Pid, dead: set<Tid>) {
    && pid in s.procs
    && match s.procs[pid]
       case Vacuuming(d, npages, blkno, _) =>
         d == dead && forall b: nat | b < blkno || npages <= b :: NoneDead(LiveAt(s.pages, b), dead)
       case Vacuumed => forall b: nat :: NoneDead(LiveAt(s.pages, b), dead)
       case _ => false
  }

  lemma EvolvesNoneDead(s: State, l: seq<BloomTuple>, l': seq<BloomTuple>, dead: set<Tid>)
    requires Evolves(s, l, l') && NoDeadPending(s, dead) && NoneDead(l, dead)
    ensures NoneDead(l', dead)
  {
    forall i | 0 <= i < |l'|
      ensures l'[i].heapPtr !in dead
    {
      if pid :| pid in s.procs && s.procs[pid].Vacuuming? && l' == Kept(l, s.procs[pid].dead) {
        KeptMember(l, s.procs[pid].dead, l'[i]);
      }
    }
  }

  lemma VacuumedNoneDead(p: Page, dead: set<Tid>)
    ensures NoneDead(Live(VacuumedPage(p, dead)), dead)
  {
    VacuumedPageLive(p, dead);
    var kept := Live(VacuumedPage(p, dead));
    forall i | 0 <= i < |kept|
      ensures kept[i].heapPtr !in dead
    {
      KeptMember(Live(p), dead, kept[i]);
    }
  }

  /** Pages without dead tuples stay that way. */
  lemma NoneDeadKept(s: State, a: Action, dead: set<Tid>)
    requires Inv(s) && Enabled(s, a) && NoDeadPending(s, dead)
    ensures forall b: nat | NoneDead(LiveAt(s.pages, b), dead) :: NoneDead(LiveAt(Apply(s, a).pages, b), dead)
  {
    var s' := Apply(s, a);
    var changed := StepPages(s, a);
    forall b: nat | NoneDead(LiveAt(s.pages, b), dead)
      ensures NoneDead(LiveAt(s'.pages, b), dead)
    {
      if b == changed {
        EvolvesNoneDead(s, LiveAt(s.pages, b), LiveAt(s'.pages, b), dead);
      }
    }
  }

  /** How far a bulk deletion can get in one step. */
  lemma VacuumProgress(s: State, a: Action, pid: Pid)
    requires Enabled(s, a) && pid in s.procs && (s.procs[pid].Vacuuming? || s.procs[pid].Vacuumed?)
    ensures pid in Apply(s, a).procs
    ensures var p, p' := s.procs[pid], Apply(s, a).procs[pid];
            || p' == p
            || (p.Vacuuming? && p'.Vacuumed? && p.blkno >= p.npages)
            || (p.Vacuuming? && p'.Vacuuming? && p'.dead == p.dead && p'.npages == p.npages
                && p'.blkno == p.blkno + 1 && p.blkno < p.npages <= |s.pages|
                && |Apply(s, a).pages| == |s.pages|
                && Apply(s, a).pages[p.blkno] == VacuumedPage(s.pages[p.blkno], p.dead))
  {
  }

  lemma {:induction false} VacuumStep(s: State, a: Action, pid: Pid, dead: set<Tid>)
    requires Inv(s) && Enabled(s, a) && NoDeadPending(s, dead) && VacuumSoFar(s, pid, dead)
    ensures VacuumSoFar(Apply(s, a), pid, dead)
  {
    VacuumProgress(s, a, pid);
    NoneDeadKept(s, a, dead);
    var p, s' := s.procs[pid], Apply(s, a);
    if p.Vacuuming? && p.blkno < |s.pages| {
      VacuumedNoneDead(s.pages[p.blkno], dead);
    }
    VacuumSoFarNext(s, s', pid, dead);
  }

  lemma VacuumSoFarNext(s: State, s': State, pid: Pid, dead: set<Tid>)
    requires VacuumSoFar(s, pid, dead) && pid in s'.procs
    requires forall b: nat | NoneDead(LiveAt(s.pages, b), dead) :: NoneDead(LiveAt(s'.pages, b), dead)
    requires var p, p' := s.procs[pid], s'.procs[pid];
             || p' == p
             || (p.Vacuuming? && p'.Vacuumed? && p.blkno >= p.npages)
             || (p.Vacuuming? && p'.Vacuuming? && p'.dead == p.dead && p'.npages == p.npages
                 && p'.blkno == p.blkno + 1 && NoneDead(LiveAt(s'.pages, p.blkno), dead))
    ensures VacuumSoFar(s', pid, dead)
  {
  }

  lemma PendingStep(s: State, a: Action, dead: set<Tid>)
    requires Enabled(s, a) && NoDeadPending(s, dead) && (a.BeginInsert? ==> a.t.heapPtr !in dead)
    ensures NoDeadPending(Apply(s, a), dead)
  {
  }

  lemma {:induction false} VacuumRun(s: State, run: seq<Action>, pid: Pid, dead: set<Tid>)
    requires Inv(s) && Legal(s, run) && NoDeadPending(s, dead) && NoDeadInserted(run, dead)
    requires VacuumSoFar(s, pid, dead)
    ensures VacuumSoFar(After(s, run), pid, dead)
    decreases |run|
  {
    if run != [] {
      StepKeeps(s, run[0]);
      VacuumStep(s, run[0], pid, dead);
      PendingStep(s, run[0], dead);
      forall i | 0 <= i < |run[1..]|
        ensures run[1..][i].BeginInsert? ==> run[1..][i].t.heapPtr !in dead
      {
        assert run[1..][i] == run[i + 1];
      }
      VacuumRun(Apply(s, run[0]), run[1..], pid, dead);
    }
  }

  /**
  A bulk deletion that runs to its end leaves no tuple with a heap pointer it was told to
  delete, on any page: pages added while it ran cannot hold any.
   */
  lemma {:induction false} BulkDeleteComplete(s: State, pid: Pid, dead: set<Tid>, run: seq<Action>)
    requires Inv(s) && Enabled(s, BeginVacuum(pid, dead)) && NoDeadPending(s, dead)
    requires Legal(Apply(s, BeginVacuum(pid, dead)), run) && NoDeadInserted(run, dead)
    requires var s' := After(Apply(s, BeginVacuum(pid, dead)), run);
             pid in s'.procs && s'.procs[pid].Vacuumed?
    ensures var s' := After(Apply(s, BeginVacuum(pid, dead)), run);
            forall b: nat | b < |s'.pages| :: NoneDead(Live(s'.pages[b]), dead)
  {
    var s1 := Apply(s, BeginVacuum(pid, dead));
    StepKeeps(s, BeginVacuum(pid, dead));
    VacuumRun(s1, run, pid, dead);
    var s' := After(s1, run);
    forall b: nat | b < |s'.pages|
      ensures NoneDead(Live(s'.pages[b]), dead)
    {
      assert NoneDead(LiveAt(s'.pages, b), dead);
    }
  }
}
