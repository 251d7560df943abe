/**
The page locks under the protocol steps (contrib/bloom/blinsert.c, blvacuum.c, blscan.c and
blutils.c). A process waits for a lock, takes a copy of the page, works on the copy, and stores it
when it releases the lock; other processes run in between. Every such run does what a run of
atomic protocol steps does, and no processes wait for each other in a circle.
 */
module BloomLocks {
  import opened Options
  import opened BloomPage
  import opened BloomProtocol

  datatype Mode = Share | Exclusive

  /** A lock on a block with what was read when it was obtained; block 0 is the metapage. */
  datatype Holding = Holding(block: nat, mode: Mode, page: Page, meta: Meta)

  /**
  The state with the locks that processes hold for one step. An insertion in its second phase also
  holds the metapage, which is `s.lock`.
   */
  datatype Locked = Locked(s: State, held: map<Pid, Holding>)

  datatype LockAction =
    | Begin(start: Action)
    | Acquire(pid: Pid)
    | TryAcquire(pid: Pid, blkno: nat)
    | Finish(pid: Pid)
    | GiveUp(pid: Pid)

  // ----- Who waits for what -----

  datatype Want = Nothing | Lock(block: nat, mode: Mode)

  /** No listed page is left: `BloomNewBuffer` takes page locks without waiting. */
  predicate Allocating(s: State, p: Process) {
    p.Walking? && p.at >= |s.meta.notFull|
  }

  /** The lock a process needs for its next step. */
  function Wants(s: State, p: Process): Want {
    match p
    case Inserting(_) => Lock(0, Share)
    case TryingFirst(_, blkno) => Lock(blkno, Exclusive)
    case Waiting(_, _) => Lock(0, Exclusive)
    case Walking(_, at) => if at < |s.meta.notFull| then Lock(s.meta.notFull[at], Exclusive) else Nothing
    case Vacuuming(_, npages, blkno, _) => Lock(if blkno < npages then blkno else 0, Exclusive)
    case Scanning(_, npages, blkno, _) => if blkno < npages then Lock(blkno, Share) else Nothing
    case _ => Nothing
  }

  /** The protocol step a process takes once it has its lock. */
  function StepOf(s: State, pid: Pid, p: Process, block: nat): Action {
    match p
    case Inserting(_) => ReadMeta(pid)
    case TryingFirst(_, _) => TryFirst(pid)
    case Waiting(_, _) => LockMeta(pid)
    case Walking(_, at) => if at < |s.meta.notFull| then TryNext(pid) else Allocate(pid, block)
    case Vacuuming(_, npages, blkno, _) => if blkno < npages then VacuumPage(pid) else WriteMeta(pid)
    case _ => ScanPage(pid)
  }

  /** Process q keeps pid from locking a block. */
  ghost predicate Conflicts(l: Locked, pid: Pid, block: nat, mode: Mode, q: Pid) {
    q != pid && (
      || (q in l.held && l.held[q].block == block && (mode == Exclusive || l.held[q].mode == Exclusive))
      || (block == 0 && l.s.lock == Some(q)))
  }

  ghost predicate Free(l: Locked, pid: Pid, block: nat, mode: Mode) {
    forall q :: !Conflicts(l, pid, block, mode, q)
  }

  /** Readers do not keep each other out, and different blocks are locked independently. */
  lemma {:induction false} NoConflict(l: Locked, pid: Pid, block: nat, mode: Mode, q: Pid)
    requires q in l.held && block != 0
    requires l.held[q].block != block || (mode == Share && l.held[q].mode == Share)
    ensures !Conflicts(l, pid, block, mode, q)
  {
  }

  /** Process p waits, and q has what it waits for. */
  ghost predicate Blocks(l: Locked, q: Pid, p: Pid) {
    && p in l.s.procs && p !in l.held && Wants(l.s, l.s.procs[p]).Lock?
    && Conflicts(l, p, Wants(l.s, l.s.procs[p]).block, Wants(l.s, l.s.procs[p]).mode, q)
  }

  // ----- Steps -----

  /** What a process reads when it obtains a lock. */
  function Take(s: State, block: nat, mode: Mode): Holding {
    Holding(block, mode, if block < |s.pages| then s.pages[block] else New, s.meta)
  }

  /** The state as the holder of a lock sees it: with its copy in place of the page. */
  function Seen(s: State, h: Holding): State {
    s.(pages := if 0 < h.block < |s.pages| then s.pages[h.block := h.page] else s.pages,
       meta := if h.block == 0 then h.meta else s.meta)
  }

  ghost predicate CanTake(l: Locked, a: LockAction) {
    match a
    case Begin(start) =>
      (start.BeginInsert? || start.BeginVacuum? || start.BeginScan? || start.ExtendFile?) && Enabled(l.s, start)
    case Acquire(pid) =>
      && pid in l.s.procs && pid !in l.held && Wants(l.s, l.s.procs[pid]).Lock?
      && Free(l, pid, Wants(l.s, l.s.procs[pid]).block, Wants(l.s, l.s.procs[pid]).mode)
    case TryAcquire(pid, blkno) =>
      && pid in l.s.procs && pid !in l.held && Allocating(l.s, l.s.procs[pid])
      && 1 <= blkno <= |l.s.pages| && Free(l, pid, blkno, Exclusive)
    case Finish(pid) =>
      && pid in l.s.procs && pid in l.held && CanFinish(l.s, pid, l.held[pid])
    case GiveUp(pid) =>
      && pid in l.s.procs && pid in l.held && Allocating(l.s, l.s.procs[pid]) && !Unused(l.held[pid].page)
  }

  ghost predicate CanFinish(s: State, pid: Pid, h: Holding)
    requires pid in s.procs
  {
    Enabled(Seen(s, h), StepOf(s, pid, s.procs[pid], h.block))
  }

  /** The step on the copy; a share lock stores nothing. */
  ghost function AfterStep(s: State, pid: Pid, h: Holding): State
    requires pid in s.procs && CanFinish(s, pid, h)
  {
    var r := Apply(Seen(s, h), StepOf(s, pid, s.procs[pid], h.block));
    if h.mode == Share then r.(pages := s.pages, meta := s.meta) else r
  }

  ghost function Next(l: Locked, a: LockAction): Locked
    requires CanTake(l, a)
  {
    match a
    case Begin(start) => l.(s := Apply(l.s, start))
    case Acquire(pid) =>
      var w := Wants(l.s, l.s.procs[pid]);
      l.(held := l.held[pid := Take(l.s, w.block, w.mode)])
    case TryAcquire(pid, blkno) => l.(held := l.held[pid := Take(l.s, blkno, Exclusive)])
    case Finish(pid) => Locked(AfterStep(l.s, pid, l.held[pid]), l.held - {pid})
    case GiveUp(pid) => l.(held := l.held - {pid})
  }

  // ----- What holds in every state -----

  /** A lock held is the one needed, and what was read under it is still so. */
  ghost predicate HoldingOk(s: State, p: Process, h: Holding) {
    && (Wants(s, p) == Lock(h.block, h.mode) || (Allocating(s, p) && h.mode == Exclusive && 1 <= h.block <= |s.pages|))
    && h.page == (if h.block < |s.pages| then s.pages[h.block] else New)
    && (h.block == 0 ==> h.meta == s.meta && s.lock.None?)
  }

  ghost predicate Compatible(held: map<Pid, Holding>) {
    forall p, q | p in held && q in held && p != q && held[p].block == held[q].block ::
      held[p].mode == Share && held[q].mode == Share
  }

  ghost predicate LockInv(l: Locked) {
    && Inv(l.s) && Compatible(l.held)
    && forall pid | pid in l.held :: pid in l.s.procs && HoldingOk(l.s, l.s.procs[pid], l.held[pid])
  }

  /** Under the invariant the copy is the page, so that the step is the atomic one. */
  lemma {:induction false} SeenIsState(s: State, p: Process, h: Holding)
    requires HoldingOk(s, p, h)
    ensures Seen(s, h) == s
  {
  }

  /** A process that has its lock can finish its step, or give the page up. */
  lemma {:induction false} HolderCanStep(l: Locked, pid: Pid)
    requires LockInv(l) && pid in l.held
    ensures CanTake(l, Finish(pid)) || CanTake(l, GiveUp(pid))
  {
    var p, h := l.s.procs[pid], l.held[pid];
    SeenIsState(l.s, p, h);
    assert ProcessOk(l.s, pid);
  }

  // ----- Every step keeps the invariant -----

  /** What the step of a lock holder changes: the block it has locked, and the metapage if that is its own. */
  ghost predicate ChangesOwn(s: State, s': State, pid: Pid, h: Holding)
    requires pid in s.procs
  {
    && pid in s'.procs && s'.procs == s.procs[pid := s'.procs[pid]]
    && |s.pages| <= |s'.pages| && (|s'.pages| > |s.pages| ==> Allocating(s, s.procs[pid]))
    && (forall c | 0 <= c < |s.pages| && c != h.block :: s'.pages[c] == s.pages[c])
    && (h.mode == Share ==> s'.pages == s.pages && s'.meta == s.meta && s'.lock == s.lock)
    && ((s'.meta == s.meta && s'.lock == s.lock) || s.lock == Some(pid) || h.block == 0)
  }

  /** The steps of an insertion that holds the metapage. */
  lemma {:induction false} WalkingChangesOwn(s: State, pid: Pid, h: Holding)
    requires Inv(s) && pid in s.procs && HoldingOk(s, s.procs[pid], h) && s.procs[pid].Walking?
    requires Enabled(s, StepOf(s, pid, s.procs[pid], h.block))
    ensures ChangesOwn(s, Apply(s, StepOf(s, pid, s.procs[pid], h.block)), pid, h)
  {
    assert ProcessOk(s, pid);
  }

  /** The first attempt of an insertion. */
  lemma {:induction false} TryingChangesOwn(s: State, pid: Pid, h: Holding)
    requires Inv(s) && pid in s.procs && HoldingOk(s, s.procs[pid], h) && s.procs[pid].TryingFirst?
    requires Enabled(s, StepOf(s, pid, s.procs[pid], h.block))
    ensures ChangesOwn(s, Apply(s, StepOf(s, pid, s.procs[pid], h.block)), pid, h)
  {
    assert ProcessOk(s, pid);
  }

  /** The steps of a bulk deletion. */
  lemma {:induction false} VacuumingChangesOwn(s: State, pid: Pid, h: Holding)
    requires Inv(s) && pid in s.procs && HoldingOk(s, s.procs[pid], h) && s.procs[pid].Vacuuming?
    requires Enabled(s, StepOf(s, pid, s.procs[pid], h.block))
    ensures ChangesOwn(s, Apply(s, StepOf(s, pid, s.procs[pid], h.block)), pid, h)
  {
    assert ProcessOk(s, pid);
  }

  /** Steps that change no page. */
  lemma {:induction false} ReadingChangesOwn(s: State, pid: Pid, h: Holding)
    requires Inv(s) && pid in s.procs && HoldingOk(s, s.procs[pid], h) && (s.procs[pid].Inserting? || s.procs[pid].Waiting? || s.procs[pid].Scanning?)
    requires Enabled(s, StepOf(s, pid, s.procs[pid], h.block))
    ensures ChangesOwn(s, Apply(s, StepOf(s, pid, s.procs[pid], h.block)), pid, h)
  {
    assert ProcessOk(s, pid);
  }

  lemma {:induction false} StepChangesOwn(s: State, pid: Pid, h: Holding)
    requires Inv(s) && pid in s.procs && HoldingOk(s, s.procs[pid], h)
    requires Enabled(s, StepOf(s, pid, s.procs[pid], h.block))
    ensures ChangesOwn(s, Apply(s, StepOf(s, pid, s.procs[pid], h.block)), pid, h)
  {
    match s.procs[pid]
    case Walking(_, _) => WalkingChangesOwn(s, pid, h);
    case TryingFirst(_, _) => TryingChangesOwn(s, pid, h);
    case Vacuuming(_, _, _, _) => VacuumingChangesOwn(s, pid, h);
    case _ => ReadingChangesOwn(s, pid, h);
  }

  /** A holding of another process stays in order. */
  lemma {:induction false} OtherHoldingOk(l: Locked, s': State, pid: Pid, q: Pid)
    requires LockInv(l) && pid in l.held && q in l.held && q != pid
    requires ChangesOwn(l.s, s', pid, l.held[pid])
    ensures q in s'.procs && HoldingOk(s', s'.procs[q], l.held[q])
  {
    var s, h, k := l.s, l.held[pid], l.held[q];
    assert ProcessOk(s, q) && ProcessOk(s, pid);
    assert k.block == h.block ==> k.mode == Share && h.mode == Share;
    assert s.procs[q].Walking? ==> s'.meta == s.meta;
  }

  lemma {:induction false} FinishKeeps(l: Locked, pid: Pid)
    requires LockInv(l) && CanTake(l, Finish(pid))
    ensures Enabled(l.s, StepOf(l.s, pid, l.s.procs[pid], l.held[pid].block))
    ensures Next(l, Finish(pid)).s == Apply(l.s, StepOf(l.s, pid, l.s.procs[pid], l.held[pid].block))
    ensures LockInv(Next(l, Finish(pid)))
  {
    var h := l.held[pid];
    var a := StepOf(l.s, pid, l.s.procs[pid], h.block);
    SeenIsState(l.s, l.s.procs[pid], h);
    StepKeeps(l.s, a);
    StepChangesOwn(l.s, pid, h);
    var l' := Next(l, Finish(pid));
    forall q | q in l'.held
      ensures q in l'.s.procs && HoldingOk(l'.s, l'.s.procs[q], l'.held[q])
    {
      OtherHoldingOk(l, l'.s, pid, q);
    }
  }

  lemma {:induction false} AcquireKeeps(l: Locked, pid: Pid, block: nat, mode: Mode)
    requires LockInv(l) && pid in l.s.procs && pid !in l.held && Free(l, pid, block, mode)
    requires Wants(l.s, l.s.procs[pid]) == Lock(block, mode) ||
             (Allocating(l.s, l.s.procs[pid]) && mode == Exclusive && 1 <= block <= |l.s.pages|)
    ensures LockInv(l.(held := l.held[pid := Take(l.s, block, mode)]))
  {
    assert ProcessOk(l.s, pid);
    if block == 0 && l.s.lock.Some? {
      assert Conflicts(l, pid, block, mode, l.s.lock.value);
    }
    forall q | q in l.held && l.held[q].block == block
      ensures l.held[q].mode == Share && mode == Share
    {
      assert !Conflicts(l, pid, block, mode, q);
    }
  }

  lemma {:induction false} BeginKeeps(l: Locked, a: Action)
    requires LockInv(l) && CanTake(l, Begin(a))
    ensures LockInv(l.(s := Apply(l.s, a)))
  {
    var s' := Apply(l.s, a);
    StepKeeps(l.s, a);
    forall q | q in l.held
      ensures q in s'.procs && HoldingOk(s', s'.procs[q], l.held[q])
    {
      assert ProcessOk(l.s, q);
    }
  }

  /** The protocol steps that a step with locks amounts to: none, or one. */
  ghost function Projected(l: Locked, a: LockAction): seq<Action>
    requires CanTake(l, a)
  {
    match a
    case Begin(start) => [start]
    case Finish(pid) => [StepOf(l.s, pid, l.s.procs[pid], l.held[pid].block)]
    case _ => []
  }

  /** Every step with locks keeps the invariant and is an atomic protocol step or none. */
  lemma {:induction false} LockStepKeeps(l: Locked, a: LockAction)
    requires LockInv(l) && CanTake(l, a)
    ensures LockInv(Next(l, a))
    ensures var run := Projected(l, a);
            if run == [] then Next(l, a).s == l.s
            else Enabled(l.s, run[0]) && Next(l, a).s == Apply(l.s, run[0])
  {
    match a
    case Begin(start) => BeginKeeps(l, start);
    case Acquire(pid) => AcquireKeeps(l, pid, Wants(l.s, l.s.procs[pid]).block, Wants(l.s, l.s.procs[pid]).mode);
    case TryAcquire(pid, blkno) => AcquireKeeps(l, pid, blkno, Exclusive);
    case Finish(pid) => FinishKeeps(l, pid);
    case GiveUp(pid) =>
  }

  // ----- Runs with locks -----

  ghost predicate LegalRun(l: Locked, run: seq<LockAction>)
    decreases |run|
  {
    run == [] || (CanTake(l, run[0]) && LegalRun(Next(l, run[0]), run[1..]))
  }

  ghost function AfterRun(l: Locked, run: seq<LockAction>): Locked
    requires LegalRun(l, run)
    decreases |run|
  {
    if run == [] then l else AfterRun(Next(l, run[0]), run[1..])
  }

  /**
  Locks make steps atomic: whatever processes do between obtaining a lock and releasing it, the
  outcome is that of a run of atomic protocol steps.
   */
  lemma {:induction false} LocksMakeAtomic(l: Locked, run: seq<LockAction>) returns (steps: seq<Action>)
    requires LockInv(l) && LegalRun(l, run)
    ensures LockInv(AfterRun(l, run))
    ensures Legal(l.s, steps) && After(l.s, steps) == AfterRun(l, run).s
    decreases |run|
  {
    if run == [] {
      steps := [];
    } else {
      LockStepKeeps(l, run[0]);
      var rest := LocksMakeAtomic(Next(l, run[0]), run[1..]);
      var first := Projected(l, run[0]);
      steps := first + rest;
      if first == [] {
        assert steps == rest;
      } else {
        assert steps[1..] == rest && steps[0] == first[0];
      }
    }
  }

  /** No tuple is lost in any run with locks that starts from an empty index. */
  lemma {:induction false} NoTupleLostWithLocks(words: int, run: seq<LockAction>)
    requires 1 <= words <= 256 && LegalRun(Locked(Init(words), map[]), run)
    ensures var s := AfterRun(Locked(Init(words), map[]), run).s;
            s.vacuumed <= s.acked && Contents(s.pages) == s.acked - s.vacuumed
  {
    var l := Locked(Init(words), map[]);
    NoTupleLost(words, []);
    assert Inv(Init(words)) by { assert Contents([New][..0]) == multiset{}; }
    var steps := LocksMakeAtomic(l, run);
    NoTupleLost(words, steps);
  }

  // ----- No circular wait -----

  /** 0 for a process that does not wait, 1 for one that waits for a data page, 2 for the metapage. */
  ghost function WaitRank(l: Locked, p: Pid): nat {
    if !(exists q :: Blocks(l, q, p)) then 0
    else if p in l.s.procs && Wants(l.s, l.s.procs[p]) == Lock(0, Share) then 2
    else if p in l.s.procs && Wants(l.s, l.s.procs[p]) == Lock(0, Exclusive) then 2
    else 1
  }

  /** Whoever blocks a process waits for less than it does, so there is no circle of waiting processes. */
  lemma {:induction false} NoWaitCycle(l: Locked, p: Pid, q: Pid)
    requires LockInv(l) && Blocks(l, q, p)
    ensures WaitRank(l, q) < WaitRank(l, p)
  {
    if q !in l.held {
      assert l.s.procs[q].Walking?;
      assert ProcessOk(l.s, q);
    }
  }

  ghost predicate CanStep(l: Locked, p: Pid) {
    CanTake(l, Acquire(p)) || CanTake(l, Finish(p)) || CanTake(l, GiveUp(p)) || exists b :: CanTake(l, TryAcquire(p, b))
  }

  /** A process that has not finished and is not blocked can step. */
  lemma {:induction false} UnblockedCanStep(l: Locked, p: Pid)
    requires LockInv(l) && p in l.s.procs && !Finished(l.s.procs[p])
    requires !exists q :: Blocks(l, q, p)
    ensures CanStep(l, p)
  {
    var w := Wants(l.s, l.s.procs[p]);
    assert ProcessOk(l.s, p);
    if p in l.held {
      HolderCanStep(l, p);
    } else if w.Lock? {
      forall q
        ensures !Conflicts(l, p, w.block, w.mode, q)
      {
        assert !Blocks(l, q, p);
      }
    } else {
      NewPageIsFree(l, p);
      assert CanTake(l, TryAcquire(p, |l.s.pages|));
    }
  }

  lemma {:induction false} NewPageIsFree(l: Locked, p: Pid)
    requires LockInv(l) && p in l.s.procs && Allocating(l.s, l.s.procs[p])
    ensures Free(l, p, |l.s.pages|, Exclusive)
  {
    assert ProcessOk(l.s, p);
    forall q
      ensures !Conflicts(l, p, |l.s.pages|, Exclusive, q)
    {
      if q in l.held && q != p {
        assert ProcessOk(l.s, q);
      }
    }
  }

  /**
  No deadlock: a process that has not finished can step, or the one that blocks it can, or the one
  that blocks that one.
   */
  lemma {:induction false} NoDeadlock(l: Locked, p: Pid) returns (q: Pid)
    requires LockInv(l) && p in l.s.procs && !Finished(l.s.procs[p])
    ensures CanStep(l, q)
    ensures q == p || Blocks(l, q, p) || exists r :: Blocks(l, r, p) && Blocks(l, q, r)
  {
    q := p;
    if q1 :| Blocks(l, q1, p) {
      NoWaitCycle(l, p, q1);
      q := q1;
      if q2 :| Blocks(l, q2, q1) {
        NoWaitCycle(l, q1, q2);
        q := q2;
      }
    }
    BlockerUnfinished(l, p, q);
    UnblockedCanStep(l, q);
  }

  lemma {:induction false} BlockerUnfinished(l: Locked, p: Pid, q: Pid)
    requires LockInv(l) && p in l.s.procs && !Finished(l.s.procs[p])
    requires q == p || exists r :: Blocks(l, q, r)
    ensures q in l.s.procs && !Finished(l.s.procs[q])
  {
    if q in l.held {
      assert HoldingOk(l.s, l.s.procs[q], l.held[q]);
    }
  }
}
