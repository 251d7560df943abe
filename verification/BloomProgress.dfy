/**
How far the processes using a bloom index get (contrib/bloom/blinsert.c, blvacuum.c and blscan.c):
which listed pages an insertion tries, and a bound on the steps each process takes.
 */
module BloomProgress {
  import opened Options
  import opened BloomPage
  import opened BloomProtocol

  /**
  An insertion that takes the metapage lock starts at the first listed page, unless that is the
  page it has just tried, which it does not try again.
   */
  lemma {:induction false} NoPagePassedOver(s: State, pid: Pid)
    requires Enabled(s, LockMeta(pid))
    ensures var p, p', meta := s.procs[pid], Apply(s, LockMeta(pid)).procs[pid], s.meta;
            p'.Walking? && meta == Apply(s, LockMeta(pid)).meta &&
            if meta.nStart < |meta.notFull| && p.tried == Some(meta.notFull[meta.nStart])
            then p'.at == meta.nStart + 1
            else p'.at == meta.nStart
  {
  }

  /** A listed page is left behind only if the tuple does not fit. */
  lemma {:induction false} PassedOnlyIfFull(s: State, pid: Pid)
    requires Inv(s) && Enabled(s, TryNext(pid))
    ensures var p, s' := s.procs[pid], Apply(s, TryNext(pid));
            var page := s.pages[s.meta.notFull[p.at]];
            if InsertOnPage(s.words, page, p.t).Some?
            then s'.procs[pid].Inserted? && s'.acked == s.acked + multiset{p.t} && s'.meta.nStart == p.at && s'.lock.None?
            else s'.procs[pid] == Walking(p.t, p.at + 1) && s'.pages == s.pages && s'.meta == s.meta
  {
  }

  /** A bound on the steps a process has left. */
  function StepsLeft(s: State, p: Process): int {
    match p
    case Inserting(_) => META_BLOCKS + 4
    case TryingFirst(_, _) => META_BLOCKS + 3
    case Waiting(_, _) => META_BLOCKS + 2
    case Walking(_, at) => |s.meta.notFull| - at + 1
    case Inserted => 0
    case Vacuuming(_, npages, blkno, _) => npages - blkno + 1
    case Vacuumed => 0
    case Scanning(_, npages, blkno, _) => npages - blkno
  }

  /** The list position of an insertion stays within the list. */
  ghost predicate AtOk(s: State) {
    forall pid | pid in s.procs && s.procs[pid].Walking? :: s.procs[pid].at <= |s.meta.notFull|
  }

  predicate IsStep(a: Action) {
    !a.ExtendFile? && !a.BeginInsert? && !a.BeginVacuum? && !a.BeginScan?
  }

  ghost predicate Fewer(s: State, a: Action)
    requires Enabled(s, a) && IsStep(a)
  {
    && a.pid in s.procs && a.pid in Apply(s, a).procs
    && 0 <= StepsLeft(Apply(s, a), Apply(s, a).procs[a.pid]) < StepsLeft(s, s.procs[a.pid])
  }

  lemma {:induction false} ListedStep(s: State, a: Action)
    requires Inv(s) && AtOk(s) && Enabled(s, a) && (a.TryFirst? || a.TryNext? || a.Allocate?)
    ensures Fewer(s, a)
  {
    assert ProcessOk(s, a.pid);
    UnusedPageHasRoom(s.words, New, s.procs[a.pid].t);
  }

  lemma {:induction false} LockingStep(s: State, a: Action)
    requires Inv(s) && AtOk(s) && Enabled(s, a) && (a.ReadMeta? || a.LockMeta?)
    ensures Fewer(s, a)
  {
  }

  lemma {:induction false} ReadingStep(s: State, a: Action)
    requires Inv(s) && Enabled(s, a) && (a.VacuumPage? || a.WriteMeta? || a.ScanPage?)
    ensures Fewer(s, a)
  {
    assert ProcessOk(s, a.pid);
  }

  /** A process that takes a step has fewer of them left. */
  lemma {:induction false} OwnStep(s: State, a: Action)
    requires Inv(s) && AtOk(s) && Enabled(s, a) && IsStep(a)
    ensures Fewer(s, a)
  {
    if a.TryFirst? || a.TryNext? || a.Allocate? {
      ListedStep(s, a);
    } else if a.ReadMeta? || a.LockMeta? {
      LockingStep(s, a);
    } else {
      ReadingStep(s, a);
    }
  }

  /** A process that does not take the step keeps its place, and has no more steps left than before. */
  lemma {:induction false} OthersStep(s: State, a: Action, pid: Pid)
    requires Inv(s) && Enabled(s, a) && pid in s.procs && (a.ExtendFile? || a.pid != pid)
    ensures pid in Apply(s, a).procs && Apply(s, a).procs[pid] == s.procs[pid]
    ensures StepsLeft(Apply(s, a), s.procs[pid]) == StepsLeft(s, s.procs[pid])
  {
    assert ProcessOk(s, pid);
    if !a.ExtendFile? && a.pid in s.procs {
      assert ProcessOk(s, a.pid);
    }
  }

  lemma {:induction false} AtOkKept(s: State, a: Action)
    requires Inv(s) && AtOk(s) && Enabled(s, a)
    ensures AtOk(Apply(s, a))
  {
    var s' := Apply(s, a);
    forall pid | pid in s'.procs && s'.procs[pid].Walking?
      ensures s'.procs[pid].at <= |s'.meta.notFull|
    {
      if pid in s.procs && (a.ExtendFile? || a.pid != pid) {
        OthersStep(s, a, pid);
      }
    }
  }

  /** How many steps of a run a process takes after it has begun. */
  function OwnSteps(run: seq<Action>, pid: Pid): nat {
    if run == [] then 0 else (if IsStep(run[0]) && run[0].pid == pid then 1 else 0) + OwnSteps(run[1..], pid)
  }

  /** In no run does a process take more steps than it has left. */
  lemma {:induction false} StepsBounded(s: State, run: seq<Action>, pid: Pid)
    requires Inv(s) && AtOk(s) && Legal(s, run) && pid in s.procs
    ensures pid in After(s, run).procs && AtOk(After(s, run))
    ensures OwnSteps(run, pid) + StepsLeft(After(s, run), After(s, run).procs[pid]) <= StepsLeft(s, s.procs[pid])
    ensures StepsLeft(After(s, run), After(s, run).procs[pid]) >= 0
    decreases |run|
  {
    if run == [] {
      assert ProcessOk(s, pid);
    } else {
      StepKeeps(s, run[0]);
      AtOkKept(s, run[0]);
      if !run[0].ExtendFile? && run[0].pid == pid {
        assert IsStep(run[0]);
        OwnStep(s, run[0]);
      } else {
        OthersStep(s, run[0], pid);
      }
      StepsBounded(Apply(s, run[0]), run[1..], pid);
    }
  }

  /** Whatever the others do, an insertion takes at most BloomMetaBlockN + 4 steps. */
  lemma {:induction false} InsertionEnds(s: State, run: seq<Action>, pid: Pid)
    requires Inv(s) && AtOk(s) && Legal(s, run) && pid in s.procs && s.procs[pid].Inserting?
    ensures pid in After(s, run).procs && OwnSteps(run, pid) <= META_BLOCKS + 4
  {
    StepsBounded(s, run, pid);
  }
}
