/**
The walk to the left over half-dead pages in contrib/amcheck/verify_nbtree.c
(`bt_leftmost_ignoring_half_dead`). The page graph is finite and does not change, but its
links may be arbitrary: the index may be corrupt.
 */
module HalfDeadChain {

  const P_NONE: nat := 0

  datatype BtPage = BtPage(prev: nat, next: nat, halfDead: bool)

  /** The pages that can be read; reading any other block raises an error. */
  type PageGraph = map<nat, BtPage>

  datatype Outcome = Leftmost(allHalfDead: bool) | Unreadable(blkno: nat)

  /** The test the loop makes on a page it reached from its right sibling. */
  predicate GoodLink(pages: PageGraph, start: nat, from: nat, reached: nat) {
    && reached in pages && pages[reached].halfDead
    && reached != start && reached != from && pages[reached].next == from
  }

  /** chain leads from `from` through `reached` to the left end, over good links only. */
  ghost predicate IsChain(pages: PageGraph, start: nat, from: nat, reached: nat, chain: seq<nat>)
    decreases chain
  {
    if chain == [] then reached == P_NONE
    else
      && reached != P_NONE && chain[0] == reached && GoodLink(pages, start, from, reached)
      && IsChain(pages, start, reached, pages[reached].prev, chain[1..])
  }

  /** The left end can be reached through sibling-linked half-dead pages only. */
  ghost predicate ReachesEnd(pages: PageGraph, start: nat, from: nat, reached: nat) {
    exists chain :: IsChain(pages, start, from, reached, chain)
  }

  lemma ReachesEndStep(pages: PageGraph, start: nat, from: nat, reached: nat)
    ensures reached == P_NONE ==> ReachesEnd(pages, start, from, reached)
    ensures reached != P_NONE && !GoodLink(pages, start, from, reached) ==> !ReachesEnd(pages, start, from, reached)
    ensures reached != P_NONE && GoodLink(pages, start, from, reached) ==>
              (ReachesEnd(pages, start, from, reached) <==>
               ReachesEnd(pages, start, reached, pages[reached].prev))
  {
    if reached == P_NONE {
      assert IsChain(pages, start, from, reached, []);
    } else if GoodLink(pages, start, from, reached) {
      if ReachesEnd(pages, start, reached, pages[reached].prev) {
        var rest :| IsChain(pages, start, reached, pages[reached].prev, rest);
        assert ([reached] + rest)[1..] == rest;
        assert IsChain(pages, start, from, reached, [reached] + rest);
      }
      if ReachesEnd(pages, start, from, reached) {
        var chain :| IsChain(pages, start, from, reached, chain);
        assert IsChain(pages, start, reached, pages[reached].prev, chain[1..]);
      }
    }
  }

  /** The left link followed from a block; that of the start is given. */
  function LeftOf(pages: PageGraph, start: nat, startPrev: nat, b: nat): nat
    requires b != start ==> b in pages
  {
    if b == start then startPrev else pages[b].prev
  }

  /**
  The blocks accepted so far, from the start leftwards: each one behind the start is a readable
  half-dead page reached over the left link of the one before it, and its right link leads back.
   */
  ghost predicate IsPath(pages: PageGraph, start: nat, startPrev: nat, path: seq<nat>) {
    && path != [] && path[0] == start
    && (forall k | 1 <= k < |path| ::
          && path[k] in pages && path[k] != start && path[k] != P_NONE && pages[path[k]].halfDead
          && pages[path[k]].next == path[k - 1])
    && (forall k | 1 <= k < |path| :: path[k] == LeftOf(pages, start, startPrev, path[k - 1]))
    && (forall j, k | 0 <= j < k < |path| :: path[j] != path[k])
  }

  /** A path that ends at the left end of the level. */
  ghost predicate WholePath(pages: PageGraph, start: nat, startPrev: nat, path: seq<nat>) {
    IsPath(pages, start, startPrev, path) && LeftOf(pages, start, startPrev, path[|path| - 1]) == P_NONE
  }

  /**
  A page that passes the test was not accepted before: its right link points to the page it was
  reached from, so a repeat would have the same right neighbour, and so on back to the start.
   */
  lemma NeverRepeats(pages: PageGraph, start: nat, startPrev: nat, path: seq<nat>, reached: nat)
    requires IsPath(pages, start, startPrev, path) && reached != P_NONE
    requires reached == LeftOf(pages, start, startPrev, path[|path| - 1])
    requires GoodLink(pages, start, path[|path| - 1], reached)
    ensures reached !in path && IsPath(pages, start, startPrev, path + [reached])
  {
    forall j | 0 <= j < |path|
      ensures path[j] != reached
    {
      if j >= 1 {
        assert pages[path[j]].next == path[j - 1] && path[j - 1] != path[|path| - 1];
      }
    }
  }

  /** Good links from the end of a path to the left end of the level complete the path. */
  lemma {:induction false} ChainCompletes(pages: PageGraph, start: nat, startPrev: nat, path: seq<nat>, chain: seq<nat>)
    returns (whole: seq<nat>)
    requires IsPath(pages, start, startPrev, path)
    requires IsChain(pages, start, path[|path| - 1], LeftOf(pages, start, startPrev, path[|path| - 1]), chain)
    ensures WholePath(pages, start, startPrev, whole)
    decreases chain
  {
    if chain == [] {
      whole := path;
    } else {
      NeverRepeats(pages, start, startPrev, path, chain[0]);
      whole := ChainCompletes(pages, start, startPrev, path + [chain[0]], chain[1..]);
    }
  }

  /** The rest of a whole path is a chain of good links. */
  lemma {:induction false} PathIsChain(pages: PageGraph, start: nat, startPrev: nat, whole: seq<nat>, i: nat)
    requires WholePath(pages, start, startPrev, whole) && i < |whole|
    ensures IsChain(pages, start, whole[i], LeftOf(pages, start, startPrev, whole[i]), whole[i + 1..])
    decreases |whole| - i
  {
    if i + 1 < |whole| {
      PathIsChain(pages, start, startPrev, whole, i + 1);
      assert whole[i + 1..][1..] == whole[i + 2..];
    }
  }

  /** Good links reach the left end exactly if there is a path of half-dead pages to it. */
  lemma {:induction false} ReachesEndIff(pages: PageGraph, start: nat, startPrev: nat)
    ensures ReachesEnd(pages, start, start, startPrev) <==> exists path :: WholePath(pages, start, startPrev, path)
  {
    if ReachesEnd(pages, start, start, startPrev) {
      var chain :| IsChain(pages, start, start, startPrev, chain);
      assert IsPath(pages, start, startPrev, [start]);
      var whole := ChainCompletes(pages, start, startPrev, [start], chain);
    }
    if whole :| WholePath(pages, start, startPrev, whole) {
      PathIsChain(pages, start, startPrev, whole, 0);
    }
  }

  lemma {:induction false} PathFits(pages: PageGraph, start: nat, startPrev: nat, path: seq<nat>, visited: set<nat>)
    requires IsPath(pages, start, startPrev, path)
    requires visited == set k | 1 <= k < |path| :: path[k]
    ensures |visited| == |path| - 1 && |visited| <= |pages|
    decreases |path|
  {
    assert visited <= pages.Keys;
    SubsetSize(visited, pages.Keys);
    if |path| > 1 {
      var n := |path| - 1;
      var front := set k | 1 <= k < |path[..n]| :: path[..n][k];
      PathFits(pages, start, startPrev, path[..n], front);
      assert visited == front + {path[n]} && path[n] !in front;
    } else {
      assert visited == {};
    }
  }

  lemma {:induction false} SubsetSize(a: set<nat>, b: set<nat>)
    requires a <= b
    ensures |a| <= |b|
    decreases |a|
  {
    if a != {} {
      var x :| x in a;
      SubsetSize(a - {x}, b - {x});
    }
  }

  /**
  The loop ends on every page graph, accepts no block twice, and answers true exactly when a path
  of half-dead pages, each the left neighbour of the one before and linked back to it, leads to the
  left end.
   */
  method LeftmostIgnoringHalfDead(pages: PageGraph, start: nat, startPrev: nat)
    returns (r: Outcome, path: seq<nat>)
    ensures IsPath(pages, start, startPrev, path) && |path| <= |pages| + 1
    ensures r.Leftmost? && r.allHalfDead <==> exists whole :: WholePath(pages, start, startPrev, whole)
    ensures var left := LeftOf(pages, start, startPrev, path[|path| - 1]);
            match r
            case Unreadable(blkno) => blkno == left && left != P_NONE && left !in pages
            case Leftmost(all) => if all then left == P_NONE else left != P_NONE && left in pages
  {
    var reached, from := startPrev, start;
    var all := true;
    path := [start];
    ReachesEndIff(pages, start, startPrev);
    while reached != P_NONE && all
      invariant IsPath(pages, start, startPrev, path) && path[|path| - 1] == from && |path| <= |pages| + 1
      invariant reached == LeftOf(pages, start, startPrev, from) && (!all ==> reached != P_NONE && reached in pages)
      invariant if all
                then ReachesEnd(pages, start, start, startPrev) <==> ReachesEnd(pages, start, from, reached)
                else !ReachesEnd(pages, start, start, startPrev)
      decreases |pages| + 1 - |path|, all
    {
      ReachesEndStep(pages, start, from, reached);
      if reached !in pages {
        return Unreadable(reached), path;
      }
      all := GoodLink(pages, start, from, reached);
      if all {
        NeverRepeats(pages, start, startPrev, path, reached);
        path := path + [reached];
        PathFits(pages, start, startPrev, path, set k | 1 <= k < |path| :: path[k]);
        from := reached;
        reached := pages[reached].prev;
      }
    }
    ReachesEndStep(pages, start, from, reached);
    r := Leftmost(all);
  }
}
