/**
The uniqueness check over one leaf page in contrib/amcheck/verify_nbtree.c
(`bt_entry_unique_check` and its calls in `bt_target_page_check`), up to the step that looks at
the next page. A key's first appearance is checked only if a second one follows.
 */
module UniqueCheck {
  import opened Options

  type Tid = int

  /** An index key; two keys are compared without their heap pointers. */
  datatype Key = Key(value: int, anyNull: bool)

  /** An index tuple: a posting list tuple holds several heap pointers, any other exactly one. */
  datatype Item = Item(key: Key, posting: bool, tids: seq<Tid>)

  /** `BtreeLastVisibleEntry`, when its heap pointer is valid. */
  datatype LastVisible = LastVisible(offset: nat, postingIndex: int, tid: Tid)

  predicate ValidPage(items: seq<Item>) {
    forall i | 0 <= i < |items| :: !items[i].posting ==> |items[i].tids| == 1
  }

  // ----- What the check is for -----

  /** How many of the first n heap pointers are visible. */
  function VisibleIn(tids: seq<Tid>, visible: set<Tid>, n: nat): nat
    requires n <= |tids|
  {
    if n == 0 then 0 else VisibleIn(tids, visible, n - 1) + (if tids[n - 1] in visible then 1 else 0)
  }

  function VisibleOf(item: Item, visible: set<Tid>): nat {
    VisibleIn(item.tids, visible, |item.tids|)
  }

  /** How many heap pointers of the items from lo up to hi are visible. */
  function VisibleBetween(items: seq<Item>, visible: set<Tid>, lo: nat, hi: nat): nat
    requires lo <= hi <= |items|
  {
    if lo == hi then 0 else VisibleBetween(items, visible, lo, hi - 1) + VisibleOf(items[hi - 1], visible)
  }

  /** The items from lo to hi inclusive all have the same key, without nulls. */
  ghost predicate SameKey(items: seq<Item>, lo: nat, hi: nat) {
    lo <= hi < |items| && !items[hi].key.anyNull && forall k | lo <= k <= hi :: items[k].key == items[hi].key
  }

  /** Some run of equal non-null keys has two or more visible heap pointers. */
  ghost predicate HasDuplicate(items: seq<Item>, visible: set<Tid>) {
    exists lo: nat, hi: nat :: SameKey(items, lo, hi) && VisibleBetween(items, visible, lo, hi + 1) >= 2
  }

  lemma {:induction false} VisibleMonotone(items: seq<Item>, visible: set<Tid>, lo: nat, lo': nat, hi: nat)
    requires lo <= lo' <= hi <= |items|
    ensures VisibleBetween(items, visible, lo', hi) <= VisibleBetween(items, visible, lo, hi)
  {
    if lo' < hi {
      VisibleMonotone(items, visible, lo, lo', hi - 1);
    }
  }

  /** A heap pointer of an item: the item's offset and the place in its list. */
  datatype Entry = Entry(offset: nat, index: nat)

  /** The visible heap pointers of the items from lo up to hi. */
  ghost function VisibleEntries(items: seq<Item>, visible: set<Tid>, lo: nat, hi: nat): set<Entry>
    requires lo <= hi <= |items|
  {
    set o, k | lo <= o < hi && 0 <= k < |items[o].tids| && items[o].tids[k] in visible :: Entry(o, k)
  }

  ghost function EntriesOf(item: Item, visible: set<Tid>, o: nat, n: nat): set<Entry>
    requires n <= |item.tids|
  {
    set k | 0 <= k < n && item.tids[k] in visible :: Entry(o, k)
  }

  lemma {:induction false} CountOfItem(item: Item, visible: set<Tid>, o: nat, n: nat)
    requires n <= |item.tids|
    ensures VisibleIn(item.tids, visible, n) == |EntriesOf(item, visible, o, n)|
  {
    if n > 0 {
      CountOfItem(item, visible, o, n - 1);
      var before, after := EntriesOf(item, visible, o, n - 1), EntriesOf(item, visible, o, n);
      if item.tids[n - 1] in visible {
        assert after == before + {Entry(o, n - 1)};
      } else {
        assert after == before;
      }
    } else {
      assert EntriesOf(item, visible, o, 0) == {};
    }
  }

  /** The count is the number of visible heap pointers, each of a posting list counting for itself. */
  lemma {:induction false} VisibleIsCount(items: seq<Item>, visible: set<Tid>, lo: nat, hi: nat)
    requires lo <= hi <= |items|
    ensures VisibleBetween(items, visible, lo, hi) == |VisibleEntries(items, visible, lo, hi)|
  {
    if lo < hi {
      VisibleIsCount(items, visible, lo, hi - 1);
      var last := EntriesOf(items[hi - 1], visible, hi - 1, |items[hi - 1].tids|);
      CountOfItem(items[hi - 1], visible, hi - 1, |items[hi - 1].tids|);
      var before := VisibleEntries(items, visible, lo, hi - 1);
      assert VisibleEntries(items, visible, lo, hi) == before + last && before !! last;
    } else {
      assert VisibleEntries(items, visible, lo, hi) == {};
    }
  }

  ghost predicate TwoOf(s: set<Entry>) {
    exists d, e | d in s && e in s :: d != e
  }

  lemma {:induction false} TwoIff(s: set<Entry>)
    ensures |s| >= 2 <==> TwoOf(s)
  {
    if |s| >= 2 {
      var d :| d in s;
      var rest := s - {d};
      assert |rest| == |s| - 1;
      var e :| e in rest;
    }
    if d, e :| d in s && e in s && d != e {
      assert s == (s - {d, e}) + {d, e} && |{d, e}| == 2;
    }
  }

  /** A duplicate is a pair of different visible heap pointers in one run of equal keys without nulls. */
  lemma {:induction false} DuplicateIff(items: seq<Item>, visible: set<Tid>)
    ensures HasDuplicate(items, visible) <==>
            exists lo: nat, hi: nat :: SameKey(items, lo, hi) && TwoOf(VisibleEntries(items, visible, lo, hi + 1))
  {
    forall lo: nat, hi: nat | SameKey(items, lo, hi)
      ensures VisibleBetween(items, visible, lo, hi + 1) >= 2 <==> TwoOf(VisibleEntries(items, visible, lo, hi + 1))
    {
      VisibleIsCount(items, visible, lo, hi + 1);
      TwoIff(VisibleEntries(items, visible, lo, hi + 1));
    }
  }

  // ----- The check -----

  /** `bt_entry_unique_check`: true for a duplicate, which ends the whole check with an error. */
  method EntryUniqueCheck(item: Item, visible: set<Tid>, offset: nat, lVis: Option<LastVisible>)
    returns (duplicate: bool, lVis': Option<LastVisible>)
    requires !item.posting ==> |item.tids| == 1
    ensures duplicate <==> (if lVis.Some? then 1 else 0) + VisibleOf(item, visible) >= 2
    ensures !duplicate ==> (lVis'.Some? <==> lVis.Some? || VisibleOf(item, visible) > 0)
    ensures lVis' != lVis ==>
              && lVis'.Some? && lVis'.value.offset == offset
              && lVis'.value.tid in item.tids && lVis'.value.tid in visible
  {
    lVis' := lVis;
    if item.posting {
      for i := 0 to |item.tids|
        invariant (if lVis.Some? then 1 else 0) + VisibleIn(item.tids, visible, i) <= 1
        invariant lVis'.Some? <==> lVis.Some? || VisibleIn(item.tids, visible, i) > 0
        invariant lVis' != lVis ==>
                    && lVis'.Some? && lVis'.value.offset == offset
                    && lVis'.value.tid in item.tids && lVis'.value.tid in visible
      {
        if item.tids[i] in visible {
          if lVis'.Some? {
            VisibleGrows(item.tids, visible, i + 1, |item.tids|);
            return true, lVis';
          }
          lVis' := Some(LastVisible(offset, i, item.tids[i]));
        }
      }
    } else {
      assert VisibleOf(item, visible) == VisibleIn(item.tids, visible, 0) + (if item.tids[0] in visible then 1 else 0);
      if item.tids[0] in visible {
        if lVis.Some? {
          return true, lVis';
        }
        lVis' := Some(LastVisible(offset, -1, item.tids[0]));
      }
    }
    return false, lVis';
  }

  lemma {:induction false} VisibleGrows(tids: seq<Tid>, visible: set<Tid>, m: nat, n: nat)
    requires m <= n <= |tids|
    ensures VisibleIn(tids, visible, m) <= VisibleIn(tids, visible, n)
  {
    if m < n {
      VisibleGrows(tids, visible, m, n - 1);
    }
  }

  /** Nothing before item o is a duplicate. */
  ghost predicate CleanBefore(items: seq<Item>, visible: set<Tid>, o: nat) {
    forall lo: nat, hi: nat | hi < o && SameKey(items, lo, hi) :: VisibleBetween(items, visible, lo, hi + 1) <= 1
  }

  /** The run that item o belongs to starts at r, and lVis tells whether it had a visible entry. */
  ghost predicate InRun(items: seq<Item>, visible: set<Tid>, r: nat, o: nat, lVis: Option<LastVisible>) {
    && r <= o < |items|
    && (forall lo: nat | lo < r :: !SameKey(items, lo, o))
    && (r < o ==> SameKey(items, r, o))
    && VisibleBetween(items, visible, r, o) == (if lVis.Some? then 1 else 0)
  }

  lemma CleanNext(items: seq<Item>, visible: set<Tid>, r: nat, o: nat, lVis: Option<LastVisible>)
    requires CleanBefore(items, visible, o) && InRun(items, visible, r, o, lVis)
    requires items[o].key.anyNull || VisibleBetween(items, visible, r, o + 1) <= 1
    ensures CleanBefore(items, visible, o + 1)
  {
    forall lo: nat, hi: nat | hi < o + 1 && SameKey(items, lo, hi)
      ensures VisibleBetween(items, visible, lo, hi + 1) <= 1
    {
      if hi == o {
        assert lo >= r;
        VisibleMonotone(items, visible, r, lo, o + 1);
      }
    }
  }

  lemma RunEnds(items: seq<Item>, o: nat, next: nat)
    requires next == o + 1 < |items| && (items[o].key != items[next].key || items[o].key.anyNull)
    ensures forall lo: nat | lo < next :: !SameKey(items, lo, next)
  {
  }

  lemma RunContinues(items: seq<Item>, r: nat, o: nat, next: nat)
    requires r <= o && next == o + 1 < |items| && items[o].key == items[next].key && !items[o].key.anyNull
    requires r < o ==> SameKey(items, r, o)
    requires forall lo: nat | lo < r :: !SameKey(items, lo, o)
    ensures SameKey(items, r, next) && forall lo: nat | lo < r :: !SameKey(items, lo, next)
  {
    forall lo: nat | lo < r
      ensures !SameKey(items, lo, next)
    {
      if SameKey(items, lo, next) {
        assert SameKey(items, lo, o);
      }
    }
  }

  /** The part of `bt_target_page_check` that checks uniqueness on one leaf page. */
  method CheckPage(items: seq<Item>, visible: set<Tid>) returns (duplicate: bool, checked: seq<nat>)
    requires ValidPage(items)
    ensures duplicate <==> HasDuplicate(items, visible)
    ensures forall i, j | 0 <= i < j < |checked| :: checked[i] < checked[j]
    ensures forall i | 0 <= i < |checked| :: checked[i] < |items|
  {
    var lVis: Option<LastVisible> := None;
    ghost var r := 0;
    checked := [];
    for o := 0 to |items|
      invariant CleanBefore(items, visible, o)
      invariant o < |items| ==> InRun(items, visible, r, o, lVis)
      invariant forall i | 0 <= i < |checked| :: checked[i] < o
      invariant forall i, j | 0 <= i < j < |checked| :: checked[i] < checked[j]
    {
      var item := items[o];
      var uniqueChecked := false;
      ghost var before := lVis;
      if !item.key.anyNull && (item.posting || lVis.Some?) {
        duplicate, lVis := EntryUniqueCheck(item, visible, o, lVis);
        checked := checked + [o];
        if duplicate {
          assert SameKey(items, r, o) && VisibleBetween(items, visible, r, o + 1) >= 2;
          return;
        }
        uniqueChecked := true;
      }
      assert VisibleBetween(items, visible, r, o + 1) ==
             VisibleBetween(items, visible, r, o) + VisibleOf(item, visible);
      assert !item.posting ==> VisibleOf(item, visible) <= 1 by { OneVisible(item, visible); }
      CleanNext(items, visible, r, o, before);
      if o + 1 < |items| {
        if items[o].key != items[o + 1].key || item.key.anyNull {
          lVis := None;
          RunEnds(items, o, o + 1);
          r := o + 1;
        } else if !uniqueChecked {
          duplicate, lVis := EntryUniqueCheck(item, visible, o, lVis);
          checked := checked + [o];
          assert !duplicate;
        }
        if r <= o {
          RunContinues(items, r, o, o + 1);
        }
      }
    }
    duplicate := false;
  }

  lemma OneVisible(item: Item, visible: set<Tid>)
    requires !item.posting ==> |item.tids| == 1
    ensures !item.posting ==> VisibleOf(item, visible) <= 1
  {
    if !item.posting {
      assert VisibleOf(item, visible) == VisibleIn(item.tids, visible, 0) + (if item.tids[0] in visible then 1 else 0);
    }
  }
}
