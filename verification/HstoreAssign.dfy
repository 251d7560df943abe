/**
Subscripted assignment to an hstore (contrib/hstore/hstore_subs.c): the new pair is merged into
the sorted list of pairs, written straight into the memory of the result.
 */
module HstoreAssign {
  import opened Options
  import opened ByteStrings
  import opened HstoreFormat
  import opened HstoreImage
  import opened HstoreMap

  /** MaxAllocSize: `palloc` refuses more. */
  const MAX_ALLOC: int := 0x3fff_ffff

  // ----- Writing into memory -----

  function Splice(m: Memory, off: nat, src: Memory): (r: Memory)
    requires off + |src| <= |m|
    ensures |r| == |m|
  {
    m[..off] + src + m[off + |src|..]
  }

  /** `memcpy` and, since the source is a value, `memmove`. */
  method PutCells(mem: array<Cell>, off: nat, src: Memory)
    requires off + |src| <= mem.Length
    modifies mem
    ensures mem[..] == Splice(old(mem[..]), off, src)
  {
    for i := 0 to |src|
      invariant forall k | 0 <= k < i :: mem[off + k] == src[k]
      invariant forall k | 0 <= k < mem.Length && !(off <= k < off + i) :: mem[k] == old(mem[k])
    {
      mem[off + i] := src[i];
    }
  }

  /**
  Memory of a value under construction that was allocated for `cap` pairs: the count word, the
  entries written so far from the front, and the strings written so far behind all entries.
   */
  ghost predicate Holds(m: Memory, cap: nat, count: Memory, area: Memory, strs: Memory) {
    var bufd := HEADER + 8 * cap;
    && |count| == 4 && HEADER + |area| <= bufd && bufd + |strs| <= |m|
    && m[4..8] == count && m[8..8 + |area|] == area && m[bufd..bufd + |strs|] == strs
  }

  /** Splicing leaves slices elsewhere alone. */
  lemma SpliceElsewhere(m: Memory, off: nat, src: Memory, lo: nat, hi: nat)
    requires off + |src| <= |m| && lo <= hi <= |m| && (hi <= off || off + |src| <= lo)
    ensures Splice(m, off, src)[lo..hi] == m[lo..hi]
  {
  }

  /** Splicing right after a slice extends it. */
  lemma SpliceExtends(m: Memory, lo: nat, off: nat, src: Memory)
    requires lo <= off && off + |src| <= |m|
    ensures Splice(m, off, src)[lo..off + |src|] == m[lo..off] + src
  {
  }

  /** Writing a string at the end of one area and an entry at the end of the other. */
  lemma TwoSplices(m: Memory, ed: nat, bufd: nat, pd: nat, src: Memory, entry: Memory)
    requires 8 <= ed && |entry| == 8 && ed + 8 <= bufd <= pd && pd + |src| <= |m|
    ensures var m2 := Splice(Splice(m, pd, src), ed, entry);
            && m2[4..8] == m[4..8]
            && m2[8..ed + 8] == m[8..ed] + entry
            && m2[bufd..pd + |src|] == m[bufd..pd] + src
  {
    var m1 := Splice(m, pd, src);
    SpliceExtends(m, bufd, pd, src);
    SpliceElsewhere(m1, ed, entry, bufd, pd + |src|);
    SpliceElsewhere(m, pd, src, 8, ed);
    SpliceExtends(m1, 8, ed, entry);
    SpliceElsewhere(m, pd, src, 4, 8);
    SpliceElsewhere(m1, ed, entry, 4, 8);
  }

  /** The two writes of `HS_ADDITEM` and `HS_COPYITEM`: the strings, then the entry words. */
  method PutPair(mem: array<Cell>, cap: nat, ed: nat, pd: nat, src: Memory, entry: Memory,
                 ghost count: Memory, ghost area: Memory, ghost strs: Memory)
    requires Holds(mem[..], cap, count, area, strs) && |entry| == 8
    requires ed == HEADER + |area| && ed + 8 <= HEADER + 8 * cap
    requires pd == HEADER + 8 * cap + |strs| && pd + |src| <= mem.Length
    modifies mem
    ensures Holds(mem[..], cap, count, area + entry, strs + src)
  {
    ghost var m, bufd := mem[..], HEADER + 8 * cap;
    TwoSplices(m, ed, bufd, pd, src, entry);
    PutCells(mem, pd, src);
    PutCells(mem, ed, entry);
  }

  lemma AreasAppend(done: seq<Pair>, p: Pair)
    ensures Strings(done + [p]) == Strings(done) + (p.key + p.val)
    ensures Chars(Strings(done + [p])) == Chars(Strings(done)) + Chars(p.key + p.val)
    ensures EntryArea(done + [p]) == EntryArea(done) + EntryCells(EntryFor(p, |Strings(done)|, false))
  {
    assert (done + [p])[..|done|] == done;
    CharsConcat(Strings(done), p.key + p.val);
  }

  /** The entry words `HS_ADDITEM` and `HS_COPYITEM` compute from the position written up to. */
  method EntriesFor(end: nat, keylen: nat, vallen: nat, isNull: bool, ghost p: Pair) returns (e: EntryPair)
    requires keylen == |p.key| && vallen == |p.val| && isNull == p.isNull && keylen + vallen <= end < POS_LIMIT
    ensures e == EntryFor(p, end - |p.key| - |p.val|, false)
  {
    SmallPosition(end - vallen);
    SmallPosition(end);
    e := EntryPair(HEntry(false, false, (end - vallen) % POS_LIMIT), HEntry(false, isNull, end % POS_LIMIT));
  }

  // ----- Finishing the value -----

  /** Overwrite the first entry word. */
  method ReplaceFirst(mem: array<Cell>, cap: nat, word: Memory,
                      ghost count: Memory, ghost area: Memory, ghost strs: Memory)
    requires Holds(mem[..], cap, count, area, strs) && |area| >= 8 && |word| == 4
    modifies mem
    ensures Holds(mem[..], cap, count, word + area[4..], strs)
  {
    ghost var m, bufd, end := mem[..], HEADER + 8 * cap, HEADER + |area|;
    PutCells(mem, HEADER, word);
    SpliceElsewhere(m, 8, word, 4, 8);
    SpliceElsewhere(m, 8, word, bufd, bufd + |strs|);
    SpliceElsewhere(m, 8, word, 12, end);
    ghost var m' := mem[..];
    assert m'[8..end] == m'[8..12] + m'[12..end];
    assert m'[8..12] == word && m'[12..end] == m[12..end] == area[4..];
  }

  /** Setting ISFIRST in the first word of an entry area. */
  lemma {:induction false} FlagFirstEntry(done: seq<Pair>)
    requires done != []
    ensures EntryArea(done)[0] == Part(EntryWord(EntryFor(done[0], 0, false).k), 0)
    ensures WordCells(EntryWord(EntryFor(done[0], 0, true).k)) + EntryArea(done)[4..] == FinalEntryArea(done)
  {
    var e, e' := EntryFor(done[0], 0, false), EntryFor(done[0], 0, true);
    assert done[..0] == [];
    EntryAreaAt(done, 0);
    FlagParts(EntryArea(done), WordCells(EntryWord(e.k)), WordCells(EntryWord(e.v)), WordCells(EntryWord(e'.k)));
    assert EntryArea(done)[0] == EntryArea(done)[0..4][0];
  }

  lemma FlagParts(area: Memory, k: Memory, v: Memory, k': Memory)
    requires |k| == |v| == |k'| == 4 && |area| >= 8 && area[0..8] == k + v
    ensures area[0..4] == k && k' + area[4..] == (k' + v) + area[8..]
  {
    assert area[0..4] == area[0..8][0..4];
    assert area[4..] == area[0..8][4..8] + area[8..];
  }

  /**
  The rest of `HS_FINALIZE`: when fewer pairs came out than were allocated for, set the count and
  move the strings down behind the last entry.
   */
  method MoveStrings(mem: array<Cell>, cap: nat, n: nat, buflen: nat, countWord: Memory,
                     ghost count: Memory, ghost area: Memory, ghost strs: Memory)
    requires Holds(mem[..], cap, count, area, strs) && |countWord| == 4
    requires |area| == 8 * n && n <= cap && buflen == |strs| && (n == cap ==> countWord == count)
    modifies mem
    ensures Holds(mem[..], n, countWord, area, strs)
  {
    if n != cap {
      ghost var m := mem[..];
      var bufd, target := HEADER + 8 * cap, HEADER + 8 * n;
      var strings := mem[bufd..bufd + buflen];
      assert strings == m[bufd..bufd + buflen] == strs;
      MovedStrings(m, target, countWord, strs);
      PutCells(mem, 4, countWord);
      PutCells(mem, target, strings);
    }
  }

  lemma MovedStrings(m: Memory, target: nat, countWord: Memory, strings: Memory)
    requires |countWord| == 4 && 8 <= target && target + |strings| <= |m|
    ensures var m2 := Splice(Splice(m, 4, countWord), target, strings);
            m2[4..8] == countWord && m2[8..target] == m[8..target] && m2[target..target + |strings|] == strings
  {
  }

  /** SET_VARSIZE, and the value read off as its parts. */
  method SetLength(mem: array<Cell>, n: nat, word: Memory,
                   ghost count: Memory, ghost area: Memory, ghost strs: Memory, c: nat)
    returns (image: Memory)
    requires Holds(mem[..], n, count, area, strs) && |word| == 4 && |area| == 8 * n && c == HEADER + 8 * n + |strs|
    modifies mem
    ensures image == word + (count + (area + strs))
  {
    ghost var m, b := mem[..], HEADER + 8 * n;
    assert m[4..8] == count && m[8..b] == area && m[b..c] == strs;
    PutCells(mem, 0, word);
    image := mem[..c];
    SpliceElsewhere(m, 0, word, 4, 8);
    SpliceElsewhere(m, 0, word, 8, b);
    SpliceElsewhere(m, 0, word, b, c);
    FourParts(mem[..], b, c);
    assert image == mem[..][..c];
  }

  lemma FourParts(m: Memory, b: nat, c: nat)
    requires 8 <= b <= c <= |m|
    ensures m[..c] == m[..4] + (m[4..8] + (m[8..b] + m[b..c]))
  {
  }

  // ----- The merge -----

  /** Where a list of pairs read from a value ends in its string area. */
  lemma {:induction false} StringsWithin(h: Packed, i: nat)
    requires h.WellFormed() && i <= |h.entries|
    ensures Start(h.Pairs(), i) == (if i == 0 then 0 else h.entries[i - 1].v.pos) <= |h.str|
  {
    if i > 0 {
      StringsWithin(h, i - 1);
      StringsStep(h.Pairs(), i - 1);
      assert h.EntryOk(i - 1);
    } else {
      assert h.Pairs()[..0] == [];
    }
  }

  /** Progress of the merge loop after s1idx old pairs and s2idx new ones. */
  ghost predicate Merged(ps: seq<Pair>, p: Pair, s1idx: nat, s2idx: nat, done: seq<Pair>) {
    && s1idx <= |ps| && s2idx <= 1
    && (s2idx == 0 ==> done == ps[..s1idx] && forall k | 0 <= k < s1idx :: KeyBefore(ps[k].key, p.key))
    && (s2idx == 1 ==> done + ps[s1idx..] == InsertPair(ps, p))
    && |done| <= s1idx + s2idx
    && |Strings(done)| <= Start(ps, s1idx) + s2idx * (|p.key| + |p.val|)
  }

  /** The comparison of the loop: an exhausted side counts as greater. */
  function Difference(ps: seq<Pair>, p: Pair, s1idx: nat, s2idx: nat): int
    requires s1idx <= |ps|
  {
    if s1idx >= |ps| then 1
    else if s2idx >= 1 then -1
    else if ps[s1idx].key == p.key then 0
    else if KeyBefore(ps[s1idx].key, p.key) then -1
    else 1
  }

  lemma PositionIs(ps: seq<Pair>, key: Bytes, f: nat)
    requires f <= |ps| && (forall k | 0 <= k < f :: KeyBefore(ps[k].key, key))
    requires f < |ps| ==> !KeyBefore(ps[f].key, key)
    ensures Position(ps, key) == f
  {
  }

  /** Taking the new pair. */
  lemma MergeNew(ps: seq<Pair>, p: Pair, s1idx: nat, done: seq<Pair>)
    requires Merged(ps, p, s1idx, 0, done) && Difference(ps, p, s1idx, 0) >= 0
    ensures Merged(ps, p, if Difference(ps, p, s1idx, 0) == 0 then s1idx + 1 else s1idx, 1, done + [p])
  {
    PositionIs(ps, p.key, s1idx);
    AreasAppend(done, p);
    if s1idx < |ps| {
      StringsStep(ps, s1idx);
    }
  }

  /** Copying the next old pair. */
  lemma MergeOld(ps: seq<Pair>, p: Pair, s1idx: nat, s2idx: nat, done: seq<Pair>)
    requires Merged(ps, p, s1idx, s2idx, done) && s1idx < |ps| && Difference(ps, p, s1idx, s2idx) < 0
    ensures Merged(ps, p, s1idx + 1, s2idx, done + [ps[s1idx]])
  {
    AreasAppend(done, ps[s1idx]);
    StringsStep(ps, s1idx);
    ShiftOne(done, ps, s1idx);
  }

  lemma ShiftOne(done: seq<Pair>, ps: seq<Pair>, i: nat)
    requires i < |ps|
    ensures ps[..i + 1] == ps[..i] + [ps[i]]
    ensures done + ps[i..] == (done + [ps[i]]) + ps[i + 1..]
  {
  }

  /** The pairs written so far are in memory, and the write positions are behind them. */
  ghost predicate Written(mem: array<Cell>, cap: nat, done: seq<Pair>, outcount: nat, pd: nat)
    reads mem
  {
    && Holds(mem[..], cap, WordCells(CountWord(cap)), EntryArea(done), Chars(Strings(done)))
    && outcount == |done| && pd == HEADER + 8 * cap + |Strings(done)|
  }

  /** Write one pair, with its bytes in `src`, behind those already written. */
  method WritePair(mem: array<Cell>, cap: nat, ghost done: seq<Pair>, outcount: nat, pd: nat, src: Bytes,
                   keylen: nat, vallen: nat, isNull: bool, ghost p: Pair)
    returns (pd': nat)
    requires Written(mem, cap, done, outcount, pd) && outcount < cap
    requires src == p.key + p.val && keylen == |p.key| && vallen == |p.val| && isNull == p.isNull
    requires pd + |src| <= mem.Length <= MAX_ALLOC
    modifies mem
    ensures Written(mem, cap, done + [p], outcount + 1, pd')
  {
    pd' := pd + keylen + vallen;
    var e := EntriesFor(pd' - (HEADER + 8 * cap), keylen, vallen, isNull, p);
    PutPair(mem, cap, HEADER + 8 * outcount, pd, Chars(src), EntryCells(e),
            WordCells(CountWord(cap)), EntryArea(done), Chars(Strings(done)));
    AreasAppend(done, p);
  }

  /** The merge loop of `hstore_subscript_assign`. */
  method MergeLoop(hs: Packed, p: Pair, mem: array<Cell>, cap: nat)
    returns (outcount: nat, pd: nat, ghost done: seq<Pair>)
    requires hs.WellFormed() && cap == |hs.entries| + 1
    requires HEADER + 8 * cap + |hs.str| + |p.key| + |p.val| <= mem.Length <= MAX_ALLOC
    requires Written(mem, cap, [], 0, HEADER + 8 * cap)
    modifies mem
    ensures done == InsertPair(hs.Pairs(), p) && Written(mem, cap, done, outcount, pd)
    ensures |Strings(done)| <= |hs.str| + |p.key| + |p.val|
  {
    ghost var ps := hs.Pairs();
    var s1idx: nat, s2idx: nat := 0, 0;
    outcount, pd, done := 0, HEADER + 8 * cap, [];
    while s1idx < |hs.entries| || s2idx < 1
      invariant Merged(ps, p, s1idx, s2idx, done) && Written(mem, cap, done, outcount, pd)
      decreases |hs.entries| + 1 - s1idx - s2idx
    {
      s1idx, s2idx, pd, done := MergeStep(hs, p, mem, cap, s1idx, s2idx, outcount, pd, done);
      outcount := outcount + 1;
    }
    StringsWithin(hs, s1idx);
    assert ps[s1idx..] == [];
  }

  /** The body of the merge loop. */
  method MergeStep(hs: Packed, p: Pair, mem: array<Cell>, cap: nat, s1: nat, s2: nat,
                   outcount: nat, pd: nat, ghost done: seq<Pair>)
    returns (s1': nat, s2': nat, pd': nat, ghost done': seq<Pair>)
    requires hs.WellFormed() && cap == |hs.entries| + 1
    requires HEADER + 8 * cap + |hs.str| + |p.key| + |p.val| <= mem.Length <= MAX_ALLOC
    requires Merged(hs.Pairs(), p, s1, s2, done) && Written(mem, cap, done, outcount, pd)
    requires s1 < |hs.entries| || s2 < 1
    modifies mem
    ensures Merged(hs.Pairs(), p, s1', s2', done') && Written(mem, cap, done', outcount + 1, pd')
    ensures s1' + s2' > s1 + s2
  {
    ghost var ps := hs.Pairs();
    var difference := Compare(hs, p, s1, s2);
    if difference >= 0 {
      assert s2 == 0;
      pd' := TakeNew(hs, p, mem, cap, s1, outcount, pd, done);
      done' := done + [p];
      s1', s2' := if difference == 0 then s1 + 1 else s1, 1;
    } else {
      pd' := CopyOld(hs, p, mem, cap, s1, s2, outcount, pd, done);
      done' := done + [ps[s1]];
      s1', s2' := s1 + 1, s2;
    }
  }

  /** Put the new pair, in place of an old one if the keys are equal. */
  method TakeNew(hs: Packed, p: Pair, mem: array<Cell>, cap: nat, s1: nat,
                 outcount: nat, pd: nat, ghost done: seq<Pair>) returns (pd': nat)
    requires hs.WellFormed() && cap == |hs.entries| + 1
    requires HEADER + 8 * cap + |hs.str| + |p.key| + |p.val| <= mem.Length <= MAX_ALLOC
    requires Merged(hs.Pairs(), p, s1, 0, done) && Written(mem, cap, done, outcount, pd)
    requires Difference(hs.Pairs(), p, s1, 0) >= 0
    modifies mem
    ensures Written(mem, cap, done + [p], outcount + 1, pd')
    ensures Merged(hs.Pairs(), p, if Difference(hs.Pairs(), p, s1, 0) == 0 then s1 + 1 else s1, 1, done + [p])
  {
    NewFits(hs, p, s1, done);
    pd' := WritePair(mem, cap, done, outcount, pd, p.key + p.val, |p.key|, |p.val|, p.isNull, p);
    MergeNew(hs.Pairs(), p, s1, done);
  }

  /** Copy the next old pair, key and value in one piece. */
  method CopyOld(hs: Packed, p: Pair, mem: array<Cell>, cap: nat, s1: nat, s2: nat,
                 outcount: nat, pd: nat, ghost done: seq<Pair>) returns (pd': nat)
    requires hs.WellFormed() && cap == |hs.entries| + 1 && s1 < |hs.entries|
    requires HEADER + 8 * cap + |hs.str| + |p.key| + |p.val| <= mem.Length <= MAX_ALLOC
    requires Merged(hs.Pairs(), p, s1, s2, done) && Written(mem, cap, done, outcount, pd)
    requires Difference(hs.Pairs(), p, s1, s2) < 0
    modifies mem
    ensures Written(mem, cap, done + [hs.Pairs()[s1]], outcount + 1, pd')
    ensures Merged(hs.Pairs(), p, s1 + 1, s2, done + [hs.Pairs()[s1]])
  {
    OldFits(hs, p, s1, s2, done);
    PairContiguous(hs, s1);
    var off, e := hs.KeyOff(s1), hs.entries[s1];
    pd' := WritePair(mem, cap, done, outcount, pd, hs.str[off..e.v.pos], e.k.pos - off, e.v.pos - e.k.pos, e.v.isNull,
                     hs.PairAt(s1));
    MergeOld(hs.Pairs(), p, s1, s2, done);
  }

  /** There is room for the new pair. */
  lemma NewFits(hs: Packed, p: Pair, s1: nat, done: seq<Pair>)
    requires hs.WellFormed() && Merged(hs.Pairs(), p, s1, 0, done)
    ensures |done| <= |hs.entries| && |Strings(done)| <= |hs.str|
  {
    StringsWithin(hs, s1);
  }

  /** There is room for the next old pair. */
  lemma OldFits(hs: Packed, p: Pair, s1: nat, s2: nat, done: seq<Pair>)
    requires hs.WellFormed() && s1 < |hs.entries| && Merged(hs.Pairs(), p, s1, s2, done)
    ensures |done| <= |hs.entries| && hs.EntryOk(s1)
    ensures |Strings(done)| + |hs.PairAt(s1).key| + |hs.PairAt(s1).val| <= |hs.str| + |p.key| + |p.val|
  {
    assert hs.EntryOk(s1);
    NextWithin(hs, s1);
  }

  lemma NextWithin(hs: Packed, i: nat)
    requires hs.WellFormed() && i < |hs.entries| && hs.EntryOk(i)
    ensures Start(hs.Pairs(), i) + |hs.PairAt(i).key| + |hs.PairAt(i).val| <= |hs.str|
  {
    StringsWithin(hs, i + 1);
    StringsStep(hs.Pairs(), i);
  }

  /** The comparison at the top of the loop body. */
  method Compare(hs: Packed, p: Pair, s1idx: nat, s2idx: nat) returns (difference: int)
    requires hs.WellFormed() && s1idx <= |hs.entries|
    ensures difference == Difference(hs.Pairs(), p, s1idx, s2idx)
  {
    if s1idx >= |hs.entries| {
      return 1;
    }
    if s2idx >= 1 {
      return -1;
    }
    var key := hs.PairAt(s1idx).key;
    if |key| == |p.key| {
      return if key == p.key then 0 else if Leq(key, p.key) then -1 else 1;
    }
    return if |key| > |p.key| then 1 else -1;
  }

  // ----- The whole operation -----

  datatype AssignResult =
    | Assigned(image: Memory)
    | NullSubscript
    | KeyTooLong
    | ValueTooLong
    | AllocTooLarge

  /** The size of the allocation, made before it is known whether the key is already there. */
  function AllocSize(hs: Option<Packed>, p: Pair): int {
    match hs
    case None => DataSize(1, |p.key| + |p.val|)
    case Some(h) => DataSize(|h.entries| + 1, DataSize(|h.entries|, |h.str|) + |p.key| + |p.val|)
  }

  /** The allocation has room for all pairs, and for the old header and entries once more. */
  lemma {:induction false} AllocSizeIs(hs: Packed, p: Pair)
    ensures AllocSize(Some(hs), p) ==
            DataSize(|hs.entries| + 1, |hs.str| + |p.key| + |p.val|) + HEADER + 8 * |hs.entries|
    ensures AllocSize(None, p) == DataSize(1, |p.key| + |p.val|) == 16 + |p.key| + |p.val|
  {
  }

  function OldPairs(hs: Option<Packed>): seq<Pair>
    requires hs.Some? ==> hs.value.WellFormed()
  {
    if hs.None? then [] else hs.value.Pairs()
  }

  function NewPair(key: Bytes, val: Option<Bytes>): Pair {
    Pair(key, if val.None? then [] else val.value, val.None?)
  }

  /**
  `hstore_subscript_assign`. A null container becomes a value with one pair; otherwise the pair is
  merged into a copy.
   */
  method SubscriptAssign(hs: Option<Packed>, key: Option<Bytes>, val: Option<Bytes>) returns (r: AssignResult)
    requires hs.Some? ==> hs.value.WellFormed()
    ensures r.NullSubscript? <==> key.None?
    ensures r.KeyTooLong? <==> key.Some? && |key.value| >= POS_LIMIT
    ensures r.ValueTooLong? <==> key.Some? && |key.value| < POS_LIMIT && val.Some? && |val.value| >= POS_LIMIT
    ensures r.AllocTooLarge? <==>
              && key.Some? && |key.value| < POS_LIMIT && (val.Some? ==> |val.value| < POS_LIMIT)
              && AllocSize(hs, NewPair(key.value, val)) > MAX_ALLOC
    ensures r.Assigned? <==>
              && key.Some? && |key.value| < POS_LIMIT && (val.Some? ==> |val.value| < POS_LIMIT)
              && AllocSize(hs, NewPair(key.value, val)) <= MAX_ALLOC
    ensures r.Assigned? ==>
              var ps := InsertPair(OldPairs(hs), NewPair(key.value, val));
              Packable(ps) && r.image == Image(ps) && |r.image| <= AllocSize(hs, NewPair(key.value, val))
  {
    if key.None? {
      return NullSubscript;
    }
    if |key.value| >= POS_LIMIT {
      return KeyTooLong;
    }
    if val.Some? && |val.value| >= POS_LIMIT {
      return ValueTooLong;
    }
    var p := NewPair(key.value, val);
    if AllocSize(hs, p) > MAX_ALLOC {
      return AllocTooLarge;
    }
    var h := if hs.None? then Packed([], []) else hs.value;
    var image := MergeInto(h, p, AllocSize(hs, p));
    return Assigned(image);
  }

  /** Allocate, merge and finish. */
  method MergeInto(hs: Packed, p: Pair, vsize: nat) returns (image: Memory)
    requires hs.WellFormed()
    requires DataSize(|hs.entries| + 1, |hs.str| + |p.key| + |p.val|) <= vsize <= MAX_ALLOC
    ensures Packable(InsertPair(hs.Pairs(), p)) && image == Image(InsertPair(hs.Pairs(), p)) && |image| <= vsize
  {
    var cap := |hs.entries| + 1;
    var mem := Allocate(cap, vsize);
    var outcount, pd, done := MergeLoop(hs, p, mem, cap);
    image := Finish(mem, cap, done, outcount, pd);
    ImageLength(done);
  }

  /** Allocate the result without considering that the key may be there already. */
  method Allocate(cap: nat, vsize: nat) returns (mem: array<Cell>)
    requires HEADER + 8 * cap <= vsize
    ensures fresh(mem) && mem.Length == vsize && Written(mem, cap, [], 0, HEADER + 8 * cap)
  {
    mem := new Cell[vsize](_ => Char(0));
    var word := WordCells(CountWord(cap));
    PutCells(mem, 4, word);
  }

  /** `HS_FINALIZE`. */
  method Finish(mem: array<Cell>, cap: nat, ghost done: seq<Pair>, outcount: nat, pd: nat) returns (image: Memory)
    requires Written(mem, cap, done, outcount, pd) && done != []
    modifies mem
    ensures image == Image(done)
  {
    ghost var count, area, strs := WordCells(CountWord(cap)), EntryArea(done), Chars(Strings(done));
    FlagFirstEntry(done);
    assert mem[8] == mem[..][8..8 + |area|][0];
    var first := mem[8].word.entry.(first := true);
    ReplaceFirst(mem, cap, WordCells(EntryWord(first)), count, area, strs);
    var buflen := pd - (HEADER + 8 * cap);
    MoveStrings(mem, cap, outcount, buflen, WordCells(CountWord(outcount)), count, FinalEntryArea(done), strs);
    image := SetLength(mem, outcount, WordCells(LengthWord(DataSize(outcount, buflen))),
                       WordCells(CountWord(outcount)), FinalEntryArea(done), strs, HEADER + 8 * outcount + buflen);
  }

  /**
  Assignment refines map update: the memory it produces reads back as well-formed entries whose
  keys are strictly sorted and which stand for the old mapping with the value put under the key.
   */
  lemma {:induction false} AssignRefinesUpdate(was: seq<Pair>, key: Bytes, val: Option<Bytes>, h: Packed)
    requires Sorted(was) && Packable(InsertPair(was, NewPair(key, val))) && Reads(Image(InsertPair(was, NewPair(key, val))), h)
    ensures h.WellFormed() && Sorted(h.Pairs())
    ensures ToMap(h.Pairs()) == ToMap(was)[key := val]
  {
    var p := NewPair(key, val);
    var ps := InsertPair(was, p);
    ImageReads(ps);
    ReadsOnce(Image(ps), h, Pack(ps));
    PackRoundTrip(ps);
    InsertSorted(was, p);
    InsertIsUpdate(was, p);
  }
}
