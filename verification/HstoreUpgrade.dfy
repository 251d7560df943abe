/**
`hstoreUpgrade` (contrib/hstore/hstore_compat.c): telling old values from new ones, and what
becomes of each.
 */
module HstoreUpgrade {
  import opened ByteStrings
  import opened HstoreFormat
  import opened HstoreImage
  import opened HstoreCompat

  /** A stored value: its two header words, its entry words, and the bytes behind them. */
  datatype Stored = Stored(varsize: int, size: int, words: seq<int>, str: Bytes) {
    /** HS_COUNT. */
    function Count(): nat {
      size % MAX_COUNT
    }

    /** The bytes that the length word covers; more may lie in memory behind them. */
    function Visible(): Bytes {
      var len := varsize - DataSize(Count(), 0);
      if 0 <= len <= |str| then str[..len] else str
    }

    /** The value as the access macros see it. */
    function View(): Packed
      requires 2 * Count() <= |words|
    {
      NewView(words, Count(), Visible())
    }

    /**
    What the code reads without checking: all entries the count speaks of, and the string area as
    far as the length word goes.
     */
    predicate Readable() {
      && HEADER <= varsize < POS_LIMIT && IsWord(size) && AllWords(words)
      && 2 * Count() <= |words| && (size != 0 ==> words != [])
      && varsize - DataSize(Count(), 0) <= |str|
    }

    /** The count of an old value has no flags. */
    predicate IsOld()
      requires Readable()
    {
      size < MAX_COUNT && OldValid(Entries(), varsize)
    }

    function Entries(): (es: seq<OldEntry>)
      requires Readable()
    {
      OldEntries(words, Count())
    }

    predicate IsNew() {
      size >= NEWVERSION || Count() == 0 || NewValid(words, Count(), varsize)
    }

    /** The test for values that need no validation. */
    predicate Fast()
      requires Readable()
    {
      size == 0 || (varsize < FAST_LIMIT && FromWord(words[0]).first)
    }

    /** HS_SETCOUNT and HS_FIXSIZE. */
    function Fixed(): Stored
      requires 2 * Count() <= |words|
    {
      Stored(DataSize(Count(), LastPos(words, Count())), Count() + NEWVERSION, words, str)
    }
  }

  datatype Outcome = AlreadyNew | FastPath | TakenAsNew | Rewrote | Invalid

  /** Which way a value goes; one that passes both tests is taken for an old one. */
  function Route(v: Stored): Outcome
    requires v.Readable()
  {
    if v.size >= NEWVERSION then AlreadyNew
    else if v.Fast() then FastPath
    else if v.IsOld() then Rewrote
    else if v.IsNew() then TakenAsNew
    else Invalid
  }

  /** What the upgrade makes of a value. */
  ghost predicate Upgraded(v: Stored, v': Stored)
    requires v.Readable()
  {
    match Route(v)
    case AlreadyNew => v' == v
    case Invalid => v' == v
    case FastPath => v' == v.Fixed()
    case TakenAsNew => v' == v.Fixed()
    case Rewrote => |v'.words| == |v.words| && Rewritten(v.Entries(), v'.words) && v' == v.(words := v'.words).Fixed()
  }

  class HStoreValue {
    var varsize: int
    var size: int
    const words: array<int>
    const str: Bytes

    constructor (varsize: int, size: int, words: array<int>, str: Bytes)
      ensures this.varsize == varsize && this.size == size && this.words == words && this.str == str
    {
      this.varsize, this.size, this.words, this.str := varsize, size, words, str;
    }

    ghost function Value(): Stored
      reads this, words
    {
      Stored(varsize, size, words[..], str)
    }

    /** `hstoreValidNewFormat`: 0 for not valid, 1 for valid with slop, 2 for exactly valid. */
    method ValidNewFormat() returns (r: int)
      requires Value().Readable()
      ensures r == 0 || r == 1 || r == 2
      ensures r != 0 <==> Value().IsNew()
      ensures r == 1 <==>
              && Value().IsNew() && size < NEWVERSION && Value().Count() != 0
              && varsize > DataSize(Value().Count(), LastPos(words[..], Value().Count()))
    {
      var count := size % MAX_COUNT;
      var buflen := if count != 0 then FromWord(words[2 * count - 1]).pos else 0;
      var vsize := DataSize(count, buflen);
      if size >= NEWVERSION || count == 0 {
        return 2;
      }
      if !FromWord(words[0]).first || vsize > varsize {
        return 0;
      }
      var ok := CheckPositions(words, count);
      if !ok {
        return 0;
      }
      ok := CheckKeys(words, count);
      if !ok {
        return 0;
      }
      return if vsize != varsize then 1 else 2;
    }

    /** `hstoreValidOldFormat`, with the same three results. */
    method ValidOldFormat() returns (r: int)
      requires Value().Readable()
      ensures r == 0 || r == 1 || r == 2
      ensures r != 0 <==> Value().IsOld()
      ensures r == 1 <==> Value().IsOld() && size != 0 && varsize > DataSize(size, OldEnd(Value().Entries(), size))
    {
      var count := size;
      if size >= NEWVERSION {
        return 0;
      }
      if count == 0 {
        return 2;
      }
      if count >= MAX_COUNT || DataSize(count, 0) > varsize {
        return 0;
      }
      ghost var es := Value().Entries();
      if OldFrom(words[0], words[1]).pos != 0 {
        assert !StartsAtEnd(es, 0);
        return 0;
      }
      var ok := CheckKeyLengths(words, count);
      if !ok {
        return 0;
      }
      var lastpos;
      ok, lastpos := CheckContiguous(words, count);
      if !ok || DataSize(count, lastpos) > varsize {
        return 0;
      }
      return if DataSize(count, lastpos) != varsize then 1 else 2;
    }

    /** `hstoreUpgrade`. */
    method Upgrade() returns (outcome: Outcome)
      requires Value().Readable()
      modifies this`varsize, this`size, words
      ensures outcome == old(Route(Value())) && Upgraded(old(Value()), Value())
      ensures var v := old(Value());
              && (outcome.AlreadyNew? <==> v.size >= NEWVERSION)
              && (outcome.Invalid? <==> v.size < NEWVERSION && !v.Fast() && !v.IsOld() && !v.IsNew())
              && (outcome.Rewrote? <==> v.size < NEWVERSION && !v.Fast() && v.IsOld())
    {
      if size >= NEWVERSION {
        return AlreadyNew;
      }
      if size == 0 || (varsize < FAST_LIMIT && FromWord(words[0]).first) {
        FixSize();
        return FastPath;
      }
      var validNew := ValidNewFormat();
      var validOld := ValidOldFormat();
      if validOld == 0 {
        if validNew == 0 {
          return Invalid;
        }
        FixSize();
        return TakenAsNew;
      }
      Rewrite();
      return Rewrote;
    }

    /** The last part of `hstoreUpgrade`. */
    method Rewrite()
      requires Value().Readable() && size < MAX_COUNT
      modifies this`varsize, this`size, words
      ensures Rewritten(old(Value().Entries()), words[..])
      ensures Value() == old(Value()).(words := words[..]).Fixed()
    {
      ghost var v := Value();
      assert v.Count() == size;
      RewriteEntries(words, size);
      assert Value() == v.(words := words[..]);
      FixSize();
    }

    /** HS_SETCOUNT and HS_FIXSIZE. */
    method FixSize()
      requires 2 * Value().Count() <= words.Length
      modifies this`varsize, this`size
      ensures Value() == old(Value()).Fixed()
    {
      var count := size % MAX_COUNT;
      size := count + NEWVERSION;
      var bl := if count != 0 then FromWord(words[2 * count - 1]).pos else 0;
      varsize := DataSize(count, bl);
    }
  }

  /** The first loop of `hstoreValidNewFormat`. */
  method CheckPositions(words: array<int>, count: nat) returns (ok: bool)
    requires 2 * count <= words.Length
    ensures ok == PositionsAscend(words[..], 2 * count)
  {
    var i := 1;
    while i < 2 * count
      invariant 1 <= i && (count > 0 ==> i <= 2 * count)
      invariant forall k | 1 <= k < i && k < 2 * count :: !FromWord(words[k]).first && FromWord(words[k - 1]).pos <= FromWord(words[k]).pos
    {
      if FromWord(words[i]).first || FromWord(words[i]).pos < FromWord(words[i - 1]).pos {
        return false;
      }
      i := i + 1;
    }
    return true;
  }

  /** The second loop of `hstoreValidNewFormat`. */
  method CheckKeys(words: array<int>, count: nat) returns (ok: bool)
    requires 2 * count <= words.Length
    ensures ok == KeysOk(words[..], count)
  {
    ghost var w := words[..];
    var i := 1;
    while i < count
      invariant 1 <= i && (count > 0 ==> i <= count)
      invariant forall k | 1 <= k < i && k < count :: NewKeyLen(w, k - 1) <= NewKeyLen(w, k) && !FromWord(w[2 * k]).isNull
    {
      if NewKeyLen(words[..], i) < NewKeyLen(words[..], i - 1) || FromWord(words[2 * i]).isNull {
        return false;
      }
      i := i + 1;
    }
    return true;
  }

  /** The first loop of `hstoreValidOldFormat`. */
  method CheckKeyLengths(words: array<int>, count: nat) returns (ok: bool)
    requires AllWords(words[..]) && 2 * count <= words.Length
    ensures ok == Ascending(OldEntries(words[..], count))
  {
    ghost var es := OldEntries(words[..], count);
    var i := 1;
    while i < count
      invariant 1 <= i && (count > 0 ==> i <= count)
      invariant forall k | 1 <= k < i && k < count :: es[k - 1].keylen <= es[k].keylen
    {
      var before, e := OldFrom(words[2 * (i - 1)], words[2 * (i - 1) + 1]), OldFrom(words[2 * i], words[2 * i + 1]);
      assert before == es[i - 1] && e == es[i];
      if e.keylen < before.keylen {
        return false;
      }
      i := i + 1;
    }
    return true;
  }

  /** The second loop of `hstoreValidOldFormat`. */
  method CheckContiguous(words: array<int>, count: nat) returns (ok: bool, lastpos: nat)
    requires AllWords(words[..]) && 2 * count <= words.Length
    ensures ok == Contiguous(OldEntries(words[..], count))
    ensures ok ==> lastpos == OldEnd(OldEntries(words[..], count), count)
  {
    ghost var es := OldEntries(words[..], count);
    lastpos := 0;
    for i := 0 to count
      invariant lastpos == OldEnd(es, i)
      invariant forall k | 0 <= k < i :: StartsAtEnd(es, k)
    {
      var e := OldFrom(words[2 * i], words[2 * i + 1]);
      assert e == es[i];
      if e.pos != lastpos {
        assert !StartsAtEnd(es, i);
        return false, lastpos;
      }
      lastpos := lastpos + (e.keylen + if e.isNull then 0 else e.vallen);
    }
    return true, lastpos;
  }

  // ----- What the upgrade means -----

  /** The pairs of an old value. */
  function Meaning(v: Stored): (ps: seq<Pair>)
    requires v.Readable() && v.IsOld()
  {
    ValidWithin(v.Entries(), v.varsize, v.str);
    OldPairs(v.Entries(), v.str)
  }

  /** A value reads as well-formed new entries for the given pairs. */
  ghost predicate ReadsAs(v: Stored, ps: seq<Pair>) {
    2 * v.Count() <= |v.words| && v.View().WellFormed() && v.View().Pairs() == ps
  }

  lemma FixedCount(v: Stored)
    requires 2 * v.Count() <= |v.words|
    ensures v.Fixed().Count() == v.Count()
  {
  }

  lemma FixedView(v: Stored, len: nat)
    requires 2 * v.Count() <= |v.words| && len == LastPos(v.words, v.Count()) <= |v.str|
    ensures 2 * v.Fixed().Count() <= |v.Fixed().words|
    ensures v.Fixed().View() == NewView(v.words, v.Count(), v.str[..len])
  {
  }

  /** A rewritten value reads as the pairs it had, in the packed form that a fresh value would have. */
  lemma RewroteKeepsMeaning(v: Stored, v': Stored)
    requires v.Readable() && v.IsOld() && Route(v) == Rewrote && Upgraded(v, v')
    ensures ReadsAs(v', Meaning(v)) && v'.View() == Pack(Meaning(v))
    ensures v'.varsize == DataSize(v.Count(), OldEnd(v.Entries(), v.Count())) <= v.varsize
  {
    var es := v.Entries();
    ValidWithin(es, v.varsize, v.str);
    RewritePreservesMeaning(es, v'.words, v.varsize, v.str);
    FixedView(v.(words := v'.words), OldEnd(es, |es|));
  }

  /** Whatever is not an error has the version flag and the same number of pairs, and is left alone from then on. */
  lemma {:induction false} UpgradedOnce(v: Stored, v': Stored)
    requires v.Readable() && Upgraded(v, v') && Route(v) != Invalid
    ensures v'.size >= NEWVERSION && v'.Count() == v.Count() && v'.str == v.str
    ensures v'.Readable() ==> Route(v') == AlreadyNew
  {
    FixedCount(v.(words := v'.words));
  }

  /** An empty value stays empty. */
  lemma EmptyKeepsMeaning(v: Stored, v': Stored)
    requires v.Readable() && v.IsOld() && v.size == 0 && Upgraded(v, v')
    ensures ReadsAs(v', Meaning(v)) && v'.varsize == HEADER
  {
  }

  /** An old value taken by the fast path is misread: its first value is null and is read as not null. */
  lemma FastMisreads(v: Stored, v': Stored)
    requires v.Readable() && v.IsOld() && v.size != 0 && v.Fast() && Upgraded(v, v')
    ensures !ReadsAs(v', Meaning(v))
    ensures v.Entries()[0].isNull && v.Entries()[0].vallen >= FAST_LIMIT
  {
    var es := v.Entries();
    FixedCount(v);
    assert es[0] == OldFrom(v.words[0], v.words[1]) && StartsAtEnd(es, 0);
    OldEndMonotone(es, 1, |es|);
    assert OldEnd(es, 1) == es[0].Len();
    TopBit(v.words[0]);
    assert v.words[1] == 1;
    assert !NewAt(v.words, 0).v.isNull;
    assert v'.View().WellFormed() ==> v'.View().Pairs()[0].isNull == v'.View().entries[0].v.isNull;
  }

  lemma TopBit(w: int)
    requires IsWord(w)
    ensures FromWord(w).first <==> w / 65536 >= FAST_LIMIT
  {
  }

  /** Such a value: the key "a" with a null value whose length field is 32768, in 17 bytes. */
  lemma MisreadExample(v: Stored)
    requires v == Stored(17, 1, [0x8000_0001, 1], [97])
    ensures v.Readable() && v.IsOld() && Meaning(v) == [Pair([97], [], true)]
    ensures Upgraded(v, v.Fixed()) && !ReadsAs(v.Fixed(), Meaning(v))
  {
    var es := v.Entries();
    assert es == [OldEntry(1, 32768, true, 0)];
    assert OldEnd(es, 0) == 0 && OldEnd(es, 1) == 1;
    assert StartsAtEnd(es, 0);
    assert OldPair(es[0], v.str) == Pair([97], [], true);
    FastMisreads(v, v.Fixed());
  }

  /**
  Upgrading an old value keeps its meaning if and only if its first pair does not have a null value
  with a length field of 32768 or more, or it takes up 32768 bytes or more.
   */
  lemma UpgradeKeepsMeaningIff(v: Stored, v': Stored)
    requires v.Readable() && v.IsOld() && Upgraded(v, v')
    ensures ReadsAs(v', Meaning(v)) <==>
            !(v.size != 0 && v.varsize < FAST_LIMIT && v.Entries()[0].isNull && v.Entries()[0].vallen >= FAST_LIMIT)
  {
    if v.size == 0 {
      EmptyKeepsMeaning(v, v');
    } else {
      assert v.Entries()[0] == OldFrom(v.words[0], v.words[1]);
      TopBit(v.words[0]);
      if v.Fast() {
        FastMisreads(v, v');
      } else {
        RewroteKeepsMeaning(v, v');
      }
    }
  }

  /** The value without the bytes that no entry reaches. */
  function Cut(v: Stored): (h: Packed)
    requires v.Readable() && LastPos(v.words, v.Count()) <= |v.Visible()|
  {
    NewView(v.words, v.Count(), v.Visible()[..LastPos(v.words, v.Count())])
  }

  lemma {:induction false} NewWellFormed(v: Stored)
    requires v.Readable() && v.IsNew() && v.size < NEWVERSION
    ensures LastPos(v.words, v.Count()) <= |v.Visible()| && Cut(v).WellFormed() && v.View().WellFormed()
    ensures v.View().Pairs() == Cut(v).Pairs()
    ensures DataSize(v.Count(), LastPos(v.words, v.Count())) <= v.varsize
  {
    var n := v.Count();
    var len := LastPos(v.words, n);
    if n > 0 {
      assert v.Visible() == v.str[..v.varsize - DataSize(n, 0)];
      NewValidWellFormed(v.words, n, v.varsize, v.Visible()[..len]);
      CutKeepsPairs(v.words, n, v.Visible(), len);
    }
  }

  /** A valid new value keeps its pairs when only its header changes; what lies behind the last is cut off. */
  lemma {:induction false} FixedKeepsPairs(v: Stored)
    requires v.Readable() && v.IsNew() && v.size < NEWVERSION
    ensures v.View().WellFormed() && ReadsAs(v.Fixed(), v.View().Pairs())
    ensures v.Fixed().varsize == DataSize(v.Count(), LastPos(v.words, v.Count())) <= v.varsize
  {
    var len := LastPos(v.words, v.Count());
    NewWellFormed(v);
    FixedCount(v);
    assert v.Fixed().Visible() == v.Visible()[..len];
    assert v.Fixed().View() == Cut(v);
  }

  /** The first pair of a value with the top bit set, read as a new one. */
  lemma {:induction false} FirstNewPair(h: Packed)
    requires h.WellFormed() && h.entries != []
    ensures |h.Pairs()[0].val| <= h.entries[0].v.pos && h.Pairs()[0].isNull == h.entries[0].v.isNull
  {
    assert h.EntryOk(0);
  }

  /** A word that holds an old start position of zero. */
  lemma {:induction false} ZeroPosition(w: int)
    requires IsWord(w) && w / 2 == 0
    ensures w == (if w % 2 == 1 then 1 else 0) && FromWord(w) == HEntry(false, false, w)
  {
  }

  /** The first words of a value that is valid in both formats. */
  lemma {:induction false} AmbiguousWords(v: Stored)
    requires v.Readable() && v.IsOld() && v.IsNew() && v.size != 0
    ensures v.Entries() != [] && v.Entries()[0].vallen >= FAST_LIMIT && v.Entries()[0].pos == 0
    ensures v.View().entries[0].v == HEntry(false, false, if v.Entries()[0].isNull then 1 else 0)
  {
    var es := v.Entries();
    assert es[0] == OldFrom(v.words[0], v.words[1]) && StartsAtEnd(es, 0);
    TopBit(v.words[0]);
    ZeroPosition(v.words[1]);
    assert v.View().entries[0] == NewAt(v.words, 0);
  }

  /** The first pair of an old value has the bytes and the null flag of its first entry. */
  lemma {:induction false} FirstOldPair(v: Stored)
    requires v.Readable() && v.IsOld() && v.size != 0
    ensures var e := v.Entries()[0]; Meaning(v)[0].isNull == e.isNull && |Meaning(v)[0].val| == e.ValLen()
  {
    ValidWithin(v.Entries(), v.varsize, v.str);
  }

  /** The two readings of a value that is valid in both formats differ in the first pair. */
  lemma {:induction false} ReadingsDiffer(v: Stored)
    requires v.Readable() && v.IsOld() && v.IsNew() && v.size != 0
    ensures v.View().WellFormed() && v.View().Pairs() != Meaning(v)
  {
    NewWellFormed(v);
    AmbiguousWords(v);
    FirstNewPair(v.View());
    FirstOldPair(v);
  }

  /**
  A valid new value without the version flag keeps its pairs if and only if the fast path takes it
  or it is not valid as an old one: a value that passes both tests is rewritten as an old one.
   */
  lemma {:induction false} NewKeepsMeaningIff(v: Stored, v': Stored)
    requires v.Readable() && v.IsNew() && v.size < NEWVERSION && Upgraded(v, v')
    ensures v.View().WellFormed()
    ensures ReadsAs(v', v.View().Pairs()) <==> v.Fast() || !v.IsOld()
    ensures v.Fast() || !v.IsOld() ==> v'.varsize == DataSize(v.Count(), LastPos(v.words, v.Count())) <= v.varsize
  {
    FixedKeepsPairs(v);
    if !v.Fast() && v.IsOld() {
      RewroteKeepsMeaning(v, v');
      ReadingsDiffer(v);
    }
  }

  /** Such a value: in the new format the pair of two empty strings, with 32768 bytes of slop. */
  lemma {:induction false} AmbiguousExample(v: Stored, v': Stored)
    requires |v.str| == 32768 && v == Stored(32784, 1, [0x8000_0000, 0], v.str)
    ensures v.Readable() && v.IsNew() && v.IsOld() && !v.Fast()
    ensures v.View().WellFormed() && v.View().Pairs() == [Pair([], [], false)]
    ensures Meaning(v) == [Pair([], v.str, false)]
    ensures Upgraded(v, v') ==> !ReadsAs(v', v.View().Pairs()) && ReadsAs(v', Meaning(v))
  {
    AmbiguousIsOld(v);
    assert NewAt(v.words, 0) == EntryPair(HEntry(true, false, 0), HEntry(false, false, 0));
    assert v.IsNew();
    NewWellFormed(v);
    assert v.View().PairAt(0) == Pair([], [], false);
    if Upgraded(v, v') {
      NewKeepsMeaningIff(v, v');
      RewroteKeepsMeaning(v, v');
    }
  }

  lemma {:induction false} AmbiguousIsOld(v: Stored)
    requires |v.str| == 32768 && v == Stored(32784, 1, [0x8000_0000, 0], v.str)
    ensures v.Readable() && v.IsOld() && Meaning(v) == [Pair([], v.str, false)]
  {
    var es := v.Entries();
    assert es == [OldEntry(0, 32768, false, 0)];
    assert OldEnd(es, 0) == 0 && OldEnd(es, 1) == 32768;
    assert StartsAtEnd(es, 0);
    assert v.str[0..32768] == v.str;
    assert OldPair(es[0], v.str) == Pair([], v.str, false);
  }
}
