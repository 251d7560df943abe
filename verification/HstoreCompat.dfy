/**
Conversion of old hstore values (contrib/hstore/hstore_compat.c): an old value has the same header
and the same two words per pair, but the words hold two lengths, a null flag and a start position.

Words are 32-bit numbers, laid out as on a little-endian machine.
 */
module HstoreCompat {
  import opened ByteStrings
  import opened HstoreFormat
  import opened HstoreImage

  /** Values under this size are told apart by the top bit of their first word alone. */
  const FAST_LIMIT: int := 32768

  // ----- Old entries -----

  /** HOldEntry. */
  datatype OldEntry = OldEntry(keylen: nat, vallen: nat, isNull: bool, pos: nat) {
    /** Bytes of the string area; a null value has none, whatever its length field says. */
    function Len(): nat {
      keylen + ValLen()
    }

    function ValLen(): nat {
      if isNull then 0 else vallen
    }
  }

  predicate IsWord(w: int) {
    0 <= w < 0x1_0000_0000
  }

  predicate AllWords(w: seq<int>) {
    forall i | 0 <= i < |w| :: IsWord(w[i])
  }

  function OldFrom(w0: int, w1: int): OldEntry
    requires IsWord(w0) && IsWord(w1)
  {
    OldEntry(w0 % 65536, w0 / 65536, w1 % 2 == 1, w1 / 2)
  }

  /** The words of n pairs read as old entries. */
  function OldEntries(w: seq<int>, n: nat): (es: seq<OldEntry>)
    requires AllWords(w) && 2 * n <= |w|
  {
    seq(n, i requires 0 <= i < n => OldFrom(w[2 * i], w[2 * i + 1]))
  }

  /** The bytes taken by the first n pairs. */
  function OldEnd(es: seq<OldEntry>, n: nat): nat
    requires n <= |es|
  {
    if n == 0 then 0 else OldEnd(es, n - 1) + es[n - 1].Len()
  }

  predicate Ascending(es: seq<OldEntry>) {
    forall i | 1 <= i < |es| :: es[i - 1].keylen <= es[i].keylen
  }

  /** The i-th pair starts where the pairs before it end. */
  predicate StartsAtEnd(es: seq<OldEntry>, i: nat)
    requires i < |es|
  {
    es[i].pos == OldEnd(es, i)
  }

  predicate Contiguous(es: seq<OldEntry>) {
    forall i | 0 <= i < |es| :: StartsAtEnd(es, i)
  }

  /** An old value that fits into varsize bytes. */
  predicate OldValid(es: seq<OldEntry>, varsize: int) {
    && |es| < MAX_COUNT
    && Ascending(es) && Contiguous(es) && DataSize(|es|, OldEnd(es, |es|)) <= varsize
  }

  lemma {:induction false} OldEndMonotone(es: seq<OldEntry>, i: nat, n: nat)
    requires i <= n <= |es|
    ensures OldEnd(es, i) <= OldEnd(es, n)
  {
    if i < n {
      OldEndMonotone(es, i, n - 1);
    }
  }

  /** The pair an old entry stands for. */
  function OldPair(e: OldEntry, str: Bytes): Pair
    requires e.pos + e.Len() <= |str|
  {
    Pair(str[e.pos..e.pos + e.keylen], str[e.pos + e.keylen..e.pos + e.Len()], e.isNull)
  }

  predicate WithinString(es: seq<OldEntry>, str: Bytes) {
    forall i | 0 <= i < |es| :: es[i].pos + es[i].Len() <= |str|
  }

  /** The meaning of an old value. */
  function OldPairs(es: seq<OldEntry>, str: Bytes): (ps: seq<Pair>)
    requires WithinString(es, str)
  {
    seq(|es|, i requires 0 <= i < |es| => OldPair(es[i], str))
  }

  lemma ValidWithin(es: seq<OldEntry>, varsize: int, str: Bytes)
    requires OldValid(es, varsize) && OldEnd(es, |es|) <= |str|
    ensures WithinString(es, str)
  {
    forall i | 0 <= i < |es|
      ensures es[i].pos + es[i].Len() <= |str|
    {
      assert StartsAtEnd(es, i);
      OldEndMonotone(es, i + 1, |es|);
    }
  }

  /** The test of key lengths is about the keys of the pairs the entries stand for. */
  lemma {:induction false} AscendingIff(es: seq<OldEntry>, str: Bytes)
    requires WithinString(es, str)
    ensures Ascending(es) <==>
            var ps := OldPairs(es, str); forall i | 1 <= i < |ps| :: |ps[i - 1].key| <= |ps[i].key|
  {
    var ps := OldPairs(es, str);
    assert |ps| == |es| && forall i | 0 <= i < |ps| :: ps[i] == OldPair(es[i], str) && |ps[i].key| == es[i].keylen;
  }

  /** The lengths of the entries before one add up to where its pair belongs. */
  lemma {:induction false} StartIsEnd(es: seq<OldEntry>, str: Bytes, i: nat)
    requires WithinString(es, str) && i <= |es|
    ensures Start(OldPairs(es, str), i) == OldEnd(es, i)
  {
    var ps := OldPairs(es, str);
    if i > 0 {
      StartIsEnd(es, str, i - 1);
      StringsStep(ps, i - 1);
      assert ps[i - 1] == OldPair(es[i - 1], str);
    } else {
      assert ps[..0] == [];
    }
  }

  /** The i-th entry points to where the pairs before it end. */
  ghost predicate InPlace(es: seq<OldEntry>, ps: seq<Pair>, i: nat)
    requires i < |es| == |ps|
  {
    es[i].pos == Start(ps, i)
  }

  /**
  The test for old values accepts exactly those whose pairs lie one behind the other in the string
  area, fit in it, and have keys that do not get shorter.
   */
  lemma {:induction false} OldValidIff(es: seq<OldEntry>, varsize: int, str: Bytes)
    requires |es| < MAX_COUNT && |str| == varsize - DataSize(|es|, 0)
    ensures OldValid(es, varsize) <==>
            && WithinString(es, str)
            && var ps := OldPairs(es, str);
               && (forall i | 0 <= i < |es| :: InPlace(es, ps, i)) && |Strings(ps)| <= |str|
               && (forall i | 1 <= i < |ps| :: |ps[i - 1].key| <= |ps[i].key|)
  {
    if OldValid(es, varsize) {
      ValidWithin(es, varsize, str);
    }
    if WithinString(es, str) {
      var ps := OldPairs(es, str);
      AscendingIff(es, str);
      StartIsEnd(es, str, |es|);
      assert ps[..|es|] == ps;
      forall i | 0 <= i < |es|
        ensures StartsAtEnd(es, i) <==> InPlace(es, ps, i)
      {
        StartIsEnd(es, str, i);
      }
    }
  }

  // ----- New entries -----

  function NewAt(w: seq<int>, i: nat): EntryPair
    requires 2 * i + 1 < |w|
  {
    EntryPair(FromWord(w[2 * i]), FromWord(w[2 * i + 1]))
  }

  /** The same words read as a new value. */
  function NewView(w: seq<int>, n: nat, str: Bytes): (h: Packed)
    requires 2 * n <= |w|
  {
    Packed(seq(n, i requires 0 <= i < n => NewAt(w, i)), str)
  }

  /** HSE_ENDPOS of the last entry. */
  function LastPos(w: seq<int>, n: nat): int
    requires 2 * n <= |w|
  {
    if n == 0 then 0 else FromWord(w[2 * n - 1]).pos
  }

  predicate PositionsAscend(w: seq<int>, m: nat)
    requires m <= |w|
  {
    forall i | 1 <= i < m :: !FromWord(w[i]).first && FromWord(w[i - 1]).pos <= FromWord(w[i]).pos
  }

  /** HSTORE_KEYLEN. */
  function NewKeyLen(w: seq<int>, i: nat): int
    requires 2 * i < |w|
  {
    var e := FromWord(w[2 * i]);
    if i == 0 || e.first then e.pos else e.pos - FromWord(w[2 * i - 1]).pos
  }

  predicate KeysOk(w: seq<int>, n: nat)
    requires 2 * n <= |w|
  {
    forall i | 1 <= i < n :: NewKeyLen(w, i - 1) <= NewKeyLen(w, i) && !FromWord(w[2 * i]).isNull
  }

  /** A new value of n > 0 pairs, without the version flag, that fits into varsize bytes. */
  predicate NewValid(w: seq<int>, n: nat, varsize: int) {
    && 0 < n && 2 * n <= |w| && FromWord(w[0]).first && DataSize(n, LastPos(w, n)) <= varsize
    && PositionsAscend(w, 2 * n) && KeysOk(w, n)
  }

  lemma {:induction false} PositionsUpTo(w: seq<int>, m: nat, i: nat, j: nat)
    requires m <= |w| && PositionsAscend(w, m) && i <= j < m
    ensures FromWord(w[i]).pos <= FromWord(w[j]).pos
  {
    if i < j {
      PositionsUpTo(w, m, i, j - 1);
    }
  }

  /** What the new-format test accepts is well formed, also once cut off behind its last byte. */
  lemma NewValidWellFormed(w: seq<int>, n: nat, varsize: int, str: Bytes)
    requires NewValid(w, n, varsize) && n < MAX_COUNT && LastPos(w, n) <= |str|
    ensures NewView(w, n, str).WellFormed()
  {
    var h := NewView(w, n, str);
    forall i | 0 <= i < n
      ensures h.EntryOk(i)
    {
      PositionsUpTo(w, 2 * n, 2 * i, 2 * i + 1);
      PositionsUpTo(w, 2 * n, 2 * i + 1, 2 * n - 1);
      assert h.entries[i] == NewAt(w, i);
      if i > 0 {
        assert h.entries[i - 1] == NewAt(w, i - 1);
        PositionsUpTo(w, 2 * n, 2 * i - 1, 2 * i);
      }
    }
  }

  /** Keys grow in length, and none but the first may carry a null flag. */
  ghost predicate GoodKeys(h: Packed)
    requires h.WellFormed()
  {
    forall i | 1 <= i < |h.entries| ::
      |h.Pairs()[i - 1].key| <= |h.Pairs()[i].key| && !h.entries[i].k.isNull
  }

  lemma {:induction false} KeyLenIs(w: seq<int>, n: nat, str: Bytes, i: nat)
    requires 2 * n <= |w| && NewView(w, n, str).WellFormed() && i < n
    ensures NewKeyLen(w, i) == |NewView(w, n, str).Pairs()[i].key|
  {
    var h := NewView(w, n, str);
    assert h.EntryOk(i) && h.entries[i] == NewAt(w, i);
    if i > 0 {
      assert h.EntryOk(i - 1) && h.entries[i - 1] == NewAt(w, i - 1);
    }
  }

  lemma {:induction false} KeysOkIff(w: seq<int>, n: nat, str: Bytes)
    requires 2 * n <= |w| && NewView(w, n, str).WellFormed()
    ensures KeysOk(w, n) <==> GoodKeys(NewView(w, n, str))
  {
    var h := NewView(w, n, str);
    forall i | 0 <= i < n
      ensures NewKeyLen(w, i) == |h.Pairs()[i].key| && h.entries[i].k.isNull == FromWord(w[2 * i]).isNull
    {
      KeyLenIs(w, n, str, i);
      assert h.entries[i] == NewAt(w, i);
    }
    forall i | 1 <= i < n
      ensures (NewKeyLen(w, i - 1) <= NewKeyLen(w, i) && !FromWord(w[2 * i]).isNull) <==>
              (|h.Pairs()[i - 1].key| <= |h.Pairs()[i].key| && !h.entries[i].k.isNull)
    {
      assert NewKeyLen(w, i - 1) == |h.Pairs()[i - 1].key|;
    }
  }

  lemma {:induction false} WellFormedAscends(w: seq<int>, n: nat, str: Bytes)
    requires 2 * n <= |w| && NewView(w, n, str).WellFormed()
    ensures PositionsAscend(w, 2 * n) && (n > 0 ==> FromWord(w[0]).first && LastPos(w, n) <= |str|)
  {
    var h := NewView(w, n, str);
    forall k | 1 <= k < 2 * n
      ensures !FromWord(w[k]).first && FromWord(w[k - 1]).pos <= FromWord(w[k]).pos
    {
      var i := k / 2;
      assert h.EntryOk(i) && h.entries[i] == NewAt(w, i);
      if k == 2 * i {
        assert h.EntryOk(i - 1) && h.entries[i - 1] == NewAt(w, i - 1);
      }
    }
    if n > 0 {
      assert h.EntryOk(0) && h.entries[0] == NewAt(w, 0);
      assert h.EntryOk(n - 1) && h.entries[n - 1] == NewAt(w, n - 1);
    }
  }

  /** The test for new values accepts exactly the well-formed ones with good keys that fit. */
  lemma {:induction false} NewValidIff(w: seq<int>, n: nat, varsize: int, str: Bytes)
    requires 0 < n < MAX_COUNT && 2 * n <= |w| && |str| == varsize - DataSize(n, 0)
    ensures NewValid(w, n, varsize) <==> NewView(w, n, str).WellFormed() && GoodKeys(NewView(w, n, str))
  {
    if NewValid(w, n, varsize) {
      NewValidWellFormed(w, n, varsize, str);
      KeysOkIff(w, n, str);
    }
    if NewView(w, n, str).WellFormed() && GoodKeys(NewView(w, n, str)) {
      WellFormedAscends(w, n, str);
      KeysOkIff(w, n, str);
    }
  }

  /** Cutting off what no entry reaches changes no pair. */
  lemma CutKeepsPairs(w: seq<int>, n: nat, str: Bytes, len: nat)
    requires 2 * n <= |w| && len <= |str| && NewView(w, n, str[..len]).WellFormed()
    ensures NewView(w, n, str).WellFormed() && NewView(w, n, str).Pairs() == NewView(w, n, str[..len]).Pairs()
  {
    var h, h' := NewView(w, n, str), NewView(w, n, str[..len]);
    forall i | 0 <= i < n
      ensures h.EntryOk(i) && h'.EntryOk(i) && h.PairAt(i) == h'.PairAt(i)
    {
      assert h'.EntryOk(i) && h.KeyOff(i) == h'.KeyOff(i);
    }
  }

  // ----- The rewrite -----

  /** The new words for an old entry. */
  function Converted(e: OldEntry): EntryPair {
    EntryPair(HEntry(false, false, (e.pos + e.keylen) % POS_LIMIT),
              HEntry(false, e.isNull, (e.pos + e.Len()) % POS_LIMIT))
  }

  /** The words hold the new form of the entries, the first of them flagged. */
  predicate Rewritten(es: seq<OldEntry>, w: seq<int>) {
    && 2 * |es| <= |w|
    && forall i | 0 <= i < |es| ::
         w[2 * i] == ToWord(Converted(es[i]).k.(first := i == 0)) && w[2 * i + 1] == ToWord(Converted(es[i]).v)
  }

  /** `hstoreUpgrade`: overwrite the old entries with new ones, in place. */
  method RewriteEntries(words: array<int>, count: nat)
    requires AllWords(words[..]) && 2 * count <= words.Length
    modifies words
    ensures Rewritten(OldEntries(old(words[..]), count), words[..])
  {
    ghost var es := OldEntries(words[..], count);
    OverwriteEntries(words, count, es);
    if count > 0 {
      WordRoundTrip(Converted(es[0]).k);
      words[0] := ToWord(FromWord(words[0]).(first := true));
    }
  }

  /** Its loop. */
  method OverwriteEntries(words: array<int>, count: nat, ghost es: seq<OldEntry>)
    requires AllWords(words[..]) && 2 * count <= words.Length && es == OldEntries(words[..], count)
    modifies words
    ensures forall k | 0 <= k < count :: words[2 * k] == ToWord(Converted(es[k]).k)
    ensures forall k | 0 <= k < count :: words[2 * k + 1] == ToWord(Converted(es[k]).v)
  {
    for i := 0 to count
      invariant forall k | 2 * i <= k < words.Length :: words[k] == old(words[k])
      invariant forall k | 0 <= k < i :: words[2 * k] == ToWord(Converted(es[k]).k)
      invariant forall k | 0 <= k < i :: words[2 * k + 1] == ToWord(Converted(es[k]).v)
    {
      ghost var w := old(words[..]);
      assert words[2 * i] == w[2 * i] && words[2 * i + 1] == w[2 * i + 1];
      var c := Converted(OldFrom(words[2 * i], words[2 * i + 1]));
      assert c == Converted(es[i]);
      words[2 * i] := ToWord(c.k);
      words[2 * i + 1] := ToWord(c.v);
    }
  }

  /** No position of a valid old value is lost to the 30-bit mask. */
  lemma PositionsFit(es: seq<OldEntry>, varsize: int, i: nat)
    requires OldValid(es, varsize) && varsize < POS_LIMIT && i < |es|
    ensures Converted(es[i]).k.pos == es[i].pos + es[i].keylen
    ensures Converted(es[i]).v.pos == es[i].pos + es[i].Len() == OldEnd(es, i + 1)
  {
    assert StartsAtEnd(es, i);
    OldEndMonotone(es, i + 1, |es|);
    SmallPosition(es[i].pos + es[i].keylen);
    SmallPosition(es[i].pos + es[i].Len());
  }

  lemma OldPairsAt(es: seq<OldEntry>, str: Bytes, i: nat)
    requires WithinString(es, str) && i < |es|
    ensures es[i].pos + es[i].Len() <= |str| && OldPairs(es, str)[i] == OldPair(es[i], str)
  {
  }

  /** One pair's bytes follow those before it. */
  lemma OldPairBytes(e: OldEntry, str: Bytes)
    requires e.pos + e.Len() <= |str|
    ensures str[..e.pos] + (OldPair(e, str).key + OldPair(e, str).val) == str[..e.pos + e.Len()]
  {
    ThreeSlices(str, e.pos, e.keylen, e.ValLen());
  }

  /** The bytes before the i-th pair are those of the pairs before it. */
  lemma {:induction false} OldStrings(es: seq<OldEntry>, str: Bytes, i: nat)
    requires Contiguous(es) && WithinString(es, str) && i <= |es|
    ensures OldEnd(es, i) <= |str| && Strings(OldPairs(es, str)[..i]) == str[..OldEnd(es, i)]
  {
    if i > 0 {
      OldStrings(es, str, i - 1);
      assert StartsAtEnd(es, i - 1);
      OldPairsAt(es, str, i - 1);
      OldPairBytes(es[i - 1], str);
      StringsStep(OldPairs(es, str), i - 1);
    }
  }

  lemma ThreeSlices(s: Bytes, a: nat, b: nat, c: nat)
    requires a + b + c <= |s|
    ensures s[..a] + (s[a..a + b] + s[a + b..a + b + c]) == s[..a + b + c]
  {
  }

  /** One rewritten entry is the entry that packing its pair gives. */
  lemma RewrittenEntry(es: seq<OldEntry>, w: seq<int>, varsize: int, str: Bytes, i: nat)
    requires OldValid(es, varsize) && varsize < POS_LIMIT && WithinString(es, str)
    requires Rewritten(es, w) && i < |es|
    ensures var ps := OldPairs(es, str); NewAt(w, i) == EntryFor(ps[i], Start(ps, i), i == 0)
  {
    var c := Converted(es[i]);
    PositionsFit(es, varsize, i);
    WordRoundTrip(c.k.(first := i == 0));
    WordRoundTrip(c.v);
    assert StartsAtEnd(es, i);
    OldStrings(es, str, i);
  }

  /** The rewritten entries are those of the packed pairs. */
  lemma RewrittenIsPacked(es: seq<OldEntry>, w: seq<int>, varsize: int, str: Bytes)
    requires OldValid(es, varsize) && varsize < POS_LIMIT && WithinString(es, str)
    requires Rewritten(es, w)
    ensures OldEnd(es, |es|) <= |str| && NewView(w, |es|, str[..OldEnd(es, |es|)]) == Pack(OldPairs(es, str))
  {
    var n, ps := |es|, OldPairs(es, str);
    OldStrings(es, str, n);
    assert ps[..n] == ps;
    var h := NewView(w, n, str[..OldEnd(es, n)]);
    forall i | 0 <= i < n
      ensures h.entries[i] == EntryFor(ps[i], Start(ps, i), i == 0)
    {
      RewrittenEntry(es, w, varsize, str, i);
    }
    assert h.entries == Pack(ps).entries;
  }

  lemma RewrittenLastPos(es: seq<OldEntry>, w: seq<int>, varsize: int)
    requires OldValid(es, varsize) && varsize < POS_LIMIT && Rewritten(es, w)
    ensures LastPos(w, |es|) == OldEnd(es, |es|)
  {
    var n := |es|;
    if n > 0 {
      PositionsFit(es, varsize, n - 1);
      WordRoundTrip(Converted(es[n - 1]).v);
      assert w[2 * (n - 1) + 1] == ToWord(Converted(es[n - 1]).v);
    }
  }

  /**
  The rewrite preserves meaning: what it leaves in memory is exactly the packed form of the pairs
  the old value stood for.
   */
  lemma RewritePreservesMeaning(es: seq<OldEntry>, w: seq<int>, varsize: int, str: Bytes)
    requires OldValid(es, varsize) && varsize < POS_LIMIT && WithinString(es, str)
    requires Rewritten(es, w)
    ensures LastPos(w, |es|) == OldEnd(es, |es|) <= |str|
    ensures var h := NewView(w, |es|, str[..OldEnd(es, |es|)]);
            h == Pack(OldPairs(es, str)) && h.WellFormed() && h.Pairs() == OldPairs(es, str)
  {
    RewrittenLastPos(es, w, varsize);
    RewrittenIsPacked(es, w, varsize, str);
    PackRoundTrip(OldPairs(es, str));
  }
}
