/**
The packed hstore format (contrib/hstore/hstore.h): two 32-bit entry words per pair, each
holding the end position of a key or a value in the string area, with flag bits for the first
entry and for null values.
 */
module HstoreFormat {
  import opened ByteStrings

  const ISFIRST: int := 0x8000_0000
  const ISNULL: int := 0x4000_0000
  /** End positions have the low 30 bits of an entry word (HENTRY_POSMASK). */
  const POS_LIMIT: int := 0x4000_0000
  const NEWVERSION: int := 0x8000_0000
  const MAX_COUNT: int := 0x1000_0000
  /** sizeof(HStore). */
  const HEADER: int := 8

  /** One key and its value; the bytes of a null value have no meaning. */
  datatype Pair = Pair(key: Bytes, val: Bytes, isNull: bool)

  /** An entry word, taken apart into its two flags and its position. */
  datatype HEntry = HEntry(first: bool, isNull: bool, pos: int)

  /** The words of one pair: one for the key, one for the value. */
  datatype EntryPair = EntryPair(k: HEntry, v: HEntry)

  // ----- Entry words as 32-bit numbers -----

  function ToWord(e: HEntry): int {
    (if e.first then ISFIRST else 0) + (if e.isNull then ISNULL else 0) + e.pos
  }

  /** HSE_ISFIRST, HSE_ISNULL and HSE_ENDPOS. */
  function FromWord(w: int): HEntry {
    HEntry((w / ISFIRST) % 2 == 1, (w / ISNULL) % 2 == 1, w % POS_LIMIT)
  }

  lemma WordRoundTrip(e: HEntry)
    requires 0 <= e.pos < POS_LIMIT
    ensures 0 <= ToWord(e) < 0x1_0000_0000 && FromWord(ToWord(e)) == e
  {
  }

  /** The flags are the two highest bits of the word, and the position is the rest. */
  lemma {:induction false} WordFlags(w: int)
    requires 0 <= w < 0x1_0000_0000
    ensures FromWord(w).first <==> w >= 0x8000_0000
    ensures FromWord(w).isNull <==> 0x4000_0000 <= w < 0x8000_0000 || w >= 0xC000_0000
    ensures 0 <= FromWord(w).pos < 0x4000_0000
    ensures w == FromWord(w).pos + (if FromWord(w).first then 0x8000_0000 else 0)
                 + (if FromWord(w).isNull then 0x4000_0000 else 0)
  {
  }

  /** The mask takes nothing from a position that has room. */
  lemma SmallPosition(x: int)
    requires 0 <= x < POS_LIMIT
    ensures x % POS_LIMIT == x
  {
  }

  // ----- Reading -----

  /** The entries and the string area of a value. */
  datatype Packed = Packed(entries: seq<EntryPair>, str: Bytes) {
    /** HSE_OFF of the i-th key: the end of the value before it. */
    function KeyOff(i: nat): int
      requires i < |entries|
    {
      if i == 0 || entries[i].k.first then 0 else entries[i - 1].v.pos
    }

    /** What every reader relies on, for one pair. */
    predicate EntryOk(i: nat)
      requires i < |entries|
    {
      && entries[i].k.first == (i == 0) && !entries[i].v.first
      && 0 <= KeyOff(i) <= entries[i].k.pos <= entries[i].v.pos <= |str|
    }

    predicate WellFormed() {
      |entries| < MAX_COUNT && forall i | 0 <= i < |entries| :: EntryOk(i)
    }

    /** The i-th pair, as HSTORE_KEY, HSTORE_VAL and HSTORE_VALISNULL read it. */
    function PairAt(i: nat): Pair
      requires i < |entries| && EntryOk(i)
    {
      Pair(str[KeyOff(i)..entries[i].k.pos], str[entries[i].k.pos..entries[i].v.pos], entries[i].v.isNull)
    }

    function Pairs(): (ps: seq<Pair>)
      requires WellFormed()
      ensures |ps| == |entries| && forall i | 0 <= i < |ps| :: ps[i] == PairAt(i)
    {
      seq(|entries|, i requires 0 <= i < |entries| => PairAt(i))
    }
  }

  /** Key and value of a pair lie next to each other, so that one copy moves both. */
  lemma PairContiguous(h: Packed, i: nat)
    requires i < |h.entries| && h.EntryOk(i)
    ensures h.str[h.KeyOff(i)..h.entries[i].v.pos] == h.PairAt(i).key + h.PairAt(i).val
  {
    var e := h.entries[i];
    assert h.str[h.KeyOff(i)..e.v.pos] == h.str[h.KeyOff(i)..e.k.pos] + h.str[e.k.pos..e.v.pos];
  }

  // ----- Writing -----

  /** The string area for a list of pairs. */
  function Strings(ps: seq<Pair>): Bytes {
    if ps == [] then [] else Strings(ps[..|ps| - 1]) + (ps[|ps| - 1].key + ps[|ps| - 1].val)
  }

  /** Where the i-th pair starts in the string area. */
  function Start(ps: seq<Pair>, i: nat): nat
    requires i <= |ps|
  {
    |Strings(ps[..i])|
  }

  /** The entry words `HS_ADDITEM` and `HS_COPYITEM` write for a pair that starts at pos. */
  function EntryFor(p: Pair, pos: nat, first: bool): EntryPair {
    EntryPair(HEntry(first, false, pos + |p.key|), HEntry(false, p.isNull, pos + |p.key| + |p.val|))
  }

  /** The packed form of a list of pairs. */
  function Pack(ps: seq<Pair>): Packed {
    Packed(seq(|ps|, i requires 0 <= i < |ps| => EntryFor(ps[i], Start(ps, i), i == 0)), Strings(ps))
  }

  /** No end position overflows its 30 bits, and the count fits its field. */
  predicate Packable(ps: seq<Pair>) {
    |ps| < MAX_COUNT && |Strings(ps)| < POS_LIMIT
  }

  lemma {:induction false} StringsPrefix(ps: seq<Pair>, i: nat)
    requires i <= |ps|
    ensures Strings(ps[..i]) <= Strings(ps)
  {
    if i < |ps| {
      var front := ps[..|ps| - 1];
      StringsPrefix(front, i);
      assert front[..i] == ps[..i];
    } else {
      assert ps[..i] == ps;
    }
  }

  lemma StringsStep(ps: seq<Pair>, i: nat)
    requires i < |ps|
    ensures Strings(ps[..i + 1]) == Strings(ps[..i]) + (ps[i].key + ps[i].val)
    ensures Start(ps, i + 1) == Start(ps, i) + |ps[i].key| + |ps[i].val| <= |Strings(ps)|
  {
    assert ps[..i + 1][..i] == ps[..i];
    StringsPrefix(ps, i + 1);
  }

  /** What is packed is well formed. */
  lemma PackWellFormed(ps: seq<Pair>)
    requires |ps| < MAX_COUNT
    ensures Pack(ps).WellFormed()
  {
    forall i | 0 <= i < |ps|
      ensures Pack(ps).EntryOk(i)
    {
      StringsStep(ps, i);
      if i > 0 {
        StringsStep(ps, i - 1);
      }
    }
  }

  /** The two pieces behind a prefix. */
  lemma {:induction false} SlicesBehind(a: Bytes, key: Bytes, val: Bytes, all: Bytes)
    requires a + (key + val) <= all
    ensures var mid := |a| + |key|;
            mid + |val| <= |all| && all[|a|..mid] == key && all[mid..mid + |val|] == val
  {
    var part := a + (key + val);
    var mid := |a| + |key|;
    assert part == all[..|part|];
    assert part[|a|..mid] == key && part[mid..mid + |val|] == val;
    assert all[|a|..mid] == part[|a|..mid] && all[mid..mid + |val|] == part[mid..mid + |val|];
  }

  /** The bytes of a pair in the string area. */
  lemma {:induction false} PairBytes(ps: seq<Pair>, i: nat)
    requires i < |ps|
    ensures Start(ps, i) + |ps[i].key| + |ps[i].val| <= |Strings(ps)|
    ensures var pos, mid := Start(ps, i), Start(ps, i) + |ps[i].key|;
            Strings(ps)[pos..mid] == ps[i].key && Strings(ps)[mid..mid + |ps[i].val|] == ps[i].val
  {
    StringsStep(ps, i);
    StringsPrefix(ps, i + 1);
    SlicesBehind(Strings(ps[..i]), ps[i].key, ps[i].val, Strings(ps));
  }

  /** Reading back what was packed gives the pairs that were packed. */
  lemma PackRoundTrip(ps: seq<Pair>)
    requires |ps| < MAX_COUNT
    ensures Pack(ps).WellFormed() && Pack(ps).Pairs() == ps
  {
    PackWellFormed(ps);
    forall i | 0 <= i < |ps|
      ensures Pack(ps).EntryOk(i) && Pack(ps).PairAt(i) == ps[i]
    {
      PackedPairAt(ps, i);
    }
  }

  /** Where the reader finds the i-th key. */
  lemma PackedKeyOff(ps: seq<Pair>, i: nat)
    requires i < |ps|
    ensures Pack(ps).KeyOff(i) == Start(ps, i)
  {
    if i > 0 {
      StringsStep(ps, i - 1);
    } else {
      assert ps[..0] == [];
    }
  }

  lemma PackedPairAt(ps: seq<Pair>, i: nat)
    requires i < |ps| < MAX_COUNT
    ensures Pack(ps).EntryOk(i) && Pack(ps).PairAt(i) == ps[i]
  {
    PackWellFormed(ps);
    PairBytes(ps, i);
    PackedKeyOff(ps, i);
    assert Pack(ps).entries[i] == EntryFor(ps[i], Start(ps, i), i == 0);
  }
}
