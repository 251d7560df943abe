/**
Bloom signatures (contrib/bloom/blutils.c and blscan.c): how a column value sets
bits in the signature words, how a tuple's signature is formed, and the word-by-word
test that a scan applies.
 */
module BloomSignature {
  import opened CIntegers
  import opened BloomRandom
  import opened Options

  /** Bits in one signature word (`SIGNWORDBITS`). */
  const WORD_BITS: int := 16

  type Datum = int

  /** A column number, counted from 0, below INDEX_MAX_KEYS. */
  type Column = n: nat | n < 32

  /** A scan condition "column = arg"; a null argument matches nothing. */
  datatype ScanKey = ScanKey(attno: Column, arg: Option<Datum>)

  /** A uint16, as the set of its one bits: `|` is union and `&` is intersection. */
  type Word = set<int>
  type Signature = seq<Word>

  /** Every word fits in 16 bits. */
  ghost predicate Fits(sign: Signature) {
    forall i, j | 0 <= i < |sign| && j in sign[i] :: 0 <= j < WORD_BITS
  }

  /**
  What signing depends on: the signature length in words (1 to 256), the number of bits
  each column sets, and the opclass hash function of each column.
   */
  datatype SignOptions = SignOptions(words: nat, bitSize: seq<nat>, hash: (int, Datum) -> int) {
    predicate Valid() {
      1 <= words <= 256 && |bitSize| == 32
    }

    function NumBits(): int {
      words * WORD_BITS
    }
  }

  /** Bit b of a signature (`GETBIT`). */
  predicate Bit(sign: Signature, b: int)
    requires 0 <= b < |sign| * WORD_BITS
  {
    b % WORD_BITS in sign[b / WORD_BITS]
  }

  /** The bits that are set. */
  ghost function Bits(sign: Signature): set<int> {
    set b | 0 <= b < |sign| * WORD_BITS && Bit(sign, b)
  }

  // ----- Which bits a value sets -----

  /** The generator state from which the bits of one value are drawn. */
  function SeedState(attno: Column, hash: int): int {
    Seeded(Xor32(hash, Step(Seeded(attno)) - 1))
  }

  /** The k-th bit number drawn for a value, counting from 0. */
  function BitNumber(state: int, k: nat, nbits: int): int
    requires nbits > 0
  {
    TruncMod(Steps(state, k + 1) - 1, nbits)
  }

  /** The first n bit numbers drawn for a value. */
  ghost function DrawnBits(state: int, n: nat, nbits: int): set<int>
    requires nbits > 0
  {
    set k: nat | k < n :: BitNumber(state, k, nbits)
  }

  /** The bits of one column value: a function of the column and the hash alone. */
  ghost function ValueBits(opts: SignOptions, attno: Column, value: Datum): set<int>
    requires opts.Valid()
  {
    DrawnBits(SeedState(attno, opts.hash(attno, value)), opts.bitSize[attno], opts.NumBits())
  }

  /** No drawing for this value falls below bit 0, where C leaves the shift undefined. */
  predicate Drawable(opts: SignOptions, attno: Column, value: Datum)
    requires opts.Valid()
  {
    opts.bitSize[attno] == 0 || SeedState(attno, opts.hash(attno, value)) != 0
  }

  /** The bit numbers come from successive calls of `myRand`, the first one after seeding included. */
  lemma {:induction false} BitNumberNext(state: int, k: nat, nbits: int)
    requires nbits > 0
    ensures BitNumber(state, 0, nbits) == TruncMod(Step(state) - 1, nbits)
    ensures BitNumber(state, k + 1, nbits) == BitNumber(Step(state), k, nbits)
  {
    assert Steps(state, 1) == Step(Steps(state, 0));
    StepsShift(state, k + 1);
  }

  lemma {:induction false} StepsShift(state: int, n: nat)
    ensures Steps(state, n + 1) == Steps(Step(state), n)
  {
    if n > 0 {
      StepsShift(state, n - 1);
    }
  }

  /** From a nonzero state every drawn bit number is inside the signature; from zero it is -1. */
  lemma DrawInRange(state: int, k: nat, nbits: int)
    requires nbits > 1
    requires state % MODULUS == 0 ==> state == 0
    ensures 0 <= BitNumber(state, k, nbits) < nbits <==> state != 0
    ensures state == 0 ==> BitNumber(state, k, nbits) == -1
  {
    if state != 0 {
      StepsInRange(state, k + 1);
    } else {
      StepsFromZero(k + 1);
    }
  }

  lemma SeedStateResidue(attno: Column, hash: int)
    ensures SeedState(attno, hash) % MODULUS == 0 ==> SeedState(attno, hash) == 0
  {
    SeededZeroIff(Xor32(hash, Step(Seeded(attno)) - 1));
  }

  /** The seeds a value must avoid, in terms of its hash and the column's first draw. */
  lemma DrawableIff(opts: SignOptions, attno: Column, value: Datum)
    requires opts.Valid()
    ensures Drawable(opts, attno, value) <==>
            opts.bitSize[attno] == 0 ||
            Xor32(opts.hash(attno, value), Step(attno + 1) - 1) !in {0xFFFF_FFFF, 0x8000_0001}
  {
    ColumnSeed(attno);
    SeededZeroIff(Xor32(opts.hash(attno, value), Step(attno + 1) - 1));
  }

  /** In every column there is a hash that cannot be signed: the complement of the first draw. */
  lemma {:induction false} UndrawableHash(opts: SignOptions, attno: Column, value: Datum)
    requires opts.Valid() && opts.bitSize[attno] > 0
    requires opts.hash(attno, value) == 0xFFFF_FFFF - (Step(attno + 1) - 1)
    ensures !Drawable(opts, attno, value)
  {
    ColumnSeed(attno);
    DrawableIff(opts, attno, value);
    XorComplement32(opts.hash(attno, value), Step(attno + 1) - 1);
  }

  /** The first draw of column 0 is 16806. */
  lemma {:induction false} UndrawableExample(opts: SignOptions, value: Datum)
    requires opts.Valid() && opts.bitSize[0] > 0 && opts.hash(0, value) == 4294950489
    ensures !Drawable(opts, 0, value)
  {
    assert Step(1) == 16807;
    UndrawableHash(opts, 0, value);
  }

  /** Reseeding by column number gives a nonzero state and a first draw that fits 31 bits. */
  lemma ColumnSeed(attno: Column)
    ensures Seeded(attno) == attno + 1
    ensures 0 <= Step(Seeded(attno)) - 1 < TWO_TO_THE_31
  {
  }

  /** The reseeding of `signValue`: by the column, then by the hash combined with the first draw. */
  method SeedFor(gen: Generator, attno: Column, hash: int)
    modifies gen
    ensures gen.next as int == SeedState(attno, hash)
  {
    ColumnSeed(attno);
    gen.Srand(attno);
    var r := gen.Rand();
    gen.Srand(Xor32(hash, r as int));
  }

  /**
  `signValue`: reseeds the shared generator, so the bits added do not depend on what the
  generator was used for before.
   */
  method SignValue(gen: Generator, opts: SignOptions, sign: array<Word>, attno: Column, value: Datum)
    returns (defined: bool)
    requires opts.Valid() && sign.Length == opts.words && Fits(sign[..])
    modifies gen, sign
    ensures defined <==> Drawable(opts, attno, value)
    ensures Fits(sign[..])
    ensures defined ==> Bits(sign[..]) == old(Bits(sign[..])) + ValueBits(opts, attno, value)
  {
    var hash := opts.hash(attno, value);
    SeedFor(gen, attno, hash);
    ghost var s := SeedState(attno, hash);
    var nbits := opts.NumBits();
    for j := 0 to opts.bitSize[attno]
      invariant gen.next as int == Steps(s, j)
      invariant j > 0 ==> s != 0
      invariant Fits(sign[..])
      invariant Bits(sign[..]) == old(Bits(sign[..])) + DrawnBits(s, j, nbits)
    {
      var draw := gen.Rand();
      var nBit := TruncMod(draw as int, nbits);
      assert nBit == BitNumber(s, j, nbits);
      SeedStateResidue(attno, hash);
      DrawInRange(s, j, nbits);
      if nBit < 0 {
        return false;
      }
      ghost var before := sign[..];
      sign[nBit / WORD_BITS] := sign[nBit / WORD_BITS] + {nBit % WORD_BITS};
      SetBit(before, nBit);
      DrawOneMore(s, j, nbits);
    }
    return true;
  }

  /** `SETBIT` adds one bit and leaves every other bit alone. */
  lemma SetBit(sign: Signature, b: int)
    requires 0 <= b < |sign| * WORD_BITS
    ensures Bits(sign[b / WORD_BITS := sign[b / WORD_BITS] + {b % WORD_BITS}]) == Bits(sign) + {b}
    ensures Fits(sign) ==> Fits(sign[b / WORD_BITS := sign[b / WORD_BITS] + {b % WORD_BITS}])
  {
  }

  lemma NoBits(sign: Signature)
    requires forall i | 0 <= i < |sign| :: sign[i] == {}
    ensures Bits(sign) == {}
  {
  }

  lemma DrawOneMore(state: int, n: nat, nbits: int)
    requires nbits > 0
    ensures DrawnBits(state, n + 1, nbits) == DrawnBits(state, n, nbits) + {BitNumber(state, n, nbits)}
  {
  }

  // ----- Tuple and scan signatures -----

  /** The bits of the first n columns; null columns add nothing. */
  ghost function TupleBits(opts: SignOptions, values: seq<Option<Datum>>, n: nat): set<int>
    requires opts.Valid() && n <= |values| <= 32
  {
    if n == 0 then {}
    else if values[n - 1].None? then TupleBits(opts, values, n - 1)
    else TupleBits(opts, values, n - 1) + ValueBits(opts, n - 1, values[n - 1].value)
  }

  /** The bits of the first n scan keys; null keys have none. */
  ghost function KeyBits(opts: SignOptions, keys: seq<ScanKey>, n: nat): set<int>
    requires opts.Valid() && n <= |keys|
  {
    if n == 0 then {}
    else if keys[n - 1].arg.None? then KeyBits(opts, keys, n - 1)
    else KeyBits(opts, keys, n - 1) + ValueBits(opts, keys[n - 1].attno, keys[n - 1].arg.value)
  }

  /** The row satisfies every scan key. */
  ghost predicate RowMatches(values: seq<Option<Datum>>, keys: seq<ScanKey>) {
    forall k | 0 <= k < |keys| ::
      keys[k].arg.Some? && keys[k].attno < |values| && values[keys[k].attno] == keys[k].arg
  }

  /** `BloomFormTuple`: the signature of a row. */
  method FormSignature(gen: Generator, opts: SignOptions, values: seq<Option<Datum>>)
    returns (r: Option<Signature>)
    requires opts.Valid() && |values| <= 32
    modifies gen
    ensures r.Some? <==> forall i | 0 <= i < |values| :: values[i].None? || Drawable(opts, i, values[i].value)
    ensures r.Some? ==> |r.value| == opts.words && Fits(r.value) && Bits(r.value) == TupleBits(opts, values, |values|)
  {
    var sign := new Word[opts.words](_ => {});
    NoBits(sign[..]);
    for i := 0 to |values|
      invariant Fits(sign[..]) && Bits(sign[..]) == TupleBits(opts, values, i)
      invariant forall k | 0 <= k < i :: values[k].None? || Drawable(opts, k, values[k].value)
    {
      if values[i].Some? {
        var defined := SignValue(gen, opts, sign, i, values[i].value);
        if !defined {
          return None;
        }
      }
    }
    return Some(sign[..]);
  }

  /** What becomes of a scan's keys: a signature, or the answer that nothing can match. */
  datatype ScanSignature = NullKey | Undefined | Signed(sign: Signature)

  /** The first n keys are not null and can be signed. */
  ghost predicate GoodBefore(opts: SignOptions, keys: seq<ScanKey>, n: nat)
    requires opts.Valid() && n <= |keys|
  {
    forall k | 0 <= k < n :: keys[k].arg.Some? && Drawable(opts, keys[k].attno, keys[k].arg.value)
  }

  /** The first half of `blgetbitmap`: the search signature of a new scan. */
  method FormScanSignature(gen: Generator, opts: SignOptions, keys: seq<ScanKey>)
    returns (r: ScanSignature)
    requires opts.Valid()
    modifies gen
    ensures r.Signed? ==> forall k | 0 <= k < |keys| :: keys[k].arg.Some?
    ensures r.Signed? ==> |r.sign| == opts.words && Fits(r.sign) && Bits(r.sign) == KeyBits(opts, keys, |keys|)
    ensures r.NullKey? <==> exists k | 0 <= k < |keys| :: GoodBefore(opts, keys, k) && keys[k].arg.None?
    ensures r.Undefined? <==> exists k | 0 <= k < |keys| ::
              GoodBefore(opts, keys, k) && keys[k].arg.Some? && !Drawable(opts, keys[k].attno, keys[k].arg.value)
    ensures r.Signed? <==> GoodBefore(opts, keys, |keys|)
  {
    var sign := new Word[opts.words](_ => {});
    NoBits(sign[..]);
    for i := 0 to |keys|
      invariant GoodBefore(opts, keys, i)
      invariant Fits(sign[..]) && Bits(sign[..]) == KeyBits(opts, keys, i)
    {
      if keys[i].arg.None? {
        return NullKey;
      }
      var defined := SignValue(gen, opts, sign, keys[i].attno, keys[i].arg.value);
      if !defined {
        return Undefined;
      }
    }
    return Signed(sign[..]);
  }

  /** The scan's test on one tuple, as a function of the two signatures. */
  predicate Matches(sign: Signature, query: Signature)
    requires |sign| == |query|
  {
    forall i | 0 <= i < |query| :: sign[i] * query[i] == query[i]
  }

  /** The word loop of `blgetbitmap`, which stops at the first word that differs. */
  method TestSignature(sign: Signature, query: Signature) returns (res: bool)
    requires |sign| == |query| && Fits(query)
    ensures res <==> Bits(query) <= Bits(sign)
    ensures res <==> Matches(sign, query)
  {
    MatchesIffSubset(sign, query);
    res := true;
    for i := 0 to |query|
      invariant res && forall k | 0 <= k < i :: sign[k] * query[k] == query[k]
    {
      if sign[i] * query[i] != query[i] {
        return false;
      }
    }
  }

  /** The word-by-word test holds exactly when every query bit is set in the tuple. */
  lemma MatchesIffSubset(sign: Signature, query: Signature)
    requires |sign| == |query| && Fits(query)
    ensures Matches(sign, query) <==> Bits(query) <= Bits(sign)
  {
    if Matches(sign, query) {
      forall b | b in Bits(query)
        ensures b in Bits(sign)
      {
        assert sign[b / WORD_BITS] * query[b / WORD_BITS] == query[b / WORD_BITS];
      }
    }
    if Bits(query) <= Bits(sign) {
      forall i | 0 <= i < |query|
        ensures sign[i] * query[i] == query[i]
      {
        forall j | j in query[i]
          ensures j in sign[i]
        {
          var b := i * WORD_BITS + j;
          assert b / WORD_BITS == i && b % WORD_BITS == j;
          assert b in Bits(query);
        }
      }
    }
  }

  /** A row's bits are those of its columns that are not null. */
  lemma {:induction false} TupleBitsIff(opts: SignOptions, values: seq<Option<Datum>>, n: nat, b: int)
    requires opts.Valid() && n <= |values| <= 32
    ensures b in TupleBits(opts, values, n) <==>
            exists i: nat | i < n && values[i].Some? :: b in ValueBits(opts, i, values[i].value)
  {
    if n > 0 {
      TupleBitsIff(opts, values, n - 1, b);
    }
  }

  /** The bits searched for are those of the keys. */
  lemma {:induction false} KeyBitsIff(opts: SignOptions, keys: seq<ScanKey>, n: nat, b: int)
    requires opts.Valid() && n <= |keys|
    ensures b in KeyBits(opts, keys, n) <==>
            exists k: nat | k < n && keys[k].arg.Some? :: b in ValueBits(opts, keys[k].attno, keys[k].arg.value)
  {
    if n > 0 {
      KeyBitsIff(opts, keys, n - 1, b);
    }
  }

  lemma {:induction false} ColumnBits(opts: SignOptions, values: seq<Option<Datum>>, n: nat, i: nat)
    requires opts.Valid() && i < n <= |values| <= 32
    requires values[i].Some?
    ensures ValueBits(opts, i, values[i].value) <= TupleBits(opts, values, n)
  {
    if i < n - 1 {
      ColumnBits(opts, values, n - 1, i);
    }
  }

  lemma {:induction false} KeyBitsCovered(
    opts: SignOptions, values: seq<Option<Datum>>, keys: seq<ScanKey>, n: nat)
    requires opts.Valid() && |values| <= 32 && n <= |keys|
    requires RowMatches(values, keys)
    ensures KeyBits(opts, keys, n) <= TupleBits(opts, values, |values|)
  {
    if n > 0 {
      KeyBitsCovered(opts, values, keys, n - 1);
      ColumnBits(opts, values, |values|, keys[n - 1].attno);
    }
  }

  /** A row that satisfies the scan keys passes the signature test. */
  lemma NoFalseNegative(
    opts: SignOptions, values: seq<Option<Datum>>, keys: seq<ScanKey>, sign: Signature, query: Signature)
    requires opts.Valid() && |values| <= 32
    requires |sign| == |query| == opts.words && Fits(query)
    requires RowMatches(values, keys)
    requires Bits(sign) == TupleBits(opts, values, |values|)
    requires Bits(query) == KeyBits(opts, keys, |keys|)
    ensures Matches(sign, query)
  {
    KeyBitsCovered(opts, values, keys, |keys|);
    MatchesIffSubset(sign, query);
  }
}
