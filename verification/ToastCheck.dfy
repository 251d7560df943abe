/**
The check of one toasted value in contrib/amcheck/verify_heapam.c (`check_toasted_attribute`
and `check_toast_tuple`): the chunks an ordered index scan returns, against the size recorded in
the toast pointer.
 */
module ToastCheck {
  import opened CIntegers
  import opened Options

  /** TOAST_MAX_CHUNK_SIZE for 8 kB pages. */
  const MAX_CHUNK: int := 1996

  datatype ChunkData = NullData | BadHeader | Bytes(size: nat)

  /** A toast tuple: its sequence number may be null and its data may be null or damaged. */
  datatype Chunk = Chunk(chunkSeq: Option<int>, data: ChunkData)

  /** The unsigned subtraction wraps for an external size of zero. */
  function LastChunk(extsize: nat): (last: int)
    ensures last >= 0
  {
    ToUint32(extsize - 1) / MAX_CHUNK
  }

  function ExpectedSize(extsize: nat, chunkSeq: int): int {
    if chunkSeq < LastChunk(extsize) then MAX_CHUNK
    else ToInt32(extsize - LastChunk(extsize) * MAX_CHUNK)
  }

  /** Chunk number i as it should be. */
  ghost predicate GoodChunk(c: Chunk, extsize: nat, i: int) {
    c.chunkSeq == Some(i) && c.data.Bytes? && i <= LastChunk(extsize) && c.data.size == ExpectedSize(extsize, i)
  }

  /** The chunks are exactly 0 to last, in order, with the expected sizes. */
  ghost predicate WellChunked(chunks: seq<Chunk>, extsize: nat) {
    |chunks| == LastChunk(extsize) + 1 && forall i | 0 <= i < |chunks| :: GoodChunk(chunks[i], extsize, i)
  }

  /** `check_toast_tuple`: how many corruptions it reports, and the sequence number to expect next. */
  method CheckToastTuple(c: Chunk, extsize: nat, expected: int) returns (reports: nat, expected': int)
    ensures reports == 0 <==> GoodChunk(c, extsize, expected)
    ensures expected' == if c.chunkSeq.None? then expected else ToInt32(c.chunkSeq.value + 1)
  {
    reports, expected' := 0, expected;
    if c.chunkSeq.None? {
      return 1, expected';
    }
    var chunkSeq := c.chunkSeq.value;
    if chunkSeq != expected {
      reports := reports + 1;
    }
    expected' := ToInt32(chunkSeq + 1);
    if !c.data.Bytes? {
      return reports + 1, expected';
    }
    if chunkSeq > LastChunk(extsize) {
      return reports + 1, expected';
    }
    if c.data.size != ExpectedSize(extsize, chunkSeq) {
      reports := reports + 1;
    }
  }

  /** `check_toasted_attribute`: nothing is reported exactly for a value in good order. */
  method CheckToasted(chunks: seq<Chunk>, extsize: nat) returns (reports: nat)
    ensures reports == 0 <==> WellChunked(chunks, extsize)
  {
    var expected := 0;
    reports := 0;
    for i := 0 to |chunks|
      invariant reports == 0 <==> forall k | 0 <= k < i :: GoodChunk(chunks[k], extsize, k)
      invariant reports == 0 ==> expected == i
    {
      var n, next := CheckToastTuple(chunks[i], extsize, expected);
      reports, expected := reports + n, next;
      if reports == 0 {
        assert GoodChunk(chunks[i], extsize, i);
        SmallSequence(extsize, i);
      }
    }
    if chunks == [] {
      reports := reports + 1;
    } else if expected <= LastChunk(extsize) {
      reports := reports + 1;
    }
    if |chunks| > LastChunk(extsize) + 1 {
      assert !GoodChunk(chunks[LastChunk(extsize) + 1], extsize, LastChunk(extsize) + 1);
    }
  }

  /** Sequence numbers up to the last are far from overflowing. */
  lemma SmallSequence(extsize: nat, i: int)
    requires 0 <= i <= LastChunk(extsize)
    ensures ToInt32(i + 1) == i + 1
  {
  }

  // ----- What a clean report means -----

  function TotalSize(chunks: seq<Chunk>): int {
    if chunks == [] then 0
    else
      var c := chunks[|chunks| - 1];
      TotalSize(chunks[..|chunks| - 1]) + if c.data.Bytes? then c.data.size else 0
  }

  lemma {:induction false} FullChunks(chunks: seq<Chunk>, extsize: nat, n: nat)
    requires n <= |chunks| && n <= LastChunk(extsize)
    requires forall i | 0 <= i < n :: GoodChunk(chunks[i], extsize, i)
    ensures TotalSize(chunks[..n]) == n * MAX_CHUNK
  {
    if n > 0 {
      FullChunks(chunks, extsize, n - 1);
      assert chunks[..n][..n - 1] == chunks[..n - 1];
      assert GoodChunk(chunks[n - 1], extsize, n - 1);
    }
  }

  /** The chunk sizes of a well chunked value add up to its external size. */
  lemma SizesAddUp(chunks: seq<Chunk>, extsize: nat)
    requires 1 <= extsize < TWO_TO_THE_32 && WellChunked(chunks, extsize)
    ensures TotalSize(chunks) == extsize
  {
    var last := LastChunk(extsize);
    FullChunks(chunks, extsize, last);
    assert chunks[..|chunks| - 1] == chunks[..last];
    assert GoodChunk(chunks[last], extsize, last);
    RestFits(extsize);
  }

  /** The last chunk holds between one byte and a full chunk. */
  lemma RestFits(extsize: nat)
    requires 1 <= extsize < TWO_TO_THE_32
    ensures 1 <= extsize - LastChunk(extsize) * MAX_CHUNK <= MAX_CHUNK
    ensures ExpectedSize(extsize, LastChunk(extsize)) == extsize - LastChunk(extsize) * MAX_CHUNK
  {
  }

  /** The chunks that pass for a size, from number 0 on. */
  function PassingChunks(extsize: nat): (chunks: seq<Chunk>)
    requires ExpectedSize(extsize, LastChunk(extsize)) >= 0
  {
    var last := LastChunk(extsize);
    seq(last + 1, i requires 0 <= i <= last => Chunk(Some(i), Bytes(ExpectedSize(extsize, i))))
  }

  /** Every size has chunks that pass, and no others do. */
  lemma PassingIff(chunks: seq<Chunk>, extsize: nat)
    requires extsize < TWO_TO_THE_32
    ensures ExpectedSize(extsize, LastChunk(extsize)) >= 0
    ensures WellChunked(chunks, extsize) <==> chunks == PassingChunks(extsize)
  {
    if extsize >= 1 {
      RestFits(extsize);
    } else {
      ZeroSizeRest();
    }
    var passing := PassingChunks(extsize);
    if WellChunked(chunks, extsize) {
      forall i | 0 <= i < |chunks|
        ensures chunks[i] == passing[i]
      {
        assert GoodChunk(chunks[i], extsize, i);
      }
    }
  }

  lemma ZeroSizeRest()
    ensures LastChunk(0) == 2151787 && ExpectedSize(0, LastChunk(0)) == 444
  {
    assert ToUint32(-1) == 0xFFFF_FFFF;
    assert ToInt32(0 - 2151787 * MAX_CHUNK) == 444;
  }

  /**
  A size of zero wraps: the only chunks that pass, and they do pass, are 2151788 chunks of 2^32
  bytes in all.
   */
  lemma ZeroSizeWraps(chunks: seq<Chunk>)
    ensures ExpectedSize(0, LastChunk(0)) >= 0
    ensures WellChunked(chunks, 0) <==> chunks == PassingChunks(0)
    ensures WellChunked(chunks, 0) ==> |chunks| == 2151788 && TotalSize(chunks) == TWO_TO_THE_32
  {
    ZeroSizeRest();
    PassingIff(chunks, 0);
    if WellChunked(chunks, 0) {
      FullChunks(chunks, 0, 2151787);
      assert chunks[..|chunks| - 1] == chunks[..2151787];
      assert GoodChunk(chunks[2151787], 0, 2151787);
    }
  }
}
