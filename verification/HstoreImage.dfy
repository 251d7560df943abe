/**
An hstore value in memory (contrib/hstore/hstore.h): the length word, the count word, two entry
words for each pair, then the string area, whose place depends on the count.

Memory is a sequence of addressable cells. A word takes four of them; the order of the bytes
within a word is left open.
 */
module HstoreImage {
  import opened ByteStrings
  import opened HstoreFormat

  /** The words of a value; HS_SETCOUNT always sets the new-version flag beside the count. */
  datatype Word = LengthWord(size: int) | CountWord(count: int) | EntryWord(entry: HEntry)

  /** One byte of memory: a byte of the string area, or one of the four bytes of a word. */
  datatype Cell = Char(b: int) | Part(word: Word, index: int)

  type Memory = seq<Cell>

  function WordCells(w: Word): (m: Memory)
    ensures |m| == 4
  {
    [Part(w, 0), Part(w, 1), Part(w, 2), Part(w, 3)]
  }

  function EntryCells(e: EntryPair): (m: Memory)
    ensures |m| == 8
  {
    WordCells(EntryWord(e.k)) + WordCells(EntryWord(e.v))
  }

  /** A string in memory. */
  function Chars(b: Bytes): (m: Memory)
    ensures |m| == |b| && forall i | 0 <= i < |b| :: m[i] == Char(b[i])
  {
    seq(|b|, i requires 0 <= i < |b| => Char(b[i]))
  }

  lemma CharsConcat(a: Bytes, b: Bytes)
    ensures Chars(a + b) == Chars(a) + Chars(b)
  {
  }

  // ----- Writing -----

  /** The entry words of a list of pairs, before the first is flagged. */
  function EntryArea(ps: seq<Pair>): (m: Memory)
    ensures |m| == 8 * |ps|
  {
    if ps == [] then []
    else
      var front, last := ps[..|ps| - 1], ps[|ps| - 1];
      EntryArea(front) + EntryCells(EntryFor(last, |Strings(front)|, false))
  }

  /** The entry words with ISFIRST set in the first, as `HS_FINALIZE` leaves them. */
  function FinalEntryArea(ps: seq<Pair>): (m: Memory)
    ensures |m| == 8 * |ps|
  {
    if ps == [] then [] else EntryCells(EntryFor(ps[0], 0, true)) + EntryArea(ps)[8..]
  }

  /** CALCDATASIZE. */
  function DataSize(count: int, lenstr: int): int {
    count * 8 + HEADER + lenstr
  }

  /** The complete value for a list of pairs. */
  function Image(ps: seq<Pair>): Memory {
    WordCells(LengthWord(DataSize(|ps|, |Strings(ps)|))) +
    (WordCells(CountWord(|ps|)) + (FinalEntryArea(ps) + Chars(Strings(ps))))
  }

  // ----- Reading -----

  /** The word at an address, if there is one. */
  predicate HasWord(m: Memory, off: nat, w: Word) {
    off + 4 <= |m| && m[off..off + 4] == WordCells(w)
  }

  predicate HasEntry(m: Memory, off: nat, e: EntryPair) {
    off + 8 <= |m| && m[off..off + 8] == EntryCells(e)
  }

  /** What the access macros see in memory: the count word, the entries, and the strings behind them. */
  ghost predicate Reads(m: Memory, h: Packed) {
    && HasWord(m, 4, CountWord(|h.entries|))
    && (forall i | 0 <= i < |h.entries| :: HasEntry(m, HEADER + 8 * i, h.entries[i]))
    && HEADER + 8 * |h.entries| <= |m| && m[HEADER + 8 * |h.entries|..] == Chars(h.str)
  }

  /** Memory is read in one way only. */
  lemma ReadsOnce(m: Memory, h: Packed, h': Packed)
    requires Reads(m, h) && Reads(m, h')
    ensures h == h'
  {
    assert m[4..8][0].word.count == |h.entries| == |h'.entries|;
    forall i | 0 <= i < |h.entries|
      ensures h.entries[i] == h'.entries[i]
    {
      assert HasEntry(m, HEADER + 8 * i, h.entries[i]) && HasEntry(m, HEADER + 8 * i, h'.entries[i]);
      var c, c' := EntryCells(h.entries[i]), EntryCells(h'.entries[i]);
      assert c[0] == c'[0] && c[4] == c'[4];
    }
    var s, s' := Chars(h.str), Chars(h'.str);
    assert s == s';
    forall i | 0 <= i < |h.str|
      ensures h.str[i] == h'.str[i]
    {
      assert s[i] == s'[i];
    }
    assert h.str == h'.str;
  }

  // ----- Slices of concatenations -----

  lemma SliceLeft(a: Memory, b: Memory, lo: nat, hi: nat)
    requires lo <= hi <= |a|
    ensures (a + b)[lo..hi] == a[lo..hi]
  {
  }

  lemma SliceRight(a: Memory, b: Memory, lo: nat, hi: nat)
    requires lo <= hi <= |b|
    ensures (a + b)[|a| + lo..|a| + hi] == b[lo..hi]
  {
  }

  lemma {:induction false} EntryAreaAt(ps: seq<Pair>, i: nat)
    requires i < |ps|
    ensures EntryArea(ps)[8 * i..8 * i + 8] == EntryCells(EntryFor(ps[i], Start(ps, i), false))
  {
    var n := |ps| - 1;
    var a, b := EntryArea(ps[..n]), EntryCells(EntryFor(ps[n], |Strings(ps[..n])|, false));
    if i < n {
      EntryAreaAt(ps[..n], i);
      assert ps[..n][..i] == ps[..i];
      SliceLeft(a, b, 8 * i, 8 * i + 8);
    } else {
      SliceRight(a, b, 0, 8);
      assert b[0..8] == b;
    }
  }

  lemma FinalEntryAreaAt(ps: seq<Pair>, i: nat)
    requires i < |ps|
    ensures FinalEntryArea(ps)[8 * i..8 * i + 8] == EntryCells(EntryFor(ps[i], Start(ps, i), i == 0))
  {
    var a, rest := EntryCells(EntryFor(ps[0], 0, true)), EntryArea(ps)[8..];
    if i == 0 {
      assert ps[..0] == [];
      SliceLeft(a, rest, 0, 8);
      assert a[0..8] == a;
    } else {
      EntryAreaAt(ps, i);
      SliceRight(a, rest, 8 * i - 8, 8 * i);
      assert rest[8 * i - 8..8 * i] == EntryArea(ps)[8 * i..8 * i + 8];
    }
  }

  lemma ConcatParts(a: Memory, b: Memory, c: Memory, d: Memory)
    requires |a| == 4 && |b| == 4
    ensures var m := a + (b + (c + d));
            |m| == 8 + |c| + |d| && m[4..8] == b && m[8..8 + |c|] == c && m[8 + |c|..] == d
  {
  }

  lemma SliceOfSlice(m: Memory, lo: nat, hi: nat, i: nat, j: nat)
    requires lo <= hi <= |m| && i <= j <= hi - lo
    ensures m[lo..hi][i..j] == m[lo + i..lo + j]
  {
    var a, b := m[lo..hi][i..j], m[lo + i..lo + j];
    assert |a| == |b|;
    assert forall k | 0 <= k < |a| :: a[k] == b[k];
  }

  /** The macros read an image as the packed form of its pairs. */
  lemma ImageReads(ps: seq<Pair>)
    ensures Reads(Image(ps), Pack(ps))
  {
    var m := Image(ps);
    var area := FinalEntryArea(ps);
    ConcatParts(WordCells(LengthWord(DataSize(|ps|, |Strings(ps)|))), WordCells(CountWord(|ps|)), area, Chars(Strings(ps)));
    forall i | 0 <= i < |ps|
      ensures HasEntry(m, HEADER + 8 * i, Pack(ps).entries[i])
    {
      FinalEntryAreaAt(ps, i);
      SliceOfSlice(m, 8, 8 + 8 * |ps|, 8 * i, 8 * i + 8);
    }
  }

  /** The length word of an image tells its size. */
  lemma {:induction false} ImageLength(ps: seq<Pair>)
    ensures HasWord(Image(ps), 0, LengthWord(|Image(ps)|)) && |Image(ps)| == DataSize(|ps|, |Strings(ps)|)
  {
    var word := WordCells(LengthWord(DataSize(|ps|, |Strings(ps)|)));
    assert Image(ps)[0..4] == word;
  }
}
