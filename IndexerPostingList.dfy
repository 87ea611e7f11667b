/**
 * The posting list of the indexer: a term and its postings, parsed from the text of
 * an intermediate index and written to the inverted-index file as two regions of
 * 4-byte ints, first every docid and then every frequency, in the same order.
 */
module IndexerPostingList {
  import opened Bytes
  import opened JavaText
  import opened Postings
  import opened PostingText
  import opened BlockDescriptors

  /** The file after `saveToDisk` at `off`: the docids at `[off, off + 4n)` and the
      frequencies at `[off + 4n, off + 8n)`, the file zero-extended first where it is
      shorter. */
  function Saved(file: seq<byte>, off: nat, ps: seq<Posting>): seq<byte>
  {
    WriteAt(WriteAt(file, off, PlainInts(Docids(ps))), off + 4 * |ps|, PlainInts(Frequencies(ps)))
  }

  /** The saved file holds the two regions and, outside them, the bytes it held before. */
  lemma SavedLayout(file: seq<byte>, off: nat, ps: seq<Posting>)
    ensures |Saved(file, off, ps)| >= off + 8 * |ps|
    ensures ReadAt(Saved(file, off, ps), off, 4 * |ps|) == PlainInts(Docids(ps))
    ensures ReadAt(Saved(file, off, ps), off + 4 * |ps|, 4 * |ps|) == PlainInts(Frequencies(ps))
    ensures ReadAt(Saved(file, off, ps), 0, off) == ReadAt(file, 0, off)
    ensures forall i :: off + 8 * |ps| <= i < |file| ==> Saved(file, off, ps)[i] == file[i]
  {
    var d := PlainInts(Docids(ps));
    var f := PlainInts(Frequencies(ps));
    assert |d| == 4 * |ps| && |f| == 4 * |ps|;
    var w := Saved(file, off, ps);
    assert w == WriteAt(WriteAt(file, off, d), off + |d|, f);
    AdjacentWrites(file, off, d, f);
  }

  /** The two regions read back with a block descriptor that points at them as the
      saved postings, in order. */
  lemma SavedReadsBack(file: seq<byte>, off: nat, ps: seq<Posting>, maxDocid: int)
    requires Int32Postings(ps)
    ensures var bd := BlockDescriptor(off, 4 * |ps|, off + 4 * |ps|, 4 * |ps|, maxDocid, |ps|);
            Readable(bd, Saved(file, off, ps), Saved(file, off, ps), false) &&
            BlockPostings(bd, Saved(file, off, ps), Saved(file, off, ps), false) == ps
  {
    SavedLayout(file, off, ps);
    RegionsReadBack(Saved(file, off, ps), off, ps, maxDocid);
  }

  lemma RegionsReadBack(saved: seq<byte>, off: nat, ps: seq<Posting>, maxDocid: int)
    requires Int32Postings(ps)
    requires ReadAt(saved, off, 4 * |ps|) == PlainInts(Docids(ps))
    requires ReadAt(saved, off + 4 * |ps|, 4 * |ps|) == PlainInts(Frequencies(ps))
    ensures var bd := BlockDescriptor(off, 4 * |ps|, off + 4 * |ps|, 4 * |ps|, maxDocid, |ps|);
            Readable(bd, saved, saved, false) && BlockPostings(bd, saved, saved, false) == ps
  {
    var n := |ps|;
    var bd := BlockDescriptor(off, 4 * n, off + 4 * n, 4 * n, maxDocid, n);
    PlainBlockRoundTrip(bd, saved, saved, Docids(ps), Frequencies(ps));
    ZipUnzip(ps);
  }

  /** Putting one more posting extends both regions by one int. */
  lemma PutStep(ps: seq<Posting>, k: nat)
    requires k < |ps|
    ensures PlainInts(Docids(ps[..k + 1])) == PlainInts(Docids(ps[..k])) + PutInt(ps[k].docid)
    ensures PlainInts(Frequencies(ps[..k + 1])) == PlainInts(Frequencies(ps[..k])) + PutInt(ps[k].frequency)
  {
    var d := Docids(ps[..k + 1]);
    var f := Frequencies(ps[..k + 1]);
    assert d[..k] == Docids(ps[..k]);
    assert f[..k] == Frequencies(ps[..k]);
  }

  /** The bytes put into the two mapped regions, one posting at a time. */
  method PutAll(ps: seq<Posting>) returns (docsBuf: seq<byte>, freqBuf: seq<byte>)
    ensures docsBuf == PlainInts(Docids(ps)) && freqBuf == PlainInts(Frequencies(ps))
  {
    docsBuf, freqBuf := [], [];
    for k := 0 to |ps|
      invariant docsBuf == PlainInts(Docids(ps[..k]))
      invariant freqBuf == PlainInts(Frequencies(ps[..k]))
    {
      PutStep(ps, k);
      docsBuf := docsBuf + PutInt(ps[k].docid);
      freqBuf := freqBuf + PutInt(ps[k].frequency);
    }
    assert ps[..|ps|] == ps;
  }

  class PostingList {
    var term: string
    var postings: seq<Posting>

    /** `PostingList(String)`: the term is the text before the first tab; the postings
        are parsed from the text after it when there is a tab. */
    constructor (toParse: string)
      requires ParsableRow(toParse)
      ensures term == RowTerm(toParse) && postings == RowPostings(toParse)
    {
      var termRow := Split(toParse, TAB);
      var parsed: seq<Posting> := [];
      if |termRow| > 1 {
        parsed := ParsePostings(termRow[1]);
      }
      term := termRow[0];
      postings := parsed;
    }

    /** `appendPostings`: the new postings follow the existing ones, in order. */
    method AppendPostings(newPostings: seq<Posting>)
      modifies this
      ensures postings == old(postings) + newPostings && term == old(term)
    {
      postings := postings + newPostings;
    }

    /** `getNumBytes`: `8 * size` in `int` arithmetic, so it wraps for lists of
        `2^28` postings or more. */
    function NumBytes(): (r: int)
      reads this
      ensures IsInt32(r)
      ensures 8 * |postings| < 0x8000_0000 ==> r == 8 * |postings|
    {
      Wrap32(Wrap32(Wrap32(|postings|) * 4) * 2)
    }

    /** `saveToDisk(memoryOffset)` on the inverted-index file: on success the docids
        and then the frequencies are written at `memoryOffset` and the number of bytes
        is returned; a failure to open or map the file returns -1 and writes nothing.
        A negative offset, or a byte count that overflows, makes `map` throw. */
    method SaveToDisk(memoryOffset: int, file: seq<byte>, ioOk: bool) returns (r: int, written: seq<byte>)
      requires memoryOffset >= 0
      requires 8 * |postings| < 0x8000_0000
      ensures !ioOk ==> r == -1 && written == file
      ensures ioOk ==> r == 8 * |postings| && written == Saved(file, memoryOffset, postings)
    {
      var numBytes := NumBytes();
      assert numBytes == 8 * |postings| && numBytes / 2 == 4 * |postings|;
      if !ioOk {
        return -1, file;
      }
      var docsBuf, freqBuf := PutAll(postings);
      written := WriteAt(WriteAt(file, memoryOffset, docsBuf), memoryOffset + numBytes / 2, freqBuf);
      r := numBytes;
    }
  }
}
