/**
 * Vocabulary entries of the merged index: a term's statistics, where its docids and
 * frequencies lie in the inverted-index files and where its block descriptors lie in
 * the block file. Entries are stored as 140-byte records: the term NUL-padded to 64
 * bytes, then seven `int`s, three `double`s and three `long`s.
 */
module CommonVocabularyEntry {
  import opened Bytes
  import opened Wrappers
  import opened JavaText
  import opened JavaMath
  import opened Bm25
  import opened Postings
  import opened BlockDescriptors

  const TERM_SIZE: nat := 64
  const ENTRY_SIZE: nat := TERM_SIZE + 76

  /** The `double` 0.0: eight zero bytes. */
  const ZERO_DOUBLE: Opaque8 := [0, 0, 0, 0, 0, 0, 0, 0]

  /** The fields of an entry; a `None` term is Java's `null`. */
  datatype Entry = Entry(
    term: Option<string>,
    df: int,
    idf: Opaque8,
    maxTf: int,
    bm25Dl: int,
    bm25Tf: int,
    maxBM25: Opaque8,
    maxTFIDF: Opaque8,
    docidOffset: int,
    frequencyOffset: int,
    docidSize: int,
    frequencySize: int,
    numBlocks: int,
    blockOffset: int)

  /** The field initialisers: all statistics zero, `BM25Dl = 1` and one block. */
  function Defaults(term: Option<string>): Entry
  {
    Entry(term, 0, ZERO_DOUBLE, 0, 1, 0, ZERO_DOUBLE, ZERO_DOUBLE, 0, 0, 0, 0, 1, 0)
  }

  /** Every field holds a value of its Java type. */
  predicate InRange(e: Entry)
  {
    IsInt32(e.df) && IsInt32(e.maxTf) && IsInt32(e.bm25Dl) && IsInt32(e.bm25Tf) &&
    IsInt64(e.docidOffset) && IsInt64(e.frequencyOffset) && IsInt32(e.docidSize) &&
    IsInt32(e.frequencySize) && IsInt32(e.numBlocks) && IsInt64(e.blockOffset)
  }

  // ---------------------------------------------------------------------------
  // statistics

  /** `maxTf` after visiting `ps` from `m`: replaced by every strictly greater frequency. */
  function MaxTf(m: int, ps: seq<Posting>): int
  {
    if ps == [] then m
    else
      var k := MaxTf(m, ps[..|ps| - 1]);
      if ps[|ps| - 1].frequency > k then ps[|ps| - 1].frequency else k
  }

  /** The running maximum is the largest of the start value and all frequencies. */
  lemma {:induction false} MaxTfIsMax(m: int, ps: seq<Posting>)
    ensures MaxTf(m, ps) >= m
    ensures forall i :: 0 <= i < |ps| ==> MaxTf(m, ps) >= ps[i].frequency
    ensures MaxTf(m, ps) == m || exists i :: 0 <= i < |ps| && MaxTf(m, ps) == ps[i].frequency
  {
    if ps != [] {
      var init := ps[..|ps| - 1];
      MaxTfIsMax(m, init);
      assert forall i :: 0 <= i < |init| ==> init[i] == ps[i];
    }
  }

  /** Below 1024 bytes of docids a list is one block, otherwise `ceil(sqrt(df))` blocks
      of `ceil(df / numBlocks)` postings. Either way the blocks hold every posting and no
      block is empty. */
  lemma BlockSplit(df: int)
    requires IsInt32(df) && df >= 1
    ensures CeilSqrtInt(df) <= 46341
    ensures var n := CeilSqrtInt(df);
      var per := CeilQuotient(df, n);
      1 <= n <= df && n * per >= df && (n - 1) * per < df
  {
    var n := CeilSqrtInt(df);
    CeilSqrtFits(df);
    var per := CeilQuotient(df, n);
    if n > df {
      SquareMono(n - 1, df);
      MulAtLeast(df, df);
    }
    if per > n {
      MulMono(n, n, per - 1);
    }
    if per < n {
      MulMono(n - 1, per, n - 1);
    }
  }

  lemma MulMono(a: int, b: int, c: int)
    requires a >= 0 && b <= c
    ensures a * b <= a * c
  {
    assert a * c - a * b == a * (c - b);
  }

  // ---------------------------------------------------------------------------
  // the record on disk

  predicate Writable(e: Entry)
  {
    e.term.Some? && IsAscii(e.term.value) && |e.term.value| <= TERM_SIZE
  }

  /** The 76 bytes after the term, in the order `writeEntryToDisk` puts them. */
  function Numbers(e: Entry): (r: seq<byte>)
    ensures |r| == ENTRY_SIZE - TERM_SIZE
  {
    PutInt(e.df) + e.idf + PutInt(e.maxTf) + PutInt(e.bm25Dl) + PutInt(e.bm25Tf) +
    e.maxBM25 + e.maxTFIDF + PutLong(e.docidOffset) + PutLong(e.frequencyOffset) +
    PutInt(e.docidSize) + PutInt(e.frequencySize) + PutInt(e.numBlocks) + PutLong(e.blockOffset)
  }

  /** The record: the term in a 64-character buffer encoded as UTF-8, then the numbers. */
  function Record(e: Entry): (r: seq<byte>)
    requires Writable(e)
    ensures |r| == ENTRY_SIZE
  {
    PaddedField(e.term.value, TERM_SIZE) + Numbers(e)
  }

  /** The numbers after the term, read in the order `readFromDisk` gets them. */
  function ReadNumbers(term: string, r: seq<byte>): (e: Entry)
    requires |r| == ENTRY_SIZE - TERM_SIZE
    ensures e.term == Some(term) && InRange(e)
  {
    Entry(
      term := Some(term),
      df := GetInt(r[0..4]),
      idf := r[4..12],
      maxTf := GetInt(r[12..16]),
      bm25Dl := GetInt(r[16..20]),
      bm25Tf := GetInt(r[20..24]),
      maxBM25 := r[24..32],
      maxTFIDF := r[32..40],
      docidOffset := GetLong(r[40..48]),
      frequencyOffset := GetLong(r[48..56]),
      docidSize := GetInt(r[56..60]),
      frequencySize := GetInt(r[60..64]),
      numBlocks := GetInt(r[64..68]),
      blockOffset := GetLong(r[68..76]))
  }

  /** What `readFromDisk` makes of a record: `None` when the whole record decodes to
      NULs (the split yields nothing), otherwise the text before the first NUL of the
      decoded record as the term, and the numbers. */
  function Decoded(rec: seq<byte>): (r: Option<Entry>)
    requires |rec| == ENTRY_SIZE
    ensures r.None? <==> rec == Zeros(ENTRY_SIZE)
    ensures r.Some? ==> InRange(r.value) && r.value.term.Some?
  {
    match ReadPaddedString(rec)
    case None => None
    case Some(t) => Some(ReadNumbers(t, rec[TERM_SIZE..]))
  }

  lemma NumbersRoundTrip(e: Entry)
    requires InRange(e) && e.term.Some?
    ensures ReadNumbers(e.term.value, Numbers(e)) == e.(term := Some(e.term.value))
  {
    var r := Numbers(e);
    assert r[0..4] == PutInt(e.df);
    assert r[4..12] == e.idf;
    assert r[12..16] == PutInt(e.maxTf);
    assert r[16..20] == PutInt(e.bm25Dl);
    assert r[20..24] == PutInt(e.bm25Tf);
    assert r[24..32] == e.maxBM25;
    assert r[32..40] == e.maxTFIDF;
    assert r[40..48] == PutLong(e.docidOffset);
    assert r[48..56] == PutLong(e.frequencyOffset);
    assert r[56..60] == PutInt(e.docidSize);
    assert r[60..64] == PutInt(e.frequencySize);
    assert r[64..68] == PutInt(e.numBlocks);
    assert r[68..76] == PutLong(e.blockOffset);
    GetPutInt(e.df);
    GetPutInt(e.maxTf);
    GetPutInt(e.bm25Dl);
    GetPutInt(e.bm25Tf);
    GetPutLong(e.docidOffset);
    GetPutLong(e.frequencyOffset);
    GetPutInt(e.docidSize);
    GetPutInt(e.frequencySize);
    GetPutInt(e.numBlocks);
    GetPutLong(e.blockOffset);
  }

  /** An entry whose fields are in range and whose term is ASCII, not empty, without
      NULs and shorter than 64 characters. */
  predicate Storable(e: Entry)
  {
    Writable(e) && InRange(e) && e.term.value != "" && NUL !in e.term.value && |e.term.value| < TERM_SIZE
  }

  /** A storable entry reads back as written. */
  lemma RecordRoundTrip(e: Entry)
    requires Storable(e)
    ensures Decoded(Record(e)) == Some(e)
  {
    var rec := Record(e);
    ReadPaddedStringOfField(e.term.value, TERM_SIZE, Numbers(e));
    assert rec[TERM_SIZE..] == Numbers(e);
    NumbersRoundTrip(e);
  }

  // ---------------------------------------------------------------------------
  // block descriptors as `readBlocks` reads them

  /** A 32-byte record read as docidOffset, freqOffset, docidSize, freqSize, maxDocid,
      numPostings. */
  function DecodeInReadOrder(r: seq<byte>): (bd: BlockDescriptor)
    requires |r| == BLOCK_DESCRIPTOR_ENTRY_BYTES
    ensures FieldsInRange(bd)
  {
    BlockDescriptor(
      docidOffset := GetLong(r[0..8]),
      docidSize := GetInt(r[16..20]),
      freqOffset := GetLong(r[8..16]),
      freqSize := GetInt(r[20..24]),
      maxDocid := GetInt(r[24..28]),
      numPostings := GetInt(r[28..32]))
  }

  /** The first `n` records of a buffer, in order. */
  function RecordsOf(buffer: seq<byte>, n: nat): (r: seq<BlockDescriptor>)
    requires BLOCK_DESCRIPTOR_ENTRY_BYTES * n <= |buffer|
    ensures |r| == n
  {
    seq(n, i requires 0 <= i < n => DecodeInReadOrder(RecordAt(buffer, i)))
  }

  /** The `i`-th 32-byte record of a buffer. */
  function RecordAt(buffer: seq<byte>, i: nat): (r: seq<byte>)
    requires BLOCK_DESCRIPTOR_ENTRY_BYTES * (i + 1) <= |buffer|
    ensures |r| == BLOCK_DESCRIPTOR_ENTRY_BYTES
  {
    buffer[32 * i..32 * i + 32]
  }

  /** The order `readBlocks` reads differs from the order `saveBlockDescriptorOnDisk`
      writes: a descriptor with only `numPostings = 1` reads back with
      `numPostings = 0`, the value of the `freqSize` stored in those bytes. */
  lemma ReadOrderDiffers()
    ensures var bd := BlockDescriptor(0, 0, 0, 0, 0, 1);
      DecodeInReadOrder(Encode(bd)) != bd
  {
    var bd := BlockDescriptor(0, 0, 0, 0, 0, 1);
    var r := Encode(bd);
    assert r[28..32] == PutInt(0);
    GetPutInt(0);
  }

  /** The vocabulary entry of a term. */
  class VocabularyEntry {
    var term: Option<string>
    var df: int
    var idf: Opaque8
    var maxTf: int
    var bm25Dl: int
    var bm25Tf: int
    var maxBM25: Opaque8
    var maxTFIDF: Opaque8
    var docidOffset: int
    var frequencyOffset: int
    var docidSize: int
    var frequencySize: int
    var numBlocks: int
    var blockOffset: int

    function Fields(): Entry
      reads this
    {
      Entry(term, df, idf, maxTf, bm25Dl, bm25Tf, maxBM25, maxTFIDF, docidOffset,
            frequencyOffset, docidSize, frequencySize, numBlocks, blockOffset)
    }

    predicate Valid()
      reads this
    {
      InRange(Fields())
    }

    /** `VocabularyEntry()`: no term yet. */
    constructor Empty()
      ensures Fields() == Defaults(None) && Valid()
    {
      term, df, idf, maxTf, bm25Dl, bm25Tf := None, 0, ZERO_DOUBLE, 0, 1, 0;
      maxBM25, maxTFIDF, docidOffset, frequencyOffset := ZERO_DOUBLE, ZERO_DOUBLE, 0, 0;
      docidSize, frequencySize, numBlocks, blockOffset := 0, 0, 1, 0;
    }

    /** `VocabularyEntry(term)`. */
    constructor (t: string)
      ensures Fields() == Defaults(Some(t)) && Valid()
    {
      term, df, idf, maxTf, bm25Dl, bm25Tf := Some(t), 0, ZERO_DOUBLE, 0, 1, 0;
      maxBM25, maxTFIDF, docidOffset, frequencyOffset := ZERO_DOUBLE, ZERO_DOUBLE, 0, 0;
      docidSize, frequencySize, numBlocks, blockOffset := 0, 0, 1, 0;
    }

    /** `updateStatistics(list)`: `df` counts the postings (in `int` arithmetic) and
        `maxTf` becomes the largest of its old value and their frequencies. */
    method UpdateStatistics(list: seq<Posting>)
      requires Valid() && forall i :: 0 <= i < |list| ==> IsInt32(list[i].frequency)
      modifies this
      ensures Valid()
      ensures Fields() == old(Fields()).(df := Wrap32(old(df) + |list|), maxTf := MaxTf(old(maxTf), list))
    {
      ghost var df0, maxTf0 := df, maxTf;
      for i := 0 to |list|
        invariant df == Wrap32(df0 + i) && maxTf == MaxTf(maxTf0, list[..i])
        invariant IsInt32(maxTf)
        invariant Fields() == old(Fields()).(df := df, maxTf := maxTf)
      {
        var posting := list[i];
        if posting.frequency > maxTf {
          maxTf := posting.frequency;
        }
        Wrap32Add(df0 + i, 1);
        df := Wrap32(df + 1);
        assert list[..i + 1][..i] == list[..i];
      }
      assert list[..|list|] == list;
    }

    /** `updateBM25Statistics(tf, dl)`: the pair changes to `(dl, tf)` exactly when its
        ratio `tf / (dl + tf)` is strictly greater than the stored one. */
    method UpdateBM25Statistics(tf: int, dl: int)
      requires Valid() && IsInt32(tf) && IsInt32(dl)
      modifies this
      ensures Valid()
      ensures Witness(bm25Dl, bm25Tf) == Update(old(Witness(bm25Dl, bm25Tf)), Witness(dl, tf))
      ensures Fields() == old(Fields()).(bm25Dl := bm25Dl, bm25Tf := bm25Tf)
    {
      var currentRatio := Quotient(bm25Tf, Wrap32(bm25Dl + bm25Tf));
      var newRatio := Quotient(tf, Wrap32(dl + tf));
      if Greater(newRatio, currentRatio) {
        bm25Dl := dl;
        bm25Tf := tf;
      }
    }

    /** `setMemoryOffset`: the docid offset. */
    method SetMemoryOffset(off: int)
      modifies this
      ensures Fields() == old(Fields()).(docidOffset := off)
    {
      docidOffset := off;
    }

    method SetFrequencyOffset(off: int)
      modifies this
      ensures Fields() == old(Fields()).(frequencyOffset := off)
    {
      frequencyOffset := off;
    }

    method SetDocidSize(size: int)
      modifies this
      ensures Fields() == old(Fields()).(docidSize := size)
    {
      docidSize := size;
    }

    method SetFrequencySize(size: int)
      modifies this
      ensures Fields() == old(Fields()).(frequencySize := size)
    {
      frequencySize := size;
    }

    method SetBM25(dl: int, tf: int)
      modifies this
      ensures Fields() == old(Fields()).(bm25Dl := dl, bm25Tf := tf)
    {
      bm25Dl := dl;
      bm25Tf := tf;
    }

    /** `computeBlocksInformation`: one block below 1024 bytes of docids, otherwise
        `(int) Math.ceil(Math.sqrt(df))` blocks. */
    method ComputeBlocksInformation()
      requires Valid()
      modifies this
      ensures Valid()
      ensures docidSize < 1024 ==> numBlocks == 1
      ensures docidSize >= 1024 ==> numBlocks == CeilSqrtInt(df)
      ensures Fields() == old(Fields()).(numBlocks := numBlocks)
    {
      if docidSize < 1024 {
        numBlocks := 1;
      } else {
        CeilSqrtFits(df);
        numBlocks := CeilSqrtInt(df);
      }
    }

    /** `getMaxNumberOfPostingsInBlock`: `(int) Math.ceil((double) df / numBlocks)`;
        for a positive number of blocks, the least block size that holds `df`
        postings. */
    function GetMaxNumberOfPostingsInBlock(): (r: int)
      reads this
      requires Valid()
      ensures IsInt32(r)
      ensures numBlocks > 0 && df >= 0 ==> numBlocks * (r - 1) < df <= numBlocks * r
    {
      CeilQuotient(df, numBlocks)
    }

    /** `writeEntryToDisk(position, channel)` on the vocabulary file `file`: the record
        goes at `position` and the position after it is returned; an I/O failure
        (`ioOk` false) returns -1 and writes nothing. */
    method WriteEntryToDisk(position: int, file: seq<byte>, ioOk: bool) returns (r: int, written: seq<byte>)
      requires position >= 0 && (ioOk ==> Writable(Fields()))
      ensures ioOk ==> r == position + ENTRY_SIZE && written == WriteAt(file, position, Record(Fields()))
      ensures !ioOk ==> r == -1 && written == file
    {
      if !ioOk {
        return -1, file;
      }
      var buffer := PaddedField(term.value, TERM_SIZE);
      buffer := buffer + PutInt(df) + idf;
      buffer := buffer + PutInt(maxTf) + PutInt(bm25Dl) + PutInt(bm25Tf) + maxBM25 + maxTFIDF;
      buffer := buffer + PutLong(docidOffset) + PutLong(frequencyOffset) + PutInt(docidSize) + PutInt(frequencySize);
      buffer := buffer + PutInt(numBlocks) + PutLong(blockOffset);
      assert buffer == Record(Fields());
      return position + ENTRY_SIZE, WriteAt(file, position, buffer);
    }

    /** `readFromDisk(memoryOffset, path)` on the vocabulary file `file`: -1 on an I/O
        failure; 0, with nothing changed, when the record is all zero bytes; otherwise
        the fields are read from the record and the offset after it is returned. */
    method ReadFromDisk(memoryOffset: int, file: seq<byte>, ioOk: bool) returns (r: int)
      requires memoryOffset >= 0
      modifies this
      ensures !ioOk ==> r == -1 && Fields() == old(Fields())
      ensures ioOk && Decoded(ReadAt(file, memoryOffset, ENTRY_SIZE)).None? ==> r == 0 && Fields() == old(Fields())
      ensures ioOk && Decoded(ReadAt(file, memoryOffset, ENTRY_SIZE)).Some? ==>
        r == memoryOffset + ENTRY_SIZE && Fields() == Decoded(ReadAt(file, memoryOffset, ENTRY_SIZE)).value
    {
      if !ioOk {
        return -1;
      }
      var buffer := ReadAt(file, memoryOffset, ENTRY_SIZE);
      var decoded := Decoded(buffer);
      if decoded.None? {
        return 0;
      }
      var e := decoded.value;
      SetCounts(e);
      SetRanking(e);
      SetLayout(e);
      return memoryOffset + ENTRY_SIZE;
    }

    /** Field groups assigned from a decoded record, in the order they are read. */
    method SetCounts(e: Entry)
      modifies this
      ensures Fields() == old(Fields()).(term := e.term, df := e.df, idf := e.idf, maxTf := e.maxTf)
    {
      term, df, idf, maxTf := e.term, e.df, e.idf, e.maxTf;
    }

    method SetRanking(e: Entry)
      modifies this
      ensures Fields() == old(Fields()).(bm25Dl := e.bm25Dl, bm25Tf := e.bm25Tf, maxBM25 := e.maxBM25, maxTFIDF := e.maxTFIDF)
    {
      bm25Dl, bm25Tf, maxBM25, maxTFIDF := e.bm25Dl, e.bm25Tf, e.maxBM25, e.maxTFIDF;
    }

    method SetLayout(e: Entry)
      modifies this
      ensures Fields() == old(Fields()).(docidOffset := e.docidOffset, frequencyOffset := e.frequencyOffset,
        docidSize := e.docidSize, frequencySize := e.frequencySize, numBlocks := e.numBlocks, blockOffset := e.blockOffset)
    {
      docidOffset, frequencyOffset, docidSize := e.docidOffset, e.frequencyOffset, e.docidSize;
      frequencySize, numBlocks, blockOffset := e.frequencySize, e.numBlocks, e.blockOffset;
    }

    /** `readBlocks` on the block file `blockFile`: `numBlocks` consecutive 32-byte
        records from `blockOffset`, in order; null on an I/O failure. */
    method ReadBlocks(blockFile: seq<byte>, ioOk: bool) returns (r: Option<seq<BlockDescriptor>>)
      requires blockOffset >= 0 && numBlocks >= 0
      ensures r == if ioOk then Some(RecordsOf(ReadAt(blockFile, blockOffset, BLOCK_DESCRIPTOR_ENTRY_BYTES * numBlocks), numBlocks)) else None
    {
      if !ioOk {
        return None;
      }
      var buffer := ReadAt(blockFile, blockOffset, BLOCK_DESCRIPTOR_ENTRY_BYTES * numBlocks);
      var blocks: seq<BlockDescriptor> := [];
      for i := 0 to numBlocks
        invariant |blocks| == i
        invariant forall j :: 0 <= j < i ==> blocks[j] == DecodeInReadOrder(RecordAt(buffer, j))
      {
        var block := DecodeInReadOrder(RecordAt(buffer, i));
        blocks := blocks + [block];
      }
      assert blocks == RecordsOf(buffer, numBlocks);
      return Some(blocks);
    }
  }
}
