/**
 * Block descriptors: the skipping information of one block of a posting list.
 * A descriptor locates the block's compressed (or plain) docids and frequencies in
 * the two inverted-index files and records the block's largest docid and its
 * number of postings. Descriptors are appended to the block file as 32-byte
 * records at a shared offset.
 */
module BlockDescriptors {
  import opened Bytes
  import opened Postings
  import opened Wrappers
  import VariableByte
  import Unary

  /** Four `int` fields and two `long` fields. */
  const BLOCK_DESCRIPTOR_ENTRY_BYTES: nat := 4 * 4 + 2 * 8

  /** The setters of the Java class become record updates on this value. */
  datatype BlockDescriptor = BlockDescriptor(
    docidOffset: int,
    docidSize: int,
    freqOffset: int,
    freqSize: int,
    maxDocid: int,
    numPostings: int)

  /** `equals`: all six fields agree. */
  function Equals(a: BlockDescriptor, b: BlockDescriptor): (r: bool)
    ensures r <==> a == b
  {
    a.docidOffset == b.docidOffset && a.docidSize == b.docidSize &&
    a.freqOffset == b.freqOffset && a.freqSize == b.freqSize &&
    a.maxDocid == b.maxDocid && a.numPostings == b.numPostings
  }

  /** The record `saveBlockDescriptorOnDisk` writes: docidSize, numPostings, maxDocid,
      docidOffset, freqOffset, freqSize. */
  function Encode(bd: BlockDescriptor): (r: seq<byte>)
    ensures |r| == BLOCK_DESCRIPTOR_ENTRY_BYTES
  {
    PutInt(bd.docidSize) + PutInt(bd.numPostings) + PutInt(bd.maxDocid) +
    PutLong(bd.docidOffset) + PutLong(bd.freqOffset) + PutInt(bd.freqSize)
  }

  /** The fields of a record, read in the order `Encode` writes them. */
  function DecodeInWriteOrder(r: seq<byte>): (bd: BlockDescriptor)
    requires |r| == BLOCK_DESCRIPTOR_ENTRY_BYTES
  {
    BlockDescriptor(
      docidOffset := GetLong(r[12..20]),
      docidSize := GetInt(r[0..4]),
      freqOffset := GetLong(r[20..28]),
      freqSize := GetInt(r[28..32]),
      maxDocid := GetInt(r[8..12]),
      numPostings := GetInt(r[4..8]))
  }

  predicate FieldsInRange(bd: BlockDescriptor)
  {
    IsInt64(bd.docidOffset) && IsInt32(bd.docidSize) && IsInt64(bd.freqOffset) &&
    IsInt32(bd.freqSize) && IsInt32(bd.maxDocid) && IsInt32(bd.numPostings)
  }

  /** The record holds each field at its place: reading the fields back in the order
      they are written restores the descriptor. */
  lemma DecodeEncode(bd: BlockDescriptor)
    requires FieldsInRange(bd)
    ensures DecodeInWriteOrder(Encode(bd)) == bd
  {
    var r := Encode(bd);
    assert r[0..4] == PutInt(bd.docidSize);
    assert r[4..8] == PutInt(bd.numPostings);
    assert r[8..12] == PutInt(bd.maxDocid);
    assert r[12..20] == PutLong(bd.docidOffset);
    assert r[20..28] == PutLong(bd.freqOffset);
    assert r[28..32] == PutInt(bd.freqSize);
    GetPutInt(bd.docidSize);
    GetPutInt(bd.numPostings);
    GetPutInt(bd.maxDocid);
    GetPutLong(bd.docidOffset);
    GetPutLong(bd.freqOffset);
    GetPutInt(bd.freqSize);
  }

  /** The block file and the static `memoryOffset` shared by all descriptors. */
  class BlockDescriptorFile {
    var file: seq<byte>
    var memoryOffset: int

    /** The offset starts at zero when the class is loaded. */
    constructor (file0: seq<byte>)
      ensures file == file0 && memoryOffset == 0
    {
      file := file0;
      memoryOffset := 0;
    }

    function GetMemoryOffset(): int
      reads this
    {
      memoryOffset
    }

    /** `setMemoryOffset`: the next save writes at `off`. */
    method SetMemoryOffset(off: int)
      modifies this
      ensures memoryOffset == off && file == old(file)
    {
      memoryOffset := off;
    }

    /** `saveBlockDescriptorOnDisk`: on success the record is written at the shared
        offset, which then advances by 32; an I/O failure (`ioOk` false) leaves both
        as they were and returns false. */
    method SaveBlockDescriptorOnDisk(bd: BlockDescriptor, ioOk: bool) returns (ok: bool)
      requires memoryOffset >= 0
      modifies this
      ensures ok == ioOk
      ensures ok ==> file == WriteAt(old(file), old(memoryOffset), Encode(bd))
      ensures ok ==> memoryOffset == old(memoryOffset) + BLOCK_DESCRIPTOR_ENTRY_BYTES
      ensures !ok ==> file == old(file) && memoryOffset == old(memoryOffset)
    {
      if !ioOk {
        return false;
      }
      file := WriteAt(file, memoryOffset, Encode(bd));
      memoryOffset := memoryOffset + BLOCK_DESCRIPTOR_ENTRY_BYTES;
      return true;
    }
  }

  /** Consecutive saves from offset `off` lay the records out back to back. */
  function Layout(bds: seq<BlockDescriptor>): (r: seq<byte>)
    ensures |r| == 32 * |bds|
  {
    if bds == [] then [] else Layout(bds[..|bds| - 1]) + Encode(bds[|bds| - 1])
  }

  /** A save at the offset after the last record, from a file holding the layout,
      extends the layout by the new record; from offset 0 and an empty file, the saves
      of `saveBlockDescriptorOnDisk` therefore build `Layout` one descriptor at a time. */
  lemma LayoutExtends(bds: seq<BlockDescriptor>, bd: BlockDescriptor)
    ensures WriteAt(Layout(bds), BLOCK_DESCRIPTOR_ENTRY_BYTES * |bds|, Encode(bd)) == Layout(bds + [bd])
  {
    assert (bds + [bd])[..|bds|] == bds;
    WriteAtEnd(Layout(bds), Encode(bd));
  }

  /** Record `i` of a layout is the encoding of descriptor `i`. */
  lemma {:induction false} LayoutAt(bds: seq<BlockDescriptor>, i: nat)
    requires i < |bds|
    ensures Layout(bds)[32 * i..32 * (i + 1)] == Encode(bds[i])
  {
    var n := |bds| - 1;
    var init := Layout(bds[..n]);
    if i < n {
      LayoutAt(bds[..n], i);
      assert bds[..n][i] == bds[i];
      assert Layout(bds)[..|init|] == init;
    } else {
      assert |init| == 32 * i;
    }
  }

  // ---------------------------------------------------------------------------
  // Reading a block's postings

  /** What `getBlockPostings` demands of the descriptor: sizes and counts that are not
      negative, at most `numPostings` variable-byte terminators and, with no postings,
      no zero bit among the frequencies; without compression the two regions must hold
      `numPostings` ints each. */
  predicate Readable(bd: BlockDescriptor, docs: seq<byte>, freqs: seq<byte>, compressed: bool)
  {
    bd.docidOffset >= 0 && bd.freqOffset >= 0 && bd.docidSize >= 0 && bd.freqSize >= 0 &&
    bd.numPostings >= 0 &&
    if compressed then Decompressible(bd, docs, freqs)
    else 4 * bd.numPostings <= bd.docidSize && 4 * bd.numPostings <= bd.freqSize
  }

  /** The preconditions of the two decompressors on the block's regions. */
  predicate Decompressible(bd: BlockDescriptor, docs: seq<byte>, freqs: seq<byte>)
    requires bd.docidOffset >= 0 && bd.freqOffset >= 0 && bd.docidSize >= 0 && bd.freqSize >= 0
  {
    VariableByte.Terminators(DocidBytes(bd, docs)) <= bd.numPostings &&
    (bd.numPostings == 0 ==> forall p :: 0 <= p < 8 * bd.freqSize ==> Unary.Unpack(FreqBytes(bd, freqs))[p])
  }

  function DocidBytes(bd: BlockDescriptor, docs: seq<byte>): (r: seq<byte>)
    requires bd.docidOffset >= 0 && bd.docidSize >= 0
  {
    ReadAt(docs, bd.docidOffset, bd.docidSize)
  }

  function FreqBytes(bd: BlockDescriptor, freqs: seq<byte>): (r: seq<byte>)
    requires bd.freqOffset >= 0 && bd.freqSize >= 0
  {
    ReadAt(freqs, bd.freqOffset, bd.freqSize)
  }

  /** The postings of the block: decompressed docids zipped with decompressed
      frequencies, or consecutive 4-byte ints of both regions. */
  function BlockPostings(bd: BlockDescriptor, docs: seq<byte>, freqs: seq<byte>, compressed: bool): (r: seq<Posting>)
    requires Readable(bd, docs, freqs, compressed)
    ensures |r| == bd.numPostings
  {
    if compressed then CompressedPostings(bd, docs, freqs) else PlainPostings(bd, docs, freqs)
  }

  function CompressedPostings(bd: BlockDescriptor, docs: seq<byte>, freqs: seq<byte>): (r: seq<Posting>)
    requires Readable(bd, docs, freqs, true)
    ensures |r| == bd.numPostings
  {
    Zip(VariableByte.Decompressed(DocidBytes(bd, docs), bd.numPostings),
        Unary.Decompressed(FreqBytes(bd, freqs), bd.numPostings))
  }

  /** The `i`-th big-endian int of a region, as successive `getInt` calls read it. */
  function IntAt(region: seq<byte>, i: nat): int
    requires 4 * i + 4 <= |region|
  {
    GetInt(region[4 * i..4 * i + 4])
  }

  /** Posting `i` pairs the `i`-th int of the docid region with the `i`-th int of the
      frequency region. */
  function PlainPostings(bd: BlockDescriptor, docs: seq<byte>, freqs: seq<byte>): (r: seq<Posting>)
    requires Readable(bd, docs, freqs, false)
    ensures |r| == bd.numPostings
  {
    var d := DocidBytes(bd, docs);
    var f := FreqBytes(bd, freqs);
    seq(bd.numPostings, i requires 0 <= i < bd.numPostings => Posting(IntAt(d, i), IntAt(f, i)))
  }

  /** Copies `n` bytes of a file starting at `off` into a fresh array. */
  method ReadRegion(file: seq<byte>, off: nat, n: nat) returns (a: array<byte>)
    ensures fresh(a) && a[..] == ReadAt(file, off, n)
  {
    var region := ReadAt(file, off, n);
    a := new byte[n](i => if 0 <= i < |region| then region[i] else 0);
    assert a[..] == region;
  }

  /** `getBlockPostings`; `ioOk` false stands for a failed mapping or I/O error, on
      which the result is null. */
  method GetBlockPostings(bd: BlockDescriptor, docs: seq<byte>, freqs: seq<byte>, compressed: bool, ioOk: bool)
    returns (r: Option<seq<Posting>>)
    requires Readable(bd, docs, freqs, compressed)
    ensures r == if ioOk then Some(BlockPostings(bd, docs, freqs, compressed)) else None
  {
    if !ioOk {
      return None;
    }
    var block: seq<Posting> := [];
    if compressed {
      var compressedDocids := ReadRegion(docs, bd.docidOffset, bd.docidSize);
      var compressedFreqs := ReadRegion(freqs, bd.freqOffset, bd.freqSize);
      assert compressedDocids[..] == DocidBytes(bd, docs);
      assert compressedFreqs[..] == FreqBytes(bd, freqs);
      var decompressedDocids := VariableByte.IntegerArrayDecompression(compressedDocids, bd.numPostings);
      var decompressedFreqs := Unary.IntegerArrayDecompression(compressedFreqs, bd.numPostings);
      ghost var ds := decompressedDocids[..];
      ghost var fs := decompressedFreqs[..];
      for i := 0 to bd.numPostings
        invariant block == Zip(ds[..i], fs[..i])
      {
        block := block + [Posting(decompressedDocids[i], decompressedFreqs[i])];
      }
      assert ds[..bd.numPostings] == ds && fs[..bd.numPostings] == fs;
      assert block == BlockPostings(bd, docs, freqs, compressed);
    } else {
      var docBuffer := DocidBytes(bd, docs);
      var freqBuffer := FreqBytes(bd, freqs);
      for i := 0 to bd.numPostings
        invariant |block| == i
        invariant forall k :: 0 <= k < i ==> block[k] == PlainPostings(bd, docs, freqs)[k]
      {
        block := block + [Posting(IntAt(docBuffer, i), IntAt(freqBuffer, i))];
      }
      assert block == BlockPostings(bd, docs, freqs, compressed);
    }
    return Some(block);
  }

  // ---------------------------------------------------------------------------
  // Properties

  /** A block whose regions hold the compressions of positive docids and positive
      frequencies reads back as those postings. */
  lemma CompressedBlockRoundTrip(bd: BlockDescriptor, docs: seq<byte>, freqs: seq<byte>,
                                  ds: seq<int>, fs: seq<int>)
    requires |ds| == |fs| == bd.numPostings
    requires forall i :: 0 <= i < |ds| ==> 0 < ds[i] < 0x8000_0000
    requires forall i :: 0 <= i < |fs| ==> fs[i] > 0
    requires Unary.Sum(fs) < 0x8000_0000
    requires bd.docidOffset >= 0 && bd.freqOffset >= 0 && bd.docidSize >= 0 && bd.freqSize >= 0
    requires DocidBytes(bd, docs) == VariableByte.EncodeAll(ds)
    requires Unary.NumBytes(Unary.JavaSum(fs)) >= 0 &&
             FreqBytes(bd, freqs) == Unary.Pack(Unary.Stream(fs), Unary.NumBytes(Unary.JavaSum(fs)))
    ensures Readable(bd, docs, freqs, true)
    ensures BlockPostings(bd, docs, freqs, true) == Zip(ds, fs)
  {
    VariableByte.DecompressCompressed(ds);
    Unary.CompressDecompress(fs);
  }

  /** The plain 4-byte ints of a region. */
  function PlainInts(xs: seq<int>): (r: seq<byte>)
    ensures |r| == 4 * |xs|
  {
    if xs == [] then [] else PlainInts(xs[..|xs| - 1]) + PutInt(xs[|xs| - 1])
  }

  lemma {:induction false} PlainIntsAt(xs: seq<int>, i: nat)
    requires i < |xs| && IsInt32(xs[i])
    ensures IntAt(PlainInts(xs), i) == xs[i]
  {
    var n := |xs| - 1;
    var init := PlainInts(xs[..n]);
    if i < n {
      PlainIntsAt(xs[..n], i);
      assert xs[..n][i] == xs[i];
      assert PlainInts(xs)[..|init|] == init;
      assert PlainInts(xs)[4 * i..4 * i + 4] == init[4 * i..4 * i + 4];
    } else {
      assert PlainInts(xs)[4 * i..4 * i + 4] == PutInt(xs[i]);
      GetPutInt(xs[i]);
    }
  }

  /** Without compression, regions holding the ints of docids and frequencies read back
      as those postings. */
  lemma PlainBlockRoundTrip(bd: BlockDescriptor, docs: seq<byte>, freqs: seq<byte>,
                             ds: seq<int>, fs: seq<int>)
    requires |ds| == |fs| == bd.numPostings
    requires forall i :: 0 <= i < |ds| ==> IsInt32(ds[i]) && IsInt32(fs[i])
    requires bd.docidOffset >= 0 && bd.freqOffset >= 0
    requires bd.docidSize == 4 * |ds| && bd.freqSize == 4 * |fs|
    requires DocidBytes(bd, docs) == PlainInts(ds)
    requires FreqBytes(bd, freqs) == PlainInts(fs)
    ensures Readable(bd, docs, freqs, false)
    ensures BlockPostings(bd, docs, freqs, false) == Zip(ds, fs)
  {
    assert Readable(bd, docs, freqs, false);
    forall i | 0 <= i < |ds|
      ensures PlainPostings(bd, docs, freqs)[i] == Zip(ds, fs)[i]
    {
      PlainIntsAt(ds, i);
      PlainIntsAt(fs, i);
    }
  }
}
