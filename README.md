# MIRCV search engine: the inverted index, modelled in Dafny

This project models the inverted-index machinery of the MIRCV search engine and proves
properties of the model.

- **Building the index.** The SPIMI indexer reads a collection of `pid<TAB>text` lines.
  It gives each document with tokens the next docid and appends a 72-byte record to the
  document index. It builds posting lists in memory and, when memory runs low and at the
  end, flushes the partial index to disk. A flush writes the docids and frequencies as
  4-byte ints and one 140-byte vocabulary record per term, in ascending term order.
- **Codecs.** Posting lists are stored in blocks, each with a 32-byte block descriptor.
  Docids are compressed with variable-byte coding, frequencies with unary coding.
- **Query processing.**
  - A query's distinct terms are looked up in the vocabulary: a cache in front of a
    binary search over the sorted 140-byte records.
  - Each found term gets a posting list with a block-skipping cursor (`next`, `nextGEQ`).
  - Document-at-a-time (DAAT) evaluation scores every candidate document and keeps the
    k best in a min-heap.
  - The pids of the winners are read from the document index, best first.

**How the model is built.**
- Layout:
  - One Dafny module per source file of the core.
  - `Bytes` and `JavaText` hold the Java library behaviour the core relies on:
    big-endian `ByteBuffer` ints and longs, NUL-padded strings, memory-mapped regions,
    `String.split`, `isBlank`, `parseInt`, `Integer.toString`, `compareTo`.
- Disk and I/O:
  - Disk files are `seq<byte>`. Mapping past the end of a file reads zeros, as a
    `READ_WRITE` mapping extends the file with zeros. Reads (`ReadAt`) do not model
    that growth: the file a read maps stays as long as it was, and only writes
    (`WriteAt`) lengthen it. No stated result depends on the file length after a read.
  - The success or failure of each I/O operation is an input (`ioOk`, `openOk`, …).
  - The static offsets of the Java classes are fields of small classes, next to the
    file bytes.
- Form:
  - Code that changes state step by step keeps its form as methods with loops. Examples:
    the codecs, over `array`s; posting-list cursors, vocabulary and document-index
    classes; the SPIMI run; DAAT; `getQueryPostings` and `lookupPid`.
  - Each method is proved against a function on values. The properties the source
    promises are proved about those functions as lemmas.
- Scores and doubles:
  - Scores and idfs are doubles computed with logarithms. Scoring is an abstract
    function from (posting, idf) to `real`.
  - Double fields of records are kept as opaque 8-byte values.

**What the model follows as written.** In a few places the code and its documentation
differ; each is stated as a property of the code:
- Variable-byte coding writes 0 as a single non-terminating byte. A 0 therefore merges
  with the next number, and the round trip holds only for positive values.
- `nextGEQ` on an unchanged block resumes after the current posting.
- SPIMI offers the BM25 witness the list's posting count, not the term frequency.
- Every partial vocabulary entry records the docid and frequency sizes of the whole
  partial index, `4 * numPostings`.
- `processQuery` always calls DAAT in conjunctive mode.

## Model

Source paths are relative to the repository root. Module prefixes: `VariableByte`,
`Unary`, `BlockDescriptors`, `CommonPostingList`, `PostingText`, `CommonVocabularyEntry`,
`Vocabularies`, `DocumentIndexEntries`, `DocumentIndexes`, `IndexerPostingList`,
`IndexerVocabularyEntry`, `ProcessedDocuments`, `ProcessedDocumentDTOs`, `Bm25`,
`JavaMath`, `SpimiIndex`, `SpimiFlush`, `SpimiAlgorithm`, `DAAT`, `QueryProcessing`.

| member | source | states |
|---|---|---|
| VariableByte.CeilLog128 | common/src/main/java/it/unipi/dii/aide/mircv/compression/VariableByteCompressor.java:19 | the least `e` with `n <= 128^e`: `ceil(log n / log 128)` computed exactly (see Left out) |
| VariableByte.EncodeInt | common/src/main/java/it/unipi/dii/aide/mircv/compression/VariableByteCompressor.java:12-35 | zero takes exactly one byte; a non-zero value takes `1 + ceil(log128 n)` bytes |
| VariableByte.IntegerCompression | common/src/main/java/it/unipi/dii/aide/mircv/compression/VariableByteCompressor.java:12-35 | the array filled backwards by repeated division holds the codeword of `n`: the base-128 digits, most significant first, the last one marked by the high bit; 0 gives the single byte `0x00` |
| VariableByte.EncodeIntIsCodeword | common/src/main/java/it/unipi/dii/aide/mircv/compression/VariableByteCompressor.java:26-32 | for `n >= 1`, every byte but the last has its high bit clear and the last has it set |
| VariableByte.LeadingZeroDigit | common/src/main/java/it/unipi/dii/aide/mircv/compression/VariableByteCompressor.java:19-29 | when `n > 1` is not a power of 128, the byte count has room for one more digit, so the codeword starts with a zero byte |
| VariableByte.IntegerArrayCompression | common/src/main/java/it/unipi/dii/aide/mircv/compression/VariableByteCompressor.java:42-58 | the output is the codewords of the elements, concatenated in order |
| VariableByte.IntegerArrayDecompression | common/src/main/java/it/unipi/dii/aide/mircv/compression/VariableByteCompressor.java:66-97 | the output holds one value per terminating byte, accumulated as `128*acc + byte` in Java `int` arithmetic, followed by zeros up to `totNums`; it requires no more terminators than `totNums`, the bound of the store at line 87 |
| VariableByte.DecodeCodeword | common/src/main/java/it/unipi/dii/aide/mircv/compression/VariableByteCompressor.java:76-94 | continuation bytes accumulate and a terminating byte emits the value and resets the accumulator |
| VariableByte.DecodeEncodeInt | common/src/main/java/it/unipi/dii/aide/mircv/compression/VariableByteCompressor.java:12-94 | decoding the codeword of a positive `int` gives that value back, whatever follows it |
| VariableByte.DecodeEncodeAll | common/src/main/java/it/unipi/dii/aide/mircv/compression/VariableByteCompressor.java:42-94 | decoding the compression of positive `int`s gives them back, in order |
| VariableByte.DecompressCompressed | common/src/main/java/it/unipi/dii/aide/mircv/compression/VariableByteCompressor.java:42-97 | round trip: `decompress(compress(a), |a|) == a` for arrays of positive `int`s, with exactly `|a|` terminators |
| VariableByte.ZeroMergesWithNext | common/src/main/java/it/unipi/dii/aide/mircv/compression/VariableByteCompressor.java:14-81 | `[0, 5]` compresses to `00 00 85` and decodes to `[5]`: a 0 element is not recovered |
| Unary.IntegerArrayCompression | common/src/main/java/it/unipi/dii/aide/mircv/compression/UnaryCompressor.java:13-68 | the bit cursors write, MSB-first, `n-1` one bits and a zero bit for each `n >= 1`, nothing for `n <= 0`, into `nBits/8` bytes rounded up with every padding bit zero |
| Unary.IntegerArrayDecompression | common/src/main/java/it/unipi/dii/aide/mircv/compression/UnaryCompressor.java:76-116 | the output holds `ones+1` at each zero bit, stops once `totNums` values are produced and is padded with zeros; with `totNums = 0` a zero bit would store out of bounds, so then all bits must be one |
| Unary.StreamLength | common/src/main/java/it/unipi/dii/aide/mircv/compression/UnaryCompressor.java:14-20 | for non-negative elements, the number of bits written is their sum |
| Unary.JavaSumExact | common/src/main/java/it/unipi/dii/aide/mircv/compression/UnaryCompressor.java:14-20 | the `int` bit count equals the exact sum when that sum fits |
| Unary.UnpackPack | common/src/main/java/it/unipi/dii/aide/mircv/compression/UnaryCompressor.java:23-64 | reading back the bytes written gives the bit stream followed by zero padding |
| Unary.DecodeStream | common/src/main/java/it/unipi/dii/aide/mircv/compression/UnaryCompressor.java:85-106 | decoding the bits of positive values, with any padding after them, gives those values |
| Unary.CompressDecompress | common/src/main/java/it/unipi/dii/aide/mircv/compression/UnaryCompressor.java:13-116 | round trip: `decompress(compress(a), |a|) == a` for positive elements whose sum fits in an `int` |
| BlockDescriptors.Equals | common/src/main/java/it/unipi/dii/aide/mircv/beans/BlockDescriptor.java:215-231 | `equals` holds iff all six fields are equal |
| BlockDescriptors.DecodeEncode | common/src/main/java/it/unipi/dii/aide/mircv/beans/BlockDescriptor.java:109-119 | the 32-byte record, read in the order it is written (docidSize, numPostings, maxDocid, docidOffset, freqOffset, freqSize), gives the descriptor back |
| BlockDescriptors.BlockDescriptorFile.SetMemoryOffset | common/src/main/java/it/unipi/dii/aide/mircv/beans/BlockDescriptor.java:238-240 | sets the shared offset that the next save uses, and nothing else |
| BlockDescriptors.BlockDescriptorFile.SaveBlockDescriptorOnDisk | common/src/main/java/it/unipi/dii/aide/mircv/beans/BlockDescriptor.java:109-128 | on success writes the 32-byte record at the shared offset and advances it by 32; on failure returns false with file and offset unchanged |
| BlockDescriptors.LayoutExtends | common/src/main/java/it/unipi/dii/aide/mircv/beans/BlockDescriptor.java:104-121 | a save at offset `32n` into the layout of `n` descriptors gives the layout of the `n + 1`; with `SaveBlockDescriptorOnDisk` (write at the offset, offset += 32) successive saves from offset 0 build `Layout` |
| BlockDescriptors.LayoutAt | common/src/main/java/it/unipi/dii/aide/mircv/beans/BlockDescriptor.java:104-121 | in the layout of saved descriptors, descriptor `i` is at bytes `[32i, 32i+32)` |
| BlockDescriptors.GetBlockPostings | common/src/main/java/it/unipi/dii/aide/mircv/beans/BlockDescriptor.java:135-183 | returns exactly numPostings postings, decoded from the two regions (compressed: variable-byte docids paired with unary frequencies; plain: consecutive 4-byte ints), or null after an I/O failure |
| BlockDescriptors.CompressedBlockRoundTrip | common/src/main/java/it/unipi/dii/aide/mircv/beans/BlockDescriptor.java:156-172 | in compressed mode, regions holding the codings of the docids and frequencies give posting `i` = (docid `i`, frequency `i`) |
| BlockDescriptors.PlainBlockRoundTrip | common/src/main/java/it/unipi/dii/aide/mircv/beans/BlockDescriptor.java:173-177 | in plain mode, regions of 4-byte ints give posting `i` = (docid `i`, frequency `i`) |
| PostingText.ParsePostings | common/src/main/java/it/unipi/dii/aide/mircv/beans/PostingList.java:83-89 | one posting per space-separated `docid:freq` element, in order |
| PostingText.RowRoundTrip | common/src/main/java/it/unipi/dii/aide/mircv/beans/PostingList.java:66-89 | a row written as term, tab and `docid:freq` postings parses back to that term and those postings |
| CommonPostingList.PostingList.constructor | common/src/main/java/it/unipi/dii/aide/mircv/beans/PostingList.java:66-70 | the term is the text before the first tab; the postings are those parsed after it, or none without a tab |
| CommonPostingList.PostingList.AppendPostings | common/src/main/java/it/unipi/dii/aide/mircv/beans/PostingList.java:103-105 | the new postings follow the old ones, unchanged and in order; nothing else changes |
| CommonPostingList.PostingList.UpdateBM25Params | common/src/main/java/it/unipi/dii/aide/mircv/beans/PostingList.java:113-120 | (dl, tf) is replaced only when `tf/(length+tf)` strictly exceeds the stored ratio |
| Bm25.Update | common/src/main/java/it/unipi/dii/aide/mircv/beans/PostingList.java:113-120 | the witness changes only on a strict improvement of the ratio, and then to the candidate; a non-NaN witness keeps the larger ratio |
| Bm25.RunningMax | common/src/main/java/it/unipi/dii/aide/mircv/beans/PostingList.java:113-120 | after a sequence of updates the witness has a ratio no smaller than the start's and any candidate's, and is the start or one of the candidates |
| CommonPostingList.PostingList.OpenPostingList | common/src/main/java/it/unipi/dii/aide/mircv/beans/PostingList.java:125-139 | with block descriptors read, both iterators restart; when the read fails nothing changes |
| CommonPostingList.PostingList.Next | common/src/main/java/it/unipi/dii/aide/mircv/beans/PostingList.java:146-166 | moves the cursor as one step of iterating the blocks' postings |
| CommonPostingList.NextPops | common/src/main/java/it/unipi/dii/aide/mircv/beans/PostingList.java:146-166 | `next` returns the first posting still to come and leaves the rest; at the end it returns null with `currentPosting = null` |
| CommonPostingList.PostingList.GetCurrentPosting | common/src/main/java/it/unipi/dii/aide/mircv/beans/PostingList.java:173-175 | the cursor's current posting |
| CommonPostingList.PostingList.NextGEQ | common/src/main/java/it/unipi/dii/aide/mircv/beans/PostingList.java:184-217 | moves the cursor as the block skip followed by the scan of the block's postings |
| CommonPostingList.PostingList.MoveToBlock | common/src/main/java/it/unipi/dii/aide/mircv/beans/PostingList.java:190-200 | the loop takes blocks until one has `maxDocid >= target` or none is left, and reports whether it moved |
| CommonPostingList.SkipBlocksStops | common/src/main/java/it/unipi/dii/aide/mircv/beans/PostingList.java:190-200 | every block passed has `maxDocid` below the target, passed blocks are never revisited, and a block already reaching the target is kept |
| CommonPostingList.PostingList.ScanPostings | common/src/main/java/it/unipi/dii/aide/mircv/beans/PostingList.java:211-216 | the scan loop moves the cursor to the first posting at least the target |
| CommonPostingList.ScanFinds | common/src/main/java/it/unipi/dii/aide/mircv/beans/PostingList.java:211-216 | the scan stops right after the first posting at least the target, or runs out with every posting scanned below it |
| CommonPostingList.NextGEQSkips | common/src/main/java/it/unipi/dii/aide/mircv/beans/PostingList.java:184-217 | `nextGEQ` returns a posting at least the target and sets `currentPosting` to it, skipping only blocks whose `maxDocid` is below the target |
| CommonPostingList.NextGEQFindsFirst | common/src/main/java/it/unipi/dii/aide/mircv/beans/PostingList.java:184-217 | when the postings already consumed are below the target, `nextGEQ` returns the first remaining posting at least the target and leaves those after it, or null when there is none |
| CommonPostingList.FirstGEQSpec | common/src/main/java/it/unipi/dii/aide/mircv/beans/PostingList.java:211-214 | the index `nextGEQ` stops at: every posting before it is below the target and the one at it, if any, is not |
| CommonPostingList.PrintSplit | common/src/main/java/it/unipi/dii/aide/mircv/beans/PostingList.java:291-297 | one block of n postings for `n <= 1024`; otherwise `ceil(sqrt n)` blocks of `ceil(n/blocks)` postings |
| CommonPostingList.PostingList.ToStringPosting | common/src/main/java/it/unipi/dii/aide/mircv/beans/PostingList.java:282-324 | the two strings are `term -> ` and the blocks of docids (frequencies), separated by ` \| `, each block's numbers by `, ` |
| CommonPostingList.ChunksCover | common/src/main/java/it/unipi/dii/aide/mircv/beans/PostingList.java:294-322 | the printed blocks, concatenated, are exactly the postings in order |
| CommonPostingList.ChunkSize | common/src/main/java/it/unipi/dii/aide/mircv/beans/PostingList.java:299-315 | every block has at most the block size of postings; only the last can be shorter |
| CommonVocabularyEntry.MaxTfIsMax | common/src/main/java/it/unipi/dii/aide/mircv/beans/VocabularyEntry.java:172-183 | the maximum kept is at least the old value and every frequency, and is one of them |
| CommonVocabularyEntry.VocabularyEntry.UpdateStatistics | common/src/main/java/it/unipi/dii/aide/mircv/beans/VocabularyEntry.java:172-183 | df grows by the number of postings (in `int` arithmetic) and maxTf becomes the maximum of the old value and all frequencies |
| CommonVocabularyEntry.VocabularyEntry.UpdateBM25Statistics | common/src/main/java/it/unipi/dii/aide/mircv/beans/VocabularyEntry.java:102-110 | (dl, tf) is replaced only on a strict improvement of `tf/(dl+tf)`; nothing else changes |
| CommonVocabularyEntry.VocabularyEntry.ComputeBlocksInformation | common/src/main/java/it/unipi/dii/aide/mircv/beans/VocabularyEntry.java:365-370 | one block when docidSize < 1024, otherwise `ceil(sqrt(df))` |
| CommonVocabularyEntry.VocabularyEntry.GetMaxNumberOfPostingsInBlock | common/src/main/java/it/unipi/dii/aide/mircv/beans/VocabularyEntry.java:376-378 | `ceil(df/numBlocks)`, so `numBlocks` blocks of this size hold the df postings and one fewer per block would not |
| CommonVocabularyEntry.BlockSplit | common/src/main/java/it/unipi/dii/aide/mircv/beans/VocabularyEntry.java:365-378 | for `df >= 1`, the `ceil(sqrt df)` blocks of `ceil(df/blocks)` postings cover df, none of them empty |
| CommonVocabularyEntry.VocabularyEntry.WriteEntryToDisk | common/src/main/java/it/unipi/dii/aide/mircv/beans/VocabularyEntry.java:233-279 | writes the 140-byte record at the position and returns position+140, or -1 on failure with the file unchanged |
| CommonVocabularyEntry.Record | common/src/main/java/it/unipi/dii/aide/mircv/beans/VocabularyEntry.java:243-271 | the record is exactly 140 bytes: the NUL-padded term in 64 bytes, then df, idf, maxTf, BM25Dl, BM25Tf, maxBM25, maxTFIDF, docidOffset, frequencyOffset, docidSize, frequencySize, numBlocks, blockOffset |
| CommonVocabularyEntry.Decoded | common/src/main/java/it/unipi/dii/aide/mircv/beans/VocabularyEntry.java:302-337 | a record yields no entry exactly when it is all zeros; otherwise an entry with a term |
| CommonVocabularyEntry.RecordRoundTrip | common/src/main/java/it/unipi/dii/aide/mircv/beans/VocabularyEntry.java:243-337 | reading a written record restores every field, for an ASCII term shorter than 64 characters with no NUL |
| CommonVocabularyEntry.VocabularyEntry.ReadFromDisk | common/src/main/java/it/unipi/dii/aide/mircv/beans/VocabularyEntry.java:287-345 | -1 on failure; 0 with no field set for an all-zero record; otherwise offset+140 with every field read in the write order |
| CommonVocabularyEntry.VocabularyEntry.ReadBlocks | common/src/main/java/it/unipi/dii/aide/mircv/beans/VocabularyEntry.java:527-557 | numBlocks consecutive 32-byte records from blockOffset, in order, each read as docidOffset, freqOffset, docidSize, freqSize, maxDocid, numPostings; null on failure |
| CommonVocabularyEntry.ReadOrderDiffers | common/src/main/java/it/unipi/dii/aide/mircv/beans/VocabularyEntry.java:545-550 | a descriptor written by `saveBlockDescriptorOnDisk` does not always read back equal |
| Vocabularies.Search | common/src/main/java/it/unipi/dii/aide/mircv/beans/Vocabulary.java:104-138 | any entry the binary search returns has the term searched for |
| Vocabularies.SearchStep | common/src/main/java/it/unipi/dii/aide/mircv/beans/Vocabulary.java:115-136 | one iteration: a probe without a term gives null at once, an equal term ends the search, and otherwise the search goes on in `[mid+1, end]` or `[start, mid-1]`, both smaller |
| Vocabularies.Midpoint | common/src/main/java/it/unipi/dii/aide/mircv/beans/Vocabulary.java:115-119 | every probe is at a record `start <= mid <= end` of the interval |
| Vocabularies.SearchSorted | common/src/main/java/it/unipi/dii/aide/mircv/beans/Vocabulary.java:104-138 | on a term-sorted file of records, `findEntry` returns the entry with the term when one exists, and null when none does |
| Vocabularies.FindEntry | common/src/main/java/it/unipi/dii/aide/mircv/beans/Vocabulary.java:104-138 | the loop, reading the record at `mid*140` into one reused entry, computes the binary search |
| Vocabularies.Vocabulary.GetEntry | common/src/main/java/it/unipi/dii/aide/mircv/beans/Vocabulary.java:58-71 | a cached term returns the cached entry with no search; otherwise the search's result, cached only when it is non-null |
| Vocabularies.Vocabulary.Put | common/src/main/java/it/unipi/dii/aide/mircv/beans/Vocabulary.java:64 | maps the term to the entry, appending the term to the keys only when it is new |
| Vocabularies.Vocabulary.ReadFromDisk | common/src/main/java/it/unipi/dii/aide/mircv/beans/Vocabulary.java:76-97 | puts and caches, in file order, the entries read until a record yields 0 or no term, and returns true |
| Vocabularies.FileEntriesOfRecords | common/src/main/java/it/unipi/dii/aide/mircv/beans/Vocabulary.java:76-97 | reading a file of written records loads exactly those entries, in order |
| Vocabularies.Vocabulary.ClearCache | common/src/main/java/it/unipi/dii/aide/mircv/beans/Vocabulary.java:150-152 | the cache is empty and the map is kept |
| DocumentIndexEntries.Record | common/src/main/java/it/unipi/dii/aide/mircv/beans/DocumentIndexEntry.java:123-135 | the record is exactly 72 bytes: the 64-byte NUL-padded pid, then docid and docLen as 4-byte ints |
| DocumentIndexEntries.Read | common/src/main/java/it/unipi/dii/aide/mircv/beans/DocumentIndexEntry.java:163-188 | an all-NUL pid field leaves the entry as it was; otherwise a pid and two `int`s are read |
| DocumentIndexEntries.RecordRoundTrip | common/src/main/java/it/unipi/dii/aide/mircv/beans/DocumentIndexEntry.java:123-188 | reading a record written at an offset restores pid, docid and docLen, for ASCII pids shorter than 64 characters with no NUL |
| DocumentIndexEntries.EmptyPidReadsNothing | common/src/main/java/it/unipi/dii/aide/mircv/beans/DocumentIndexEntry.java:170-172 | a record with an empty pid reads back as the entry's old fields |
| DocumentIndexEntries.DocumentIndexFile.ResetOffset | common/src/main/java/it/unipi/dii/aide/mircv/beans/DocumentIndexEntry.java:243-245 | the shared offset becomes 0 and the file is kept |
| DocumentIndexEntries.DocumentIndexEntry.WriteToDisk | common/src/main/java/it/unipi/dii/aide/mircv/beans/DocumentIndexEntry.java:109-148 | on success returns the offset before writing, writes the record there and advances the shared offset by exactly 72; on failure -1 with offset and file unchanged |
| DocumentIndexEntries.WriteExtends | common/src/main/java/it/unipi/dii/aide/mircv/beans/DocumentIndexEntry.java:117-141 | after a reset, successive writes land at 0, 72, 144, … and extend the file by one record each |
| DocumentIndexEntries.LayoutAt | common/src/main/java/it/unipi/dii/aide/mircv/beans/DocumentIndexEntry.java:117-141 | entry `i` of a run of writes is at bytes `[72i, 72i+72)` |
| DocumentIndexEntries.DocumentIndexEntry.ReadFromDisk | common/src/main/java/it/unipi/dii/aide/mircv/beans/DocumentIndexEntry.java:155-193 | returns whether the read succeeded; the fields become what the record holds, or stay as they were for an empty pid or a failure |
| DocumentIndexEntries.DocumentIndexEntry.Equals | common/src/main/java/it/unipi/dii/aide/mircv/beans/DocumentIndexEntry.java:229-238 | `equals` holds iff the object is this entry or an entry with equal docid, docLen and pid |
| DocumentIndexEntries.EqualsEquivalence | common/src/main/java/it/unipi/dii/aide/mircv/beans/DocumentIndexEntry.java:229-238 | `equals` is reflexive, symmetric and transitive |
| DocumentIndexEntries.MapChannel | common/src/main/java/it/unipi/dii/aide/mircv/beans/DocumentIndexEntry.java:111-117 | a mapping succeeds iff the channel was opened for reading and, for a mode other than READ_ONLY, for writing |
| DocumentIndexEntries.WriteAsWritten | common/src/main/java/it/unipi/dii/aide/mircv/beans/DocumentIndexEntry.java:111-117 | with the channel as opened (WRITE, CREATE, APPEND), every write that reaches the mapping throws |
| DocumentIndexEntries.FirstEntryThrows | common/src/main/java/it/unipi/dii/aide/mircv/beans/DocumentIndexEntry.java:111-117 | the first entry of a collection throws as written, and is written at offset 0 with the reader's options |
| DocumentIndexEntries.WriteCorrected | common/src/main/java/it/unipi/dii/aide/mircv/beans/DocumentIndexEntry.java:109-148 | with a readable channel, a storable entry is written at the current offset, a pid the record cannot hold throws, and an I/O failure gives -1 |
| DocumentIndexes.DocumentIndex.LoadFromDisk | common/src/main/java/it/unipi/dii/aide/mircv/beans/DocumentIndex.java:53-72 | the loop reads entry i at `i*72` for i in `[0, numDocs)` in order, stores each under its docid, stops at the first failed read |
| DocumentIndexes.LoadFromIs | common/src/main/java/it/unipi/dii/aide/mircv/beans/DocumentIndex.java:53-72 | the result is true iff no read fails, and the map gains exactly the entries read before the first failure |
| DocumentIndexes.LoadLayout | common/src/main/java/it/unipi/dii/aide/mircv/beans/DocumentIndex.java:53-72 | loading a file written by successive `writeToDisk` calls for distinct docids succeeds and finds every entry under its docid |
| DocumentIndexes.DocumentIndex.GetPid | common/src/main/java/it/unipi/dii/aide/mircv/beans/DocumentIndex.java:36-38 | the pid of the entry stored under the docid |
| DocumentIndexes.DocumentIndex.GetLength | common/src/main/java/it/unipi/dii/aide/mircv/beans/DocumentIndex.java:45-47 | the docLen of the entry stored under the docid |
| IndexerPostingList.PostingList.constructor | indexer/src/main/java/it/unipi/dii/aide/mircv/beans/PostingList.java:25-40 | the term before the first tab and, only with a tab, the `docid:freq` postings after it, in order |
| IndexerPostingList.PostingList.AppendPostings | indexer/src/main/java/it/unipi/dii/aide/mircv/beans/PostingList.java:54-56 | the new postings follow the old ones |
| IndexerPostingList.PostingList.NumBytes | indexer/src/main/java/it/unipi/dii/aide/mircv/beans/PostingList.java:102-104 | `8 *` the number of postings, as an `int` |
| IndexerPostingList.PostingList.SaveToDisk | indexer/src/main/java/it/unipi/dii/aide/mircv/beans/PostingList.java:63-96 | returns numBytes after writing the postings, or -1 on failure with the file unchanged |
| IndexerPostingList.SavedLayout | indexer/src/main/java/it/unipi/dii/aide/mircv/beans/PostingList.java:66-87 | the docids are 4-byte ints at `[off, off+4n)`, then the frequencies at `[off+4n, off+8n)`, in the same order; the rest of the file is unchanged |
| IndexerPostingList.SavedReadsBack | indexer/src/main/java/it/unipi/dii/aide/mircv/beans/PostingList.java:66-87 | a plain block descriptor for the saved regions reads the postings back |
| IndexerVocabularyEntry.VocabularyEntry.constructor | indexer/src/main/java/it/unipi/dii/aide/mircv/beans/VocabularyEntry.java:69-76 | the termid is the counter's value and the counter is incremented, so successive entries get consecutive termids |
| IndexerVocabularyEntry.VocabularyEntry.UpdateStatistics | indexer/src/main/java/it/unipi/dii/aide/mircv/beans/VocabularyEntry.java:83-92 | tf grows by the sum of the frequencies and df by the number of postings |
| IndexerVocabularyEntry.UpdatedTwice | indexer/src/main/java/it/unipi/dii/aide/mircv/beans/VocabularyEntry.java:83-92 | updating with two lists is updating with their concatenation |
| IndexerVocabularyEntry.VocabularyEntry.SetMemorySize | indexer/src/main/java/it/unipi/dii/aide/mircv/beans/VocabularyEntry.java:131-133 | changes only memorySize |
| IndexerVocabularyEntry.VocabularyEntry.SetMemoryOffset | indexer/src/main/java/it/unipi/dii/aide/mircv/beans/VocabularyEntry.java:135-137 | changes only memoryOffset |
| ProcessedDocuments.ProcessedDocument.constructor | common/src/main/java/it/unipi/dii/aide/mircv/beans/ProcessedDocument.java:27-30 | keeps the pid and the tokens, in order |
| ProcessedDocuments.ProcessedDocument.ToString | common/src/main/java/it/unipi/dii/aide/mircv/beans/ProcessedDocument.java:69-86 | the string the `StringBuilder` loop builds is the pid, a tab, the tokens joined by single commas, and a newline |
| ProcessedDocuments.RenderedShape | common/src/main/java/it/unipi/dii/aide/mircv/beans/ProcessedDocument.java:69-86 | it starts with the pid and a tab and ends with a newline; with no tokens it is exactly pid + "\t\n" |
| ProcessedDocuments.RenderedParses | common/src/main/java/it/unipi/dii/aide/mircv/beans/ProcessedDocument.java:78-85 | splitting the line at the tab and the tokens at commas gives pid and tokens back: no trailing comma |
| ProcessedDocumentDTOs.ProcessedDocumentDTO.ToString | common/src/main/java/it/unipi/dii/aide/mircv/dto/ProcessedDocumentDTO.java:70-89 | the decimal pid, a tab, the tokens joined by single commas, and a newline; pid + "\t\n" for no tokens |
| ProcessedDocumentDTOs.DecimalPidParses | common/src/main/java/it/unipi/dii/aide/mircv/dto/ProcessedDocumentDTO.java:71-87 | the line splits at its one tab into a field that parses back to the pid |
| SpimiIndex.AddOccurrenceEffect | indexer/src/main/java/it/unipi/dii/aide/mircv/algorithms/Spimi.java:179-193 | an occurrence for the last posting's docid raises its frequency by 1 and appends nothing; otherwise `(docid, 1)` is appended; the list stays strictly increasing |
| SpimiAlgorithm.Spimi.UpdateOrAddPosting | indexer/src/main/java/it/unipi/dii/aide/mircv/algorithms/Spimi.java:179-193 | the term's postings get the occurrence and numPostings grows by the number of postings appended |
| SpimiAlgorithm.Spimi.UpdateBM25Params | indexer/src/main/java/it/unipi/dii/aide/mircv/algorithms/Spimi.java:283 | offers the list's witness the document length and the list's posting count |
| SpimiIndex.UpdateIdempotent | indexer/src/main/java/it/unipi/dii/aide/mircv/algorithms/Spimi.java:283 | offering the same candidate twice is offering it once |
| SpimiAlgorithm.Spimi.AddToken | indexer/src/main/java/it/unipi/dii/aide/mircv/algorithms/Spimi.java:266-284 | one token: a blank term is skipped; otherwise the list is created if missing, gets the occurrence, and its witness is updated |
| SpimiAlgorithm.Spimi.AddDocument | indexer/src/main/java/it/unipi/dii/aide/mircv/algorithms/Spimi.java:266-284 | the loop over the document's tokens performs each token's step in order |
| SpimiIndex.AddTermsEffect | indexer/src/main/java/it/unipi/dii/aide/mircv/algorithms/Spimi.java:266-285 | each non-blank term of a document gets one posting `(docid, occurrences in the document)` at the end of its list; blank terms and other lists are untouched; numPostings grows by the number of distinct terms |
| SpimiIndex.AddTermsSane | indexer/src/main/java/it/unipi/dii/aide/mircv/algorithms/Spimi.java:179-285 | with increasing docids every posting list stays strictly increasing in docid, with frequencies between 1 and the document length |
| SpimiIndex.AddTermsCounts | indexer/src/main/java/it/unipi/dii/aide/mircv/algorithms/Spimi.java:189-192 | numPostings stays the number of postings in the partial index |
| SpimiFlush.SortKeys | indexer/src/main/java/it/unipi/dii/aide/mircv/algorithms/Spimi.java:98-104 | the terms of the index in ascending order, each once |
| SpimiFlush.SortedKeysUnique | indexer/src/main/java/it/unipi/dii/aide/mircv/algorithms/Spimi.java:98-104 | there is only one ascending order of the terms |
| SpimiFlush.EntryFor | indexer/src/main/java/it/unipi/dii/aide/mircv/algorithms/Spimi.java:134-149 | the vocabulary entry of a list: both offsets at the docid buffer position, df and maxTf of the list, its BM25 witness, and sizes `4 * numPostings` |
| SpimiFlush.FlushWritten | indexer/src/main/java/it/unipi/dii/aide/mircv/algorithms/Spimi.java:88-162 | a successful flush writes all docids, then all frequencies, as 4-byte ints in term order, and one vocabulary record per term |
| SpimiFlush.FlushedEntries | indexer/src/main/java/it/unipi/dii/aide/mircv/algorithms/Spimi.java:132-151 | the vocabulary records are sorted by term and each locates its term's postings in the two files |
| SpimiFlush.FlushOutcome | indexer/src/main/java/it/unipi/dii/aide/mircv/algorithms/Spimi.java:107-169 | a failed open fails the flush; a failed record write before the last throws; otherwise the flush succeeds |
| SpimiAlgorithm.Spimi.SaveIndexToDisk | indexer/src/main/java/it/unipi/dii/aide/mircv/algorithms/Spimi.java:88-170 | an empty index returns true with nothing changed; a written flush increments numIndex, resets numPostings and keeps the files; a failure changes no counter |
| SpimiAlgorithm.Spimi.Rollback | indexer/src/main/java/it/unipi/dii/aide/mircv/algorithms/Spimi.java:76-81 | every partial file and the document index file are removed |
| SpimiAlgorithm.Spimi.ProcessLine | indexer/src/main/java/it/unipi/dii/aide/mircv/algorithms/Spimi.java:230-285 | one line moves the run as the line step does: a blank line or one without tokens changes nothing, any other gets the next docid, a record and its terms |
| SpimiAlgorithm.Spimi.FlushStep | indexer/src/main/java/it/unipi/dii/aide/mircv/algorithms/Spimi.java:291-299 | a flush moves the run as the flush step does: on failure a rollback, after success an empty index |
| SpimiAlgorithm.Spimi.Fill | indexer/src/main/java/it/unipi/dii/aide/mircv/algorithms/Spimi.java:219-288 | the inner loop processes lines until memory runs low, the collection ends or the run stops |
| SpimiAlgorithm.Spimi.Run | indexer/src/main/java/it/unipi/dii/aide/mircv/algorithms/Spimi.java:216-300 | the outer loop reaches the final state of the run: every line processed and the partial index flushed at each low-memory point and at the end |
| SpimiAlgorithm.Spimi.ExecuteSpimi | indexer/src/main/java/it/unipi/dii/aide/mircv/algorithms/Spimi.java:201-312 | returns what the final state gives; records collection size `docid - 1` and the total length |
| SpimiAlgorithm.ReturnedPartials | indexer/src/main/java/it/unipi/dii/aide/mircv/algorithms/Spimi.java:291-307 | -1 after a failed flush, 0 after an exception or a failed statistics save, else the number of partial indexes written |
| SpimiAlgorithm.StepsShape | indexer/src/main/java/it/unipi/dii/aide/mircv/algorithms/Spimi.java:208-285 | docids are consecutive from 1, so at most one per line, and every posting list stays strictly increasing |
| SpimiAlgorithm.StepsCounted | indexer/src/main/java/it/unipi/dii/aide/mircv/algorithms/Spimi.java:160-192 | numPostings is always the number of postings in the partial index |
| SpimiAlgorithm.FlushAtWritten | indexer/src/main/java/it/unipi/dii/aide/mircv/algorithms/Spimi.java:88-162 | a successful flush of a non-empty index adds the partial files of its lists in term order, empties the index, resets numPostings and increments numIndex |
| SpimiAlgorithm.StripNonAscii | indexer/src/main/java/it/unipi/dii/aide/mircv/algorithms/Spimi.java:237 | only ASCII characters remain |
| DAAT.Initialize | queryHandler/src/main/java/queryProcessing/DAAT.java:14-19 | every opened list is moved to its first posting |
| DAAT.NextRefines | common/src/main/java/it/unipi/dii/aide/mircv/beans/PostingList.java:146-166 | the cursor's `next` moves the list DAAT sees by one posting |
| DAAT.NextGEQRefines | common/src/main/java/it/unipi/dii/aide/mircv/beans/PostingList.java:184-217 | the cursor's `nextGEQ`, called as DAAT calls it below the target, moves the list DAAT sees to the first posting at least the target |
| DAAT.NextGEQ | queryHandler/src/main/java/queryProcessing/DAAT.java:34-72 | the alignment loop, which restarts at i = -1 whenever the candidate rises, computes the alignment |
| DAAT.AlignMatches | queryHandler/src/main/java/queryProcessing/DAAT.java:37-71 | the candidate only rises; a result other than -1 has every non-null list's current posting at exactly that docid |
| DAAT.AlignFindsCommon | queryHandler/src/main/java/queryProcessing/DAAT.java:34-72 | for sorted lists, the aligned docid is the smallest docid at least the start in every list, or -1 when a list has none such |
| DAAT.NextDocToProcess | queryHandler/src/main/java/queryProcessing/DAAT.java:81-107 | computes the next document: the minimum in disjunctive mode, the alignment from the maximum in conjunctive mode |
| DAAT.DisjunctiveNext | queryHandler/src/main/java/queryProcessing/DAAT.java:81-106 | disjunctive mode returns the minimum current docid over non-null lists, or -1 when all are exhausted |
| DAAT.LowestIsLeast | queryHandler/src/main/java/queryProcessing/DAAT.java:85-102 | the disjunctive scan keeps the minimum of the docids seen |
| DAAT.HighestIsGreatest | queryHandler/src/main/java/queryProcessing/DAAT.java:85-102 | the conjunctive scan starts the alignment from the largest current docid |
| DAAT.ScoreDocument | queryHandler/src/main/java/queryProcessing/DAAT.java:116-132 | the score is the sum over exactly the lists at the docid, and exactly those lists advance by one |
| DAAT.AdvancedWeight | queryHandler/src/main/java/queryProcessing/DAAT.java:119-130 | scoring a document some list is at leaves strictly fewer postings to come |
| DAAT.NextDocProgress | queryHandler/src/main/java/queryProcessing/DAAT.java:81-107 | choosing the next document never adds postings to come, and a docid found is some list's current one |
| DAAT.ScoreHeap.Peek | queryHandler/src/main/java/queryProcessing/DAAT.java:160 | an entry of smallest score, or null for an empty heap |
| DAAT.ScoreHeap.Poll | queryHandler/src/main/java/queryProcessing/DAAT.java:165 | removes and returns an entry of smallest score, or null for an empty heap |
| DAAT.ScoreHeap.Add | queryHandler/src/main/java/queryProcessing/DAAT.java:168-174 | the heap gains the entry |
| DAAT.Offer | queryHandler/src/main/java/queryProcessing/DAAT.java:156-175 | a heap below k takes the document; a full heap takes it only when its score strictly exceeds the minimum, which is evicted |
| DAAT.OfferKeepsBest | queryHandler/src/main/java/queryProcessing/DAAT.java:156-175 | after each offer the heap holds the k best scores of the documents processed, never more than k |
| DAAT.ScoreQuery | queryHandler/src/main/java/queryProcessing/DAAT.java:141-183 | the loop terminates; the documents processed are those of the evaluation in docid order; the heap holds the k best of them |
| DAAT.EvaluationEnumerates | queryHandler/src/main/java/queryProcessing/DAAT.java:148-179 | the evaluation processes, in increasing order, exactly the docids in some list (disjunctive) or in every list (conjunctive) |
| DAAT.ScoresAsked | queryHandler/src/main/java/queryProcessing/DAAT.java:141-179 | from freshly opened lists, the documents scored are exactly those that the mode asks for |
| QueryProcessing.DistinctSpec | queryHandler/src/main/java/queryProcessing/QueryProcesser.java:49-51 | the distinct terms are the query's terms, each once, in the order of their first occurrences |
| QueryProcessing.AllHaveSpec | queryHandler/src/main/java/queryProcessing/QueryProcesser.java:53-60 | the conjunctive check passes iff every term has an entry |
| QueryProcessing.KeptMembers | queryHandler/src/main/java/queryProcessing/QueryProcesser.java:53-66 | the terms given a list are exactly the terms that have an entry |
| QueryProcessing.KeptAll | queryHandler/src/main/java/queryProcessing/QueryProcesser.java:53-66 | when every term has an entry, every term gets a list, in order |
| QueryProcessing.Consult | queryHandler/src/main/java/queryProcessing/QueryProcesser.java:54-64 | the lookup gives the cached entry or the search result, and the vocabulary then holds every entry found so far |
| QueryProcessing.Visit | queryHandler/src/main/java/queryProcessing/QueryProcesser.java:53-66 | one term: a found term adds one fresh list for it at the end; a missing term adds nothing |
| QueryProcessing.GetQueryPostings | queryHandler/src/main/java/queryProcessing/QueryProcesser.java:43-68 | null iff conjunctive and some distinct term is missing, after looking up exactly the terms up to the first missing one; otherwise one new list per found distinct term, in order, with the vocabulary holding their entries |
| QueryProcessing.PollStep | queryHandler/src/main/java/queryProcessing/QueryProcesser.java:79-83 | polling the heap's minimum keeps the entries polled in non-increasing score order, none below those still queued |
| QueryProcessing.DrainStep | queryHandler/src/main/java/queryProcessing/QueryProcesser.java:79-83 | writing the polled entry's pid into slot i extends the filled slots downwards |
| QueryProcessing.Drained | queryHandler/src/main/java/queryProcessing/QueryProcesser.java:79-85 | when i reaches -1 the heap is empty and the slots rank all its entries |
| QueryProcessing.LookupPid | queryHandler/src/main/java/queryProcessing/QueryProcesser.java:76-86 | an array of length k; slot j holds the pid of the heap entry ranked j-th by score, best first, and slots from the heap size on are null |
| QueryProcessing.KeptCommon | queryHandler/src/main/java/queryProcessing/QueryProcesser.java:109-110 | the conjunctive evaluation keeps at most k documents, each in the postings of every term |
| QueryProcessing.ScoreConjunctive | queryHandler/src/main/java/queryProcessing/QueryProcesser.java:109-110 | the DAAT call in conjunctive mode returns a heap of the k best conjunctive scores, of documents in every list |
| QueryProcessing.Rank | queryHandler/src/main/java/queryProcessing/QueryProcesser.java:108-114 | without max-score, the pids of the k best conjunctive documents, best first; with max-score, the pids of the given queue's entries in rank order |
| QueryProcessing.ProcessQuery | queryHandler/src/main/java/queryProcessing/QueryProcesser.java:96-115 | null iff conjunctive with a term missing, or no list obtained; otherwise k slots ranking the top-k documents that DAAT scores in conjunctive mode, whatever the caller's flag; with max-score, the given queue's entries |

## Left out

- Preprocessing is a parameter. The regex cleaning, stemming and stopword removal of the
  three preprocessors are replaced by `preprocess` for SPIMI and by the token list for a
  query.
- Disk I/O is arbitrary success or failure flags:
  - each open, map or record write succeeds or fails (`ioOk`, `openOk`, `docOk`, `vocOk`);
  - a second mapping failure inside one operation is not modelled separately;
  - the vocabulary records of a query term that cannot be read form the set `unreadable`.
- Flush points are a parameter. The free-memory check of the SPIMI loop is
  `flushBefore(p)` for each line position.
  - With memory that stays low, Java empties the index again and again; those repeated
    flushes are not modelled.
- Collection size, total document length, vocabulary size, the compression flag and
  the max-score flag are parameters. Their Java object-stream persistence is not
  modelled; the statistics saves are the flags `sizeOk` and `lenOk`.
- Scoring is abstract:
  - `Scorer`, `computeIdf`, `computeUpperBounds` and the indexer `computeIDF` use
    floating-point logarithms. Scores are an abstract function to `real`, and double
    fields are opaque 8-byte values.
  - The ratio comparisons of the BM25 witness use exact rationals, with NaN for `0/0`;
    floating-point rounding of the quotients is not modelled.
- The vocabulary cache is a map. The LRU eviction of its 1000-entry cache is not
  modelled.
- The `MaxScore` class is not part of this model. With max-score enabled, its result
  queue is a parameter of `processQuery`.
- `QueryProcessing.ProcessQuery`: the posting lists a query reads are a parameter,
  `postingsOf`. This is what `openPostingList` and the block reads of a term give,
  increasing and with docids known to the document index.
  - The cursor over those blocks is proved separately (`CommonPostingList`,
    `DAAT.NextRefines`, `DAAT.NextGEQRefines`).
  - The idf of a term is the one the cache holds after the lookups.
  - `cleanUp`/`closePostingList` only release them and are not modelled.
- `DAAT.ScoreHeap.constructor` requires an initial capacity of at least 1, as
  `PriorityQueue` does. `processQuery` is therefore modelled for `k >= 1`.
- `DAAT.ScoreHeap.Poll`: the order among entries of equal score is left open. It
  depends on the heap's internal layout.
- `Unary.DecodeBits`: the ones counter is an unbounded integer. Java's `int` would wrap
  after 2^31 consecutive one bits.
- Posting docids and frequencies are unbounded integers wherever Java only copies them.
  Where Java does arithmetic on them, it is modelled as `int` arithmetic: the
  variable-byte accumulator, df, docsLen, the `int` sums. Inputs that do not fit in an
  `int` are excluded by the callers' preconditions.
- Runtime exceptions are preconditions: index out of bounds, `parseInt` failures, null
  dereferences. Exceptions that the code catches are modelled results.
- Text dumps are not modelled: `debugSaveToDisk`, `debugWriteToDisk` and the `toString`
  methods used only for them.
  - Also left out: the Java serialization hooks of the indexer posting list and the
    indexer `VocabularyEntry.saveToDisk` text append.
- `Merger`, MapDB loaders, the CLI, configuration, performance tests and the `loader`
  beans are outside the core and not part of this model.
- `SpimiAlgorithm.Spimi.ExecuteSpimi`: the collection is the sequence `env.lines`,
  read without failure. A failure to open the reader (`initializeBuffer`,
  Spimi.java:205) and an `IOException` from `readLine` are not modelled; Java catches
  both and returns 0 (Spimi.java:309-311).
- `SpimiAlgorithm.Spimi.ExecuteSpimi`: each partial index file is modelled as written
  into an empty file. Java opens the files with READ, WRITE, CREATE and no
  TRUNCATE_EXISTING (Spimi.java:108-122), so a longer file left by an earlier run keeps
  its bytes past the new ones. That stale tail is not modelled.
- `VariableByte.CeilLog128`: Java computes `Math.ceil(Math.log(n) / Math.log(128))` in
  doubles. The model takes the exact value, so it assumes the double quotient is
  exactly `k` at `n = 128^k` and does not cross an integer between powers of 128.
  With correctly rounded logarithms this holds on the `int` range. `Math.log` is only
  specified to within 1 ulp, though.
- `JavaText.DecodeChars`: a non-ASCII byte on disk decodes to U+FFFD, one character per
  byte. Java's UTF-8 decoder turns a valid multi-byte sequence into one character. The
  records the model writes are all ASCII (`Writable`, `Storable`).
- `CommonVocabularyEntry.VocabularyEntry.ReadBlocks` follows the read order as written,
  so no round trip with `saveBlockDescriptorOnDisk` is claimed for it; see Findings.

## Findings

| source | as written | input that shows it | evidently intended | confidence | as-written member | corrected member |
|---|---|---|---|---|---|---|
| common/src/main/java/it/unipi/dii/aide/mircv/beans/VocabularyEntry.java:545-550 | `readBlocks` reads each 32-byte descriptor as docidOffset, freqOffset, docidSize, freqSize, maxDocid, numPostings, while `saveBlockDescriptorOnDisk` (BlockDescriptor.java:114-119) writes docidSize, numPostings, maxDocid, docidOffset, freqOffset, freqSize | a descriptor whose fields are all 0 except numPostings = 1 reads back with numPostings = 0 | descriptors read back in the order they are written | high; not executed | CommonVocabularyEntry.ReadOrderDiffers | BlockDescriptors.DecodeEncode |
| common/src/main/java/it/unipi/dii/aide/mircv/beans/DocumentIndexEntry.java:111-117 | `writeToDisk` opens its channel with WRITE, CREATE, APPEND, without READ, and maps it READ_WRITE. That mapping throws NonReadableChannelException, so `executeSpimi` returns 0 at the first document | the first document of any collection, e.g. pid "doc0", docid 1, docLen 3 | the record is written at the current offset, as with the options `readFromDisk` uses (WRITE, READ, CREATE) | high; not executed | DocumentIndexEntries.FirstEntryThrows | DocumentIndexEntries.WriteCorrected |

How the corrected halves are used:
- `BlockDescriptors.DecodeInWriteOrder` is the read that matches the write order.
- The query-side cursor models take block descriptors as the values written (`Source`).
  They therefore read blocks as intended.
- `DocumentIndexEntries.DocumentIndexEntry.WriteToDisk` and the SPIMI run use
  `WriteCorrected`.
