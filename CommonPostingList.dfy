/**
 * The posting list of the query side: a term, the postings held in memory and, once
 * opened, a cursor that walks the list block by block. `next` returns postings in
 * order, loading the next block when the one in memory is used up; `nextGEQ` skips
 * every block whose largest docid is below the target without reading its postings.
 * The list is also built while indexing, where it accumulates postings and the BM25
 * witness.
 *
 * The cursor is described on values (`Cursor`, `Source`) by `NextStep` and
 * `NextGEQStep`; the class's methods keep the Java loops and are proved to move their
 * fields as those functions say. What the iteration yields is proved about the
 * functions: the postings of the blocks, in order (`NextPops`), and the first one at
 * least the target (`NextGEQFindsFirst`).
 */
module CommonPostingList {
  import opened Bytes
  import opened Wrappers
  import opened JavaText
  import opened JavaMath
  import opened Postings
  import opened PostingText
  import opened BlockDescriptors
  import opened Bm25

  /** What the blocks iterator walks: the block descriptors and, for each, the postings
      that reading it yields. */
  datatype Source = Source(blocks: seq<BlockDescriptor>, lists: seq<seq<Posting>>)

  /** The iteration state: the postings in memory and the position of their iterator,
      the position of the blocks iterator, the last block taken and the last posting
      returned. */
  datatype Cursor = Cursor(postings: seq<Posting>, postIdx: nat, blockIdx: nat,
                           currentBlock: Option<BlockDescriptor>, currentPosting: Option<Posting>)

  /** One list of postings per block. */
  predicate Sized(s: Source)
  {
    |s.lists| == |s.blocks|
  }

  predicate Positioned(c: Cursor, s: Source)
  {
    c.postIdx <= |c.postings| && c.blockIdx <= |s.blocks|
  }

  predicate BlockReadable(blocks: seq<BlockDescriptor>, docs: seq<byte>, freqs: seq<byte>, compressed: bool, j: nat)
    requires j < |blocks|
  {
    Readable(blocks[j], docs, freqs, compressed)
  }

  /** Every block's postings can be read from the docid and frequency files. */
  predicate Loadable(blocks: seq<BlockDescriptor>, docs: seq<byte>, freqs: seq<byte>, compressed: bool)
  {
    forall j :: 0 <= j < |blocks| ==> BlockReadable(blocks, docs, freqs, compressed, j)
  }

  /** The blocks together with what `getBlockPostings` returns for each of them. */
  function Loaded(blocks: seq<BlockDescriptor>, docs: seq<byte>, freqs: seq<byte>, compressed: bool): (s: Source)
    requires Loadable(blocks, docs, freqs, compressed)
  {
    Source(blocks, seq(|blocks|, j requires 0 <= j < |blocks| =>
      assert BlockReadable(blocks, docs, freqs, compressed, j);
      BlockPostings(blocks[j], docs, freqs, compressed)))
  }

  /** Block `j` of `s` can be read from the files and reading it yields the postings
      `s` lists for it. */
  predicate BlockHeld(s: Source, docs: seq<byte>, freqs: seq<byte>, compressed: bool, j: nat)
    requires Sized(s) && j < |s.blocks|
  {
    Readable(s.blocks[j], docs, freqs, compressed) &&
    s.lists[j] == BlockPostings(s.blocks[j], docs, freqs, compressed)
  }

  /** `s` lists, for each of its blocks, what the files hold for it. */
  predicate Holds(s: Source, docs: seq<byte>, freqs: seq<byte>, compressed: bool)
  {
    Sized(s) && forall j :: 0 <= j < |s.blocks| ==> BlockHeld(s, docs, freqs, compressed, j)
  }

  /** The files determine what their blocks hold: `Loaded` is the one source over the
      blocks that `Holds`. */
  lemma LoadedHolds(blocks: seq<BlockDescriptor>, docs: seq<byte>, freqs: seq<byte>, compressed: bool, s: Source)
    requires Loadable(blocks, docs, freqs, compressed)
    ensures Holds(Loaded(blocks, docs, freqs, compressed), docs, freqs, compressed)
    ensures Holds(s, docs, freqs, compressed) && s.blocks == blocks ==> s == Loaded(blocks, docs, freqs, compressed)
  {
    var l := Loaded(blocks, docs, freqs, compressed);
    forall j | 0 <= j < |blocks|
      ensures BlockHeld(l, docs, freqs, compressed, j)
    {
      assert BlockReadable(blocks, docs, freqs, compressed, j);
    }
    if Holds(s, docs, freqs, compressed) && s.blocks == blocks {
      forall j | 0 <= j < |blocks|
        ensures s.lists[j] == l.lists[j]
      {
        assert BlockHeld(s, docs, freqs, compressed, j);
      }
    }
  }

  /** `getBlockPostings` of block `j`, as `next` and `nextGEQ` call it; the read does
      not fail. */
  method LoadBlock(ghost s: Source, docs: seq<byte>, freqs: seq<byte>, compressed: bool, bd: BlockDescriptor, ghost j: nat)
    returns (ps: seq<Posting>)
    requires Holds(s, docs, freqs, compressed) && j < |s.blocks| && bd == s.blocks[j]
    ensures ps == s.lists[j]
  {
    assert BlockHeld(s, docs, freqs, compressed, j);
    var loaded := GetBlockPostings(bd, docs, freqs, compressed, true);
    ps := loaded.value;
  }

  /** The postings of blocks `j`, `j + 1`, ..., one block after another. */
  function Tail(s: Source, j: nat): seq<Posting>
    requires Sized(s) && j <= |s.blocks|
    decreases |s.blocks| - j
  {
    if j == |s.blocks| then [] else s.lists[j] + Tail(s, j + 1)
  }

  /** What `next` produces from here on: the rest of the postings in memory, then the
      postings of every block not yet taken. */
  function Remaining(c: Cursor, s: Source): seq<Posting>
    requires Positioned(c, s) && Sized(s)
  {
    c.postings[c.postIdx..] + Tail(s, c.blockIdx)
  }

  predicate AllBelow(ps: seq<Posting>, t: int)
  {
    forall k :: 0 <= k < |ps| ==> ps[k].docid < t
  }

  /** Block `j` is laid out as the index writer lays it out, as far as skipping needs:
      it holds some postings, none above the block's `maxDocid`, and the last one
      carries it. Postings written in increasing docid order are laid out so
      (`IncreasingShaped`). */
  predicate BlockShaped(s: Source, j: nat)
    requires Sized(s) && j < |s.blocks|
  {
    var ps := s.lists[j];
    ps != [] && ps[|ps| - 1].docid == s.blocks[j].maxDocid &&
    forall k :: 0 <= k < |ps| ==> ps[k].docid <= s.blocks[j].maxDocid
  }

  /** Every block is laid out as the index writer lays it out. */
  predicate WellFormed(s: Source)
    requires Sized(s)
  {
    forall j :: 0 <= j < |s.blocks| ==> BlockShaped(s, j)
  }

  /** The postings in memory are those of the block last taken; before any block is
      taken, none are left to iterate. */
  predicate Aligned(c: Cursor, s: Source)
    requires Positioned(c, s) && Sized(s)
  {
    (c.currentBlock.Some? ==>
      1 <= c.blockIdx && c.currentBlock.value == s.blocks[c.blockIdx - 1] &&
      c.postings == s.lists[c.blockIdx - 1]) &&
    (c.currentBlock.None? ==> c.blockIdx == 0 && c.postIdx == |c.postings|)
  }

  /** The posting last returned from memory, if any, lies below `t`. */
  predicate ConsumedBelow(c: Cursor, t: int)
    requires c.postIdx <= |c.postings|
  {
    c.postIdx == 0 || c.postings[c.postIdx - 1].docid < t
  }

  /** The position of the first posting with docid at least `t` (the length if none). */
  function FirstGEQ(ps: seq<Posting>, t: int): nat
  {
    if ps == [] then 0
    else if ps[0].docid >= t then 0
    else
      1 + FirstGEQ(ps[1..], t)
  }

  /** Every posting before `FirstGEQ` lies below `t`, and the one at it, unless it is
      the end, does not. */
  lemma {:induction false} FirstGEQSpec(ps: seq<Posting>, t: int)
    ensures FirstGEQ(ps, t) <= |ps|
    ensures forall i :: 0 <= i < FirstGEQ(ps, t) ==> ps[i].docid < t
    ensures FirstGEQ(ps, t) < |ps| ==> ps[FirstGEQ(ps, t)].docid >= t
  {
    if ps != [] && ps[0].docid < t {
      FirstGEQSpec(ps[1..], t);
      forall i | 1 <= i < FirstGEQ(ps, t)
        ensures ps[i].docid < t
      {
        assert ps[i] == ps[1..][i - 1];
      }
    }
  }

  // ---------------------------------------------------------------------------
  // the cursor on values

  /** The postings iterator's `next`: the posting at the iterator becomes the current one. */
  function Advance(c: Cursor): (Cursor, Option<Posting>)
    requires c.postIdx < |c.postings|
  {
    var p := c.postings[c.postIdx];
    (c.(postIdx := c.postIdx + 1, currentPosting := Some(p)), Some(p))
  }

  /** Taking the next block and replacing the postings in memory by its postings. */
  function LoadNext(c: Cursor, s: Source): Cursor
    requires Sized(s) && c.blockIdx < |s.blocks|
  {
    c.(currentBlock := Some(s.blocks[c.blockIdx]), blockIdx := c.blockIdx + 1,
       postings := s.lists[c.blockIdx], postIdx := 0)
  }

  /** What `next` needs so that the postings iterator has an element after a block is
      loaded (a block of a well-formed list always does, see `WellFormedCanStep`). */
  predicate CanStep(c: Cursor, s: Source)
    requires Positioned(c, s) && Sized(s)
  {
    c.postIdx < |c.postings| || c.blockIdx == |s.blocks| || s.lists[c.blockIdx] != []
  }

  /** `next`. */
  function NextStep(c: Cursor, s: Source): (out: (Cursor, Option<Posting>))
    requires Positioned(c, s) && Sized(s) && CanStep(c, s)
  {
    if c.postIdx < |c.postings| then Advance(c)
    else if c.blockIdx == |s.blocks| then (c.(currentPosting := None), None)
    else Advance(LoadNext(c, s))
  }

  predicate Reached(c: Cursor, t: int)
  {
    c.currentBlock.Some? && c.currentBlock.value.maxDocid >= t
  }

  /** The first loop of `nextGEQ`: take blocks until one has `maxDocid` at least `t` or
      none is left. The postings in memory are not touched. */
  function SkipBlocks(c: Cursor, s: Source, t: int): (k: Cursor)
    requires c.blockIdx <= |s.blocks|
    ensures k.postings == c.postings && k.postIdx == c.postIdx && k.currentPosting == c.currentPosting
    ensures c.blockIdx <= k.blockIdx <= |s.blocks|
    decreases |s.blocks| - c.blockIdx
  {
    if Reached(c, t) || c.blockIdx == |s.blocks| then c
    else SkipBlocks(c.(currentBlock := Some(s.blocks[c.blockIdx]), blockIdx := c.blockIdx + 1), s, t)
  }

  /** The second loop of `nextGEQ`: advance the postings iterator until a posting with
      docid at least `t` is returned or the iterator is exhausted. */
  function Scan(c: Cursor, t: int): (out: (Cursor, Option<Posting>))
    requires c.postIdx <= |c.postings|
    ensures out.0 == c.(postIdx := out.0.postIdx, currentPosting := out.1)
    ensures c.postIdx <= out.0.postIdx <= |c.postings|
    decreases |c.postings| - c.postIdx
  {
    if c.postIdx == |c.postings| then (c.(currentPosting := None), None)
    else
      var p := c.postings[c.postIdx];
      var c1 := c.(postIdx := c.postIdx + 1, currentPosting := Some(p));
      if p.docid >= t then (c1, Some(p)) else Scan(c1, t)
  }

  /** What `nextGEQ` does once the first loop has stopped at `k`: give up when no block
      reaches `t`, otherwise load the postings of the block last taken (the current
      block) if the loop took any, and scan. */
  function Land(k: Cursor, s: Source, t: int, changed: bool): (out: (Cursor, Option<Posting>))
    requires Positioned(k, s) && Sized(s)
    requires changed ==> 1 <= k.blockIdx
  {
    if !Reached(k, t) then (k.(currentPosting := None), None)
    else if changed then Scan(k.(postings := s.lists[k.blockIdx - 1], postIdx := 0), t)
    else Scan(k, t)
  }

  /** `nextGEQ(t)`. */
  function NextGEQStep(c: Cursor, s: Source, t: int): (out: (Cursor, Option<Posting>))
    requires Positioned(c, s) && Sized(s)
    ensures Positioned(out.0, s) && c.blockIdx <= out.0.blockIdx
  {
    var k := SkipBlocks(c, s, t);
    Land(k, s, t, k.blockIdx != c.blockIdx)
  }

  /** The first loop stops at the first block from the iterator on that reaches `t`,
      or after the last block; the blocks it passes lie below `t`, and it takes none
      when the current block already reaches `t`. */
  lemma {:induction false} SkipBlocksStops(c: Cursor, s: Source, t: int)
    requires c.blockIdx <= |s.blocks|
    ensures var k := SkipBlocks(c, s, t);
      (k.blockIdx == c.blockIdx ==> k.currentBlock == c.currentBlock) &&
      (k.blockIdx > c.blockIdx ==> k.currentBlock == Some(s.blocks[k.blockIdx - 1])) &&
      (forall j :: c.blockIdx <= j < k.blockIdx - 1 ==> s.blocks[j].maxDocid < t) &&
      (!Reached(k, t) ==> k.blockIdx == |s.blocks|) &&
      (Reached(c, t) ==> k == c)
    decreases |s.blocks| - c.blockIdx
  {
    if !Reached(c, t) && c.blockIdx < |s.blocks| {
      SkipBlocksStops(c.(currentBlock := Some(s.blocks[c.blockIdx]), blockIdx := c.blockIdx + 1), s, t);
    }
  }

  /** The scan returns the first posting from the iterator on with docid at least `t`,
      leaving the iterator just after it, or null with the iterator at the end when
      there is none. */
  lemma {:induction false} ScanFinds(c: Cursor, t: int)
    requires c.postIdx <= |c.postings|
    ensures var out := Scan(c, t);
      (out.1.Some? ==>
        c.postIdx < out.0.postIdx && c.postings[out.0.postIdx - 1] == out.1.value && out.1.value.docid >= t &&
        forall k :: c.postIdx <= k < out.0.postIdx - 1 ==> c.postings[k].docid < t) &&
      (out.1.None? ==>
        out.0.postIdx == |c.postings| && forall k :: c.postIdx <= k < |c.postings| ==> c.postings[k].docid < t)
    decreases |c.postings| - c.postIdx
  {
    if c.postIdx < |c.postings| && c.postings[c.postIdx].docid < t {
      ScanFinds(c.(postIdx := c.postIdx + 1, currentPosting := Some(c.postings[c.postIdx])), t);
    }
  }

  /** `nextGEQ` never goes back over blocks and skips only blocks below `t`; a returned
      posting is the current one, is at least `t` and lies in a block that reaches `t`,
      and a null result with no block reaching `t` means every block after the
      iterator lies below `t`. */
  lemma NextGEQSkips(c: Cursor, s: Source, t: int)
    requires Positioned(c, s) && Sized(s)
    ensures var out := NextGEQStep(c, s, t);
      out.1 == out.0.currentPosting &&
      (forall j :: c.blockIdx <= j < out.0.blockIdx - 1 ==> s.blocks[j].maxDocid < t) &&
      (out.1.Some? ==>
        out.1.value.docid >= t && Reached(out.0, t) &&
        1 <= out.0.postIdx && out.0.postings[out.0.postIdx - 1] == out.1.value) &&
      (out.1.None? && !Reached(out.0, t) ==>
        out.0.blockIdx == |s.blocks| && forall j :: c.blockIdx <= j < |s.blocks| ==> s.blocks[j].maxDocid < t)
  {
    var k := SkipBlocks(c, s, t);
    SkipBlocksStops(c, s, t);
    if Reached(k, t) {
      if k.blockIdx != c.blockIdx {
        ScanFinds(k.(postings := s.lists[k.blockIdx - 1], postIdx := 0), t);
      } else {
        ScanFinds(k, t);
      }
    }
  }

  // ---------------------------------------------------------------------------
  // the printed form

  /** How `toStringPosting` splits `n` postings into (number of blocks, postings per
      block): one block up to 1024 postings, otherwise `ceil(sqrt n)` blocks of
      `ceil(n / blocks)` postings. Either way the blocks have room for every posting,
      and the larger split has about as many blocks as postings per block. */
  function PrintSplit(n: int): (r: (int, int))
    requires 0 <= n < 0x8000_0000
    ensures r.0 >= 1 && r.1 >= 0 && n <= r.0 * r.1
    ensures n <= 1024 ==> r.0 == 1 && r.1 == n
    ensures n > 1024 ==> r.0 * r.0 >= n && (r.0 - 1) * (r.0 - 1) < n && r.0 * (r.1 - 1) < n
  {
    if n > 1024 then
      CeilSqrtFits(n);
      var nb := CeilSqrtInt(n);
      (nb, CeilQuotient(n, nb))
    else (1, n)
  }

  function Min(a: int, b: int): int
  {
    if a < b then a else b
  }

  /** Where block `b` starts when blocks hold `per` elements: `b * per`, counted up
      block by block as the printing loop does. */
  function Start(per: nat, b: nat): nat
  {
    if b == 0 then 0 else Start(per, b - 1) + per
  }

  lemma {:induction false} StartIsProduct(per: nat, b: nat)
    ensures Start(per, b) == b * per
  {
    if b > 0 {
      StartIsProduct(per, b - 1);
      assert b * per == (b - 1) * per + per;
    }
  }

  /** Block `b` of `xs` cut into blocks of `per`: the elements from `b * per` up to
      `(b + 1) * per`, stopping at the end. */
  function Chunk(xs: seq<int>, per: nat, b: nat): seq<int>
  {
    xs[Min(Start(per, b), |xs|)..Min(Start(per, b) + per, |xs|)]
  }

  /** The first `nb` blocks. */
  function Chunks(xs: seq<int>, per: nat, nb: nat): (cs: seq<seq<int>>)
    ensures |cs| == nb
  {
    if nb == 0 then [] else Chunks(xs, per, nb - 1) + [Chunk(xs, per, nb - 1)]
  }

  /** Blocks one after another. */
  function Concat(cs: seq<seq<int>>): seq<int>
  {
    if cs == [] then [] else Concat(cs[..|cs| - 1]) + cs[|cs| - 1]
  }

  /** Each value turned into text by `render`. */
  function Rendered(render: int -> string, xs: seq<int>): (r: seq<string>)
    ensures |r| == |xs| && forall i :: 0 <= i < |xs| ==> r[i] == render(xs[i])
  {
    if xs == [] then [] else Rendered(render, xs[..|xs| - 1]) + [render(xs[|xs| - 1])]
  }

  /** The text of block `b` of `xs`: its values, by `Integer.toString`, separated by
      `", "`. */
  function BlockText(xs: seq<int>, per: nat, b: nat): string
  {
    Join(", ", Rendered(IntToString, Chunk(xs, per, b)))
  }

  /** `[f(0), ..., f(n - 1)]`, built one element at a time. */
  function Snocs<T>(f: nat -> T, n: nat): (r: seq<T>)
    ensures |r| == n
  {
    if n == 0 then [] else Snocs(f, n - 1) + [f(n - 1)]
  }

  lemma {:induction false} SnocsAt<T>(f: nat -> T, n: nat, i: nat)
    requires i < n
    ensures Snocs(f, n)[i] == f(i)
  {
    if i < n - 1 {
      SnocsAt(f, n - 1, i);
    }
  }

  /** The texts of the first `nb` blocks of `xs`. */
  function Texts(xs: seq<int>, per: nat, nb: nat): (r: seq<string>)
    ensures |r| == nb
  {
    Snocs(b => BlockText(xs, per, b), nb)
  }

  /** The text of block `b`. */
  lemma TextsAt(xs: seq<int>, per: nat, nb: nat, b: nat)
    requires b < nb
    ensures Texts(xs, per, nb)[b] == BlockText(xs, per, b)
  {
    SnocsAt(b => BlockText(xs, per, b), nb, b);
  }

  /** One of the two strings of `toStringPosting`, over the docids or the frequencies
      `xs`: the term, `" -> "`, and the texts of the blocks separated by `" | "`. */
  function Printed(term: string, xs: seq<int>): string
    requires |xs| < 0x8000_0000
  {
    var split := PrintSplit(|xs|);
    term + " -> " + Join(" | ", Texts(xs, split.1, split.0))
  }

  /** Block `b` of the docids (frequencies) is the docids (frequencies) of the block of
      postings, which starts at `lo`. */
  lemma ChunkOfPostings(ps: seq<Posting>, per: nat, b: nat, lo: nat)
    requires lo == Min(Start(per, b), |ps|)
    ensures lo + Min(per, |ps| - lo) == Min(Start(per, b + 1), |ps|) <= |ps|
    ensures Chunk(Docids(ps), per, b) == Docids(ps[lo..lo + Min(per, |ps| - lo)])
    ensures Chunk(Frequencies(ps), per, b) == Frequencies(ps[lo..lo + Min(per, |ps| - lo)])
  {
    var hi := lo + Min(per, |ps| - lo);
    ChunkBounds(Docids(ps), per, b);
    ChunkBounds(Frequencies(ps), per, b);
    DocidsSlice(ps, lo, hi);
    FrequenciesSlice(ps, lo, hi);
  }

  /** The inner loop of `toStringPosting`: the texts of the docids and of the
      frequencies of the `n` postings from `from` on, each value rendered by `render`
      and followed by `", "` unless it is the last. */
  method PrintBlock(ps: seq<Posting>, from: nat, n: nat, render: int -> string, ghost ds: seq<int>, ghost fs: seq<int>) returns (d: string, f: string)
    requires from + n <= |ps| && ds == Docids(ps[from..from + n]) && fs == Frequencies(ps[from..from + n])
    ensures d == Join(", ", Rendered(render, ds))
    ensures f == Join(", ", Rendered(render, fs))
  {
    ghost var dItems := Rendered(render, Docids(ps[from..from + n]));
    ghost var fItems := Rendered(render, Frequencies(ps[from..from + n]));
    d, f := "", "";
    var curPosting := from;
    var i := 0;
    while i < n
      invariant 0 <= i <= n && curPosting == from + i
      invariant d == Partial(", ", dItems, i)
      invariant f == Partial(", ", fItems, i)
    {
      var p := ps[curPosting];
      assert p == ps[from..from + n][i];
      d := d + render(p.docid) + (if i != n - 1 then ", " else "");
      f := f + render(p.frequency) + (if i != n - 1 then ", " else "");
      curPosting := curPosting + 1;
      i := i + 1;
    }
    PartialJoined(", ", dItems);
    PartialJoined(", ", fItems);
  }

  /** One turn of the outer loop of `toStringPosting`: the texts of block `b` of the
      docids and of the frequencies, starting at posting `lo`, are appended, followed by
      `" | "` unless it is the last block; the next block starts where this one ends. */
  method PrintNextBlock(ps: seq<Posting>, per: nat, nb: nat, b: nat, lo: nat, ghost prefix: string, d: string, f: string)
    returns (lo2: nat, d2: string, f2: string)
    requires b < nb && lo == Min(Start(per, b), |ps|)
    requires d == prefix + Partial(" | ", Texts(Docids(ps), per, nb), b)
    requires f == prefix + Partial(" | ", Texts(Frequencies(ps), per, nb), b)
    ensures lo2 == Min(Start(per, b + 1), |ps|)
    ensures d2 == prefix + Partial(" | ", Texts(Docids(ps), per, nb), b + 1)
    ensures f2 == prefix + Partial(" | ", Texts(Frequencies(ps), per, nb), b + 1)
  {
    ghost var dTexts, fTexts := Texts(Docids(ps), per, nb), Texts(Frequencies(ps), per, nb);
    // the number of postings in the last block may be smaller
    var n := Min(per, |ps| - lo);
    ChunkOfPostings(ps, per, b, lo);
    TextsAt(Docids(ps), per, nb, b);
    TextsAt(Frequencies(ps), per, nb, b);
    var docidsText, freqsText := PrintBlock(ps, lo, n, IntToString, Chunk(Docids(ps), per, b), Chunk(Frequencies(ps), per, b));
    // the separator follows every block but the last
    var sep := if b + 1 != nb then " | " else "";
    AppendPartial(prefix, d, " | ", dTexts, b, docidsText, sep);
    AppendPartial(prefix, f, " | ", fTexts, b, freqsText, sep);
    lo2, d2, f2 := lo + n, d + docidsText + sep, f + freqsText + sep;
  }

  // ---------------------------------------------------------------------------
  // the posting list

  class PostingList {
    var term: string
    /** The postings in memory: parsed or appended ones, or those of the current block. */
    var postings: seq<Posting>
    /** The descriptors the block iterator walks. */
    var blocks: seq<BlockDescriptor>
    /** Whether `openPostingList` has created the iterators. */
    var isOpen: bool
    /** The position of the postings iterator in `postings`. */
    var postIdx: nat
    /** The position of the blocks iterator in `blocks`. */
    var blockIdx: nat
    var currentBlock: Option<BlockDescriptor>
    var currentPosting: Option<Posting>
    var bm25Dl: int
    var bm25Tf: int

    ghost function Cur(): Cursor
      reads this
    {
      Cursor(postings, postIdx, blockIdx, currentBlock, currentPosting)
    }

    /** `PostingList(String)`: the term is the text before the first tab and the
        postings are those written after it. */
    constructor (toParse: string)
      requires ParsableRow(toParse)
      ensures term == RowTerm(toParse) && postings == RowPostings(toParse)
      ensures blocks == [] && !isOpen && postIdx == 0 && blockIdx == 0
      ensures currentBlock.None? && currentPosting.None?
      ensures Witness(bm25Dl, bm25Tf) == Initial
    {
      var termRow := Split(toParse, TAB);
      var parsed: seq<Posting> := [];
      if |termRow| > 1 {
        parsed := ParsePostings(termRow[1]);
      }
      term := termRow[0];
      postings := parsed;
      blocks := [];
      isOpen := false;
      postIdx := 0;
      blockIdx := 0;
      currentBlock := None;
      currentPosting := None;
      bm25Dl := 1;
      bm25Tf := 0;
    }

    /** `appendPostings`: the new postings follow the existing ones. */
    method AppendPostings(newPostings: seq<Posting>)
      modifies this
      ensures postings == old(postings) + newPostings
      ensures term == old(term) && blocks == old(blocks) && isOpen == old(isOpen)
      ensures bm25Dl == old(bm25Dl) && bm25Tf == old(bm25Tf)
      ensures Cur() == old(Cur()).(postings := postings)
    {
      postings := postings + newPostings;
    }

    /** `updateBM25Params(length, tf)`: the pair is replaced when `tf / (length + tf)`
        is strictly greater than the stored ratio. */
    method UpdateBM25Params(length: int, tf: int)
      modifies this
      ensures Witness(bm25Dl, bm25Tf) == Update(old(Witness(bm25Dl, bm25Tf)), Witness(length, tf))
      ensures term == old(term) && blocks == old(blocks) && isOpen == old(isOpen) && Cur() == old(Cur())
    {
      var currentRatio := Quotient(bm25Tf, Wrap32(bm25Dl + bm25Tf));
      var newRatio := Quotient(tf, Wrap32(length + tf));
      if Greater(newRatio, currentRatio) {
        bm25Dl := length;
        bm25Tf := tf;
      }
    }

    /** `openPostingList`: `read` is what the vocabulary entry's `readBlocks` returns;
        on null nothing is opened. Otherwise the block iterator starts at the first
        block and the postings iterator at the first posting in memory. */
    method OpenPostingList(read: Option<seq<BlockDescriptor>>)
      modifies this
      ensures read.None? ==> blocks == old(blocks) && isOpen == old(isOpen) && Cur() == old(Cur())
      ensures read.Some? ==> blocks == read.value && isOpen && Cur() == old(Cur()).(postIdx := 0, blockIdx := 0)
      ensures term == old(term) && bm25Dl == old(bm25Dl) && bm25Tf == old(bm25Tf)
    {
      if read.None? {
        return;
      }
      blocks := read.value;
      blockIdx := 0;
      postIdx := 0;
      isOpen := true;
    }

    /** `next` over the docid and frequency files `docs` and `freqs`: the first
        remaining posting, loading the next block only when the postings in memory are
        used up; null at the end of the list. The block is read without an I/O failure. */
    method Next(ghost s: Source, docs: seq<byte>, freqs: seq<byte>, compressed: bool) returns (r: Option<Posting>)
      requires isOpen && Holds(s, docs, freqs, compressed) && s.blocks == blocks
      requires Positioned(Cur(), s) && CanStep(Cur(), s)
      modifies this
      ensures blocks == old(blocks) && isOpen && term == old(term) && bm25Dl == old(bm25Dl) && bm25Tf == old(bm25Tf)
      ensures Cur() == NextStep(old(Cur()), s).0 && r == NextStep(old(Cur()), s).1
    {
      if postIdx == |postings| {
        if blockIdx == |blocks| {
          currentPosting := None;
          return None;
        }
        currentBlock := Some(blocks[blockIdx]);
        blockIdx := blockIdx + 1;
        postings := LoadBlock(s, docs, freqs, compressed, currentBlock.value, blockIdx - 1);
        postIdx := 0;
      }
      currentPosting := Some(postings[postIdx]);
      postIdx := postIdx + 1;
      r := currentPosting;
    }

    /** `getCurrentPosting`: what `next` or `nextGEQ` returned last (`NextPops`,
        `NextGEQFindsFirst`). */
    function GetCurrentPosting(): (p: Option<Posting>)
      reads this
      ensures p == Cur().currentPosting
    {
      currentPosting
    }

    /** `toStringPosting`: the docids and the frequencies of the postings in memory,
        printed block by block. */
    method ToStringPosting() returns (docids: string, freqs: string)
      requires |postings| < 0x8000_0000
      ensures docids == Printed(term, Docids(postings)) && freqs == Printed(term, Frequencies(postings))
    {
      var ps := postings;
      var resultDocids := term + " -> ";
      var resultFreqs := term + " -> ";
      var curBlock: nat := 0;
      var curPosting: nat := 0;
      // beyond 1024 postings, ceil(sqrt(size)) blocks of ceil(size / blocks) postings
      var split := PrintSplit(|ps|);
      var numBlocks: nat, numPostings: nat := split.0, split.1;
      ghost var dTexts, fTexts := Texts(Docids(ps), numPostings, numBlocks), Texts(Frequencies(ps), numPostings, numBlocks);
      while curBlock < numBlocks
        invariant curBlock <= numBlocks && curPosting == Min(Start(numPostings, curBlock), |ps|)
        invariant resultDocids == term + " -> " + Partial(" | ", dTexts, curBlock)
        invariant resultFreqs == term + " -> " + Partial(" | ", fTexts, curBlock)
      {
        curPosting, resultDocids, resultFreqs :=
          PrintNextBlock(ps, numPostings, numBlocks, curBlock, curPosting, term + " -> ", resultDocids, resultFreqs);
        curBlock := curBlock + 1;
      }
      PartialJoined(" | ", dTexts);
      PartialJoined(" | ", fTexts);
      return resultDocids, resultFreqs;
    }

    /** `nextGEQ(t)` over the docid and frequency files: skips blocks whose `maxDocid`
        is below `t` without reading them, loads the block reached if it changed, and
        scans from the iterator for the first posting with docid at least `t`. */
    method NextGEQ(ghost s: Source, t: int, docs: seq<byte>, freqs: seq<byte>, compressed: bool) returns (r: Option<Posting>)
      requires isOpen && Holds(s, docs, freqs, compressed) && s.blocks == blocks
      requires Positioned(Cur(), s)
      modifies this
      ensures blocks == old(blocks) && isOpen && term == old(term) && bm25Dl == old(bm25Dl) && bm25Tf == old(bm25Tf)
      ensures Cur() == NextGEQStep(old(Cur()), s, t).0 && r == NextGEQStep(old(Cur()), s, t).1
    {
      ghost var c0 := Cur();
      var reached, blockChanged := MoveToBlock(s, t);
      if !reached {
        currentPosting := None;
        return None;
      }
      assert NextGEQStep(c0, s, t) == Land(SkipBlocks(c0, s, t), s, t, blockChanged);
      // Block changed, load postings and update iterator
      if blockChanged {
        postings := LoadBlock(s, docs, freqs, compressed, currentBlock.value, blockIdx - 1);
        postIdx := 0;
      }
      r := ScanPostings(t);
    }

    /** The first loop of `nextGEQ`: take blocks until the current one has `maxDocid` at
        least `t`, or report that no block is left. */
    method MoveToBlock(ghost s: Source, t: int) returns (reached: bool, blockChanged: bool)
      requires Sized(s) && s.blocks == blocks && blockIdx <= |blocks|
      modifies this
      ensures blocks == old(blocks) && isOpen == old(isOpen) && term == old(term) && bm25Dl == old(bm25Dl) && bm25Tf == old(bm25Tf)
      ensures Cur() == SkipBlocks(old(Cur()), s, t)
      ensures reached == Reached(Cur(), t) && blockChanged == (blockIdx != old(blockIdx))
      ensures blockChanged ==> 1 <= blockIdx && currentBlock == Some(blocks[blockIdx - 1])
    {
      ghost var c0 := Cur();
      blockChanged := false;
      while currentBlock.None? || currentBlock.value.maxDocid < t
        invariant blocks == old(blocks) && isOpen == old(isOpen) && term == old(term) && bm25Dl == old(bm25Dl) && bm25Tf == old(bm25Tf)
        invariant postings == c0.postings && postIdx == c0.postIdx && currentPosting == c0.currentPosting
        invariant c0.blockIdx <= blockIdx <= |blocks|
        invariant SkipBlocks(Cur(), s, t) == SkipBlocks(c0, s, t)
        invariant blockChanged == (blockIdx != c0.blockIdx)
        invariant blockChanged ==> currentBlock == Some(blocks[blockIdx - 1])
        decreases |blocks| - blockIdx
      {
        // no blocks left
        if blockIdx == |blocks| {
          return false, blockChanged;
        }
        currentBlock := Some(blocks[blockIdx]);
        blockIdx := blockIdx + 1;
        blockChanged := true;
      }
      return true, blockChanged;
    }

    /** The second loop of `nextGEQ`: advance the postings iterator to the first
        posting with docid at least `t` and return it, or null at the end. */
    method ScanPostings(t: int) returns (r: Option<Posting>)
      requires postIdx <= |postings|
      modifies this
      ensures blocks == old(blocks) && isOpen == old(isOpen) && term == old(term) && bm25Dl == old(bm25Dl) && bm25Tf == old(bm25Tf)
      ensures Cur() == Scan(old(Cur()), t).0 && r == Scan(old(Cur()), t).1
    {
      // move to the first GE posting and return it
      while postIdx < |postings|
        invariant blocks == old(blocks) && isOpen == old(isOpen) && term == old(term) && bm25Dl == old(bm25Dl) && bm25Tf == old(bm25Tf)
        invariant postIdx <= |postings|
        invariant Scan(Cur(), t) == Scan(old(Cur()), t)
        decreases |postings| - postIdx
      {
        currentPosting := Some(postings[postIdx]);
        postIdx := postIdx + 1;
        if currentPosting.value.docid >= t {
          return currentPosting;
        }
      }
      currentPosting := None;
      return None;
    }
  }

  // ---------------------------------------------------------------------------
  // what the iteration yields

  lemma TailUnfold(s: Source, j: nat)
    requires Sized(s) && j < |s.blocks|
    ensures Tail(s, j) == s.lists[j] + Tail(s, j + 1)
  {
  }

  /** A block whose postings increase in docid and whose `maxDocid` is its last docid is
      laid out as skipping needs. */
  lemma IncreasingShaped(s: Source, j: nat)
    requires Sized(s) && j < |s.blocks|
    requires s.lists[j] != [] && Increasing(s.lists[j])
    requires s.blocks[j].maxDocid == s.lists[j][|s.lists[j]| - 1].docid
    ensures BlockShaped(s, j)
  {
    var ps := s.lists[j];
    forall k | 0 <= k < |ps| ensures ps[k].docid <= s.blocks[j].maxDocid {
      if k < |ps| - 1 {
        assert ps[k].docid < ps[|ps| - 1].docid;
      }
    }
  }

  /** The blocks of a well-formed list are never empty, so `next` can always step. */
  lemma WellFormedCanStep(c: Cursor, s: Source)
    requires Positioned(c, s) && Sized(s) && WellFormed(s)
    ensures CanStep(c, s)
  {
    if c.postIdx == |c.postings| && c.blockIdx < |s.blocks| {
      assert BlockShaped(s, c.blockIdx);
    }
  }

  /** Opening with no postings in memory and no block taken: the cursor is aligned and
      what remains is every block's postings in order. */
  lemma OpenedRemaining(c: Cursor, s: Source)
    requires Sized(s) && c.postings == [] && c.postIdx == 0 && c.blockIdx == 0 && c.currentBlock.None?
    ensures Positioned(c, s) && Aligned(c, s)
    ensures Remaining(c, s) == Tail(s, 0)
  {
  }

  /** `next` hands out the remaining postings one at a time, in order, and returns null
      exactly when none remains; it keeps the postings in memory those of the block
      last taken. */
  lemma NextPops(c: Cursor, s: Source)
    requires Positioned(c, s) && Sized(s) && CanStep(c, s)
    ensures var out := NextStep(c, s);
      Positioned(out.0, s) && out.1 == out.0.currentPosting &&
      (Remaining(c, s) == [] ==> out.1.None? && out.0 == c.(currentPosting := None)) &&
      (Remaining(c, s) != [] ==> out.1 == Some(Remaining(c, s)[0]) && Remaining(out.0, s) == Remaining(c, s)[1..]) &&
      (Aligned(c, s) ==> Aligned(out.0, s))
  {
    var c1 := NextStep(c, s).0;
    var rest := c.postings[c.postIdx..];
    if c.postIdx < |c.postings| {
      assert rest == [c.postings[c.postIdx]] + c1.postings[c1.postIdx..];
    } else if c.blockIdx < |s.blocks| {
      assert rest == [];
      TailUnfold(s, c.blockIdx);
      var b := s.lists[c.blockIdx];
      assert b == [b[0]] + b[1..];
      assert Remaining(c, s) == [b[0]] + (b[1..] + Tail(s, c.blockIdx + 1));
    }
  }

  /** Every posting of a well-formed block below `t` lies below `t`. */
  lemma BlockBelow(s: Source, j: nat, t: int)
    requires Sized(s) && WellFormed(s) && j < |s.blocks| && s.blocks[j].maxDocid < t
    ensures AllBelow(s.lists[j], t)
  {
    assert BlockShaped(s, j);
  }

  /** The postings of blocks `i` up to but excluding `j`. */
  function Span(s: Source, i: nat, j: nat): seq<Posting>
    requires Sized(s) && i <= j <= |s.blocks|
    decreases j - i
  {
    if i == j then [] else s.lists[i] + Span(s, i + 1, j)
  }

  lemma {:induction false} TailSplit(s: Source, i: nat, j: nat)
    requires Sized(s) && i <= j <= |s.blocks|
    ensures Tail(s, i) == Span(s, i, j) + Tail(s, j)
    decreases j - i
  {
    if i < j {
      TailSplit(s, i + 1, j);
    }
  }

  lemma AllBelowConcat(a: seq<Posting>, b: seq<Posting>, t: int)
    requires AllBelow(a, t) && AllBelow(b, t)
    ensures AllBelow(a + b, t)
  {
  }

  /** The first loop of `nextGEQ` from a block that does not reach `t`: every block it
      passes over holds only postings below `t`, and when it runs out of blocks all of
      them do. */
  lemma {:induction false} SkipPassesBelow(c: Cursor, s: Source, t: int)
    requires Positioned(c, s) && Sized(s) && WellFormed(s) && !Reached(c, t)
    ensures var k := SkipBlocks(c, s, t);
      (Reached(k, t) ==> c.blockIdx < k.blockIdx && AllBelow(Span(s, c.blockIdx, k.blockIdx - 1), t)) &&
      (!Reached(k, t) ==> AllBelow(Tail(s, c.blockIdx), t))
    decreases |s.blocks| - c.blockIdx
  {
    var j := c.blockIdx;
    SkipBlocksStops(c, s, t);
    if j < |s.blocks| {
      var n := c.(currentBlock := Some(s.blocks[j]), blockIdx := j + 1);
      assert SkipBlocks(c, s, t) == SkipBlocks(n, s, t);
      if !Reached(n, t) {
        SkipPassesBelow(n, s, t);
        BlockBelow(s, j, t);
        var k := SkipBlocks(n, s, t);
        if Reached(k, t) {
          AllBelowConcat(s.lists[j], Span(s, j + 1, k.blockIdx - 1), t);
        } else {
          AllBelowConcat(s.lists[j], Tail(s, j + 1), t);
        }
      }
    }
  }

  /** `FirstGEQ` is the one position before which every posting lies below `t` and at
      which, unless it is the end, a posting at least `t` stands. */
  lemma FirstGEQUnique(ps: seq<Posting>, t: int, m: nat)
    requires m <= |ps| && (forall i :: 0 <= i < m ==> ps[i].docid < t) && (m < |ps| ==> ps[m].docid >= t)
    ensures FirstGEQ(ps, t) == m
  {
    FirstGEQSpec(ps, t);
  }

  /** When everything lies below `t` there is no posting at least `t`. */
  lemma NoneAbove(ps: seq<Posting>, t: int)
    requires AllBelow(ps, t)
    ensures FirstGEQ(ps, t) == |ps|
  {
    FirstGEQUnique(ps, t, |ps|);
  }

  /** Postings below `t`, then postings from position `i0` of `b` of which the one at
      `j` is the first at least `t`: that one is the first of the whole at least `t`,
      and the rest follows it. */
  lemma Found(pre: seq<Posting>, b: seq<Posting>, i0: nat, j: nat, after: seq<Posting>, t: int)
    requires AllBelow(pre, t) && i0 <= j < |b| && b[j].docid >= t
    requires forall k :: i0 <= k < j ==> b[k].docid < t
    ensures var all := pre + b[i0..] + after;
      var m := |pre| + j - i0;
      FirstGEQ(all, t) == m && all[m] == b[j] && all[m + 1..] == b[j + 1..] + after
  {
    var all := pre + b[i0..] + after;
    var m := |pre| + j - i0;
    forall i | 0 <= i < m
      ensures all[i].docid < t
    {
      if i < |pre| {
        assert all[i] == pre[i];
      } else {
        assert all[i] == b[i0 + i - |pre|];
      }
    }
    assert all[m] == b[j];
    FirstGEQUnique(all, t, m);
    assert all[m + 1..] == b[j + 1..] + after;
  }

  lemma Regroup(a: seq<Posting>, b: seq<Posting>, c: seq<Posting>, d: seq<Posting>)
    ensures (a + b) + c[0..] + d == a + (b + (c + d))
  {
    assert c[0..] == c;
  }

  lemma EmptyFront(a: seq<Posting>, b: seq<Posting>)
    ensures [] + a + b == a + b
  {
  }

  /** What `nextGEQ(t)` must do from `c`: return the first remaining posting at least
      `t` and leave exactly the postings after it to iterate, or return null when there
      is none. */
  predicate FindsFirst(c: Cursor, s: Source, t: int, out: (Cursor, Option<Posting>))
    requires Positioned(c, s) && Sized(s) && Positioned(out.0, s)
  {
    var rem := Remaining(c, s);
    var m := FirstGEQ(rem, t);
    (m < |rem| ==> out.1 == Some(rem[m]) && Aligned(out.0, s) && Remaining(out.0, s) == rem[m + 1..]) &&
    (m == |rem| ==> out.1.None?)
  }

  /** What remains is postings below `t`, then the postings of `b` from `i0` on, of
      which the one at `j` is the first at least `t`, then `after`: returning that one
      with `b[j + 1..] + after` left to iterate finds the first. */
  lemma FindsAt(c: Cursor, s: Source, t: int, out: (Cursor, Option<Posting>),
                pre: seq<Posting>, b: seq<Posting>, i0: nat, j: nat, after: seq<Posting>)
    requires Positioned(c, s) && Sized(s) && Positioned(out.0, s)
    requires AllBelow(pre, t) && i0 <= j < |b| && b[j].docid >= t
    requires Remaining(c, s) == pre + b[i0..] + after
    requires forall k :: i0 <= k < j ==> b[k].docid < t
    requires out.1 == Some(b[j]) && Aligned(out.0, s) && Remaining(out.0, s) == b[j + 1..] + after
    ensures FindsFirst(c, s, t, out)
  {
    Found(pre, b, i0, j, after, t);
  }

  /** The block in memory reaches `t`: the scan stops inside it. */
  lemma FindsInCurrentBlock(c: Cursor, s: Source, t: int)
    requires Positioned(c, s) && Sized(s) && WellFormed(s) && Aligned(c, s) && ConsumedBelow(c, t)
    requires Reached(c, t)
    ensures FindsFirst(c, s, t, NextGEQStep(c, s, t))
  {
    var ps := c.postings;
    var out := NextGEQStep(c, s, t);
    SkipBlocksStops(c, s, t);
    assert out == Scan(c, t);
    ScanFinds(c, t);
    assert BlockShaped(s, c.blockIdx - 1);
    assert ps[|ps| - 1].docid >= t;
    var j := out.0.postIdx - 1;
    var x := Tail(s, c.blockIdx);
    EmptyFront(ps[c.postIdx..], x);
    FindsAt(c, s, t, out, [], ps, c.postIdx, j, x);
  }

  /** When a later block reaches `t`, what remains is: postings below `t` (the rest of
      the block in memory and the blocks skipped), then the block reached, then the
      blocks after it. */
  lemma LaterBlockPrefix(c: Cursor, s: Source, t: int)
    requires Positioned(c, s) && Sized(s) && WellFormed(s) && Aligned(c, s)
    requires !Reached(c, t) && Reached(SkipBlocks(c, s, t), t)
    ensures var k := SkipBlocks(c, s, t);
      c.blockIdx < k.blockIdx &&
      var pre := c.postings[c.postIdx..] + Span(s, c.blockIdx, k.blockIdx - 1);
      AllBelow(pre, t) && Remaining(c, s) == pre + s.lists[k.blockIdx - 1][0..] + Tail(s, k.blockIdx)
  {
    var rest := c.postings[c.postIdx..];
    if c.currentBlock.Some? {
      BlockBelow(s, c.blockIdx - 1, t);
    }
    assert AllBelow(rest, t);
    SkipPassesBelow(c, s, t);
    var k := SkipBlocks(c, s, t);
    var d := k.blockIdx - 1;
    AllBelowConcat(rest, Span(s, c.blockIdx, d), t);
    TailSplit(s, c.blockIdx, d);
    TailUnfold(s, d);
    Regroup(rest, Span(s, c.blockIdx, d), s.lists[d], Tail(s, d + 1));
  }

  /** The block in memory lies below `t` and a later block reaches it: the scan stops
      inside the first such block. */
  lemma FindsInLaterBlock(c: Cursor, s: Source, t: int)
    requires Positioned(c, s) && Sized(s) && WellFormed(s) && Aligned(c, s)
    requires !Reached(c, t) && Reached(SkipBlocks(c, s, t), t)
    ensures FindsFirst(c, s, t, NextGEQStep(c, s, t))
  {
    var k := SkipBlocks(c, s, t);
    SkipBlocksStops(c, s, t);
    LaterBlockPrefix(c, s, t);
    var d := k.blockIdx - 1;
    var b := s.lists[d];
    var from := k.(postings := b, postIdx := 0);
    var out := Scan(from, t);
    assert NextGEQStep(c, s, t) == out;
    ScanFinds(from, t);
    assert BlockShaped(s, d);
    assert b[|b| - 1].docid >= t;
    var pre := c.postings[c.postIdx..] + Span(s, c.blockIdx, d);
    FindsAt(c, s, t, out, pre, b, 0, out.0.postIdx - 1, Tail(s, d + 1));
  }

  /** No block from the one in memory on reaches `t`: none of the remaining postings
      does, and the result is null. */
  lemma FindsNone(c: Cursor, s: Source, t: int)
    requires Positioned(c, s) && Sized(s) && WellFormed(s) && Aligned(c, s)
    requires !Reached(c, t) && !Reached(SkipBlocks(c, s, t), t)
    ensures FindsFirst(c, s, t, NextGEQStep(c, s, t))
  {
    var rest := c.postings[c.postIdx..];
    if c.currentBlock.Some? {
      BlockBelow(s, c.blockIdx - 1, t);
    }
    SkipPassesBelow(c, s, t);
    SkipBlocksStops(c, s, t);
    AllBelowConcat(rest, Tail(s, c.blockIdx), t);
    NoneAbove(Remaining(c, s), t);
  }

  /** `nextGEQ(t)` on an aligned cursor of a well-formed list whose last posting
      returned lies below `t` (as when targets increase) finds the first remaining
      posting at least `t`. */
  lemma NextGEQFindsFirst(c: Cursor, s: Source, t: int)
    requires Positioned(c, s) && Sized(s) && WellFormed(s) && Aligned(c, s) && ConsumedBelow(c, t)
    ensures FindsFirst(c, s, t, NextGEQStep(c, s, t))
  {
    if Reached(c, t) {
      FindsInCurrentBlock(c, s, t);
    } else if Reached(SkipBlocks(c, s, t), t) {
      FindsInLaterBlock(c, s, t);
    } else {
      FindsNone(c, s, t);
    }
  }

  // ---------------------------------------------------------------------------
  // what the printed form shows

  lemma SliceJoin(xs: seq<int>, a: nat, b: nat)
    requires a <= b <= |xs|
    ensures xs[..a] + xs[a..b] == xs[..b]
  {
  }

  lemma ConcatSnoc(cs: seq<seq<int>>, c: seq<int>)
    ensures Concat(cs + [c]) == Concat(cs) + c
  {
    assert (cs + [c])[..|cs|] == cs;
  }

  lemma ChunksSnoc(xs: seq<int>, per: nat, k: nat)
    requires k > 0
    ensures Chunks(xs, per, k) == Chunks(xs, per, k - 1) + [Chunk(xs, per, k - 1)]
  {
  }

  /** Block `b` runs from where block `b` starts to where block `b + 1` starts. */
  lemma ChunkBounds(xs: seq<int>, per: nat, b: nat)
    ensures Min(Start(per, b), |xs|) <= Min(Start(per, b + 1), |xs|) <= |xs|
    ensures Chunk(xs, per, b) == xs[Min(Start(per, b), |xs|)..Min(Start(per, b + 1), |xs|)]
  {
  }

  /** The first `k` blocks, one after another, are the elements before block `k`. */
  lemma {:induction false} ChunksPrefix(xs: seq<int>, per: nat, k: nat)
    ensures Concat(Chunks(xs, per, k)) == xs[..Min(Start(per, k), |xs|)]
  {
    if k > 0 {
      ChunksSnoc(xs, per, k);
      ConcatSnoc(Chunks(xs, per, k - 1), Chunk(xs, per, k - 1));
      ChunksPrefix(xs, per, k - 1);
      ChunkBounds(xs, per, k - 1);
      SliceJoin(xs, Min(Start(per, k - 1), |xs|), Min(Start(per, k), |xs|));
    }
  }

  /** Block `b` of the first `nb` blocks is `Chunk(xs, per, b)`. */
  lemma {:induction false} ChunksAt(xs: seq<int>, per: nat, nb: nat, b: nat)
    requires b < nb
    ensures Chunks(xs, per, nb)[b] == Chunk(xs, per, b)
  {
    ChunksSnoc(xs, per, nb);
    if b < nb - 1 {
      ChunksAt(xs, per, nb - 1, b);
    }
  }

  /** The blocks of `toStringPosting` cover every posting exactly once and in order:
      one after another they are the whole sequence. */
  lemma ChunksCover(xs: seq<int>)
    requires |xs| < 0x8000_0000
    ensures var split := PrintSplit(|xs|);
      Concat(Chunks(xs, split.1, split.0)) == xs
  {
    var split := PrintSplit(|xs|);
    ChunksPrefix(xs, split.1, split.0);
    StartIsProduct(split.1, split.0);
    assert xs[..|xs|] == xs;
  }

  /** No block is longer than the block size, and every block that ends before the
      last posting is exactly that long. */
  lemma ChunkSize(xs: seq<int>, per: nat, b: nat)
    ensures |Chunk(xs, per, b)| <= per
    ensures (b + 1) * per <= |xs| ==> |Chunk(xs, per, b)| == per
  {
    StartIsProduct(per, b);
    assert (b + 1) * per == b * per + per;
  }
}
