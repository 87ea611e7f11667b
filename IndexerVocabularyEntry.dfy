/**
 * The vocabulary entry of the indexer: a term with a termid drawn from a counter
 * shared by every entry, its document and collection frequencies, and where its
 * posting list lies in the inverted-index file.
 */
module IndexerVocabularyEntry {
  import opened Bytes
  import opened Postings
  import IndexerPostingList

  /** The static `termCount` that every construction draws from. */
  class TermCounter {
    var termCount: int

    constructor ()
      ensures termCount == 0
    {
      termCount := 0;
    }
  }

  /** The sum of the frequencies of a list of postings. */
  function SumFrequencies(ps: seq<Posting>): int
  {
    if ps == [] then 0 else SumFrequencies(ps[..|ps| - 1]) + ps[|ps| - 1].frequency
  }

  /** The frequencies of two lists together sum to the two sums. */
  lemma {:induction false} SumFrequenciesAppend(a: seq<Posting>, b: seq<Posting>)
    ensures SumFrequencies(a + b) == SumFrequencies(a) + SumFrequencies(b)
    decreases |b|
  {
    if b != [] {
      var b' := b[..|b| - 1];
      assert (a + b)[..|a + b| - 1] == a + b';
      SumFrequenciesAppend(a, b');
    } else {
      assert a + b == a;
    }
  }

  /** The statistics `(df, tf)` after `updateStatistics` with `ps`, in `int` arithmetic. */
  function Updated(df: int, tf: int, ps: seq<Posting>): (int, int)
  {
    (Wrap32(df + |ps|), Wrap32(tf + SumFrequencies(ps)))
  }

  /** Updating with one list and then another is updating with the two lists together:
      the statistics of a term do not depend on how its postings were split into the
      partial posting lists. */
  lemma UpdatedTwice(df: int, tf: int, a: seq<Posting>, b: seq<Posting>)
    ensures var (df1, tf1) := Updated(df, tf, a);
            Updated(df1, tf1, b) == Updated(df, tf, a + b)
  {
    SumFrequenciesAppend(a, b);
    Wrap32Add(df + |a|, |b|);
    Wrap32Add(tf + SumFrequencies(a), SumFrequencies(b));
  }

  class VocabularyEntry {
    const termid: int
    var term: string
    var df: int
    var tf: int
    /** The idf, a `double` this model does not compute. */
    var idf: Opaque8
    var memoryOffset: int
    var memorySize: int

    /** The `int` fields hold 32-bit values and the `long` fields 64-bit ones. */
    ghost predicate Valid()
      reads this
    {
      IsInt32(df) && IsInt32(tf) && IsInt64(memoryOffset) && IsInt64(memorySize)
    }

    /** `VocabularyEntry(term)`: the termid is the counter's value, and the counter
        moves on to the next one. */
    constructor (term: string, counter: TermCounter)
      modifies counter
      ensures this.term == term && termid == old(counter.termCount)
      ensures counter.termCount == Wrap32(old(counter.termCount) + 1)
      ensures df == 0 && tf == 0 && idf == Zeros(8) && memoryOffset == 0 && memorySize == 0
      ensures Valid()
    {
      this.term := term;
      termid := counter.termCount;
      df, tf, idf := 0, 0, Zeros(8);
      memoryOffset, memorySize := 0, 0;
      counter.termCount := Wrap32(counter.termCount + 1);
    }

    /** `updateStatistics(list)`: each posting adds its frequency to tf and one to df. */
    method UpdateStatistics(list: IndexerPostingList.PostingList)
      requires Valid()
      modifies this
      ensures Valid()
      ensures (df, tf) == Updated(old(df), old(tf), list.postings)
      ensures term == old(term) && idf == old(idf)
      ensures memoryOffset == old(memoryOffset) && memorySize == old(memorySize)
    {
      ghost var df0, tf0 := df, tf;
      var ps := list.postings;
      for k := 0 to |ps|
        invariant (df, tf) == Updated(df0, tf0, ps[..k])
        invariant term == old(term) && idf == old(idf)
        invariant memoryOffset == old(memoryOffset) && memorySize == old(memorySize)
        invariant Valid()
      {
        assert ps[..k + 1][..k] == ps[..k];
        Wrap32Add(tf0 + SumFrequencies(ps[..k]), ps[k].frequency);
        Wrap32Add(df0 + k, 1);
        tf := Wrap32(tf + ps[k].frequency);
        df := Wrap32(df + 1);
      }
      assert ps[..|ps|] == ps;
    }

    /** `setMemorySize`: an `int` widened to the `long` field; nothing else changes. */
    method SetMemorySize(memorySize: int)
      requires Valid() && IsInt32(memorySize)
      modifies this
      ensures Valid()
      ensures this.memorySize == memorySize
      ensures term == old(term) && df == old(df) && tf == old(tf) && idf == old(idf)
      ensures memoryOffset == old(memoryOffset)
    {
      this.memorySize := memorySize;
    }

    /** `setMemoryOffset`: an `int` widened to the `long` field; nothing else changes. */
    method SetMemoryOffset(memoryOffset: int)
      requires Valid() && IsInt32(memoryOffset)
      modifies this
      ensures Valid()
      ensures this.memoryOffset == memoryOffset
      ensures term == old(term) && df == old(df) && tf == old(tf) && idf == old(idf)
      ensures memorySize == old(memorySize)
    {
      this.memoryOffset := memoryOffset;
    }
  }
}
