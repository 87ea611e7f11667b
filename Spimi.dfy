/**
 * The SPIMI indexing run (`executeSpimi`). Lines of the collection are read one at a
 * time; each non-blank line is split at tabs into a pid and a text, the text loses its
 * non-ASCII characters and is preprocessed into tokens, and a document with tokens gets
 * the next docid, a record in the document index and its terms added to the partial
 * index. When memory runs low, and at the end of the collection, the partial index is
 * flushed to disk. The run returns the number of partial indexes written, -1 after a
 * failed flush (which removes everything written), and 0 after an exception or a
 * failure to save the collection statistics.
 */
module SpimiAlgorithm {
  import opened Bytes
  import opened Wrappers
  import opened JavaText
  import opened Postings
  import opened Bm25
  import opened JavaMath
  import opened SpimiIndex
  import opened SpimiFlush
  import opened DocumentIndexEntries
  import opened BlockDescriptors
  import opened Vocabularies
  import CommonVocabularyEntry

  /** The three files of one partial index. */
  datatype Partial = Partial(docids: seq<byte>, frequencies: seq<byte>, vocabulary: seq<byte>)

  /** What the run depends on besides its own state: the lines of the collection, the
      preprocessing of a text into tokens, whether memory is low before line `p` is read
      (`flushBefore(p)`), whether the document index write of line `p` succeeds, whether
      the files of a flush at position `p` open and, for each of its records, whether
      the record write succeeds, and whether the two collection statistics are saved. */
  datatype Env = Env(
    lines: seq<string>,
    preprocess: string -> seq<string>,
    flushBefore: nat -> bool,
    docOk: nat -> bool,
    openOk: nat -> bool,
    vocOk: nat -> nat -> bool,
    sizeOk: bool,
    lenOk: bool)

  /** The largest number of elements a Java array holds. */
  const MAX_TOKENS: int := 0x7FFF_FFFF

  /** Preprocessing yields an array of tokens; docids, kept in an `int`, do not
      overflow. */
  ghost predicate EnvOk(env: Env)
  {
    (forall text :: |env.preprocess(text)| <= MAX_TOKENS) && |env.lines| < 0x7FFF_FFFF
  }

  datatype Status = Running | Raised | RolledBack

  /** Everything the run changes: the partial index and its counter, the number of
      partial indexes and their files, the document index file and its offset, the next
      docid, the total document length, and how the run stands. */
  datatype State = State(
    index: Index,
    numPostings: int,
    numIndex: int,
    partials: seq<Partial>,
    docIndex: seq<byte>,
    memOffset: nat,
    docid: int,
    docsLen: int,
    status: Status)

  /** `replaceAll("[^\\x00-\\x7F]", "")`: the ASCII characters, in order. */
  function StripNonAscii(s: string): (r: string)
    ensures IsAscii(r) && |r| <= |s|
  {
    if s == [] then []
    else (if s[0] as int < 128 then [s[0]] else []) + StripNonAscii(s[1..])
  }

  lemma {:induction false} StripAscii(s: string)
    requires IsAscii(s)
    ensures StripNonAscii(s) == s
  {
    if s != [] {
      StripAscii(s[1..]);
    }
  }

  /** The state after a flush at position `p`: nothing for an empty index; on success the
      files are kept, the counter is reset, the number of indexes grows and the index is
      cleared; after a failure the rollback removes every partial file and the document
      index file; an exception stops the run. */
  ghost function FlushAt(s: State, env: Env, p: nat): State
  {
    match Flushed(s.index, s.numPostings, env.openOk(p), env.vocOk(p))
    case Skipped => s
    case Failed => s.(partials := [], docIndex := [], status := RolledBack)
    case Threw => s.(status := Raised)
    case Written(d, f, v) =>
      s.(index := map[], numPostings := 0, numIndex := s.numIndex + 1, partials := s.partials + [Partial(d, f, v)])
  }

  /** The state after line `p`. A blank line or one without tokens changes nothing; a
      line without a tab after its pid, or a document whose pid the record cannot hold
      (longer than 64 characters, or not ASCII) throws once the document index file is
      mapped. Otherwise the document's record is written at the offset, the length is
      added in `int` arithmetic and the tokens are added to the index under the next
      docid. A failed record write is ignored. */
  ghost function LineAt(s: State, env: Env, p: nat): State
    requires p < |env.lines|
  {
    var line := env.lines[p];
    if IsBlank(line) then s
    else
      var parts := Split(line, TAB);
      if |parts| < 2 then s.(status := Raised)
      else
        var tokens := env.preprocess(StripNonAscii(parts[1]));
        if tokens == [] then s
        else Indexed(s, env.docOk(p), parts[0], tokens)
  }

  /** A document with pid `pid` and tokens `tokens`, once its line is parsed: a pid the
      record cannot hold throws when the record write can proceed; otherwise the record
      is written at the offset (unless the write fails), the length is added in `int`
      arithmetic and the tokens are added to the index under the next docid. */
  ghost function Indexed(s: State, docOk: bool, pid: string, tokens: seq<string>): State
  {
    var dl := |tokens|;
    var d := Doc(Some(pid), s.docid, dl);
    if docOk && !Writable(d) then s.(status := Raised)
    else
      var acc := AddTerms(Acc(s.index, s.numPostings), s.docid, dl, tokens);
      s.(index := acc.index, numPostings := acc.numPostings,
         docIndex := if docOk then WriteAt(s.docIndex, s.memOffset, Record(d)) else s.docIndex,
         memOffset := if docOk then s.memOffset + ENTRY_SIZE else s.memOffset,
         docid := s.docid + 1, docsLen := Wrap32(s.docsLen + dl))
  }

  /** Position `p` after the memory check: flushed when memory is low. */
  ghost function Checked(s: State, env: Env, p: nat): State
  {
    if env.flushBefore(p) then FlushAt(s, env, p) else s
  }

  /** Position `p`: the memory check, then line `p`, or the final flush at the end. */
  ghost function StepAt(s: State, env: Env, p: nat): State
  {
    if s.status != Running then s
    else
      var c := Checked(s, env, p);
      if c.status != Running then c
      else if p < |env.lines| then LineAt(c, env, p)
      else FlushAt(c, env, |env.lines|)
  }

  /** The state when the run starts: the offset of the document index reset, no
      partial index yet, and the static counter as it was. */
  function Start(docIndex: seq<byte>, numPostings: int): State
  {
    State(map[], numPostings, 0, [], docIndex, 0, 1, 0, Running)
  }

  /** The state before position `p`. */
  ghost function Steps(env: Env, start: State, p: nat): State
  {
    if p == 0 then start else StepAt(Steps(env, start, p - 1), env, p - 1)
  }

  /** The state at the end of the run: after the final flush. */
  ghost function Final(env: Env, start: State): State
  {
    Steps(env, start, |env.lines| + 1)
  }

  /** What `executeSpimi` returns for the final state. */
  function Returned(env: Env, s: State): int
  {
    match s.status
    case RolledBack => -1
    case Raised => 0
    case Running => if env.sizeOk && env.lenOk then s.numIndex else 0
  }

  // ---------------------------------------------------------------------------
  // what a run keeps

  /** Before position `p`: at most `p` documents have a docid, every posting is for an
      earlier document, the lists are increasing with frequencies of at most
      `MAX_TOKENS`, and unless the run was rolled back there is one partial index per
      successful flush. */
  ghost predicate Shape(s: State, p: nat)
  {
    1 <= s.docid <= p + 1 && SpimiIndex.Before(s.index, s.docid) && Sane(s.index, MAX_TOKENS) &&
    (s.status != RolledBack ==> s.numIndex == |s.partials|)
  }

  lemma FlushShape(s: State, env: Env, p: nat, q: nat)
    requires s.status == Running && Shape(s, q)
    ensures Shape(FlushAt(s, env, p), q)
  {
  }

  lemma LineShape(s: State, env: Env, p: nat)
    requires EnvOk(env) && p < |env.lines| && s.status == Running && Shape(s, p)
    ensures Shape(LineAt(s, env, p), p + 1)
  {
    var line := env.lines[p];
    if !IsBlank(line) {
      var parts := Split(line, TAB);
      if |parts| >= 2 {
        var tokens := env.preprocess(StripNonAscii(parts[1]));
        var d := Doc(Some(parts[0]), s.docid, |tokens|);
        if tokens != [] && !(env.docOk(p) && !Writable(d)) {
          AddTermsSane(Acc(s.index, s.numPostings), s.docid, |tokens|, tokens, MAX_TOKENS);
        }
      }
    }
  }

  lemma StepShape(s: State, env: Env, p: nat)
    requires EnvOk(env) && Shape(s, p)
    ensures Shape(StepAt(s, env, p), p + 1)
  {
    if s.status == Running {
      var c := Checked(s, env, p);
      if env.flushBefore(p) {
        FlushShape(s, env, p, p);
      }
      if c.status == Running {
        if p < |env.lines| {
          LineShape(c, env, p);
        } else {
          FlushShape(c, env, |env.lines|, p + 1);
        }
      }
    }
  }

  /** A run from a start state of the right shape keeps the shape at every position. */
  lemma {:induction false} StepsShape(env: Env, start: State, p: nat)
    requires EnvOk(env) && Shape(start, 0)
    ensures Shape(Steps(env, start, p), p)
  {
    if p > 0 {
      StepsShape(env, start, p - 1);
      StepShape(Steps(env, start, p - 1), env, p - 1);
    }
  }

  /** Once the run has stopped nothing changes any more. */
  lemma {:induction false} StepsStuck(env: Env, start: State, q: nat, p: nat)
    requires q <= p && Steps(env, start, q).status != Running
    ensures Steps(env, start, p) == Steps(env, start, q)
    decreases p
  {
    if p > q {
      StepsStuck(env, start, q, p - 1);
    }
  }

  /** When the run completes and both statistics are saved, it returns the number of
      partial indexes it wrote; otherwise it returns -1 after a rollback and 0 otherwise. */
  lemma ReturnedPartials(env: Env, file: seq<byte>, numPostings: int)
    requires EnvOk(env)
    ensures var f := Final(env, Start(file, numPostings));
            Returned(env, f) == (if f.status == RolledBack then -1
                                 else if f.status == Raised || !env.sizeOk || !env.lenOk then 0
                                 else |f.partials|)
  {
    StepsShape(env, Start(file, numPostings), |env.lines| + 1);
  }

  // ---------------------------------------------------------------------------
  // the posting counter during a run

  /** The counter is the number of postings in the partial index. */
  ghost predicate Counted(s: State)
  {
    s.numPostings == Total(s.index)
  }

  lemma FlushCounted(s: State, env: Env, p: nat)
    requires Counted(s)
    ensures Counted(FlushAt(s, env, p))
  {
  }

  lemma LineCounted(s: State, env: Env, p: nat)
    requires p < |env.lines| && Counted(s)
    ensures Counted(LineAt(s, env, p))
  {
    var line := env.lines[p];
    if !IsBlank(line) {
      var parts := Split(line, TAB);
      if |parts| >= 2 {
        var tokens := env.preprocess(StripNonAscii(parts[1]));
        if tokens != [] {
          var d := Doc(Some(parts[0]), s.docid, |tokens|);
          if !(env.docOk(p) && !Writable(d)) {
            AddTermsCounts(Acc(s.index, s.numPostings), s.docid, |tokens|, tokens);
          }
        }
      }
    }
  }

  lemma StepCounted(s: State, env: Env, p: nat)
    requires Counted(s)
    ensures Counted(StepAt(s, env, p))
  {
    if s.status == Running {
      var c := Checked(s, env, p);
      if env.flushBefore(p) {
        FlushCounted(s, env, p);
      }
      assert Counted(c);
      if c.status == Running {
        if p < |env.lines| {
          LineCounted(c, env, p);
          assert StepAt(s, env, p) == LineAt(c, env, p);
        } else {
          FlushCounted(c, env, |env.lines|);
          assert StepAt(s, env, p) == FlushAt(c, env, |env.lines|);
        }
      }
    }
  }

  /** A run whose static counter starts at zero keeps it equal to the number of postings
      of the partial index, so every flush maps regions of exactly the right size. */
  lemma {:induction false} StepsCounted(env: Env, file: seq<byte>, p: nat)
    ensures Counted(Steps(env, Start(file, 0), p))
  {
    if p > 0 {
      StepsCounted(env, file, p - 1);
      StepCounted(Steps(env, Start(file, 0), p - 1), env, p - 1);
    }
  }

  /** A flush of a non-empty index whose counter is right, whose terms fit a record and
      whose files open and record writes succeed stores a new partial index: the docids
      and the frequencies of the lists in term order, and their vocabulary records
      (sorted by term, each locating its list in the two regions, by `FlushedEntries`). */
  lemma FlushAtWritten(s: State, env: Env, p: nat)
    requires Counted(s) && |s.index| > 0 && (forall t :: t in s.index ==> Fits(t))
    requires 4 * Total(s.index) <= 0x7FFF_FFFF
    requires env.openOk(p) && forall i: nat :: env.vocOk(p)(i)
    ensures var ks := SortedOf(s.index.Keys);
            var flat := Flat(s.index, ks);
            FlushAt(s, env, p) ==
              s.(index := map[], numPostings := 0, numIndex := s.numIndex + 1,
                 partials := s.partials + [Partial(PlainInts(Docids(flat)), PlainInts(Frequencies(flat)),
                                                   Records(Entries(s.index, ks, s.numPostings)))])
  {
    var ks := SortedOf(s.index.Keys);
    var flat := Flat(s.index, ks);
    SortedEnumerates(ks, s.index);
    FlatTotal(s.index, ks);
    assert s.numPostings == |flat|;
    var vocOk := env.vocOk(p);
    assert forall i :: 0 <= i < |ks| ==> vocOk(i);
    FlushWritten(s.index, ks, s.numPostings, vocOk);
    FlushAtOf(s, env, p, Flushed(s.index, s.numPostings, true, vocOk));
  }

  /** `FlushAt` by the outcome of the flush. */
  lemma FlushAtOf(s: State, env: Env, p: nat, fl: Flush)
    requires fl == Flushed(s.index, s.numPostings, env.openOk(p), env.vocOk(p)) && fl.Written?
    ensures FlushAt(s, env, p) ==
              s.(index := map[], numPostings := 0, numIndex := s.numIndex + 1,
                 partials := s.partials + [Partial(fl.docs, fl.freqs, fl.voc)])
  {
  }

  // ---------------------------------------------------------------------------
  // the class

  /** Every frequency of the index fits an `int`. */
  predicate IntFrequencies(index: Index)
  {
    forall t, i :: t in index && 0 <= i < |index[t].postings| ==> IsInt32(index[t].postings[i].frequency)
  }

  lemma SaneFrequencies(index: Index)
    requires Sane(index, MAX_TOKENS)
    ensures IntFrequencies(index)
  {
  }

  /** A run that has thrown while writing list `i` has thrown at the end of the loop. */
  lemma {:induction false} ThrownStays(index: Index, ks: seq<string>, numPostings: int, vocOk: nat -> bool, i: nat)
    requires forall k :: 0 <= k < |ks| ==> ks[k] in index
    requires i <= |ks| && WriteLists(index, ks[..i], numPostings, vocOk).thrown
    ensures WriteLists(index, ks, numPostings, vocOk).thrown
    decreases |ks|
  {
    if i < |ks| {
      var pre := ks[..|ks| - 1];
      assert pre[..i] == ks[..i];
      assert forall k :: 0 <= k < |pre| ==> pre[k] in index;
      ThrownStays(index, pre, numPostings, vocOk, i);
      ThrownStep(index, ks, numPostings, vocOk);
    } else {
      assert ks[..i] == ks;
    }
  }

  lemma ThrownStep(index: Index, ks: seq<string>, numPostings: int, vocOk: nat -> bool)
    requires forall k :: 0 <= k < |ks| ==> ks[k] in index
    requires ks != [] && WriteLists(index, ks[..|ks| - 1], numPostings, vocOk).thrown
    ensures WriteLists(index, ks, numPostings, vocOk).thrown
  {
  }

  /** The flush of an index is its flush in any sorted order of its keys. */
  lemma FlushedBy(index: Index, ks: seq<string>, numPostings: int, openOk: bool, vocOk: nat -> bool)
    requires SortedKeys(ks, index.Keys)
    ensures Flushed(index, numPostings, openOk, vocOk) == FlushOf(index, ks, numPostings, openOk, vocOk)
  {
    SortedKeysUnique(ks, SortedOf(index.Keys), index.Keys);
  }

  /** The loop over the first `i + 1` lists is the loop over the first `i` and then
      list `i`, when that loop has not thrown. */
  lemma WriteListsSnoc(index: Index, ks: seq<string>, numPostings: int, vocOk: nat -> bool, i: nat)
    requires forall k :: 0 <= k < |ks| ==> ks[k] in index
    requires i < |ks| && !WriteLists(index, ks[..i], numPostings, vocOk).thrown
    ensures WriteLists(index, ks[..i + 1], numPostings, vocOk) ==
            WriteList(WriteLists(index, ks[..i], numPostings, vocOk), ks[i], index[ks[i]], numPostings, vocOk(i))
  {
    assert ks[..i + 1][..i] == ks[..i];
  }

  lemma PlainIntsStep(xs: seq<int>, x: int)
    ensures PlainInts(xs + [x]) == PlainInts(xs) + PutInt(x)
  {
    assert (xs + [x])[..|xs|] == xs;
  }

  /** Putting posting `j` after the first `j` extends both regions by it. */
  lemma PostingsStep(docs0: seq<byte>, freqs0: seq<byte>, docs: seq<byte>, freqs: seq<byte>, ps: seq<Posting>, j: nat)
    requires j < |ps|
    requires docs == docs0 + PlainInts(Docids(ps[..j])) && freqs == freqs0 + PlainInts(Frequencies(ps[..j]))
    ensures docs + PutInt(ps[j].docid) == docs0 + PlainInts(Docids(ps[..j + 1]))
    ensures freqs + PutInt(ps[j].frequency) == freqs0 + PlainInts(Frequencies(ps[..j + 1]))
  {
    assert Docids(ps[..j + 1]) == Docids(ps[..j]) + [ps[j].docid];
    assert Frequencies(ps[..j + 1]) == Frequencies(ps[..j]) + [ps[j].frequency];
    PlainIntsStep(Docids(ps[..j]), ps[j].docid);
    PlainIntsStep(Frequencies(ps[..j]), ps[j].frequency);
  }

  /** The inner loop of `saveIndexToDisk`: each posting puts its docid into one region
      and its frequency into the other; a put past `capacity` bytes overflows. */
  method PutPostings(docs0: seq<byte>, freqs0: seq<byte>, ps: seq<Posting>, capacity: int)
    returns (docs: seq<byte>, freqs: seq<byte>, overflow: bool)
    requires |docs0| <= capacity
    ensures overflow <==> |docs0| + 4 * |ps| > capacity
    ensures !overflow ==> docs == docs0 + PlainInts(Docids(ps)) && freqs == freqs0 + PlainInts(Frequencies(ps))
  {
    docs, freqs := docs0, freqs0;
    for j := 0 to |ps|
      invariant docs == docs0 + PlainInts(Docids(ps[..j]))
      invariant freqs == freqs0 + PlainInts(Frequencies(ps[..j]))
      invariant |docs| <= capacity
    {
      if |docs| + 4 > capacity {
        return docs, freqs, true;
      }
      PostingsStep(docs0, freqs0, docs, freqs, ps, j);
      docs := docs + PutInt(ps[j].docid);
      freqs := freqs + PutInt(ps[j].frequency);
    }
    assert ps[..|ps|] == ps;
    overflow := false;
  }

  /** The vocabulary entry of a list: both offsets at `position`, the statistics of
      its postings, its witness, and both sizes the `int` cast of `4 * numPostings`. */
  method EntryOf(t: string, l: TermList, position: int, numPostings: int)
    returns (vocEntry: CommonVocabularyEntry.VocabularyEntry)
    requires 0 <= position <= 0x7FFF_FFFF
    requires forall i :: 0 <= i < |l.postings| ==> IsInt32(l.postings[i].frequency)
    ensures fresh(vocEntry) && vocEntry.Fields() == EntryFor(t, l, position, numPostings)
  {
    vocEntry := new CommonVocabularyEntry.VocabularyEntry(t);
    vocEntry.SetMemoryOffset(position);
    vocEntry.SetFrequencyOffset(position);
    vocEntry.UpdateStatistics(l.postings);
    vocEntry.SetBM25(l.bm25.dl, l.bm25.tf);
    vocEntry.SetDocidSize(Wrap32(4 * numPostings));
    vocEntry.SetFrequencySize(Wrap32(4 * numPostings));
  }

  /** The body of the loop of `saveIndexToDisk` for the list of `t`: the entry is made,
      the postings are put into the regions, and the record is written at the
      vocabulary offset, where a negative offset or, once mapped, a term the record
      cannot hold throws. `ok` says whether the record write succeeds. */
  method WritePostingList(w: Writer, t: string, l: TermList, numPostings: int, ok: bool) returns (r: Writer)
    requires !w.thrown && |w.docs| == |w.freqs| <= 4 * numPostings <= 0x7FFF_FFFF
    requires forall i :: 0 <= i < |l.postings| ==> IsInt32(l.postings[i].frequency)
    ensures r.thrown == WriteList(w, t, l, numPostings, ok).thrown
    ensures !r.thrown ==> r == WriteList(w, t, l, numPostings, ok)
  {
    var vocEntry := EntryOf(t, l, |w.docs|, numPostings);
    var docs, freqs, overflow := PutPostings(w.docs, w.freqs, l.postings, 4 * numPostings);
    if overflow || w.vocOffset < 0 || (ok && !Fits(t)) {
      return w.(thrown := true);
    }
    var vocOffset, voc := vocEntry.WriteEntryToDisk(w.vocOffset, w.voc, ok);
    r := Writer(docs, freqs, voc, vocOffset, false);
  }

  /** The loop of `saveIndexToDisk` over the lists in key order `ks`, which leaves at
      the first exception. */
  method WriteAll(index: Index, ks: seq<string>, numPostings: int, vocOk: nat -> bool) returns (w: Writer)
    requires forall k :: 0 <= k < |ks| ==> ks[k] in index
    requires IntFrequencies(index) && 0 <= 4 * numPostings <= 0x7FFF_FFFF
    ensures w.thrown == WriteLists(index, ks, numPostings, vocOk).thrown
    ensures !w.thrown ==> w == WriteLists(index, ks, numPostings, vocOk)
  {
    w := START;
    var i := 0;
    while i < |ks|
      invariant 0 <= i <= |ks|
      invariant forall k :: 0 <= k < i ==> ks[..i][k] in index
      invariant w == WriteLists(index, ks[..i], numPostings, vocOk)
      invariant !w.thrown && |w.docs| == |w.freqs| <= 4 * numPostings
    {
      WriteListsSnoc(index, ks, numPostings, vocOk, i);
      var next := WritePostingList(w, ks[i], index[ks[i]], numPostings, vocOk(i));
      if next.thrown {
        ThrownStays(index, ks, numPostings, vocOk, i + 1);
        return next;
      }
      w, i := next, i + 1;
    }
    assert ks[..|ks|] == ks;
  }

  /** The writing part of `saveIndexToDisk`: nothing to write for an empty index;
      otherwise the keys are sorted, the three files are opened (false on failure),
      regions of `4 * numPostings` bytes are mapped, which throws for a size outside an
      `int`, and the lists are written in key order. */
  method FlushIndex(index: Index, numPostings: int, openOk: bool, vocOk: nat -> bool) returns (f: Flush)
    requires IntFrequencies(index)
    ensures f == Flushed(index, numPostings, openOk, vocOk)
  {
    if |index| == 0 {
      return Skipped;
    }
    var ks := SortKeys(index.Keys);
    FlushedBy(index, ks, numPostings, openOk, vocOk);
    if !openOk {
      return Failed;
    }
    if 4 * numPostings > 0x7FFF_FFFF || numPostings < 0 {
      return Threw;
    }
    var w := WriteAll(index, ks, numPostings, vocOk);
    if w.thrown {
      return Threw;
    }
    f := Written(WriteAt(Zeros(4 * numPostings), 0, w.docs), WriteAt(Zeros(4 * numPostings), 0, w.freqs), w.voc);
  }

  /** The state `s` is the run's before position `p`, after the memory check there when
      `flushed`, and the run is still going. */
  ghost predicate Reached(env: Env, start: State, p: nat, flushed: bool, s: State)
  {
    Steps(env, start, p).status == Running && s.status == Running &&
    s == (if flushed then Checked(Steps(env, start, p), env, p) else Steps(env, start, p))
  }

  /** Line `p` after the memory check: the run either goes on to position `p + 1` or has
      reached its final state. */
  lemma LineNext(env: Env, start: State, p: nat, flushed: bool, c: State, next: State)
    requires p < |env.lines| && Reached(env, start, p, flushed, c)
    requires flushed || !env.flushBefore(p)
    requires next == LineAt(c, env, p)
    ensures next.status == Running ==> Reached(env, start, p + 1, false, next)
    ensures next.status != Running ==> next == Final(env, start)
  {
    assert Steps(env, start, p + 1) == next;
    if next.status != Running {
      StepsStuck(env, start, p + 1, |env.lines| + 1);
    }
  }

  /** The lines are exhausted at `p` and memory is available for reading that. */
  predicate AtEnd(env: Env, p: nat, flushed: bool)
  {
    p == |env.lines| && (flushed || !env.flushBefore(p))
  }

  /** The flush at `p`, at the end of the lines or when memory is low before line `p`:
      at the end it gives the final state; otherwise the run goes on with the memory
      check at `p` done, or has stopped. */
  lemma FlushNext(env: Env, start: State, p: nat, flushed: bool, c: State, next: State)
    requires p <= |env.lines| && Reached(env, start, p, flushed, c)
    requires AtEnd(env, p, flushed) || (!flushed && env.flushBefore(p))
    requires next == FlushAt(c, env, p)
    ensures next.status != Running || AtEnd(env, p, flushed) ==> next == Final(env, start)
    ensures next.status == Running && !AtEnd(env, p, flushed) ==> Reached(env, start, p, true, next)
  {
    if AtEnd(env, p, flushed) {
      assert Steps(env, start, p + 1) == next;
    } else if next.status != Running {
      assert Steps(env, start, p + 1) == next;
      StepsStuck(env, start, p + 1, |env.lines| + 1);
    }
  }

  /** Before a flush every frequency of the index fits an `int`. */
  lemma RunFrequencies(env: Env, start: State, p: nat, flushed: bool, c: State)
    requires EnvOk(env) && Shape(start, 0) && Reached(env, start, p, flushed, c)
    ensures IntFrequencies(c.index)
  {
    StepsShape(env, start, p);
    if flushed && env.flushBefore(p) {
      FlushShape(Steps(env, start, p), env, p, p);
    }
  }

  /** The static state of `Spimi` together with the index that `executeSpimi` builds:
      the partial index being filled, the posting counter, the number of partial indexes
      and their files, and the two statistics `CollectionSize` keeps. */
  class Spimi {
    var index: Index
    var numPostings: int
    var numIndex: int
    var partials: seq<Partial>
    var collectionSize: int
    var totalDocLen: int

    constructor ()
      ensures index == map[] && numPostings == 0 && numIndex == 0 && partials == []
    {
      index, numPostings, numIndex, partials := map[], 0, 0, [];
      collectionSize, totalDocLen := 0, 0;
    }

    /** The state of the run, with the document index file, the next docid, the total
        length and the status kept by the caller. */
    ghost function Snap(store: DocumentIndexFile, docid: int, docsLen: int, status: Status): State
      reads this, store
      requires store.memOffset >= 0
    {
      State(index, numPostings, numIndex, partials, store.file, store.memOffset, docid, docsLen, status)
    }

    /** `updateOrAddPosting(docid, list)` on the list of `term`: the last posting's
        frequency grows when it is for `docid`; otherwise `(docid, 1)` is appended and
        the counter grows by one. */
    method UpdateOrAddPosting(docid: int, term: string)
      requires term in index
      modifies this
      ensures index == old(index)[term := old(index)[term].(postings := AddOccurrence(old(index)[term].postings, docid))]
      ensures numPostings == old(numPostings) + |index[term].postings| - |old(index)[term].postings|
      ensures numIndex == old(numIndex) && partials == old(partials)
      ensures collectionSize == old(collectionSize) && totalDocLen == old(totalDocLen)
    {
      var ps := index[term].postings;
      if |ps| > 0 {
        var lastPosting := ps[|ps| - 1];
        if docid == lastPosting.docid {
          index := index[term := index[term].(postings := ps[..|ps| - 1] + [Posting(docid, lastPosting.frequency + 1)])];
          return;
        }
      }
      index := index[term := index[term].(postings := ps + [Posting(docid, 1)])];
      numPostings := numPostings + 1;
    }

    /** `updateBM25Params(length, tf)` on the list of `term`: the pair is replaced when
        the new ratio `tf / (length + tf)` is greater. */
    method UpdateBM25Params(term: string, length: int, tf: int)
      requires term in index
      modifies this
      ensures index == old(index)[term := old(index)[term].(bm25 := Update(old(index)[term].bm25, Witness(length, tf)))]
      ensures numPostings == old(numPostings) && numIndex == old(numIndex) && partials == old(partials)
      ensures collectionSize == old(collectionSize) && totalDocLen == old(totalDocLen)
    {
      var l := index[term];
      var currentRatio := Ratio(l.bm25);
      var newRatio := Ratio(Witness(length, tf));
      if Greater(newRatio, currentRatio) {
        index := index[term := l.(bm25 := Witness(length, tf))];
      }
    }

    /** One token of a document: a blank one is skipped; a new term gets an empty list;
        then the occurrence is added and the witness offered the document length and the
        list's posting count. */
    method AddToken(docid: int, dl: int, term: string)
      modifies this
      ensures Acc(index, numPostings) == AddTerm(old(Acc(index, numPostings)), docid, dl, term)
      ensures numIndex == old(numIndex) && partials == old(partials)
      ensures collectionSize == old(collectionSize) && totalDocLen == old(totalDocLen)
    {
      if IsBlank(term) {
        return;
      }
      if term !in index {
        index := index[term := NEW_LIST];
      }
      UpdateOrAddPosting(docid, term);
      UpdateBM25Params(term, dl, |index[term].postings|);
    }

    /** The loop over the tokens of a document. */
    method AddDocument(docid: int, dl: int, tokens: seq<string>)
      modifies this
      ensures Acc(index, numPostings) == AddTerms(old(Acc(index, numPostings)), docid, dl, tokens)
      ensures numIndex == old(numIndex) && partials == old(partials)
      ensures collectionSize == old(collectionSize) && totalDocLen == old(totalDocLen)
    {
      ghost var acc0 := Acc(index, numPostings);
      for k := 0 to |tokens|
        invariant Acc(index, numPostings) == AddTerms(acc0, docid, dl, tokens[..k])
        invariant numIndex == old(numIndex) && partials == old(partials)
        invariant collectionSize == old(collectionSize) && totalDocLen == old(totalDocLen)
      {
        assert tokens[..k + 1][..k] == tokens[..k];
        AddToken(docid, dl, tokens[k]);
      }
      assert tokens[..|tokens|] == tokens;
    }

    /** `saveIndexToDisk(index)`: the index is written as `FlushIndex` says; on success
        the number of indexes grows and the counter is reset. */
    method SaveIndexToDisk(openOk: bool, vocOk: nat -> bool) returns (f: Flush)
      requires IntFrequencies(index)
      modifies this
      ensures f == Flushed(old(index), old(numPostings), openOk, vocOk)
      ensures index == old(index) && collectionSize == old(collectionSize) && totalDocLen == old(totalDocLen)
      ensures f.Written? ==> numPostings == 0 && numIndex == old(numIndex) + 1 &&
                             partials == old(partials) + [Partial(f.docs, f.freqs, f.voc)]
      ensures !f.Written? ==> numPostings == old(numPostings) && numIndex == old(numIndex) && partials == old(partials)
    {
      f := FlushIndex(index, numPostings, openOk, vocOk);
      if f.Written? {
        numIndex := numIndex + 1;
        numPostings := 0;
        partials := partials + [Partial(f.docs, f.freqs, f.voc)];
      }
    }

    /** `rollback()`: the partial index files and the document index file are removed. */
    method Rollback(store: DocumentIndexFile)
      modifies this, store
      ensures partials == [] && store.file == [] && store.memOffset == old(store.memOffset)
      ensures index == old(index) && numPostings == old(numPostings) && numIndex == old(numIndex)
      ensures collectionSize == old(collectionSize) && totalDocLen == old(totalDocLen)
    {
      partials := [];
      store.file := [];
    }

    /** The flush after the inner loop of `executeSpimi`: the index is saved, a failure
        is rolled back, and after a save the index is cleared. */
    method FlushStep(env: Env, p: nat, store: DocumentIndexFile, docid: int, docsLen: int) returns (st: Status)
      requires IntFrequencies(index) && store.memOffset >= 0
      modifies this, store
      ensures store.memOffset == old(store.memOffset)
      ensures Snap(store, docid, docsLen, st) == FlushAt(old(Snap(store, docid, docsLen, Running)), env, p)
      ensures st == Running ==> index == map[]
      ensures collectionSize == old(collectionSize) && totalDocLen == old(totalDocLen)
    {
      var f := SaveIndexToDisk(env.openOk(p), env.vocOk(p));
      if f.Failed? {
        Rollback(store);
        return RolledBack;
      }
      if f.Threw? {
        return Raised;
      }
      if f.Skipped? {
        assert index.Keys == {};
      }
      index := map[];
      st := Running;
    }

    /** The body of the inner loop of `executeSpimi` for line `p`: a blank line is
        skipped; the line is split at tabs, the text loses its non-ASCII characters and
        is preprocessed; a document with tokens gets an entry with the next docid, its
        length is added to the total, the entry is written to the document index and its
        tokens are added to the index. */
    method ProcessLine(env: Env, p: nat, store: DocumentIndexFile, docid: int, docsLen: int)
      returns (docid': int, docsLen': int, st: Status)
      requires p < |env.lines| && store.memOffset >= 0
      modifies this, store
      ensures store.memOffset >= 0
      ensures Snap(store, docid', docsLen', st) == LineAt(old(Snap(store, docid, docsLen, Running)), env, p)
      ensures collectionSize == old(collectionSize) && totalDocLen == old(totalDocLen)
    {
      var line := env.lines[p];
      if IsBlank(line) {
        return docid, docsLen, Running;
      }
      var split := Split(line, TAB);
      if |split| < 2 {
        return docid, docsLen, Raised;
      }
      var tokens := env.preprocess(StripNonAscii(split[1]));
      if |tokens| == 0 {
        return docid, docsLen, Running;
      }
      docid', docsLen', st := IndexDocument(env.docOk(p), split[0], tokens, store, docid, docsLen);
    }

    /** The rest of the loop body for a document with tokens: its entry is created with
        the next docid, written to the document index, its length added to the total and
        its tokens added to the index. */
    method IndexDocument(docOk: bool, pid: string, tokens: seq<string>, store: DocumentIndexFile, docid: int, docsLen: int)
      returns (docid': int, docsLen': int, st: Status)
      requires store.memOffset >= 0
      modifies this, store
      ensures store.memOffset >= 0
      ensures Snap(store, docid', docsLen', st) == Indexed(old(Snap(store, docid, docsLen, Running)), docOk, pid, tokens)
      ensures collectionSize == old(collectionSize) && totalDocLen == old(totalDocLen)
    {
      var documentLength := |tokens|;
      var documentIndexEntry := new DocumentIndexEntry(pid, docid, documentLength);
      docsLen' := Wrap32(docsLen + documentLength);
      if docOk && !Writable(documentIndexEntry.Fields()) {
        return docid, docsLen, Raised;
      }
      var _ := documentIndexEntry.WriteToDisk(store, docOk);
      AddDocument(docid, documentLength, tokens);
      docid', st := docid + 1, Running;
    }

    /** The inner loop of `executeSpimi`: lines are read while memory is available
        (always for the first line after a flush), until the end of the lines, an
        exception, or low memory before a line. */
    method Fill(env: Env, store: DocumentIndexFile, ghost start: State, p0: nat, docid0: int, docsLen0: int, flushed0: bool)
      returns (p: nat, docid: int, docsLen: int, flushed: bool, allDocumentsProcessed: bool, st: Status)
      requires p0 <= |env.lines| && store.memOffset >= 0
      requires Reached(env, start, p0, flushed0, Snap(store, docid0, docsLen0, Running))
      modifies this, store
      ensures p0 <= p <= |env.lines| && store.memOffset >= 0
      ensures collectionSize == old(collectionSize) && totalDocLen == old(totalDocLen)
      ensures st != Running ==> Snap(store, docid, docsLen, st) == Final(env, start)
      ensures st == Running ==> Reached(env, start, p, flushed, Snap(store, docid, docsLen, Running))
      ensures st == Running && allDocumentsProcessed ==> AtEnd(env, p, flushed)
      ensures st == Running && !allDocumentsProcessed ==> !flushed && env.flushBefore(p) && (p == p0 ==> !flushed0)
    {
      p, docid, docsLen, flushed, allDocumentsProcessed, st := p0, docid0, docsLen0, flushed0, false, Running;
      while flushed || !env.flushBefore(p)
        invariant p0 <= p <= |env.lines| && store.memOffset >= 0
        invariant p == p0 ==> flushed == flushed0
        invariant collectionSize == old(collectionSize) && totalDocLen == old(totalDocLen)
        invariant st == Running && Reached(env, start, p, flushed, Snap(store, docid, docsLen, Running))
        decreases |env.lines| - p
      {
        if p == |env.lines| {
          allDocumentsProcessed := true;
          return;
        }
        ghost var c := Snap(store, docid, docsLen, Running);
        docid, docsLen, st := ProcessLine(env, p, store, docid, docsLen);
        LineNext(env, start, p, flushed, c, Snap(store, docid, docsLen, st));
        if st != Running {
          return;
        }
        p, flushed := p + 1, false;
      }
    }

    /** The two loops of `executeSpimi`. The outer loop starts a new index, the inner
        loop reads lines while memory is available, and the index is flushed when memory
        runs low or the lines are exhausted. The run stops at an exception or a failed
        flush, which is rolled back. */
    method Run(env: Env, store: DocumentIndexFile) returns (docid: int, docsLen: int, st: Status)
      requires EnvOk(env) && store.memOffset == 0 && numIndex == 0 && partials == [] && index == map[]
      modifies this, store
      ensures store.memOffset >= 0
      ensures Snap(store, docid, docsLen, st) == Final(env, Start(old(store.file), old(numPostings)))
      ensures collectionSize == old(collectionSize) && totalDocLen == old(totalDocLen)
    {
      ghost var start := Start(store.file, numPostings);
      var allDocumentsProcessed := false;
      docid, docsLen := 1, 0;
      var p: nat := 0;
      var flushed := false;
      while !allDocumentsProcessed
        invariant p <= |env.lines| && store.memOffset >= 0
        invariant collectionSize == old(collectionSize) && totalDocLen == old(totalDocLen)
        invariant !allDocumentsProcessed ==> index == map[] && Reached(env, start, p, flushed, Snap(store, docid, docsLen, Running))
        invariant allDocumentsProcessed ==> Snap(store, docid, docsLen, Running) == Final(env, start)
        decreases (if allDocumentsProcessed then 0 else 1), |env.lines| - p, (if flushed then 0 else 1)
      {
        index := map[];
        p, docid, docsLen, flushed, allDocumentsProcessed, st := Fill(env, store, start, p, docid, docsLen, flushed);
        if st != Running {
          return;
        }
        ghost var c := Snap(store, docid, docsLen, Running);
        RunFrequencies(env, start, p, flushed, c);
        st := FlushStep(env, p, store, docid, docsLen);
        FlushNext(env, start, p, flushed, c, Snap(store, docid, docsLen, st));
        if st != Running {
          return;
        }
        flushed := !allDocumentsProcessed;
      }
      st := Running;
    }

    /** `executeSpimi`: the counter of partial indexes and the document index offset are
        reset, the partial index directories are taken to be empty, and the lines are
        indexed; -1 after a failed flush, 0 after an exception. Then the collection size
        and the total length are saved, 0 if either fails, and the number of partial
        indexes is returned. */
    method ExecuteSpimi(env: Env, store: DocumentIndexFile) returns (r: int)
      requires EnvOk(env)
      modifies this, store
      ensures var f := Final(env, Start(old(store.file), old(numPostings)));
              r == Returned(env, f) && index == f.index && numPostings == f.numPostings &&
              numIndex == f.numIndex && partials == f.partials &&
              store.file == f.docIndex && store.memOffset == f.memOffset
      ensures var f := Final(env, Start(old(store.file), old(numPostings)));
              if f.status == Running
              then collectionSize == f.docid - 1 && totalDocLen == (if env.sizeOk then f.docsLen else old(totalDocLen))
              else collectionSize == old(collectionSize) && totalDocLen == old(totalDocLen)
    {
      numIndex := 0;
      store.ResetOffset();
      partials := [];
      index := map[];
      var docid, docsLen, st := Run(env, store);
      if st != Running {
        return if st == RolledBack then -1 else 0;
      }
      collectionSize := docid - 1;
      if !env.sizeOk {
        return 0;
      }
      totalDocLen := docsLen;
      if !env.lenOk {
        return 0;
      }
      return numIndex;
    }
  }
}
