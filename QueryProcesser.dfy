/**
 * Query processing: the posting lists of the distinct terms of a query, their
 * document-at-a-time evaluation, and the pids of the best documents.
 */
module QueryProcessing {
  import opened Wrappers
  import opened Bytes
  import opened JavaText
  import opened Postings
  import opened PostingText
  import opened CommonVocabularyEntry
  import opened Vocabularies
  import opened DocumentIndexEntries
  import opened DocumentIndexes
  import PL = CommonPostingList
  import opened DAAT

  // ---------------------------------------------------------------------------
  // distinct terms

  /** `stream().distinct()`: the first occurrence of each term, in order. */
  function DistinctTerms(ts: seq<string>): seq<string>
  {
    if ts == [] then []
    else
      var d := DistinctTerms(ts[..|ts| - 1]);
      if ts[|ts| - 1] in d then d else d + [ts[|ts| - 1]]
  }

  /** The position of the first occurrence of `t`. */
  function FirstIndex(ts: seq<string>, t: string): (i: nat)
    requires t in ts
    ensures i < |ts| && ts[i] == t && t !in ts[..i]
  {
    if ts[0] == t then 0 else 1 + FirstIndex(ts[1..], t)
  }

  lemma {:induction false} FirstIndexSnoc(ts: seq<string>, x: string, t: string)
    requires t in ts
    ensures FirstIndex(ts + [x], t) == FirstIndex(ts, t)
  {
    if ts[0] != t {
      assert (ts + [x])[1..] == ts[1..] + [x];
      FirstIndexSnoc(ts[1..], x, t);
    }
  }

  /** The distinct terms are the terms of the query, each once, in the order of their
      first occurrences. */
  lemma {:induction false} DistinctSpec(ts: seq<string>)
    ensures forall t :: t in DistinctTerms(ts) <==> t in ts
    ensures forall a, b :: 0 <= a < b < |DistinctTerms(ts)| ==> DistinctTerms(ts)[a] != DistinctTerms(ts)[b]
    ensures forall a, b :: 0 <= a < b < |DistinctTerms(ts)| ==> FirstIndex(ts, DistinctTerms(ts)[a]) < FirstIndex(ts, DistinctTerms(ts)[b])
  {
    if ts != [] {
      var init, x := ts[..|ts| - 1], ts[|ts| - 1];
      assert ts == init + [x];
      DistinctSpec(init);
      var d := DistinctTerms(init);
      forall t | t in init
        ensures FirstIndex(ts, t) == FirstIndex(init, t)
      {
        FirstIndexSnoc(init, x, t);
      }
      if x !in d {
        assert FirstIndex(ts, x) == |init|;
      }
    }
  }

  lemma PrefixStep(ts: seq<string>, i: int)
    requires 0 <= i < |ts|
    ensures ts[..i + 1] == ts[..i] + [ts[i]] && ts[..i + 1][..i] == ts[..i]
  {
  }

  /** The `i`-th distinct term is a term of the query met for the first time. */
  lemma DistinctAt(ts: seq<string>, i: int)
    requires 0 <= i < |DistinctTerms(ts)|
    ensures DistinctTerms(ts)[i] in ts && DistinctTerms(ts)[i] !in DistinctTerms(ts)[..i]
  {
    DistinctSpec(ts);
  }

  // ---------------------------------------------------------------------------
  // getQueryPostings

  /** Where `vocabulary.getEntry` finds entries during a query: the cache as the query
      found it, and what searching the vocabulary file gives for each term of the
      query. */
  datatype Store = Store(cache: map<string, Entry>, found: map<string, Option<Entry>>)

  /** What `vocabulary.getEntry(term)` gives for a term of the query not yet looked up
      during the query: the cached entry, or the result of searching the file. */
  ghost function Look(st: Store, term: string): Option<Entry>
  {
    if term in st.cache then Some(st.cache[term]) else if term in st.found then st.found[term] else None
  }

  /** `findEntry(term)`: the binary search of the vocabulary file of `size` records,
      whose read fails with an I/O error for the terms in `unreadable`. */
  ghost function FromFile(file: seq<byte>, size: int, unreadable: set<string>, term: string): Option<Entry>
  {
    Search(FileView(file, term !in unreadable), term, 0, size - 1, Defaults(None))
  }

  /** What searching the file gives for each of `terms`. */
  ghost function Answers(file: seq<byte>, size: int, unreadable: set<string>, terms: seq<string>): map<string, Option<Entry>>
  {
    if terms == [] then map[]
    else
      var t := terms[|terms| - 1];
      Answers(file, size, unreadable, terms[..|terms| - 1])[t := FromFile(file, size, unreadable, t)]
  }

  lemma {:induction false} AnswersAt(file: seq<byte>, size: int, unreadable: set<string>, terms: seq<string>, t: string)
    requires t in terms
    ensures t in Answers(file, size, unreadable, terms)
    ensures Answers(file, size, unreadable, terms)[t] == FromFile(file, size, unreadable, t)
  {
    var init := terms[..|terms| - 1];
    if terms[|terms| - 1] != t {
      assert terms == init + [terms[|terms| - 1]];
      AnswersAt(file, size, unreadable, init, t);
    }
  }

  /** The terms that have an entry, in order. */
  ghost function Kept(terms: seq<string>, st: Store): seq<string>
  {
    if terms == [] then []
    else
      var init := Kept(terms[..|terms| - 1], st);
      if Look(st, terms[|terms| - 1]).Some? then init + [terms[|terms| - 1]] else init
  }

  /** Exactly the terms with an entry are kept. */
  lemma {:induction false} KeptMembers(terms: seq<string>, st: Store)
    ensures forall t :: t in Kept(terms, st) <==> t in terms && Look(st, t).Some?
  {
    if terms != [] {
      KeptMembers(terms[..|terms| - 1], st);
      assert terms == terms[..|terms| - 1] + [terms[|terms| - 1]];
    }
  }

  /** Looking at one more term keeps it when it has an entry. */
  lemma KeptStep(terms: seq<string>, i: int, st: Store)
    requires 0 <= i < |terms|
    ensures Kept(terms[..i + 1], st) == Kept(terms[..i], st) + if Look(st, terms[i]).Some? then [terms[i]] else []
  {
    assert terms[..i + 1][..i] == terms[..i];
  }

  /** Every term of a query whose terms all have an entry is kept. */
  lemma {:induction false} KeptAll(terms: seq<string>, st: Store)
    requires forall k :: 0 <= k < |terms| ==> Look(st, terms[k]).Some?
    ensures Kept(terms, st) == terms
  {
    if terms != [] {
      KeptAll(terms[..|terms| - 1], st);
      assert terms[..|terms| - 1] + [terms[|terms| - 1]] == terms;
    }
  }

  /** `getQueryPostings` gives up at the first term without an entry, at `m`. */
  ghost predicate GivesUpAt(terms: seq<string>, st: Store, m: int)
  {
    0 <= m < |terms| && Look(st, terms[m]).None? && AllHave(terms[..m], st)
  }

  /** The entries found for `terms`, as `put` records them one after the other. */
  ghost function Entries(terms: seq<string>, st: Store): map<string, Entry>
  {
    if terms == [] then map[]
    else
      var m := Entries(terms[..|terms| - 1], st);
      var t := terms[|terms| - 1];
      if Look(st, t).Some? then m[t := Look(st, t).value] else m
  }

  /** Only terms looked up have an entry recorded. */
  lemma {:induction false} EntriesKeys(terms: seq<string>, st: Store, t: string)
    requires t !in terms
    ensures t !in Entries(terms, st)
  {
    if terms != [] {
      EntriesKeys(terms[..|terms| - 1], st, t);
    }
  }

  /** Every term looked up, in `terms`, has an entry. */
  ghost predicate AllHave(terms: seq<string>, st: Store)
  {
    terms == [] || (AllHave(terms[..|terms| - 1], st) && Look(st, terms[|terms| - 1]).Some?)
  }

  /** `AllHave` says that each term has an entry. */
  lemma {:induction false} AllHaveSpec(terms: seq<string>, st: Store)
    ensures AllHave(terms, st) <==> forall k :: 0 <= k < |terms| ==> Look(st, terms[k]).Some?
  {
    if terms != [] {
      AllHaveSpec(terms[..|terms| - 1], st);
    }
  }

  /** After the query's lookups of `seen`, the vocabulary maps and caches every term
      looked up that has an entry, and holds the rest as it did. */
  ghost predicate Recorded(contents0: map<string, Entry>, st: Store, contents: map<string, Entry>,
                           cache: map<string, Entry>, seen: seq<string>)
  {
    contents == contents0 + Entries(seen, st) && cache == st.cache + Entries(seen, st)
  }

  /** What `getEntry` gives for a term not yet looked up during the query is `Look`. */
  lemma Looked(st: Store, contents0: map<string, Entry>, contents: map<string, Entry>, cache: map<string, Entry>,
               seen: seq<string>, t: string, r: Option<Entry>)
    requires Recorded(contents0, st, contents, cache, seen) && t !in seen
    requires t in cache ==> r == Some(cache[t])
    requires t !in cache ==> t in st.found && r == st.found[t]
    ensures r == Look(st, t) && (t in cache ==> Look(st, t) == Some(cache[t]))
  {
    EntriesKeys(seen, st, t);
  }

  /** Looking up one more term keeps the record: the vocabulary gains its entry when
      it has one. */
  lemma RecordedStep(contents0: map<string, Entry>, st: Store, contents: map<string, Entry>,
                     cache: map<string, Entry>, seen: seq<string>, t: string,
                     contents': map<string, Entry>, cache': map<string, Entry>)
    requires Recorded(contents0, st, contents, cache, seen)
    requires t in cache ==> Look(st, t) == Some(cache[t]) && cache' == cache
    requires t !in cache ==> cache' == if Look(st, t).Some? then cache[t := Look(st, t).value] else cache
    requires contents' == if Look(st, t).Some? then contents[t := Look(st, t).value] else contents
    ensures Recorded(contents0, st, contents', cache', seen + [t])
  {
    var e := Entries(seen, st);
    assert (seen + [t])[..|seen|] == seen;
    if Look(st, t).Some? {
      var v := Look(st, t).value;
      UpdateUnion(st.cache, e, t, v);
      UpdateUnion(contents0, e, t, v);
      if t in cache {
        assert cache[t := v] == cache;
      }
    }
  }

  lemma UpdateUnion(a: map<string, Entry>, e: map<string, Entry>, t: string, v: Entry)
    ensures (a + e)[t := v] == a + e[t := v]
  {
  }

  /** A term without a tab is a row of its own with no postings. */
  lemma PlainRow(t: string)
    requires TAB !in t
    ensures ParsableRow(t) && RowTerm(t) == t && RowPostings(t) == []
  {
  }

  /** A posting list as `new PostingList(term)` makes it for a term without a tab. */
  predicate Created(p: PL.PostingList, term: string)
    reads p
  {
    p.term == term && p.postings == [] && p.blocks == [] && !p.isOpen
  }

  /** Each posting list as `new PostingList(term)` makes it for its term in `terms`. */
  predicate AllCreated(pls: seq<PL.PostingList>, terms: seq<string>)
    reads pls
  {
    |pls| == |terms| && forall j :: 0 <= j < |pls| ==> Created(pls[j], terms[j])
  }

  lemma CreatedSnoc(pls: seq<PL.PostingList>, terms: seq<string>, p: PL.PostingList, t: string)
    requires AllCreated(pls, terms) && Created(p, t)
    ensures AllCreated(pls + [p], terms + [t])
  {
  }

  /** The vocabulary's part of one step of `getQueryPostings`: `getEntry(term)`, and
      `put(term, entry)` when an entry is found. */
  method Consult(vocabulary: Vocabulary, term: string, file: seq<byte>, vocabularySize: int, unreadable: set<string>,
                 ghost st: Store, ghost contents0: map<string, Entry>, ghost seen: seq<string>)
    returns (entry: Option<Entry>)
    requires term in st.found && st.found[term] == FromFile(file, vocabularySize, unreadable, term)
    requires vocabulary.Valid() && term !in seen
    requires Recorded(contents0, st, vocabulary.contents, vocabulary.cache, seen)
    modifies vocabulary
    ensures vocabulary.Valid() && entry == Look(st, term)
    ensures Recorded(contents0, st, vocabulary.contents, vocabulary.cache, seen + [term])
  {
    ghost var contents, cache := vocabulary.contents, vocabulary.cache;
    entry := vocabulary.GetEntry(term, file, vocabularySize, term !in unreadable);
    Looked(st, contents0, contents, cache, seen, term, entry);
    if entry.Some? {
      vocabulary.Put(term, entry.value);
    }
    RecordedStep(contents0, st, contents, cache, seen, term, vocabulary.contents, vocabulary.cache);
  }

  /** One round of `getQueryPostings`'s loop, on the `i`-th distinct term: its entry
      looked up and put, and a posting list created for it when it has one. */
  method Visit(vocabulary: Vocabulary, queryTerms: seq<string>, i: int, file: seq<byte>, vocabularySize: int,
               unreadable: set<string>, queryPostings: seq<PL.PostingList>, ghost names: seq<string>,
               ghost st: Store, ghost contents0: map<string, Entry>, ghost tokens: seq<string>)
    returns (found: bool, queryPostings': seq<PL.PostingList>, ghost names': seq<string>)
    requires queryTerms == DistinctTerms(tokens) && forall t :: t in tokens ==> TAB !in t
    requires 0 <= i < |queryTerms| && st.found == Answers(file, vocabularySize, unreadable, queryTerms)
    requires vocabulary.Valid() && names == Kept(queryTerms[..i], st) && AllCreated(queryPostings, names)
    requires Recorded(contents0, st, vocabulary.contents, vocabulary.cache, queryTerms[..i])
    modifies vocabulary
    ensures vocabulary.Valid() && found == Look(st, queryTerms[i]).Some?
    ensures AllHave(queryTerms[..i + 1], st) == (AllHave(queryTerms[..i], st) && found)
    ensures names' == Kept(queryTerms[..i + 1], st) && AllCreated(queryPostings', names')
    ensures found ==> |queryPostings'| == |queryPostings| + 1 && fresh(queryPostings'[|queryPostings|]) &&
                      queryPostings' == queryPostings + [queryPostings'[|queryPostings|]]
    ensures !found ==> queryPostings' == queryPostings
    ensures Recorded(contents0, st, vocabulary.contents, vocabulary.cache, queryTerms[..i + 1])
  {
    var queryTerm := queryTerms[i];
    AnswersAt(file, vocabularySize, unreadable, queryTerms, queryTerm);
    PrefixStep(queryTerms, i);
    DistinctAt(tokens, i);
    KeptStep(queryTerms, i, st);
    var entry := Consult(vocabulary, queryTerm, file, vocabularySize, unreadable, st, contents0, queryTerms[..i]);
    found := entry.Some?;
    queryPostings', names' := queryPostings, names;
    if found {
      PlainRow(queryTerm);
      var p := new PL.PostingList(queryTerm);
      CreatedSnoc(queryPostings, names, p, queryTerm);
      queryPostings', names' := queryPostings + [p], names + [queryTerm];
    }
  }

  /** `getQueryPostings(query, isConjunctive)` on the query's tokens: a posting list
      for each distinct term with an entry, in order, each entry put into the
      vocabulary; null when a conjunctive query meets a term without one, after
      recording the terms up to it. `getEntry` reads the vocabulary file `file` of
      `vocabularySize` records, and fails to read it for the terms in `unreadable`. */
  method GetQueryPostings(tokens: seq<string>, isConjunctive: bool, vocabulary: Vocabulary,
                          file: seq<byte>, vocabularySize: int, unreadable: set<string>)
    returns (r: Option<seq<PL.PostingList>>)
    requires vocabulary.Valid()
    requires forall t :: t in tokens ==> TAB !in t
    modifies vocabulary
    ensures vocabulary.Valid()
    ensures var st, terms := Store(old(vocabulary.cache), Answers(file, vocabularySize, unreadable, DistinctTerms(tokens))), DistinctTerms(tokens);
      (r.None? <==> isConjunctive && !AllHave(terms, st)) &&
      (r.None? ==> exists m :: GivesUpAt(terms, st, m) &&
                     Recorded(old(vocabulary.contents), st, vocabulary.contents, vocabulary.cache, terms[..m + 1])) &&
      (r.Some? ==> Recorded(old(vocabulary.contents), st, vocabulary.contents, vocabulary.cache, terms)) &&
      (r.Some? ==> AllCreated(r.value, Kept(terms, st)) && forall j :: 0 <= j < |r.value| ==> fresh(r.value[j]))
  {
    var queryTerms := DistinctTerms(tokens);
    ghost var st := Store(vocabulary.cache, Answers(file, vocabularySize, unreadable, queryTerms));
    ghost var contents0 := vocabulary.contents;
    var queryPostings: seq<PL.PostingList> := [];
    ghost var names: seq<string> := [];
    ghost var made: set<PL.PostingList> := {};
    var i := 0;
    assert queryTerms[..0] == [];
    assert Entries([], st) == map[];
    while i < |queryTerms|
      invariant 0 <= i <= |queryTerms| && vocabulary.Valid()
      invariant isConjunctive ==> AllHave(queryTerms[..i], st)
      invariant names == Kept(queryTerms[..i], st) && AllCreated(queryPostings, names)
      invariant fresh(made) && forall j :: 0 <= j < |queryPostings| ==> queryPostings[j] in made
      invariant Recorded(contents0, st, vocabulary.contents, vocabulary.cache, queryTerms[..i])
    {
      ghost var before := queryPostings;
      var found;
      found, queryPostings, names := Visit(vocabulary, queryTerms, i, file, vocabularySize, unreadable,
                                           queryPostings, names, st, contents0, tokens);
      if !found && isConjunctive {
        assert GivesUpAt(queryTerms, st, i);
        assert Recorded(contents0, st, vocabulary.contents, vocabulary.cache, queryTerms[..i + 1]);
        AllHaveSpec(queryTerms, st);
        assert !AllHave(queryTerms, st);
        return None;
      }
      if found {
        made := made + {queryPostings[|before|]};
      }
      i := i + 1;
    }
    assert queryTerms[..i] == queryTerms;
    assert names == Kept(queryTerms, st) && AllCreated(queryPostings, Kept(queryTerms, st));
    assert Recorded(contents0, st, vocabulary.contents, vocabulary.cache, queryTerms);
    assert isConjunctive ==> AllHave(queryTerms, st);
    return Some(queryPostings);
  }

  // ---------------------------------------------------------------------------
  // lookupPid

  /** The slots `lookupPid` fills from the documents `ranked`, best first: their pids,
      then nulls. */
  predicate Ranks(slots: seq<Option<string>>, ranked: seq<Scored>, index: map<int, Doc>)
  {
    |ranked| <= |slots| &&
    (forall a, b :: 0 <= a < b < |ranked| ==> ranked[a].score >= ranked[b].score) &&
    (forall j :: 0 <= j < |ranked| ==> ranked[j].docid in index && slots[j] == index[ranked[j].docid].pid) &&
    (forall j :: |ranked| <= j < |slots| ==> slots[j].None?)
  }

  /** Polling the least entry `v` of `h` and putting it in front of `ranked`, whose
      entries are all at most those of `h`, keeps `ranked` best first. */
  lemma PollStep(h: multiset<Scored>, v: Scored, ranked: seq<Scored>)
    requires Least(v, h)
    requires forall x, j :: x in h && 0 <= j < |ranked| ==> ranked[j].score <= x.score
    requires forall a, b :: 0 <= a < b < |ranked| ==> ranked[a].score >= ranked[b].score
    ensures forall x, j :: x in h - multiset{v} && 0 <= j < |[v] + ranked| ==> ([v] + ranked)[j].score <= x.score
    ensures forall a, b :: 0 <= a < b < |[v] + ranked| ==> ([v] + ranked)[a].score >= ([v] + ranked)[b].score
    ensures multiset([v] + ranked) + (h - multiset{v}) == multiset(ranked) + h
  {
    var r := [v] + ranked;
    forall x, j | x in h - multiset{v} && 0 <= j < |r|
      ensures r[j].score <= x.score
    {
      assert x in h;
      if j > 0 {
        assert r[j] == ranked[j - 1];
      }
    }
    forall a, b | 0 <= a < b < |r|
      ensures r[a].score >= r[b].score
    {
      assert r[b] == ranked[b - 1];
      if a > 0 {
        assert r[a] == ranked[a - 1];
      }
    }
    assert multiset(r) == multiset{v} + multiset(ranked);
  }

  /** The slots from `from` on hold the pids of the documents of `ranked`, in order. */
  predicate Filled(slots: seq<Option<string>>, from: int, ranked: seq<Scored>, index: map<int, Doc>)
  {
    0 <= from && from + |ranked| <= |slots| &&
    forall j :: 0 <= j < |ranked| ==> ranked[j].docid in index && slots[from + j] == index[ranked[j].docid].pid
  }

  /** Writing the pid of `v` into the slot before those filled extends them by `v`. */
  lemma FillStep(slots: seq<Option<string>>, i: int, v: Scored, ranked: seq<Scored>, index: map<int, Doc>)
    requires 0 <= i && Filled(slots, i + 1, ranked, index) && v.docid in index
    ensures Filled(slots[i := index[v.docid].pid], i, [v] + ranked, index)
  {
    var r, s := [v] + ranked, slots[i := index[v.docid].pid];
    forall j | 0 <= j < |r|
      ensures r[j].docid in index && s[i + j] == index[r[j].docid].pid
    {
      if j > 0 {
        assert r[j] == ranked[j - 1] && s[i + j] == slots[i + 1 + (j - 1)];
      }
    }
  }

  /** The state of `lookupPid`'s loop, `i` being the next slot to fill: the documents
      polled from the queue `h0`, best first in `ranked`, are at most those left in
      `h`, and their pids fill the slots after `i`; the others stay null. */
  predicate Draining(h0: multiset<Scored>, h: multiset<Scored>, ranked: seq<Scored>,
                     slots: seq<Option<string>>, i: int, index: map<int, Doc>)
  {
    -1 <= i && i + 1 == |h| && |h0| <= |slots| && multiset(ranked) + h == h0 &&
    (forall e :: e in h ==> e.docid in index) &&
    (forall x, j :: x in h && 0 <= j < |ranked| ==> ranked[j].score <= x.score) &&
    (forall a, b :: 0 <= a < b < |ranked| ==> ranked[a].score >= ranked[b].score) &&
    Filled(slots, i + 1, ranked, index) &&
    (forall j :: |h0| <= j < |slots| ==> slots[j].None?)
  }

  /** One round of `lookupPid`: polling the least entry and writing its pid. */
  lemma DrainStep(h0: multiset<Scored>, h: multiset<Scored>, ranked: seq<Scored>,
                  slots: seq<Option<string>>, i: int, index: map<int, Doc>, v: Scored)
    requires Draining(h0, h, ranked, slots, i, index) && Least(v, h)
    ensures v.docid in index && 0 <= i
    ensures Draining(h0, h - multiset{v}, [v] + ranked, slots[i := index[v.docid].pid], i - 1, index)
  {
    PollStep(h, v, ranked);
    assert multiset(ranked) + h == h0;
    FillStep(slots, i, v, ranked, index);
    assert |multiset(ranked)| + |h| == |h0|;
  }

  /** When the queue is drained, the slots rank its documents. */
  lemma Drained(h0: multiset<Scored>, h: multiset<Scored>, ranked: seq<Scored>,
                slots: seq<Option<string>>, index: map<int, Doc>)
    requires Draining(h0, h, ranked, slots, -1, index)
    ensures h == multiset{} && multiset(ranked) == h0 && Ranks(slots, ranked, index)
  {
    assert |multiset(ranked)| + |h| == |h0|;
    assert |ranked| == |h0|;
  }

  /** One round of `lookupPid`'s loop: the queue's least entry polled and its pid
      written into slot `i`. */
  method PollInto(priorityQueue: ScoreHeap, topKDocuments: array<Option<string>>, i: int,
                  documentIndex: DocumentIndex, ghost h0: multiset<Scored>, ghost ranked: seq<Scored>)
    returns (ghost ranked': seq<Scored>)
    requires 0 <= i && Draining(h0, priorityQueue.entries, ranked, topKDocuments[..], i, documentIndex.contents)
    modifies priorityQueue, topKDocuments
    ensures Draining(h0, priorityQueue.entries, ranked', topKDocuments[..], i - 1, documentIndex.contents)
  {
    ghost var h, slots, index := priorityQueue.entries, topKDocuments[..], documentIndex.contents;
    var polled := priorityQueue.Poll();
    DrainStep(h0, h, ranked, slots, i, index, polled.value);
    topKDocuments[i] := documentIndex.GetPid(polled.value.docid);
    assert topKDocuments[..] == slots[i := index[polled.value.docid].pid];
    ranked' := [polled.value] + ranked;
  }

  /** `lookupPid(priorityQueue, k)`: the array of `k` pids filled from its last slot
      down, polling the queue's least entry each time, so that the best document comes
      first; the slots beyond the queue's size stay null. `ranked` is the order of
      the documents in the array. */
  method LookupPid(priorityQueue: ScoreHeap, k: int, documentIndex: DocumentIndex)
    returns (topKDocuments: array<Option<string>>, ghost ranked: seq<Scored>)
    requires 0 <= k && |priorityQueue.entries| <= k
    requires forall e :: e in priorityQueue.entries ==> e.docid in documentIndex.contents
    modifies priorityQueue
    ensures fresh(topKDocuments) && topKDocuments.Length == k
    ensures multiset(ranked) == old(priorityQueue.entries) && priorityQueue.entries == multiset{}
    ensures Ranks(topKDocuments[..], ranked, documentIndex.contents)
  {
    topKDocuments := new Option<string>[k](_ => None);
    ghost var h0, index := priorityQueue.entries, documentIndex.contents;
    var i := priorityQueue.Size() - 1;
    ranked := [];
    while i >= 0
      invariant Draining(h0, priorityQueue.entries, ranked, topKDocuments[..], i, index)
    {
      assert |priorityQueue.entries| == i + 1;
      var top := priorityQueue.Peek();
      if top.None? {
        // the queue holds i + 1 >= 1 entries
        assert false;
        break;
      }
      ranked := PollInto(priorityQueue, topKDocuments, i, documentIndex, h0, ranked);
      i := i - 1;
    }
    Drained(h0, priorityQueue.entries, ranked, topKDocuments[..], index);
  }

  // ---------------------------------------------------------------------------
  // processQuery

  /** The terms of the posting lists, in order. */
  function TermsOf(pls: seq<PL.PostingList>): (r: seq<string>)
    reads pls
    ensures |r| == |pls| && forall j :: 0 <= j < |pls| ==> r[j] == pls[j].term
  {
    if pls == [] then [] else [pls[0].term] + TermsOf(pls[1..])
  }

  /** The lists of `terms` as `openPostingList` leaves them: every posting the index
      holds for the term, `postingsOf(term)`, still to come. */
  function Opening(terms: seq<string>, postingsOf: string -> seq<Posting>): (r: Lists)
    ensures |r| == |terms| && forall j :: 0 <= j < |terms| ==> r[j] == Some(ListView(terms[j], postingsOf(terms[j]), None))
  {
    if terms == [] then [] else [Some(ListView(terms[0], postingsOf(terms[0]), None))] + Opening(terms[1..], postingsOf)
  }

  /** The inverted index keeps each term's postings in increasing docid order, every
      docid a non-negative Java `int`. */
  ghost predicate Sound(postingsOf: string -> seq<Posting>)
  {
    forall t :: Increasing(postingsOf(t)) &&
      forall j :: 0 <= j < |postingsOf(t)| ==> 0 <= postingsOf(t)[j].docid <= MAX_INT
  }

  /** Every docid of the inverted index is a document of the document index. */
  ghost predicate Known(postingsOf: string -> seq<Posting>, index: map<int, Doc>)
  {
    forall t, j :: 0 <= j < |postingsOf(t)| ==> postingsOf(t)[j].docid in index
  }

  /** `vocabulary.getIdf(term)`: the idf of the term's entry, which the query's
      lookups have cached. */
  function IdfOf(cache: map<string, Entry>): string -> Opaque8
  {
    t => if t in cache then cache[t].idf else ZERO_DOUBLE
  }

  /** The opened lists of a sound index are what `scoreQuery` accepts. */
  lemma SoundOpening(terms: seq<string>, postingsOf: string -> seq<Posting>)
    requires Sound(postingsOf)
    ensures NoNulls(Opening(terms, postingsOf)) && IntDocids(Opening(terms, postingsOf))
    ensures forall j :: 0 <= j < |terms| ==> Opened(Opening(terms, postingsOf)[j].value)
  {
  }

  /** The documents `DAAT.scoreQuery(queryPostings, true, k, scoringFunction)` scores for
      the opened lists of `terms`, in order, with their scores. */
  ghost function ConjunctiveScores(terms: seq<string>, postingsOf: string -> seq<Posting>,
                                   cache: map<string, Entry>, score: (Posting, Opaque8) -> real): seq<Scored>
    requires Sound(postingsOf)
  {
    SoundOpening(terms, postingsOf);
    Evaluation(Initialized(Opening(terms, postingsOf)), true, IdfOf(cache), score)
  }

  /** Every document kept from a conjunctive evaluation holds all the terms, and so is
      a document of the document index. */
  lemma KeptCommon(kept: multiset<Scored>, terms: seq<string>, postingsOf: string -> seq<Posting>,
                   cache: map<string, Entry>, score: (Posting, Opaque8) -> real, k: nat, index: map<int, Doc>)
    requires Sound(postingsOf) && Known(postingsOf, index) && |terms| > 0
    requires TopK(kept, ConjunctiveScores(terms, postingsOf, cache, score), k)
    ensures |kept| <= k
    ensures forall e, t :: e in kept && t in terms ==> e.docid in Docids(postingsOf(t))
    ensures forall e :: e in kept ==> e.docid in index
  {
    var ls := Opening(terms, postingsOf);
    var ev := ConjunctiveScores(terms, postingsOf, cache, score);
    SoundOpening(terms, postingsOf);
    ScoresAsked(ls, true, IdfOf(cache), score);
    forall e, t | e in kept && t in terms
      ensures e.docid in Docids(postingsOf(t))
    {
      assert e in multiset(ev);
      var a :| 0 <= a < |ev| && ev[a] == e;
      var j :| 0 <= j < |terms| && terms[j] == t;
      assert Asked(ls, true, ev[a].docid);
      assert ls[j].value.rest == postingsOf(t);
    }
    forall e | e in kept
      ensures e.docid in index
    {
      assert e.docid in Docids(postingsOf(terms[0]));
      var i :| 0 <= i < |postingsOf(terms[0])| && Docids(postingsOf(terms[0]))[i] == e.docid;
    }
  }

  /** `DAAT.scoreQuery(queryPostings, true, k, scoringFunction)` over the opened lists
      of `queryTerms`: the heap of the `k` best documents of the conjunctive evaluation. */
  method ScoreConjunctive(queryTerms: seq<string>, k: int, postingsOf: string -> seq<Posting>,
                          cache: map<string, Entry>, score: (Posting, Opaque8) -> real, documentIndex: DocumentIndex)
    returns (priorityQueue: ScoreHeap)
    requires |queryTerms| > 0 && k >= 1 && Sound(postingsOf) && Known(postingsOf, documentIndex.contents)
    ensures fresh(priorityQueue)
    ensures TopK(priorityQueue.entries, ConjunctiveScores(queryTerms, postingsOf, cache, score), k)
    ensures |priorityQueue.entries| <= k
    ensures forall e, t :: e in priorityQueue.entries && t in queryTerms ==> e.docid in Docids(postingsOf(t))
    ensures forall e :: e in priorityQueue.entries ==> e.docid in documentIndex.contents
  {
    var views := Opening(queryTerms, postingsOf);
    SoundOpening(queryTerms, postingsOf);
    ghost var processed;
    priorityQueue, processed := ScoreQuery(views, true, k, IdfOf(cache), score);
    KeptCommon(priorityQueue.entries, queryTerms, postingsOf, cache, score, k, documentIndex.contents);
  }

  /** The second half of `processQuery`, once the lists of `queryTerms` are there: the
      heap of `DAAT.scoreQuery` in conjunctive mode, or with max-score enabled the heap
      `maxScoreResult`, turned by `lookupPid` into the `k` pids, best first. `cache` is
      the vocabulary cache the idfs come from. */
  method Rank(queryTerms: seq<string>, k: int, maxScoreEnabled: bool, postingsOf: string -> seq<Posting>,
              score: (Posting, Opaque8) -> real, cache: map<string, Entry>,
              documentIndex: DocumentIndex, maxScoreResult: ScoreHeap)
    returns (topKDocuments: array<Option<string>>, ghost ranked: seq<Scored>)
    requires |queryTerms| > 0 && k >= 1 && Sound(postingsOf) && Known(postingsOf, documentIndex.contents)
    requires maxScoreEnabled ==>
      |maxScoreResult.entries| <= k && forall e :: e in maxScoreResult.entries ==> e.docid in documentIndex.contents
    modifies maxScoreResult
    ensures fresh(topKDocuments) && topKDocuments.Length == k && Ranks(topKDocuments[..], ranked, documentIndex.contents)
    ensures !maxScoreEnabled ==>
      TopK(multiset(ranked), ConjunctiveScores(queryTerms, postingsOf, cache, score), k) &&
      forall j, t :: 0 <= j < |ranked| && t in queryTerms ==> ranked[j].docid in Docids(postingsOf(t))
    ensures maxScoreEnabled ==> multiset(ranked) == old(maxScoreResult.entries)
    ensures maxScoreResult.entries == if maxScoreEnabled then multiset{} else old(maxScoreResult.entries)
  {
    var priorityQueue: ScoreHeap;
    if !maxScoreEnabled {
      priorityQueue := ScoreConjunctive(queryTerms, k, postingsOf, cache, score, documentIndex);
    } else {
      priorityQueue := maxScoreResult;
    }
    ghost var h := priorityQueue.entries;
    topKDocuments, ranked := LookupPid(priorityQueue, k, documentIndex);
    if !maxScoreEnabled {
      forall j, t | 0 <= j < |ranked| && t in queryTerms
        ensures ranked[j].docid in Docids(postingsOf(t))
      {
        assert ranked[j] in multiset(ranked);
      }
    }
  }

  /** `processQuery(query, k, isConjunctive, scoringFunction)` on the query's tokens:
      null when `getQueryPostings` gives null or no list; otherwise the pids of the
      best documents, best first, from the heap that `DAAT.scoreQuery` fills in
      conjunctive mode whatever `isConjunctive` says, or, with max-score enabled, from
      the heap `maxScoreResult` that `MaxScore.scoreQuery` gives. `score` is the
      scoring function chosen; the index holds `postingsOf(term)` for each term. */
  method ProcessQuery(tokens: seq<string>, k: int, isConjunctive: bool, maxScoreEnabled: bool,
                      vocabulary: Vocabulary, file: seq<byte>, vocabularySize: int, unreadable: set<string>,
                      postingsOf: string -> seq<Posting>, score: (Posting, Opaque8) -> real,
                      documentIndex: DocumentIndex, maxScoreResult: ScoreHeap)
    returns (r: Option<array<Option<string>>>, ghost ranked: seq<Scored>)
    requires vocabulary.Valid() && forall t :: t in tokens ==> TAB !in t
    requires k >= 1 && Sound(postingsOf) && Known(postingsOf, documentIndex.contents)
    requires maxScoreEnabled ==>
      |maxScoreResult.entries| <= k && forall e :: e in maxScoreResult.entries ==> e.docid in documentIndex.contents
    modifies vocabulary, maxScoreResult
    ensures vocabulary.Valid()
    ensures var st, terms := Store(old(vocabulary.cache), Answers(file, vocabularySize, unreadable, DistinctTerms(tokens))), DistinctTerms(tokens);
      (r.None? <==> (isConjunctive && !AllHave(terms, st)) || Kept(terms, st) == []) &&
      (isConjunctive && !AllHave(terms, st) ==>
         exists m :: GivesUpAt(terms, st, m) &&
                     Recorded(old(vocabulary.contents), st, vocabulary.contents, vocabulary.cache, terms[..m + 1])) &&
      (!(isConjunctive && !AllHave(terms, st)) ==>
         Recorded(old(vocabulary.contents), st, vocabulary.contents, vocabulary.cache, terms)) &&
      (r.Some? ==> fresh(r.value) && r.value.Length == k && Ranks(r.value[..], ranked, documentIndex.contents)) &&
      (r.Some? && !maxScoreEnabled ==>
         TopK(multiset(ranked), ConjunctiveScores(Kept(terms, st), postingsOf, vocabulary.cache, score), k) &&
         forall j, t :: 0 <= j < |ranked| && t in Kept(terms, st) ==> ranked[j].docid in Docids(postingsOf(t))) &&
      (r.Some? && maxScoreEnabled ==> multiset(ranked) == old(maxScoreResult.entries))
    ensures maxScoreResult.entries == if r.Some? && maxScoreEnabled then multiset{} else old(maxScoreResult.entries)
  {
    ranked := [];
    ghost var terms := DistinctTerms(tokens);
    ghost var st := Store(vocabulary.cache, Answers(file, vocabularySize, unreadable, terms));
    var queryPostings := GetQueryPostings(tokens, isConjunctive, vocabulary, file, vocabularySize, unreadable);
    if queryPostings.None? || |queryPostings.value| == 0 {
      return None, ranked;
    }
    var queryTerms := TermsOf(queryPostings.value);
    assert queryTerms == Kept(terms, st);
    var topKDocuments;
    topKDocuments, ranked := Rank(queryTerms, k, maxScoreEnabled, postingsOf, score, vocabulary.cache,
                                  documentIndex, maxScoreResult);
    r := Some(topKDocuments);
  }
}
