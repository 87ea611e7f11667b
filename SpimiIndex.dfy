/**
 * The partial index that SPIMI builds in memory, as values: a map from each term to
 * its posting list, and the count of postings added since the last flush. Adding an
 * occurrence of a term in document `docid` either raises the frequency of the list's
 * last posting, when that posting is for `docid`, or appends `(docid, 1)`; after each
 * occurrence the list's BM25 witness is offered the document length and the list's
 * posting count.
 */
module SpimiIndex {
  import opened JavaText
  import opened Postings
  import opened Bm25
  import opened JavaMath

  /** The part of a posting list the indexer changes: its postings and its witness. */
  datatype TermList = TermList(postings: seq<Posting>, bm25: Witness)

  /** `new PostingList(term)`: no postings and the starting witness. */
  const NEW_LIST: TermList := TermList([], Initial)

  type Index = map<string, TermList>

  /** The index and the static posting counter `numPostings`. */
  datatype Acc = Acc(index: Index, numPostings: int)

  /** `updateOrAddPosting(docid, list)` on the postings. */
  function AddOccurrence(ps: seq<Posting>, docid: int): seq<Posting>
  {
    if ps != [] && ps[|ps| - 1].docid == docid then
      ps[..|ps| - 1] + [Posting(docid, ps[|ps| - 1].frequency + 1)]
    else
      ps + [Posting(docid, 1)]
  }

  /** Every posting of every list is for a document before `docid`. */
  predicate Before(index: Index, docid: int)
  {
    forall t, i :: t in index && 0 <= i < |index[t].postings| ==> index[t].postings[i].docid < docid
  }

  /** A same-document occurrence raises the last frequency by one and appends nothing;
      any other appends `(docid, 1)`. Either way one more occurrence is counted, and a
      list whose docids are below or at `docid` stays strictly increasing. */
  lemma AddOccurrenceEffect(ps: seq<Posting>, docid: int)
    requires Increasing(ps)
    requires forall i :: 0 <= i < |ps| ==> ps[i].docid <= docid
    ensures var r := AddOccurrence(ps, docid);
            Increasing(r) && r != [] && r[|r| - 1].docid == docid &&
            r[..|r| - 1] == ps[..|r| - 1] &&
            (if ps != [] && ps[|ps| - 1].docid == docid
             then |r| == |ps| && r[|r| - 1].frequency == ps[|ps| - 1].frequency + 1
             else |r| == |ps| + 1 && r[|r| - 1].frequency == 1)
  {
  }

  function ListOf(index: Index, term: string): TermList
  {
    if term in index then index[term] else NEW_LIST
  }

  /** One iteration of the loop over a document's tokens: a blank term is skipped;
      otherwise its list is created if needed, the occurrence is added, and the
      witness is offered `(documentLength, postings.size())`. */
  function AddTerm(acc: Acc, docid: int, dl: int, term: string): Acc
  {
    if IsBlank(term) then acc
    else
      var l := ListOf(acc.index, term);
      var ps := AddOccurrence(l.postings, docid);
      Acc(acc.index[term := TermList(ps, Update(l.bm25, Witness(dl, |ps|)))],
          acc.numPostings + (|ps| - |l.postings|))
  }

  /** The loop over all the tokens of a document. */
  function AddTerms(acc: Acc, docid: int, dl: int, tokens: seq<string>): Acc
  {
    if tokens == [] then acc
    else AddTerm(AddTerms(acc, docid, dl, tokens[..|tokens| - 1]), docid, dl, tokens[|tokens| - 1])
  }

  /** The distinct terms of a document that are not blank. */
  function Terms(tokens: seq<string>): set<string>
  {
    set t | t in tokens && !IsBlank(t)
  }

  /** The number of occurrences of `t` among the tokens. */
  function Occurrences(tokens: seq<string>, t: string): nat
  {
    multiset(tokens)[t]
  }

  /** Offering the same candidate twice is offering it once. */
  lemma UpdateIdempotent(w: Witness, c: Witness)
    ensures Update(Update(w, c), c) == Update(w, c)
  {
    GreaterOrder(Ratio(c), Ratio(c), Ratio(c));
  }

  /** The list a non-blank term of the document has after it: the list before, with
      `(docid, occurrences)` appended and its witness offered `(dl, size)` for the
      list's new size. */
  function Grown(l: TermList, docid: int, dl: int, n: nat): TermList
  {
    TermList(l.postings + [Posting(docid, n)], Update(l.bm25, Witness(dl, |l.postings| + 1)))
  }

  /** The list a term has after a document: grown by one posting when it is one of the
      document's non-blank terms, unchanged otherwise. */
  function Expected(acc: Acc, docid: int, dl: int, tokens: seq<string>, t: string): TermList
  {
    if t in Terms(tokens) then Grown(ListOf(acc.index, t), docid, dl, Occurrences(tokens, t))
    else ListOf(acc.index, t)
  }

  /** What a document does to the partial index, given that every posting so far is
      for an earlier document: each non-blank term of the document has its list grown
      by one posting (a new list for a new term), every other list is unchanged, and
      the counter grows by the number of distinct non-blank terms. */
  ghost predicate Effect(acc: Acc, docid: int, dl: int, tokens: seq<string>, r: Acc)
  {
    (forall t :: t in r.index <==> t in acc.index || t in Terms(tokens)) &&
    (forall t :: t in r.index ==> r.index[t] == Expected(acc, docid, dl, tokens, t)) &&
    r.numPostings == acc.numPostings + |Terms(tokens)|
  }

  lemma {:induction false} AddTermsEffect(acc: Acc, docid: int, dl: int, tokens: seq<string>)
    requires Before(acc.index, docid)
    ensures Effect(acc, docid, dl, tokens, AddTerms(acc, docid, dl, tokens))
  {
    if tokens == [] {
      assert Terms(tokens) == {};
    } else {
      var init := tokens[..|tokens| - 1];
      var x := tokens[|tokens| - 1];
      assert tokens == init + [x];
      AddTermsEffect(acc, docid, dl, init);
      var prev := AddTerms(acc, docid, dl, init);
      if IsBlank(x) {
        BlankStep(acc, docid, dl, init, x, prev);
      } else if x in Terms(init) {
        RepeatStep(acc, docid, dl, init, x, prev);
      } else {
        FirstStep(acc, docid, dl, init, x, prev);
      }
    }
  }

  lemma OccurrencesSnoc(init: seq<string>, x: string, t: string)
    ensures Occurrences(init + [x], t) == Occurrences(init, t) + (if t == x then 1 else 0)
  {
    assert multiset(init + [x]) == multiset(init) + multiset{x};
  }

  lemma AddOccurrenceOnLast(ps: seq<Posting>, docid: int, n: int)
    ensures AddOccurrence(ps + [Posting(docid, n)], docid) == ps + [Posting(docid, n + 1)]
  {
    var qs := ps + [Posting(docid, n)];
    assert qs[..|qs| - 1] == ps;
    assert qs[|qs| - 1] == Posting(docid, n);
  }

  /** A blank token changes nothing. */
  lemma BlankStep(acc: Acc, docid: int, dl: int, init: seq<string>, x: string, prev: Acc)
    requires IsBlank(x) && Effect(acc, docid, dl, init, prev)
    ensures Effect(acc, docid, dl, init + [x], AddTerm(prev, docid, dl, x))
  {
    var tokens := init + [x];
    assert Terms(tokens) == Terms(init);
    forall t | t in prev.index
      ensures prev.index[t] == Expected(acc, docid, dl, tokens, t)
    {
      OccurrencesSnoc(init, x, t);
    }
  }

  /** A term already seen in the document raises its frequency; its list keeps its
      size, so the witness is offered the same pair again. */
  lemma RepeatStep(acc: Acc, docid: int, dl: int, init: seq<string>, x: string, prev: Acc)
    requires !IsBlank(x) && x in Terms(init) && Effect(acc, docid, dl, init, prev)
    ensures Effect(acc, docid, dl, init + [x], AddTerm(prev, docid, dl, x))
  {
    var r := AddTerm(prev, docid, dl, x);
    assert Terms(init + [x]) == Terms(init);
    forall t | t in r.index
      ensures r.index[t] == Expected(acc, docid, dl, init + [x], t)
    {
      RepeatAt(acc, docid, dl, init, x, prev, t);
    }
  }

  lemma RepeatAt(acc: Acc, docid: int, dl: int, init: seq<string>, x: string, prev: Acc, t: string)
    requires !IsBlank(x) && x in Terms(init) && Effect(acc, docid, dl, init, prev)
    requires t in prev.index || t == x
    ensures AddTerm(prev, docid, dl, x).index[t] == Expected(acc, docid, dl, init + [x], t)
  {
    assert Terms(init + [x]) == Terms(init);
    OccurrencesSnoc(init, x, t);
    if t == x {
      var l := ListOf(acc.index, x);
      var n := Occurrences(init, x);
      assert prev.index[x] == Grown(l, docid, dl, n);
      AddOccurrenceOnLast(l.postings, docid, n);
      UpdateIdempotent(l.bm25, Witness(dl, |l.postings| + 1));
    }
  }

  /** The first occurrence of a term in the document appends `(docid, 1)` to its list,
      whose postings are all for earlier documents. */
  lemma FirstStep(acc: Acc, docid: int, dl: int, init: seq<string>, x: string, prev: Acc)
    requires Before(acc.index, docid)
    requires !IsBlank(x) && x !in Terms(init) && Effect(acc, docid, dl, init, prev)
    ensures Effect(acc, docid, dl, init + [x], AddTerm(prev, docid, dl, x))
  {
    var r := AddTerm(prev, docid, dl, x);
    assert Terms(init + [x]) == Terms(init) + {x};
    forall t | t in r.index
      ensures r.index[t] == Expected(acc, docid, dl, init + [x], t)
    {
      FirstAt(acc, docid, dl, init, x, prev, t);
    }
  }

  lemma FirstAt(acc: Acc, docid: int, dl: int, init: seq<string>, x: string, prev: Acc, t: string)
    requires Before(acc.index, docid)
    requires !IsBlank(x) && x !in Terms(init) && Effect(acc, docid, dl, init, prev)
    requires t in prev.index || t == x
    ensures AddTerm(prev, docid, dl, x).index[t] == Expected(acc, docid, dl, init + [x], t)
  {
    assert Terms(init + [x]) == Terms(init) + {x};
    OccurrencesSnoc(init, x, t);
    if t == x {
      var l := ListOf(acc.index, x);
      assert x !in init;
      assert ListOf(prev.index, x) == l;
      AddOccurrenceFresh(l.postings, docid) by {
        if l.postings != [] {
          assert x in acc.index;
          assert l.postings[|l.postings| - 1].docid < docid;
        }
      }
    }
  }

  lemma AddOccurrenceFresh(ps: seq<Posting>, docid: int)
    requires ps == [] || ps[|ps| - 1].docid < docid
    ensures AddOccurrence(ps, docid) == ps + [Posting(docid, 1)]
  {
  }

  /** After a document the lists are still strictly increasing, every posting is for
      a document up to `docid`, and every frequency is between 1 and the number of
      tokens. */
  predicate Sane(index: Index, limit: int)
  {
    forall t :: t in index ==>
      Increasing(index[t].postings) &&
      forall i :: 0 <= i < |index[t].postings| ==> 1 <= index[t].postings[i].frequency <= limit
  }

  lemma AddTermsSane(acc: Acc, docid: int, dl: int, tokens: seq<string>, limit: int)
    requires Before(acc.index, docid) && Sane(acc.index, limit) && |tokens| <= limit
    ensures var r := AddTerms(acc, docid, dl, tokens);
            Before(r.index, docid + 1) && Sane(r.index, limit)
  {
    var r := AddTerms(acc, docid, dl, tokens);
    AddTermsEffect(acc, docid, dl, tokens);
    forall t | t in r.index
      ensures Increasing(r.index[t].postings)
      ensures forall i :: 0 <= i < |r.index[t].postings| ==> r.index[t].postings[i].docid < docid + 1
      ensures forall i :: 0 <= i < |r.index[t].postings| ==> 1 <= r.index[t].postings[i].frequency <= limit
    {
      var l := ListOf(acc.index, t);
      assert Increasing(l.postings);
      assert forall i :: 0 <= i < |l.postings| ==> l.postings[i].docid < docid;
      assert forall i :: 0 <= i < |l.postings| ==> 1 <= l.postings[i].frequency <= limit;
      if t in Terms(tokens) {
        OccurrencesBounds(tokens, t);
        GrownSane(l, docid, dl, Occurrences(tokens, t), limit);
      }
    }
  }

  /** A term of the document occurs at least once and at most once per token. */
  lemma OccurrencesBounds(tokens: seq<string>, t: string)
    requires t in Terms(tokens)
    ensures 1 <= Occurrences(tokens, t) <= |tokens|
  {
    assert |multiset(tokens)| == |tokens|;
    assert multiset(tokens)[t] <= |multiset(tokens)|;
  }

  /** Growing a sane list of earlier documents keeps it sane. */
  lemma GrownSane(l: TermList, docid: int, dl: int, n: nat, limit: int)
    requires Increasing(l.postings) && 1 <= n <= limit
    requires forall i :: 0 <= i < |l.postings| ==> l.postings[i].docid < docid
    requires forall i :: 0 <= i < |l.postings| ==> 1 <= l.postings[i].frequency <= limit
    ensures var g := Grown(l, docid, dl, n).postings;
            Increasing(g) &&
            (forall i :: 0 <= i < |g| ==> g[i].docid < docid + 1) &&
            (forall i :: 0 <= i < |g| ==> 1 <= g[i].frequency <= limit)
  {
  }

  // ---------------------------------------------------------------------------
  // the posting counter

  /** The number of postings of all the lists of the index. */
  ghost function Total(index: Index): nat
    decreases |index|
  {
    if |index| == 0 then 0
    else
      var t :| t in index;
      |index[t].postings| + Total(index - {t})
  }

  /** The count does not depend on which list is taken first. */
  lemma {:induction false} TotalRemove(index: Index, t: string)
    requires t in index
    ensures Total(index) == |index[t].postings| + Total(index - {t})
    decreases |index|, 1
  {
    var s :| s in index && Total(index) == |index[s].postings| + Total(index - {s});
    if s != t {
      TotalSwap(index, s, t);
    }
  }

  lemma {:induction false} TotalSwap(index: Index, s: string, t: string)
    requires s in index && t in index && s != t
    ensures |index[s].postings| + Total(index - {s}) == |index[t].postings| + Total(index - {t})
    decreases |index|, 0
  {
    assert |index - {s}| < |index| by {
      assert (index - {s}).Keys < index.Keys;
    }
    assert |index - {t}| < |index| by {
      assert (index - {t}).Keys < index.Keys;
    }
    TotalRemove(index - {s}, t);
    TotalRemove(index - {t}, s);
    assert index - {s} - {t} == index - {t} - {s};
  }

  /** Replacing or adding one list changes the count by the sizes of the lists. */
  lemma TotalUpdate(index: Index, t: string, l: TermList)
    ensures Total(index[t := l]) == Total(index) - |ListOf(index, t).postings| + |l.postings|
  {
    TotalRemove(index[t := l], t);
    assert index[t := l] - {t} == index - {t};
    if t in index {
      TotalRemove(index, t);
    } else {
      assert index - {t} == index;
    }
  }

  /** Adding a token keeps the counter equal to the number of postings. */
  lemma AddTermCounts(acc: Acc, docid: int, dl: int, term: string)
    requires acc.numPostings == Total(acc.index)
    ensures AddTerm(acc, docid, dl, term).numPostings == Total(AddTerm(acc, docid, dl, term).index)
  {
    if !IsBlank(term) {
      var l := ListOf(acc.index, term);
      var ps := AddOccurrence(l.postings, docid);
      TotalUpdate(acc.index, term, TermList(ps, Update(l.bm25, Witness(dl, |ps|))));
    }
  }

  lemma {:induction false} AddTermsCounts(acc: Acc, docid: int, dl: int, tokens: seq<string>)
    requires acc.numPostings == Total(acc.index)
    ensures AddTerms(acc, docid, dl, tokens).numPostings == Total(AddTerms(acc, docid, dl, tokens).index)
    decreases |tokens|
  {
    if tokens != [] {
      var n := |tokens| - 1;
      AddTermsCounts(acc, docid, dl, tokens[..n]);
      AddTermCounts(AddTerms(acc, docid, dl, tokens[..n]), docid, dl, tokens[n]);
    }
  }
}
