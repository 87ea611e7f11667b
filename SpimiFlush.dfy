/**
 * Flushing a partial index to disk (`saveIndexToDisk`). The terms are taken in
 * `compareTo` order; the docids of every list go one after another into a mapped
 * region of `4 * numPostings` bytes of the partial docids file, the frequencies into
 * the same region of the partial frequencies file, and one 140-byte vocabulary record
 * per term into the partial vocabulary file. Each record points at the first byte of
 * its list in both regions and carries, as both sizes, `4 * numPostings` of the whole
 * partial index.
 */
module SpimiFlush {
  import opened Bytes
  import opened Wrappers
  import opened JavaText
  import opened Postings
  import opened Bm25
  import opened SpimiIndex
  import opened BlockDescriptors
  import opened CommonVocabularyEntry
  import opened Vocabularies

  // ---------------------------------------------------------------------------
  // the terms in order

  /** `ks` holds every key of `keys` once, in strictly increasing `compareTo` order. */
  predicate SortedKeys(ks: seq<string>, keys: set<string>)
  {
    (forall i :: 0 <= i < |ks| ==> ks[i] in keys) &&
    (forall t :: t in keys ==> t in ks) &&
    (forall i, j :: 0 <= i < j < |ks| ==> CompareTo(ks[i], ks[j]) < 0)
  }

  /** `m` comes before every other element of `s`. */
  predicate Least(m: string, s: set<string>)
  {
    m in s && forall t :: t in s && t != m ==> CompareTo(m, t) < 0
  }

  /** Every non-empty set of strings has a least element. */
  lemma {:induction false} LeastExists(s: set<string>)
    requires s != {}
    ensures exists m :: Least(m, s)
    decreases |s|
  {
    var x :| x in s;
    if s - {x} == {} {
      assert s == {x};
      assert Least(x, s);
    } else {
      LeastExists(s - {x});
      var m :| Least(m, s - {x});
      CompareToZero(m, x);
      CompareToAntisymmetric(m, x);
      if CompareTo(m, x) < 0 {
        assert Least(m, s);
      } else {
        forall t | t in s && t != x
          ensures CompareTo(x, t) < 0
        {
          if t != m {
            CompareToTransitive(x, m, t);
          }
        }
        assert Least(x, s);
      }
    }
  }

  /** The first key of a sorted order is the least one, and the rest is the sorted order
      of the other keys. */
  lemma SortedKeysFirst(a: seq<string>, keys: set<string>)
    requires SortedKeys(a, keys) && a != []
    ensures Least(a[0], keys) && SortedKeys(a[1..], keys - {a[0]})
  {
    forall t | t in keys && t != a[0]
      ensures CompareTo(a[0], t) < 0
    {
      var i :| 0 <= i < |a| && a[i] == t;
    }
    forall i | 0 <= i < |a[1..]|
      ensures a[1..][i] in keys - {a[0]}
    {
      assert CompareTo(a[0], a[i + 1]) < 0;
      CompareToZero(a[0], a[i + 1]);
    }
    forall t | t in keys - {a[0]}
      ensures t in a[1..]
    {
      var i :| 0 <= i < |a| && a[i] == t;
      assert i != 0;
      assert a[1..][i - 1] == t;
    }
  }

  lemma LeastUnique(m: string, n: string, s: set<string>)
    requires Least(m, s) && Least(n, s)
    ensures m == n
  {
    if m != n {
      CompareToAntisymmetric(m, n);
    }
  }

  /** The sorted order of a set of keys is unique. */
  lemma {:induction false} SortedKeysUnique(a: seq<string>, b: seq<string>, keys: set<string>)
    requires SortedKeys(a, keys) && SortedKeys(b, keys)
    ensures a == b
    decreases |a|
  {
    if a == [] {
      if b != [] {
        SortedKeysFirst(b, keys);
      }
    } else if b == [] {
      SortedKeysFirst(a, keys);
    } else {
      SortedKeysFirst(a, keys);
      SortedKeysFirst(b, keys);
      LeastUnique(a[0], b[0], keys);
      SortedKeysUnique(a[1..], b[1..], keys - {a[0]});
      assert a == [a[0]] + a[1..] && b == [b[0]] + b[1..];
    }
  }

  /** The stream sort by key: the keys in `compareTo` order, taking the least of the
      remaining keys each time. */
  method SortKeys(keys: set<string>) returns (ks: seq<string>)
    ensures SortedKeys(ks, keys)
  {
    ks := [];
    var rest := keys;
    while rest != {}
      invariant rest <= keys
      invariant forall i :: 0 <= i < |ks| ==> ks[i] in keys && ks[i] !in rest
      invariant forall t :: t in keys ==> t in rest || t in ks
      invariant forall i, j :: 0 <= i < j < |ks| ==> CompareTo(ks[i], ks[j]) < 0
      invariant forall i, t :: 0 <= i < |ks| && t in rest ==> CompareTo(ks[i], t) < 0
      decreases |rest|
    {
      LeastExists(rest);
      var m :| Least(m, rest);
      ks := ks + [m];
      rest := rest - {m};
    }
  }

  // ---------------------------------------------------------------------------
  // what the flush writes

  /** The bytes put so far into the two mapped regions and the vocabulary file, the
      vocabulary offset (-1 after a failed record write), and whether an exception has
      been thrown. The position of both regions is the number of bytes put. */
  datatype Writer = Writer(docs: seq<byte>, freqs: seq<byte>, voc: seq<byte>, vocOffset: int, thrown: bool)

  const START: Writer := Writer([], [], [], 0, false)

  /** A term the vocabulary record can hold. */
  predicate Fits(t: string)
  {
    IsAscii(t) && |t| <= TERM_SIZE
  }

  /** The vocabulary entry of a list whose postings start at byte `pos` of both regions:
      its statistics from `updateStatistics`, its witness from the list, and both sizes
      the `int` cast of `4 * numPostings`. */
  function EntryFor(t: string, l: TermList, pos: int, numPostings: int): (e: Entry)
    ensures e.term == Some(t) && e.docidOffset == pos && e.frequencyOffset == pos
    ensures e.df == Wrap32(|l.postings|) && e.maxTf == MaxTf(0, l.postings)
    ensures e.bm25Dl == l.bm25.dl && e.bm25Tf == l.bm25.tf
    ensures e.docidSize == Wrap32(4 * numPostings) && e.frequencySize == Wrap32(4 * numPostings)
  {
    Defaults(Some(t)).(docidOffset := pos, frequencyOffset := pos,
                       df := Wrap32(|l.postings|), maxTf := MaxTf(0, l.postings),
                       bm25Dl := l.bm25.dl, bm25Tf := l.bm25.tf,
                       docidSize := Wrap32(4 * numPostings), frequencySize := Wrap32(4 * numPostings))
  }

  /** One list: its docids and frequencies are put into the regions, which overflow when
      they pass `4 * numPostings` bytes; then its record is written at the vocabulary
      offset, where -1 makes `map` throw, and `ok` says whether that write succeeds. */
  function WriteList(w: Writer, t: string, l: TermList, numPostings: int, ok: bool): Writer
  {
    var docs := w.docs + PlainInts(Docids(l.postings));
    var freqs := w.freqs + PlainInts(Frequencies(l.postings));
    if |docs| > 4 * numPostings || w.vocOffset < 0 || (ok && !Fits(t)) then
      w.(docs := docs, freqs := freqs, thrown := true)
    else if ok then
      Writer(docs, freqs, WriteAt(w.voc, w.vocOffset, Record(EntryFor(t, l, |w.docs|, numPostings))),
             w.vocOffset + ENTRY_SIZE, false)
    else
      Writer(docs, freqs, w.voc, -1, false)
  }

  /** The loop over the sorted lists; the `k`-th record write succeeds when `vocOk(k)`. */
  function WriteLists(index: Index, ks: seq<string>, numPostings: int, vocOk: nat -> bool): Writer
    requires forall i :: 0 <= i < |ks| ==> ks[i] in index
  {
    if ks == [] then START
    else
      var n := |ks| - 1;
      var prev := WriteLists(index, ks[..n], numPostings, vocOk);
      if prev.thrown then prev else WriteList(prev, ks[n], index[ks[n]], numPostings, vocOk(n))
  }

  /** The result of `saveIndexToDisk`: nothing to do for an empty index (true); an I/O
      failure opening the files (false); an exception, which leaves the method; or the
      three files written (true). */
  datatype Flush = Skipped | Failed | Threw | Written(docs: seq<byte>, freqs: seq<byte>, voc: seq<byte>)

  /** The flush of a non-empty index with its keys in order `ks`; `openOk` says whether
      the three channels open and the regions map, and a region of more than
      `Integer.MAX_VALUE` bytes makes `map` throw. The mapped regions are zero-filled
      past the bytes put. */
  function FlushOf(index: Index, ks: seq<string>, numPostings: int, openOk: bool, vocOk: nat -> bool): Flush
    requires forall i :: 0 <= i < |ks| ==> ks[i] in index
  {
    if |index| == 0 then Skipped
    else if !openOk then Failed
    else if 4 * numPostings > 0x7FFF_FFFF || numPostings < 0 then Threw
    else
      var w := WriteLists(index, ks, numPostings, vocOk);
      if w.thrown then Threw
      else Written(WriteAt(Zeros(4 * numPostings), 0, w.docs), WriteAt(Zeros(4 * numPostings), 0, w.freqs), w.voc)
  }

  // ---------------------------------------------------------------------------
  // the closed form

  /** The postings of the lists of `ks`, one list after another. */
  function Flat(index: Index, ks: seq<string>): seq<Posting>
    requires forall i :: 0 <= i < |ks| ==> ks[i] in index
  {
    if ks == [] then [] else Flat(index, ks[..|ks| - 1]) + index[ks[|ks| - 1]].postings
  }

  /** The vocabulary entries of the lists of `ks`, each pointing at its list in `Flat`. */
  function Entries(index: Index, ks: seq<string>, numPostings: int): (es: seq<Entry>)
    requires forall i :: 0 <= i < |ks| ==> ks[i] in index
    ensures |es| == |ks|
    ensures forall i :: 0 <= i < |es| ==> es[i].term == Some(ks[i]) && (Writable(es[i]) <==> Fits(ks[i]))
  {
    if ks == [] then []
    else
      var n := |ks| - 1;
      Entries(index, ks[..n], numPostings) + [EntryFor(ks[n], index[ks[n]], 4 * |Flat(index, ks[..n])|, numPostings)]
  }

  lemma DocidsAppend(a: seq<Posting>, b: seq<Posting>)
    ensures Docids(a + b) == Docids(a) + Docids(b)
    ensures Frequencies(a + b) == Frequencies(a) + Frequencies(b)
  {
  }

  lemma {:induction false} PlainIntsAppend(xs: seq<int>, ys: seq<int>)
    ensures PlainInts(xs + ys) == PlainInts(xs) + PlainInts(ys)
    decreases |ys|
  {
    if ys == [] {
      assert xs + ys == xs;
    } else {
      var n := |ys| - 1;
      assert (xs + ys)[..|xs + ys| - 1] == xs + ys[..n];
      PlainIntsAppend(xs, ys[..n]);
    }
  }

  lemma {:induction false} RecordsSnoc(es: seq<Entry>, e: Entry)
    requires forall i :: 0 <= i < |es| ==> Writable(es[i])
    requires Writable(e)
    ensures Records(es + [e]) == Records(es) + Record(e)
    decreases |es|
  {
    if es == [] {
      assert Records([e]) == Record(e) + Records([]);
    } else {
      assert (es + [e])[1..] == es[1..] + [e];
      RecordsSnoc(es[1..], e);
    }
  }

  /** The writer after lists whose record writes all succeed. */
  function Clean(index: Index, ks: seq<string>, numPostings: int): Writer
    requires forall i :: 0 <= i < |ks| ==> ks[i] in index && Fits(ks[i])
  {
    Writer(PlainInts(Docids(Flat(index, ks))), PlainInts(Frequencies(Flat(index, ks))),
           Records(Entries(index, ks, numPostings)), ENTRY_SIZE * |ks|, false)
  }

  /** While the postings fit and every record write succeeds, the regions hold the lists
      one after another and the vocabulary file the records, one after another. */
  lemma {:induction false} WriteListsClean(index: Index, ks: seq<string>, numPostings: int, vocOk: nat -> bool)
    requires forall i :: 0 <= i < |ks| ==> ks[i] in index && Fits(ks[i])
    requires forall i :: 0 <= i < |ks| ==> vocOk(i)
    requires |Flat(index, ks)| <= numPostings
    ensures WriteLists(index, ks, numPostings, vocOk) == Clean(index, ks, numPostings)
    decreases |ks|
  {
    if ks != [] {
      var n := |ks| - 1;
      assert |Flat(index, ks[..n])| <= numPostings;
      WriteListsClean(index, ks[..n], numPostings, vocOk);
      CleanStep(index, ks, numPostings);
    }
  }

  lemma CleanStep(index: Index, ks: seq<string>, numPostings: int)
    requires ks != []
    requires forall i :: 0 <= i < |ks| ==> ks[i] in index && Fits(ks[i])
    requires |Flat(index, ks)| <= numPostings
    ensures var n := |ks| - 1;
            WriteList(Clean(index, ks[..n], numPostings), ks[n], index[ks[n]], numPostings, true) == Clean(index, ks, numPostings)
  {
    var n := |ks| - 1;
    var pre := ks[..n];
    var l := index[ks[n]];
    var f := Flat(index, pre);
    assert Flat(index, ks) == f + l.postings;
    RegionsStep(f, l.postings);
    var es := Entries(index, pre, numPostings);
    var e := EntryFor(ks[n], l, 4 * |f|, numPostings);
    assert Entries(index, ks, numPostings) == es + [e];
    RecordsStep(es, e);
    var w := Clean(index, pre, numPostings);
    assert |w.docs| == 4 * |f| && w.vocOffset == ENTRY_SIZE * |es| && Fits(ks[n]);
    assert |w.docs + PlainInts(Docids(l.postings))| <= 4 * numPostings;
    assert WriteList(w, ks[n], l, numPostings, true) ==
      Writer(w.docs + PlainInts(Docids(l.postings)), w.freqs + PlainInts(Frequencies(l.postings)),
             WriteAt(w.voc, w.vocOffset, Record(e)), w.vocOffset + ENTRY_SIZE, false);
  }

  lemma RegionsStep(f: seq<Posting>, ps: seq<Posting>)
    ensures PlainInts(Docids(f + ps)) == PlainInts(Docids(f)) + PlainInts(Docids(ps))
    ensures PlainInts(Frequencies(f + ps)) == PlainInts(Frequencies(f)) + PlainInts(Frequencies(ps))
  {
    DocidsAppend(f, ps);
    PlainIntsAppend(Docids(f), Docids(ps));
    PlainIntsAppend(Frequencies(f), Frequencies(ps));
  }

  lemma RecordsStep(es: seq<Entry>, e: Entry)
    requires forall i :: 0 <= i < |es| ==> Writable(es[i])
    requires Writable(e)
    ensures WriteAt(Records(es), ENTRY_SIZE * |es|, Record(e)) == Records(es + [e])
    ensures ENTRY_SIZE * |es| + ENTRY_SIZE == ENTRY_SIZE * |es + [e]|
  {
    RecordsSnoc(es, e);
    WriteAtEnd(Records(es), Record(e));
  }

  /** The lists of a prefix of the keys come first. */
  lemma {:induction false} FlatPrefix(index: Index, ks: seq<string>, j: nat)
    requires forall i :: 0 <= i < |ks| ==> ks[i] in index
    requires j <= |ks|
    ensures Flat(index, ks[..j]) <= Flat(index, ks)
    decreases |ks|
  {
    if j < |ks| {
      var n := |ks| - 1;
      assert ks[..n][..j] == ks[..j];
      FlatPrefix(index, ks[..n], j);
    } else {
      assert ks[..j] == ks;
    }
  }

  /** Entry `i` is the entry of the `i`-th list, at the end of the lists before it. */
  lemma {:induction false} EntriesAt(index: Index, ks: seq<string>, numPostings: int, i: nat)
    requires forall k :: 0 <= k < |ks| ==> ks[k] in index
    requires i < |ks|
    ensures Entries(index, ks, numPostings)[i] == EntryFor(ks[i], index[ks[i]], 4 * |Flat(index, ks[..i])|, numPostings)
    decreases |ks|
  {
    var n := |ks| - 1;
    if i < n {
      EntriesAt(index, ks[..n], numPostings, i);
      assert ks[..n][..i] == ks[..i];
    }
  }

  /** The region of a list inside the regions of all of them. */
  lemma ListRegion(index: Index, ks: seq<string>, i: nat)
    requires forall k :: 0 <= k < |ks| ==> ks[k] in index
    requires i < |ks|
    ensures var ps := index[ks[i]].postings;
            var off := 4 * |Flat(index, ks[..i])|;
            ReadAt(PlainInts(Docids(Flat(index, ks))), off, 4 * |ps|) == PlainInts(Docids(ps)) &&
            ReadAt(PlainInts(Frequencies(Flat(index, ks))), off, 4 * |ps|) == PlainInts(Frequencies(ps))
  {
    var ps := index[ks[i]].postings;
    var before := Flat(index, ks[..i]);
    assert ks[..i + 1][..i] == ks[..i];
    FlatPrefix(index, ks, i + 1);
    var all := Flat(index, ks);
    var rest := all[|before| + |ps|..];
    assert all == before + ps + rest;
    RegionsStep(before, ps);
    RegionsStep(before + ps, rest);
    ReadInsideAppend(PlainInts(Docids(before)), PlainInts(Docids(ps)), PlainInts(Docids(rest)));
    ReadInsideAppend(PlainInts(Frequencies(before)), PlainInts(Frequencies(ps)), PlainInts(Frequencies(rest)));
  }

  /** The entries follow the keys, so sorted keys give a vocabulary sorted by term. */
  lemma EntriesSorted(index: Index, ks: seq<string>, numPostings: int)
    requires SortedKeys(ks, index.Keys)
    ensures SortedByTerm(Entries(index, ks, numPostings))
  {
  }

  /** A mapped region that is put in full holds exactly the bytes put. */
  lemma FullRegion(d: seq<byte>)
    ensures WriteAt(Zeros(|d|), 0, d) == d
  {
  }

  /** A successful flush: when the files open, every term fits a record, every record
      write succeeds and `numPostings` counts the postings of the index, the regions
      hold the lists one after another in key order and the vocabulary file holds their
      entries, one record after another. */
  lemma FlushWritten(index: Index, ks: seq<string>, numPostings: int, vocOk: nat -> bool)
    requires SortedKeys(ks, index.Keys) && |index| > 0
    requires forall t :: t in index ==> Fits(t)
    requires forall i :: 0 <= i < |ks| ==> vocOk(i)
    requires numPostings == |Flat(index, ks)| && 4 * numPostings <= 0x7FFF_FFFF
    ensures FlushOf(index, ks, numPostings, true, vocOk) ==
              Written(PlainInts(Docids(Flat(index, ks))), PlainInts(Frequencies(Flat(index, ks))),
                      Records(Entries(index, ks, numPostings)))
  {
    WriteListsClean(index, ks, numPostings, vocOk);
    FullRegion(PlainInts(Docids(Flat(index, ks))));
    FullRegion(PlainInts(Frequencies(Flat(index, ks))));
  }

  /** Entry `e` describes list `l` and points at its docids in `docs` and at its
      frequencies in `freqs`. */
  predicate Locates(e: Entry, t: string, l: TermList, docs: seq<byte>, freqs: seq<byte>)
  {
    var ps := l.postings;
    e.term == Some(t) && e.df == Wrap32(|ps|) && e.maxTf == MaxTf(0, ps) &&
    e.bm25Dl == l.bm25.dl && e.bm25Tf == l.bm25.tf &&
    e.docidOffset >= 0 && e.frequencyOffset >= 0 &&
    ReadAt(docs, e.docidOffset, 4 * |ps|) == PlainInts(Docids(ps)) &&
    ReadAt(freqs, e.frequencyOffset, 4 * |ps|) == PlainInts(Frequencies(ps))
  }

  lemma EntryLocates(index: Index, ks: seq<string>, numPostings: int, i: nat)
    requires forall k :: 0 <= k < |ks| ==> ks[k] in index
    requires i < |ks|
    ensures Locates(Entries(index, ks, numPostings)[i], ks[i], index[ks[i]],
                    PlainInts(Docids(Flat(index, ks))), PlainInts(Frequencies(Flat(index, ks))))
  {
    EntriesAt(index, ks, numPostings, i);
    ListRegion(index, ks, i);
  }

  /** The entries of a flush are sorted by term, and the docids and frequencies regions
      that entry `i` points at hold exactly the `i`-th list. */
  lemma FlushedEntries(index: Index, ks: seq<string>, numPostings: int)
    requires SortedKeys(ks, index.Keys)
    ensures SortedByTerm(Entries(index, ks, numPostings))
    ensures forall i :: 0 <= i < |ks| ==>
              Locates(Entries(index, ks, numPostings)[i], ks[i], index[ks[i]],
                      PlainInts(Docids(Flat(index, ks))), PlainInts(Frequencies(Flat(index, ks))))
  {
    EntriesSorted(index, ks, numPostings);
    forall i | 0 <= i < |ks|
      ensures Locates(Entries(index, ks, numPostings)[i], ks[i], index[ks[i]],
                      PlainInts(Docids(Flat(index, ks))), PlainInts(Frequencies(Flat(index, ks))))
    {
      EntryLocates(index, ks, numPostings, i);
    }
  }

  /** When the postings fit and every term fits a record, the loop throws exactly when a
      record write fails before the last list: the offset becomes -1 and the next write
      maps at -1. A failure at the last list goes unnoticed. */
  lemma {:induction false} WriteListsStatus(index: Index, ks: seq<string>, numPostings: int, vocOk: nat -> bool)
    requires forall i :: 0 <= i < |ks| ==> ks[i] in index && Fits(ks[i])
    requires |Flat(index, ks)| <= numPostings
    ensures var w := WriteLists(index, ks, numPostings, vocOk);
            (w.thrown <==> exists i :: 0 <= i < |ks| - 1 && !vocOk(i)) &&
            (!w.thrown ==> |w.docs| == 4 * |Flat(index, ks)| &&
                           (w.vocOffset < 0 <==> ks != [] && !vocOk(|ks| - 1)))
    decreases |ks|
  {
    if ks != [] {
      var n := |ks| - 1;
      var prev := WriteLists(index, ks[..n], numPostings, vocOk);
      var w := WriteLists(index, ks, numPostings, vocOk);
      assert |Flat(index, ks[..n])| <= |Flat(index, ks)|;
      WriteListsStatus(index, ks[..n], numPostings, vocOk);
      if prev.thrown {
        var i :| 0 <= i < n - 1 && !vocOk(i);
        assert i < |ks| - 1;
      } else {
        StatusStep(prev, ks[n], index[ks[n]], numPostings, vocOk(n), |Flat(index, ks[..n])|);
        assert w.thrown <==> n > 0 && !vocOk(n - 1);
        if n > 0 && !vocOk(n - 1) {
          assert exists i :: 0 <= i < |ks| - 1 && !vocOk(i);
        }
        if exists i :: 0 <= i < |ks| - 1 && !vocOk(i) {
          var i :| 0 <= i < |ks| - 1 && !vocOk(i);
          assert i == n - 1;
        }
      }
    }
  }

  lemma StatusStep(prev: Writer, t: string, l: TermList, numPostings: int, ok: bool, before: nat)
    requires !prev.thrown && |prev.docs| == 4 * before
    requires before + |l.postings| <= numPostings && Fits(t)
    ensures var w := WriteList(prev, t, l, numPostings, ok);
            (w.thrown <==> prev.vocOffset < 0) &&
            (!w.thrown ==> |w.docs| == 4 * (before + |l.postings|) && (w.vocOffset < 0 <==> !ok))
  {
  }

  /** The outcome of a flush of a non-empty index whose postings fit: an I/O failure
      opening the files returns false; otherwise an exception is thrown exactly when a
      record write fails before the last term, and the files are written if not. */
  lemma FlushOutcome(index: Index, ks: seq<string>, numPostings: int, openOk: bool, vocOk: nat -> bool)
    requires SortedKeys(ks, index.Keys) && |index| > 0
    requires forall t :: t in index ==> Fits(t)
    requires numPostings == |Flat(index, ks)| && 4 * numPostings <= 0x7FFF_FFFF
    ensures !openOk ==> FlushOf(index, ks, numPostings, openOk, vocOk) == Failed
    ensures openOk ==> (FlushOf(index, ks, numPostings, openOk, vocOk).Threw? <==>
                        exists i :: 0 <= i < |ks| - 1 && !vocOk(i))
    ensures openOk ==> (FlushOf(index, ks, numPostings, openOk, vocOk).Written? <==>
                        forall i :: 0 <= i < |ks| - 1 ==> vocOk(i))
  {
    WriteListsStatus(index, ks, numPostings, vocOk);
  }

  /** `ks` lists every key of `index` exactly once. */
  predicate Enumerates(ks: seq<string>, index: Index)
  {
    (forall i :: 0 <= i < |ks| ==> ks[i] in index) &&
    (forall t :: t in index ==> t in ks) &&
    (forall i, j :: 0 <= i < j < |ks| ==> ks[i] != ks[j])
  }

  lemma SortedEnumerates(ks: seq<string>, index: Index)
    requires SortedKeys(ks, index.Keys)
    ensures Enumerates(ks, index)
  {
    forall i, j | 0 <= i < j < |ks|
      ensures ks[i] != ks[j]
    {
      CompareToZero(ks[i], ks[j]);
    }
  }

  /** Lists of keys other than `x` do not see `x`'s list. */
  lemma {:induction false} FlatWithout(index: Index, ks: seq<string>, x: string)
    requires forall i :: 0 <= i < |ks| ==> ks[i] in index && ks[i] != x
    ensures forall i :: 0 <= i < |ks| ==> ks[i] in index - {x}
    ensures Flat(index - {x}, ks) == Flat(index, ks)
    decreases |ks|
  {
    if ks != [] {
      FlatWithout(index, ks[..|ks| - 1], x);
    }
  }

  /** The lists of an enumeration of the keys hold all the postings of the index. */
  lemma {:induction false} FlatTotal(index: Index, ks: seq<string>)
    requires Enumerates(ks, index)
    ensures |Flat(index, ks)| == Total(index)
    decreases |ks|
  {
    if ks == [] {
      assert index == map[];
    } else {
      var n := |ks| - 1;
      var x := ks[n];
      var init := ks[..n];
      FlatWithout(index, init, x);
      assert Enumerates(init, index - {x}) by {
        forall t | t in index - {x}
          ensures t in init
        {
          var i :| 0 <= i < |ks| && ks[i] == t;
          assert i != n;
          assert init[i] == t;
        }
      }
      FlatTotal(index - {x}, init);
      TotalRemove(index, x);
    }
  }

  /** Every set of keys has a sorted order. */
  lemma {:induction false} SortedExists(keys: set<string>)
    ensures exists ks :: SortedKeys(ks, keys)
    decreases |keys|
  {
    if keys == {} {
      assert SortedKeys([], keys);
    } else {
      LeastExists(keys);
      var m :| Least(m, keys);
      SortedExists(keys - {m});
      var rest :| SortedKeys(rest, keys - {m});
      ConsLeast(m, rest, keys);
    }
  }

  /** The least key followed by the others in order is the keys in order. */
  lemma ConsLeast(m: string, rest: seq<string>, keys: set<string>)
    requires Least(m, keys) && SortedKeys(rest, keys - {m})
    ensures SortedKeys([m] + rest, keys)
  {
    var ks := [m] + rest;
    forall i, j | 0 <= i < j < |ks|
      ensures CompareTo(ks[i], ks[j]) < 0
    {
      if i == 0 {
        assert ks[j] == rest[j - 1] && ks[j] in keys - {m};
      } else {
        assert ks[i] == rest[i - 1] && ks[j] == rest[j - 1];
      }
    }
    forall t | t in keys
      ensures t in ks
    {
      if t != m {
        assert t in rest;
      }
    }
  }

  /** The keys in `compareTo` order. */
  ghost function SortedOf(keys: set<string>): (ks: seq<string>)
    ensures SortedKeys(ks, keys)
  {
    SortedExists(keys);
    var ks :| SortedKeys(ks, keys); ks
  }

  /** `saveIndexToDisk` on the index with counter `numPostings`. */
  ghost function Flushed(index: Index, numPostings: int, openOk: bool, vocOk: nat -> bool): Flush
  {
    FlushOf(index, SortedOf(index.Keys), numPostings, openOk, vocOk)
  }
}
