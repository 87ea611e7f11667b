/**
 * The vocabulary: an insertion-ordered map from terms to vocabulary entries, a cache of
 * entries already read, and the binary search over the vocabulary file, whose records
 * are sorted by term.
 */
module Vocabularies {
  import opened Bytes
  import opened Wrappers
  import opened JavaText
  import opened CommonVocabularyEntry
  import opened JavaMath

  // ---------------------------------------------------------------------------
  // the records as an entry reads them

  /** What decoding record `i` gives, for each `i`. */
  type View = nat -> Option<Entry>

  /** Record `i` of the vocabulary file as `VocabularyEntry.readFromDisk` decodes it:
      nothing for an all-zero record (in particular past the end of the file) and
      nothing at all when reading fails. */
  function Slot(file: seq<byte>, ioOk: bool, i: nat): Option<Entry>
  {
    if ioOk then Decoded(ReadAt(file, ENTRY_SIZE * i, ENTRY_SIZE)) else None
  }

  /** `view` agrees with the file record by record. */
  ghost predicate Reads(view: View, file: seq<byte>, ioOk: bool)
  {
    forall i: nat {:trigger Slot(file, ioOk, i)} :: view(i) == Slot(file, ioOk, i)
  }

  /** The records of the file, all of them. It is characterised by `Reads` alone, so that
      a proof about the file decodes exactly the records it names through `Slot`. */
  ghost function FileView(file: seq<byte>, ioOk: bool): (v: View)
    ensures Reads(v, file, ioOk)
  {
    var w: View := (i: nat) => Slot(file, ioOk, i);
    assert Reads(w, file, ioOk);
    var v: View :| Reads(v, file, ioOk);
    v
  }

  // ---------------------------------------------------------------------------
  // binary search over the file

  /** The entry reused by `findEntry` after reading record `mid`: when nothing is
      decoded it keeps its previous contents. */
  function Probe(view: View, mid: nat, cur: Entry): Entry
  {
    match view(mid)
    case None => cur
    case Some(d) => d
  }

  /** The outcome of `findEntry`'s loop from the bounds `start` and `end` with the
      reused entry holding `cur`. */
  function Search(view: View, term: string, start: int, end: int, cur: Entry): (r: Option<Entry>)
    requires 0 <= start
    ensures r.Some? ==> r.value.term == Some(term)
    decreases end - start + 1
  {
    if start > end then None
    else
      var mid := start + (end - start) / 2;
      var e := Probe(view, mid, cur);
      match e.term
      case None => None
      case Some(key) =>
        if key == term then Some(e)
        else if CompareTo(term, key) > 0 then Search(view, term, mid + 1, end, e)
        else Search(view, term, start, mid - 1, e)
  }

  /** One step of the search, with the probed entry named. */
  lemma SearchStep(view: View, term: string, start: int, end: int, cur: Entry, mid: int, e: Entry)
    requires 0 <= start <= end && mid == start + (end - start) / 2 && e == Probe(view, mid, cur)
    ensures e.term.None? ==> Search(view, term, start, end, cur) == None
    ensures e.term.Some? && e.term.value == term ==> Search(view, term, start, end, cur) == Some(e)
    ensures e.term.Some? && e.term.value != term && CompareTo(term, e.term.value) > 0 ==>
      Search(view, term, start, end, cur) == Search(view, term, mid + 1, end, e)
    ensures e.term.Some? && e.term.value != term && CompareTo(term, e.term.value) <= 0 ==>
      Search(view, term, start, end, cur) == Search(view, term, start, mid - 1, e)
  {
  }

  /** Record `i` decodes to `es[i]`. */
  predicate Stored(view: View, es: seq<Entry>)
  {
    forall i :: 0 <= i < |es| ==> view(i) == Some(es[i])
  }

  function Key(e: Entry): string
  {
    if e.term.Some? then e.term.value else ""
  }

  /** Every entry has a term and the terms are strictly increasing under `compareTo`. */
  predicate SortedByTerm(es: seq<Entry>)
  {
    (forall i :: 0 <= i < |es| ==> es[i].term.Some?) &&
    forall i, j :: 0 <= i < j < |es| ==> CompareTo(Key(es[i]), Key(es[j])) < 0
  }

  /** On a file of sorted records the binary search finds a term exactly when some record
      holds it. Outside the bounds every term is known to be on the far side of `term`,
      which holds at the start (empty outside) and is what each step keeps. */
  lemma {:induction false} SearchSorted(view: View, es: seq<Entry>, term: string, start: int, end: int, cur: Entry)
    requires Stored(view, es) && SortedByTerm(es)
    requires 0 <= start <= end + 1 && end < |es|
    requires forall i :: 0 <= i < start ==> CompareTo(term, Key(es[i])) > 0
    requires forall i :: end < i < |es| ==> CompareTo(term, Key(es[i])) < 0
    ensures forall i :: 0 <= i < |es| && es[i].term == Some(term) ==> Search(view, term, start, end, cur) == Some(es[i])
    ensures (forall i :: 0 <= i < |es| ==> es[i].term != Some(term)) ==> Search(view, term, start, end, cur) == None
    decreases end - start + 1
  {
    if start > end {
      Outside(es, term, start, end);
    } else {
      var mid := start + (end - start) / 2;
      Midpoint(start, end);
      assert view(mid) == Some(es[mid]);
      SearchStep(view, term, start, end, cur, mid, es[mid]);
      var key := Key(es[mid]);
      if key == term {
        Unique(es, term, mid);
      } else if CompareTo(term, key) > 0 {
        GoRight(es, term, start, mid);
        SearchSorted(view, es, term, mid + 1, end, es[mid]);
      } else {
        GoLeft(es, term, mid, end);
        SearchSorted(view, es, term, start, mid - 1, es[mid]);
      }
    }
  }

  lemma Midpoint(start: int, end: int)
    requires start <= end
    ensures start <= start + (end - start) / 2 <= end
  {
  }

  /** Outside the bounds no entry holds the term. */
  lemma Outside(es: seq<Entry>, term: string, start: int, end: int)
    requires 0 <= start <= end + 1 && end < |es|
    requires forall i :: 0 <= i < start ==> CompareTo(term, Key(es[i])) > 0
    requires forall i :: end < i < |es| ==> CompareTo(term, Key(es[i])) < 0
    requires SortedByTerm(es)
    ensures forall i :: 0 <= i < |es| && (i < start || end < i) ==> es[i].term != Some(term)
  {
    forall i | 0 <= i < |es| && (i < start || end < i)
      ensures es[i].term != Some(term)
    {
      CompareToZero(term, Key(es[i]));
    }
  }

  /** Terms are distinct, so the probed entry is the only one holding its term. */
  lemma Unique(es: seq<Entry>, term: string, mid: int)
    requires SortedByTerm(es) && 0 <= mid < |es| && Key(es[mid]) == term
    ensures forall i :: 0 <= i < |es| && es[i].term == Some(term) ==> i == mid
  {
    forall i | 0 <= i < |es| && es[i].term == Some(term)
      ensures i == mid
    {
      if i < mid {
        CompareToZero(Key(es[i]), term);
      } else if i > mid {
        CompareToZero(term, Key(es[i]));
      }
    }
  }

  /** A term above the probed one is above everything up to it. */
  lemma GoRight(es: seq<Entry>, term: string, start: int, mid: int)
    requires SortedByTerm(es) && 0 <= start <= mid < |es|
    requires CompareTo(term, Key(es[mid])) > 0
    requires forall i :: 0 <= i < start ==> CompareTo(term, Key(es[i])) > 0
    ensures forall i :: 0 <= i < mid + 1 ==> CompareTo(term, Key(es[i])) > 0
  {
    forall i | 0 <= i < mid
      ensures CompareTo(term, Key(es[i])) > 0
    {
      CompareToAntisymmetric(term, Key(es[mid]));
      CompareToTransitive(Key(es[i]), Key(es[mid]), term);
      CompareToAntisymmetric(term, Key(es[i]));
    }
  }

  /** A term below the probed one is below everything from it on. */
  lemma GoLeft(es: seq<Entry>, term: string, mid: int, end: int)
    requires SortedByTerm(es) && 0 <= mid <= end < |es|
    requires CompareTo(term, Key(es[mid])) <= 0 && term != Key(es[mid])
    requires forall i :: end < i < |es| ==> CompareTo(term, Key(es[i])) < 0
    ensures forall i :: mid - 1 < i < |es| ==> CompareTo(term, Key(es[i])) < 0
  {
    CompareToZero(term, Key(es[mid]));
    forall i | mid < i < |es|
      ensures CompareTo(term, Key(es[i])) < 0
    {
      CompareToTransitive(term, Key(es[mid]), Key(es[i]));
    }
  }

  // ---------------------------------------------------------------------------
  // a file of records

  /** The records of `es`, one after another. */
  function Records(es: seq<Entry>): (r: seq<byte>)
    requires forall i :: 0 <= i < |es| ==> Writable(es[i])
    ensures |r| == ENTRY_SIZE * |es|
  {
    if es == [] then [] else Record(es[0]) + Records(es[1..])
  }

  /** Reads behind a prefix of the file are reads of the rest. */
  lemma ReadBehind(prefix: seq<byte>, rest: seq<byte>, off: nat, n: nat)
    ensures ReadAt(prefix + rest, |prefix| + off, n) == ReadAt(rest, off, n)
  {
  }

  /** Reading the chunk of a file that starts with one chunk: chunk 0 is that chunk,
      and chunk `i > 0` is chunk `i - 1` of the rest. */
  lemma ChunkOf(whole: seq<byte>, head: seq<byte>, rest: seq<byte>, i: nat, want: seq<byte>)
    requires whole == head + rest && |head| == ENTRY_SIZE
    requires i == 0 ==> want == head
    requires i > 0 ==> ReadAt(rest, ENTRY_SIZE * (i - 1), ENTRY_SIZE) == want
    ensures ReadAt(whole, ENTRY_SIZE * i, ENTRY_SIZE) == want
  {
    if i == 0 {
      ReadInsideAppend([], head, rest);
      assert [] + head + rest == whole;
    } else {
      ReadBehind(head, rest, ENTRY_SIZE * (i - 1), ENTRY_SIZE);
    }
  }

  /** Record `i` of a file of records is the record of `es[i]`. */
  lemma {:induction false} RecordsAt(es: seq<Entry>, i: nat)
    requires forall k :: 0 <= k < |es| ==> Writable(es[k])
    requires i < |es|
    ensures ReadAt(Records(es), ENTRY_SIZE * i, ENTRY_SIZE) == Record(es[i])
  {
    if i > 0 {
      RecordsAt(es[1..], i - 1);
      assert es[1..][i - 1] == es[i];
    }
    ChunkOf(Records(es), Record(es[0]), Records(es[1..]), i, Record(es[i]));
  }

  /** Past the end of the file there is nothing to decode. */
  lemma PastEnd(file: seq<byte>, ioOk: bool, i: nat)
    requires ENTRY_SIZE * i >= |file|
    ensures Slot(file, ioOk, i).None?
  {
    assert ReadAt(file, ENTRY_SIZE * i, ENTRY_SIZE) == Zeros(ENTRY_SIZE);
  }

  /** So a record that decodes lies inside the file. */
  lemma DecodedInside(file: seq<byte>, ioOk: bool, i: nat)
    ensures FileView(file, ioOk)(i).Some? ==> i < |file|
  {
    assert FileView(file, ioOk)(i) == Slot(file, ioOk, i);
    if ENTRY_SIZE * i >= |file| {
      PastEnd(file, ioOk, i);
    } else {
      MulAtLeast(ENTRY_SIZE, i);
    }
  }

  /** Record `k` of a file of records decodes to `es[k]` when that entry is storable. */
  lemma RecordDecodes(es: seq<Entry>, k: nat)
    requires forall i :: 0 <= i < |es| ==> Writable(es[i])
    requires k < |es| && Storable(es[k])
    ensures Slot(Records(es), true, k) == Some(es[k])
  {
    RecordsAt(es, k);
    RecordRoundTrip(es[k]);
  }

  /** A file made of the records of storable entries stores them, and nothing after. */
  lemma RecordsStored(es: seq<Entry>)
    requires forall k :: 0 <= k < |es| ==> Writable(es[k])
    requires forall k :: 0 <= k < |es| ==> Storable(es[k])
    ensures Stored(FileView(Records(es), true), es)
    ensures FileView(Records(es), true)(|es|).None?
  {
    var v := FileView(Records(es), true);
    forall i | 0 <= i < |es|
      ensures v(i) == Some(es[i])
    {
      RecordDecodes(es, i);
    }
    PastEnd(Records(es), true, |es|);
  }

  /** The entries `readFromDisk` loads from record `k` on: records are read until one
      decodes to nothing, which happens at the latest past the end of the file, so
      never beyond record `limit` when the file is at most `limit` bytes long. */
  function FileEntries(view: View, k: nat, limit: nat): (es: seq<Entry>)
    decreases limit - k
  {
    if k >= limit then []
    else match view(k)
      case None => []
      case Some(e) => [e] + FileEntries(view, k + 1, limit)
  }

  /** One step of loading. */
  lemma LoadStep(view: View, k: nat, limit: nat)
    ensures view(k).None? ==> FileEntries(view, k, limit) == []
  {
  }

  /** Loading one more entry. */
  lemma Advance(view: View, loaded: seq<Entry>, k: nat, limit: nat, e: Entry)
    requires FileEntries(view, 0, limit) == loaded + FileEntries(view, k, limit)
    requires view(k) == Some(e) && k < limit
    ensures FileEntries(view, 0, limit) == (loaded + [e]) + FileEntries(view, k + 1, limit)
  {
    assert FileEntries(view, k, limit) == [e] + FileEntries(view, k + 1, limit);
  }

  /** When nothing is left to load, what was loaded is everything. */
  lemma Finish(view: View, loaded: seq<Entry>, k: nat, limit: nat)
    requires FileEntries(view, 0, limit) == loaded + FileEntries(view, k, limit)
    requires FileEntries(view, k, limit) == []
    ensures FileEntries(view, 0, limit) == loaded
  {
    assert loaded + [] == loaded;
  }

  /** Loading stored entries followed by a record that decodes to nothing yields
      exactly those entries. */
  lemma {:induction false} FileEntriesOfStored(view: View, es: seq<Entry>, k: nat, limit: nat)
    requires Stored(view, es) && view(|es|).None?
    requires k <= |es| <= limit
    ensures FileEntries(view, k, limit) == es[k..]
    decreases limit - k
  {
    if k < |es| {
      FileEntriesOfStored(view, es, k + 1, limit);
      assert es[k..] == [es[k]] + es[k + 1..];
    }
  }

  /** Loading a file of records of storable entries yields those entries. */
  lemma FileEntriesOfRecords(es: seq<Entry>)
    requires forall k :: 0 <= k < |es| ==> Writable(es[k])
    requires forall k :: 0 <= k < |es| ==> Storable(es[k])
    ensures FileEntries(FileView(Records(es), true), 0, |Records(es)|) == es
  {
    RecordsStored(es);
    FileEntriesOfStored(FileView(Records(es), true), es, 0, |Records(es)|);
  }

  // ---------------------------------------------------------------------------
  // the map

  /** The key order after `put`s of `es` into a `LinkedHashMap`: a new key goes last, a
      present one keeps its place. */
  function PutKeys(keys: seq<string>, es: seq<Entry>): seq<string>
  {
    if es == [] then keys
    else
      var ks := PutKeys(keys, es[..|es| - 1]);
      var k := Key(es[|es| - 1]);
      if k in ks then ks else ks + [k]
  }

  /** The mappings after `put`s of `es`: the last entry put for a key wins. */
  function PutContents(contents: map<string, Entry>, es: seq<Entry>): map<string, Entry>
  {
    if es == [] then contents
    else PutContents(contents, es[..|es| - 1])[Key(es[|es| - 1]) := es[|es| - 1]]
  }

  /** One more `put`. */
  lemma PutSnoc(keys: seq<string>, contents: map<string, Entry>, es: seq<Entry>, e: Entry)
    ensures PutKeys(keys, es + [e]) == (var ks := PutKeys(keys, es); if Key(e) in ks then ks else ks + [Key(e)])
    ensures PutContents(contents, es + [e]) == PutContents(contents, es)[Key(e) := e]
  {
    assert (es + [e])[..|es|] == es;
  }

  predicate Distinct(keys: seq<string>)
  {
    forall i, j :: 0 <= i < j < |keys| ==> keys[i] != keys[j]
  }

  /** After the `put`s the keys are still distinct and still exactly the mapped ones, and a
      key is mapped exactly when it was before or some entry put has it. */
  lemma PutAllKeeps(keys: seq<string>, contents: map<string, Entry>, es: seq<Entry>)
    requires Distinct(keys) && forall k :: k in contents <==> k in keys
    ensures Distinct(PutKeys(keys, es))
    ensures forall k :: k in PutContents(contents, es) <==> k in PutKeys(keys, es)
    ensures forall k :: k in PutContents(contents, es) <==> k in contents || exists i :: 0 <= i < |es| && Key(es[i]) == k
  {
    PutKeysKeep(keys, contents, es);
    PutContentsKeys(contents, es);
  }

  /** The terms of the entries put. */
  function KeysOf(es: seq<Entry>): set<string>
  {
    set i | 0 <= i < |es| :: Key(es[i])
  }

  lemma {:induction false} PutContentsKeys(contents: map<string, Entry>, es: seq<Entry>)
    ensures PutContents(contents, es).Keys == contents.Keys + KeysOf(es)
  {
    if es != [] {
      var n := |es| - 1;
      PutContentsKeys(contents, es[..n]);
      assert KeysOf(es) == KeysOf(es[..n]) + {Key(es[n])} by {
        forall k | k in KeysOf(es)
          ensures k in KeysOf(es[..n]) + {Key(es[n])}
        {
          var i :| 0 <= i < |es| && Key(es[i]) == k;
          if i < n {
            assert Key(es[..n][i]) == k;
          }
        }
        forall k | k in KeysOf(es[..n])
          ensures k in KeysOf(es)
        {
          var i :| 0 <= i < n && Key(es[..n][i]) == k;
          assert Key(es[i]) == k;
        }
      }
    }
  }

  lemma {:induction false} PutKeysKeep(keys: seq<string>, contents: map<string, Entry>, es: seq<Entry>)
    requires Distinct(keys) && forall k :: k in contents <==> k in keys
    ensures Distinct(PutKeys(keys, es))
    ensures forall k :: k in PutContents(contents, es) <==> k in PutKeys(keys, es)
  {
    if es != [] {
      var n := |es| - 1;
      PutKeysKeep(keys, contents, es[..n]);
      PutOneKeeps(PutKeys(keys, es[..n]), PutContents(contents, es[..n]), es[n]);
    }
  }

  /** One `put` keeps the keys distinct and exactly the mapped ones. */
  lemma PutOneKeeps(ks: seq<string>, m: map<string, Entry>, e: Entry)
    requires Distinct(ks) && forall k :: k in m <==> k in ks
    ensures var ks' := if Key(e) in ks then ks else ks + [Key(e)];
            Distinct(ks') && forall k :: k in m[Key(e) := e] <==> k in ks'
  {
  }

  /** The vocabulary singleton with the entry cache. */
  class Vocabulary {
    var keys: seq<string>
    var contents: map<string, Entry>
    var cache: map<string, Entry>

    /** The keys are distinct and are exactly the mapped terms, and every cached entry
        holds the term it is cached under. */
    ghost predicate Valid()
      reads this
    {
      Distinct(keys) && (forall k :: k in contents <==> k in keys) &&
      forall t :: t in cache ==> cache[t].term == Some(t)
    }

    constructor ()
      ensures keys == [] && contents == map[] && cache == map[] && Valid()
    {
      keys, contents, cache := [], map[], map[];
    }

    /** `put(term, entry)` of the `LinkedHashMap`. */
    method Put(term: string, e: Entry)
      requires Valid()
      modifies this
      ensures Valid()
      ensures keys == (if term in old(contents) then old(keys) else old(keys) + [term])
      ensures contents == old(contents)[term := e] && cache == old(cache)
    {
      if term !in contents {
        keys := keys + [term];
      }
      contents := contents[term := e];
    }

    /** `getEntry(term)`: a cached entry is returned as it is; otherwise the file is
        searched and an entry found is cached. */
    method GetEntry(term: string, file: seq<byte>, vocabularySize: int, ioOk: bool) returns (r: Option<Entry>)
      requires Valid()
      modifies this
      ensures Valid() && keys == old(keys) && contents == old(contents)
      ensures term in old(cache) ==> r == Some(old(cache)[term]) && cache == old(cache)
      ensures term !in old(cache) ==> r == Search(FileView(file, ioOk), term, 0, vocabularySize - 1, Defaults(None))
      ensures term !in old(cache) ==> cache == if r.Some? then old(cache)[term := r.value] else old(cache)
    {
      if term in cache {
        return Some(cache[term]);
      }
      r := FindEntry(term, file, vocabularySize, ioOk);
      if r.Some? {
        cache := cache[term := r.value];
      }
    }

    /** `readFromDisk()`: entries are read one after another from the start of the file
        and put into the map and the cache, until a record decodes to nothing or a read
        fails. The answer is always true. */
    method ReadFromDisk(file: seq<byte>, ioOk: bool) returns (r: bool)
      requires Valid()
      modifies this
      ensures r && Valid()
      ensures keys == PutKeys(old(keys), FileEntries(FileView(file, ioOk), 0, |file|))
      ensures contents == PutContents(old(contents), FileEntries(FileView(file, ioOk), 0, |file|))
      ensures cache == PutContents(old(cache), FileEntries(FileView(file, ioOk), 0, |file|))
    {
      ghost var view := FileView(file, ioOk);
      ghost var keys0, contents0, cache0 := keys, contents, cache;
      var position := 0;
      ghost var k: nat := 0;
      ghost var loaded: seq<Entry> := [];
      while position >= 0
        invariant position != -1 && (position >= 0 ==> position == ENTRY_SIZE * k) && Valid()
        invariant FileEntries(view, 0, |file|) == loaded + FileEntries(view, k, |file|)
        invariant position < 0 ==> FileEntries(view, k, |file|) == []
        invariant keys == PutKeys(keys0, loaded) && contents == PutContents(contents0, loaded)
        invariant cache == PutContents(cache0, loaded)
        decreases |file| - k
      {
        var next, got := ReadRecord(position, file, ioOk, k);
        if next == 0 || got.None? {
          LoadStep(view, k, |file|);
          Finish(view, loaded, k, |file|);
          return true;
        }
        var e := got.value;
        DecodedInside(file, ioOk, k);
        Advance(view, loaded, k, |file|, e);
        PutSnoc(keys0, contents0, loaded, e);
        PutSnoc(keys0, cache0, loaded, e);
        Load(e);
        loaded := loaded + [e];
        position := next;
        k := k + 1;
      }
      Finish(view, loaded, k, |file|);
      return position != -1;
    }

    /** The two `put`s of a loaded entry: into the map and into the cache. */
    method Load(e: Entry)
      requires Valid() && e.term.Some?
      modifies this
      ensures Valid()
      ensures keys == (if Key(e) in old(keys) then old(keys) else old(keys) + [Key(e)])
      ensures contents == old(contents)[Key(e) := e] && cache == old(cache)[Key(e) := e]
    {
      Put(e.term.value, e);
      cache := cache[e.term.value := e];
    }

    /** `clearCache()`. */
    method ClearCache()
      requires Valid()
      modifies this
      ensures Valid() && cache == map[] && keys == old(keys) && contents == old(contents)
    {
      cache := map[];
    }
  }

  /** `VocabularyEntry.readFromDisk` on a new entry at record `k`: the next position and
      the entry read, if a term was decoded. */
  method ReadRecord(position: int, file: seq<byte>, ioOk: bool, ghost k: nat)
    returns (next: int, got: Option<Entry>)
    requires position == ENTRY_SIZE * k
    ensures got == FileView(file, ioOk)(k) && (got.Some? ==> got.value.term.Some? && next == ENTRY_SIZE * (k + 1))
    ensures next == (if !ioOk then -1 else if got.None? then 0 else position + ENTRY_SIZE)
  {
    var entry := new VocabularyEntry.Empty();
    next := entry.ReadFromDisk(position, file, ioOk);
    got := if entry.term.None? then None else Some(entry.Fields());
    assert FileView(file, ioOk)(k) == Slot(file, ioOk, k);
  }

  /** `entry.readFromDisk(mid * entrySize)` on the reused entry. */
  method ProbeRecord(entry: VocabularyEntry, mid: nat, file: seq<byte>, ioOk: bool)
    modifies entry
    ensures entry.Fields() == Probe(FileView(file, ioOk), mid, old(entry.Fields()))
  {
    var _ := entry.ReadFromDisk(ENTRY_SIZE * mid, file, ioOk);
    assert FileView(file, ioOk)(mid) == Slot(file, ioOk, mid);
  }

  /** `findEntry(term)`: binary search over the first `vocabularySize` records with one
      reused entry; the result is the entry whose term equals `term`, or null. */
  method FindEntry(term: string, file: seq<byte>, vocabularySize: int, ioOk: bool) returns (r: Option<Entry>)
    ensures r == Search(FileView(file, ioOk), term, 0, vocabularySize - 1, Defaults(None))
  {
    ghost var view := FileView(file, ioOk);
    ghost var target := Search(view, term, 0, vocabularySize - 1, Defaults(None));
    var entry := new VocabularyEntry.Empty();
    var start := 0;
    var end := vocabularySize - 1;
    while start <= end
      invariant 0 <= start
      invariant target == Search(view, term, start, end, entry.Fields())
      decreases end - start + 1
    {
      var mid := start + (end - start) / 2;
      ghost var before := entry.Fields();
      ProbeRecord(entry, mid, file, ioOk);
      ghost var after := entry.Fields();
      SearchStep(view, term, start, end, before, mid, after);
      var key := entry.term;
      assert key == after.term;
      if key.None? {
        return None;
      }
      if key.value == term {
        return Some(entry.Fields());
      }
      if CompareTo(term, key.value) > 0 {
        assert target == Search(view, term, mid + 1, end, after);
        start := mid + 1;
      } else {
        assert target == Search(view, term, start, mid - 1, after);
        end := mid - 1;
      }
    }
    return None;
  }
}
