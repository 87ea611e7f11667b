/**
 * The document index: a map from docid to the entry of each document, loaded from the
 * document index file record by record.
 */
module DocumentIndexes {
  import opened Bytes
  import opened Wrappers
  import opened DocumentIndexEntries

  /** The map after `put`s of `ds` under their docids: the last entry put for a docid wins. */
  function PutDocs(m: map<int, Doc>, ds: seq<Doc>): (r: map<int, Doc>)
  {
    if ds == [] then m else PutDocs(m, ds[..|ds| - 1])[ds[|ds| - 1].docid := ds[|ds| - 1]]
  }

  /** What reading record `i` of `file` into a new entry gives. */
  function Reader(file: seq<byte>): nat -> Doc
  {
    (i: nat) => Read(file, Offset(i), NEW_DOC)
  }

  /** The outcome of `loadFromDisk`'s loop from record `i` on, with the map holding `m`,
      where reading record `k` gives `rec(k)`: each record read is put under its docid;
      the first failed read ends the loop with false and the map as it is. */
  function LoadFrom(rec: nat -> Doc, ioOk: nat -> bool, i: nat, n: int, m: map<int, Doc>): (r: (bool, map<int, Doc>))
    decreases n - i
  {
    if i >= n then (true, m)
    else if !ioOk(i) then (false, m)
    else LoadFrom(rec, ioOk, i + 1, n, m[rec(i).docid := rec(i)])
  }

  /** The entries read from records `i` up to `j`. */
  function EntriesFrom(rec: nat -> Doc, i: nat, j: nat): (ds: seq<Doc>)
    ensures |ds| == if i <= j then j - i else 0
    decreases j - i
  {
    if i >= j then [] else [rec(i)] + EntriesFrom(rec, i + 1, j)
  }

  /** Entry `k` of that sequence is read from record `i + k`. */
  lemma {:induction false} EntriesFromAt(rec: nat -> Doc, i: nat, j: nat, k: nat)
    requires i + k < j
    ensures EntriesFrom(rec, i, j)[k] == rec(i + k)
    decreases k
  {
    if k > 0 {
      EntriesFromAt(rec, i + 1, j, k - 1);
    }
  }

  /** The index of the first record from `i` on whose read fails, or the end of the loop:
      every read before it succeeds. */
  function FirstFailure(ioOk: nat -> bool, i: nat, n: int): (j: nat)
    ensures i <= j && (j < n ==> !ioOk(j)) && (i >= n ==> j == i) && (i < n ==> j <= n)
    ensures forall k :: i <= k < j ==> ioOk(k)
    decreases n - i
  {
    if i >= n || !ioOk(i) then i else FirstFailure(ioOk, i + 1, n)
  }

  /** The loop succeeds exactly when no read among the first `n` fails; the map then holds,
      put in order, the entries of all records read before the first failure (or all `n`). */
  lemma {:induction false} LoadFromIs(rec: nat -> Doc, ioOk: nat -> bool, i: nat, n: int, m: map<int, Doc>)
    ensures LoadFrom(rec, ioOk, i, n, m).0 <==> FirstFailure(ioOk, i, n) >= n
    ensures LoadFrom(rec, ioOk, i, n, m).1 == PutDocs(m, EntriesFrom(rec, i, FirstFailure(ioOk, i, n)))
    decreases n - i
  {
    if i < n && ioOk(i) {
      LoadFromIs(rec, ioOk, i + 1, n, m[rec(i).docid := rec(i)]);
      PutDocsCons(m, rec(i), EntriesFrom(rec, i + 1, FirstFailure(ioOk, i, n)));
    }
  }

  /** With no read failing, the first failure is the end of the loop. */
  lemma {:induction false} AllSucceed(ioOk: nat -> bool, i: nat, n: nat)
    requires i <= n && forall k :: i <= k < n ==> ioOk(k)
    ensures FirstFailure(ioOk, i, n) == n
    decreases n - i
  {
    if i < n {
      AllSucceed(ioOk, i + 1, n);
    }
  }

  /** Putting one entry first. */
  lemma {:induction false} PutDocsCons(m: map<int, Doc>, d: Doc, ds: seq<Doc>)
    ensures PutDocs(m[d.docid := d], ds) == PutDocs(m, [d] + ds)
    decreases |ds|
  {
    if ds != [] {
      var init := ds[..|ds| - 1];
      PutDocsCons(m, d, init);
      assert ([d] + ds)[..|ds|] == [d] + init;
    } else {
      assert PutDocs(m, [d]) == PutDocs(m, [])[d.docid := d];
    }
  }

  /** Under distinct docids every entry put is found under its own docid. */
  lemma {:induction false} PutDocsFinds(m: map<int, Doc>, ds: seq<Doc>, i: nat)
    requires i < |ds|
    requires forall a, b :: 0 <= a < b < |ds| ==> ds[a].docid != ds[b].docid
    ensures ds[i].docid in PutDocs(m, ds) && PutDocs(m, ds)[ds[i].docid] == ds[i]
    decreases |ds|
  {
    if i < |ds| - 1 {
      PutDocsFinds(m, ds[..|ds| - 1], i);
    }
  }

  /** With every read succeeding, loading a file written entry after entry maps each docid
      to the entry written for it. */
  lemma LoadLayout(ds: seq<Doc>, m: map<int, Doc>, i: nat)
    requires forall k :: 0 <= k < |ds| ==> Writable(ds[k])
    requires forall k :: 0 <= k < |ds| ==> Storable(ds[k])
    requires forall a, b :: 0 <= a < b < |ds| ==> ds[a].docid != ds[b].docid
    requires i < |ds|
    ensures LoadFrom(Reader(Layout(ds)), _ => true, 0, |ds|, m).0
    ensures ds[i].docid in LoadFrom(Reader(Layout(ds)), _ => true, 0, |ds|, m).1
    ensures LoadFrom(Reader(Layout(ds)), _ => true, 0, |ds|, m).1[ds[i].docid] == ds[i]
  {
    var ok: nat -> bool := _ => true;
    var rec := Reader(Layout(ds));
    LoadFromIs(rec, ok, 0, |ds|, m);
    AllSucceed(ok, 0, |ds|);
    EntriesOfLayout(ds);
    PutDocsFinds(m, ds, i);
  }

  /** Reading back a file written entry after entry gives the entries written. */
  lemma EntriesOfLayout(ds: seq<Doc>)
    requires forall k :: 0 <= k < |ds| ==> Writable(ds[k])
    requires forall k :: 0 <= k < |ds| ==> Storable(ds[k])
    ensures EntriesFrom(Reader(Layout(ds)), 0, |ds|) == ds
  {
    var rec := Reader(Layout(ds));
    forall k: nat | k < |ds|
      ensures rec(k) == ds[k]
    {
      ReadLayout(ds, k, NEW_DOC);
    }
    EntriesFromMatch(rec, ds);
  }

  /** Entries read by a reader that gives back `ds` are `ds`. */
  lemma EntriesFromMatch(rec: nat -> Doc, ds: seq<Doc>)
    requires forall k: nat :: k < |ds| ==> rec(k) == ds[k]
    ensures EntriesFrom(rec, 0, |ds|) == ds
  {
    forall k | 0 <= k < |ds|
      ensures EntriesFrom(rec, 0, |ds|)[k] == ds[k]
    {
      EntriesFromAt(rec, 0, |ds|, k);
    }
  }

  class DocumentIndex {
    var contents: map<int, Doc>

    constructor ()
      ensures contents == map[]
    {
      contents := map[];
    }

    /** `getPid(docId)`: the pid of the entry stored under `docId`, which must be there. */
    function GetPid(docId: int): (r: Option<string>)
      reads this
      requires docId in contents
      ensures r == contents[docId].pid
    {
      contents[docId].pid
    }

    /** `getLength(docId)`: the length of the document stored under `docId`. */
    function GetLength(docId: int): (r: int)
      reads this
      requires docId in contents
      ensures r == contents[docId].docLen
    {
      contents[docId].docLen
    }

    /** `loadFromDisk()` for a collection of `numDocs` documents; `ioOk(i)` says whether
        reading record `i` succeeds. The loop counter is an `int`, so the collection size
        must fit in one. */
    method LoadFromDisk(numDocs: int, file: seq<byte>, ioOk: nat -> bool) returns (r: bool)
      requires numDocs <= 0x7FFF_FFFF
      modifies this
      ensures (r, contents) == LoadFrom(Reader(file), ioOk, 0, numDocs, old(contents))
    {
      ghost var contents0 := contents;
      var i := 0;
      while i < numDocs
        invariant 0 <= i && (numDocs >= 0 ==> i <= numDocs)
        invariant LoadFrom(Reader(file), ioOk, 0, numDocs, contents0) == LoadFrom(Reader(file), ioOk, i, numDocs, contents)
        decreases numDocs - i
      {
        var newEntry := new DocumentIndexEntry.Empty();
        var ok := newEntry.ReadFromDisk(Offset(i), file, ioOk(i));
        if ok {
          contents := contents[newEntry.docid := newEntry.Fields()];
        } else {
          return false;
        }
        i := i + 1;
      }
      return true;
    }
  }
}
