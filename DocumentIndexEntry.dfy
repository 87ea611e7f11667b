/**
 * An entry of the document index: the external pid of a document, its docid and its
 * length in terms, stored as a 72-byte record (a 64-byte NUL-padded pid, then the docid
 * and the length as big-endian `int`s) at an offset shared by all entries.
 */
module DocumentIndexEntries {
  import opened Bytes
  import opened Wrappers
  import opened JavaText

  const PID_SIZE: nat := 64
  const ENTRY_SIZE: nat := PID_SIZE + 4 + 4

  /** The fields of an entry; the pid of an entry made by the default constructor is null. */
  datatype Doc = Doc(pid: Option<string>, docid: int, docLen: int)

  /** The fields of `new DocumentIndexEntry()`. */
  const NEW_DOC: Doc := Doc(None, 0, 0)

  /** `writeToDisk` puts each pid character at its own index of a 64-character buffer, so it
      needs a pid of at most 64 characters; for the UTF-8 encoding of that buffer to fill
      exactly the 64 bytes of the field every character must be ASCII. */
  predicate Writable(d: Doc)
  {
    d.pid.Some? && IsAscii(d.pid.value) && |d.pid.value| <= PID_SIZE && IsInt32(d.docid) && IsInt32(d.docLen)
  }

  /** The 72 bytes `writeToDisk` puts at the current offset. */
  function Record(d: Doc): (r: seq<byte>)
    requires Writable(d)
    ensures |r| == ENTRY_SIZE
  {
    PaddedField(d.pid.value, PID_SIZE) + PutInt(d.docid) + PutInt(d.docLen)
  }

  /** The fields after a successful `readFromDisk(off)` on an entry holding `cur`: the first
      64 bytes are decoded and split at NUL; when nothing is left (an all-NUL field) the
      fields stay as they were, otherwise the pid is the first part and the two `int`s
      after the field are the docid and the length. */
  function Read(file: seq<byte>, off: nat, cur: Doc): (r: Doc)
    ensures ReadAt(file, off, PID_SIZE) == Zeros(PID_SIZE) ==> r == cur
    ensures ReadAt(file, off, PID_SIZE) != Zeros(PID_SIZE) ==>
      r.pid.Some? && IsInt32(r.docid) && IsInt32(r.docLen)
  {
    match ReadPaddedString(ReadAt(file, off, PID_SIZE))
    case None => cur
    case Some(p) =>
      var rest := ReadAt(file, off + PID_SIZE, ENTRY_SIZE - PID_SIZE);
      Doc(Some(p), GetInt(rest[0..4]), GetInt(rest[4..8]))
  }

  /** A pid that reads back: not empty and without NULs. */
  predicate Storable(d: Doc)
  {
    Writable(d) && d.pid.value != "" && NUL !in d.pid.value
  }

  /** Reading at the offset of a written record restores the entry, including a pid that
      fills all 64 characters. */
  lemma RecordRoundTrip(file: seq<byte>, off: nat, d: Doc, cur: Doc)
    requires Storable(d)
    ensures Read(WriteAt(file, off, Record(d)), off, cur) == d
  {
    ReadAfterWrite(file, off, Record(d));
    ReadStored(WriteAt(file, off, Record(d)), off, d, cur);
  }

  /** Wherever the record of a storable entry lies, reading there gives the entry. */
  lemma ReadStored(file: seq<byte>, off: nat, d: Doc, cur: Doc)
    requires Storable(d) && ReadAt(file, off, ENTRY_SIZE) == Record(d)
    ensures Read(file, off, cur) == d
  {
    PidReadsBack(file, off, d);
    NumbersReadBack(file, off, d);
  }

  lemma PidReadsBack(file: seq<byte>, off: nat, d: Doc)
    requires Storable(d) && ReadAt(file, off, ENTRY_SIZE) == Record(d)
    ensures ReadPaddedString(ReadAt(file, off, PID_SIZE)) == Some(d.pid.value)
  {
    var field := PaddedField(d.pid.value, PID_SIZE);
    ReadAtSlice(file, off, ENTRY_SIZE, 0, PID_SIZE);
    assert Record(d)[..PID_SIZE] == field;
    if |d.pid.value| < PID_SIZE {
      ReadPaddedStringOfField(d.pid.value, PID_SIZE, []);
      assert field + [] == field;
    } else {
      ReadPaddedStringOfFullField(d.pid.value);
    }
  }

  lemma NumbersReadBack(file: seq<byte>, off: nat, d: Doc)
    requires Writable(d) && ReadAt(file, off, ENTRY_SIZE) == Record(d)
    ensures var rest := ReadAt(file, off + PID_SIZE, ENTRY_SIZE - PID_SIZE);
      GetInt(rest[0..4]) == d.docid && GetInt(rest[4..8]) == d.docLen
  {
    var rest := ReadAt(file, off + PID_SIZE, ENTRY_SIZE - PID_SIZE);
    ReadAtSlice(file, off, ENTRY_SIZE, PID_SIZE, ENTRY_SIZE);
    assert rest == Record(d)[PID_SIZE..];
    assert rest[0..4] == PutInt(d.docid) && rest[4..8] == PutInt(d.docLen);
    GetPutInt(d.docid);
    GetPutInt(d.docLen);
  }

  /** An empty pid is written as 64 NULs, so reading it back changes nothing. */
  lemma EmptyPidReadsNothing(file: seq<byte>, off: nat, d: Doc, cur: Doc)
    requires Writable(d) && d.pid.value == ""
    ensures Read(WriteAt(file, off, Record(d)), off, cur) == cur
  {
    ReadAfterWrite(file, off, Record(d));
    assert ReadAt(WriteAt(file, off, Record(d)), off, PID_SIZE) == Zeros(PID_SIZE);
  }

  // ---------------------------------------------------------------------------
  // the file written entry after entry

  /** The offset of record `i`: `(long) i * ENTRY_SIZE`. */
  function Offset(i: nat): nat
  {
    ENTRY_SIZE * i
  }

  /** The records of `ds`, one after another. */
  function Layout(ds: seq<Doc>): (r: seq<byte>)
    requires forall i :: 0 <= i < |ds| ==> Writable(ds[i])
    ensures |r| == ENTRY_SIZE * |ds|
  {
    if ds == [] then [] else Layout(ds[..|ds| - 1]) + Record(ds[|ds| - 1])
  }

  /** Writing the next record at the offset after the last one extends the layout. */
  lemma WriteExtends(ds: seq<Doc>, d: Doc)
    requires forall i :: 0 <= i < |ds| ==> Writable(ds[i])
    requires Writable(d)
    ensures WriteAt(Layout(ds), Offset(|ds|), Record(d)) == Layout(ds + [d])
  {
    assert (ds + [d])[..|ds|] == ds;
    WriteAtEnd(Layout(ds), Record(d));
  }

  /** Record `i` of the layout is the record of `ds[i]`. */
  lemma {:induction false} LayoutAt(ds: seq<Doc>, i: nat)
    requires forall k :: 0 <= k < |ds| ==> Writable(ds[k])
    requires i < |ds|
    ensures ReadAt(Layout(ds), Offset(i), ENTRY_SIZE) == Record(ds[i])
  {
    var init := ds[..|ds| - 1];
    if i == |ds| - 1 {
      ReadInsideAppend(Layout(init), Record(ds[i]), []);
      assert Layout(init) + Record(ds[i]) + [] == Layout(ds);
    } else {
      LayoutAt(init, i);
      assert init[i] == ds[i];
      assert ReadAt(Layout(ds), ENTRY_SIZE * i, ENTRY_SIZE) == ReadAt(Layout(init), ENTRY_SIZE * i, ENTRY_SIZE) by {
        LayoutPrefix(init, i);
      }
    }
  }

  lemma LayoutPrefix(init: seq<Doc>, i: nat)
    requires forall k :: 0 <= k < |init| ==> Writable(init[k])
    requires i < |init|
    ensures ENTRY_SIZE * i + ENTRY_SIZE <= |Layout(init)|
  {
    assert ENTRY_SIZE * i + ENTRY_SIZE == ENTRY_SIZE * (i + 1);
  }

  /** Reading record `i` of a layout of storable entries gives `ds[i]`. */
  lemma ReadLayout(ds: seq<Doc>, i: nat, cur: Doc)
    requires forall k :: 0 <= k < |ds| ==> Writable(ds[k])
    requires forall k :: 0 <= k < |ds| ==> Storable(ds[k])
    requires i < |ds|
    ensures Read(Layout(ds), Offset(i), cur) == ds[i]
  {
    LayoutAt(ds, i);
    ReadStored(Layout(ds), Offset(i), ds[i], cur);
  }

  // ---------------------------------------------------------------------------
  // the channel `writeToDisk` opens

  /** The `StandardOpenOption`s the entry's channels are opened with. */
  datatype OpenOption = READ | WRITE | CREATE | APPEND

  /** The `FileChannel.MapMode`s. */
  datatype MapMode = READ_ONLY | READ_WRITE | PRIVATE

  /** How `FileChannel.map` ends. */
  datatype Mapping = Mapped | NonReadable | NonWritable

  /** `Files.newByteChannel` refuses READ together with APPEND. */
  predicate Opens(options: set<OpenOption>)
  {
    !(READ in options && APPEND in options)
  }

  /** A channel is open for reading when asked to, or when asked for neither writing nor
      appending; it is open for writing when asked to write or to append. */
  predicate ReadableChannel(options: set<OpenOption>)
  {
    READ in options || (WRITE !in options && APPEND !in options)
  }

  predicate WritableChannel(options: set<OpenOption>)
  {
    WRITE in options || APPEND in options
  }

  /** `map(mode, …)` needs a channel open for reading, and for writing too unless the
      mode is READ_ONLY; otherwise it throws. */
  function MapChannel(options: set<OpenOption>, mode: MapMode): (r: Mapping)
    ensures r == Mapped <==> ReadableChannel(options) && (mode != READ_ONLY ==> WritableChannel(options))
  {
    if !ReadableChannel(options) then NonReadable
    else if mode != READ_ONLY && !WritableChannel(options) then NonWritable
    else Mapped
  }

  /** How `writeToDisk` ends: the start offset, -1 after an I/O failure, or an unchecked
      exception that leaves the method. */
  datatype WriteOutcome = EntryWritten(offset: int) | EntryFailed | EntryThrew

  /** `writeToDisk` with its channel opened with `options`: opening (`ioOk`), then mapping
      the record READ_WRITE, then putting the pid characters into a 64-character buffer. */
  function WriteWith(options: set<OpenOption>, ioOk: bool, memOffset: int, d: Doc): WriteOutcome
  {
    if !Opens(options) then EntryThrew
    else if !ioOk then EntryFailed
    else if MapChannel(options, READ_WRITE) != Mapped then EntryThrew
    else if !Writable(d) then EntryThrew
    else EntryWritten(memOffset)
  }

  /** The options `writeToDisk` opens its channel with. */
  const WRITE_TO_DISK_OPTIONS: set<OpenOption> := {WRITE, CREATE, APPEND}

  /** The options `readFromDisk` opens its channel with, which the model uses for both. */
  const READ_FROM_DISK_OPTIONS: set<OpenOption> := {WRITE, READ, CREATE}

  /** With the options as written the channel is not readable, so whenever it opens the
      READ_WRITE mapping throws, whatever the entry. */
  function WriteAsWritten(ioOk: bool, memOffset: int, d: Doc): (r: WriteOutcome)
    ensures ioOk ==> r == EntryThrew
    ensures !ioOk ==> r == EntryFailed
  {
    WriteWith(WRITE_TO_DISK_OPTIONS, ioOk, memOffset, d)
  }

  /** With the options of `readFromDisk` the record is written at the offset whenever the
      channel opens and the entry fits a record. */
  function WriteCorrected(ioOk: bool, memOffset: int, d: Doc): (r: WriteOutcome)
    ensures ioOk && Writable(d) ==> r == EntryWritten(memOffset)
    ensures ioOk && !Writable(d) ==> r == EntryThrew
    ensures !ioOk ==> r == EntryFailed
  {
    WriteWith(READ_FROM_DISK_OPTIONS, ioOk, memOffset, d)
  }

  /** The first document of a collection is enough: its entry's write throws as written
      and is stored with the corrected options. */
  lemma FirstEntryThrows()
    ensures WriteAsWritten(true, 0, Doc(Some("doc0"), 1, 3)) == EntryThrew
    ensures WriteCorrected(true, 0, Doc(Some("doc0"), 1, 3)) == EntryWritten(0)
  {
    assert IsAscii("doc0");
  }

  // ---------------------------------------------------------------------------
  // the shared offset and the entry

  /** The document index file and the static `memOffset` shared by all entries. */
  class DocumentIndexFile {
    var file: seq<byte>
    var memOffset: int

    /** The offset starts at zero when the class is loaded. */
    constructor (file0: seq<byte>)
      ensures file == file0 && memOffset == 0
    {
      file, memOffset := file0, 0;
    }

    /** `resetOffset()`. */
    method ResetOffset()
      modifies this
      ensures memOffset == 0 && file == old(file)
    {
      memOffset := 0;
    }
  }

  class DocumentIndexEntry {
    var pid: Option<string>
    var docid: int
    var docLen: int

    function Fields(): Doc
      reads this
    {
      Doc(pid, docid, docLen)
    }

    /** `new DocumentIndexEntry()`. */
    constructor Empty()
      ensures Fields() == NEW_DOC
    {
      pid, docid, docLen := None, 0, 0;
    }

    constructor (pid: string, docid: int, docLen: int)
      ensures Fields() == Doc(Some(pid), docid, docLen)
    {
      this.pid, this.docid, this.docLen := Some(pid), docid, docLen;
    }

    /** `writeToDisk()`, its channel opened as `readFromDisk` opens it: the record goes at
        the shared offset, which is returned and then advanced by one record; on an I/O
        failure -1 is returned and nothing changes. */
    method WriteToDisk(store: DocumentIndexFile, ioOk: bool) returns (r: int)
      requires store.memOffset >= 0 && (ioOk ==> Writable(Fields()))
      modifies store
      ensures WriteCorrected(ioOk, old(store.memOffset), Fields()) == if ioOk then EntryWritten(r) else EntryFailed
      ensures ioOk ==> r == old(store.memOffset) && store.memOffset == old(store.memOffset) + ENTRY_SIZE
      ensures ioOk ==> store.file == WriteAt(old(store.file), old(store.memOffset), Record(Fields()))
      ensures !ioOk ==> r == -1 && store.memOffset == old(store.memOffset) && store.file == old(store.file)
    {
      if !ioOk {
        return -1;
      }
      var buffer := PaddedField(pid.value, PID_SIZE);
      buffer := buffer + PutInt(docid);
      buffer := buffer + PutInt(docLen);
      store.file := WriteAt(store.file, store.memOffset, buffer);
      var startOffset := store.memOffset;
      store.memOffset := store.memOffset + ENTRY_SIZE;
      return startOffset;
    }

    /** `readFromDisk(memoryOffset)`: true, with the fields read as `Read` says, unless an
        I/O failure makes it false with nothing changed. */
    method ReadFromDisk(memoryOffset: int, file: seq<byte>, ioOk: bool) returns (r: bool)
      requires memoryOffset >= 0
      modifies this
      ensures r == ioOk
      ensures Fields() == if ioOk then Read(file, memoryOffset, old(Fields())) else old(Fields())
    {
      if !ioOk {
        return false;
      }
      var buffer := ReadAt(file, memoryOffset, PID_SIZE);
      var parts := ReadPaddedString(buffer);
      if parts.None? {
        return true;
      }
      pid := parts;
      var rest := ReadAt(file, memoryOffset + PID_SIZE, ENTRY_SIZE - PID_SIZE);
      docid := GetInt(rest[0..4]);
      docLen := GetInt(rest[4..8]);
      return true;
    }

    /** `equals(obj)`: the same object, or an entry with the same docid, length and pid.
        Comparing the pids calls `equals` on the other entry's pid, which must not be null. */
    function Equals(other: DocumentIndexEntry?): (r: bool)
      reads this, other
      requires other != null && other != this ==> other.pid.Some?
      ensures r <==> other == this || (other != null && other.Fields() == Fields())
    {
      if other == this then true
      else if other == null then false
      else other.docid == docid && other.docLen == docLen && Some(other.pid.value) == pid
    }
  }

  /** Between entries with pids `equals` is symmetric and transitive. */
  lemma EqualsEquivalence(a: DocumentIndexEntry, b: DocumentIndexEntry, c: DocumentIndexEntry)
    requires a.pid.Some? && b.pid.Some? && c.pid.Some?
    ensures a.Equals(a)
    ensures a.Equals(b) <==> b.Equals(a)
    ensures a.Equals(b) && b.Equals(c) ==> a.Equals(c)
  {
  }
}
