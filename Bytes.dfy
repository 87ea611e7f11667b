/**
 * Bytes on disk: the byte type, Java `ByteBuffer`'s big-endian two's-complement
 * encoding of `int` and `long`, and files as byte sequences.
 *
 * A memory-mapped region that reaches past the end of a file opened for writing
 * extends the file with zero bytes, so reading past the end yields zeros and
 * writing past the end pads with zeros first.
 */
module Bytes {

  type byte = b: int | 0 <= b < 256

  /** Eight opaque bytes: a Java `double` field kept exactly as stored. */
  type Opaque8 = s: seq<byte> | |s| == 8 witness [0, 0, 0, 0, 0, 0, 0, 0]

  const INT_BYTES: nat := 4
  const LONG_BYTES: nat := 8

  function Pow256(w: nat): (r: nat)
    ensures r >= 1
  {
    if w == 0 then 1 else 256 * Pow256(w - 1)
  }

  predicate IsInt32(x: int) { -0x8000_0000 <= x < 0x8000_0000 }
  predicate IsInt64(x: int) { -0x8000_0000_0000_0000 <= x < 0x8000_0000_0000_0000 }

  /** Java `int` arithmetic: the 32-bit two's-complement value congruent to `x`
      modulo 2^32, reached by adding or removing 2^32 until it fits. */
  function Wrap32(x: int): (r: int)
    ensures IsInt32(r)
    ensures IsInt32(x) ==> r == x
    decreases if IsInt32(x) then 0 else if x < 0 then -x else x
  {
    if IsInt32(x) then x
    else if x >= 0x8000_0000 then Wrap32(x - 0x1_0000_0000)
    else Wrap32(x + 0x1_0000_0000)
  }

  /** `Wrap32` keeps the value modulo 2^32. */
  lemma {:induction false} Wrap32Mod(x: int)
    ensures Wrap32(x) % 0x1_0000_0000 == x % 0x1_0000_0000
    decreases if IsInt32(x) then 0 else if x < 0 then -x else x
  {
    if IsInt32(x) {
    } else if x >= 0x8000_0000 {
      Wrap32Mod(x - 0x1_0000_0000);
    } else {
      Wrap32Mod(x + 0x1_0000_0000);
    }
  }

  /** Two `int`s that agree modulo 2^32 are equal. */
  lemma Int32Unique(a: int, b: int)
    requires IsInt32(a) && IsInt32(b) && a % 0x1_0000_0000 == b % 0x1_0000_0000
    ensures a == b
  {
    var m := 0x1_0000_0000;
    assert a == m * (a / m) + a % m;
    assert b == m * (b / m) + b % m;
  }

  /** Java `int` addition may wrap at every step or only at the end: the result is the
      same. */
  lemma Wrap32Add(x: int, y: int)
    ensures Wrap32(Wrap32(x) + y) == Wrap32(x + y)
  {
    Wrap32Mod(x);
    Wrap32Mod(Wrap32(x) + y);
    Wrap32Mod(x + y);
    AddCongruent(Wrap32(x), x, y);
    Int32Unique(Wrap32(Wrap32(x) + y), Wrap32(x + y));
  }

  lemma AddCongruent(a: int, b: int, y: int)
    requires a % 0x1_0000_0000 == b % 0x1_0000_0000
    ensures (a + y) % 0x1_0000_0000 == (b + y) % 0x1_0000_0000
  {
    var m := 0x1_0000_0000;
    var q, s := (b + y) / m, (b + y) % m;
    assert a == m * (a / m) + a % m;
    assert b == m * (b / m) + b % m;
    assert b + y == m * q + s;
    ModOfForm(a / m - b / m + q, s);
  }

  /** The remainder modulo 2^32 of `2^32 * t + s`, for `0 <= s < 2^32`, is `s`. */
  lemma ModOfForm(t: int, s: int)
    requires 0 <= s < 0x1_0000_0000
    ensures (0x1_0000_0000 * t + s) % 0x1_0000_0000 == s
  {
    var m := 0x1_0000_0000;
    var x := m * t + s;
    assert x == m * (x / m) + x % m;
    assert m * (t - x / m) == x % m - s;
  }

  /** Java's `/` on integers, which truncates toward zero. */
  function JavaDiv(x: int, d: int): (r: int)
    requires d > 0
    ensures x >= 0 ==> r == x / d
  {
    if x >= 0 then x / d else -((-x) / d)
  }

  /** Java's `%` on integers: the remainder takes the sign of the dividend. */
  function JavaRem(x: int, d: int): (r: int)
    requires d > 0
    ensures x >= 0 ==> r == x % d
    ensures x < 0 ==> -d < r <= 0
  {
    if x >= 0 then x % d else -((-x) % d)
  }

  /** The low `w` bytes of `x`, most significant first. */
  function UnsignedBE(x: nat, w: nat): (r: seq<byte>)
    ensures |r| == w
  {
    if w == 0 then [] else UnsignedBE(x / 256, w - 1) + [x % 256]
  }

  /** The unsigned value of a big-endian byte string. */
  function FromBE(bs: seq<byte>): (r: nat)
    ensures r < Pow256(|bs|)
  {
    if bs == [] then 0 else 256 * FromBE(bs[..|bs| - 1]) + bs[|bs| - 1]
  }

  lemma {:induction false} FromUnsignedBE(x: nat, w: nat)
    requires x < Pow256(w)
    ensures FromBE(UnsignedBE(x, w)) == x
  {
    if w > 0 {
      var r := UnsignedBE(x, w);
      assert r[..w - 1] == UnsignedBE(x / 256, w - 1);
      assert x / 256 < Pow256(w - 1);
      FromUnsignedBE(x / 256, w - 1);
    }
  }

  /** `ByteBuffer.putInt`: four bytes, two's complement, big-endian. */
  function PutInt(x: int): (r: seq<byte>)
    ensures |r| == INT_BYTES
  {
    UnsignedBE(x % 0x1_0000_0000, INT_BYTES)
  }

  /** `ByteBuffer.getInt` on four bytes. */
  function GetInt(bs: seq<byte>): (r: int)
    requires |bs| == INT_BYTES
    ensures IsInt32(r)
  {
    assert Pow256(4) == 0x1_0000_0000;
    var u := FromBE(bs);
    if u < 0x8000_0000 then u else u - 0x1_0000_0000
  }

  /** `ByteBuffer.putLong`: eight bytes, two's complement, big-endian. */
  function PutLong(x: int): (r: seq<byte>)
    ensures |r| == LONG_BYTES
  {
    UnsignedBE(x % 0x1_0000_0000_0000_0000, LONG_BYTES)
  }

  /** `ByteBuffer.getLong` on eight bytes. */
  function GetLong(bs: seq<byte>): (r: int)
    requires |bs| == LONG_BYTES
    ensures IsInt64(r)
  {
    assert Pow256(8) == 0x1_0000_0000_0000_0000;
    var u := FromBE(bs);
    if u < 0x8000_0000_0000_0000 then u else u - 0x1_0000_0000_0000_0000
  }

  lemma GetPutInt(x: int)
    requires IsInt32(x)
    ensures GetInt(PutInt(x)) == x
  {
    assert Pow256(4) == 0x1_0000_0000;
    FromUnsignedBE(x % 0x1_0000_0000, 4);
  }

  lemma GetPutLong(x: int)
    requires IsInt64(x)
    ensures GetLong(PutLong(x)) == x
  {
    assert Pow256(8) == 0x1_0000_0000_0000_0000;
    FromUnsignedBE(x % 0x1_0000_0000_0000_0000, 8);
  }

  /** Zero bytes. */
  function Zeros(n: nat): (r: seq<byte>)
    ensures |r| == n && forall i :: 0 <= i < n ==> r[i] == 0
  {
    seq(n, _ => 0)
  }

  /** The `n` bytes at `off`; bytes past the end of the file read as zero. */
  function ReadAt(file: seq<byte>, off: nat, n: nat): (r: seq<byte>)
    ensures |r| == n
    ensures forall i :: 0 <= i < n ==> r[i] == if off + i < |file| then file[off + i] else 0
  {
    seq(n, i requires 0 <= i < n => if off + i < |file| then file[off + i] else 0)
  }

  /** The file after writing `data` at `off`, zero-extended first if it is too short. */
  function WriteAt(file: seq<byte>, off: nat, data: seq<byte>): (r: seq<byte>)
    ensures |r| == if off + |data| > |file| then off + |data| else |file|
    ensures forall i :: 0 <= i < |r| ==>
      r[i] == if off <= i < off + |data| then data[i - off]
              else if i < |file| then file[i] else 0
  {
    var len := if off + |data| > |file| then off + |data| else |file|;
    seq(len, i requires 0 <= i < len =>
      if off <= i < off + |data| then data[i - off] else if i < |file| then file[i] else 0)
  }

  lemma ReadAfterWrite(file: seq<byte>, off: nat, data: seq<byte>)
    ensures ReadAt(WriteAt(file, off, data), off, |data|) == data
  {
  }

  lemma ReadAfterWriteElsewhere(file: seq<byte>, off: nat, data: seq<byte>, off2: nat, n: nat)
    requires off2 + n <= off || off + |data| <= off2
    ensures ReadAt(WriteAt(file, off, data), off2, n) == ReadAt(file, off2, n)
  {
  }

  /** Two adjacent writes: both regions read back, and the bytes before and after them
      are kept. */
  lemma AdjacentWrites(file: seq<byte>, off: nat, d: seq<byte>, f: seq<byte>)
    ensures var w := WriteAt(WriteAt(file, off, d), off + |d|, f);
      |w| >= off + |d| + |f| &&
      ReadAt(w, off, |d|) == d && ReadAt(w, off + |d|, |f|) == f &&
      ReadAt(w, 0, off) == ReadAt(file, 0, off) &&
      forall i :: off + |d| + |f| <= i < |file| ==> w[i] == file[i]
  {
    var once := WriteAt(file, off, d);
    ReadAfterWrite(once, off + |d|, f);
    ReadAfterWrite(file, off, d);
    ReadAfterWriteElsewhere(once, off + |d|, f, off, |d|);
    ReadAfterWriteElsewhere(once, off + |d|, f, 0, off);
    ReadAfterWriteElsewhere(file, off, d, 0, off);
  }

  /** A part of a read is a read of that part. */
  lemma ReadAtSlice(file: seq<byte>, off: nat, n: nat, a: nat, b: nat)
    requires a <= b <= n
    ensures ReadAt(file, off, n)[a..b] == ReadAt(file, off + a, b - a)
  {
  }

  /** Writing at the end of a file appends. */
  lemma WriteAtEnd(file: seq<byte>, data: seq<byte>)
    ensures WriteAt(file, |file|, data) == file + data
  {
    var w := WriteAt(file, |file|, data);
    forall i | 0 <= i < |w|
      ensures w[i] == (file + data)[i]
    {
    }
  }

  /** Reading a region that lies inside a concatenation of records. */
  lemma ReadInsideAppend(prefix: seq<byte>, rec: seq<byte>, suffix: seq<byte>)
    ensures ReadAt(prefix + rec + suffix, |prefix|, |rec|) == rec
  {
  }
}
