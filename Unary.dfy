/**
 * Unary compression of term frequencies: a frequency `f >= 1` is written as
 * `f - 1` one bits followed by one zero bit; bits fill each byte from its most
 * significant bit down. Elements `<= 0` are skipped.
 */
module Unary {
  import opened Bytes

  // ---------------------------------------------------------------------------
  // bits of a byte

  function Pow2(k: nat): (r: nat)
    ensures r >= 1
  {
    if k == 0 then 1 else 2 * Pow2(k - 1)
  }

  /** The low `w` bits of `x`, most significant first. */
  function ToBits(x: nat, w: nat): (r: seq<bool>)
    ensures |r| == w
  {
    if w == 0 then [] else ToBits(x / 2, w - 1) + [x % 2 == 1]
  }

  /** The number a sequence of bits spells, most significant first. */
  function FromBits(bs: seq<bool>): (r: nat)
    ensures r < Pow2(|bs|)
  {
    if bs == [] then 0 else 2 * FromBits(bs[..|bs| - 1]) + (if bs[|bs| - 1] then 1 else 0)
  }

  lemma {:induction false} FromToBits(x: nat, w: nat)
    requires x < Pow2(w)
    ensures FromBits(ToBits(x, w)) == x
  {
    if w > 0 {
      assert ToBits(x, w)[..w - 1] == ToBits(x / 2, w - 1);
      assert x / 2 < Pow2(w - 1);
      FromToBits(x / 2, w - 1);
    }
  }

  lemma {:induction false} ToFromBits(bs: seq<bool>)
    ensures ToBits(FromBits(bs), |bs|) == bs
  {
    if bs != [] {
      var init := bs[..|bs| - 1];
      var v := FromBits(bs);
      var f := FromBits(init);
      var b := if bs[|bs| - 1] then 1 else 0;
      assert v == 2 * f + b;
      assert v / 2 == f && v % 2 == b;
      ToFromBits(init);
      assert init + [bs[|bs| - 1]] == bs;
    }
  }

  /** The eight bits of a byte, position 0 being the most significant. */
  function BitsOf(b: byte): (r: seq<bool>)
    ensures |r| == 8
  {
    ToBits(b, 8)
  }

  function ByteOfBits(c: seq<bool>): (r: byte)
    requires |c| == 8
  {
    assert Pow2(8) == 256;
    FromBits(c)
  }

  /** `(b & (1 << 7 - k)) != 0`. */
  function TestBit(b: byte, k: nat): bool
    requires k < 8
  {
    BitsOf(b)[k]
  }

  /** `(byte) (b | (1 << 7 - k))`. */
  function SetBit(b: byte, k: nat): (r: byte)
    requires k < 8
    ensures TestBit(r, k)
    ensures forall m :: 0 <= m < 8 && m != k ==> TestBit(r, m) == TestBit(b, m)
  {
    var bits := BitsOf(b)[k := true];
    assert Pow2(8) == 256;
    ToFromBits(bits);
    ByteOfBits(bits)
  }

  /** Setting a clear bit adds its weight, as an `or` with a one-bit mask does. */
  lemma SetBitAdds(b: byte, k: nat)
    requires k < 8 && !TestBit(b, k)
    ensures SetBit(b, k) == b + Pow2(7 - k)
  {
    var bits := BitsOf(b);
    assert SetBit(b, k) == FromBits(bits[k := true]);
    assert Pow2(8) == 256;
    FromToBits(b, 8);
    SetClearBit(bits, k);
  }

  lemma {:induction false} SetClearBit(bs: seq<bool>, k: nat)
    requires k < |bs| && !bs[k]
    ensures FromBits(bs[k := true]) == FromBits(bs) + Pow2(|bs| - 1 - k)
  {
    var n := |bs|;
    var init := bs[..n - 1];
    if k == n - 1 {
      assert bs[k := true][..n - 1] == init;
    } else {
      assert bs[k := true][..n - 1] == init[k := true];
      SetClearBit(init, k);
    }
  }

  // ---------------------------------------------------------------------------
  // bit streams

  function Ones(n: nat): (r: seq<bool>)
    ensures |r| == n && forall i :: 0 <= i < n ==> r[i]
  {
    seq(n, _ => true)
  }

  /** The bits written for one element. */
  function Code(x: int): seq<bool>
  {
    if x <= 0 then [] else Ones(x - 1) + [false]
  }

  /** The bits written for all elements, in order. */
  function Stream(xs: seq<int>): seq<bool>
  {
    if xs == [] then [] else Code(xs[0]) + Stream(xs[1..])
  }

  /** `nBits` of the compressor: the Java `int` sum of the elements. */
  function JavaSum(xs: seq<int>): (r: int)
    ensures IsInt32(r)
  {
    if xs == [] then 0 else Wrap32(JavaSum(xs[..|xs| - 1]) + xs[|xs| - 1])
  }

  /** `nBits / 8 + (nBits % 8 != 0 ? 1 : 0)` with Java's truncating operators. */
  function NumBytes(nBits: int): int
  {
    JavaDiv(nBits, 8) + (if JavaRem(nBits, 8) != 0 then 1 else 0)
  }

  /** Eight bits from position `8 * i`; positions past the end of the stream are zero. */
  function Chunk(bits: seq<bool>, i: nat): (r: seq<bool>)
    ensures |r| == 8
  {
    seq(8, k requires 0 <= k < 8 => 8 * i + k < |bits| && bits[8 * i + k])
  }

  /** `n` bytes holding `bits`, zero-padded. */
  function Pack(bits: seq<bool>, n: nat): (r: seq<byte>)
    ensures |r| == n
  {
    seq(n, i requires 0 <= i < n => ByteOfBits(Chunk(bits, i)))
  }

  /** The bits of a byte array, most significant bit of each byte first. */
  function Unpack(bytes: seq<byte>): (r: seq<bool>)
    ensures |r| == 8 * |bytes|
  {
    if bytes == [] then [] else BitsOf(bytes[0]) + Unpack(bytes[1..])
  }

  /** The numbers read from a bit stream: a zero bit closes a run of ones; reading stops
      once `limit` numbers have been produced. */
  function DecodeBits(bits: seq<bool>, ones: int, limit: nat): (r: seq<int>)
    requires limit >= 1
    ensures |r| <= limit
  {
    if bits == [] then []
    else if !bits[0] then
      [ones + 1] + (if limit == 1 then [] else DecodeBits(bits[1..], 0, limit - 1))
    else DecodeBits(bits[1..], ones + 1, limit)
  }

  function ZeroInts(n: nat): (r: seq<int>)
    ensures |r| == n && forall i :: 0 <= i < n ==> r[i] == 0
  {
    seq(n, _ => 0)
  }

  /** What `integerArrayDecompression` returns: the numbers read, then zeros up to `totNums`. */
  function Decompressed(bytes: seq<byte>, totNums: nat): (r: seq<int>)
    ensures |r| == totNums
  {
    var ds := if totNums == 0 then [] else DecodeBits(Unpack(bytes), 0, totNums);
    ds + ZeroInts(totNums - |ds|)
  }

  /** The compressor stays inside its array: the byte count is not negative and every
      one bit falls inside it. */
  predicate Compressible(xs: seq<int>)
  {
    var n := NumBytes(JavaSum(xs));
    var s := Stream(xs);
    n >= 0 && forall p :: 0 <= p < |s| && s[p] ==> p < 8 * n
  }

  // ---------------------------------------------------------------------------
  // Methods

  /** `integerArrayCompression`. */
  method IntegerArrayCompression(toBeCompressed: array<int>) returns (compressed: array<byte>)
    requires Compressible(toBeCompressed[..])
    ensures compressed[..] == Pack(Stream(toBeCompressed[..]), NumBytes(JavaSum(toBeCompressed[..])))
  {
    ghost var xs := toBeCompressed[..];
    var nBits := 0;
    for i := 0 to toBeCompressed.Length
      invariant nBits == JavaSum(xs[..i])
    {
      assert xs[..i + 1][..i] == xs[..i];
      nBits := Wrap32(nBits + toBeCompressed[i]);
    }
    assert xs[..toBeCompressed.Length] == xs;
    var nBytes := NumBytes(nBits);
    compressed := new byte[nBytes](_ => 0);
    PackEmpty(nBytes);
    var nextByte := 0;
    var nextBit := 0;
    ghost var written: seq<bool> := [];
    for i := 0 to toBeCompressed.Length
      invariant written == Stream(xs[..i])
      invariant |written| == 8 * nextByte + nextBit && 0 <= nextBit < 8
      invariant compressed[..] == Pack(written, nBytes)
    {
      if toBeCompressed[i] <= 0 {
        SkipStep(xs, i);
        continue;
      }
      for j := 0 to toBeCompressed[i] - 1
        invariant written == Stream(xs[..i]) + Ones(j)
        invariant |written| == 8 * nextByte + nextBit && 0 <= nextBit < 8
        invariant compressed[..] == Pack(written, nBytes)
      {
        OneInRange(xs, i, j);
        OneStep(Stream(xs[..i]), j, written, nBytes, nextByte, nextBit);
        compressed[nextByte] := SetBit(compressed[nextByte], nextBit);
        written := written + [true];
        nextBit := nextBit + 1;
        if nextBit == 8 {
          nextByte := nextByte + 1;
          nextBit := 0;
        }
      }
      ZeroStep(xs, i, written, nBytes);
      written := written + [false];
      nextBit := nextBit + 1;
      if nextBit == 8 {
        nextByte := nextByte + 1;
        nextBit := 0;
      }
    }
    assert xs[..toBeCompressed.Length] == xs;
  }

  /** `integerArrayDecompression`: the first zero bit stores into position 0 of the
      output, so with `totNums == 0` the input must hold no zero bit. */
  method IntegerArrayDecompression(toBeDecompressed: array<byte>, totNums: int)
    returns (decompressed: array<int>)
    requires totNums >= 0
    requires totNums == 0 ==> forall p :: 0 <= p < 8 * toBeDecompressed.Length ==>
                                 Unpack(toBeDecompressed[..])[p]
    ensures decompressed[..] == Decompressed(toBeDecompressed[..], totNums)
  {
    decompressed := new int[totNums](_ => 0);
    ghost var bytes := toBeDecompressed[..];
    ghost var bits := Unpack(bytes);
    ghost var done: seq<int> := [];
    var toBeReadByte := 0;
    var toBeReadBit := 0;
    var nextInteger := 0;
    var onesCounter := 0;
    var i := 0;
    while i < toBeDecompressed.Length * 8
      invariant 0 <= i <= 8 * toBeDecompressed.Length
      invariant i == 8 * toBeReadByte + toBeReadBit && 0 <= toBeReadBit < 8
      invariant nextInteger == |done| && Reading(bits, i, done, onesCounter, totNums)
      invariant decompressed[..] == done + ZeroInts(totNums - nextInteger)
      decreases 8 * toBeDecompressed.Length - i
    {
      UnpackAt(bytes, toBeReadByte, toBeReadBit);
      var zero := !TestBit(toBeDecompressed[toBeReadByte], toBeReadBit);
      nextInteger, onesCounter, done := Consume(decompressed, zero, bits, i, done, nextInteger, onesCounter, totNums);
      if zero && nextInteger == totNums {
        break;
      }
      toBeReadBit := toBeReadBit + 1;
      if toBeReadBit == 8 {
        toBeReadByte := toBeReadByte + 1;
        toBeReadBit := 0;
      }
      i := i + 1;
    }
    DecompressedDone(bytes, totNums, done, i, onesCounter);
  }

  // ---------------------------------------------------------------------------
  // Lemmas

  lemma {:induction false} UnpackAt(bytes: seq<byte>, q: nat, r: nat)
    requires q < |bytes| && r < 8
    ensures Unpack(bytes)[8 * q + r] == TestBit(bytes[q], r)
  {
    if q > 0 {
      UnpackAt(bytes[1..], q - 1, r);
    }
  }

  /** One bit of `integerArrayDecompression`'s scan. */
  lemma BitAdvance(bits: seq<bool>, i: nat, done: seq<int>, ones: int, total: nat)
    requires i < |bits|
    requires (total == 0 ==> bits[i]) && (total > 0 ==> |done| < total)
    requires total > 0 ==>
      done + DecodeBits(bits[i..], ones, total - |done|) == DecodeBits(bits, 0, total)
    ensures total > 0 && bits[i] ==>
      done + DecodeBits(bits[i + 1..], ones + 1, total - |done|) == DecodeBits(bits, 0, total)
    ensures !bits[i] ==> total > 0
    ensures !bits[i] && |done| + 1 == total ==> done + [ones + 1] == DecodeBits(bits, 0, total)
    ensures !bits[i] && |done| + 1 < total ==>
      done + [ones + 1] + DecodeBits(bits[i + 1..], 0, total - |done| - 1) == DecodeBits(bits, 0, total)
  {
    if total > 0 {
      var rest := bits[i..];
      assert rest[0] == bits[i] && rest[1..] == bits[i + 1..];
      if !bits[i] {
        var tail := if total - |done| == 1 then [] else DecodeBits(bits[i + 1..], 0, total - |done| - 1);
        assert DecodeBits(rest, ones, total - |done|) == [ones + 1] + tail;
        assert done + ([ones + 1] + tail) == done + [ones + 1] + tail;
        if total - |done| == 1 {
          assert done + [ones + 1] + [] == done + [ones + 1];
        }
      }
    }
  }

  /** The scan ends with every number read, or with the bits exhausted. */
  lemma DecompressedDone(bytes: seq<byte>, totNums: nat, done: seq<int>, i: nat, ones: int)
    requires i <= 8 * |bytes|
    requires totNums == 0 ==> done == []
    requires totNums > 0 ==> |done| <= totNums
    requires totNums > 0 && |done| < totNums ==> i == 8 * |bytes|
    requires totNums > 0 && |done| < totNums ==>
      done + DecodeBits(Unpack(bytes)[i..], ones, totNums - |done|) == DecodeBits(Unpack(bytes), 0, totNums)
    requires totNums > 0 && |done| == totNums ==> done == DecodeBits(Unpack(bytes), 0, totNums)
    ensures done + ZeroInts(totNums - |done|) == Decompressed(bytes, totNums)
  {
    if totNums > 0 && |done| < totNums {
      assert Unpack(bytes)[i..] == [];
      assert done + [] == done;
    }
  }

  /** The scan of `integerArrayDecompression` before bit `i`: the numbers `done` read so
      far, with `ones` one bits pending, followed by what the rest of the bits decode to,
      are what the whole stream decodes to. With `totNums = 0` nothing is read. */
  ghost predicate Reading(bits: seq<bool>, i: nat, done: seq<int>, ones: int, totNums: int)
  {
    i <= |bits| && totNums >= 0 &&
    (totNums == 0 ==> done == [] && forall p :: i <= p < |bits| ==> bits[p]) &&
    (totNums > 0 ==>
       |done| < totNums &&
       done + DecodeBits(bits[i..], ones, totNums - |done|) == DecodeBits(bits, 0, totNums))
  }

  /** The scan has read all `totNums` numbers. */
  ghost predicate Finished(bits: seq<bool>, done: seq<int>, totNums: int)
  {
    totNums > 0 && |done| == totNums && done == DecodeBits(bits, 0, totNums)
  }

  /** One bit of the scan: a zero bit stores the pending count plus one and resets it,
      a one bit adds to it. */
  method Consume(decompressed: array<int>, zero: bool, ghost bits: seq<bool>, ghost i: nat,
                 ghost done: seq<int>, nextInteger: nat, onesCounter: int, totNums: int)
    returns (nextInteger': nat, onesCounter': int, ghost done': seq<int>)
    requires i < |bits| && zero == !bits[i] && decompressed.Length == totNums
    requires nextInteger == |done| && Reading(bits, i, done, onesCounter, totNums)
    requires decompressed[..] == done + ZeroInts(totNums - nextInteger)
    modifies decompressed
    ensures nextInteger' == |done'| <= totNums
    ensures decompressed[..] == done' + ZeroInts(totNums - nextInteger')
    ensures zero ==> done' == done + [onesCounter + 1] && onesCounter' == 0
    ensures !zero ==> done' == done && onesCounter' == onesCounter + 1
    ensures zero && nextInteger' == totNums ==> Finished(bits, done', totNums)
    ensures !(zero && nextInteger' == totNums) ==> Reading(bits, i + 1, done', onesCounter', totNums)
  {
    BitAdvance(bits, i, done, onesCounter, totNums);
    if zero {
      Emit(decompressed, nextInteger, onesCounter + 1, done);
      done' := done + [onesCounter + 1];
      nextInteger' := nextInteger + 1;
      onesCounter' := 0;
    } else {
      done' := done;
      nextInteger' := nextInteger;
      onesCounter' := onesCounter + 1;
    }
  }

  /** The store of a decoded number into the zero-filled tail of the output. */
  method Emit(decompressed: array<int>, nextInteger: nat, value: int, ghost done: seq<int>)
    requires nextInteger == |done| < decompressed.Length
    requires decompressed[..] == done + ZeroInts(decompressed.Length - nextInteger)
    modifies decompressed
    ensures decompressed[..] == done + [value] + ZeroInts(decompressed.Length - nextInteger - 1)
  {
    StoreNext(done, decompressed.Length - nextInteger, value);
    decompressed[nextInteger] := value;
  }

  lemma StoreNext(done: seq<int>, m: nat, v: int)
    requires m >= 1
    ensures (done + ZeroInts(m))[|done| := v] == done + [v] + ZeroInts(m - 1)
  {
  }

  lemma {:induction false} StreamSnoc(xs: seq<int>, x: int)
    ensures Stream(xs + [x]) == Stream(xs) + Code(x)
  {
    if xs != [] {
      assert (xs + [x])[1..] == xs[1..] + [x];
      StreamSnoc(xs[1..], x);
    } else {
      assert [x][1..] == [];
    }
  }

  lemma StreamStep(xs: seq<int>, i: nat)
    requires i < |xs|
    ensures Stream(xs[..i + 1]) == Stream(xs[..i]) + Code(xs[i])
    ensures Stream(xs[i..]) == Code(xs[i]) + Stream(xs[i + 1..])
  {
    assert xs[..i + 1] == xs[..i] + [xs[i]];
    StreamSnoc(xs[..i], xs[i]);
    assert xs[i..][1..] == xs[i + 1..];
  }

  lemma FromBitsZero(bs: seq<bool>)
    requires forall i :: 0 <= i < |bs| ==> !bs[i]
    ensures FromBits(bs) == 0
  {
    if bs != [] {
      FromBitsZero(bs[..|bs| - 1]);
    }
  }

  lemma PackEmpty(n: nat)
    ensures Pack([], n) == seq(n, _ => 0)
  {
    forall i | 0 <= i < n
      ensures Pack([], n)[i] == 0
    {
      FromBitsZero(Chunk([], i));
    }
  }

  /** An element `<= 0` adds nothing to the stream. */
  lemma SkipStep(xs: seq<int>, i: nat)
    requires i < |xs| && xs[i] <= 0
    ensures Stream(xs[..i + 1]) == Stream(xs[..i])
  {
    StreamStep(xs, i);
    assert Stream(xs[..i]) + [] == Stream(xs[..i]);
  }

  /** One one bit of the compressor's inner loop. */
  lemma OneStep(prefix: seq<bool>, j: nat, written: seq<bool>, n: nat, q: nat, r: nat)
    requires |prefix| + j < 8 * n
    requires written == prefix + Ones(j) && |written| == 8 * q + r && r < 8
    ensures q < n
    ensures written + [true] == prefix + Ones(j + 1)
    ensures Pack(written + [true], n) == Pack(written, n)[q := SetBit(Pack(written, n)[q], r)]
  {
    AppendOne(written, n, q, r);
    assert Ones(j + 1) == Ones(j) + [true];
  }

  /** The closing zero bit of an element `> 0`. */
  lemma ZeroStep(xs: seq<int>, i: nat, written: seq<bool>, n: nat)
    requires i < |xs| && xs[i] > 0
    requires written == Stream(xs[..i]) + Ones(xs[i] - 1)
    ensures written + [false] == Stream(xs[..i + 1])
    ensures Pack(written + [false], n) == Pack(written, n)
  {
    StreamStep(xs, i);
    AppendZero(written, n);
  }

  /** A one bit of an element's code lies inside the compressor's array. */
  lemma OneInRange(xs: seq<int>, i: nat, j: nat)
    requires Compressible(xs)
    requires i < |xs| && j < xs[i] - 1
    ensures |Stream(xs[..i])| + j < 8 * NumBytes(JavaSum(xs))
  {
    var s := Stream(xs);
    assert xs[..i] + xs[i..] == xs;
    StreamConcat(xs[..i], xs[i..]);
    StreamStep(xs, i);
    var p := |Stream(xs[..i])| + j;
    assert s[p] == Ones(xs[i] - 1)[j];
  }

  lemma {:induction false} StreamConcat(a: seq<int>, b: seq<int>)
    ensures Stream(a + b) == Stream(a) + Stream(b)
  {
    if a != [] {
      assert (a + b)[1..] == a[1..] + b;
      StreamConcat(a[1..], b);
    } else {
      assert a + b == b;
    }
  }

  /** Writing a one bit at the end of the stream changes only its byte, by `SetBit`. */
  lemma AppendOne(bits: seq<bool>, n: nat, q: nat, r: nat)
    requires |bits| < 8 * n && |bits| == 8 * q + r && r < 8
    ensures q < n
    ensures Pack(bits + [true], n) == Pack(bits, n)[q := SetBit(Pack(bits, n)[q], r)]
  {
    assert q == |bits| / 8 && r == |bits| % 8;
    var c := Chunk(bits, q);
    assert Chunk(bits + [true], q) == c[r := true];
    assert Pow2(8) == 256;
    ToFromBits(c);
    forall i | 0 <= i < n && i != q
      ensures Chunk(bits + [true], i) == Chunk(bits, i)
    {
    }
  }

  /** A zero bit at the end of the stream leaves the bytes as they are. */
  lemma AppendZero(bits: seq<bool>, n: nat)
    ensures Pack(bits + [false], n) == Pack(bits, n)
  {
    forall i | 0 <= i < n
      ensures Chunk(bits + [false], i) == Chunk(bits, i)
    {
    }
  }

  /** The bytes of `Pack` spell the stream, then zero bits. */
  lemma UnpackPack(bits: seq<bool>, n: nat)
    requires |bits| <= 8 * n
    ensures Unpack(Pack(bits, n)) == bits + seq(8 * n - |bits|, _ => false)
  {
    var packed := Pack(bits, n);
    forall p | 0 <= p < 8 * n
      ensures Unpack(packed)[p] == (p < |bits| && bits[p])
    {
      UnpackPackAt(bits, n, p);
    }
  }

  lemma UnpackPackAt(bits: seq<bool>, n: nat, p: nat)
    requires p < 8 * n
    ensures Unpack(Pack(bits, n))[p] == (p < |bits| && bits[p])
  {
    var packed := Pack(bits, n);
    var i, k := p / 8, p % 8;
    assert 8 * i + k == p && 0 <= k < 8 && i < n;
    var c := Chunk(bits, i);
    assert packed[i] == ByteOfBits(c);
    assert Pow2(8) == 256;
    ToFromBits(c);
    assert BitsOf(packed[i]) == c;
    UnpackAt(packed, i, k);
  }

  lemma {:induction false} DecodeOnes(k: nat, tail: seq<bool>, ones: int, limit: nat)
    requires limit >= 1
    ensures DecodeBits(Ones(k) + tail, ones, limit) == DecodeBits(tail, ones + k, limit)
  {
    if k > 0 {
      assert (Ones(k) + tail)[1..] == Ones(k - 1) + tail;
      DecodeOnes(k - 1, tail, ones + 1, limit);
    } else {
      assert Ones(0) + tail == tail;
    }
  }

  /** Reading back the stream of positive numbers, whatever follows it. */
  lemma {:induction false} DecodeStream(xs: seq<int>, pad: seq<bool>)
    requires |xs| >= 1 && forall i :: 0 <= i < |xs| ==> xs[i] > 0
    ensures DecodeBits(Stream(xs) + pad, 0, |xs|) == xs
  {
    var x := xs[0];
    var tail := Stream(xs[1..]) + pad;
    assert Stream(xs) + pad == Ones(x - 1) + ([false] + tail);
    DecodeOnes(x - 1, [false] + tail, 0, |xs|);
    assert ([false] + tail)[1..] == tail;
    if |xs| > 1 {
      DecodeStream(xs[1..], pad);
    }
    assert [x] + xs[1..] == xs;
  }

  lemma {:induction false} StreamLength(xs: seq<int>)
    requires forall i :: 0 <= i < |xs| ==> xs[i] >= 0
    ensures |Stream(xs)| == Sum(xs)
  {
    if xs != [] {
      StreamLength(xs[1..]);
    }
  }

  function Sum(xs: seq<int>): int
  {
    if xs == [] then 0 else xs[0] + Sum(xs[1..])
  }

  lemma {:induction false} SumSnoc(xs: seq<int>, x: int)
    ensures Sum(xs + [x]) == Sum(xs) + x
  {
    if xs != [] {
      assert (xs + [x])[1..] == xs[1..] + [x];
      SumSnoc(xs[1..], x);
    } else {
      assert [x][1..] == [];
    }
  }

  /** Without overflow the Java sum is the sum. */
  lemma {:induction false} JavaSumExact(xs: seq<int>)
    requires forall i :: 0 <= i < |xs| ==> xs[i] >= 0
    requires Sum(xs) < 0x8000_0000
    ensures JavaSum(xs) == Sum(xs)
  {
    if xs != [] {
      var init, last := xs[..|xs| - 1], xs[|xs| - 1];
      assert init + [last] == xs;
      SumSnoc(init, last);
      SumNonNegative(init);
      JavaSumExact(init);
      var t := JavaSum(init) + last;
      assert 0 <= t < 0x8000_0000;
      assert JavaSum(xs) == Wrap32(t);
    }
  }

  lemma {:induction false} SumNonNegative(xs: seq<int>)
    requires forall i :: 0 <= i < |xs| ==> xs[i] >= 0
    ensures Sum(xs) >= 0
  {
    if xs != [] {
      SumNonNegative(xs[1..]);
    }
  }

  /** Round trip: positive frequencies whose sum fits in an `int` are compressible, and
      decompressing their compression with their count gives them back. */
  lemma CompressDecompress(xs: seq<int>)
    requires forall i :: 0 <= i < |xs| ==> xs[i] > 0
    requires Sum(xs) < 0x8000_0000
    ensures Compressible(xs)
    ensures Decompressed(Pack(Stream(xs), NumBytes(JavaSum(xs))), |xs|) == xs
  {
    JavaSumExact(xs);
    StreamLength(xs);
    SumNonNegative(xs);
    var s := Stream(xs);
    var n := NumBytes(JavaSum(xs));
    NumBytesCovers(JavaSum(xs));
    assert |s| <= 8 * n;
    var pad := seq(8 * n - |s|, _ => false);
    UnpackPack(s, n);
    assert Unpack(Pack(s, n)) == s + pad;
    if xs != [] {
      DecodeStream(xs, pad);
    }
  }

  /** The byte count for `nBits` bits covers them. */
  lemma NumBytesCovers(nBits: int)
    requires nBits >= 0
    ensures 0 <= 8 * NumBytes(nBits) && nBits <= 8 * NumBytes(nBits)
  {
  }
}
