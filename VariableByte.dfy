/**
 * Variable-byte compression of docids: each integer becomes a run of 7-bit
 * digits, most significant first, and the last byte of a run carries the high
 * bit as a terminator.
 *
 * Bytes are held unsigned (0..255); Java's signed `byte` arithmetic is the same
 * modulo 256. The encoder's `Math.ceil(log(n) / log(128)) + 1` is modelled with
 * exact arithmetic as one plus the least `e` with `128^e >= n`.
 */
module VariableByte {
  import opened Bytes

  function Pow128(e: nat): (r: nat)
    ensures r >= 1
  {
    if e == 0 then 1 else 128 * Pow128(e - 1)
  }

  /** The least `e` with `128^e >= n`: `ceil(log n / log 128)` for `n >= 1`. */
  function CeilLog128(n: nat): (e: nat)
    ensures n <= Pow128(e)
    ensures e > 0 ==> Pow128(e - 1) < n
  {
    if n <= 1 then 0
    else
      var m := (n + 127) / 128;
      var e1 := CeilLog128(m);
      assert n <= 128 * m;
      assert e1 > 0 ==> 128 * Pow128(e1 - 1) <= 128 * (m - 1) < n;
      1 + e1
  }

  /** Bytes `integerCompression` allocates: `(int) NaN` is 0 for negative input. */
  function NumBytes(n: int): (r: nat)
    ensures r >= 1
  {
    if n > 0 then CeilLog128(n) + 1 else 1
  }

  /** The low `w` base-128 digits of `x`, most significant first. */
  function Digits(x: nat, w: nat): (r: seq<byte>)
    ensures |r| == w
    ensures forall i :: 0 <= i < w ==> r[i] < 128
  {
    if w == 0 then [] else Digits(x / 128, w - 1) + [x % 128]
  }

  /** The codeword of one integer. Zero is the single non-terminating byte 0; a
      negative value gets one byte holding its Java remainder by 128 plus 128. */
  function EncodeInt(n: int): (r: seq<byte>)
    ensures |r| == if n == 0 then 1 else NumBytes(n)
  {
    if n == 0 then [0]
    else if n < 0 then [JavaRem(n, 128) + 128]
    else
      var d := Digits(n, NumBytes(n));
      d[|d| - 1 := d[|d| - 1] + 128]
  }

  /** Bytes below 128 continue a number; the final byte is a terminator. */
  predicate IsCodeword(bs: seq<byte>)
  {
    |bs| >= 1 && bs[|bs| - 1] >= 128 && forall i :: 0 <= i < |bs| - 1 ==> bs[i] < 128
  }

  /** A positive number is written as continuation bytes closed by one terminator. */
  lemma EncodeIntIsCodeword(n: int)
    requires n > 0
    ensures IsCodeword(EncodeInt(n))
  {
  }

  /** The codewords of `xs`, concatenated. */
  function EncodeAll(xs: seq<int>): (r: seq<byte>)
  {
    if xs == [] then [] else EncodeInt(xs[0]) + EncodeAll(xs[1..])
  }

  /** Number of terminating bytes. */
  function Terminators(bs: seq<byte>): nat
  {
    if bs == [] then 0 else (if bs[0] >= 128 then 1 else 0) + Terminators(bs[1..])
  }

  /** The numbers completed while scanning `bs` with `acc` accumulated so far; the
      accumulator is a Java `int` and wraps around. */
  function DecodeFrom(bs: seq<byte>, acc: int): (r: seq<int>)
    ensures |r| == Terminators(bs)
  {
    if bs == [] then []
    else if bs[0] < 128 then DecodeFrom(bs[1..], Wrap32(128 * acc + bs[0]))
    else [Wrap32(128 * acc + (bs[0] - 128))] + DecodeFrom(bs[1..], 0)
  }

  /** What `integerArrayDecompression` returns: the decoded numbers, then zeros up to `totNums`. */
  function Decompressed(bs: seq<byte>, totNums: nat): (r: seq<int>)
    requires Terminators(bs) <= totNums
    ensures |r| == totNums
  {
    DecodeFrom(bs, 0) + ZeroInts(totNums - Terminators(bs))
  }

  function ZeroInts(n: nat): (r: seq<int>)
    ensures |r| == n && forall i :: 0 <= i < n ==> r[i] == 0
  {
    seq(n, _ => 0)
  }

  /** The accumulator after a run of continuation bytes. */
  function Horner(acc: int, ds: seq<byte>): int
    decreases |ds|
  {
    if ds == [] then acc else Horner(Wrap32(128 * acc + ds[0]), ds[1..])
  }

  // ---------------------------------------------------------------------------
  // Methods

  /** `(byte) (x % 128)` read back as an unsigned byte. */
  function LowDigit(x: int): (r: byte)
    ensures x >= 0 ==> r == x % 128
    ensures x < 0 ==> r == (JavaRem(x, 128) + 256) % 256
  {
    var q := JavaRem(x, 128);
    if q >= 0 then q else q + 256
  }

  /** `b += 128` on a Java `byte`, read back unsigned. */
  function AddHigh(b: byte): (r: byte)
    ensures b < 128 ==> r == b + 128
  {
    if b < 128 then b + 128 else b - 128
  }

  /** The digits `integerCompression` writes before marking the last byte. */
  function RawDigits(n: int): (r: seq<byte>)
    requires n != 0
    ensures |r| == NumBytes(n)
  {
    if n > 0 then Digits(n, NumBytes(n)) else [LowDigit(n)]
  }

  lemma EncodeIntFromRaw(n: int)
    requires n != 0
    ensures var d := RawDigits(n);
            EncodeInt(n) == d[|d| - 1 := AddHigh(d[|d| - 1])]
  {
  }

  lemma DigitStep(x: nat, i: nat, d: seq<byte>)
    requires i < |d| && Digits(x, i + 1) == d[..i + 1]
    ensures Digits(x / 128, i) == d[..i] && x % 128 == d[i]
  {
    assert d[..i + 1] == d[..i] + [d[i]];
  }

  /** `integerCompression`. */
  method IntegerCompression(n: int) returns (output: array<byte>)
    ensures output[..] == EncodeInt(n)
  {
    if n == 0 {
      output := new byte[1](_ => 0);
      return;
    }
    var numBytes := NumBytes(n);
    output := new byte[numBytes](_ => 0);
    ghost var d := RawDigits(n);
    var x := n;
    var i: int := numBytes - 1;
    while i >= 0
      invariant -1 <= i < numBytes
      invariant forall k :: i < k < numBytes ==> output[k] == d[k]
      invariant n > 0 ==> x >= 0 && Digits(x, i + 1) == d[..i + 1]
      invariant n < 0 ==> numBytes == 1 && (i == 0 ==> x == n)
      decreases i
    {
      output[i] := LowDigit(x);
      if n > 0 {
        DigitStep(x, i, d);
      }
      x := JavaDiv(x, 128);
      i := i - 1;
    }
    assert output[..] == d;
    output[numBytes - 1] := AddHigh(output[numBytes - 1]);
    EncodeIntFromRaw(n);
  }

  /** `integerArrayCompression`: the codewords of all elements, in order. */
  method IntegerArrayCompression(toBeCompressed: array<int>) returns (output: array<byte>)
    ensures output[..] == EncodeAll(toBeCompressed[..])
  {
    var compressed: seq<byte> := [];
    for i := 0 to toBeCompressed.Length
      invariant compressed == EncodeAll(toBeCompressed[..i])
    {
      var code := IntegerCompression(toBeCompressed[i]);
      for j := 0 to code.Length
        invariant compressed == EncodeAll(toBeCompressed[..i]) + code[..j]
      {
        compressed := compressed + [code[j]];
        assert code[..j + 1] == code[..j] + [code[j]];
      }
      assert toBeCompressed[..i + 1] == toBeCompressed[..i] + [toBeCompressed[i]];
      EncodeAllSnoc(toBeCompressed[..i], toBeCompressed[i]);
    }
    assert toBeCompressed[..toBeCompressed.Length] == toBeCompressed[..];
    output := new byte[|compressed|](_ => 0);
    for i := 0 to |compressed|
      invariant output[..i] == compressed[..i]
    {
      output[i] := compressed[i];
    }
    assert output[..] == output[..|compressed|];
  }

  /** `integerArrayDecompression`: a terminator beyond `totNums` numbers would index
      past the end of the output array, so the caller must not supply one. */
  method IntegerArrayDecompression(toBeDecompressed: array<byte>, totNums: int)
    returns (decompressed: array<int>)
    requires 0 <= totNums && Terminators(toBeDecompressed[..]) <= totNums
    ensures decompressed[..] == Decompressed(toBeDecompressed[..], totNums)
  {
    decompressed := new int[totNums](_ => 0);
    var number := 0;
    var already := 0;
    ghost var all := toBeDecompressed[..];
    ghost var done: seq<int> := [];
    assert decompressed[..] == done + ZeroInts(totNums);
    for j := 0 to toBeDecompressed.Length
      invariant already == |done| <= totNums
      invariant done + DecodeFrom(all[j..], number) == DecodeFrom(all, 0)
      invariant decompressed[..] == done + ZeroInts(totNums - already)
    {
      var elem := toBeDecompressed[j];
      DecodeAdvance(all, j, done, number);
      if elem < 128 {
        number := Wrap32(128 * number + elem);
      } else {
        number := Wrap32(128 * number + (elem - 128));
        Emit(decompressed, already, number, done);
        done := done + [number];
        already := already + 1;
        number := 0;
      }
    }
    assert all[toBeDecompressed.Length..] == [];
  }

  /** The store of a decoded number into the zero-filled tail of the output. */
  method Emit(decompressed: array<int>, already: nat, number: int, ghost done: seq<int>)
    requires already == |done| < decompressed.Length
    requires decompressed[..] == done + ZeroInts(decompressed.Length - already)
    modifies decompressed
    ensures decompressed[..] == done + [number] + ZeroInts(decompressed.Length - already - 1)
  {
    DefineNext(done, decompressed.Length - already, number);
    decompressed[already] := number;
  }

  // ---------------------------------------------------------------------------
  // Lemmas

  lemma DecodeStep(bs: seq<byte>, acc: int)
    requires bs != []
    ensures bs[0] < 128 ==> DecodeFrom(bs, acc) == DecodeFrom(bs[1..], Wrap32(128 * acc + bs[0]))
    ensures bs[0] >= 128 ==>
      DecodeFrom(bs, acc) == [Wrap32(128 * acc + (bs[0] - 128))] + DecodeFrom(bs[1..], 0)
  {
  }

  /** Storing the next number into the zero-filled tail of the output array. */
  lemma DefineNext(done: seq<int>, m: nat, v: int)
    requires m >= 1
    ensures (done + ZeroInts(m))[|done| := v] == done + [v] + ZeroInts(m - 1)
  {
  }

  /** One byte of `integerArrayDecompression`'s scan. */
  lemma DecodeAdvance(all: seq<byte>, j: nat, done: seq<int>, acc: int)
    requires j < |all| && done + DecodeFrom(all[j..], acc) == DecodeFrom(all, 0)
    ensures all[j] < 128 ==>
      done + DecodeFrom(all[j + 1..], Wrap32(128 * acc + all[j])) == DecodeFrom(all, 0)
    ensures all[j] >= 128 ==> |done| < Terminators(all)
    ensures all[j] >= 128 ==>
      (done + [Wrap32(128 * acc + (all[j] - 128))]) + DecodeFrom(all[j + 1..], 0) == DecodeFrom(all, 0)
  {
    DecodeStep(all[j..], acc);
    assert all[j..][0] == all[j] && all[j..][1..] == all[j + 1..];
  }

  lemma {:induction false} HornerSnoc(acc: int, ds: seq<byte>, d: byte)
    ensures Horner(acc, ds + [d]) == Wrap32(128 * Horner(acc, ds) + d)
    decreases |ds|
  {
    if ds != [] {
      assert (ds + [d])[1..] == ds[1..] + [d];
      HornerSnoc(Wrap32(128 * acc + ds[0]), ds[1..], d);
    }
  }

  /** Accumulating the digits of a number that fits recovers it. */
  lemma {:induction false} HornerDigits(x: nat, w: nat)
    requires x < Pow128(w) && x < 0x8000_0000
    ensures Horner(0, Digits(x, w)) == x
  {
    if w > 0 {
      assert x / 128 < Pow128(w - 1);
      HornerDigits(x / 128, w - 1);
      HornerSnoc(0, Digits(x / 128, w - 1), x % 128);
    }
  }

  lemma {:induction false} DecodeContinuation(ds: seq<byte>, rest: seq<byte>, acc: int)
    requires forall i :: 0 <= i < |ds| ==> ds[i] < 128
    ensures DecodeFrom(ds + rest, acc) == DecodeFrom(rest, Horner(acc, ds))
    decreases |ds|
  {
    if ds != [] {
      var bs := ds + rest;
      var next := Wrap32(128 * acc + ds[0]);
      assert bs[0] == ds[0] && bs[1..] == ds[1..] + rest;
      assert DecodeFrom(bs, acc) == DecodeFrom(bs[1..], next);
      assert Horner(acc, ds) == Horner(next, ds[1..]);
      DecodeContinuation(ds[1..], rest, next);
    } else {
      assert ds + rest == rest;
    }
  }

  /** A codeword of a positive `int` decodes to that number. */
  lemma DecodeEncodeInt(n: int, rest: seq<byte>)
    requires 0 < n < 0x8000_0000
    ensures DecodeFrom(EncodeInt(n) + rest, 0) == [n] + DecodeFrom(rest, 0)
  {
    var d := Digits(n, NumBytes(n));
    var pre := d[..|d| - 1];
    assert EncodeInt(n) == pre + [d[|d| - 1] + 128];
    DecodeCodeword(pre, d[|d| - 1], rest);
    CodewordValue(n);
  }

  /** Continuation bytes then a terminator: one number, then a fresh start. */
  lemma DecodeCodeword(pre: seq<byte>, last: byte, rest: seq<byte>)
    requires forall i :: 0 <= i < |pre| ==> pre[i] < 128
    requires last < 128
    ensures DecodeFrom(pre + [last + 128] + rest, 0)
            == [Wrap32(128 * Horner(0, pre) + last)] + DecodeFrom(rest, 0)
  {
    var t := [last + 128] + rest;
    assert pre + [last + 128] + rest == pre + t;
    DecodeContinuation(pre, t, 0);
    DecodeStep(t, Horner(0, pre));
    assert t[1..] == rest;
  }

  lemma CodewordValue(n: int)
    requires 0 < n < 0x8000_0000
    ensures var w := NumBytes(n);
            var d := Digits(n, w);
            Wrap32(128 * Horner(0, d[..w - 1]) + d[w - 1]) == n
  {
    var w := NumBytes(n);
    var d := Digits(n, w);
    assert d[..w - 1] + [d[w - 1]] == d;
    HornerSnoc(0, d[..w - 1], d[w - 1]);
    assert Pow128(w) == 128 * Pow128(w - 1);
    HornerDigits(n, w);
  }

  lemma {:induction false} EncodeAllSnoc(xs: seq<int>, x: int)
    ensures EncodeAll(xs + [x]) == EncodeAll(xs) + EncodeInt(x)
  {
    if xs != [] {
      assert (xs + [x])[1..] == xs[1..] + [x];
      EncodeAllSnoc(xs[1..], x);
    } else {
      assert [x][1..] == [];
    }
  }

  /** Round trip: decoding the compression of positive `int`s gives them back. */
  lemma {:induction false} DecodeEncodeAll(xs: seq<int>)
    requires forall i :: 0 <= i < |xs| ==> 0 < xs[i] < 0x8000_0000
    ensures DecodeFrom(EncodeAll(xs), 0) == xs
  {
    if xs != [] {
      DecodeEncodeAll(xs[1..]);
      DecodeEncodeInt(xs[0], EncodeAll(xs[1..]));
      assert [xs[0]] + xs[1..] == xs;
    }
  }

  /** Positive `int`s have exactly one terminator each, so `integerArrayDecompression`
      called with their count returns them unchanged. */
  lemma DecompressCompressed(xs: seq<int>)
    requires forall i :: 0 <= i < |xs| ==> 0 < xs[i] < 0x8000_0000
    ensures Terminators(EncodeAll(xs)) == |xs|
    ensures Decompressed(EncodeAll(xs), |xs|) == xs
  {
    DecodeEncodeAll(xs);
  }

  /** A zero writes the non-terminating byte 0, which merges into the next codeword. */
  lemma ZeroMergesWithNext()
    ensures EncodeAll([0, 5]) == [0, 0, 133]
    ensures DecodeFrom(EncodeAll([0, 5]), 0) == [5]
  {
    assert [0, 5][1..] == [5];
    assert [5][1..] == [];
    assert EncodeInt(5) == [0, 133] by {
      assert CeilLog128(1) == 0;
      assert NumBytes(5) == 2;
      assert Digits(5, 2) == [0, 5];
    }
    var bs: seq<byte> := [0, 0, 133];
    assert EncodeAll([0, 5]) == bs;
    assert bs[1..] == [0, 133] && bs[1..][1..] == [133] && bs[1..][1..][1..] == [];
    assert DecodeFrom(bs, 0) == DecodeFrom([0, 133], 0) == DecodeFrom([133], 0);
  }

  /** Numbers that are not a power of 128 get one leading zero digit. */
  lemma {:induction false} LeadingZeroDigit(n: int)
    requires 1 < n < 0x8000_0000
    requires forall e: nat {:trigger Pow128(e)} :: Pow128(e) != n
    ensures EncodeInt(n)[0] == 0
  {
    var c := CeilLog128(n);
    var w := c + 1;
    assert Pow128(c) != n;
    assert c > 0;
    var d := Digits(n, w);
    assert EncodeInt(n)[0] == d[0];
    assert n < Pow128(w - 1);
    DigitsLeadingZero(n, w);
  }

  lemma {:induction false} DigitsLeadingZero(x: nat, w: nat)
    requires w >= 1 && x < Pow128(w - 1)
    ensures Digits(x, w)[0] == 0
  {
    if w > 1 {
      assert x / 128 < Pow128(w - 2);
      DigitsLeadingZero(x / 128, w - 1);
    }
  }
}
