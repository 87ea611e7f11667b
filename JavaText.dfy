/**
 * The pieces of `java.lang.String` and `java.nio.charset` behaviour the index
 * relies on: `split` on a one-character delimiter, `isBlank`, `Integer.parseInt`,
 * `Integer.toString`, joining with a separator, and the fixed-width NUL-padded
 * ASCII fields of the on-disk records.
 */
module JavaText {
  import opened Bytes
  import opened Wrappers


  const NUL: char := 0 as char
  const TAB: char := '\t'

  // ---------------------------------------------------------------------------
  // split

  /** Every substring between occurrences of `d`, including empty ones. */
  function Segments(s: string, d: char): (r: seq<string>)
    ensures |r| >= 1
    ensures forall k :: 0 <= k < |r| ==> d !in r[k]
    ensures d !in s ==> r == [s]
  {
    if s == [] then [""]
    else if s[0] == d then [""] + Segments(s[1..], d)
    else
      assert s == [s[0]] + s[1..];
      var rest := Segments(s[1..], d);
      [[s[0]] + rest[0]] + rest[1..]
  }

  function DropTrailingEmpty(ss: seq<string>): (r: seq<string>)
    ensures |r| <= |ss| && r == ss[..|r|]
    ensures r != [] ==> r[|r| - 1] != ""
    ensures forall k :: |r| <= k < |ss| ==> ss[k] == ""
  {
    if ss == [] then []
    else if ss[|ss| - 1] == "" then DropTrailingEmpty(ss[..|ss| - 1])
    else ss
  }

  /** `s.split(d)` with Java's default limit: no match gives `[s]`; otherwise
      trailing empty strings are removed. */
  function Split(s: string, d: char): seq<string>
  {
    if d !in s then [s] else DropTrailingEmpty(Segments(s, d))
  }

  /** The part of `s` before the first `d` (all of `s` if there is none). */
  function Before(s: string, d: char): (r: string)
    ensures d !in r
  {
    Segments(s, d)[0]
  }

  lemma {:induction false} BeforeIsPrefix(s: string, d: char)
    ensures |Before(s, d)| <= |s| && Before(s, d) == s[..|Before(s, d)|]
    ensures |Before(s, d)| < |s| ==> s[|Before(s, d)|] == d
  {
    if s == [] || s[0] == d {
      assert Before(s, d) == "";
    } else {
      var b := Before(s[1..], d);
      BeforeIsPrefix(s[1..], d);
      assert Before(s, d) == [s[0]] + b;
      ConsPrefix(s, |b|);
    }
  }

  lemma ConsPrefix(s: string, n: nat)
    requires n < |s|
    ensures [s[0]] + s[1..][..n] == s[..n + 1]
  {
    assert s[1..][..n] == s[1..n + 1];
  }

  lemma {:induction false} SegmentsOfConcat(a: string, d: char, b: string)
    requires d !in a
    ensures Segments(a + [d] + b, d) == [a] + Segments(b, d)
  {
    if a == [] {
      assert a + [d] + b == [d] + b;
      assert ([d] + b)[1..] == b;
    } else {
      assert (a + [d] + b)[1..] == a[1..] + [d] + b;
      SegmentsOfConcat(a[1..], d, b);
      assert [a[0]] + a[1..] == a;
    }
  }

  /** Split yields nothing exactly when the string is non-empty and made only of delimiters. */
  lemma {:induction false} SplitEmptyIff(s: string, d: char)
    ensures Split(s, d) == [] <==> (|s| > 0 && forall i :: 0 <= i < |s| ==> s[i] == d)
  {
    if d in s {
      AllSegmentsEmptyIff(s, d);
      var segs := Segments(s, d);
      var r := DropTrailingEmpty(segs);
      if r == [] {
        assert forall k :: 0 <= k < |segs| ==> segs[k] == "";
      } else {
        assert r[|r| - 1] != "" && r[|r| - 1] == segs[|r| - 1];
      }
    } else if |s| > 0 {
      assert s[0] in s;
    }
  }

  lemma {:induction false} AllSegmentsEmptyIff(s: string, d: char)
    ensures (forall k :: 0 <= k < |Segments(s, d)| ==> Segments(s, d)[k] == "")
            <==> (forall i :: 0 <= i < |s| ==> s[i] == d)
  {
    if s != [] {
      AllSegmentsEmptyIff(s[1..], d);
      var rest := Segments(s[1..], d);
      var segs := Segments(s, d);
      if s[0] == d {
        assert segs == [""] + rest;
        assert forall i :: 1 <= i < |s| ==> s[i] == s[1..][i - 1];
        assert forall k :: 0 <= k < |rest| ==> rest[k] == segs[k + 1];
        assert forall k :: 1 <= k < |segs| ==> segs[k] == rest[k - 1];
      } else {
        assert Segments(s, d)[0] == [s[0]] + rest[0];
      }
    }
  }

  /** When Split yields something, its first element is the text before the first delimiter. */
  lemma SplitFirst(s: string, d: char)
    requires Split(s, d) != []
    ensures Split(s, d)[0] == Before(s, d)
  {
  }

  /** A first segment that is not empty always survives the removal of trailing empties. */
  lemma SplitKeepsFirst(s: string, d: char)
    requires Before(s, d) != ""
    ensures Split(s, d) != [] && Split(s, d)[0] == Before(s, d)
  {
    if d in s {
      var segs := Segments(s, d);
      assert segs[0] != "";
    }
  }

  // ---------------------------------------------------------------------------
  // join

  /** `parts` separated by `sep`, with no separator after the last one. */
  function Join(sep: string, parts: seq<string>): string
  {
    if |parts| == 0 then ""
    else if |parts| == 1 then parts[0]
    else parts[0] + sep + Join(sep, parts[1..])
  }

  /** Joining one more part appends the separator and the part. */
  lemma {:induction false} JoinSnoc(sep: string, parts: seq<string>, x: string)
    ensures Join(sep, parts + [x]) == if parts == [] then x else Join(sep, parts) + sep + x
    decreases |parts|
  {
    if |parts| >= 2 {
      assert (parts + [x])[1..] == parts[1..] + [x];
      JoinSnoc(sep, parts[1..], x);
    } else if |parts| == 1 {
      assert parts + [x] == [parts[0], x];
      assert [parts[0], x][1..] == [x];
    }
  }

  /** What a `StringBuilder` holds after appending the first `k` parts, each followed
      by `sep` unless it is the last. */
  function Partial(sep: string, parts: seq<string>, k: nat): string
    requires k <= |parts|
  {
    if k == 0 then "" else Partial(sep, parts, k - 1) + parts[k - 1] + (if k < |parts| then sep else "")
  }

  /** The partial join is the join of the parts appended so far, followed by the
      separator when more parts are to come. */
  lemma {:induction false} PartialJoin(sep: string, parts: seq<string>, k: nat)
    requires k <= |parts|
    ensures Partial(sep, parts, k) == Join(sep, parts[..k]) + (if 0 < k < |parts| then sep else "")
  {
    if k > 0 {
      PartialJoin(sep, parts, k - 1);
      assert parts[..k] == parts[..k - 1] + [parts[k - 1]];
      JoinSnoc(sep, parts[..k - 1], parts[k - 1]);
    }
  }

  /** After every part the partial join is the join. */
  lemma PartialJoined(sep: string, parts: seq<string>)
    ensures Partial(sep, parts, |parts|) == Join(sep, parts)
  {
    PartialJoin(sep, parts, |parts|);
    assert parts[..|parts|] == parts;
  }

  /** Appending the next part and, unless it was the last, the separator to a buffer
      that holds `d` and the partial join of the parts before. */
  lemma AppendPartial(d: string, acc: string, sep: string, parts: seq<string>, k: nat, x: string, y: string)
    requires k < |parts| && acc == d + Partial(sep, parts, k)
    requires x == parts[k] && y == (if k + 1 < |parts| then sep else "")
    ensures acc + x + y == d + Partial(sep, parts, k + 1)
  {
  }



  /** Splitting a joined string at every separator recovers the parts. */
  lemma {:induction false} SegmentsOfJoin(d: char, parts: seq<string>)
    requires |parts| >= 1
    requires forall k :: 0 <= k < |parts| ==> d !in parts[k]
    ensures Segments(Join([d], parts), d) == parts
  {
    if |parts| > 1 {
      SegmentsOfJoin(d, parts[1..]);
      SegmentsOfConcat(parts[0], d, Join([d], parts[1..]));
      assert [parts[0]] + parts[1..] == parts;
    }
  }

  lemma {:induction false} JoinHasNo(d: char, sep: string, parts: seq<string>)
    requires d !in sep
    requires forall k :: 0 <= k < |parts| ==> d !in parts[k]
    ensures d !in Join(sep, parts)
  {
    if |parts| > 1 {
      JoinHasNo(d, sep, parts[1..]);
    }
  }

  /** With no empty last part, Java's split on the separator recovers the parts. */
  lemma SplitOfJoin(d: char, parts: seq<string>)
    requires |parts| >= 1 && parts[|parts| - 1] != ""
    requires forall k :: 0 <= k < |parts| ==> d !in parts[k]
    ensures Split(Join([d], parts), d) == parts
  {
    SegmentsOfJoin(d, parts);
  }

  // ---------------------------------------------------------------------------
  // isBlank

  /** `Character.isWhitespace`. */
  predicate IsWhitespace(c: char)
  {
    c == ' ' || c == '\t' || c == '\n' || c == 11 as char || c == 12 as char || c == '\r'
    || (0x1C <= c as int <= 0x1F)
    || c as int == 0x1680 || (0x2000 <= c as int <= 0x200A && c as int != 0x2007)
    || c as int == 0x2028 || c as int == 0x2029 || c as int == 0x205F || c as int == 0x3000
  }

  /** `String.isBlank`: empty or whitespace only. */
  predicate IsBlank(s: string)
  {
    forall i :: 0 <= i < |s| ==> IsWhitespace(s[i])
  }

  // ---------------------------------------------------------------------------
  // decimal integers

  predicate IsDigit(c: char) { '0' as int <= c as int <= '9' as int }

  function DigitChar(d: nat): (c: char)
    requires d < 10
    ensures IsDigit(c) && c as int - '0' as int == d
  {
    ('0' as int + d) as char
  }

  /** The decimal digits of `n`, without leading zeros. */
  function NatToString(n: nat): (r: string)
    ensures |r| >= 1 && forall i :: 0 <= i < |r| ==> IsDigit(r[i])
  {
    if n < 10 then [DigitChar(n)] else NatToString(n / 10) + [DigitChar(n % 10)]
  }

  /** `Integer.toString`. */
  function IntToString(x: int): (r: string)
    ensures |r| >= 1
    ensures x < 0 <==> r[0] == '-'
  {
    if x < 0 then "-" + NatToString(-x) else NatToString(x)
  }

  /** `Integer.toString` writes only digits and a leading minus sign. */
  lemma IntToStringChars(x: int)
    ensures forall i :: 0 <= i < |IntToString(x)| ==> IsDigit(IntToString(x)[i]) || IntToString(x)[i] == '-'
  {
  }

  function DigitsValue(s: string): nat
    requires forall i :: 0 <= i < |s| ==> IsDigit(s[i])
  {
    if s == [] then 0
    else
      assert IsDigit(s[|s| - 1]);
      10 * DigitsValue(s[..|s| - 1]) + (s[|s| - 1] as int - '0' as int)
  }

  predicate AllDigits(s: string) { |s| >= 1 && forall i :: 0 <= i < |s| ==> IsDigit(s[i]) }

  /** `Integer.parseInt` on ASCII input: an optional sign, at least one digit and a value
      that fits in 32 bits; anything else raises `NumberFormatException` (`None`). */
  function ParseInt(s: string): (r: Option<int>)
    ensures r.Some? ==> IsInt32(r.value)
  {
    if |s| >= 1 && (s[0] == '-' || s[0] == '+') then
      if AllDigits(s[1..]) then
        var v: int := if s[0] == '-' then -(DigitsValue(s[1..]) as int) else DigitsValue(s[1..]);
        if IsInt32(v) then Some(v) else None
      else None
    else if AllDigits(s) && IsInt32(DigitsValue(s)) then Some(DigitsValue(s))
    else None
  }

  lemma {:induction false} DigitsOfNat(n: nat)
    ensures DigitsValue(NatToString(n)) == n
  {
    if n >= 10 {
      var s := NatToString(n);
      assert s[..|s| - 1] == NatToString(n / 10);
      DigitsOfNat(n / 10);
    }
  }

  /** `Integer.parseInt` undoes `Integer.toString`. */
  lemma ParseIntToString(x: int)
    requires IsInt32(x)
    ensures ParseInt(IntToString(x)) == Some(x)
  {
    var s := IntToString(x);
    if x < 0 {
      DigitsOfNat(-x);
      assert s[1..] == NatToString(-x);
    } else {
      DigitsOfNat(x);
    }
  }

  // ---------------------------------------------------------------------------
  // String.compareTo

  /** `a.compareTo(b)`: the difference of the first differing characters, or of the
      lengths when one string is a prefix of the other. */
  function CompareTo(a: string, b: string): int
    decreases |a|
  {
    if a == [] || b == [] then |a| - |b|
    else if a[0] != b[0] then a[0] as int - b[0] as int
    else CompareTo(a[1..], b[1..])
  }

  /** `compareTo` is zero exactly for equal strings. */
  lemma {:induction false} CompareToZero(a: string, b: string)
    ensures CompareTo(a, b) == 0 <==> a == b
    decreases |a|
  {
    if a != [] && b != [] && a[0] == b[0] {
      CompareToZero(a[1..], b[1..]);
      assert a == [a[0]] + a[1..] && b == [b[0]] + b[1..];
    }
  }

  /** `compareTo` is antisymmetric in sign. */
  lemma {:induction false} CompareToAntisymmetric(a: string, b: string)
    ensures CompareTo(a, b) > 0 <==> CompareTo(b, a) < 0
    decreases |a|
  {
    if a != [] && b != [] && a[0] == b[0] {
      CompareToAntisymmetric(a[1..], b[1..]);
    }
  }

  /** ... and transitive, so it orders strings strictly and totally. */
  lemma {:induction false} CompareToTransitive(a: string, b: string, c: string)
    requires CompareTo(a, b) < 0 && CompareTo(b, c) < 0
    ensures CompareTo(a, c) < 0
    decreases |a|
  {
    if a != [] && b != [] && c != [] && a[0] == b[0] && b[0] == c[0] {
      CompareToTransitive(a[1..], b[1..], c[1..]);
    }
  }

  // ---------------------------------------------------------------------------
  // fixed-width ASCII fields

  predicate IsAscii(s: string) { forall i :: 0 <= i < |s| ==> s[i] as int < 128 }

  /** UTF-8 bytes of an ASCII string: one byte per character (section 3 of RFC 3629). */
  function AsciiBytes(s: string): (r: seq<byte>)
    requires IsAscii(s)
    ensures |r| == |s| && forall i :: 0 <= i < |s| ==> r[i] == s[i] as int
  {
    seq(|s|, i requires 0 <= i < |s| => s[i] as int)
  }

  /** A `CharBuffer` of `width` characters holding `s` then NULs, encoded as UTF-8. */
  function PaddedField(s: string, width: nat): (r: seq<byte>)
    requires IsAscii(s) && |s| <= width
    ensures |r| == width
    ensures forall i :: 0 <= i < width ==> r[i] == if i < |s| then s[i] as int else 0
  {
    AsciiBytes(s) + Zeros(width - |s|)
  }

  /** UTF-8 decoding as the records use it: ASCII bytes are characters, any other byte
      is replaced by U+FFFD. Java's decoder turns a valid multi-byte sequence into one
      character; here non-ASCII bytes are decoded one by one. Every record the model
      writes is ASCII, so this differs only on bytes the model never writes. */
  function DecodeChars(bs: seq<byte>): (r: string)
    ensures |r| == |bs|
    ensures forall i :: 0 <= i < |bs| ==> (r[i] == NUL <==> bs[i] == 0)
  {
    seq(|bs|, i requires 0 <= i < |bs| => if bs[i] < 128 then bs[i] as char else 0xFFFD as char)
  }

  lemma DecodeAscii(s: string)
    requires IsAscii(s)
    ensures DecodeChars(AsciiBytes(s)) == s
  {
  }

  /** The string a record field yields: `decode(bytes).split("\0")`; `None` stands for the
      empty array that `split` returns for an all-NUL buffer, otherwise its first element. */
  function ReadPaddedString(bs: seq<byte>): (r: Option<string>)
    ensures r.None? <==> |bs| > 0 && bs == Zeros(|bs|)
  {
    var parts := Split(DecodeChars(bs), NUL);
    SplitEmptyIff(DecodeChars(bs), NUL);
    assert (forall i :: 0 <= i < |bs| ==> bs[i] == 0) <==> bs == Zeros(|bs|);
    if parts == [] then None else Some(parts[0])
  }

  /** A non-empty ASCII string without NULs that fills its field exactly reads back
      unchanged: there is no NUL to split at. */
  lemma ReadPaddedStringOfFullField(s: string)
    requires IsAscii(s) && NUL !in s && s != ""
    ensures ReadPaddedString(PaddedField(s, |s|)) == Some(s)
  {
    var bs := PaddedField(s, |s|);
    assert bs == AsciiBytes(s);
    DecodeAscii(s);
  }

  /** A non-empty ASCII string without NULs, padded to a wider field and followed by
      anything, reads back unchanged. */
  lemma ReadPaddedStringOfField(s: string, width: nat, rest: seq<byte>)
    requires IsAscii(s) && |s| < width && NUL !in s && s != ""
    ensures ReadPaddedString(PaddedField(s, width) + rest) == Some(s)
  {
    var bs := PaddedField(s, width) + rest;
    var chars := DecodeChars(bs);
    assert chars == s + [NUL] + chars[|s| + 1..];
    SegmentsOfConcat(s, NUL, chars[|s| + 1..]);
    SplitKeepsFirst(chars, NUL);
  }
}
