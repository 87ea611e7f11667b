/**
 * The text form of a posting list that both `PostingList(String)` constructors parse:
 * the term, then optionally a tab and space-separated `docid:frequency` pairs.
 */
module PostingText {
  import opened Bytes
  import opened JavaText
  import opened Postings

  /** One `docid:frequency` element: `split(":")` must give at least two parts, and both
      of the first two must be accepted by `Integer.parseInt`. */
  predicate ParsablePosting(elem: string)
  {
    var parts := Split(elem, ':');
    |parts| >= 2 && ParseInt(parts[0]).Some? && ParseInt(parts[1]).Some?
  }

  function ParsePosting(elem: string): (p: Posting)
    requires ParsablePosting(elem)
    ensures IsInt32(p.docid) && IsInt32(p.frequency)
  {
    var parts := Split(elem, ':');
    Posting(ParseInt(parts[0]).value, ParseInt(parts[1]).value)
  }

  /** What `parsePostings` demands: every element of `split(" ")` is a posting. */
  predicate ParsablePostings(raw: string)
  {
    var elems := Split(raw, ' ');
    forall k :: 0 <= k < |elems| ==> ParsablePosting(elems[k])
  }

  /** The postings of `raw`, one per element of `split(" ")`, in order. */
  function ParsedPostings(raw: string): (r: seq<Posting>)
    requires ParsablePostings(raw)
    ensures |r| == |Split(raw, ' ')|
    ensures forall k :: 0 <= k < |r| ==> r[k] == ParsePosting(Split(raw, ' ')[k])
  {
    var elems := Split(raw, ' ');
    seq(|elems|, k requires 0 <= k < |elems| => ParsePosting(elems[k]))
  }

  /** `parsePostings`: one posting per element of `split(" ")`, appended in order. */
  method ParsePostings(rawPostings: string) returns (ps: seq<Posting>)
    requires ParsablePostings(rawPostings)
    ensures ps == ParsedPostings(rawPostings)
  {
    var documents := Split(rawPostings, ' ');
    ps := [];
    for k := 0 to |documents|
      invariant ps == ParsedPostings(rawPostings)[..k]
    {
      var posting := Split(documents[k], ':');
      var p := Posting(ParseInt(posting[0]).value, ParseInt(posting[1]).value);
      ParsedStep(rawPostings, k);
      ps := ps + [p];
    }
    assert ParsedPostings(rawPostings)[..|documents|] == ParsedPostings(rawPostings);
  }

  lemma ParsedStep(raw: string, k: nat)
    requires ParsablePostings(raw) && k < |Split(raw, ' ')|
    ensures ParsablePosting(Split(raw, ' ')[k])
    ensures ParsedPostings(raw)[..k + 1] == ParsedPostings(raw)[..k] + [ParsePosting(Split(raw, ' ')[k])]
  {
    var elems := Split(raw, ' ');
    assert ParsablePosting(elems[k]);
    var r := ParsedPostings(raw);
    assert r[k] == ParsePosting(elems[k]);
    PrefixStep(r, k);
  }

  lemma PrefixStep(r: seq<Posting>, k: nat)
    requires k < |r|
    ensures r[..k + 1] == r[..k] + [r[k]]
  {
  }

  /** What the constructor demands: `split("\t")` gives at least the term and, when there
      is a second part, that part parses. */
  predicate ParsableRow(toParse: string)
  {
    var row := Split(toParse, TAB);
    |row| >= 1 && (|row| > 1 ==> ParsablePostings(row[1]))
  }

  /** The term: the first part of `split("\t")`. */
  function RowTerm(toParse: string): (t: string)
    requires ParsableRow(toParse)
    ensures TAB !in t
  {
    SplitFirst(toParse, TAB);
    Split(toParse, TAB)[0]
  }

  /** The postings: those of the second part of `split("\t")`, or none. */
  function RowPostings(toParse: string): seq<Posting>
    requires ParsableRow(toParse)
  {
    var row := Split(toParse, TAB);
    if |row| > 1 then ParsedPostings(row[1]) else []
  }

  // ---------------------------------------------------------------------------
  // the text a posting list parses from

  function PostingToken(p: Posting): string
  {
    IntToString(p.docid) + ":" + IntToString(p.frequency)
  }

  function Tokens(ps: seq<Posting>): (r: seq<string>)
    ensures |r| == |ps| && forall k :: 0 <= k < |ps| ==> r[k] == PostingToken(ps[k])
  {
    seq(|ps|, k requires 0 <= k < |ps| => PostingToken(ps[k]))
  }

  /** The row for a term and its postings: the term alone, or the term, a tab and the
      postings as `docid:frequency` separated by single spaces. */
  function Row(term: string, ps: seq<Posting>): string
  {
    if ps == [] then term else term + [TAB] + Join(" ", Tokens(ps))
  }

  predicate Int32Postings(ps: seq<Posting>)
  {
    forall k :: 0 <= k < |ps| ==> IsInt32(ps[k].docid) && IsInt32(ps[k].frequency)
  }

  lemma NoSeparator(x: int, d: char)
    requires d == ':' || d == ' ' || d == TAB
    ensures d !in IntToString(x)
  {
    IntToStringChars(x);
  }

  lemma {:induction false} TokenParses(p: Posting)
    requires IsInt32(p.docid) && IsInt32(p.frequency)
    ensures ' ' !in PostingToken(p) && TAB !in PostingToken(p) && PostingToken(p) != ""
    ensures ParsablePosting(PostingToken(p)) && ParsePosting(PostingToken(p)) == p
  {
    var a := IntToString(p.docid);
    var b := IntToString(p.frequency);
    NoSeparator(p.docid, ':');
    NoSeparator(p.frequency, ':');
    NoSeparator(p.docid, ' ');
    NoSeparator(p.frequency, ' ');
    NoSeparator(p.docid, TAB);
    NoSeparator(p.frequency, TAB);
    assert Join([':'], [a, b]) == a + ":" + b;
    SplitOfJoin(':', [a, b]);
    ParseIntToString(p.docid);
    ParseIntToString(p.frequency);
  }

  lemma {:induction false} TokensParse(ps: seq<Posting>)
    requires Int32Postings(ps) && ps != []
    ensures TAB !in Join(" ", Tokens(ps)) && Join(" ", Tokens(ps)) != ""
    ensures ParsablePostings(Join(" ", Tokens(ps)))
    ensures ParsedPostings(Join(" ", Tokens(ps))) == ps
  {
    var toks := Tokens(ps);
    forall k | 0 <= k < |ps|
      ensures ' ' !in toks[k] && TAB !in toks[k] && toks[k] != ""
      ensures ParsablePosting(toks[k]) && ParsePosting(toks[k]) == ps[k]
    {
      TokenParses(ps[k]);
    }
    SplitOfJoin(' ', toks);
    JoinHasNo(TAB, " ", toks);
    JoinStartsWith(" ", toks);
  }

  lemma {:induction false} JoinStartsWith(sep: string, parts: seq<string>)
    requires |parts| >= 1 && parts[0] != ""
    ensures Join(sep, parts) != ""
  {
  }

  /** Parsing undoes `Row`: the term comes back as written and so do the postings, in
      order, for any term without a tab and any postings with 32-bit fields. */
  lemma RowRoundTrip(term: string, ps: seq<Posting>)
    requires TAB !in term && Int32Postings(ps)
    ensures ParsableRow(Row(term, ps))
    ensures RowTerm(Row(term, ps)) == term && RowPostings(Row(term, ps)) == ps
  {
    if ps == [] {
      assert Split(term, TAB) == [term];
    } else {
      var body := Join(" ", Tokens(ps));
      TokensParse(ps);
      assert Join([TAB], [term, body]) == term + [TAB] + body;
      SplitOfJoin(TAB, [term, body]);
    }
  }
}
