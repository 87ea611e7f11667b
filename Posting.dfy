/** A posting: a document identifier and the term's frequency in that document. */
module Postings {

  datatype Posting = Posting(docid: int, frequency: int)

  /** Docids strictly increase along the list. */
  predicate Increasing(ps: seq<Posting>)
  {
    forall a, b :: 0 <= a < b < |ps| ==> ps[a].docid < ps[b].docid
  }

  /** Pairs the i-th docid with the i-th frequency. */
  function Zip(docids: seq<int>, freqs: seq<int>): (r: seq<Posting>)
    requires |docids| == |freqs|
    ensures |r| == |docids|
    ensures forall i :: 0 <= i < |r| ==> r[i] == Posting(docids[i], freqs[i])
  {
    seq(|docids|, i requires 0 <= i < |docids| => Posting(docids[i], freqs[i]))
  }

  function Docids(ps: seq<Posting>): (r: seq<int>)
    ensures |r| == |ps| && forall i :: 0 <= i < |ps| ==> r[i] == ps[i].docid
  {
    seq(|ps|, i requires 0 <= i < |ps| => ps[i].docid)
  }

  function Frequencies(ps: seq<Posting>): (r: seq<int>)
    ensures |r| == |ps| && forall i :: 0 <= i < |ps| ==> r[i] == ps[i].frequency
  {
    seq(|ps|, i requires 0 <= i < |ps| => ps[i].frequency)
  }

  /** Splitting postings into their docids and frequencies and zipping them back. */
  lemma ZipUnzip(ps: seq<Posting>)
    ensures Zip(Docids(ps), Frequencies(ps)) == ps
  {
  }

  /** The docids of a slice are the slice of the docids. */
  lemma DocidsSlice(ps: seq<Posting>, lo: nat, hi: nat)
    requires lo <= hi <= |ps|
    ensures Docids(ps)[lo..hi] == Docids(ps[lo..hi])
  {
  }

  /** The frequencies of a slice are the slice of the frequencies. */
  lemma FrequenciesSlice(ps: seq<Posting>, lo: nat, hi: nat)
    requires lo <= hi <= |ps|
    ensures Frequencies(ps)[lo..hi] == Frequencies(ps[lo..hi])
  {
  }
}
