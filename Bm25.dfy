/**
 * The BM25 upper-bound witness kept by posting lists and vocabulary entries: the pair
 * (document length, term frequency) whose ratio `tf / (dl + tf)` is the largest seen.
 * The sum is Java `int` arithmetic and the quotient a `double`.
 */
module Bm25 {
  import opened Bytes
  import opened JavaMath

  datatype Witness = Witness(dl: int, tf: int)

  /** The starting pair: `BM25Dl = 1`, `BM25Tf = 0`. */
  const Initial: Witness := Witness(1, 0)

  /** `(double) tf / (double) (dl + tf)`. */
  function Ratio(w: Witness): Extended
  {
    Quotient(w.tf, Wrap32(w.dl + w.tf))
  }

  /** `updateBM25Params` / `updateBM25Statistics`: the candidate replaces the current pair
      exactly when its ratio is strictly greater. */
  function Update(w: Witness, candidate: Witness): (r: Witness)
    ensures r == candidate || r == w
    ensures r != w ==> Greater(Ratio(candidate), Ratio(w))
    ensures Greater(Ratio(candidate), Ratio(w)) ==> r == candidate
    ensures !Ratio(w).NaN? ==> !Ratio(r).NaN? && !Greater(Ratio(candidate), Ratio(r)) && !Greater(Ratio(w), Ratio(r))
  {
    GreaterOrder(Ratio(candidate), Ratio(w), Ratio(w));
    GreaterOrder(Ratio(candidate), Ratio(candidate), Ratio(w));
    GreaterOrder(Ratio(w), Ratio(candidate), Ratio(w));
    if Greater(Ratio(candidate), Ratio(w)) then candidate else w
  }

  /** Feeding candidates one after another. */
  function UpdateAll(w: Witness, feed: seq<Witness>): Witness
    decreases |feed|
  {
    if feed == [] then w else UpdateAll(Update(w, feed[0]), feed[1..])
  }

  /** Not greater, then not greater: for values that are not NaN the order is total. */
  lemma NotGreaterChain(a: Extended, b: Extended, c: Extended)
    requires !b.NaN? && !c.NaN?
    requires !Greater(a, b) && !Greater(b, c)
    ensures !Greater(a, c)
  {
    GreaterOrder(a, b, c);
    GreaterOrder(b, c, a);
    GreaterOrder(a, c, b);
    GreaterOrder(c, b, a);
    GreaterOrder(b, a, c);
  }

  /** The witness is a running maximum: after any feed no candidate, and not the
      starting pair, has a strictly greater ratio, and the pair kept is the starting one
      or one of the candidates. */
  lemma {:induction false} RunningMax(w: Witness, feed: seq<Witness>)
    requires !Ratio(w).NaN?
    ensures !Ratio(UpdateAll(w, feed)).NaN?
    ensures !Greater(Ratio(w), Ratio(UpdateAll(w, feed)))
    ensures forall k :: 0 <= k < |feed| ==> !Greater(Ratio(feed[k]), Ratio(UpdateAll(w, feed)))
    ensures UpdateAll(w, feed) == w || UpdateAll(w, feed) in feed
    decreases |feed|
  {
    if feed == [] {
      GreaterOrder(Ratio(w), Ratio(w), Ratio(w));
    } else {
      var w1 := Update(w, feed[0]);
      var f := UpdateAll(w1, feed[1..]);
      RunningMax(w1, feed[1..]);
      NotGreaterChain(Ratio(w), Ratio(w1), Ratio(f));
      NotGreaterChain(Ratio(feed[0]), Ratio(w1), Ratio(f));
      forall k | 1 <= k < |feed|
        ensures !Greater(Ratio(feed[k]), Ratio(f))
      {
        assert feed[k] == feed[1..][k - 1];
      }
      assert f == w1 || f in feed[1..];
    }
  }

  /** The starting pair has ratio 0, which is not NaN. */
  lemma InitialRatio()
    ensures Ratio(Initial) == Finite(0.0)
  {
  }
}
