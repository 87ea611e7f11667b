/**
 * Document-at-a-time query evaluation over the posting lists of the query terms: the
 * lists move forward together through the docids, each document reached is scored,
 * and a min-heap keeps the k best.
 *
 * A posting list is seen here through a `ListView`: the postings its cursor will
 * still hand out (`rest`) and the one it handed out last (`current`). `ListNext` and
 * `ListNextGEQ` are the cursor's `next` and `nextGEQ` on that view; `NextRefines` and
 * `NextGEQRefines` show that the block cursor of `CommonPostingList` moves its view
 * exactly so.
 */
module DAAT {
  import opened Wrappers
  import opened Bytes
  import opened Postings
  import opened CommonPostingList

  datatype ListView = ListView(term: string, rest: seq<Posting>, current: Option<Posting>)

  /** The posting lists of a query; `None` is a null entry. */
  type Lists = seq<Option<ListView>>

  /** `Integer.MAX_VALUE`: docids are Java `int`s. */
  const MAX_INT: int := 0x7FFF_FFFF

  /** Every docid the list can still show is a Java `int`. */
  predicate IntView(l: ListView)
  {
    (l.current.Some? ==> l.current.value.docid <= MAX_INT) &&
    forall k :: 0 <= k < |l.rest| ==> l.rest[k].docid <= MAX_INT
  }

  predicate IntDocids(ls: Lists)
  {
    forall j :: 0 <= j < |ls| && ls[j].Some? ==> IntView(ls[j].value)
  }

  predicate NoNulls(ls: Lists)
  {
    forall j :: 0 <= j < |ls| ==> ls[j].Some?
  }

  // ---------------------------------------------------------------------------
  // the cursor seen as a view

  /** `next`: the first posting left becomes the current one; null when none is left. */
  function ListNext(l: ListView): (r: ListView)
    ensures r.term == l.term
    ensures IntView(l) ==> IntView(r)
  {
    if l.rest == [] then l.(current := None)
    else l.(rest := l.rest[1..], current := Some(l.rest[0]))
  }

  /** `nextGEQ(t)`: the first posting left with docid at least `t` becomes the current
      one and only those after it are left; null when there is none (the list is then
      never looked at again, and is seen as empty). */
  function ListNextGEQ(l: ListView, t: int): (r: ListView)
    ensures r.term == l.term
    ensures r.current.Some? ==> r.current.value.docid >= t
    ensures IntView(l) ==> IntView(r)
  {
    FirstGEQSpec(l.rest, t);
    var m := FirstGEQ(l.rest, t);
    if m < |l.rest| then l.(rest := l.rest[m + 1..], current := Some(l.rest[m]))
    else l.(rest := [], current := None)
  }

  /** The view of the cursor `c` of the list of `term` over the blocks `s`. */
  function ViewOf(term: string, c: Cursor, s: Source): ListView
    requires Positioned(c, s) && Sized(s)
  {
    ListView(term, Remaining(c, s), c.currentPosting)
  }

  /** The posting last handed out is the one just before the postings iterator. */
  predicate Tracked(c: Cursor)
  {
    c.currentPosting.Some? ==>
      1 <= c.postIdx <= |c.postings| && c.postings[c.postIdx - 1] == c.currentPosting.value
  }

  /** The block cursor's `next` moves its view as `ListNext` does, and returns the new
      current posting. */
  lemma NextRefines(term: string, c: Cursor, s: Source)
    requires Positioned(c, s) && Sized(s) && CanStep(c, s) && Tracked(c)
    ensures var out := NextStep(c, s);
      Positioned(out.0, s) && Tracked(out.0) && out.1 == out.0.currentPosting &&
      ViewOf(term, out.0, s) == ListNext(ViewOf(term, c, s))
  {
    NextPops(c, s);
  }

  /** DAAT calls `nextGEQ(t)` on a list only when its current posting lies below `t`.
      On an aligned cursor of a well-formed list the block cursor then returns the
      current posting `ListNextGEQ` picks, and when it finds one its view moves as
      `ListNextGEQ` says. */
  lemma NextGEQRefines(term: string, c: Cursor, s: Source, t: int)
    requires Positioned(c, s) && Sized(s) && WellFormed(s) && Aligned(c, s) && Tracked(c)
    requires c.currentPosting.Some? && c.currentPosting.value.docid < t
    ensures var out := NextGEQStep(c, s, t);
      Tracked(out.0) && out.1 == out.0.currentPosting &&
      out.1 == ListNextGEQ(ViewOf(term, c, s), t).current &&
      (out.1.Some? ==> Aligned(out.0, s) && ViewOf(term, out.0, s) == ListNextGEQ(ViewOf(term, c, s), t))
  {
    assert ConsumedBelow(c, t);
    NextGEQFindsFirst(c, s, t);
    NextGEQSkips(c, s, t);
    FirstGEQSpec(Remaining(c, s), t);
  }

  // ---------------------------------------------------------------------------
  // nextDocToProcess

  /** The docid of the current posting of a list, when the list and the posting exist. */
  function DocOf(o: Option<ListView>): Option<int>
  {
    if o.Some? && o.value.current.Some? then Some(o.value.current.value.docid) else None
  }

  /** The disjunctive scan from `acc` on: a current docid is taken when none is taken
      yet (-1) or when it is smaller. */
  function Lowest(ls: Lists, acc: int): int
    decreases |ls|
  {
    if ls == [] then acc
    else
      var next := match DocOf(ls[0])
        case Some(d) => if acc == -1 || d < acc then d else acc
        case None => acc;
      Lowest(ls[1..], next)
  }

  /** The conjunctive scan from `acc` on: a current docid is taken when it is larger. */
  function Highest(ls: Lists, acc: int): int
    decreases |ls|
  {
    if ls == [] then acc
    else
      var next := match DocOf(ls[0])
        case Some(d) => if d > acc then d else acc
        case None => acc;
      Highest(ls[1..], next)
  }

  /** Measures how far a candidate docid can still rise below `MAX_INT`. */
  function Rise(cand: int): nat
  {
    if cand <= MAX_INT then MAX_INT - cand + 1 else 0
  }

  /** The conjunctive alignment `nextGEQ(cand, lists)` from list `i` on: a list without
      a current posting gives -1; one below the candidate is moved to its first posting
      at least the candidate, and gives -1 when there is none; a list beyond the
      candidate makes its docid the new candidate and restarts the scan at the first
      list. */
  function AlignFrom(ls: Lists, cand: int, i: nat): (r: (int, Lists))
    requires IntDocids(ls) && i <= |ls|
    ensures |r.1| == |ls| && IntDocids(r.1)
    ensures forall j :: 0 <= j < |ls| ==> (r.1[j].Some? <==> ls[j].Some?)
    decreases Rise(cand), |ls| - i
  {
    if i == |ls| then (cand, ls)
    else if ls[i].None? then AlignFrom(ls, cand, i + 1)
    else
      var l := ls[i].value;
      if l.current.None? then (-1, ls)
      else if l.current.value.docid < cand then
        var l' := ListNextGEQ(l, cand);
        var ls' := ls[i := Some(l')];
        if l'.current.None? then (-1, ls')
        else if l'.current.value.docid == cand then AlignFrom(ls', cand, i + 1)
        else AlignFrom(ls', l'.current.value.docid, 0)
      else if l.current.value.docid > cand then AlignFrom(ls, l.current.value.docid, 0)
      else AlignFrom(ls, cand, i + 1)
  }

  /** `nextDocToProcess`: the lists moved and the docid to process next, -1 for none. */
  function NextDoc(isConjunctive: bool, ls: Lists): (int, Lists)
    requires IntDocids(ls)
  {
    if isConjunctive then AlignFrom(ls, Highest(ls, -1), 0) else (Lowest(ls, -1), ls)
  }

  /** `nextGEQ(docidToProcess, postingsToScore)`. */
  method NextGEQ(docidToProcess: int, postingsToScore: Lists) returns (r: int, ls: Lists)
    requires IntDocids(postingsToScore)
    ensures (r, ls) == AlignFrom(postingsToScore, docidToProcess, 0)
  {
    ls := postingsToScore;
    var nextGEQ := docidToProcess;
    var i := 0;
    while i < |ls|
      invariant 0 <= i <= |ls| && IntDocids(ls)
      invariant AlignFrom(ls, nextGEQ, i) == AlignFrom(postingsToScore, docidToProcess, 0)
      decreases Rise(nextGEQ), |ls| - i
    {
      if ls[i].Some? {
        var pointed := ls[i].value.current;
        if pointed.None? {
          return -1, ls;
        }
        if pointed.value.docid < nextGEQ {
          var l := ListNextGEQ(ls[i].value, nextGEQ);
          ls := ls[i := Some(l)];
          pointed := l.current;
          if pointed.None? {
            return -1, ls;
          }
          if pointed.value.docid == nextGEQ {
            i := i + 1;
            continue;
          }
        }
        if pointed.value.docid > nextGEQ {
          nextGEQ := pointed.value.docid;
          i := -1;
        }
      }
      i := i + 1;
    }
    return nextGEQ, ls;
  }

  /** `nextDocToProcess(isConjunctive, postingsToScore)`. */
  method NextDocToProcess(isConjunctive: bool, postingsToScore: Lists) returns (r: int, ls: Lists)
    requires IntDocids(postingsToScore)
    ensures (r, ls) == NextDoc(isConjunctive, postingsToScore)
  {
    var docidToProcess := -1;
    var i := 0;
    while i < |postingsToScore|
      invariant 0 <= i <= |postingsToScore|
      invariant isConjunctive ==> Highest(postingsToScore[i..], docidToProcess) == Highest(postingsToScore, -1)
      invariant !isConjunctive ==> Lowest(postingsToScore[i..], docidToProcess) == Lowest(postingsToScore, -1)
    {
      assert postingsToScore[i..][1..] == postingsToScore[i + 1..];
      var pointed := DocOf(postingsToScore[i]);
      if pointed.Some? {
        if !isConjunctive {
          if docidToProcess == -1 || pointed.value < docidToProcess {
            docidToProcess := pointed.value;
          }
        } else {
          if pointed.value > docidToProcess {
            docidToProcess := pointed.value;
          }
        }
      }
      i := i + 1;
    }
    if isConjunctive {
      r, ls := NextGEQ(docidToProcess, postingsToScore);
    } else {
      r, ls := docidToProcess, postingsToScore;
    }
  }

  // ---------------------------------------------------------------------------
  // what the scans and the alignment find

  /** The disjunctive scan ends on its starting value or on the docid of a current
      posting. */
  lemma {:induction false} LowestPicks(ls: Lists, acc: int)
    ensures Lowest(ls, acc) == acc || exists j :: 0 <= j < |ls| && DocOf(ls[j]) == Some(Lowest(ls, acc))
    decreases |ls|
  {
    if ls != [] {
      var next := match DocOf(ls[0])
        case Some(d) => if acc == -1 || d < acc then d else acc
        case None => acc;
      LowestPicks(ls[1..], next);
      if Lowest(ls, acc) != next {
        var j :| 0 <= j < |ls[1..]| && DocOf(ls[1..][j]) == Some(Lowest(ls, acc));
        assert DocOf(ls[j + 1]) == Some(Lowest(ls, acc));
      }
    }
  }

  /** With docids that are never negative, the disjunctive scan from `acc` (-1 for
      nothing taken yet) gives -1 exactly when nothing is taken and no list has a
      current posting, and otherwise the smallest of `acc` and the current docids. */
  lemma {:induction false} LowestIsLeast(ls: Lists, acc: int)
    requires acc >= -1 && forall j :: 0 <= j < |ls| && DocOf(ls[j]).Some? ==> DocOf(ls[j]).value >= 0
    ensures Lowest(ls, acc) == -1 <==> acc == -1 && forall j :: 0 <= j < |ls| ==> DocOf(ls[j]).None?
    ensures Lowest(ls, acc) != -1 ==>
      (acc != -1 ==> Lowest(ls, acc) <= acc) &&
      forall j :: 0 <= j < |ls| && DocOf(ls[j]).Some? ==> Lowest(ls, acc) <= DocOf(ls[j]).value
    decreases |ls|
  {
    if ls != [] {
      var next := match DocOf(ls[0])
        case Some(d) => if acc == -1 || d < acc then d else acc
        case None => acc;
      assert forall j :: 1 <= j < |ls| ==> ls[1..][j - 1] == ls[j];
      LowestIsLeast(ls[1..], next);
    }
  }

  /** The disjunctive `nextDocToProcess`, when docids are never negative: -1 exactly
      when every list is null or exhausted, and otherwise the smallest current docid. */
  lemma DisjunctiveNext(ls: Lists)
    requires IntDocids(ls)
    requires forall j :: 0 <= j < |ls| && DocOf(ls[j]).Some? ==> DocOf(ls[j]).value >= 0
    ensures var r := NextDoc(false, ls).0;
      NextDoc(false, ls).1 == ls &&
      (r == -1 <==> forall j :: 0 <= j < |ls| ==> DocOf(ls[j]).None?) &&
      (r != -1 ==> (exists j :: 0 <= j < |ls| && DocOf(ls[j]) == Some(r)) &&
                   forall j :: 0 <= j < |ls| && DocOf(ls[j]).Some? ==> r <= DocOf(ls[j]).value)
  {
    LowestPicks(ls, -1);
    LowestIsLeast(ls, -1);
  }

  /** The conjunctive scan gives the largest of `acc` and the current docids. */
  lemma {:induction false} HighestIsGreatest(ls: Lists, acc: int)
    ensures Highest(ls, acc) >= acc
    ensures forall j :: 0 <= j < |ls| && DocOf(ls[j]).Some? ==> DocOf(ls[j]).value <= Highest(ls, acc)
    ensures Highest(ls, acc) == acc || exists j :: 0 <= j < |ls| && DocOf(ls[j]) == Some(Highest(ls, acc))
    decreases |ls|
  {
    if ls != [] {
      var next := match DocOf(ls[0])
        case Some(d) => if d > acc then d else acc
        case None => acc;
      HighestIsGreatest(ls[1..], next);
      assert forall j :: 1 <= j < |ls| ==> ls[1..][j - 1] == ls[j];
      if Highest(ls, acc) != next {
        var j :| 0 <= j < |ls[1..]| && DocOf(ls[1..][j]) == Some(Highest(ls, acc));
        assert DocOf(ls[j + 1]) == Some(Highest(ls, acc));
      }
    }
  }

  /** The alignment ends on -1 or on a candidate no smaller than the one it started
      from, and on a candidate every non-null list is positioned at. */
  lemma {:induction false} AlignMatches(ls: Lists, cand: int, i: nat)
    requires IntDocids(ls) && i <= |ls|
    requires forall j :: 0 <= j < i && ls[j].Some? ==> DocOf(ls[j]) == Some(cand)
    ensures var r := AlignFrom(ls, cand, i);
      (r.0 == -1 || r.0 >= cand) &&
      (r.0 != -1 ==> forall j :: 0 <= j < |ls| && r.1[j].Some? ==> DocOf(r.1[j]) == Some(r.0))
    decreases Rise(cand), |ls| - i
  {
    if i < |ls| {
      if ls[i].None? {
        AlignMatches(ls, cand, i + 1);
      } else {
        var l := ls[i].value;
        if l.current.Some? {
          if l.current.value.docid < cand {
            var l' := ListNextGEQ(l, cand);
            var ls' := ls[i := Some(l')];
            if l'.current.Some? {
              if l'.current.value.docid == cand {
                AlignMatches(ls', cand, i + 1);
              } else {
                AlignMatches(ls', l'.current.value.docid, 0);
              }
            }
          } else if l.current.value.docid > cand {
            AlignMatches(ls, l.current.value.docid, 0);
          } else {
            AlignMatches(ls, cand, i + 1);
          }
        }
      }
    }
  }

  /** What a list can still show: its current posting, then the rest. */
  function Ahead(l: ListView): seq<Posting>
  {
    (if l.current.Some? then [l.current.value] else []) + l.rest
  }

  /** Docids increase from the current posting on, and a list whose current posting is
      null has nothing left (as after `next`). */
  predicate Ordered(l: ListView)
  {
    Increasing(Ahead(l)) && (l.current.None? ==> l.rest == [])
  }

  predicate AllOrdered(ls: Lists)
  {
    forall j :: 0 <= j < |ls| && ls[j].Some? ==> Ordered(ls[j].value)
  }

  predicate Shows(l: ListView, d: int)
  {
    d in Docids(Ahead(l))
  }

  /** Every non-null list can still show `d`. */
  predicate Common(ls: Lists, d: int)
  {
    forall j :: 0 <= j < |ls| && ls[j].Some? ==> Shows(ls[j].value, d)
  }

  /** From `cand` on, `l` shows the docids `o` shows. */
  ghost predicate Keeps(o: ListView, l: ListView, cand: int)
  {
    forall d :: d >= cand ==> (Shows(l, d) <==> Shows(o, d))
  }

  /** `ls` is `orig` moved forward below `cand` only: the same null entries, ordered
      lists, and from `cand` on the same docids. */
  ghost predicate Follows(orig: Lists, ls: Lists, cand: int)
  {
    |ls| == |orig| &&
    forall j :: 0 <= j < |ls| ==>
      (ls[j].Some? <==> orig[j].Some?) &&
      (ls[j].Some? ==> Ordered(ls[j].value) && Keeps(orig[j].value, ls[j].value, cand))
  }

  /** What the conjunctive alignment from `start` promises about `orig`: a result other
      than -1 is the smallest docid from `start` on that every list can still show; -1
      (from a candidate never below zero) means there is none. */
  ghost predicate FindsCommon(orig: Lists, start: int, r: int)
  {
    (r != -1 ==> r >= start && Common(orig, r) && forall d :: start <= d < r ==> !Common(orig, d)) &&
    (r == -1 && start >= 0 ==> forall d :: d >= start ==> !Common(orig, d))
  }

  /** An ordered list shows nothing below its current posting. */
  lemma ShowsFirst(l: ListView, d: int)
    requires Ordered(l) && l.current.Some? && Shows(l, d)
    ensures d >= l.current.value.docid
  {
    var a := Ahead(l);
    var k :| 0 <= k < |a| && Docids(a)[k] == d;
    assert a[0] == l.current.value;
    if k > 0 {
      assert a[0].docid < a[k].docid;
    }
  }

  /** The current posting is shown. */
  lemma ShowsCurrent(l: ListView)
    requires l.current.Some?
    ensures Shows(l, l.current.value.docid)
  {
    assert Docids(Ahead(l))[0] == l.current.value.docid;
  }

  /** A suffix of an increasing sequence is increasing. */
  lemma IncreasingSuffix(a: seq<Posting>, n: nat)
    requires Increasing(a) && n <= |a|
    ensures Increasing(a[n..])
  {
    assert forall x, y :: 0 <= x < y < |a| - n ==> a[n..][x] == a[n + x] && a[n..][y] == a[n + y];
  }

  /** Dropping a prefix below `t` keeps every docid from `t` on. */
  lemma DropBelow(a: seq<Posting>, n: nat, t: int)
    requires n <= |a| && forall k :: 0 <= k < n ==> a[k].docid < t
    ensures forall d :: d >= t ==> (d in Docids(a) <==> d in Docids(a[n..]))
  {
    forall d | d >= t
      ensures d in Docids(a) <==> d in Docids(a[n..])
    {
      if d in Docids(a) {
        var k :| 0 <= k < |a| && Docids(a)[k] == d;
        assert Docids(a[n..])[k - n] == d;
      }
      if d in Docids(a[n..]) {
        var k :| 0 <= k < |a| - n && Docids(a[n..])[k] == d;
        assert Docids(a)[n + k] == d;
      }
    }
  }

  /** Moving a list below `t` to its first posting at least `t` drops what lies below
      `t` from what it shows: it stays ordered and shows the same from `t` on. */
  lemma SkipKeeps(l: ListView, t: int)
    requires Ordered(l) && l.current.Some? && l.current.value.docid < t
    ensures Ordered(ListNextGEQ(l, t)) && Keeps(l, ListNextGEQ(l, t), t)
  {
    FirstGEQSpec(l.rest, t);
    var m := FirstGEQ(l.rest, t);
    var a := Ahead(l);
    assert a == [l.current.value] + l.rest;
    assert Ahead(ListNextGEQ(l, t)) == a[m + 1..];
    assert forall k :: 0 <= k < m + 1 ==> a[k].docid < t by {
      assert forall k :: 1 <= k < m + 1 ==> a[k] == l.rest[k - 1];
    }
    IncreasingSuffix(a, m + 1);
    DropBelow(a, m + 1, t);
  }

  /** A list `i` that shows nothing from `cand` on leaves no docid from `start` on
      common to all, once none below `cand` is. */
  lemma NoneFrom(orig: Lists, start: int, cand: int, i: nat, l: ListView)
    requires i < |orig| && orig[i].Some? && Keeps(orig[i].value, l, cand)
    requires forall d :: d >= cand ==> !Shows(l, d)
    requires forall d :: start <= d < cand ==> !Common(orig, d)
    ensures forall d :: d >= start ==> !Common(orig, d)
  {
    forall d | d >= cand
      ensures !Common(orig, d)
    {
      assert !Shows(orig[i].value, d);
    }
  }

  /** A list `i` positioned at `p` beyond `cand` leaves no docid below `p` common to
      all, once none below `cand` is. */
  lemma Raised(orig: Lists, start: int, cand: int, i: nat, l: ListView)
    requires i < |orig| && orig[i].Some? && Keeps(orig[i].value, l, cand) && Ordered(l)
    requires l.current.Some? && l.current.value.docid > cand
    requires forall d :: start <= d < cand ==> !Common(orig, d)
    ensures forall d :: start <= d < l.current.value.docid ==> !Common(orig, d)
  {
    forall d | cand <= d < l.current.value.docid
      ensures !Common(orig, d)
    {
      if Shows(l, d) {
        ShowsFirst(l, d);
      }
      assert !Shows(orig[i].value, d);
    }
  }

  /** A list with a null current posting shows nothing. */
  lemma ShowsNothing(l: ListView)
    requires Ordered(l) && l.current.None?
    ensures forall d :: !Shows(l, d)
  {
    assert Ahead(l) == [];
  }

  lemma FollowsUpdate(orig: Lists, ls: Lists, cand: int, i: nat, l: ListView)
    requires Follows(orig, ls, cand) && i < |ls| && ls[i].Some?
    requires Ordered(l) && Keeps(ls[i].value, l, cand)
    ensures Follows(orig, ls[i := Some(l)], cand)
  {
    assert Keeps(orig[i].value, ls[i].value, cand);
  }

  lemma FollowsRaise(orig: Lists, ls: Lists, cand: int, p: int)
    requires Follows(orig, ls, cand) && p >= cand
    ensures Follows(orig, ls, p)
  {
    forall j | 0 <= j < |ls| && ls[j].Some?
      ensures Keeps(orig[j].value, ls[j].value, p)
    {
      assert Keeps(orig[j].value, ls[j].value, cand);
    }
  }

  /** Every non-null list stands at `cand` and shows what `orig` does from `cand` on:
      `cand` is common to `orig`. */
  lemma AllAt(orig: Lists, ls: Lists, cand: int)
    requires Follows(orig, ls, cand)
    requires forall j :: 0 <= j < |ls| && ls[j].Some? ==> DocOf(ls[j]) == Some(cand)
    ensures Common(orig, cand)
  {
    forall j | 0 <= j < |orig| && orig[j].Some?
      ensures Shows(orig[j].value, cand)
    {
      ShowsCurrent(ls[j].value);
      assert Keeps(orig[j].value, ls[j].value, cand);
    }
  }

  /** The alignment from list `i` with candidate `cand`, on lists that follow `orig`
      and whose lists before `i` stand at `cand`, keeps `FindsCommon(orig, start, _)`
      when no docid from `start` below `cand` is common. */
  lemma {:induction false} AlignCommon(orig: Lists, ls: Lists, start: int, cand: int, i: nat)
    requires IntDocids(ls) && i <= |ls| && start <= cand && Follows(orig, ls, cand)
    requires forall j :: 0 <= j < i && ls[j].Some? ==> DocOf(ls[j]) == Some(cand)
    requires forall d :: start <= d < cand ==> !Common(orig, d)
    ensures FindsCommon(orig, start, AlignFrom(ls, cand, i).0)
    ensures AlignFrom(ls, cand, i).0 != -1 ==> Follows(orig, AlignFrom(ls, cand, i).1, AlignFrom(ls, cand, i).0)
    decreases Rise(cand), |ls| - i
  {
    if i == |ls| {
      AllAt(orig, ls, cand);
    } else if ls[i].None? {
      AlignCommon(orig, ls, start, cand, i + 1);
    } else {
      var l := ls[i].value;
      assert Ordered(l) && Keeps(orig[i].value, l, cand);
      if l.current.None? {
        ShowsNothing(l);
        NoneFrom(orig, start, cand, i, l);
      } else if l.current.value.docid < cand {
        var l' := ListNextGEQ(l, cand);
        var ls' := ls[i := Some(l')];
        SkipKeeps(l, cand);
        FollowsUpdate(orig, ls, cand, i, l');
        assert Keeps(orig[i].value, l', cand);
        if l'.current.None? {
          ShowsNothing(l');
          NoneFrom(orig, start, cand, i, l');
        } else if l'.current.value.docid == cand {
          AlignCommon(orig, ls', start, cand, i + 1);
        } else {
          Raised(orig, start, cand, i, l');
          FollowsRaise(orig, ls', cand, l'.current.value.docid);
          AlignCommon(orig, ls', start, l'.current.value.docid, 0);
        }
      } else if l.current.value.docid > cand {
        Raised(orig, start, cand, i, l);
        FollowsRaise(orig, ls, cand, l.current.value.docid);
        AlignCommon(orig, ls, start, l.current.value.docid, 0);
      } else {
        AlignCommon(orig, ls, start, cand, i + 1);
      }
    }
  }

  /** On ordered lists, `nextGEQ(start, lists)` gives the smallest docid from `start`
      on that every non-null list can still show, or -1 (from a `start` never below
      zero) when there is none. */
  lemma AlignFindsCommon(ls: Lists, start: int)
    requires IntDocids(ls) && AllOrdered(ls)
    ensures FindsCommon(ls, start, AlignFrom(ls, start, 0).0)
  {
    assert Follows(ls, ls, start);
    AlignCommon(ls, ls, start, start, 0);
  }

  // ---------------------------------------------------------------------------
  // scoreDocument

  /** What `scoreDocument(d)` does to one list: moves it by one when it is at `d`. */
  function Step(o: Option<ListView>, d: int): Option<ListView>
  {
    if DocOf(o) == Some(d) then Some(ListNext(o.value)) else o
  }

  /** The lists after `scoreDocument(d)`: exactly those at `d` have moved, by one. */
  function Advanced(ls: Lists, d: int): (r: Lists)
    ensures |r| == |ls| && forall j :: 0 <= j < |ls| ==> r[j] == Step(ls[j], d)
    ensures NoNulls(ls) ==> NoNulls(r)
    ensures IntDocids(ls) ==> IntDocids(r)
  {
    if ls == [] then [] else [Step(ls[0], d)] + Advanced(ls[1..], d)
  }

  /** What `scoreDocument(d)` adds up: for each list at `d`, the score of its current
      posting with the idf of its term. */
  function ScoreSum(ls: Lists, d: int, idf: string -> Opaque8, score: (Posting, Opaque8) -> real): real
  {
    if ls == [] then 0.0
    else
      (if DocOf(ls[0]) == Some(d) then score(ls[0].value.current.value, idf(ls[0].value.term)) else 0.0) +
      ScoreSum(ls[1..], d, idf, score)
  }

  /** `scoreDocument(docid, postingsToScore, scoringFunction)`: `score` is the scoring
      function chosen, `idf` the idf the vocabulary holds for a term. Every list is
      dereferenced, so none may be null. */
  method ScoreDocument(docid: int, postingsToScore: Lists, idf: string -> Opaque8, score: (Posting, Opaque8) -> real)
    returns (s: real, ls: Lists)
    requires NoNulls(postingsToScore)
    ensures s == ScoreSum(postingsToScore, docid, idf, score)
    ensures ls == Advanced(postingsToScore, docid)
  {
    s := 0.0;
    ls := postingsToScore;
    var i := 0;
    while i < |ls|
      invariant 0 <= i <= |ls| == |postingsToScore|
      invariant s + ScoreSum(postingsToScore[i..], docid, idf, score) == ScoreSum(postingsToScore, docid, idf, score)
      invariant forall j :: 0 <= j < |ls| ==> ls[j] == if j < i then Step(postingsToScore[j], docid) else postingsToScore[j]
    {
      assert postingsToScore[i..][1..] == postingsToScore[i + 1..];
      var currPosting := ls[i].value.current;
      if currPosting.Some? && currPosting.value.docid == docid {
        s := s + score(currPosting.value, idf(ls[i].value.term));
        ls := ls[i := Some(ListNext(ls[i].value))];
      }
      i := i + 1;
    }
  }

  // ---------------------------------------------------------------------------
  // progress

  /** How many postings a list can still show. */
  function ListWeight(o: Option<ListView>): nat
  {
    if o.None? then 0 else |Ahead(o.value)|
  }

  function Weight(ls: Lists): nat
  {
    if ls == [] then 0 else ListWeight(ls[0]) + Weight(ls[1..])
  }

  lemma {:induction false} WeightUpdate(ls: Lists, i: nat, x: Option<ListView>)
    requires i < |ls|
    ensures Weight(ls[i := x]) + ListWeight(ls[i]) == Weight(ls) + ListWeight(x)
  {
    if i == 0 {
      assert ls[i := x][1..] == ls[1..];
    } else {
      assert ls[i := x][1..] == ls[1..][i - 1 := x];
      WeightUpdate(ls[1..], i - 1, x);
    }
  }

  /** Moving a list to a posting at least `t` never lets it show more. */
  lemma SkipWeight(l: ListView, t: int)
    requires l.current.Some?
    ensures |Ahead(ListNextGEQ(l, t))| <= |Ahead(l)|
  {
    FirstGEQSpec(l.rest, t);
  }

  /** The alignment never lets the lists show more. */
  lemma {:induction false} AlignWeight(ls: Lists, cand: int, i: nat)
    requires IntDocids(ls) && i <= |ls|
    ensures Weight(AlignFrom(ls, cand, i).1) <= Weight(ls)
    decreases Rise(cand), |ls| - i
  {
    if i < |ls| {
      if ls[i].None? {
        AlignWeight(ls, cand, i + 1);
      } else {
        var l := ls[i].value;
        if l.current.Some? {
          if l.current.value.docid < cand {
            var l' := ListNextGEQ(l, cand);
            var ls' := ls[i := Some(l')];
            SkipWeight(l, cand);
            WeightUpdate(ls, i, Some(l'));
            if l'.current.Some? {
              if l'.current.value.docid == cand {
                AlignWeight(ls', cand, i + 1);
              } else {
                AlignWeight(ls', l'.current.value.docid, 0);
              }
            }
          } else if l.current.value.docid > cand {
            AlignWeight(ls, l.current.value.docid, 0);
          } else {
            AlignWeight(ls, cand, i + 1);
          }
        }
      }
    }
  }

  /** `scoreDocument(d)` lets the lists show fewer postings when some list is at `d`. */
  lemma {:induction false} AdvancedWeight(ls: Lists, d: int)
    ensures Weight(Advanced(ls, d)) <= Weight(ls)
    ensures (exists j :: 0 <= j < |ls| && DocOf(ls[j]) == Some(d)) ==> Weight(Advanced(ls, d)) < Weight(ls)
  {
    if ls != [] {
      var r := Advanced(ls, d);
      assert r[0] == Step(ls[0], d) && r[1..] == Advanced(ls[1..], d);
      AdvancedWeight(ls[1..], d);
      if exists j :: 0 <= j < |ls| && DocOf(ls[j]) == Some(d) {
        var j :| 0 <= j < |ls| && DocOf(ls[j]) == Some(d);
        if j > 0 {
          assert DocOf(ls[1..][j - 1]) == Some(d);
        }
      }
    }
  }

  /** `nextDocToProcess` never lets the lists show more, keeps them non-null and within
      `int`, and a docid other than -1 is one some list is at. */
  lemma NextDocProgress(isConjunctive: bool, ls: Lists)
    requires IntDocids(ls) && NoNulls(ls)
    ensures var next := NextDoc(isConjunctive, ls);
      Weight(next.1) <= Weight(ls) && NoNulls(next.1) && IntDocids(next.1) &&
      (next.0 != -1 ==> exists j :: 0 <= j < |next.1| && DocOf(next.1[j]) == Some(next.0))
  {
    if isConjunctive {
      var start := Highest(ls, -1);
      AlignWeight(ls, start, 0);
      AlignMatches(ls, start, 0);
      if |ls| == 0 {
        assert start == -1;
      } else {
        assert AlignFrom(ls, start, 0).1[0].Some?;
      }
    } else {
      LowestPicks(ls, -1);
    }
  }

  // ---------------------------------------------------------------------------
  // scoreQuery

  /** An entry of the result heap: a score and the docid scored. */
  datatype Scored = Scored(score: real, docid: int)

  /** The lists after `initialize`: each moved to its first posting. */
  function Initialized(ls: Lists): (r: Lists)
    requires NoNulls(ls)
    ensures |r| == |ls| && forall j :: 0 <= j < |ls| ==> r[j] == Some(ListNext(ls[j].value))
  {
    if ls == [] then [] else [Some(ListNext(ls[0].value))] + Initialized(ls[1..])
  }

  /** The documents `scoreQuery` scores from the lists `ls` on, in order, with their
      scores. */
  function Evaluation(ls: Lists, isConjunctive: bool, idf: string -> Opaque8, score: (Posting, Opaque8) -> real): seq<Scored>
    requires NoNulls(ls) && IntDocids(ls)
    decreases Weight(ls), 1
  {
    NextDocProgress(isConjunctive, ls);
    var next := NextDoc(isConjunctive, ls);
    Continue(next.0, next.1, isConjunctive, idf, score)
  }

  /** The documents scored once `nextDocToProcess` has given `d` and moved the lists to
      `ls`. */
  function Continue(d: int, ls: Lists, isConjunctive: bool, idf: string -> Opaque8, score: (Posting, Opaque8) -> real): seq<Scored>
    requires NoNulls(ls) && IntDocids(ls)
    requires d != -1 ==> exists j :: 0 <= j < |ls| && DocOf(ls[j]) == Some(d)
    decreases Weight(ls), 0
  {
    if d == -1 then []
    else
      AdvancedWeight(ls, d);
      [Scored(ScoreSum(ls, d, idf, score), d)] + Evaluation(Advanced(ls, d), isConjunctive, idf, score)
  }

  /** `e` has the smallest score in `h`. */
  predicate Least(e: Scored, h: multiset<Scored>)
  {
    e in h && forall x :: x in h ==> e.score <= x.score
  }

  lemma LeastExists(h: multiset<Scored>)
    requires |h| > 0
    ensures exists e :: Least(e, h)
    decreases |h|
  {
    var x :| x in h;
    var h' := h - multiset{x};
    assert forall y :: y in h ==> y == x || y in h';
    if |h'| > 0 {
      LeastExists(h');
      var e :| Least(e, h');
      if x.score < e.score {
        assert Least(x, h);
      } else {
        assert Least(e, h);
      }
    } else {
      assert Least(x, h);
    }
  }

  /** `kept` holds the `k` best of `seen`, or all of `seen` when there are fewer: no
      score left out exceeds a score kept. */
  ghost predicate TopK(kept: multiset<Scored>, seen: seq<Scored>, k: nat)
  {
    kept <= multiset(seen) && |kept| == Min(k, |seen|) &&
    forall x, y :: x in multiset(seen) - kept && y in kept ==> x.score <= y.score
  }

  /** The `PriorityQueue` of entries ordered by score: `entries` is what it holds. The
      order among entries of equal score is left open. */
  class ScoreHeap {
    var entries: multiset<Scored>

    /** `new PriorityQueue<>(initialCapacity, comparingByKey())`, which refuses an
        initial capacity below 1. */
    constructor (initialCapacity: int)
      requires initialCapacity >= 1
      ensures entries == multiset{}
    {
      entries := multiset{};
    }

    function Size(): nat
      reads this
    {
      |entries|
    }

    /** `peek`: an entry of smallest score, null when the heap is empty. */
    method Peek() returns (r: Option<Scored>)
      ensures r.None? <==> |entries| == 0
      ensures r.Some? ==> Least(r.value, entries)
    {
      if |entries| == 0 {
        return None;
      }
      LeastExists(entries);
      var e :| Least(e, entries);
      return Some(e);
    }

    /** `poll`: an entry of smallest score, removed; null when the heap is empty. */
    method Poll() returns (r: Option<Scored>)
      modifies this
      ensures r.None? <==> |old(entries)| == 0
      ensures r.None? ==> entries == old(entries)
      ensures r.Some? ==> Least(r.value, old(entries)) && entries == old(entries) - multiset{r.value}
    {
      if |entries| == 0 {
        return None;
      }
      LeastExists(entries);
      var e :| Least(e, entries);
      entries := entries - multiset{e};
      return Some(e);
    }

    /** `add`. */
    method Add(e: Scored)
      modifies this
      ensures entries == old(entries) + multiset{e}
    {
      entries := entries + multiset{e};
    }
  }

  /** The heap update of `scoreQuery` for a document scored `e`: a heap below `k`
      takes it; a full heap takes it only when its score is strictly above the
      smallest, which is then evicted. */
  method Offer(topK: ScoreHeap, k: int, e: Scored)
    requires 1 <= k && |topK.entries| <= k
    modifies topK
    ensures |old(topK.entries)| < k ==> topK.entries == old(topK.entries) + multiset{e}
    ensures |old(topK.entries)| == k ==>
      (topK.entries == old(topK.entries) && forall x :: x in old(topK.entries) ==> e.score <= x.score) ||
      (exists m :: Least(m, old(topK.entries)) && e.score > m.score &&
                   topK.entries == old(topK.entries) - multiset{m} + multiset{e})
  {
    if topK.Size() == k {
      var top := topK.Peek();
      if top.Some? && e.score > top.value.score {
        var evicted := topK.Poll();
        topK.Add(e);
      }
    } else {
      topK.Add(e);
    }
  }

  /** A sub-multiset as large as the whole is the whole. */
  lemma SubFull(a: multiset<Scored>, b: multiset<Scored>)
    requires a <= b && |a| == |b|
    ensures a == b
  {
    assert b == a + (b - a);
    assert |b - a| == 0;
  }

  /** Below `k`, the heap takes the document and still holds everything scored. */
  lemma TakesBelowK(kept: multiset<Scored>, seen: seq<Scored>, k: nat, e: Scored)
    requires TopK(kept, seen, k) && |kept| < k
    ensures TopK(kept + multiset{e}, seen + [e], k)
  {
    SubFull(kept, multiset(seen));
    assert multiset(seen + [e]) == multiset(seen) + multiset{e};
  }

  /** A full heap whose smallest score is not beaten stays as it is. */
  lemma RejectsAtK(kept: multiset<Scored>, seen: seq<Scored>, k: nat, e: Scored)
    requires TopK(kept, seen, k) && |kept| == k
    requires forall x :: x in kept ==> e.score <= x.score
    ensures TopK(kept, seen + [e], k)
  {
    var all := multiset(seen + [e]);
    assert all == multiset(seen) + multiset{e};
    assert all - kept == (multiset(seen) - kept) + multiset{e};
  }

  /** A full heap whose smallest entry `m` is beaten swaps `m` for the document. */
  lemma EvictsAtK(kept: multiset<Scored>, seen: seq<Scored>, k: nat, e: Scored, m: Scored)
    requires TopK(kept, seen, k) && |kept| == k
    requires Least(m, kept) && e.score > m.score
    ensures TopK(kept - multiset{m} + multiset{e}, seen + [e], k)
  {
    var kept' := kept - multiset{m} + multiset{e};
    var all := multiset(seen + [e]);
    assert all == multiset(seen) + multiset{e};
    assert all - kept' == (multiset(seen) - kept) + multiset{m};
    forall x, y | x in all - kept' && y in kept'
      ensures x.score <= y.score
    {
      if y != e {
        assert y in kept;
      }
    }
  }

  /** The heap update keeps the `k` best of what has been scored. */
  lemma OfferKeepsBest(kept: multiset<Scored>, seen: seq<Scored>, k: nat, e: Scored, kept': multiset<Scored>)
    requires k >= 1 && TopK(kept, seen, k)
    requires |kept| < k ==> kept' == kept + multiset{e}
    requires |kept| == k ==>
      (kept' == kept && forall x :: x in kept ==> e.score <= x.score) ||
      (exists m :: Least(m, kept) && e.score > m.score && kept' == kept - multiset{m} + multiset{e})
    ensures TopK(kept', seen + [e], k)
  {
    if |kept| < k {
      TakesBelowK(kept, seen, k, e);
    } else if kept' == kept && forall x :: x in kept ==> e.score <= x.score {
      RejectsAtK(kept, seen, k, e);
    } else {
      var m :| Least(m, kept) && e.score > m.score && kept' == kept - multiset{m} + multiset{e};
      EvictsAtK(kept, seen, k, e, m);
    }
  }

  lemma Regrouped(a: seq<Scored>, e: Scored, b: seq<Scored>)
    ensures a + ([e] + b) == (a + [e]) + b
  {
  }

  /** `initialize`: every list is moved to its first posting. */
  method Initialize(queryTerms: Lists) returns (ls: Lists)
    requires NoNulls(queryTerms)
    ensures ls == Initialized(queryTerms)
  {
    ls := queryTerms;
    var i := 0;
    while i < |ls|
      invariant 0 <= i <= |ls| == |queryTerms|
      invariant forall j :: 0 <= j < |ls| ==> ls[j] == if j < i then Some(ListNext(queryTerms[j].value)) else queryTerms[j]
    {
      ls := ls[i := Some(ListNext(ls[i].value))];
      i := i + 1;
    }
  }

  /** `scoreQuery(queryPostings, isConjunctive, k, scoringFunction)`: `processed` is
      the sequence of documents scored, which is `Evaluation` of the lists after
      `initialize`, and the heap ends holding the `k` best of them. */
  method ScoreQuery(queryPostings: Lists, isConjunctive: bool, k: int,
                    idf: string -> Opaque8, score: (Posting, Opaque8) -> real)
    returns (topK: ScoreHeap, ghost processed: seq<Scored>)
    requires NoNulls(queryPostings) && IntDocids(queryPostings) && k >= 1
    ensures fresh(topK)
    ensures processed == Evaluation(Initialized(queryPostings), isConjunctive, idf, score)
    ensures TopK(topK.entries, processed, k)
  {
    var ls := Initialize(queryPostings);
    ghost var start := ls;
    topK := new ScoreHeap(k);
    NextDocProgress(isConjunctive, ls);
    var docToProcess;
    docToProcess, ls := NextDocToProcess(isConjunctive, ls);
    processed := [];
    while docToProcess != -1
      invariant NoNulls(ls) && IntDocids(ls)
      invariant docToProcess != -1 ==> exists j :: 0 <= j < |ls| && DocOf(ls[j]) == Some(docToProcess)
      invariant processed + Continue(docToProcess, ls, isConjunctive, idf, score) == Evaluation(start, isConjunctive, idf, score)
      invariant TopK(topK.entries, processed, k)
      decreases Weight(ls)
    {
      var docScore, moved := ScoreDocument(docToProcess, ls, idf, score);
      ghost var kept := topK.entries;
      Offer(topK, k, Scored(docScore, docToProcess));
      OfferKeepsBest(kept, processed, k, Scored(docScore, docToProcess), topK.entries);
      AdvancedWeight(ls, docToProcess);
      NextDocProgress(isConjunctive, moved);
      assert Continue(docToProcess, ls, isConjunctive, idf, score) ==
        [Scored(docScore, docToProcess)] + Evaluation(moved, isConjunctive, idf, score);
      ghost var next := NextDoc(isConjunctive, moved);
      ghost var later := Continue(next.0, next.1, isConjunctive, idf, score);
      Regrouped(processed, Scored(docScore, docToProcess), later);
      processed := processed + [Scored(docScore, docToProcess)];
      docToProcess, ls := NextDocToProcess(isConjunctive, moved);
    }
  }

  // ---------------------------------------------------------------------------
  // which documents are scored

  /** Some non-null list can still show `d`. */
  predicate Anywhere(ls: Lists, d: int)
  {
    exists j :: 0 <= j < |ls| && ls[j].Some? && Shows(ls[j].value, d)
  }

  /** The documents a query asks for: in every list (conjunctive) or in some list. */
  predicate Wanted(ls: Lists, isConjunctive: bool, d: int)
  {
    if isConjunctive then Common(ls, d) else Anywhere(ls, d)
  }

  /** No current posting lies below `b`. */
  predicate Above(ls: Lists, b: int)
  {
    forall j :: 0 <= j < |ls| && DocOf(ls[j]).Some? ==> DocOf(ls[j]).value >= b
  }

  /** The docids of `ev` are, in increasing order, exactly the docids from `b` on that
      `want` holds of. */
  ghost predicate Enumerates(ev: seq<Scored>, want: int -> bool, b: int)
  {
    (forall a :: 0 <= a < |ev| ==> ev[a].docid >= b && want(ev[a].docid)) &&
    (forall a, c :: 0 <= a < c < |ev| ==> ev[a].docid < ev[c].docid) &&
    (forall d :: d >= b && want(d) ==> exists a :: 0 <= a < |ev| && ev[a].docid == d)
  }

  lemma EnumeratesCons(e: Scored, ev: seq<Scored>, want: int -> bool, b: int)
    requires e.docid >= b && want(e.docid)
    requires forall d :: b <= d < e.docid ==> !want(d)
    requires Enumerates(ev, want, e.docid + 1)
    ensures Enumerates([e] + ev, want, b)
  {
    var all := [e] + ev;
    assert forall a :: 1 <= a < |all| ==> all[a] == ev[a - 1];
    forall d | d >= b && want(d)
      ensures exists a :: 0 <= a < |all| && all[a].docid == d
    {
      if d == e.docid {
        assert all[0].docid == d;
      } else {
        var a :| 0 <= a < |ev| && ev[a].docid == d;
        assert all[a + 1].docid == d;
      }
    }
  }

  /** A list at `d` moved by one shows what it did from `d + 1` on. */
  lemma NextDrops(l: ListView, d: int)
    requires Ordered(l) && l.current.Some? && l.current.value.docid == d
    ensures Ordered(ListNext(l)) && Keeps(l, ListNext(l), d + 1)
    ensures ListNext(l).current.Some? ==> ListNext(l).current.value.docid > d
  {
    var a := Ahead(l);
    assert a == [l.current.value] + l.rest;
    assert Ahead(ListNext(l)) == a[1..];
    IncreasingSuffix(a, 1);
    DropBelow(a, 1, d + 1);
    if l.rest != [] {
      assert a[1] == l.rest[0] && a[0].docid < a[1].docid;
    }
  }

  /** Lists at or beyond `d`, following `orig` from `d` on, follow it from `d + 1` on
      once `scoreDocument(d)` has moved those at `d`, and are then beyond `d`. */
  lemma AdvancePast(orig: Lists, ls: Lists, d: int)
    requires Follows(orig, ls, d) && Above(ls, d)
    ensures Follows(orig, Advanced(ls, d), d + 1) && Above(Advanced(ls, d), d + 1)
  {
    var r := Advanced(ls, d);
    forall j | 0 <= j < |ls| && ls[j].Some?
      ensures Ordered(r[j].value) && Keeps(orig[j].value, r[j].value, d + 1)
      ensures DocOf(r[j]).Some? ==> DocOf(r[j]).value >= d + 1
    {
      assert r[j] == Step(ls[j], d);
      StepPast(orig[j].value, ls[j].value, d);
    }
  }

  /** One list of `AdvancePast`. */
  lemma StepPast(o: ListView, l: ListView, d: int)
    requires Ordered(l) && Keeps(o, l, d) && (DocOf(Some(l)).Some? ==> DocOf(Some(l)).value >= d)
    ensures var s := Step(Some(l), d).value;
            Ordered(s) && Keeps(o, s, d + 1) && (DocOf(Some(s)).Some? ==> DocOf(Some(s)).value >= d + 1)
  {
    if DocOf(Some(l)) == Some(d) {
      NextDrops(l, d);
    } else if l.current.None? {
      ShowsNothing(l);
    }
  }

  /** Nothing shown lies below `b` when no current posting does. */
  lemma AboveShows(ls: Lists, b: int, j: nat, d: int)
    requires AllOrdered(ls) && Above(ls, b) && j < |ls| && ls[j].Some? && Shows(ls[j].value, d)
    ensures d >= b && DocOf(ls[j]).Some? && d >= DocOf(ls[j]).value
  {
    if ls[j].value.current.None? {
      ShowsNothing(ls[j].value);
    }
    ShowsFirst(ls[j].value, d);
  }

  /** A disjunctive round scores the smallest docid left and asks for none below it. */
  lemma DisjunctiveRound(orig: Lists, ls: Lists, b: int)
    requires IntDocids(ls) && Follows(orig, ls, b) && Above(ls, b) && b >= 0
    ensures var d := NextDoc(false, ls).0;
      (d == -1 ==> forall x :: x >= b ==> !Anywhere(orig, x)) &&
      (d != -1 ==> d >= b && Anywhere(orig, d) && Follows(orig, ls, d) && Above(ls, d) &&
                   forall x :: b <= x < d ==> !Anywhere(orig, x))
  {
    var d := NextDoc(false, ls).0;
    DisjunctiveNext(ls);
    forall x, j | x >= b && 0 <= j < |orig| && orig[j].Some? && Shows(orig[j].value, x)
      ensures d != -1 && x >= d
    {
      assert Keeps(orig[j].value, ls[j].value, b);
      AboveShows(ls, b, j, x);
    }
    if d != -1 {
      var j :| 0 <= j < |ls| && DocOf(ls[j]) == Some(d);
      ShowsCurrent(ls[j].value);
      assert Keeps(orig[j].value, ls[j].value, b);
      FollowsRaise(orig, ls, b, d);
    }
  }

  /** A conjunctive round scores the smallest docid left in every list, asks for none
      below it, and leaves every list at it. */
  lemma ConjunctiveRound(orig: Lists, ls: Lists, b: int)
    requires IntDocids(ls) && NoNulls(ls) && |ls| > 0 && Follows(orig, ls, b) && Above(ls, b) && b >= 0
    ensures var next := NextDoc(true, ls);
      (next.0 == -1 ==> forall x :: x >= b ==> !Common(orig, x)) &&
      (next.0 != -1 ==> next.0 >= b && Common(orig, next.0) && Follows(orig, next.1, next.0) &&
                        Above(next.1, next.0) && forall x :: b <= x < next.0 ==> !Common(orig, x))
  {
    var start := Highest(ls, -1);
    HighestIsGreatest(ls, -1);
    // whatever every list shows lies at or beyond every current posting
    forall x | x >= b && Common(orig, x)
      ensures b <= start <= x
    {
      forall j | 0 <= j < |ls|
        ensures DocOf(ls[j]).Some? && x >= DocOf(ls[j]).value
      {
        assert Keeps(orig[j].value, ls[j].value, b);
        AboveShows(ls, b, j, x);
      }
      assert DocOf(ls[0]).Some?;
      if start != -1 {
        var j :| 0 <= j < |ls| && DocOf(ls[j]) == Some(start);
      }
    }
    if start < b {
      assert DocOf(ls[0]).None?;
    } else {
      FollowsRaise(orig, ls, b, start);
      AlignCommon(orig, ls, start, start, 0);
      AlignMatches(ls, start, 0);
    }
  }

  /** From lists that follow `orig` from `b` on and lie beyond `b`, the documents
      scored are, in increasing order, exactly those from `b` on the query asks for. */
  lemma {:induction false} EvaluationEnumerates(orig: Lists, ls: Lists, isConjunctive: bool, b: int,
                                                idf: string -> Opaque8, score: (Posting, Opaque8) -> real)
    requires NoNulls(ls) && IntDocids(ls) && Follows(orig, ls, b) && Above(ls, b) && b >= 0
    requires isConjunctive ==> |ls| > 0
    ensures Enumerates(Evaluation(ls, isConjunctive, idf, score), d => Wanted(orig, isConjunctive, d), b)
    decreases Weight(ls), 1
  {
    NextDocProgress(isConjunctive, ls);
    var next := NextDoc(isConjunctive, ls);
    if isConjunctive {
      ConjunctiveRound(orig, ls, b);
    } else {
      DisjunctiveRound(orig, ls, b);
    }
    ContinueEnumerates(orig, next.0, next.1, isConjunctive, b, idf, score);
  }

  /** Once `nextDocToProcess` has given `d` (the smallest docid from `b` on asked for,
      or -1 for none) and moved the lists to `ls`, the documents scored are, in
      increasing order, exactly those from `b` on the query asks for. */
  lemma {:induction false} ContinueEnumerates(orig: Lists, d: int, ls: Lists, isConjunctive: bool, b: int,
                                              idf: string -> Opaque8, score: (Posting, Opaque8) -> real)
    requires NoNulls(ls) && IntDocids(ls) && b >= 0
    requires isConjunctive ==> |ls| > 0
    requires d == -1 ==> forall x :: x >= b ==> !Wanted(orig, isConjunctive, x)
    requires d != -1 ==> d >= b && Wanted(orig, isConjunctive, d) && Follows(orig, ls, d) && Above(ls, d) &&
                         (exists j :: 0 <= j < |ls| && DocOf(ls[j]) == Some(d)) &&
                         forall x :: b <= x < d ==> !Wanted(orig, isConjunctive, x)
    ensures Enumerates(Continue(d, ls, isConjunctive, idf, score), x => Wanted(orig, isConjunctive, x), b)
    decreases Weight(ls), 0
  {
    if d != -1 {
      AdvancePast(orig, ls, d);
      var moved := Advanced(ls, d);
      AdvancedWeight(ls, d);
      EvaluationEnumerates(orig, moved, isConjunctive, d + 1, idf, score);
      var e := Scored(ScoreSum(ls, d, idf, score), d);
      EnumeratesCons(e, Evaluation(moved, isConjunctive, idf, score), x => Wanted(orig, isConjunctive, x), b);
    }
  }

  lemma EnumeratesSame(ev: seq<Scored>, w1: int -> bool, w2: int -> bool, b: int)
    requires Enumerates(ev, w1, b) && forall d :: w1(d) == w2(d)
    ensures Enumerates(ev, w2, b)
  {
  }

  /** A list as `openPostingList` leaves it: no current posting yet, and its postings
      in increasing docid order, none negative. */
  predicate Opened(l: ListView)
  {
    l.current.None? && Increasing(l.rest) && forall k :: 0 <= k < |l.rest| ==> l.rest[k].docid >= 0
  }

  /** The documents a query asks for, over the postings of the opened lists: those in
      every list (conjunctive) or in some list. */
  predicate Asked(ls: Lists, isConjunctive: bool, d: int)
  {
    if isConjunctive then forall j :: 0 <= j < |ls| && ls[j].Some? ==> d in Docids(ls[j].value.rest)
    else exists j :: 0 <= j < |ls| && ls[j].Some? && d in Docids(ls[j].value.rest)
  }

  /** After `initialize`, an opened list shows all its postings. */
  lemma InitializedShows(ls: Lists)
    requires NoNulls(ls) && forall j :: 0 <= j < |ls| ==> Opened(ls[j].value)
    ensures Follows(Initialized(ls), Initialized(ls), 0) && Above(Initialized(ls), 0)
    ensures forall j :: 0 <= j < |ls| ==> Ahead(Initialized(ls)[j].value) == ls[j].value.rest
  {
    var init := Initialized(ls);
    forall j | 0 <= j < |ls|
      ensures Ahead(init[j].value) == ls[j].value.rest && Ordered(init[j].value)
      ensures DocOf(init[j]).Some? ==> DocOf(init[j]).value >= 0
    {
      var r := ls[j].value.rest;
      if r != [] {
        assert Ahead(init[j].value) == [r[0]] + r[1..];
      }
    }
  }

  /** `scoreQuery` over opened lists of Java `int` docids scores, in increasing order,
      exactly the docids that every list holds (conjunctive; with at least one list) or
      that some list holds (disjunctive), each once. */
  lemma ScoresAsked(ls: Lists, isConjunctive: bool, idf: string -> Opaque8, score: (Posting, Opaque8) -> real)
    requires NoNulls(ls) && IntDocids(ls) && forall j :: 0 <= j < |ls| ==> Opened(ls[j].value)
    requires isConjunctive ==> |ls| > 0
    ensures Enumerates(Evaluation(Initialized(ls), isConjunctive, idf, score), d => Asked(ls, isConjunctive, d), 0)
  {
    var init := Initialized(ls);
    InitializedShows(ls);
    EvaluationEnumerates(init, init, isConjunctive, 0, idf, score);
    forall d
      ensures Wanted(init, isConjunctive, d) == Asked(ls, isConjunctive, d)
    {
      assert forall j :: 0 <= j < |ls| ==> (Shows(init[j].value, d) <==> d in Docids(ls[j].value.rest));
    }
    EnumeratesSame(Evaluation(init, isConjunctive, idf, score), d => Wanted(init, isConjunctive, d), d => Asked(ls, isConjunctive, d), 0);
  }
}
