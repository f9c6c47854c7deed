/** prioritizeBuilders of buildbot/maria-master.cfg: a comparator that is not antisymmetric, and what a sort
    that goes by its answers makes of it. */
module BuilderOrder {
  import opened Wrappers

  /** A builder with its sort key: 0 for the tarball builder, otherwise the time of its oldest request, or
      nothing when it is idle.  Builders themselves compare in some fixed order, here by number. */
  datatype Entry = Entry(prio: Option<nat>, builder: int)

  function Cmp(a: int, b: int): int
  {
    if a < b then -1 else if a > b then 1 else 0
  }

  function TweakedCmp(a: Entry, b: Entry): int
  {
    if a.prio == Some(0) || b.prio.None? then -1
    else if b.prio == Some(0) || a.prio.None? then 1
    else if a.prio != b.prio then Cmp(a.prio.value, b.prio.value)
    else Cmp(a.builder, b.builder)
  }

  /** All that the sort asks of the comparator. */
  predicate Less(a: Entry, b: Entry)
  {
    TweakedCmp(a, b) < 0
  }

  /** The wanted order: the tarball builder, then the others by time and, at the same time, in the order
      of builders, then the idle ones. */
  predicate NotAfter(a: Entry, b: Entry)
  {
    match (a.prio, b.prio)
    case (_, None) => true
    case (None, Some(_)) => false
    case (Some(s), Some(t)) => s < t || (s == t && (s == 0 || a.builder <= b.builder))
  }

  /** The comparator contradicts itself exactly on two idle entries and on two entries with key 0; yet
      either answer it gives is right about the wanted order. */
  lemma AnswersAreSafe(a: Entry, b: Entry)
    ensures Less(a, b) && Less(b, a) <==> a.prio == b.prio && (a.prio.None? || a.prio == Some(0))
    ensures if Less(a, b) then NotAfter(a, b) else NotAfter(b, a)
  {
  }

  ghost predicate Ordered(xs: seq<Entry>)
  {
    forall i, j :: 0 <= i < j < |xs| ==> NotAfter(xs[i], xs[j])
  }

  // ----- Ascending in a transitive relation

  type Relation = (Entry, Entry) -> bool

  ghost predicate Transitive(R: Relation)
  {
    forall a, b, c :: R(a, b) && R(b, c) ==> R(a, c)
  }

  ghost predicate Ascends(R: Relation, xs: seq<Entry>)
  {
    forall i, j :: 0 <= i < j < |xs| ==> R(xs[i], xs[j])
  }

  lemma {:induction false} StepsAscend(R: Relation, xs: seq<Entry>)
    requires Transitive(R) && forall i :: 1 <= i < |xs| ==> R(xs[i - 1], xs[i])
    ensures Ascends(R, xs)
  {
    if xs != [] {
      var init := xs[..|xs| - 1];
      StepsAscend(R, init);
      forall i, j | 0 <= i < j < |xs| ensures R(xs[i], xs[j]) {
        if j < |xs| - 1 {
          assert R(init[i], init[j]);
        } else if i < j - 1 {
          assert R(init[i], init[j - 1]) && R(xs[j - 1], xs[j]);
        }
      }
    }
  }

  // ----- Any sort that goes by the answers

  /** The comparisons asked for, as pairs (x, y) of arguments, have put a directly before b. */
  predicate Answered(asked: set<(Entry, Entry)>, a: Entry, b: Entry)
  {
    ((a, b) in asked && Less(a, b)) || ((b, a) in asked && !Less(b, a))
  }

  /** A chain of answers from the first entry to the last. */
  predicate IsChain(asked: set<(Entry, Entry)>, chain: seq<Entry>)
  {
    chain != [] && forall i :: 0 <= i < |chain| - 1 ==> Answered(asked, chain[i], chain[i + 1])
  }

  /** All a comparison sort can know: the answers it was given, and what they imply together. */
  ghost predicate Linked(asked: set<(Entry, Entry)>, a: Entry, b: Entry)
  {
    exists chain :: |chain| >= 2 && IsChain(asked, chain) && chain[0] == a && chain[|chain| - 1] == b
  }

  lemma {:induction false} ChainIsInOrder(asked: set<(Entry, Entry)>, chain: seq<Entry>)
    requires |chain| >= 2 && IsChain(asked, chain)
    ensures NotAfter(chain[0], chain[|chain| - 1])
  {
    var n := |chain|;
    AnswersAreSafe(chain[n - 2], chain[n - 1]);
    AnswersAreSafe(chain[n - 1], chain[n - 2]);
    assert Answered(asked, chain[n - 2], chain[n - 2 + 1]);
    if n > 2 {
      ChainIsInOrder(asked, chain[..n - 1]);
    }
  }

  lemma LinkIsInOrder(asked: set<(Entry, Entry)>, a: Entry, b: Entry)
    requires Linked(asked, a, b)
    ensures NotAfter(a, b)
  {
    var chain :| |chain| >= 2 && IsChain(asked, chain) && chain[0] == a && chain[|chain| - 1] == b;
    ChainIsInOrder(asked, chain);
  }

  /** An answer is a link, and links can be put together. */
  lemma AnswerLinks(asked: set<(Entry, Entry)>, a: Entry, b: Entry)
    requires Answered(asked, a, b)
    ensures Linked(asked, a, b)
  {
    assert IsChain(asked, [a, b]);
  }

  lemma LinksJoin(asked: set<(Entry, Entry)>, a: Entry, b: Entry, c: Entry)
    requires Linked(asked, a, b) && Linked(asked, b, c)
    ensures Linked(asked, a, c)
  {
    var p :| |p| >= 2 && IsChain(asked, p) && p[0] == a && p[|p| - 1] == b;
    var q :| |q| >= 2 && IsChain(asked, q) && q[0] == b && q[|q| - 1] == c;
    ChainsJoin(asked, p, q);
  }

  lemma ChainsJoin(asked: set<(Entry, Entry)>, p: seq<Entry>, q: seq<Entry>)
    requires |p| >= 2 && |q| >= 2 && IsChain(asked, p) && IsChain(asked, q) && p[|p| - 1] == q[0]
    ensures Linked(asked, p[0], q[|q| - 1])
  {
    var chain, n := p + q[1..], |p| - 1;
    forall i | 0 <= i < |chain| - 1 ensures Answered(asked, chain[i], chain[i + 1]) {
      if i < n {
        assert Answered(asked, p[i], p[i + 1]);
      } else {
        assert Answered(asked, q[i - n], q[i - n + 1]);
      }
    }
    assert IsChain(asked, chain) && |chain| >= 2;
  }

  /** Whatever algorithm asks whatever comparisons, galloping or not: a permutation in which every two
      neighbours are linked by answers is in the wanted order, although the answers may contradict each
      other. */
  lemma LinkedIsOrdered(asked: set<(Entry, Entry)>, ys: seq<Entry>)
    requires forall i :: 1 <= i < |ys| ==> Linked(asked, ys[i - 1], ys[i])
    ensures Ordered(ys)
  {
    forall i | 1 <= i < |ys| ensures NotAfter(ys[i - 1], ys[i]) {
      LinkIsInOrder(asked, ys[i - 1], ys[i]);
    }
    StepsAscend(NotAfter, ys);
  }

  /** So such a sort too puts the tarball builder first and the idle builders last. */
  lemma LinkedTarballFirstIdleLast(asked: set<(Entry, Entry)>, xs: seq<Entry>, ys: seq<Entry>, tarball: Entry)
    requires multiset(ys) == multiset(xs) && forall i :: 1 <= i < |ys| ==> Linked(asked, ys[i - 1], ys[i])
    requires tarball in xs && tarball.prio == Some(0)
    requires forall x :: x in xs && x.prio == Some(0) ==> x == tarball
    ensures ys != [] && ys[0] == tarball
    ensures forall i, j :: 0 <= i < j < |ys| && ys[i].prio.None? ==> ys[j].prio.None?
  {
    LinkedIsOrdered(asked, ys);
    ShapeOfOrdered(xs, ys, tarball);
  }

  /** Between the two the builders stand by the time of their oldest request, those of equal time in their own
      order. */
  lemma OrderedByTime(ys: seq<Entry>, i: int, j: int)
    requires Ordered(ys) && 0 <= i < j < |ys|
    requires ys[i].prio.Some? && ys[j].prio.Some? && ys[i].prio.value > 0 && ys[j].prio.value > 0
    ensures ys[i].prio.value <= ys[j].prio.value
    ensures ys[i].prio.value == ys[j].prio.value ==> ys[i].builder <= ys[j].builder
  {
    assert NotAfter(ys[i], ys[j]);
  }

  lemma ShapeOfOrdered(xs: seq<Entry>, ys: seq<Entry>, tarball: Entry)
    requires Ordered(ys) && multiset(ys) == multiset(xs)
    requires tarball in xs && tarball.prio == Some(0)
    requires forall x :: x in xs && x.prio == Some(0) ==> x == tarball
    ensures ys != [] && ys[0] == tarball
    ensures forall i, j :: 0 <= i < j < |ys| && ys[i].prio.None? ==> ys[j].prio.None?
  {
    assert tarball in multiset(xs);
    assert tarball in ys;
    var k :| 0 <= k < |ys| && ys[k] == tarball;
    assert ys[0] in multiset(ys);
    assert ys[0] in xs;
    assert k > 0 ==> NotAfter(ys[0], ys[k]);
    forall i, j | 0 <= i < j < |ys| && ys[i].prio.None? ensures ys[j].prio.None? {
      assert NotAfter(ys[i], ys[j]);
    }
  }
}
