/** The sort that prioritizeBuilders of buildbot/maria-master.cfg calls.  As Python's does, it finds runs,
    extends short ones by binary insertion, and merges runs from either end, entry by entry or galloping.
    Beside each step stands what it asks the comparator. */
module BuilderSort {
  import opened BuilderOrder
  import opened Wrappers

  type Questions = set<(Entry, Entry)>

  // ----- Runs

  /** Where the run at the start of xs ends, going on from n; a descending run descends at every step. */
  function RunEnd(xs: seq<Entry>, n: nat, descending: bool): (e: nat)
    requires 1 <= n <= |xs|
    ensures n <= e <= |xs|
    ensures forall i :: n <= i < e ==> Less(xs[i], xs[i - 1]) == descending
    decreases |xs| - n
  {
    if n < |xs| && Less(xs[n], xs[n - 1]) == descending then RunEnd(xs, n + 1, descending) else n
  }

  function Reverse(xs: seq<Entry>): (r: seq<Entry>)
    ensures |r| == |xs| && forall i :: 0 <= i < |xs| ==> r[i] == xs[|xs| - 1 - i]
    ensures multiset(r) == multiset(xs)
  {
    if xs == [] then []
    else
      assert xs == [xs[0]] + xs[1..];
      Reverse(xs[1..]) + [xs[0]]
  }

  /** The initial run, turned round if it descends. */
  function FirstRun(xs: seq<Entry>): (r: seq<Entry>)
    ensures |r| <= |xs| && multiset(r) == multiset(xs[..|r|])
  {
    if |xs| < 2 then
      assert xs[..|xs|] == xs;
      xs
    else if Less(xs[1], xs[0]) then Reverse(xs[..RunEnd(xs, 1, true)])
    else xs[..RunEnd(xs, 1, false)]
  }

  function RunAsks(xs: seq<Entry>): Questions
  {
    set i | 1 <= i < |xs| && i <= |FirstRun(xs)| :: RunQuestion(xs, i)
  }

  function RunQuestion(xs: seq<Entry>, i: int): (Entry, Entry)
    requires 1 <= i < |xs|
  {
    (xs[i], xs[i - 1])
  }

  // ----- Binary insertion

  /** The binary search for the place of x among xs[l..r]. */
  function Place(xs: seq<Entry>, x: Entry, l: nat, r: nat): (p: nat)
    requires l <= r <= |xs|
    ensures l <= p <= r
    decreases r - l
  {
    if l == r then l
    else
      var m := l + (r - l) / 2;
      if Less(x, xs[m]) then Place(xs, x, l, m) else Place(xs, x, m + 1, r)
  }

  function PlaceAsks(xs: seq<Entry>, x: Entry, l: nat, r: nat): Questions
    requires l <= r <= |xs|
    decreases r - l
  {
    if l == r then {}
    else
      var m := l + (r - l) / 2;
      {(x, xs[m])} + if Less(x, xs[m]) then PlaceAsks(xs, x, l, m) else PlaceAsks(xs, x, m + 1, r)
  }

  function Insert(xs: seq<Entry>, x: Entry): (r: seq<Entry>)
    ensures multiset(r) == multiset(xs) + multiset{x}
  {
    var p := Place(xs, x, 0, |xs|);
    assert xs == xs[..p] + xs[p..];
    xs[..p] + [x] + xs[p..]
  }

  function InsertAll(xs: seq<Entry>, more: seq<Entry>): (r: seq<Entry>)
    ensures multiset(r) == multiset(xs) + multiset(more)
    decreases |more|
  {
    if more == [] then xs
    else
      assert more == [more[0]] + more[1..];
      InsertAll(Insert(xs, more[0]), more[1..])
  }

  function InsertAllAsks(xs: seq<Entry>, more: seq<Entry>): Questions
    decreases |more|
  {
    if more == [] then {}
    else PlaceAsks(xs, more[0], 0, |xs|) + InsertAllAsks(Insert(xs, more[0]), more[1..])
  }

  // ----- Merging

  /** What one move of a merge takes off its two runs: n entries from an end of one of them.  Comparing the
      heads or the last entries takes one, galloping takes more. */
  datatype Cut = FrontOfLeft(n: nat) | FrontOfRight(n: nat) | BackOfLeft(n: nat) | BackOfRight(n: nat)

  predicate Fits(c: Cut, xs: seq<Entry>, ys: seq<Entry>)
  {
    1 <= c.n <= if c.FrontOfLeft? || c.BackOfLeft? then |xs| else |ys|
  }

  /** The one comparison, of an entry of the right run with one of the left, that a cut depends on: of the
      entry cut off that is nearest to the rest of its run, with the end of the other run. */
  function Question(c: Cut, xs: seq<Entry>, ys: seq<Entry>): (Entry, Entry)
    requires xs != [] && ys != [] && Fits(c, xs, ys)
  {
    match c
    case FrontOfLeft(n) => (ys[0], xs[n - 1])
    case FrontOfRight(n) => (ys[n - 1], xs[0])
    case BackOfLeft(n) => (ys[|ys| - 1], xs[|xs| - n])
    case BackOfRight(n) => (ys[|ys| - n], xs[|xs| - 1])
  }

  /** The answer allows the cut. */
  predicate Justified(c: Cut, xs: seq<Entry>, ys: seq<Entry>)
    requires xs != [] && ys != []
  {
    Fits(c, xs, ys)
    && var q := Question(c, xs, ys); Less(q.0, q.1) == (c.FrontOfRight? || c.BackOfLeft?)
  }

  /** The next cut: the one planned if it is justified, otherwise the heads are compared. */
  function NextCut(cuts: seq<Cut>, xs: seq<Entry>, ys: seq<Entry>): (c: Cut)
    requires xs != [] && ys != []
    ensures Justified(c, xs, ys)
  {
    if cuts != [] && Justified(cuts[0], xs, ys) then cuts[0]
    else if Less(ys[0], xs[0]) then FrontOfRight(1)
    else FrontOfLeft(1)
  }

  function Later(cuts: seq<Cut>): seq<Cut>
  {
    if cuts == [] then [] else cuts[1..]
  }

  function LeftRest(c: Cut, xs: seq<Entry>): (r: seq<Entry>)
    requires (c.FrontOfLeft? || c.BackOfLeft?) ==> c.n <= |xs|
  {
    match c
    case FrontOfLeft(n) => xs[n..]
    case BackOfLeft(n) => xs[..|xs| - n]
    case _ => xs
  }

  function RightRest(c: Cut, ys: seq<Entry>): (r: seq<Entry>)
    requires (c.FrontOfRight? || c.BackOfRight?) ==> c.n <= |ys|
  {
    match c
    case FrontOfRight(n) => ys[n..]
    case BackOfRight(n) => ys[..|ys| - n]
    case _ => ys
  }

  /** What is put before the merge of the rests, and what behind it. */
  function Before(c: Cut, xs: seq<Entry>, ys: seq<Entry>): seq<Entry>
    requires Fits(c, xs, ys)
  {
    match c
    case FrontOfLeft(n) => xs[..n]
    case FrontOfRight(n) => ys[..n]
    case _ => []
  }

  function Behind(c: Cut, xs: seq<Entry>, ys: seq<Entry>): seq<Entry>
    requires Fits(c, xs, ys)
  {
    match c
    case BackOfLeft(n) => xs[|xs| - n..]
    case BackOfRight(n) => ys[|ys| - n..]
    case _ => []
  }

  function Merge(cuts: seq<Cut>, xs: seq<Entry>, ys: seq<Entry>): (r: seq<Entry>)
    decreases |xs| + |ys|
  {
    if xs == [] then ys
    else if ys == [] then xs
    else
      var c := NextCut(cuts, xs, ys);
      Before(c, xs, ys) + Merge(Later(cuts), LeftRest(c, xs), RightRest(c, ys)) + Behind(c, xs, ys)
  }

  function MergeAsks(cuts: seq<Cut>, xs: seq<Entry>, ys: seq<Entry>): Questions
    decreases |xs| + |ys|
  {
    if xs == [] || ys == [] then {}
    else
      var c := NextCut(cuts, xs, ys);
      {Question(c, xs, ys)} + MergeAsks(Later(cuts), LeftRest(c, xs), RightRest(c, ys))
  }

  lemma Split(xs: seq<Entry>, n: nat)
    requires n <= |xs|
    ensures multiset(xs) == multiset(xs[..n]) + multiset(xs[n..])
  {
    assert xs == xs[..n] + xs[n..];
  }

  lemma CutKeepsAll(c: Cut, xs: seq<Entry>, ys: seq<Entry>)
    requires Fits(c, xs, ys)
    ensures multiset(Before(c, xs, ys)) + multiset(LeftRest(c, xs)) + multiset(RightRest(c, ys)) + multiset(Behind(c, xs, ys))
            == multiset(xs) + multiset(ys)
  {
    match c
    case FrontOfLeft(n) =>
      Split(xs, n);
      Sums(multiset(xs), multiset(xs[..n]), multiset(xs[n..]), multiset(ys));
    case FrontOfRight(n) =>
      Split(ys, n);
      Sums(multiset(ys), multiset(ys[..n]), multiset(ys[n..]), multiset(xs));
    case BackOfLeft(n) =>
      Split(xs, |xs| - n);
      Sums(multiset(xs), multiset(xs[..|xs| - n]), multiset(xs[|xs| - n..]), multiset(ys));
    case BackOfRight(n) =>
      Split(ys, |ys| - n);
      Sums(multiset(ys), multiset(ys[..|ys| - n]), multiset(ys[|ys| - n..]), multiset(xs));
  }

  lemma Sums(all: multiset<Entry>, a: multiset<Entry>, b: multiset<Entry>, other: multiset<Entry>)
    requires all == a + b
    ensures a + b + other + multiset{} == all + other && a + other + b + multiset{} == other + all
    ensures multiset{} + a + other + b == all + other && multiset{} + other + a + b == other + all
  {
  }

  lemma ThreeParts(a: seq<Entry>, b: seq<Entry>, c: seq<Entry>)
    ensures multiset(a + b + c) == multiset(a) + multiset(b) + multiset(c)
  {
  }

  lemma {:induction false} MergeKeepsAll(cuts: seq<Cut>, xs: seq<Entry>, ys: seq<Entry>)
    ensures multiset(Merge(cuts, xs, ys)) == multiset(xs) + multiset(ys)
    decreases |xs| + |ys|
  {
    if xs != [] && ys != [] {
      var c := NextCut(cuts, xs, ys);
      var later, left, right := Later(cuts), LeftRest(c, xs), RightRest(c, ys);
      MergeKeepsAll(later, left, right);
      CutKeepsAll(c, xs, ys);
      ThreeParts(Before(c, xs, ys), Merge(later, left, right), Behind(c, xs, ys));
    }
  }

  // ----- The sort

  /** Which stretches are sorted as runs, in which order runs are merged, and by which cuts. */
  datatype Plan = Run | Merged(split: nat, cuts: seq<Cut>, left: Plan, right: Plan)

  function Clip(n: nat, m: nat): (r: nat)
    ensures r <= m
  {
    if n <= m then n else m
  }

  function Sort(plan: Plan, xs: seq<Entry>): seq<Entry>
  {
    match plan
    case Run => InsertAll(FirstRun(xs), xs[|FirstRun(xs)|..])
    case Merged(split, cuts, left, right) =>
      var n := Clip(split, |xs|);
      Merge(cuts, Sort(left, xs[..n]), Sort(right, xs[n..]))
  }

  /** The comparisons the sort goes by. */
  function SortAsks(plan: Plan, xs: seq<Entry>): Questions
  {
    match plan
    case Run => RunAsks(xs) + InsertAllAsks(FirstRun(xs), xs[|FirstRun(xs)|..])
    case Merged(split, cuts, left, right) =>
      var n := Clip(split, |xs|);
      SortAsks(left, xs[..n]) + SortAsks(right, xs[n..]) + MergeAsks(cuts, Sort(left, xs[..n]), Sort(right, xs[n..]))
  }

  lemma {:induction false} SortKeepsAll(plan: Plan, xs: seq<Entry>)
    ensures multiset(Sort(plan, xs)) == multiset(xs)
  {
    match plan
    case Run =>
      var n := |FirstRun(xs)|;
      assert xs == xs[..n] + xs[n..];
    case Merged(split, cuts, left, right) =>
      var n := Clip(split, |xs|);
      assert xs == xs[..n] + xs[n..];
      SortKeepsAll(left, xs[..n]);
      SortKeepsAll(right, xs[n..]);
      MergeKeepsAll(cuts, Sort(left, xs[..n]), Sort(right, xs[n..]));
  }

  // ----- The result goes by the answers: in every transitive relation that contains them it ascends

  ghost predicate Contains(R: Relation, asked: Questions)
  {
    forall a, b :: Answered(asked, a, b) ==> R(a, b)
  }

  ghost predicate AllBefore(R: Relation, xs: seq<Entry>, ys: seq<Entry>)
  {
    forall x, y :: x in xs && y in ys ==> R(x, y)
  }

  lemma Fewer(R: Relation, asked: Questions, fewer: Questions)
    requires Contains(R, asked) && fewer <= asked
    ensures Contains(R, fewer)
  {
    forall a, b | Answered(fewer, a, b) ensures R(a, b) {
      assert Answered(asked, a, b);
    }
  }

  lemma AnswerCounts(R: Relation, asked: Questions, a: Entry, b: Entry)
    requires Contains(R, asked) && (a, b) in asked
    ensures if Less(a, b) then R(a, b) else R(b, a)
  {
    if Less(a, b) {
      assert Answered(asked, a, b);
    } else {
      assert Answered(asked, b, a);
    }
  }

  lemma AscendsTogether(R: Relation, xs: seq<Entry>, ys: seq<Entry>)
    requires Ascends(R, xs) && Ascends(R, ys) && AllBefore(R, xs, ys)
    ensures Ascends(R, xs + ys)
  {
  }

  /** If one entry of xs is before one of ys, so is everything up to the one before everything from the
      other on. */
  lemma Across(R: Relation, xs: seq<Entry>, m: nat, ys: seq<Entry>, n: nat)
    requires Transitive(R) && Ascends(R, xs) && Ascends(R, ys)
    requires m < |xs| && n < |ys| && R(xs[m], ys[n])
    ensures AllBefore(R, xs[..m + 1], ys[n..])
  {
    forall x, y | x in xs[..m + 1] && y in ys[n..] ensures R(x, y) {
      var i :| 0 <= i <= m && xs[i] == x;
      var j :| n <= j < |ys| && ys[j] == y;
      assert i < m ==> R(xs[i], xs[m]);
      assert n < j ==> R(ys[n], ys[j]);
      assert R(x, ys[n]);
    }
  }

  /** The two parts of an ascending sequence. */
  lemma Parts(R: Relation, xs: seq<Entry>, n: nat)
    requires Ascends(R, xs) && n <= |xs|
    ensures Ascends(R, xs[..n]) && Ascends(R, xs[n..]) && AllBefore(R, xs[..n], xs[n..])
  {
  }

  lemma FirstRunAscends(R: Relation, xs: seq<Entry>)
    requires Transitive(R) && Contains(R, RunAsks(xs))
    ensures Ascends(R, FirstRun(xs))
  {
    var run := FirstRun(xs);
    if |xs| >= 2 {
      forall i | 1 <= i < |run| ensures if Less(xs[i], xs[i - 1]) then R(xs[i], xs[i - 1]) else R(xs[i - 1], xs[i]) {
        assert RunQuestion(xs, i) in RunAsks(xs);
        AnswerCounts(R, RunAsks(xs), xs[i], xs[i - 1]);
      }
    }
    StepsAscend(R, run);
  }

  /** Everything up to l is before x, and x before everything from r on. */
  ghost predicate Between(R: Relation, xs: seq<Entry>, x: Entry, l: nat, r: nat)
  {
    (forall k :: 0 <= k < l && k < |xs| ==> R(xs[k], x)) && forall k :: r <= k < |xs| ==> R(x, xs[k])
  }

  lemma {:induction false} PlaceIsRight(R: Relation, xs: seq<Entry>, x: Entry, l: nat, r: nat)
    requires Transitive(R) && Ascends(R, xs) && l <= r <= |xs| && Contains(R, PlaceAsks(xs, x, l, r))
    requires Between(R, xs, x, l, r)
    ensures var p := Place(xs, x, l, r); Between(R, xs, x, p, p)
    decreases r - l
  {
    if l < r {
      var m := l + (r - l) / 2;
      var asked := PlaceAsks(xs, x, l, r);
      AnswerPlaces(R, asked, xs, x, m);
      if Less(x, xs[m]) {
        Fewer(R, asked, PlaceAsks(xs, x, l, m));
        PlaceIsRight(R, xs, x, l, m);
      } else {
        Fewer(R, asked, PlaceAsks(xs, x, m + 1, r));
        PlaceIsRight(R, xs, x, m + 1, r);
      }
    }
  }

  lemma AnswerPlaces(R: Relation, asked: Questions, xs: seq<Entry>, x: Entry, m: nat)
    requires Transitive(R) && Ascends(R, xs) && m < |xs| && Contains(R, asked) && (x, xs[m]) in asked
    ensures if Less(x, xs[m]) then Between(R, xs, x, 0, m) else Between(R, xs, x, m + 1, |xs|)
  {
    AnswerCounts(R, asked, x, xs[m]);
    assert forall k :: m < k < |xs| ==> R(xs[m], xs[k]);
    assert forall k :: 0 <= k < m ==> R(xs[k], xs[m]);
  }

  lemma InsertAscends(R: Relation, xs: seq<Entry>, x: Entry)
    requires Transitive(R) && Ascends(R, xs) && Contains(R, PlaceAsks(xs, x, 0, |xs|))
    ensures Ascends(R, Insert(xs, x))
  {
    var p := Place(xs, x, 0, |xs|);
    PlaceIsRight(R, xs, x, 0, |xs|);
    Parts(R, xs, p);
    AscendsTogether(R, xs[..p], [x]);
    AscendsTogether(R, xs[..p] + [x], xs[p..]);
  }

  lemma {:induction false} InsertAllAscends(R: Relation, xs: seq<Entry>, more: seq<Entry>)
    requires Transitive(R) && Ascends(R, xs) && Contains(R, InsertAllAsks(xs, more))
    ensures Ascends(R, InsertAll(xs, more))
    decreases |more|
  {
    if more != [] {
      var asked := InsertAllAsks(xs, more);
      Fewer(R, asked, PlaceAsks(xs, more[0], 0, |xs|));
      InsertAscends(R, xs, more[0]);
      Fewer(R, asked, InsertAllAsks(Insert(xs, more[0]), more[1..]));
      InsertAllAscends(R, Insert(xs, more[0]), more[1..]);
    }
  }

  /** What a justified cut puts in front may be there, and likewise behind; the runs left over ascend. */
  lemma CutIsRight(R: Relation, c: Cut, xs: seq<Entry>, ys: seq<Entry>)
    requires Transitive(R) && Ascends(R, xs) && Ascends(R, ys) && xs != [] && ys != []
    requires Justified(c, xs, ys) && Contains(R, {Question(c, xs, ys)})
    ensures Ascends(R, Before(c, xs, ys)) && Ascends(R, Behind(c, xs, ys))
    ensures Ascends(R, LeftRest(c, xs)) && Ascends(R, RightRest(c, ys))
    ensures AllBefore(R, Before(c, xs, ys), LeftRest(c, xs)) && AllBefore(R, Before(c, xs, ys), RightRest(c, ys))
    ensures AllBefore(R, LeftRest(c, xs), Behind(c, xs, ys)) && AllBefore(R, RightRest(c, ys), Behind(c, xs, ys))
    ensures Before(c, xs, ys) == [] || Behind(c, xs, ys) == []
  {
    var q := Question(c, xs, ys);
    AnswerCounts(R, {q}, q.0, q.1);
    match c
    case FrontOfLeft(n) =>
      Parts(R, xs, n);
      Across(R, xs, n - 1, ys, 0);
      assert ys[0..] == ys;
    case FrontOfRight(n) =>
      Parts(R, ys, n);
      Across(R, ys, n - 1, xs, 0);
      assert xs[0..] == xs;
    case BackOfLeft(n) =>
      Parts(R, xs, |xs| - n);
      Across(R, ys, |ys| - 1, xs, |xs| - n);
      assert ys[..|ys|] == ys;
    case BackOfRight(n) =>
      Parts(R, ys, |ys| - n);
      Across(R, xs, |xs| - 1, ys, |ys| - n);
      assert xs[..|xs|] == xs;
  }

  lemma OfMerge(R: Relation, cuts: seq<Cut>, xs: seq<Entry>, ys: seq<Entry>, zs: seq<Entry>)
    ensures AllBefore(R, zs, xs) && AllBefore(R, zs, ys) ==> AllBefore(R, zs, Merge(cuts, xs, ys))
    ensures AllBefore(R, xs, zs) && AllBefore(R, ys, zs) ==> AllBefore(R, Merge(cuts, xs, ys), zs)
  {
    MergeKeepsAll(cuts, xs, ys);
    forall z | z in Merge(cuts, xs, ys) ensures z in xs || z in ys {
      assert z in multiset(Merge(cuts, xs, ys));
    }
  }

  lemma {:induction false} MergeAscends(R: Relation, cuts: seq<Cut>, xs: seq<Entry>, ys: seq<Entry>)
    requires Transitive(R) && Ascends(R, xs) && Ascends(R, ys) && Contains(R, MergeAsks(cuts, xs, ys))
    ensures Ascends(R, Merge(cuts, xs, ys))
    decreases |xs| + |ys|
  {
    if xs != [] && ys != [] {
      var c := NextCut(cuts, xs, ys);
      var later, left, right := Later(cuts), LeftRest(c, xs), RightRest(c, ys);
      Fewer(R, MergeAsks(cuts, xs, ys), {Question(c, xs, ys)});
      CutIsRight(R, c, xs, ys);
      Fewer(R, MergeAsks(cuts, xs, ys), MergeAsks(later, left, right));
      MergeAscends(R, later, left, right);
      OfMerge(R, later, left, right, Before(c, xs, ys));
      OfMerge(R, later, left, right, Behind(c, xs, ys));
      AscendsTogether(R, Before(c, xs, ys), Merge(later, left, right));
      AscendsTogether(R, Before(c, xs, ys) + Merge(later, left, right), Behind(c, xs, ys));
    }
  }

  lemma {:induction false} SortAscends(R: Relation, plan: Plan, xs: seq<Entry>)
    requires Transitive(R) && Contains(R, SortAsks(plan, xs))
    ensures Ascends(R, Sort(plan, xs))
  {
    var asked := SortAsks(plan, xs);
    match plan
    case Run =>
      var run := FirstRun(xs);
      Fewer(R, asked, RunAsks(xs));
      FirstRunAscends(R, xs);
      Fewer(R, asked, InsertAllAsks(run, xs[|run|..]));
      InsertAllAscends(R, run, xs[|run|..]);
    case Merged(split, cuts, left, right) =>
      var n := Clip(split, |xs|);
      var a, b := Sort(left, xs[..n]), Sort(right, xs[n..]);
      Fewer(R, asked, SortAsks(left, xs[..n]));
      SortAscends(R, left, xs[..n]);
      Fewer(R, asked, SortAsks(right, xs[n..]));
      SortAscends(R, right, xs[n..]);
      Fewer(R, asked, MergeAsks(cuts, a, b));
      MergeAscends(R, cuts, a, b);
  }

  // ----- What that means

  /** Every two neighbours of the result, and even every two entries, are linked by answers the sort was
      given, on whichever end it merges and wherever it gallops. */
  lemma SortIsLinked(plan: Plan, xs: seq<Entry>)
    ensures var ys := Sort(plan, xs);
            forall i, j :: 0 <= i < j < |ys| ==> Linked(SortAsks(plan, xs), ys[i], ys[j])
  {
    var asked := SortAsks(plan, xs);
    var R := (a, b) => Linked(asked, a, b);
    forall a, b, c | R(a, b) && R(b, c) ensures R(a, c) {
      LinksJoin(asked, a, b, c);
    }
    forall a, b | Answered(asked, a, b) ensures R(a, b) {
      AnswerLinks(asked, a, b);
    }
    SortAscends(R, plan, xs);
    var ys := Sort(plan, xs);
    forall i, j | 0 <= i < j < |ys| ensures Linked(asked, ys[i], ys[j]) {
      assert R(ys[i], ys[j]);
    }
  }

  /** For every list of builders and every way of merging, the sort delivers the same builders, in the
      wanted order, although the comparator is no order. */
  lemma SortIsRight(plan: Plan, xs: seq<Entry>)
    ensures Ordered(Sort(plan, xs)) && multiset(Sort(plan, xs)) == multiset(xs)
  {
    SortKeepsAll(plan, xs);
    SortIsLinked(plan, xs);
    LinkedIsOrdered(SortAsks(plan, xs), Sort(plan, xs));
  }

  /** In particular the tarball builder, alone with key 0, comes out first, and an idle builder is followed
      by idle builders only. */
  lemma TarballFirstIdleLast(plan: Plan, xs: seq<Entry>, tarball: Entry)
    requires tarball in xs && tarball.prio == Some(0)
    requires forall x :: x in xs && x.prio == Some(0) ==> x == tarball
    ensures Sort(plan, xs) != [] && Sort(plan, xs)[0] == tarball
    ensures forall i, j :: 0 <= i < j < |Sort(plan, xs)| && Sort(plan, xs)[i].prio.None? ==> Sort(plan, xs)[j].prio.None?
  {
    SortKeepsAll(plan, xs);
    SortIsLinked(plan, xs);
    LinkedTarballFirstIdleLast(SortAsks(plan, xs), xs, Sort(plan, xs), tarball);
  }

  /** The others come out by the time of their oldest request, those of equal time in their own order. */
  lemma OldestRequestFirst(plan: Plan, xs: seq<Entry>, i: int, j: int)
    requires 0 <= i < j < |Sort(plan, xs)|
    requires Sort(plan, xs)[i].prio.Some? && Sort(plan, xs)[j].prio.Some?
    requires Sort(plan, xs)[i].prio.value > 0 && Sort(plan, xs)[j].prio.value > 0
    ensures Sort(plan, xs)[i].prio.value <= Sort(plan, xs)[j].prio.value
    ensures Sort(plan, xs)[i].prio.value == Sort(plan, xs)[j].prio.value ==>
              Sort(plan, xs)[i].builder <= Sort(plan, xs)[j].builder
  {
    SortIsRight(plan, xs);
    OrderedByTime(Sort(plan, xs), i, j);
  }
}
