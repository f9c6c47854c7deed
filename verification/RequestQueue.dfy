/** A queue of build requests out of which always the first one of greatest priority is taken. */
module RequestQueue {
  import opened Wrappers

  /** Position i holds the first of the requests of greatest priority. */
  predicate IsPick<T>(prio: T -> int, q: seq<T>, i: int)
  {
    && 0 <= i < |q|
    && (forall k :: 0 <= k < |q| ==> prio(q[k]) <= prio(q[i]))
    && (forall k :: 0 <= k < i ==> prio(q[k]) < prio(q[i]))
  }

  datatype Action<T> = Arrive(request: T) | Pick

  /** What is waiting, in order of arrival, and what was served, in order of service. */
  datatype Queue<T> = Queue(waiting: seq<T>, served: seq<T>)

  function Without<T>(q: seq<T>, i: int): seq<T>
    requires 0 <= i < |q|
  {
    q[..i] + q[i + 1..]
  }

  ghost predicate Step<T>(prio: T -> int, s: Queue<T>, a: Action<T>, t: Queue<T>)
  {
    match a
    case Arrive(r) => t == Queue(s.waiting + [r], s.served)
    case Pick =>
      if s.waiting == [] then t == s
      else exists i :: IsPick(prio, s.waiting, i) && t == Queue(Without(s.waiting, i), s.served + [s.waiting[i]])
  }

  ghost predicate StepAt<T>(prio: T -> int, actions: seq<Action<T>>, ss: seq<Queue<T>>, i: int)
  {
    0 <= i < |actions| && |ss| == |actions| + 1 && Step(prio, ss[i], actions[i], ss[i + 1])
  }

  ghost predicate IsRun<T>(prio: T -> int, actions: seq<Action<T>>, ss: seq<Queue<T>>)
  {
    |ss| == |actions| + 1 && forall i :: 0 <= i < |actions| ==> StepAt(prio, actions, ss, i)
  }

  function ArrivedBy<T>(a: Action<T>): seq<T>
  {
    match a case Arrive(r) => [r] case Pick => []
  }

  function Arrivals<T>(actions: seq<Action<T>>): seq<T>
  {
    if actions == [] then [] else Arrivals(actions[..|actions| - 1]) + ArrivedBy(actions[|actions| - 1])
  }

  function Picks<T>(actions: seq<Action<T>>): nat
  {
    if actions == [] then 0 else Picks(actions[..|actions| - 1]) + if actions[|actions| - 1].Pick? then 1 else 0
  }

  lemma OneMore<T>(actions: seq<Action<T>>, n: nat)
    requires 0 < n <= |actions|
    ensures Arrivals(actions[..n]) == Arrivals(actions[..n - 1]) + ArrivedBy(actions[n - 1])
    ensures Picks(actions[..n]) == Picks(actions[..n - 1]) + if actions[n - 1].Pick? then 1 else 0
  {
    assert actions[..n][..n - 1] == actions[..n - 1];
  }

  // ----- Within one priority the queue is first in, first out

  function OfPrio<T>(prio: T -> int, q: seq<T>, p: int): seq<T>
  {
    if q == [] then [] else OfPrio(prio, q[..|q| - 1], p) + if prio(q[|q| - 1]) == p then [q[|q| - 1]] else []
  }

  lemma {:induction false} OfPrioAdds<T>(prio: T -> int, a: seq<T>, b: seq<T>, p: int)
    ensures OfPrio(prio, a + b, p) == OfPrio(prio, a, p) + OfPrio(prio, b, p)
  {
    if b == [] {
      assert a + b == a;
    } else {
      OfPrioAdds(prio, a, b[..|b| - 1], p);
      assert (a + b)[..|a + b| - 1] == a + b[..|b| - 1];
    }
  }

  lemma {:induction false} NoneOfPrio<T>(prio: T -> int, q: seq<T>, p: int)
    requires forall k :: 0 <= k < |q| ==> prio(q[k]) != p
    ensures OfPrio(prio, q, p) == []
  {
    if q != [] {
      NoneOfPrio(prio, q[..|q| - 1], p);
    }
  }

  lemma OneOfPrio<T>(prio: T -> int, r: T, p: int)
    ensures OfPrio(prio, [r], p) == if prio(r) == p then [r] else []
  {
    assert [r][..0] == [];
  }

  lemma TakenApart<T>(q: seq<T>, i: int)
    requires 0 <= i < |q|
    ensures q == q[..i] + [q[i]] + q[i + 1..]
  {
  }

  lemma PickTakesFirstOfPrio<T>(prio: T -> int, q: seq<T>, i: int, p: int)
    requires IsPick(prio, q, i)
    ensures OfPrio(prio, q, p) == OfPrio(prio, [q[i]], p) + OfPrio(prio, Without(q, i), p)
  {
    var head, tail := q[..i], q[i + 1..];
    if prio(q[i]) == p {
      NoneOfPrio(prio, head, p);
    }
    OneOfPrio(prio, q[i], p);
    TakenApart(q, i);
    FirstOfPrioMoves(prio, head, q[i], tail, p);
  }

  lemma FirstOfPrioMoves<T>(prio: T -> int, head: seq<T>, x: T, tail: seq<T>, p: int)
    requires OfPrio(prio, head, p) == [] || OfPrio(prio, [x], p) == []
    ensures OfPrio(prio, head + [x] + tail, p) == OfPrio(prio, [x], p) + OfPrio(prio, head + tail, p)
  {
    OfPrioAdds(prio, head + [x], tail, p);
    OfPrioAdds(prio, head, [x], p);
    OfPrioAdds(prio, head, tail, p);
  }

  /** The requests of one priority, the served ones first. */
  function Account<T>(prio: T -> int, s: Queue<T>, p: int): seq<T>
  {
    OfPrio(prio, s.served, p) + OfPrio(prio, s.waiting, p)
  }

  lemma FifoStep<T>(prio: T -> int, s: Queue<T>, a: Action<T>, t: Queue<T>, p: int)
    requires Step(prio, s, a, t)
    ensures Account(prio, t, p) == Account(prio, s, p) + OfPrio(prio, ArrivedBy(a), p)
  {
    match a
    case Arrive(r) =>
      OfPrioAdds(prio, s.waiting, [r], p);
      Associate(OfPrio(prio, s.served, p), OfPrio(prio, s.waiting, p), OfPrio(prio, [r], p));
    case Pick =>
      if s.waiting != [] {
        var i :| IsPick(prio, s.waiting, i) && t == Queue(Without(s.waiting, i), s.served + [s.waiting[i]]);
        PickTakesFirstOfPrio(prio, s.waiting, i, p);
        OfPrioAdds(prio, s.served, [s.waiting[i]], p);
        Associate(OfPrio(prio, s.served, p), OfPrio(prio, [s.waiting[i]], p), OfPrio(prio, Without(s.waiting, i), p));
      }
  }

  lemma Associate<T>(a: seq<T>, b: seq<T>, c: seq<T>)
    ensures a + b + c == a + (b + c)
  {
  }

  /** In every run, for every priority: what was served, followed by what still waits, is the same at the
      start, followed by what arrived.  Nothing is lost, invented or overtaken by its equals. */
  lemma {:induction false} FirstInFirstOut<T>(prio: T -> int, actions: seq<Action<T>>, ss: seq<Queue<T>>, n: nat, p: int)
    requires IsRun(prio, actions, ss) && n <= |actions|
    ensures Account(prio, ss[n], p) == Account(prio, ss[0], p) + OfPrio(prio, Arrivals(actions[..n]), p)
  {
    if n > 0 {
      FirstInFirstOut(prio, actions, ss, n - 1, p);
      assert StepAt(prio, actions, ss, n - 1);
      FifoStep(prio, ss[n - 1], actions[n - 1], ss[n], p);
      OneMore(actions, n);
      OfPrioAdds(prio, Arrivals(actions[..n - 1]), ArrivedBy(actions[n - 1]), p);
      Associate(Account(prio, ss[0], p), OfPrio(prio, Arrivals(actions[..n - 1]), p),
                OfPrio(prio, ArrivedBy(actions[n - 1]), p));
    }
  }

  // ----- How long a request waits

  /** How many requests of q have at least (strict: more than) priority p. */
  function CountAbove<T>(prio: T -> int, q: seq<T>, p: int, strict: bool): nat
  {
    if q == [] then 0
    else CountAbove(prio, q[..|q| - 1], p, strict)
         + if prio(q[|q| - 1]) > p || (!strict && prio(q[|q| - 1]) == p) then 1 else 0
  }

  /** How many requests are to be served before the one at position k: those before it of at least its
      priority, those after it of a higher one. */
  function Ahead<T>(prio: T -> int, q: seq<T>, k: int): nat
    requires 0 <= k < |q|
  {
    CountAbove(prio, q[..k], prio(q[k]), false) + CountAbove(prio, q[k + 1..], prio(q[k]), true)
  }

  lemma {:induction false} CountAboveAdds<T>(prio: T -> int, a: seq<T>, b: seq<T>, p: int, strict: bool)
    ensures CountAbove(prio, a + b, p, strict) == CountAbove(prio, a, p, strict) + CountAbove(prio, b, p, strict)
  {
    if b == [] {
      assert a + b == a;
    } else {
      CountAboveAdds(prio, a, b[..|b| - 1], p, strict);
      assert (a + b)[..|a + b| - 1] == a + b[..|b| - 1];
    }
  }

  lemma {:induction false} CountAboveIsZeroIff<T>(prio: T -> int, q: seq<T>, p: int, strict: bool)
    ensures CountAbove(prio, q, p, strict) == 0 <==>
            forall k :: 0 <= k < |q| ==> prio(q[k]) < p || (strict && prio(q[k]) == p)
  {
    if q != [] {
      CountAboveIsZeroIff(prio, q[..|q| - 1], p, strict);
      assert forall k :: 0 <= k < |q| - 1 ==> q[..|q| - 1][k] == q[k];
    }
  }

  lemma CountAboveWithout<T>(prio: T -> int, q: seq<T>, i: int, p: int, strict: bool)
    requires 0 <= i < |q|
    ensures CountAbove(prio, q, p, strict) == CountAbove(prio, Without(q, i), p, strict)
                                        + if prio(q[i]) > p || (!strict && prio(q[i]) == p) then 1 else 0
  {
    assert q == q[..i] + [q[i]] + q[i + 1..];
    CountAboveAdds(prio, q[..i] + [q[i]], q[i + 1..], p, strict);
    CountAboveAdds(prio, q[..i], [q[i]], p, strict);
    CountAboveAdds(prio, q[..i], q[i + 1..], p, strict);
    assert [q[i]][..0] == [];
  }

  /** Where the request at position k of the queue s stands after a step: served, or at a new position. */
  ghost predicate Moves<T>(prio: T -> int, s: Queue<T>, a: Action<T>, t: Queue<T>, k: int, next: Option<int>)
    requires 0 <= k < |s.waiting|
  {
    match a
    case Arrive(r) => next == Some(k)
    case Pick => exists i :: IsPick(prio, s.waiting, i) && t.waiting == Without(s.waiting, i)
                   && next == if i == k then None else if i < k then Some(k - 1) else Some(k)
  }

  /** A request is served by the next pick exactly when nothing is ahead of it. */
  lemma PickedIffNothingAhead<T>(prio: T -> int, q: seq<T>, k: int)
    requires 0 <= k < |q|
    ensures IsPick(prio, q, k) <==> Ahead(prio, q, k) == 0
  {
    var p := prio(q[k]);
    CountAboveIsZeroIff(prio, q[..k], p, false);
    CountAboveIsZeroIff(prio, q[k + 1..], p, true);
    if Ahead(prio, q, k) == 0 {
      forall m | 0 <= m < |q| ensures prio(q[m]) <= p && (m < k ==> prio(q[m]) < p) {
        if m < k {
          assert q[m] == q[..k][m];
        } else if m > k {
          assert q[m] == q[k + 1..][m - k - 1];
        }
      }
    }
  }

  /** Every pick of another request takes away exactly one of those ahead. */
  lemma PickAdvances<T>(prio: T -> int, q: seq<T>, i: int, k: int)
    requires IsPick(prio, q, i) && 0 <= k < |q| && i != k
    ensures var k' := if i < k then k - 1 else k;
            Without(q, i)[k'] == q[k] && Ahead(prio, q, k) == Ahead(prio, Without(q, i), k') + 1
  {
    if i < k {
      PickBefore(prio, q, i, k);
    } else {
      PickBehind(prio, q, i, k);
    }
  }

  lemma PickBefore<T>(prio: T -> int, q: seq<T>, i: int, k: int)
    requires IsPick(prio, q, i) && i < k < |q|
    ensures Without(q, i)[k - 1] == q[k] && Ahead(prio, q, k) == Ahead(prio, Without(q, i), k - 1) + 1
  {
    var w := Without(q, i);
    assert w[..k - 1] == Without(q[..k], i);
    assert w[k - 1 + 1..] == q[k + 1..];
    CountAboveWithout(prio, q[..k], i, prio(q[k]), false);
  }

  lemma PickBehind<T>(prio: T -> int, q: seq<T>, i: int, k: int)
    requires IsPick(prio, q, i) && 0 <= k < i
    ensures Without(q, i)[k] == q[k] && Ahead(prio, q, k) == Ahead(prio, Without(q, i), k) + 1
  {
    var w := Without(q, i);
    assert w[..k] == q[..k];
    assert w[k + 1..] == Without(q[k + 1..], i - k - 1);
    CountAboveWithout(prio, q[k + 1..], i - k - 1, prio(q[k]), true);
  }

  /** An arrival gets ahead of a waiting request only with a higher priority. */
  lemma ArrivalAhead<T>(prio: T -> int, q: seq<T>, r: T, k: int)
    requires 0 <= k < |q|
    ensures Ahead(prio, q + [r], k) == Ahead(prio, q, k) + if prio(r) > prio(q[k]) then 1 else 0
  {
    assert (q + [r])[..k] == q[..k] && (q + [r])[k + 1..] == q[k + 1..] + [r];
    CountAboveAdds(prio, q[k + 1..], [r], prio(q[k]), true);
    assert [r][..0] == [];
  }

  ghost predicate MovesAt<T>(prio: T -> int, actions: seq<Action<T>>, ss: seq<Queue<T>>, ks: seq<int>, i: int)
  {
    && 0 <= i < |ks| - 1 && i < |actions| && |ss| == |actions| + 1 && 0 <= ks[i] < |ss[i].waiting|
    && Moves(prio, ss[i], actions[i], ss[i + 1], ks[i], Some(ks[i + 1]))
  }

  /** ks follows the request that waits at position ks[0] of the first queue of a run for n actions. */
  ghost predicate Follows<T>(prio: T -> int, actions: seq<Action<T>>, ss: seq<Queue<T>>, ks: seq<int>)
  {
    && 0 < |ks| <= |ss|
    && (forall i :: 0 <= i < |ks| ==> 0 <= ks[i] < |ss[i].waiting|)
    && forall i :: 0 <= i < |ks| - 1 ==> MovesAt(prio, actions, ss, ks, i)
  }

  /** Every waiting request can be followed until it is served or the run is over. */
  lemma {:induction false} CanBeFollowed<T>(prio: T -> int, actions: seq<Action<T>>, ss: seq<Queue<T>>, k: int, n: nat)
      returns (ks: seq<int>)
    requires IsRun(prio, actions, ss) && 0 <= k < |ss[0].waiting| && n <= |actions|
    ensures Follows(prio, actions, ss, ks) && ks[0] == k && |ks| <= n + 1
    ensures |ks| == n + 1 || (actions[|ks| - 1] == Pick && IsPick(prio, ss[|ks| - 1].waiting, ks[|ks| - 1]))
  {
    if n == 0 {
      ks := [k];
    } else {
      ks := CanBeFollowed(prio, actions, ss, k, n - 1);
      if |ks| == n {
        assert StepAt(prio, actions, ss, n - 1);
        var next := OneStepOn(prio, ss[n - 1], actions[n - 1], ss[n], ks[n - 1]);
        if next.Some? {
          FollowedFurther(prio, actions, ss, ks, next.value);
          ks := ks + [next.value];
        }
      }
    }
  }

  lemma FollowedFurther<T>(prio: T -> int, actions: seq<Action<T>>, ss: seq<Queue<T>>, ks: seq<int>, next: int)
    requires IsRun(prio, actions, ss) && Follows(prio, actions, ss, ks) && |ks| <= |actions|
    requires 0 <= next < |ss[|ks|].waiting|
    requires Moves(prio, ss[|ks| - 1], actions[|ks| - 1], ss[|ks|], ks[|ks| - 1], Some(next))
    ensures Follows(prio, actions, ss, ks + [next])
  {
    var more := ks + [next];
    forall i | 0 <= i < |more| - 1 ensures MovesAt(prio, actions, ss, more, i) {
      assert i < |ks| - 1 ==> MovesAt(prio, actions, ss, ks, i);
    }
  }

  lemma OneStepOn<T>(prio: T -> int, s: Queue<T>, a: Action<T>, t: Queue<T>, k: int) returns (next: Option<int>)
    requires Step(prio, s, a, t) && 0 <= k < |s.waiting|
    ensures Moves(prio, s, a, t, k, next)
    ensures if next.Some? then 0 <= next.value < |t.waiting| else a == Pick && IsPick(prio, s.waiting, k)
  {
    if a.Arrive? {
      next := Some(k);
    } else {
      var i :| IsPick(prio, s.waiting, i) && t == Queue(Without(s.waiting, i), s.served + [s.waiting[i]]);
      next := if i == k then None else if i < k then Some(k - 1) else Some(k);
    }
  }

  /** While a request waits, the picks so far and the requests still ahead of it make up exactly the
      requests that were ahead when it arrived and the later arrivals of higher priority. */
  lemma {:induction false} WaitIsExact<T>(prio: T -> int, actions: seq<Action<T>>, ss: seq<Queue<T>>, ks: seq<int>, n: nat)
    requires IsRun(prio, actions, ss) && Follows(prio, actions, ss, ks) && n < |ks|
    ensures ss[n].waiting[ks[n]] == ss[0].waiting[ks[0]]
    ensures Picks(actions[..n]) + Ahead(prio, ss[n].waiting, ks[n])
            == Ahead(prio, ss[0].waiting, ks[0]) + CountAbove(prio, Arrivals(actions[..n]), prio(ss[0].waiting[ks[0]]), true)
  {
    if n > 0 {
      WaitIsExact(prio, actions, ss, ks, n - 1);
      WaitAdvances(prio, actions, ss, ks, n);
    }
  }

  lemma WaitAdvances<T>(prio: T -> int, actions: seq<Action<T>>, ss: seq<Queue<T>>, ks: seq<int>, n: nat)
    requires IsRun(prio, actions, ss) && Follows(prio, actions, ss, ks) && 0 < n < |ks|
    ensures ss[n].waiting[ks[n]] == ss[n - 1].waiting[ks[n - 1]]
    ensures var p := prio(ss[n - 1].waiting[ks[n - 1]]);
            Picks(actions[..n]) + Ahead(prio, ss[n].waiting, ks[n]) + CountAbove(prio, Arrivals(actions[..n - 1]), p, true)
            == Picks(actions[..n - 1]) + Ahead(prio, ss[n - 1].waiting, ks[n - 1])
               + CountAbove(prio, Arrivals(actions[..n]), p, true)
  {
    var s, a, t, k := ss[n - 1], actions[n - 1], ss[n], ks[n - 1];
    assert StepAt(prio, actions, ss, n - 1) && MovesAt(prio, actions, ss, ks, n - 1);
    WaitStep(prio, s, a, t, k, ks[n]);
    OneMore(actions, n);
    CountAboveAdds(prio, Arrivals(actions[..n - 1]), ArrivedBy(a), prio(s.waiting[k]), true);
  }

  lemma WaitStep<T>(prio: T -> int, s: Queue<T>, a: Action<T>, t: Queue<T>, k: int, k': int)
    requires Step(prio, s, a, t) && 0 <= k < |s.waiting| && 0 <= k' < |t.waiting|
    requires Moves(prio, s, a, t, k, Some(k'))
    ensures t.waiting[k'] == s.waiting[k]
    ensures Ahead(prio, t.waiting, k') + (if a.Pick? then 1 else 0)
            == Ahead(prio, s.waiting, k) + CountAbove(prio, ArrivedBy(a), prio(s.waiting[k]), true)
  {
    if a.Pick? {
      WaitPick(prio, s, t, k, k');
    } else {
      ArrivalAhead(prio, s.waiting, a.request, k);
      assert [a.request][..0] == [];
    }
  }

  lemma WaitPick<T>(prio: T -> int, s: Queue<T>, t: Queue<T>, k: int, k': int)
    requires 0 <= k < |s.waiting| && 0 <= k' < |t.waiting| && Moves(prio, s, Pick, t, k, Some(k'))
    ensures t.waiting[k'] == s.waiting[k] && Ahead(prio, t.waiting, k') + 1 == Ahead(prio, s.waiting, k)
  {
    var i :| IsPick(prio, s.waiting, i) && t.waiting == Without(s.waiting, i)
             && Some(k') == if i == k then None else if i < k then Some(k - 1) else Some(k);
    PickAdvances(prio, s.waiting, i, k);
  }

  /** A request that is served by the pick after n actions was preceded by exactly A + H picks: A requests
      were ahead of it to begin with, and H requests of higher priority arrived in the meantime. */
  lemma ServedAfterExactly<T>(prio: T -> int, actions: seq<Action<T>>, ss: seq<Queue<T>>, ks: seq<int>, n: nat)
    requires IsRun(prio, actions, ss) && Follows(prio, actions, ss, ks) && |ks| == n + 1 && n < |actions|
    requires actions[n] == Pick && IsPick(prio, ss[n].waiting, ks[n])
    ensures Picks(actions[..n])
            == Ahead(prio, ss[0].waiting, ks[0]) + CountAbove(prio, Arrivals(actions[..n]), prio(ss[0].waiting[ks[0]]), true)
  {
    WaitIsExact(prio, actions, ss, ks, n);
    PickedIffNothingAhead(prio, ss[n].waiting, ks[n]);
  }

  /** For a request that has just arrived, A counts the waiting requests of at least its priority. */
  lemma JustArrived<T>(prio: T -> int, q: seq<T>, r: T)
    ensures Ahead(prio, q + [r], |q|) == CountAbove(prio, q, prio(r), false)
  {
    assert (q + [r])[..|q|] == q && (q + [r])[|q| + 1..] == [];
  }

  lemma RunFrom<T>(prio: T -> int, actions: seq<Action<T>>, ss: seq<Queue<T>>, m: nat)
    requires IsRun(prio, actions, ss) && m <= |actions|
    ensures IsRun(prio, actions[m..], ss[m..])
  {
    forall i | 0 <= i < |actions| - m ensures StepAt(prio, actions[m..], ss[m..], i) {
      assert StepAt(prio, actions, ss, m + i);
    }
  }

  /** What a run does at n and up to n, seen from its rest after m. */
  lemma InRest<T>(actions: seq<Action<T>>, ss: seq<Queue<T>>, m: nat, n: nat)
    requires m <= n < |ss| && |ss| == |actions| + 1
    ensures actions[m..n] == actions[m..][..n - m]
    ensures ss[n] == ss[m..][n - m] && (n < |actions| ==> actions[n] == actions[m..][n - m])
  {
  }

  /** Every request that arrives during a run, by action m, can be followed to the n-th state, where the run
      is over or the request is picked next.  Until then the picks since its arrival and the requests still
      ahead of it make up exactly the A requests of at least its priority that waited when it came and the
      H later arrivals of higher priority; so it is picked after exactly A + H others. */
  lemma ArrivalWaitsExactly<T>(prio: T -> int, actions: seq<Action<T>>, ss: seq<Queue<T>>, m: nat)
      returns (n: nat, k: int)
    requires IsRun(prio, actions, ss) && m < |actions| && actions[m].Arrive?
    ensures m < n <= |actions| && 0 <= k < |ss[n].waiting| && ss[n].waiting[k] == actions[m].request
    ensures n == |actions| || (actions[n] == Pick && IsPick(prio, ss[n].waiting, k))
    ensures var p := prio(actions[m].request);
            Picks(actions[m + 1..n]) + Ahead(prio, ss[n].waiting, k)
            == CountAbove(prio, ss[m].waiting, p, false) + CountAbove(prio, Arrivals(actions[m + 1..n]), p, true)
    ensures n < |actions| && actions[n] == Pick ==> (IsPick(prio, ss[n].waiting, k) <==> Ahead(prio, ss[n].waiting, k) == 0)
  {
    var later, states := actions[m + 1..], ss[m + 1..];
    ArrivalWaits(prio, actions, ss, m);
    var ks := CanBeFollowed(prio, later, states, |ss[m].waiting|, |later|);
    WaitIsExact(prio, later, states, ks, |ks| - 1);
    n, k := m + |ks|, ks[|ks| - 1];
    InRest(actions, ss, m + 1, n);
    PickedIffNothingAhead(prio, ss[n].waiting, k);
  }

  /** The rest of a run after an arrival, which stands last in its queue. */
  lemma ArrivalWaits<T>(prio: T -> int, actions: seq<Action<T>>, ss: seq<Queue<T>>, m: nat)
    requires IsRun(prio, actions, ss) && m < |actions| && actions[m].Arrive?
    ensures IsRun(prio, actions[m + 1..], ss[m + 1..])
    ensures var s := ss[m + 1..][0];
            && |s.waiting| == |ss[m].waiting| + 1 && s.waiting[|ss[m].waiting|] == actions[m].request
            && Ahead(prio, s.waiting, |ss[m].waiting|) == CountAbove(prio, ss[m].waiting, prio(actions[m].request), false)
  {
    assert StepAt(prio, actions, ss, m);
    RunFrom(prio, actions, ss, m + 1);
    JustArrived(prio, ss[m].waiting, actions[m].request);
  }

  /** Said of the pick that serves it. */
  lemma ArrivalIsServedAfter<T>(prio: T -> int, actions: seq<Action<T>>, ss: seq<Queue<T>>, m: nat, ks: seq<int>, n: nat)
    requires IsRun(prio, actions, ss) && m < n < |actions| && actions[m].Arrive?
    requires |ks| == n - m && ks[0] == |ss[m].waiting| && Follows(prio, actions[m + 1..], ss[m + 1..], ks)
    requires actions[n] == Pick && IsPick(prio, ss[n].waiting, ks[n - m - 1])
    ensures var p := prio(actions[m].request);
            Picks(actions[m + 1..n])
            == CountAbove(prio, ss[m].waiting, p, false) + CountAbove(prio, Arrivals(actions[m + 1..n]), p, true)
  {
    var later, states, served := actions[m + 1..], ss[m + 1..], n - m - 1;
    ArrivalWaits(prio, actions, ss, m);
    InRest(actions, ss, m + 1, n);
    ServedAfterExactly(prio, later, states, ks, served);
  }
}
