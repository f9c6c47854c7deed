/** myNextBuild of buildbot/maria-master.cfg: the pick that RequestQueue is about. */
module NextBuild {
  import opened Branches
  import opened RequestQueue
  import opened Wrappers

  datatype Request = Request(id: int, branch: string)

  /** The priority of a branch; the two patterns are those of fnmatch, where '*' matches any text. */
  function Priority(b: string): int
  {
    if b == "current-hottest-tree" then 2
    else if |b| >= |"bb-"| + |"-release"| && HasPrefix(b, "bb-") && HasSuffix(b, "-release") then 2
    else if b in MAIN_BRANCHES + ["mariadb-3.x", "mariadb-4.x", "main"] then 1
    else if HasPrefix(b, "hf-") then 2
    else 0
  }

  function Prio(r: Request): int
  {
    Priority(r.branch)
  }

  method MyNextBuild(requests: seq<Request>) returns (best: Option<Request>)
    ensures best.None? <==> requests == []
    ensures best.Some? ==> exists i :: IsPick(Prio, requests, i) && best.value == requests[i]
  {
    best := None;
    var bestPrio := 0;
    ghost var i := 0;
    for n := 0 to |requests|
      invariant best.None? <==> n == 0
      invariant n > 0 ==> 0 <= i < n && best.value == requests[i] && bestPrio == Prio(requests[i])
      invariant n > 0 ==> forall k :: 0 <= k < n ==> Prio(requests[k]) <= bestPrio
      invariant n > 0 ==> forall k :: 0 <= k < i ==> Prio(requests[k]) < bestPrio
    {
      var r := requests[n];
      var prio := Priority(r.branch);
      if best.None? || prio > bestPrio {
        best, bestPrio, i := Some(r), prio, n;
      }
    }
    assert best.Some? ==> IsPick(Prio, requests, i);
  }

  /** Release and hotfix branches of any name come first. */
  lemma UrgentBranches(name: string)
    ensures Priority("bb-" + name + "-release") == 2
    ensures Priority("hf-" + name) == 2
  {
    var release, hotfix := "bb-" + name + "-release", "hf-" + name;
    assert HasSuffix(release, "-release");
    assert hotfix[0] == 'h';
    NoneStartsWith(hotfix);
  }

  lemma NoneStartsWith(s: string)
    requires s != "" && (s[0] == 'b' || s[0] == 'h')
    ensures s !in MAIN_BRANCHES + ["mariadb-3.x", "mariadb-4.x", "main"]
  {
    assert forall m :: m in MAIN_BRANCHES ==> m[0] == '1';
  }

  ghost predicate IsRelease(b: string)
  {
    exists name :: b == "bb-" + name + "-release"
  }

  ghost predicate IsHotfix(b: string)
  {
    exists name :: b == "hf-" + name
  }

  /** The patterns 'bb-*-release' and 'hf-*'. */
  lemma PatternsMatchIff(b: string)
    ensures |b| >= |"bb-"| + |"-release"| && HasPrefix(b, "bb-") && HasSuffix(b, "-release") <==> IsRelease(b)
    ensures HasPrefix(b, "hf-") <==> IsHotfix(b)
  {
    if |b| >= |"bb-"| + |"-release"| && HasPrefix(b, "bb-") && HasSuffix(b, "-release") {
      var name := b[3..|b| - 8];
      assert b == b[..3] + name + b[|b| - 8..];
      assert b == "bb-" + name + "-release";
    }
    if HasPrefix(b, "hf-") {
      var name := b[3..];
      assert b == b[..3] + name;
      assert b == "hf-" + name;
    }
    forall name ensures b == "bb-" + name + "-release" ==> HasPrefix(b, "bb-") && HasSuffix(b, "-release") {
      if b == "bb-" + name + "-release" {
        assert b[|b| - 8..] == "-release";
      }
    }
  }

  /** The hottest tree, the release and the hotfix branches of any name. */
  ghost predicate Urgent(b: string)
  {
    b == "current-hottest-tree" || IsRelease(b) || IsHotfix(b)
  }

  /** The branches of the main list and three fixed ones. */
  predicate IsMain(b: string)
  {
    b in MAIN_BRANCHES || b == "mariadb-3.x" || b == "mariadb-4.x" || b == "main"
  }

  lemma FirstLetters(b: string)
    ensures HasPrefix(b, "bb-") ==> b != "" && b[0] == 'b'
    ensures HasPrefix(b, "hf-") ==> b != "" && b[0] == 'h'
    ensures IsMain(b) ==> b != "" && (b[0] == '1' || b[0] == 'm')
  {
    if HasPrefix(b, "bb-") {
      assert b[0] == "bb-"[0];
    }
    if HasPrefix(b, "hf-") {
      assert b[0] == "hf-"[0];
    }
  }

  /** The priority of every branch. */
  lemma PriorityIff(b: string)
    ensures Priority(b) == 2 <==> Urgent(b)
    ensures Priority(b) == 1 <==> IsMain(b)
    ensures Priority(b) == 0 <==> !Urgent(b) && !IsMain(b)
  {
    PatternsMatchIff(b);
    FirstLetters(b);
    assert "current-hottest-tree"[0] == 'c';
  }

  /** So the build that is taken next is urgent if any request is, and otherwise for a main branch if any
      request is for one. */
  lemma PickIsUrgentIff(requests: seq<Request>, i: int)
    requires IsPick(Prio, requests, i)
    ensures Urgent(requests[i].branch) <==> exists k :: 0 <= k < |requests| && Urgent(requests[k].branch)
    ensures IsMain(requests[i].branch) <==>
              (exists k :: 0 <= k < |requests| && IsMain(requests[k].branch))
              && forall k :: 0 <= k < |requests| ==> !Urgent(requests[k].branch)
  {
    forall k | 0 <= k < |requests|
      ensures Prio(requests[k]) <= Prio(requests[i])
      ensures Prio(requests[k]) == if Urgent(requests[k].branch) then 2 else if IsMain(requests[k].branch) then 1 else 0
    {
      PriorityIff(requests[k].branch);
    }
    PriorityIff(requests[i].branch);
  }

  /** Of the main trees the release branches come first, then the plain branches and "main", together with
      the connector branches; the columnstore and all-builders branches are served like any development
      branch. */
  lemma MainTreePriorities(i: int)
    requires 0 <= i < |MAIN_BRANCHES|
    ensures Priority("bb-" + MAIN_BRANCHES[i] + "-release") == 2
    ensures Priority(MAIN_BRANCHES[i]) == 1
    ensures Priority("main") == Priority("mariadb-3.x") == Priority("mariadb-4.x") == 1
    ensures Priority("bb-" + MAIN_BRANCHES[i] + "-columnstore") == 0
    ensures Priority("bb-" + MAIN_BRANCHES[i] + "-all-builders") == 0
  {
    var b := MAIN_BRANCHES[i];
    assert b[0] == '1';
    UrgentBranches(b);
    ForkIsPlain(b, "-columnstore");
    ForkIsPlain(b, "-all-builders");
  }

  lemma ForkIsPlain(b: string, suffix: string)
    requires suffix == "-columnstore" || suffix == "-all-builders"
    ensures Priority("bb-" + b + suffix) == 0
  {
    var s := "bb-" + b + suffix;
    assert s[|s| - 8] == suffix[|suffix| - 8] != '-' && s[0] == 'b';
    assert !HasSuffix(s, "-release") by {
      assert s[|s| - 8..][0] == s[|s| - 8];
    }
    NoneStartsWith(s);
  }
}
