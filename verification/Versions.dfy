/** Versions in branch names: ver_ge, the lists of main trees and the triggers of the tarball builder of
    buildbot/maria-master.cfg. */
module Versions {
  import opened Branches
  import opened Decimal
  import opened Text
  import opened Wrappers

  // ----- re.search('(\d+)\.(\d+)', s)

  predicate DigitsIn(s: string, i: int, j: int)
    requires 0 <= i && j <= |s|
  {
    forall x :: i <= x < j ==> IsDigit(s[x])
  }

  /** The end of the digits that begin at i. */
  function DigitsEnd(s: string, i: nat): (e: nat)
    requires i <= |s|
    ensures i <= e <= |s| && DigitsIn(s, i, e) && (e < |s| ==> !IsDigit(s[e]))
    decreases |s| - i
  {
    if i < |s| && IsDigit(s[i]) then DigitsEnd(s, i + 1) else i
  }

  /** The search from position i on: at each start the digits are taken greedily. */
  function SearchFrom(s: string, i: nat): Option<Version>
    requires i <= |s|
    decreases |s| - i
  {
    var j := DigitsEnd(s, i);
    if i < j < |s| && s[j] == '.' && j + 1 < DigitsEnd(s, j + 1) then
      Some((ParseNat(s[i..j]), ParseNat(s[j + 1..DigitsEnd(s, j + 1)])))
    else if i == |s| then None
    else SearchFrom(s, i + 1)
  }

  function FindVersion(s: string): Option<Version>
  {
    SearchFrom(s, 0)
  }

  /** s[i..k] has the form digits '.' digits, with the dot at j. */
  predicate Matches(s: string, i: int, j: int, k: int)
  {
    0 <= i < j && j + 1 < k <= |s| && DigitsIn(s, i, j) && s[j] == '.' && DigitsIn(s, j + 1, k)
  }

  /** What a regular-expression search means: of all matches the leftmost, and of those the longest. */
  ghost predicate LeftmostMatch(s: string, i: int, j: int, k: int)
  {
    && Matches(s, i, j, k)
    && (forall i', j', k' :: Matches(s, i', j', k') ==> i <= i')
    && (forall j', k' :: Matches(s, i, j', k') ==> k' <= k)
  }

  /** Of the matches at i the one whose numbers go on as far as there are digits is the longest, and none
      has its dot elsewhere. */
  lemma GreedyIsLongest(s: string, i: int, j: int, k: int, j': int, k': int)
    requires Matches(s, i, j, k) && (k < |s| ==> !IsDigit(s[k])) && Matches(s, i, j', k')
    ensures j' == j && k' <= k
  {
    DotIsNoDigit(s, i, j, k);
    DotIsNoDigit(s, i, j', k');
  }

  lemma DotIsNoDigit(s: string, i: int, j: int, k: int)
    requires Matches(s, i, j, k)
    ensures !IsDigit(s[j]) && IsDigit(s[j + 1])
  {
  }

  lemma GreedyIsLeftmost(s: string, i: int, j: int, k: int)
    requires Matches(s, i, j, k) && (k < |s| ==> !IsDigit(s[k]))
    requires forall i', j', k' :: Matches(s, i', j', k') ==> i <= i'
    ensures LeftmostMatch(s, i, j, k)
    ensures forall a, b, e :: LeftmostMatch(s, a, b, e) ==> a == i && b == j && e == k
  {
    forall j', k' | Matches(s, i, j', k') ensures j' == j && k' <= k {
      GreedyIsLongest(s, i, j, k, j', k');
    }
  }

  /** Where the greedy digits do not make a match there is none. */
  lemma GreedyFails(s: string, i: nat, j': int, k': int)
    requires i <= |s| && Matches(s, i, j', k')
    ensures var j := DigitsEnd(s, i); i < j < |s| && s[j] == '.' && j + 1 < DigitsEnd(s, j + 1)
  {
    DotIsNoDigit(s, i, j', k');
    assert DigitsEnd(s, i) == j';
  }

  lemma {:induction false} SearchFromIsLeftmost(s: string, i: nat, v: Version)
    requires i <= |s| && forall i', j', k' :: Matches(s, i', j', k') ==> i <= i'
    ensures SearchFrom(s, i) == Some(v) <==>
            exists a, j, k :: LeftmostMatch(s, a, j, k) && v == (ParseNat(s[a..j]), ParseNat(s[j + 1..k]))
    ensures SearchFrom(s, i).None? <==> forall a, j, k :: !Matches(s, a, j, k)
    decreases |s| - i
  {
    var j := DigitsEnd(s, i);
    if i < j < |s| && s[j] == '.' && j + 1 < DigitsEnd(s, j + 1) {
      GreedyIsLeftmost(s, i, j, DigitsEnd(s, j + 1));
    } else {
      forall j', k' ensures !Matches(s, i, j', k') {
        if Matches(s, i, j', k') {
          GreedyFails(s, i, j', k');
        }
      }
      if i < |s| {
        SearchFromIsLeftmost(s, i + 1, v);
      }
    }
  }

  /** The search finds the numbers of the leftmost longest match, and nothing when there is no match. */
  lemma FindVersionIff(s: string, v: Version)
    ensures FindVersion(s) == Some(v) <==>
            exists i, j, k :: LeftmostMatch(s, i, j, k) && v == (ParseNat(s[i..j]), ParseNat(s[j + 1..k]))
    ensures FindVersion(s).None? <==> forall i, j, k :: !Matches(s, i, j, k)
  {
    SearchFromIsLeftmost(s, 0, v);
  }

  predicate NoDigits(s: string)
  {
    forall i :: 0 <= i < |s| ==> !IsDigit(s[i])
  }

  function Show(v: Version): string
  {
    Dec(v.0) + "." + Dec(v.1)
  }

  /** Where the parts of a text are found in it. */
  lemma PartsOf(prefix: string, a: string, b: string, suffix: string)
    ensures var s, j := prefix + (a + "." + b) + suffix, |prefix| + |a|;
            s[|prefix|..j] == a && s[j] == '.' && s[j + 1..j + 1 + |b|] == b && s[j + 1 + |b|..] == suffix
  {
    var s, j := prefix + (a + "." + b) + suffix, |prefix| + |a|;
    assert s == prefix + a + "." + b + suffix;
    forall x | 0 <= x < |b| ensures s[j + 1 + x] == b[x] {
    }
  }

  /** Digits, a dot and digits in a text are a match. */
  lemma PartsMatch(s: string, i: int, j: int, k: int)
    requires 0 <= i < j && j + 1 < k <= |s| && AllDigits(s[i..j]) && s[j] == '.' && AllDigits(s[j + 1..k])
    ensures Matches(s, i, j, k)
  {
    assert forall x :: i <= x < j ==> s[x] == s[i..j][x - i];
    assert forall x :: j + 1 <= x < k ==> s[x] == s[j + 1..k][x - j - 1];
  }

  /** In "<text without digits>M.m<anything that does not go on with a digit>" the version found is
      (M, m), for all numbers M and m. */
  lemma NamedVersionIsFound(prefix: string, v: Version, suffix: string)
    requires NoDigits(prefix) && (suffix != "" ==> !IsDigit(suffix[0]))
    ensures FindVersion(prefix + Show(v) + suffix) == Some(v)
  {
    ParseDec(v.0);
    ParseDec(v.1);
    PartsOf(prefix, Dec(v.0), Dec(v.1), suffix);
    var s := prefix + Show(v) + suffix;
    var i := |prefix|;
    var j := i + |Dec(v.0)|;
    var k := j + 1 + |Dec(v.1)|;
    PartsMatch(s, i, j, k);
    assert k < |s| ==> s[k] == s[k..][0];
    forall i', j', k' | Matches(s, i', j', k') ensures i <= i' {
      assert IsDigit(s[i']);
    }
    GreedyIsLeftmost(s, i, j, k);
    FindVersionIff(s, v);
  }

  // ----- ver_ge

  /** v <= w as Python compares tuples. */
  predicate AtMost(v: Version, w: Version)
  {
    v.0 < w.0 || (v.0 == w.0 && v.1 <= w.1)
  }

  predicate VerGe(v: Version, s: string)
  {
    s == "main" || (var m := FindVersion(s); m.Some? && AtMost(v, m.value))
  }

  /** A branch named after a version reaches that one and the lower ones: numbers are compared, not texts, the
      first one deciding. */
  lemma NamedBranchReachesIff(prefix: string, w: Version, suffix: string, v: Version)
    requires NoDigits(prefix) && (suffix != "" ==> !IsDigit(suffix[0]))
    ensures VerGe(v, prefix + Show(w) + suffix) <==> v.0 < w.0 || (v.0 == w.0 && v.1 <= w.1)
  {
    NamedVersionIsFound(prefix, w, suffix);
    MainHasNoVersion();
  }

  /** A branch without a version, other than main, reaches none. */
  lemma VersionlessReachesNone(s: string, v: Version)
    requires NoDigits(s)
    ensures VerGe(v, s) <==> s == "main"
  {
    if FindVersion(s).Some? {
      FindVersionIff(s, FindVersion(s).value);
    }
  }

  /** Whoever reaches a version reaches every lower one. */
  lemma VerGeIsAntitone(v: Version, w: Version, s: string)
    requires AtMost(v, w) && VerGe(w, s)
    ensures VerGe(v, s)
  {
  }

  /** [s for s in branches if ver_ge(v, s)] */
  function TreesFrom(v: Version, branches: seq<string>): seq<string>
  {
    if branches == [] then []
    else TreesFrom(v, branches[..|branches| - 1])
         + if VerGe(v, branches[|branches| - 1]) then [branches[|branches| - 1]] else []
  }

  lemma {:induction false} TreesFromContains(v: Version, branches: seq<string>, s: string)
    ensures s in TreesFrom(v, branches) <==> s in branches && VerGe(v, s)
  {
    if branches != [] {
      TreesFromContains(v, branches[..|branches| - 1], s);
      assert branches == branches[..|branches| - 1] + [branches[|branches| - 1]];
    }
  }

  lemma TreesFromExtended(v: Version, branches: seq<string>, more: seq<string>)
    requires |more| <= 1
    ensures TreesFrom(v, branches + more) == TreesFrom(v, branches) + if more != [] && VerGe(v, more[0]) then more else []
  {
    if more == [] {
      assert branches + more == branches;
    } else {
      assert (branches + more)[..|branches|] == branches;
    }
  }

  /** The lists are nested: a list for a higher version is cut out of every list for a lower one. */
  lemma {:induction false} TreesAreNested(v: Version, w: Version, branches: seq<string>)
    requires AtMost(v, w)
    ensures TreesFrom(w, TreesFrom(v, branches)) == TreesFrom(w, branches)
  {
    if branches != [] {
      var init, s := branches[..|branches| - 1], branches[|branches| - 1];
      TreesAreNested(v, w, init);
      TreesFromExtended(w, TreesFrom(v, init), if VerGe(v, s) then [s] else []);
    }
  }

  // ----- The main trees

  const SUFFIXES := ["-release", "-columnstore", "-all-builders"]

  function MainTrees(branches: seq<string>): seq<string>
  {
    branches + Decorated(branches, SUFFIXES[0]) + Decorated(branches, SUFFIXES[1]) + Decorated(branches, SUFFIXES[2])
    + ["main"]
  }

  predicate Decorates(prefix: string, suffix: string)
  {
    (prefix == "" && suffix == "") || (prefix == "bb-" && suffix in SUFFIXES)
  }

  /** One of the names derived from a branch. */
  ghost predicate DerivedFrom(s: string, branch: string)
  {
    exists prefix, suffix :: Decorates(prefix, suffix) && s == prefix + branch + suffix
  }

  /** The main trees: the main branches, three branches named after each of them, and main itself. */
  lemma MainTreesIff(branches: seq<string>, s: string)
    ensures s in MainTrees(branches) <==>
              || s == "main" || s in branches
              || exists i :: 0 <= i < |branches|
                   && (s == "bb-" + branches[i] + "-release" || s == "bb-" + branches[i] + "-columnstore"
                       || s == "bb-" + branches[i] + "-all-builders")
  {
    DecoratedIff(branches, SUFFIXES[0], s);
    DecoratedIff(branches, SUFFIXES[1], s);
    DecoratedIff(branches, SUFFIXES[2], s);
  }

  lemma DecoratedIff(branches: seq<string>, suffix: string, s: string)
    ensures s in Decorated(branches, suffix) <==>
            exists i :: 0 <= i < |branches| && s == "bb-" + branches[i] + suffix
  {
    if i :| 0 <= i < |branches| && s == "bb-" + branches[i] + suffix {
      assert Decorated(branches, suffix)[i] == s;
    }
  }

  lemma MainTreesAreDerived(branches: seq<string>, s: string)
    requires s in MainTrees(branches) && s != "main"
    ensures exists i :: 0 <= i < |branches| && DerivedFrom(s, branches[i])
  {
    if s in branches {
      var i :| 0 <= i < |branches| && branches[i] == s;
      assert Decorates("", "") && s == "" + branches[i] + "";
      assert DerivedFrom(s, branches[i]);
    } else {
      var k :| 0 <= k < 3 && s in Decorated(branches, SUFFIXES[k]);
      var i :| 0 <= i < |branches| && Decorated(branches, SUFFIXES[k])[i] == s;
      assert Decorates("bb-", SUFFIXES[k]) && s == "bb-" + branches[i] + SUFFIXES[k];
      assert DerivedFrom(s, branches[i]);
    }
  }

  lemma MainBranchesShowVersions(i: int)
    requires 0 <= i < |MAIN_BRANCHES|
    ensures |MAIN_VERSIONS| == |MAIN_BRANCHES| && MAIN_BRANCHES[i] == Show(MAIN_VERSIONS[i])
  {
    assert Dec(1) == "1" && Dec(10) == "10" && Dec(11) == "11" && Dec(12) == "12";
  }

  lemma DerivedVersion(s: string, v: Version)
    requires DerivedFrom(s, Show(v))
    ensures FindVersion(s) == Some(v)
  {
    var prefix, suffix :| Decorates(prefix, suffix) && s == prefix + Show(v) + suffix;
    NamedVersionIsFound(prefix, v, suffix);
  }

  /** Every main tree is 10.6 or later, so the lists for 10.2 to 10.6 are all the same; 10.10 comes after
      10.6, and the list for 10.11 leaves out exactly the trees of 10.6 and 10.10. */
  lemma MainTreesByVersion(s: string)
    requires s in MainTrees(MAIN_BRANCHES)
    ensures VerGe((10, 6), s)
    ensures VerGe((10, 11), s) <==> !DerivedFrom(s, Show((10, 6))) && !DerivedFrom(s, Show((10, 10)))
  {
    forall v | DerivedFrom(s, Show(v)) ensures FindVersion(s) == Some(v) {
      DerivedVersion(s, v);
    }
    if s == "main" {
      MainHasNoVersion();
    } else {
      MainTreesAreDerived(MAIN_BRANCHES, s);
      var i :| 0 <= i < |MAIN_BRANCHES| && DerivedFrom(s, MAIN_BRANCHES[i]);
      MainBranchesShowVersions(i);
      VersionsFrom10_6(i);
    }
  }

  lemma VersionsFrom10_6(i: int)
    requires 0 <= i < |MAIN_VERSIONS|
    ensures AtMost((10, 6), MAIN_VERSIONS[i])
    ensures AtMost((10, 11), MAIN_VERSIONS[i]) <==> MAIN_VERSIONS[i] != (10, 6) && MAIN_VERSIONS[i] != (10, 10)
  {
  }

  lemma MainHasNoVersion()
    ensures FindVersion("main") == None
  {
    if FindVersion("main").Some? {
      FindVersionIff("main", FindVersion("main").value);
    }
  }

  // ----- Which schedulers the tarball builder triggers

  /** kvm-sched-mainonly, -mainonly-v+, -mainonly-v, -not-v+ and -v+. */
  datatype Scheduler = MainOnly | MainOnlyFrom(v: Version) | MainOnlyJust(v: Version) | NotFrom(v: Version) | From(v: Version)

  ghost predicate Triggers(branch: string, scheduler: Scheduler)
  {
    match scheduler
    case MainOnly => branch in MainTrees(MAIN_BRANCHES)
    case MainOnlyFrom(v) => branch in TreesFrom(v, MainTrees(MAIN_BRANCHES))
    case MainOnlyJust(v) => branch in TreesFrom(v, MainTrees(MAIN_BRANCHES)) && Contains(branch, Show(v))
    case NotFrom(v) => !VerGe(v, branch)
    case From(v) => VerGe(v, branch)
  }

  /** Reaching one version a branch reaches all the lower ones, and not reaching it none of the higher ones;
      what triggers mainonly-v+ are the main trees that trigger v+. */
  lemma TriggersFormThreshold(branch: string, v: Version, w: Version)
    requires AtMost(v, w)
    ensures Triggers(branch, From(w)) ==> Triggers(branch, From(v))
    ensures Triggers(branch, NotFrom(v)) ==> Triggers(branch, NotFrom(w))
    ensures Triggers(branch, MainOnlyFrom(v)) <==> Triggers(branch, MainOnly) && Triggers(branch, From(v))
    ensures Triggers(branch, MainOnlyFrom(w)) ==> Triggers(branch, MainOnlyFrom(v))
    ensures Triggers(branch, From(v)) != Triggers(branch, NotFrom(v))
  {
    TreesFromContains(v, MainTrees(MAIN_BRANCHES), branch);
    TreesFromContains(w, MainTrees(MAIN_BRANCHES), branch);
  }

  /** The schedulers by the names of the branches: kvm-sched-mainonly runs the main trees, -mainonly-v+ those
      of them that reach v, -mainonly-v those of them with v in their name. */
  lemma TriggersIff(branch: string, v: Version)
    ensures Triggers(branch, MainOnly) <==>
              || branch == "main" || branch in MAIN_BRANCHES
              || exists i :: 0 <= i < |MAIN_BRANCHES|
                   && (branch == "bb-" + MAIN_BRANCHES[i] + "-release" || branch == "bb-" + MAIN_BRANCHES[i] + "-columnstore"
                       || branch == "bb-" + MAIN_BRANCHES[i] + "-all-builders")
    ensures Triggers(branch, MainOnlyJust(v)) <==>
              Triggers(branch, MainOnly) && VerGe(v, branch) && exists before, after :: branch == before + Show(v) + after
  {
    MainTreesIff(MAIN_BRANCHES, branch);
    TreesFromContains(v, MainTrees(MAIN_BRANCHES), branch);
    ContainsIff(branch, Show(v));
  }

  /** A main tree triggers every v+ scheduler up to 10.6+, so kvm-sched-mainonly-10.6+ and the ones below
      it are triggered together with kvm-sched-mainonly. */
  lemma MainTreesTriggerUpTo10_6(branch: string, v: Version)
    requires AtMost(v, (10, 6))
    ensures Triggers(branch, MainOnly) <==> Triggers(branch, MainOnlyFrom(v))
  {
    TreesFromContains(v, MainTrees(MAIN_BRANCHES), branch);
    if branch in MainTrees(MAIN_BRANCHES) {
      MainTreesByVersion(branch);
    }
  }

  /** kvm-sched-mainonly-10.3 and kvm-sched-mainonly-10.2 are never triggered: no main tree has such a name. */
  lemma DeadSchedulers(branch: string, minor: nat)
    requires minor == 2 || minor == 3
    ensures !Triggers(branch, MainOnlyJust((10, minor)))
  {
    TreesFromContains((10, minor), MainTrees(MAIN_BRANCHES), branch);
    if branch in MainTrees(MAIN_BRANCHES) {
      Show10(minor);
      if branch == "main" {
        assert '.' !in branch;
        NeedsDot(branch, minor);
      } else {
        MainTreesAreDerived(MAIN_BRANCHES, branch);
        var i :| 0 <= i < |MAIN_BRANCHES| && DerivedFrom(branch, MAIN_BRANCHES[i]);
        DotOfMainBranch(i, minor);
        NotAroundDot(branch, MAIN_BRANCHES[i], minor);
      }
    }
  }

  lemma Show10(minor: nat)
    requires minor < 10
    ensures Show((10, minor)) == ['1', '0', '.', DigitChar(minor)]
  {
    assert Dec(1) == "1" && Dec(10) == "10";
  }

  lemma NeedsDot(s: string, minor: nat)
    requires minor < 10 && forall y :: 0 <= y < |s| ==> s[y] != '.'
    ensures !Contains(s, ['1', '0', '.', DigitChar(minor)])
  {
    var part := ['1', '0', '.', DigitChar(minor)];
    forall x | 0 <= x <= |s| - 4 ensures !ContainsAt(s, part, x) {
      assert s[x + 2] != part[2];
    }
  }

  lemma NotAroundDot(s: string, b: string, minor: nat)
    requires minor < 10 && DerivedFrom(s, b)
    requires |b| >= 4 && (forall y :: 0 <= y < |b| ==> (b[y] == '.' <==> y == 2))
    requires b[1] != '0' || b[3] != DigitChar(minor)
    ensures !Contains(s, ['1', '0', '.', DigitChar(minor)])
  {
    var part := ['1', '0', '.', DigitChar(minor)];
    var prefix, suffix :| Decorates(prefix, suffix) && s == prefix + b + suffix;
    var d := |prefix| + 2;
    assert forall y :: 0 <= y < |s| && s[y] == '.' ==> y == d;
    assert s[d - 1] == b[1] && s[d + 1] == b[3];
    forall x | 0 <= x <= |s| - 4 ensures !ContainsAt(s, part, x) {
      assert s[x + 2] != part[2] || s[x + 1] != part[1] || s[x + 3] != part[3];
    }
  }

  lemma DotOfMainBranch(i: int, minor: nat)
    requires 0 <= i < |MAIN_BRANCHES| && (minor == 2 || minor == 3)
    ensures var b := MAIN_BRANCHES[i];
            && |b| >= 4 && (forall y :: 0 <= y < |b| ==> (b[y] == '.' <==> y == 2))
            && (b[1] != '0' || b[3] != DigitChar(minor))
  {
  }
}
