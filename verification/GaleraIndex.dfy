/** buildbot/collect_latest_galera.sh: an index of the newest build of every name, and the steps by which it
    replaces the one before. */
module GaleraIndex {
  import opened Text

  /** A directory of builds, as "ls" lists it. */
  datatype Revision = Revision(name: string, builds: seq<string>)

  /** [[ ${rev} =~ latest ]] */
  predicate IsLatest(rev: Revision)
  {
    Contains(rev.name, "latest")
  }

  /** Revision i, newest first, is the newest one that has the build. */
  predicate NewestWith(revs: seq<Revision>, build: string, i: int)
  {
    && 0 <= i < |revs| && !IsLatest(revs[i]) && build in revs[i].builds
    && forall k :: 0 <= k < i && !IsLatest(revs[k]) ==> build !in revs[k].builds
  }

  /** The links of the new directory: for each name the revision it points into. */
  type Index = map<string, string>

  predicate Occurs(revs: seq<Revision>, build: string)
  {
    exists i :: 0 <= i < |revs| && !IsLatest(revs[i]) && build in revs[i].builds
  }

  /** Every name that occurs is linked once, to the newest revision that has it, and nothing else is. */
  ghost predicate IsIndex(revs: seq<Revision>, index: Index)
  {
    && (forall b :: b in index <==> Occurs(revs, b))
    && (forall b, i :: NewestWith(revs, b, i) ==> b in index && index[b] == revs[i].name)
  }

  /** The directories of the script itself: "latest" occurs in their names. */
  ghost predicate NamedLatest(name: string)
  {
    exists before, after :: name == before + "latest" + after
  }

  /** What is linked, said of the names alone: the builds of all other revisions, each into the first one
      listed that has it. */
  ghost predicate LinksNewest(revs: seq<Revision>, index: Index)
  {
    && (forall b :: b in index <==> exists i :: 0 <= i < |revs| && b in revs[i].builds && !NamedLatest(revs[i].name))
    && (forall b :: b in index ==> !NamedLatest(index[b]))
    && (forall b, i :: 0 <= i < |revs| && b in revs[i].builds && !NamedLatest(revs[i].name)
          && (forall k :: 0 <= k < i && b in revs[k].builds ==> NamedLatest(revs[k].name))
          ==> index[b] == revs[i].name)
  }

  method BuildIndex(revs: seq<Revision>) returns (index: Index)
    ensures IsIndex(revs, index)
    ensures LinksNewest(revs, index)
  {
    index := map[];
    var n := 0;
    while n < |revs|
      invariant 0 <= n <= |revs|
      invariant IsIndex(revs[..n], index)
    {
      var rev := revs[n];
      n := n + 1;
      if IsLatest(rev) {
        SkippedRevision(revs, n, index);
        continue;
      }
      ghost var before := index;
      var m := 0;
      while m < |rev.builds|
        invariant 0 <= m <= |rev.builds|
        invariant forall b :: b in index <==> b in before || b in rev.builds[..m]
        invariant forall b :: b in index ==> index[b] == if b in before then before[b] else rev.name
      {
        var bld := rev.builds[m];
        if bld !in index {
          index := index[bld := rev.name];
        }
        m := m + 1;
      }
      assert rev.builds[..m] == rev.builds;
      AddedRevision(revs, n, before, index);
    }
    assert revs[..n] == revs;
    IndexLinksNewest(revs, index);
  }

  lemma IsLatestIff(rev: Revision)
    ensures IsLatest(rev) <==> NamedLatest(rev.name)
  {
    ContainsIff(rev.name, "latest");
  }

  lemma IndexLinksNewest(revs: seq<Revision>, index: Index)
    requires IsIndex(revs, index)
    ensures LinksNewest(revs, index)
  {
    forall rev ensures IsLatest(rev) <==> NamedLatest(rev.name) {
      IsLatestIff(rev);
    }
    forall b ensures b in index <==> exists i :: 0 <= i < |revs| && b in revs[i].builds && !NamedLatest(revs[i].name) {
      assert b in index <==> Occurs(revs, b);
    }
    forall b | b in index ensures !NamedLatest(index[b]) {
      NewestExists(revs, b);
      var i :| NewestWith(revs, b, i);
    }
    forall b, i | 0 <= i < |revs| && b in revs[i].builds && !NamedLatest(revs[i].name)
      && (forall k :: 0 <= k < i && b in revs[k].builds ==> NamedLatest(revs[k].name))
      ensures index[b] == revs[i].name
    {
      assert NewestWith(revs, b, i);
    }
  }

  /** So nothing is linked into latest or latest.old, the directories that are about to be replaced. */
  lemma NoLinkIntoLatest(revs: seq<Revision>, index: Index, b: string)
    requires IsIndex(revs, index) && b in index
    ensures index[b] != "latest" && index[b] != "latest.old"
  {
    IndexLinksNewest(revs, index);
    OwnDirectories();
  }

  lemma OwnDirectories()
    ensures NamedLatest("latest") && NamedLatest("latest.old")
  {
    assert "latest" == "" + "latest" + "";
    assert "latest.old" == "" + "latest" + ".old";
  }

  lemma OccursInPrefix(revs: seq<Revision>, n: nat, b: string)
    requires 0 < n <= |revs|
    ensures Occurs(revs[..n], b) <==>
            Occurs(revs[..n - 1], b) || (!IsLatest(revs[n - 1]) && b in revs[n - 1].builds)
  {
    var p, q := revs[..n - 1], revs[..n];
    if i :| 0 <= i < |p| && !IsLatest(p[i]) && b in p[i].builds {
      assert q[i] == p[i];
    }
    if !IsLatest(revs[n - 1]) && b in revs[n - 1].builds {
      assert q[n - 1] == revs[n - 1];
    }
  }

  lemma NewestInPrefix(revs: seq<Revision>, n: nat, b: string, i: int)
    requires 0 < n <= |revs| && NewestWith(revs[..n], b, i)
    ensures if i < n - 1 then NewestWith(revs[..n - 1], b, i)
            else i == n - 1 && !IsLatest(revs[i]) && b in revs[i].builds && !Occurs(revs[..n - 1], b)
  {
    var p, q := revs[..n - 1], revs[..n];
    assert forall k :: 0 <= k < n - 1 ==> q[k] == p[k];
  }

  lemma SkippedRevision(revs: seq<Revision>, n: nat, index: Index)
    requires 0 < n <= |revs| && IsLatest(revs[n - 1]) && IsIndex(revs[..n - 1], index)
    ensures IsIndex(revs[..n], index)
  {
    forall b ensures Occurs(revs[..n], b) <==> Occurs(revs[..n - 1], b) {
      OccursInPrefix(revs, n, b);
    }
    forall b, i | NewestWith(revs[..n], b, i) ensures NewestWith(revs[..n - 1], b, i) {
      NewestInPrefix(revs, n, b, i);
    }
  }

  lemma AddedRevision(revs: seq<Revision>, n: nat, before: Index, index: Index)
    requires 0 < n <= |revs| && !IsLatest(revs[n - 1]) && IsIndex(revs[..n - 1], before)
    requires forall b :: b in index <==> b in before || b in revs[n - 1].builds
    requires forall b :: b in index ==> index[b] == if b in before then before[b] else revs[n - 1].name
    ensures IsIndex(revs[..n], index)
  {
    forall b ensures Occurs(revs[..n], b) <==> b in index {
      OccursInPrefix(revs, n, b);
    }
    forall b, i | NewestWith(revs[..n], b, i) ensures b in index && index[b] == revs[i].name {
      NewestInPrefix(revs, n, b, i);
    }
  }

  /** A name that occurs has a newest revision, so the links are all determined. */
  lemma {:induction false} NewestExists(revs: seq<Revision>, b: string)
    requires Occurs(revs, b)
    ensures exists i :: NewestWith(revs, b, i)
  {
    var n := |revs|;
    var init := revs[..n - 1];
    assert revs[..n] == revs;
    if Occurs(init, b) {
      NewestExists(init, b);
      var i :| NewestWith(init, b, i);
      assert NewestWith(revs, b, i);
    } else {
      OccursInPrefix(revs, n, b);
      assert forall k :: 0 <= k < n - 1 ==> init[k] == revs[k];
      assert NewestWith(revs, b, n - 1);
    }
  }

  /** The index is determined by the revisions. */
  lemma IndexIsUnique(revs: seq<Revision>, a: Index, b: Index)
    requires IsIndex(revs, a) && IsIndex(revs, b)
    ensures a == b
  {
    forall name | name in a ensures a[name] == b[name] {
      NewestExists(revs, name);
    }
  }

  // ----- Replacing the index

  /** A directory can be there in part while it is filled, copied or removed. */
  datatype Dir = Absent | Partial | Complete

  datatype Dirs = Dirs(latest: Dir, kept: Dir, next: Dir)
  {
    /** Somewhere there is a complete index. */
    predicate Safe() { latest.Complete? || kept.Complete? || next.Complete? }
  }

  /** Where one run of the script is. */
  datatype Stage = ClearNew | MakeNew | FillNew | RemoveOld | KeepLatest | Install | Finished

  datatype Point = Point(stage: Stage, dirs: Dirs)

  /** The steps of one run.  Removing, and moving between file systems, take several steps; a rename within
      one file system takes one. */
  predicate Step(p: Point, q: Point)
  {
    var d := p.dirs;
    match p.stage
    case ClearNew =>
      q == Point(ClearNew, d.(next := if d.next.Absent? then Absent else Partial))
      || q == Point(MakeNew, d.(next := Absent))
    case MakeNew => q == Point(FillNew, d.(next := Partial))
    case FillNew => q == p || q == Point(RemoveOld, d.(next := Complete))
    case RemoveOld =>
      q == Point(RemoveOld, d.(kept := if d.kept.Absent? then Absent else Partial))
      || q == Point(KeepLatest, d.(kept := Absent))
    case KeepLatest => q == Point(Install, if d.latest.Absent? then d else d.(kept := d.latest, latest := Absent))
    case Install =>
      if d.latest.Complete? then
        q == Point(Install, d.(next := Partial)) || q == Point(Finished, d.(next := Absent))
      else
        q == Point(Install, d.(latest := Partial)) || q == Point(Install, d.(latest := Complete))
    case Finished => false
  }

  predicate StepAt(ps: seq<Point>, i: int)
  {
    0 <= i < |ps| - 1 && Step(ps[i], ps[i + 1])
  }

  /** A run of the script, possibly cut short. */
  ghost predicate IsRun(d: Dirs, ps: seq<Point>)
  {
    |ps| > 0 && ps[0] == Point(ClearNew, d) && forall i :: 0 <= i < |ps| - 1 ==> StepAt(ps, i)
  }

  predicate HasIndex(d: Dirs)
  {
    d.latest.Complete? || d.kept.Complete?
  }

  /** What is known at each stage of a run that began with an index. */
  predicate Invariant(p: Point)
  {
    match p.stage
    case ClearNew => HasIndex(p.dirs)
    case MakeNew => HasIndex(p.dirs)
    case FillNew => HasIndex(p.dirs)
    case RemoveOld => p.dirs.next.Complete?
    case KeepLatest => p.dirs.next.Complete?
    case Install => p.dirs.latest.Complete? || p.dirs.next.Complete?
    case Finished => p.dirs.latest.Complete?
  }

  lemma {:induction false} InvariantHolds(d: Dirs, ps: seq<Point>, i: nat)
    requires HasIndex(d) && IsRun(d, ps) && i < |ps|
    ensures Invariant(ps[i])
  {
    if i > 0 {
      InvariantHolds(d, ps, i - 1);
      assert StepAt(ps, i - 1);
    }
  }

  ghost predicate AlwaysSafe(d: Dirs)
  {
    forall ps: seq<Point>, i :: IsRun(d, ps) && 0 <= i < |ps| ==> ps[i].dirs.Safe()
  }

  /** At every step of a run a complete index exists if and only if latest or latest.old is complete at its
      start: a complete index that is only in latest.new is thrown away first. */
  lemma SafeThroughoutIff(d: Dirs)
    ensures AlwaysSafe(d) <==> HasIndex(d)
  {
    if HasIndex(d) {
      forall ps: seq<Point>, i | IsRun(d, ps) && 0 <= i < |ps| ensures ps[i].dirs.Safe() {
        InvariantHolds(d, ps, i);
      }
    } else {
      var ps := [Point(ClearNew, d), Point(MakeNew, d.(next := Absent))];
      assert IsRun(d, ps) && !ps[1].dirs.Safe();
    }
  }

  /** A run that begins with a complete latest leaves, wherever it is cut short, a complete index in latest
      or in latest.old, so that the next run is safe throughout as well. */
  lemma {:induction false} OneInterruptionIsHarmless(d: Dirs, ps: seq<Point>, i: nat)
    requires d.latest.Complete? && IsRun(d, ps) && i < |ps|
    ensures HasIndex(ps[i].dirs)
    ensures ps[i].stage in {ClearNew, MakeNew, FillNew, RemoveOld, KeepLatest} ==> ps[i].dirs.latest.Complete?
  {
    if i > 0 {
      OneInterruptionIsHarmless(d, ps, i - 1);
      assert StepAt(ps, i - 1);
    }
  }

  /** A run that is not cut short installs the new index and keeps the one before, whatever was there at its
      start. */
  lemma WholeRun(d: Dirs, ps: seq<Point>)
    requires IsRun(d, ps) && ps[|ps| - 1].stage == Finished
    ensures ps[|ps| - 1].dirs == Dirs(Complete, d.latest, Absent)
  {
    AtStage(d, ps, |ps| - 1);
  }

  /** There is such a run from wherever the script begins. */
  lemma RunCanFinish(d: Dirs) returns (ps: seq<Point>)
    ensures IsRun(d, ps) && ps[|ps| - 1].stage == Finished
  {
    ps := [Point(ClearNew, d), Point(MakeNew, d.(next := Absent)), Point(FillNew, d.(next := Partial)),
           Point(RemoveOld, d.(next := Complete)), Point(KeepLatest, Dirs(d.latest, Absent, Complete)),
           Point(Install, Dirs(Absent, d.latest, Complete)), Point(Install, Dirs(Complete, d.latest, Complete)),
           Point(Finished, Dirs(Complete, d.latest, Absent))];
  }

  /** What is where at each stage of a run that began with the directories d. */
  predicate Reached(d: Dirs, p: Point)
  {
    match p.stage
    case ClearNew => p.dirs.latest == d.latest && p.dirs.kept == d.kept
    case MakeNew => p.dirs == d.(next := Absent)
    case FillNew => p.dirs == d.(next := Partial)
    case RemoveOld => p.dirs.latest == d.latest && p.dirs.next == Complete
    case KeepLatest => p.dirs == Dirs(d.latest, Absent, Complete)
    case Install => p.dirs.kept == d.latest && (p.dirs.latest.Complete? || p.dirs.next.Complete?)
    case Finished => p.dirs == Dirs(Complete, d.latest, Absent)
  }

  lemma {:induction false} AtStage(d: Dirs, ps: seq<Point>, i: nat)
    requires IsRun(d, ps) && i < |ps|
    ensures Reached(d, ps[i])
  {
    if i > 0 {
      AtStage(d, ps, i - 1);
      assert StepAt(ps, i - 1);
    }
  }

  /** Two interruptions in a row can lose it: the first leaves the index in latest.old only, the second
      leaves a new one in latest.new only, and the third run begins by removing that. */
  lemma TwoInterruptionsCanLoseTheIndex() returns (first: seq<Point>, second: seq<Point>, third: seq<Point>)
    ensures first != [] && second != [] && third != []
    ensures IsRun(Dirs(Complete, Absent, Absent), first)
    ensures IsRun(first[|first| - 1].dirs, second)
    ensures IsRun(second[|second| - 1].dirs, third)
    ensures !third[|third| - 1].dirs.Safe()
  {
    first := [Point(ClearNew, Dirs(Complete, Absent, Absent)), Point(MakeNew, Dirs(Complete, Absent, Absent)),
              Point(FillNew, Dirs(Complete, Absent, Partial)), Point(RemoveOld, Dirs(Complete, Absent, Complete)),
              Point(KeepLatest, Dirs(Complete, Absent, Complete)), Point(Install, Dirs(Absent, Complete, Complete))];
    second := [Point(ClearNew, Dirs(Absent, Complete, Complete)), Point(MakeNew, Dirs(Absent, Complete, Absent)),
               Point(FillNew, Dirs(Absent, Complete, Partial)), Point(RemoveOld, Dirs(Absent, Complete, Complete)),
               Point(KeepLatest, Dirs(Absent, Absent, Complete))];
    third := [Point(ClearNew, Dirs(Absent, Absent, Complete)), Point(MakeNew, Dirs(Absent, Absent, Absent))];
  }
}
