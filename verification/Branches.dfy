/** The branch lists of buildbot/maria-master.cfg. */
module Branches {

  const MAIN_BRANCHES: seq<string> :=
    ["10.6", "10.10", "10.11", "11.0", "11.1", "11.2", "11.3", "11.4", "11.5", "11.6", "11.7", "11.8", "12.0"]

  /** What a branch name stands for, to be compared with others as numbers. */
  type Version = (nat, nat)

  const MAIN_VERSIONS: seq<Version> :=
    [(10, 6), (10, 10), (10, 11), (11, 0), (11, 1), (11, 2), (11, 3), (11, 4), (11, 5), (11, 6), (11, 7), (11, 8),
     (12, 0)]

  /** ["bb-" + s + suffix for s in branches] */
  function Decorated(branches: seq<string>, suffix: string): (r: seq<string>)
    ensures |r| == |branches| && forall i :: 0 <= i < |r| ==> r[i] == "bb-" + branches[i] + suffix
  {
    seq(|branches|, i requires 0 <= i < |branches| => "bb-" + branches[i] + suffix)
  }

  predicate HasPrefix(s: string, prefix: string)
  {
    prefix <= s
  }

  predicate HasSuffix(s: string, suffix: string)
  {
    |s| >= |suffix| && s[|s| - |suffix|..] == suffix
  }
}
