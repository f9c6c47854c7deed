/** Substrings. */
module Text {

  predicate ContainsAt(s: string, part: string, i: int)
  {
    0 <= i <= |s| - |part| && forall k :: 0 <= k < |part| ==> s[i + k] == part[k]
  }

  predicate Contains(s: string, part: string)
  {
    exists i :: 0 <= i <= |s| && ContainsAt(s, part, i)
  }

  lemma ContainsIff(s: string, part: string)
    ensures Contains(s, part) <==> exists before, after :: s == before + part + after
  {
    if i :| 0 <= i <= |s| && ContainsAt(s, part, i) {
      assert s[i..i + |part|] == part;
      assert s == s[..i] + part + s[i + |part|..];
    }
    if before, after :| s == before + part + after {
      assert forall k :: 0 <= k < |part| ==> s[|before| + k] == part[k];
      assert ContainsAt(s, part, |before|);
    }
  }
}
