/**
 * The part of std::string that the parsers of the system use: find(), which
 * returns the index of the first occurrence of a pattern or npos (here None).
 */
module Strings {
  import opened Wrappers

  /** pat occurs in s starting at index i. */
  predicate OccursAt(s: string, pat: string, i: nat) {
    i + |pat| <= |s| && s[i..i + |pat|] == pat
  }

  /** i is the first occurrence of pat in s at or after from. */
  predicate IsFirstFrom(s: string, pat: string, from: nat, i: nat) {
    from <= i && OccursAt(s, pat, i) && forall k :: from <= k < i ==> !OccursAt(s, pat, k)
  }

  /** std::string::find(pat, from). */
  function FindFrom(s: string, pat: string, from: nat): (r: Option<nat>)
    decreases |s| - from
    ensures r.Some? ==> IsFirstFrom(s, pat, from, r.value)
    ensures r.None? ==> forall k :: from <= k ==> !OccursAt(s, pat, k)
  {
    if from + |pat| > |s| then None
    else if s[from..from + |pat|] == pat then Some(from)
    else FindFrom(s, pat, from + 1)
  }

  /** std::string::find(pat), searching from the start. */
  function Find(s: string, pat: string): (r: Option<nat>)
    ensures r.Some? ==> IsFirstFrom(s, pat, 0, r.value)
    ensures r.None? ==> forall k :: !OccursAt(s, pat, k)
  {
    FindFrom(s, pat, 0)
  }

  /** The first occurrence is unique, so find() is determined by it. */
  lemma FindIsFirst(s: string, pat: string, i: nat)
    requires IsFirstFrom(s, pat, 0, i)
    ensures Find(s, pat) == Some(i)
  {
  }

  /** Searching a suffix finds the first occurrence at or after the cut, shifted. */
  lemma OccursInSuffix(s: string, pat: string, cut: nat, k: nat)
    requires cut <= |s|
    ensures OccursAt(s[cut..], pat, k) <==> OccursAt(s, pat, cut + k)
  {
    if k + |pat| <= |s| - cut {
      assert s[cut..][k..k + |pat|] == s[cut + k..cut + k + |pat|];
    }
  }

  lemma {:induction false} FindInSuffix(s: string, pat: string, cut: nat, i: nat)
    requires cut <= |s|
    requires IsFirstFrom(s, pat, cut, cut + i)
    ensures Find(s[cut..], pat) == Some(i)
  {
    OccursInSuffix(s, pat, cut, i);
    forall k | 0 <= k < i
      ensures !OccursAt(s[cut..], pat, k)
    {
      OccursInSuffix(s, pat, cut, k);
    }
    FindIsFirst(s[cut..], pat, i);
  }

  lemma {:induction false} FindInSuffixNone(s: string, pat: string, cut: nat)
    requires cut <= |s|
    requires forall k :: cut <= k ==> !OccursAt(s, pat, k)
    ensures Find(s[cut..], pat) == None
  {
    forall k: nat
      ensures !OccursAt(s[cut..], pat, k)
    {
      OccursInSuffix(s, pat, cut, k);
    }
  }
}
