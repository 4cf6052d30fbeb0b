/** String.prototype.replace with a string pattern: only the first
    occurrence of the pattern is replaced, and the replacement is inserted
    literally. The replacement patterns $&, $$, $` and $' are not expanded;
    this is exact for a replacement text without '$', such as the one the
    packaging script uses. */
module Strings {

  /** pat occurs in s starting at index i. */
  predicate OccursAt(s: string, pat: string, i: nat)
  {
    i + |pat| <= |s| && s[i..i + |pat|] == pat
  }

  function ReplaceFirst(s: string, pat: string, rep: string): string
    decreases |s|
  {
    if |s| < |pat| then s
    else if s[..|pat|] == pat then rep + s[|pat|..]
    else [s[0]] + ReplaceFirst(s[1..], pat, rep)
  }

  /** i is the first index at which pat occurs in s. */
  predicate FirstAt(s: string, pat: string, i: nat)
  {
    OccursAt(s, pat, i) && forall j :: 0 <= j < i ==> !OccursAt(s, pat, j)
  }

  /** pat occurs nowhere in s. */
  predicate Absent(s: string, pat: string)
  {
    forall j :: 0 <= j <= |s| ==> !OccursAt(s, pat, j)
  }

  /** The two cases of replacing the first occurrence, as one statement:
      a splice at the first index where pat occurs, or s itself when pat
      occurs nowhere. */
  lemma ReplaceFirstSpec(s: string, pat: string, rep: string)
    ensures forall i: nat :: FirstAt(s, pat, i) ==> ReplaceFirst(s, pat, rep) == s[..i] + rep + s[i + |pat|..]
    ensures Absent(s, pat) ==> ReplaceFirst(s, pat, rep) == s
  {
    forall i: nat | FirstAt(s, pat, i)
      ensures ReplaceFirst(s, pat, rep) == s[..i] + rep + s[i + |pat|..]
    {
      ReplaceFirstAt(s, pat, rep, i);
    }
    if Absent(s, pat) {
      ReplaceFirstAbsent(s, pat, rep);
    }
  }

  lemma OccursShift(s: string, pat: string, i: nat)
    requires s != ""
    ensures OccursAt(s, pat, i + 1) <==> OccursAt(s[1..], pat, i)
  {
    if i + 1 + |pat| <= |s| {
      assert s[1..][i..i + |pat|] == s[i + 1..i + 1 + |pat|];
    }
  }

  /** Where the first occurrence of pat is at i, the result is s with that
      one occurrence replaced. */
  lemma {:induction false} ReplaceFirstAt(s: string, pat: string, rep: string, i: nat)
    requires OccursAt(s, pat, i)
    requires forall j :: 0 <= j < i ==> !OccursAt(s, pat, j)
    ensures ReplaceFirst(s, pat, rep) == s[..i] + rep + s[i + |pat|..]
    decreases i
  {
    if i == 0 {
      assert s[..|pat|] == pat;
      assert s[..0] == "";
    } else {
      var t := s[1..];
      assert !OccursAt(s, pat, 0);
      ReplaceFirstSkip(s, pat, rep);
      OccursShift(s, pat, i - 1);
      forall j | 0 <= j < i - 1
        ensures !OccursAt(t, pat, j)
      {
        OccursShift(s, pat, j);
      }
      ReplaceFirstAt(t, pat, rep, i - 1);
      ConsSplice(s, rep, i, i + |pat|);
    }
  }

  /** pat cannot occur where s has a character other than pat's first. */
  lemma MismatchAt(s: string, pat: string, j: nat)
    requires j < |s| && pat != "" && s[j] != pat[0]
    ensures !OccursAt(s, pat, j)
  {
    if j + |pat| <= |s| {
      assert s[j..j + |pat|][0] == s[j];
    }
  }

  /** Without a match at the start, the first character is kept. */
  lemma ReplaceFirstSkip(s: string, pat: string, rep: string)
    requires s != "" && !OccursAt(s, pat, 0)
    ensures ReplaceFirst(s, pat, rep) == [s[0]] + ReplaceFirst(s[1..], pat, rep)
  {
    if |s| >= |pat| {
      assert s[..|pat|] == s[0..|pat|];
    }
  }

  /** Splicing rep into the tail and then putting the head back is splicing
      it into the whole string. */
  lemma ConsSplice(s: string, rep: string, i: nat, j: nat)
    requires 0 < i <= j <= |s|
    ensures [s[0]] + (s[1..][..i - 1] + rep + s[1..][j - 1..]) == s[..i] + rep + s[j..]
  {
    assert [s[0]] + s[1..][..i - 1] == s[..i];
    assert s[1..][j - 1..] == s[j..];
  }

  /** Without an occurrence of pat, s is returned unchanged. */
  lemma {:induction false} ReplaceFirstAbsent(s: string, pat: string, rep: string)
    requires forall j :: 0 <= j <= |s| ==> !OccursAt(s, pat, j)
    ensures ReplaceFirst(s, pat, rep) == s
    decreases |s|
  {
    if |s| < |pat| {
    } else {
      assert !OccursAt(s, pat, 0);
      assert s[..|pat|] != pat;
      forall j | 0 <= j <= |s[1..]|
        ensures !OccursAt(s[1..], pat, j)
      {
        OccursShift(s, pat, j);
      }
      ReplaceFirstAbsent(s[1..], pat, rep);
      assert [s[0]] + s[1..] == s;
    }
  }
}
