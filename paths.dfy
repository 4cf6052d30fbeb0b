/** Paths as sequences of segments: "out/_locales/en/messages.json" is
    ["out", "_locales", "en", "messages.json"]. Joining two paths is
    concatenation, the base name is the last segment and the parent
    directory is everything before it; the empty path is the current
    directory. */
module Paths {

  type Path = seq<string>

  /** A segment is a non-empty name without a separator. */
  predicate IsSegment(x: string) {
    x != "" && '/' !in x
  }

  predicate WellFormed(p: Path) {
    forall i :: 0 <= i < |p| ==> IsSegment(p[i])
  }

  /** Number of characters before the first '/' of s (all of s if it has none). */
  function SegmentLength(s: string): (n: nat)
    ensures n <= |s|
    ensures forall i :: 0 <= i < n ==> s[i] != '/'
    ensures n < |s| ==> s[n] == '/'
    ensures s != "" && s[0] != '/' ==> n > 0
  {
    if s == "" || s[0] == '/' then 0 else 1 + SegmentLength(s[1..])
  }

  /** Parses a path string into its segments; repeated, leading and trailing
      separators produce no empty segments. */
  function Split(s: string): (p: Path)
    ensures WellFormed(p)
    decreases |s|
  {
    if s == "" then []
    else if s[0] == '/' then Split(s[1..])
    else
      var n := SegmentLength(s);
      assert forall c :: c in s[..n] ==> c != '/';
      [s[..n]] + Split(s[n..])
  }

  /** Writes a path back as a string, segments separated by '/'. */
  function Render(p: Path): string
  {
    if p == [] then ""
    else if |p| == 1 then p[0]
    else p[0] + "/" + Render(p[1..])
  }

  /** The directory holding p; the current directory is its own parent. */
  function Parent(p: Path): (q: Path)
    ensures |q| == if p == [] then 0 else |p| - 1
    ensures q <= p
  {
    if p == [] then [] else p[..|p| - 1]
  }

  /** Every directory on the way to p, p itself and the current directory included. */
  function Prefixes(p: Path): set<Path>
  {
    set k | 0 <= k <= |p| :: p[..k]
  }

  lemma PrefixesHoldEnds(p: Path)
    ensures [] in Prefixes(p) && p in Prefixes(p)
  {
    assert p[..0] == [] && p[..|p|] == p;
  }

  /** The set of prefixes is closed under taking the parent. */
  lemma PrefixesClosed(p: Path)
    ensures forall q :: q in Prefixes(p) ==> Parent(q) in Prefixes(p)
  {
    forall q | q in Prefixes(p)
      ensures Parent(q) in Prefixes(p)
    {
      var k :| 0 <= k <= |p| && q == p[..k];
      if k > 0 {
        assert Parent(q) == p[..k - 1];
      } else {
        assert Parent(q) == p[..0];
      }
    }
  }

  lemma {:induction false} SegmentLengthOf(x: string, rest: string)
    requires '/' !in x
    requires rest == "" || rest[0] == '/'
    ensures SegmentLength(x + rest) == |x|
    decreases |x|
  {
    if x == "" {
      assert x + rest == rest;
    } else {
      assert (x + rest)[1..] == x[1..] + rest;
      SegmentLengthOf(x[1..], rest);
    }
  }

  /** A single segment parses to itself. */
  lemma SplitSegment(x: string)
    requires IsSegment(x)
    ensures Split(x) == [x]
  {
    SegmentLengthOf(x, "");
    assert x + "" == x;
    assert x[..|x|] == x && x[|x|..] == "";
  }

  /** Parsing undoes rendering. */
  lemma {:induction false} SplitRender(p: Path)
    requires WellFormed(p)
    ensures Split(Render(p)) == p
    decreases |p|
  {
    if p == [] {
    } else if |p| == 1 {
      SplitSegment(p[0]);
    } else {
      var x, r := p[0], Render(p[1..]);
      var s := x + "/" + r;
      SegmentLengthOf(x, "/" + r);
      assert x + ("/" + r) == s;
      assert s[..|x|] == x;
      assert s[|x|..] == "/" + r;
      assert ("/" + r)[1..] == r;
      SplitRender(p[1..]);
      assert Split(s) == [x] + Split("/" + r);
      assert [x] + p[1..] == p;
    }
  }

  /** Everything up to the first '/' is the same when a string starting
      with '/' is appended. */
  lemma {:induction false} SegmentLengthAppend(a: string, rest: string)
    requires rest != "" && rest[0] == '/'
    ensures SegmentLength(a + rest) == SegmentLength(a)
    decreases |a|
  {
    if a == "" {
      assert a + rest == rest;
    } else if a[0] != '/' {
      assert (a + rest)[1..] == a[1..] + rest;
      SegmentLengthAppend(a[1..], rest);
    }
  }

  /** path.join(a, b): parsing two strings joined by '/' gives the segments
      of the first followed by those of the second. */
  lemma {:induction false} SplitJoin(a: string, b: string)
    ensures Split(a + "/" + b) == Split(a) + Split(b)
    decreases |a|
  {
    var s := a + "/" + b;
    if a == "" {
      assert s == "/" + b && s[1..] == b;
    } else if a[0] == '/' {
      assert s[1..] == a[1..] + "/" + b;
      SplitJoin(a[1..], b);
    } else {
      var n := SegmentLength(a);
      assert s == a + ("/" + b);
      SegmentLengthAppend(a, "/" + b);
      assert s[..n] == a[..n];
      assert s[n..] == a[n..] + "/" + b;
      SplitJoin(a[n..], b);
    }
  }

  /** path.join(a, q) for a relative path q written as a string: the
      segments of a followed by those of q. */
  lemma JoinPath(a: string, q: Path)
    requires WellFormed(q)
    ensures Split(a + "/" + Render(q)) == Split(a) + q
  {
    SplitJoin(a, Render(q));
    SplitRender(q);
  }

  /** A path d + [x] never equals the one-segment path [y] when x and y
      differ in their first character. */
  lemma EndsDiffer(d: Path, x: string, y: string)
    requires |x| > 0 && |y| > 0 && x[0] != y[0]
    ensures d + [x] != [y]
  {
    assert (d + [x])[|d|] == x;
  }
}
