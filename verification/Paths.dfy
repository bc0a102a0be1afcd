// Relative paths as lists of normal segments (no empty segment and no "."),
// and the few facts about prefixes that the path arguments rest on.
module Paths {

  type Path = seq<string>

  // What is left of p below its prefix a.
  function Below(a: Path, p: Path): (r: Path)
    requires a <= p
    ensures p == a + r
  {
    p[|a|..]
  }

  function Parent(p: Path): Path
    requires p != []
  {
    p[..|p| - 1]
  }

  lemma PrefixesCompare(a: Path, b: Path, p: Path)
    requires a <= p && b <= p && |a| <= |b|
    ensures a <= b
    ensures |a| == |b| ==> a == b
  {
    assert a == p[..|a|] == b[..|a|];
  }

  lemma PrefixTransitive(a: Path, b: Path, c: Path)
    requires a <= b && b <= c
    ensures a <= c
    ensures Below(a, c) == Below(a, b) + Below(b, c)
  {
    assert c == a + (Below(a, b) + Below(b, c));
  }

  // a + r sits below a, and the rest is r again.
  lemma BelowAppend(a: Path, r: Path)
    ensures a <= a + r
    ensures Below(a, a + r) == r
  {
  }

  // Two prefixes of one path leave comparable rests.
  lemma AppendCancels(a: Path, r: Path, s: Path)
    requires a + r == a + s
    ensures r == s
  {
    BelowAppend(a, r);
    BelowAppend(a, s);
  }

  lemma ParentPrefix(a: Path, p: Path)
    requires a < p
    ensures p != [] && a <= Parent(p)
  {
    assert Parent(p) < p;
    PrefixesCompare(a, Parent(p), p);
  }
}
