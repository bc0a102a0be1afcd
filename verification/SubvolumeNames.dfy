// Subvolume names as validate_subvolumes handles them, as text, and why lists of
// segments stand for them.
module SubvolumeNames {
  import opened Paths

  ghost predicate Normal(p: Path) {
    forall i :: 0 <= i < |p| ==> p[i] != [] && '/' !in p[i]
  }

  function Text(p: Path): string {
    if p == [] then "" else if |p| == 1 then p[0] else p[0] + "/" + Text(p[1..])
  }

  // A text with its first slash after s starts a text with its first slash after
  // t exactly when the two agree up to the slash and the rest starts the rest.
  lemma FirstSegment(s: string, x: string, t: string, y: string)
    requires '/' !in s && '/' !in t
    ensures s + "/" + x <= t + "/" + y <==> s == t && x <= y
  {
    var a, b := s + "/" + x, t + "/" + y;
    assert a[|s|] == '/' && b[|t|] == '/';
    assert forall i :: 0 <= i < |s| ==> a[i] == s[i];
    assert forall i :: 0 <= i < |t| ==> b[i] == t[i];
    assert |s| < |t| ==> t[|s|] in t;
    assert |t| < |s| ==> s[|t|] in s;
    if a <= b {
      assert s == t;
      assert x == a[|s| + 1..] && y == b[|s| + 1..];
      assert x == y[..|x|];
    }
    if s == t && x <= y {
      assert b[..|a|] == a;
    }
  }

  lemma NoSlash(s: string, x: string, t: string)
    requires '/' !in t
    ensures !(s + "/" + x <= t)
  {
    var a := s + "/" + x;
    assert a[|s|] == '/';
    assert |s| < |t| ==> t[|s|] in t;
  }

  // name.startswith(other + '/') is being strictly below other.
  lemma {:induction false} StartsWithIsBelow(a: Path, b: Path)
    requires Normal(a) && Normal(b) && a != [] && b != []
    ensures Text(a) + "/" <= Text(b) <==> a < b
    decreases |a|
  {
    assert a == [a[0]] + a[1..] && b == [b[0]] + b[1..];
    var x := if |a| == 1 then "" else Text(a[1..]) + "/";
    assert Text(a) + "/" == a[0] + "/" + x;
    if |b| == 1 {
      NoSlash(a[0], x, b[0]);
    } else {
      FirstSegment(a[0], x, b[0], Text(b[1..]));
      if |a| > 1 { StartsWithIsBelow(a[1..], b[1..]); }
    }
  }

  // name[len(other) + 1:] is what is left of the segments,
  lemma {:induction false} RestOfName(a: Path, b: Path)
    requires Normal(a) && Normal(b) && a != [] && a < b
    ensures |Text(a)| + 1 <= |Text(b)| && Text(b)[|Text(a)| + 1..] == Text(b[|a|..])
    decreases |a|
  {
    var n := |a[0]|;
    assert a[0] == b[0] && Text(b) == b[0] + "/" + Text(b[1..]);
    assert Text(b)[n + 1..] == Text(b[1..]);
    if |a| > 1 {
      RestOfName(a[1..], b[1..]);
      assert b[1..][|a[1..]|..] == b[|a|..];
      assert Text(b)[|Text(a)| + 1..] == Text(b)[n + 1..][|Text(a[1..])| + 1..];
    }
  }

  // and the longest of a name's containers as text has the most segments.
  lemma LongerText(a: Path, b: Path, name: Path)
    requires Normal(name) && a != [] && b != [] && a < name && b < name
    ensures |Text(a)| < |Text(b)| <==> |a| < |b|
  {
    if |a| <= |b| { PrefixesCompare(a, b, name); } else { PrefixesCompare(b, a, name); }
    assert Normal(a) && Normal(b);
    if a < b { RestOfName(a, b); }
    if b < a { RestOfName(b, a); }
  }
}
