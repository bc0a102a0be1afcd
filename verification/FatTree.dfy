// copy_fat_tree and remove_fat_tree: splitting a directory tree between the
// Btrfs volume and a FAT boot filesystem, around the mountpoints to keep.
module FatTree {
  import opened Wrappers
  import opened Paths
  import opened Volume

  // What a directory entry turns out to be once symlinks are followed.
  datatype Kind = DirAt(place: Path) | FileOf(content: string) | Neither

  // follow gives the resolved target of every symlink that has one.
  function Look(t: Tree, follow: map<Path, Path>, x: Path): Kind
    requires x in t
  {
    var y := if t[x].Link? && x in follow then follow[x] else x;
    if y !in t then Neither
    else match t[y]
      case File(c) => FileOf(c)
      case Link(_) => Neither
      case _ => DirAt(y)
  }

  // Where a path leads once the symlinks on the way to it, and at its end, are
  // followed.
  function Real(t: Tree, follow: map<Path, Path>, x: Path): Path {
    if x == [] then []
    else
      var q := Real(t, follow, Parent(x)) + [x[|x| - 1]];
      if q in t && t[q].Link? && q in follow then follow[q] else q
  }

  // content.is_symlink(): only the last name of the path is looked at.
  predicate EndsInLink(t: Tree, follow: map<Path, Path>, x: Path) {
    x != [] &&
    var q := Real(t, follow, Parent(x)) + [x[|x| - 1]];
    q in t && t[q].Link?
  }

  // A path without symlinks leads to itself.
  lemma {:induction false} RealIsItself(t: Tree, follow: map<Path, Path>, x: Path)
    requires !LinkOnPath(t, x)
    ensures Real(t, follow, x) == x && !EndsInLink(t, follow, x)
    decreases |x|
  {
    if x != [] {
      NoLinkAbove(t, x);
      RealIsItself(t, follow, Parent(x));
      assert Parent(x) + [x[|x| - 1]] == x;
    }
  }

  lemma NoLinkAbove(t: Tree, x: Path)
    requires x != [] && !LinkOnPath(t, x)
    ensures !LinkOnPath(t, Parent(x)) && (x in t ==> !t[x].Link?)
  {
    var up := Parent(x);
    forall k | 0 < k <= |up| && up[..k] in t ensures !t[up[..k]].Link? {
      assert up[..k] == x[..k];
    }
    assert x == x[..|x|];
  }

  // The first symlink on a path replaces all that led to it.
  lemma {:induction false} RealThroughLink(t: Tree, follow: map<Path, Path>, a: Path, n: string, rest: Path)
    requires !LinkOnPath(t, a) && a + [n] in t && t[a + [n]].Link? && a + [n] in follow
    requires forall k :: 0 < k <= |rest| ==> NoLinkAt(t, follow[a + [n]] + rest[..k])
    ensures Real(t, follow, a + [n] + rest) == follow[a + [n]] + rest
    decreases |rest|
  {
    var x := a + [n] + rest;
    if rest == [] {
      RealIsItself(t, follow, a);
      assert x == a + [n] && Parent(x) == a;
    } else {
      var front, last := rest[..|rest| - 1], rest[|rest| - 1];
      forall k | 0 < k <= |front| ensures NoLinkAt(t, follow[a + [n]] + front[..k]) {
        assert front[..k] == rest[..k];
      }
      RealThroughLink(t, follow, a, n, front);
      assert Parent(x) == a + [n] + front && x[|x| - 1] == last;
      assert follow[a + [n]] + front + [last] == follow[a + [n]] + rest;
      assert rest == rest[..|rest|];
    }
  }

  predicate NoLinkAt(t: Tree, x: Path) {
    x in t ==> !t[x].Link?
  }

  // A path is a symlink itself when its last name is one.
  lemma EndsInLinkIff(t: Tree, follow: map<Path, Path>, x: Path)
    requires x != [] && !LinkOnPath(t, Parent(x))
    ensures EndsInLink(t, follow, x) <==> x in t && t[x].Link?
  {
    RealIsItself(t, follow, Parent(x));
    assert Parent(x) + [x[|x| - 1]] == x;
  }

  function Inner(keep: set<Path>, name: string): set<Path> {
    set k | k in keep && [name] <= k :: k[1..]
  }

  // The file copy_fat_tree leaves at p below its destination.
  function Copied(t: Tree, follow: map<Path, Path>, d: Path, keep: set<Path>, seen: set<Path>, p: Path): Option<string>
    decreases |p|
  {
    if d in seen || p == [] || [p[0]] in keep || d + [p[0]] !in t then None
    else match Look(t, follow, d + [p[0]])
      case FileOf(c) => if |p| == 1 then Some(c) else None
      case DirAt(inside) => Copied(t, follow, inside, Inner(keep, p[0]), seen + {d}, p[1..])
      case Neither => None
  }

  // ----- which files a copy reaches, without following the recursion

  // x is a directory, or a symlink that leads to one, and y is that directory.
  ghost predicate Enters(t: Tree, follow: map<Path, Path>, x: Path, y: Path) {
    && x in t && HasDir(t, y)
    && if t[x].Link? then x in follow && follow[x] == y else x == y
  }

  // x is a file with that content, or a symlink that leads to one.
  ghost predicate Holds(t: Tree, follow: map<Path, Path>, x: Path, c: string) {
    && x in t
    && (t[x] == File(c) || (t[x].Link? && x in follow && follow[x] in t && t[follow[x]] == File(c)))
  }

  lemma LookMeans(t: Tree, follow: map<Path, Path>, x: Path)
    requires x in t
    ensures forall y :: Look(t, follow, x) == DirAt(y) <==> Enters(t, follow, x, y)
    ensures forall c :: Look(t, follow, x) == FileOf(c) <==> Holds(t, follow, x, c)
  {
  }

  // dirs[i] is the real directory in which the i-th name of p is looked up.
  ghost predicate Walk(t: Tree, follow: map<Path, Path>, d: Path, p: Path, dirs: seq<Path>) {
    && |dirs| == |p| > 0 && dirs[0] == d
    && (forall i :: 0 <= i < |p| ==> dirs[i] + [p[i]] in t)
    && (forall i :: 0 <= i < |p| - 1 ==> Enters(t, follow, dirs[i] + [p[i]], dirs[i + 1]))
  }

  ghost predicate NeverReenters(dirs: seq<Path>, seen: set<Path>) {
    && (forall i :: 0 <= i < |dirs| ==> dirs[i] !in seen)
    && (forall i, j :: 0 <= i < j < |dirs| ==> dirs[i] != dirs[j])
  }

  ghost predicate Kept(keep: set<Path>, p: Path) {
    exists k :: k in keep && k <= p
  }

  ghost predicate Reaches(t: Tree, follow: map<Path, Path>, d: Path, keep: set<Path>, seen: set<Path>,
                          p: Path, c: string) {
    exists dirs :: CopyWalk(t, follow, d, keep, seen, p, c, dirs)
  }

  ghost predicate CopyWalk(t: Tree, follow: map<Path, Path>, d: Path, keep: set<Path>, seen: set<Path>,
                           p: Path, c: string, dirs: seq<Path>) {
    && Walk(t, follow, d, p, dirs)
    && NeverReenters(dirs, seen)
    && !Kept(keep, p)
    && Holds(t, follow, dirs[|p| - 1] + [p[|p| - 1]], c)
  }

  lemma InnerKept(keep: set<Path>, p: Path)
    requires p != [] && [] !in keep && [p[0]] !in keep
    ensures Kept(Inner(keep, p[0]), p[1..]) <==> Kept(keep, p)
    ensures [] !in Inner(keep, p[0])
  {
    assert p == [p[0]] + p[1..];
    if Kept(keep, p) {
      var k :| k in keep && k <= p;
      assert [p[0]] <= k && k[1..] <= p[1..];
      assert k[1..] in Inner(keep, p[0]);
    }
    if Kept(Inner(keep, p[0]), p[1..]) {
      var j :| j in Inner(keep, p[0]) && j <= p[1..];
      var k :| k in keep && [p[0]] <= k && k[1..] == j;
      assert k == [p[0]] + j;
    }
    forall k | k in keep && [p[0]] <= k ensures k[1..] != [] {
      assert k != [p[0]] && k == [p[0]] + k[1..];
    }
  }

  // copy_fat_tree leaves exactly the files at the end of the walks that avoid
  // the kept paths and never enter a directory already on the walk.
  lemma {:induction false} CopiesTheReachable(t: Tree, follow: map<Path, Path>, d: Path,
                                              keep: set<Path>, seen: set<Path>, p: Path, c: string)
    requires [] !in keep
    ensures Copied(t, follow, d, keep, seen, p) == Some(c) <==> Reaches(t, follow, d, keep, seen, p, c)
    decreases |p|
  {
    if p != [] && [p[0]] !in keep && d !in seen && d + [p[0]] in t {
      InnerKept(keep, p);
      LookMeans(t, follow, d + [p[0]]);
      match Look(t, follow, d + [p[0]])
      case DirAt(inside) =>
        CopiesTheReachable(t, follow, inside, Inner(keep, p[0]), seen + {d}, p[1..], c);
        if Copied(t, follow, d, keep, seen, p) == Some(c) {
          var dirs :| CopyWalk(t, follow, inside, Inner(keep, p[0]), seen + {d}, p[1..], c, dirs);
          LongerWalk(t, follow, d, keep, seen, p, c, inside, dirs);
        }
        if dirs :| CopyWalk(t, follow, d, keep, seen, p, c, dirs) {
          ShorterWalk(t, follow, d, keep, seen, p, c, inside, dirs);
        }
      case FileOf(x) =>
        if |p| == 1 && x == c {
          assert !Kept(keep, p) by { OnlyItself(keep, p); }
          assert CopyWalk(t, follow, d, keep, seen, p, c, [d]);
        }
        if dirs :| CopyWalk(t, follow, d, keep, seen, p, c, dirs) {
          FirstStep(t, follow, d, keep, seen, p, c, dirs);
        }
      case Neither =>
        if dirs :| CopyWalk(t, follow, d, keep, seen, p, c, dirs) {
          FirstStep(t, follow, d, keep, seen, p, c, dirs);
        }
    } else if dirs :| CopyWalk(t, follow, d, keep, seen, p, c, dirs) {
      FirstStep(t, follow, d, keep, seen, p, c, dirs);
    }
  }

  lemma FirstStep(t: Tree, follow: map<Path, Path>, d: Path, keep: set<Path>, seen: set<Path>,
                  p: Path, c: string, dirs: seq<Path>)
    requires CopyWalk(t, follow, d, keep, seen, p, c, dirs)
    ensures p != [] && d !in seen && [p[0]] !in keep && d + [p[0]] in t
    ensures |p| == 1 ==> Holds(t, follow, d + [p[0]], c)
    ensures |p| > 1 ==> exists y :: Enters(t, follow, d + [p[0]], y)
  {
    assert d == dirs[0];
    assert [p[0]] <= p;
    assert |p| > 1 ==> Enters(t, follow, dirs[0] + [p[0]], dirs[1]);
  }

  lemma OnlyItself(keep: set<Path>, p: Path)
    requires |p| == 1 && [] !in keep && [p[0]] !in keep
    ensures !Kept(keep, p)
  {
    forall k | k in keep ensures !(k <= p) {
      assert k != [] && k != [p[0]];
    }
  }

  lemma LongerWalk(t: Tree, follow: map<Path, Path>, d: Path, keep: set<Path>, seen: set<Path>,
                   p: Path, c: string, inside: Path, dirs: seq<Path>)
    requires p != [] && [] !in keep && [p[0]] !in keep && d !in seen && d + [p[0]] in t
    requires Enters(t, follow, d + [p[0]], inside)
    requires CopyWalk(t, follow, inside, Inner(keep, p[0]), seen + {d}, p[1..], c, dirs)
    ensures CopyWalk(t, follow, d, keep, seen, p, c, [d] + dirs)
  {
    InnerKept(keep, p);
    var all := [d] + dirs;
    forall i | 0 <= i < |p| ensures all[i] + [p[i]] in t {
      if i > 0 { assert p[i] == p[1..][i - 1]; }
    }
    forall i | 0 <= i < |p| - 1 ensures Enters(t, follow, all[i] + [p[i]], all[i + 1]) {
      if i > 0 { assert p[i] == p[1..][i - 1]; }
    }
  }

  lemma ShorterWalk(t: Tree, follow: map<Path, Path>, d: Path, keep: set<Path>, seen: set<Path>,
                    p: Path, c: string, inside: Path, dirs: seq<Path>)
    requires p != [] && [] !in keep && [p[0]] !in keep && d + [p[0]] in t
    requires Enters(t, follow, d + [p[0]], inside)
    requires CopyWalk(t, follow, d, keep, seen, p, c, dirs)
    ensures CopyWalk(t, follow, inside, Inner(keep, p[0]), seen + {d}, p[1..], c, dirs[1..])
  {
    InnerKept(keep, p);
    var rest, below := dirs[1..], p[1..];
    assert |p| > 1;
    forall i | 0 <= i < |below| ensures rest[i] + [below[i]] in t {
      assert dirs[i + 1] + [p[i + 1]] in t;
    }
    forall i | 0 <= i < |below| - 1 ensures Enters(t, follow, rest[i] + [below[i]], rest[i + 1]) {
      assert Enters(t, follow, dirs[i + 1] + [p[i + 1]], dirs[i + 2]);
    }
  }

  // A symlink to a file is copied as the file it leads to,
  lemma LinkedFileIsCopied(t: Tree, follow: map<Path, Path>, d: Path, keep: set<Path>, seen: set<Path>,
                           n: string, c: string)
    requires d + [n] in t && t[d + [n]].Link? && d + [n] in follow
    requires follow[d + [n]] in t && t[follow[d + [n]]] == File(c)
    requires [n] !in keep && d !in seen
    ensures Copied(t, follow, d, keep, seen, [n]) == Some(c)
  {
  }

  // and a symlink to a directory as a directory with what a copy of that one
  // has, unless the directory is already on the way there.
  lemma LinkedDirectoryIsCopied(t: Tree, follow: map<Path, Path>, d: Path, keep: set<Path>, seen: set<Path>,
                                n: string, p: Path)
    requires d + [n] in t && t[d + [n]].Link? && d + [n] in follow && HasDir(t, follow[d + [n]])
    requires [n] !in keep && d !in seen
    ensures var inside := follow[d + [n]];
      && Copied(t, follow, d, keep, seen, [n] + p) == Copied(t, follow, inside, Inner(keep, n), seen + {d}, p)
      && (Made(t, follow, d, keep, seen, [n]) <==> inside != d && inside !in seen)
  {
    var all, inside := [n] + p, follow[d + [n]];
    assert all[0] == n && all[1..] == p && d + [all[0]] == d + [n];
    assert Look(t, follow, d + [n]) == DirAt(inside);
    assert [n][0] == n && [n][1..] == [];
  }

  // ----- the copy itself

  // Directories the walk may still enter; each level of recursion uses one up.
  ghost function Unseen(t: Tree, seen: set<Path>): set<Path> {
    (set q | q in t && IsDir(t[q])) - seen
  }

  // At q: the file sent there, if any, over what was there before.
  ghost predicate OverlaidAt(before: map<Path, string>, after: map<Path, string>, sent: Option<string>, q: Path) {
    && (q in after <==> sent.Some? || q in before)
    && (q in after ==> after[q] == if sent.Some? then sent.value else before[q])
  }

  // The file a whole copy to destination leaves at q.
  ghost function Landed(t: Tree, follow: map<Path, Path>, d: Path, destination: Path,
                        keep: set<Path>, seen: set<Path>, q: Path): Option<string> {
    if destination <= q then Copied(t, follow, d, keep, seen, q[|destination|..]) else None
  }

  // The directories a copy makes, its destination included.
  predicate Made(t: Tree, follow: map<Path, Path>, d: Path, keep: set<Path>, seen: set<Path>, p: Path)
    decreases |p|
  {
    if d in seen then false
    else if p == [] then true
    else if [p[0]] in keep || d + [p[0]] !in t then false
    else match Look(t, follow, d + [p[0]])
      case DirAt(inside) => Made(t, follow, inside, Inner(keep, p[0]), seen + {d}, p[1..])
      case _ => false
  }

  ghost predicate MadeAt(t: Tree, follow: map<Path, Path>, d: Path, destination: Path,
                         keep: set<Path>, seen: set<Path>, q: Path) {
    destination <= q && Made(t, follow, d, keep, seen, q[|destination|..])
  }

  // The directories made once the entries in done have been handled.
  ghost predicate MadeFor(t: Tree, follow: map<Path, Path>, d: Path, destination: Path,
                          keep: set<Path>, seen: set<Path>, done: set<string>, q: Path) {
    destination < q && q[|destination|] in done && Made(t, follow, d, keep, seen, q[|destination|..])
  }

  // dirs[i] is the real directory the first i names of p lead to.
  ghost predicate EnterWalk(t: Tree, follow: map<Path, Path>, d: Path, keep: set<Path>, seen: set<Path>,
                            p: Path, dirs: seq<Path>) {
    && |dirs| == |p| + 1 && dirs[0] == d
    && (forall i :: 0 <= i < |p| ==> dirs[i] + [p[i]] in t)
    && (forall i :: 0 <= i < |p| ==> Enters(t, follow, dirs[i] + [p[i]], dirs[i + 1]))
    && NeverReenters(dirs, seen) && !Kept(keep, p)
  }

  // It makes exactly the directories such walks lead to, empty ones included.
  lemma {:induction false} MakesTheReachable(t: Tree, follow: map<Path, Path>, d: Path,
                                             keep: set<Path>, seen: set<Path>, p: Path)
    requires [] !in keep
    ensures Made(t, follow, d, keep, seen, p) <==> exists dirs :: EnterWalk(t, follow, d, keep, seen, p, dirs)
    decreases |p|
  {
    if p == [] {
      if d !in seen { assert EnterWalk(t, follow, d, keep, seen, p, [d]); }
      if dirs :| EnterWalk(t, follow, d, keep, seen, p, dirs) { assert dirs[0] == d; }
    } else {
      if dirs :| EnterWalk(t, follow, d, keep, seen, p, dirs) {
        ShorterEntry(t, follow, d, keep, seen, p, dirs);
        LookMeans(t, follow, d + [p[0]]);
        MakesTheReachable(t, follow, dirs[1], Inner(keep, p[0]), seen + {d}, p[1..]);
      }
      if Made(t, follow, d, keep, seen, p) {
        var inside := Look(t, follow, d + [p[0]]).place;
        LookMeans(t, follow, d + [p[0]]);
        InnerKept(keep, p);
        MakesTheReachable(t, follow, inside, Inner(keep, p[0]), seen + {d}, p[1..]);
        var dirs :| EnterWalk(t, follow, inside, Inner(keep, p[0]), seen + {d}, p[1..], dirs);
        LongerEntry(t, follow, d, keep, seen, p, inside, dirs);
      }
    }
  }

  lemma ShorterEntry(t: Tree, follow: map<Path, Path>, d: Path, keep: set<Path>, seen: set<Path>,
                     p: Path, dirs: seq<Path>)
    requires p != [] && [] !in keep && EnterWalk(t, follow, d, keep, seen, p, dirs)
    ensures d !in seen && [p[0]] !in keep && d + [p[0]] in t && Enters(t, follow, d + [p[0]], dirs[1])
    ensures [] !in Inner(keep, p[0])
    ensures EnterWalk(t, follow, dirs[1], Inner(keep, p[0]), seen + {d}, p[1..], dirs[1..])
  {
    assert dirs[0] == d && [p[0]] <= p;
    InnerKept(keep, p);
    var rest, below := dirs[1..], p[1..];
    forall i | 0 <= i < |below| ensures rest[i] + [below[i]] in t
      ensures Enters(t, follow, rest[i] + [below[i]], rest[i + 1])
    {
      assert dirs[i + 1] + [p[i + 1]] in t;
      assert Enters(t, follow, dirs[i + 1] + [p[i + 1]], dirs[i + 2]);
    }
  }

  lemma LongerEntry(t: Tree, follow: map<Path, Path>, d: Path, keep: set<Path>, seen: set<Path>,
                    p: Path, inside: Path, dirs: seq<Path>)
    requires p != [] && [] !in keep && [p[0]] !in keep && d !in seen && d + [p[0]] in t
    requires Enters(t, follow, d + [p[0]], inside)
    requires EnterWalk(t, follow, inside, Inner(keep, p[0]), seen + {d}, p[1..], dirs)
    ensures EnterWalk(t, follow, d, keep, seen, p, [d] + dirs)
  {
    InnerKept(keep, p);
    var all := [d] + dirs;
    forall i | 0 <= i < |p| ensures all[i] + [p[i]] in t
      ensures Enters(t, follow, all[i] + [p[i]], all[i + 1])
    {
      if i > 0 { assert p[i] == p[1..][i - 1]; }
    }
  }

  lemma MadeForEntry(t: Tree, follow: map<Path, Path>, d: Path, destination: Path,
                     keep: set<Path>, seen: set<Path>, n: string, q: Path)
    requires d !in seen && d + [n] in t
    ensures MadeFor(t, follow, d, destination, keep, seen, {n}, q) <==>
              && destination + [n] <= q && [n] !in keep && Look(t, follow, d + [n]).DirAt?
              && MadeAt(t, follow, Look(t, follow, d + [n]).place, destination + [n], Inner(keep, n), seen + {d}, q)
  {
    assert destination + [n] <= q <==> destination < q && q[|destination|] == n by {
      if destination < q && q[|destination|] == n { assert q[..|destination| + 1] == destination + [n]; }
    }
    if destination + [n] <= q {
      var p := q[|destination|..];
      assert p[0] == n && p[1..] == q[|destination| + 1..];
    }
  }

  lemma AllMade(t: Tree, follow: map<Path, Path>, d: Path, destination: Path,
                keep: set<Path>, seen: set<Path>, done: set<string>, q: Path)
    requires d !in seen && forall n :: d + [n] in t <==> n in done
    ensures MadeAt(t, follow, d, destination, keep, seen, q) <==>
              q == destination || MadeFor(t, follow, d, destination, keep, seen, done, q)
  {
    if destination < q {
      assert q[|destination|..][0] == q[|destination|];
    } else if destination <= q {
      assert q == destination && q[|destination|..] == [];
    }
  }

  class Staging {
    var files: map<Path, string>
    var dirs: set<Path>

    constructor ()
      ensures files == map[] && dirs == {}
    {
      files, dirs := map[], {};
    }

    method CopyFatTree(t: Tree, follow: map<Path, Path>, d: Path, destination: Path, keep: set<Path>, seen: set<Path>)
      requires HasDir(t, d)
      modifies this
      ensures forall q :: OverlaidAt(old(files), files, Landed(t, follow, d, destination, keep, seen, q), q)
      ensures forall q :: q in dirs <==> q in old(dirs) || MadeAt(t, follow, d, destination, keep, seen, q)
      decreases Unseen(t, seen), 1
    {
      if d in seen {
        return;
      }
      ghost var before, dirsBefore := files, dirs;
      dirs := dirs + {destination};
      var names := set x | x in t && d < x && |x| == |d| + 1 :: x[|d|];
      ghost var done: set<string> := {};
      EntryNames(t, d, names);
      while names != {}
        invariant forall n :: d + [n] in t <==> n in names || n in done
        invariant names !! done
        invariant forall q :: OverlaidAt(before, files, Sent(t, follow, d, destination, keep, seen, done, q), q)
        invariant forall q :: q in dirs <==>
          q in dirsBefore || q == destination || MadeFor(t, follow, d, destination, keep, seen, done, q)
        decreases names
      {
        var n :| n in names;
        names := names - {n};
        ghost var mid := files;
        CopyEntry(t, follow, d, n, destination, keep, seen);
        forall q ensures OverlaidAt(before, files, Sent(t, follow, d, destination, keep, seen, done + {n}, q), q) {
          assert OverlaidAt(before, mid, Sent(t, follow, d, destination, keep, seen, done, q), q);
          assert OverlaidAt(mid, files, Sent(t, follow, d, destination, keep, seen, {n}, q), q);
        }
        done := done + {n};
      }
      forall q ensures OverlaidAt(before, files, Landed(t, follow, d, destination, keep, seen, q), q) {
        assert OverlaidAt(before, files, Sent(t, follow, d, destination, keep, seen, done, q), q);
        AllSent(t, follow, d, destination, keep, seen, done, q);
      }
      forall q { AllMade(t, follow, d, destination, keep, seen, done, q); }
    }

    method CopyEntry(t: Tree, follow: map<Path, Path>, d: Path, n: string, destination: Path,
                     keep: set<Path>, seen: set<Path>)
      requires HasDir(t, d) && d !in seen && d + [n] in t
      modifies this
      ensures forall q :: OverlaidAt(old(files), files, Sent(t, follow, d, destination, keep, seen, {n}, q), q)
      ensures forall q :: q in dirs <==> q in old(dirs) || MadeFor(t, follow, d, destination, keep, seen, {n}, q)
      decreases Unseen(t, seen), 0
    {
      forall q { SentEntry(t, follow, d, destination, keep, seen, n, q); }
      forall q { MadeForEntry(t, follow, d, destination, keep, seen, n, q); }
      if [n] in keep {
        return;
      }
      match Look(t, follow, d + [n]) {
        case DirAt(inside) =>
          assert d in Unseen(t, seen) && d !in Unseen(t, seen + {d});
          CopyFatTree(t, follow, inside, destination + [n], Inner(keep, n), seen + {d});
          forall q ensures OverlaidAt(old(files), files, Sent(t, follow, d, destination, keep, seen, {n}, q), q) {
            ghost var landed := Landed(t, follow, inside, destination + [n], Inner(keep, n), seen + {d}, q);
            assert OverlaidAt(old(files), files, landed, q);
          }
        case FileOf(c) =>
          files := files[destination + [n] := c];
        case Neither =>
      }
    }
  }

  lemma EntryNames(t: Tree, d: Path, names: set<string>)
    requires names == set x | x in t && d < x && |x| == |d| + 1 :: x[|d|]
    ensures forall n :: d + [n] in t <==> n in names
  {
    forall n ensures d + [n] in t <==> n in names {
      assert (d + [n])[|d|] == n;
      if n in names {
        var x :| x in t && d < x && |x| == |d| + 1 && x[|d|] == n;
        assert x == d + [n];
      }
    }
  }

  // The part of the copy made once the entries in done have been handled.
  ghost function Sent(t: Tree, follow: map<Path, Path>, d: Path, destination: Path,
                      keep: set<Path>, seen: set<Path>, done: set<string>, q: Path): Option<string> {
    if destination < q && q[|destination|] in done
    then Copied(t, follow, d, keep, seen, q[|destination|..]) else None
  }

  // One entry only concerns the paths through it.
  lemma SentEntry(t: Tree, follow: map<Path, Path>, d: Path, destination: Path,
                  keep: set<Path>, seen: set<Path>, n: string, q: Path)
    requires d !in seen && d + [n] in t
    ensures Sent(t, follow, d, destination, keep, seen, {n}, q) ==
      if !(destination + [n] <= q) || [n] in keep then None
      else match Look(t, follow, d + [n])
        case FileOf(c) => (if q == destination + [n] then Some(c) else None)
        case DirAt(inside) => Copied(t, follow, inside, Inner(keep, n), seen + {d}, q[|destination + [n]|..])
        case Neither => None
  {
    assert destination + [n] <= q <==> destination < q && q[|destination|] == n by {
      if destination < q && q[|destination|] == n { assert q[..|destination| + 1] == destination + [n]; }
    }
    if destination + [n] <= q {
      var p := q[|destination|..];
      assert p[0] == n && p[1..] == q[|destination| + 1..];
      if |p| == 1 { assert q == destination + [n]; }
    }
  }

  lemma AllSent(t: Tree, follow: map<Path, Path>, d: Path, destination: Path,
                keep: set<Path>, seen: set<Path>, done: set<string>, q: Path)
    requires forall n :: d + [n] in t <==> n in done
    ensures Sent(t, follow, d, destination, keep, seen, done, q) == Landed(t, follow, d, destination, keep, seen, q)
  {
    if destination < q {
      assert q[|destination|..][0] == q[|destination|];
    }
  }

  // ----- removal

  // What survives below the directory: everything at or below a kept path, and
  // the directories leading to one.
  predicate Remains(keep: set<Path>, n: Node, p: Path) {
    || (exists k :: k in keep && k <= p)
    || (IsDir(n) && exists k :: k in keep && p < k)
  }

  function Pruned(t: Tree, d: Path, keep: set<Path>): Tree {
    map q | q in t && (d < q ==> Remains(keep, t[q], q[|d|..])) :: t[q]
  }

  lemma InnerRemains(keep: set<Path>, n: Node, p: Path)
    requires p != [] && [] !in keep && [p[0]] !in keep
    ensures |p| > 1 ==> (Remains(keep, n, p) <==> Remains(Inner(keep, p[0]), n, p[1..]))
    ensures |p| == 1 ==> (Remains(keep, n, p) <==> IsDir(n) && Inner(keep, p[0]) != {})
    ensures Inner(keep, p[0]) == {} ==> !Remains(keep, n, p)
  {
    assert p == [p[0]] + p[1..];
    InnerKept(keep, p);
    var inner := Inner(keep, p[0]);
    if k :| k in keep && p < k {
      assert k[0] == p[0] && k == [p[0]] + k[1..] && k[1..] in inner && p[1..] < k[1..];
    }
    if k :| k in keep && k <= p {
      assert k[0] == p[0] && k == [p[0]] + k[1..] && k[1..] in inner;
    }
    forall j | j in inner ensures [p[0]] + j in keep {
      var k :| k in keep && [p[0]] <= k && k[1..] == j;
      assert k == [p[0]] + j;
    }
    if j :| j in inner && (p[1..] < j || |p| == 1) {
      assert [p[0]] + j in keep && j != [];
      assert p < [p[0]] + j;
    }
    assert Kept(inner, p[1..]) <==> Kept(keep, p);
  }

  ghost predicate PartOf(t: Tree, base: Tree) {
    forall q :: q in t ==> q in base && t[q] == base[q]
  }

  function Staying(t: Tree, d: Path, keep: set<Path>, done: set<string>): Tree {
    map q | q in t && (d < q && q[|d|] in done ==> Remains(keep, t[q], q[|d|..])) :: t[q]
  }

  lemma EntryStays(t: Tree, d: Path, keep: set<Path>, n: string, q: Path)
    requires [] !in keep && q in t
    ensures d + [n] <= q <==> d < q && q[|d|] == n
    ensures !(d + [n] <= q) || [n] in keep ==> q in Staying(t, d, keep, {n})
    ensures d + [n] <= q && [n] !in keep && Inner(keep, n) == {} ==> q !in Staying(t, d, keep, {n})
    ensures d + [n] <= q && [n] !in keep ==>
      (q in Staying(t, d, keep, {n}) <==>
        if q == d + [n] then IsDir(t[q]) && Inner(keep, n) != {} else Remains(Inner(keep, n), t[q], q[|d + [n]|..]))
  {
    if d < q && q[|d|] == n { assert q[..|d| + 1] == d + [n]; }
    if d + [n] <= q {
      var p := q[|d|..];
      assert p[0] == n && p[1..] == q[|d + [n]|..];
      if [n] in keep {
        assert [n] <= p;
      } else {
        InnerRemains(keep, t[q], p);
      }
      if |p| == 1 { assert q == d + [n]; }
    }
  }

  // Whatever stays below the directory stays in a directory.
  lemma StayingWellFormed(t: Tree, d: Path, keep: set<Path>, done: set<string>)
    requires WellFormed(t)
    ensures WellFormed(Staying(t, d, keep, done))
  {
    var r := Staying(t, d, keep, done);
    forall q | q in r && q != [] ensures Parent(q) in r {
      if d < Parent(q) {
        PrefixTransitive(d, Parent(q), q);
        if q[|d|] in done { ParentRemains(keep, t[q], t[Parent(q)], q[|d|..]); }
        assert Parent(q[|d|..]) == Parent(q)[|d|..];
      }
    }
  }

  lemma ParentRemains(keep: set<Path>, n: Node, parent: Node, p: Path)
    requires |p| > 1 && IsDir(parent) && Remains(keep, n, p)
    ensures Remains(keep, parent, Parent(p))
  {
    if k :| k in keep && k <= p {
      if k != p { ParentPrefix(k, p); }
    } else {
      var k :| k in keep && p < k;
      assert Parent(p) < k;
    }
  }

  lemma PrunedIsStaying(t: Tree, d: Path, keep: set<Path>, done: set<string>)
    requires forall x :: x in t && d < x ==> x[|d|] in done
    ensures Staying(t, d, keep, done) == Pruned(t, d, keep)
  {
  }

  method RemoveFatTree(fs: Filesystem, d: Path, keep: set<Path>, ghost base: Tree)
    requires [] !in keep && WellFormed(fs.nodes) && PartOf(fs.nodes, base) && d in base
    modifies fs
    ensures fs.nodes == Pruned(old(fs.nodes), d, keep)
    decreases (set q | q in base && d <= q), 1
  {
    ghost var before := fs.nodes;
    var names := set x | x in fs.nodes && d < x && |x| == |d| + 1 :: x[|d|];
    ghost var done: set<string> := {};
    EntryNames(before, d, names);
    while names != {}
      invariant forall n :: d + [n] in before <==> n in names || n in done
      invariant names !! done
      invariant fs.nodes == Staying(before, d, keep, done)
      decreases names
    {
      var n :| n in names;
      names := names - {n};
      StayingWellFormed(before, d, keep, done);
      OwnEntryOnly(before, d, keep, done, n);
      RemoveEntry(fs, d, n, keep, base);
      done := done + {n};
    }
    forall x | x in before && d < x ensures x[|d|] in done {
      FirstEntry(before, d, x);
    }
    PrunedIsStaying(before, d, keep, done);
  }

  lemma FirstEntry(t: Tree, d: Path, x: Path)
    requires WellFormed(t) && x in t && d < x
    ensures d + [x[|d|]] in t
  {
    var e := d + [x[|d|]];
    assert e == x[..|e|];
    if e != x { AncestorsAreDirs(t, e, x); }
  }

  // Entries are removed one by one, each from what the earlier ones left.
  lemma OwnEntryOnly(t: Tree, d: Path, keep: set<Path>, done: set<string>, n: string)
    requires n !in done
    ensures d + [n] in t ==> d + [n] in Staying(t, d, keep, done)
    ensures Staying(Staying(t, d, keep, done), d, keep, {n}) == Staying(t, d, keep, done + {n})
  {
    assert (d + [n])[|d|] == n;
  }

  method RemoveEntry(fs: Filesystem, d: Path, n: string, keep: set<Path>, ghost base: Tree)
    requires [] !in keep && WellFormed(fs.nodes) && PartOf(fs.nodes, base) && d in base
    requires d + [n] in fs.nodes
    modifies fs
    ensures fs.nodes == Staying(old(fs.nodes), d, keep, {n})
    decreases (set q | q in base && d <= q), 0
  {
    var entry := d + [n];
    var inner := Inner(keep, n);
    EntryCases(fs.nodes, d, keep, n);
    if [n] in keep {
      return;
    }
    if IsDir(fs.nodes[entry]) {
      if inner != {} {
        SmallerBelow(base, d, n);
        InnerNonEmpty(keep, n);
        RemoveFatTree(fs, entry, inner, base);
      } else {
        fs.nodes := Without(fs.nodes, entry);
      }
    } else {
      fs.nodes := fs.nodes - {entry};
    }
  }

  lemma EntryCases(t: Tree, d: Path, keep: set<Path>, n: string)
    requires [] !in keep && WellFormed(t) && d + [n] in t
    ensures [n] in keep ==> Staying(t, d, keep, {n}) == t
    ensures [n] !in keep && !IsDir(t[d + [n]]) ==> Staying(t, d, keep, {n}) == t - {d + [n]}
    ensures [n] !in keep && IsDir(t[d + [n]]) && Inner(keep, n) == {} ==>
              Staying(t, d, keep, {n}) == Without(t, d + [n])
    ensures [n] !in keep && IsDir(t[d + [n]]) && Inner(keep, n) != {} ==>
              Staying(t, d, keep, {n}) == Pruned(t, d + [n], Inner(keep, n))
  {
    var r := Staying(t, d, keep, {n});
    forall q | q in t { EntryStays(t, d, keep, n, q); }
    if [n] in keep {
      assert r == t;
    } else if !IsDir(t[d + [n]]) {
      forall q | q in t ensures !(d + [n] < q) {
        if d + [n] < q { AncestorsAreDirs(t, d + [n], q); }
      }
      assert r == t - {d + [n]};
    } else if Inner(keep, n) != {} {
      assert r == Pruned(t, d + [n], Inner(keep, n));
    } else {
      assert r == Without(t, d + [n]);
    }
  }

  lemma SmallerBelow(base: Tree, d: Path, n: string)
    requires d in base
    ensures (set q | q in base && d + [n] <= q) < (set q | q in base && d <= q)
  {
    var small, large := set q | q in base && d + [n] <= q, set q | q in base && d <= q;
    forall q | q in small ensures q in large { PrefixTransitive(d, d + [n], q); }
    assert d in large && d !in small;
  }

  lemma InnerNonEmpty(keep: set<Path>, n: string)
    requires [n] !in keep
    ensures [] !in Inner(keep, n)
  {
    forall k | k in keep && [n] <= k ensures k[1..] != [] {
      assert k != [n] && k == [n] + k[1..];
    }
  }

  // ----- copying and removing are two halves of one split

  // No symlink outside what is kept.
  ghost predicate LinkFree(t: Tree, d: Path, keep: set<Path>) {
    forall p :: p != [] && d + p in t && t[d + p].Link? ==> Kept(keep, p)
  }

  lemma {:induction false} CopiedInTree(t: Tree, follow: map<Path, Path>, d: Path,
                                        keep: set<Path>, seen: set<Path>, p: Path)
    requires WellFormed(t) && LinkFree(t, d, keep) && [] !in keep && p != []
    requires HasDir(t, d) && forall x :: x in seen ==> |x| < |d|
    ensures Copied(t, follow, d, keep, seen, p) ==
            if d + p in t && t[d + p].File? && !Kept(keep, p) then Some(t[d + p].content) else None
    decreases |p|
  {
    var e := d + [p[0]];
    assert p == [p[0]] + p[1..] && d + p == e + p[1..];
    if e !in t || [p[0]] in keep {
      assert [p[0]] in keep ==> Kept(keep, p) by { assert [p[0]] <= p; }
      if d + p in t { FirstEntry(t, d, d + p); }
    } else {
      InnerKept(keep, p);
      assert !t[e].Link? by { OnlyItself(keep, [p[0]]); }
      if IsDir(t[e]) {
        LinkFreeBelow(t, d, keep, p[0]);
        if |p| > 1 {
          CopiedInTree(t, follow, e, Inner(keep, p[0]), seen + {d}, p[1..]);
        } else {
          assert d + p == e;
        }
      } else {
        if |p| == 1 { assert d + p == e; OnlyItself(keep, p); }
        if d + p in t && |p| > 1 { AncestorsAreDirs(t, e, d + p); }
      }
    }
  }

  // The directories of such a tree are all made, but the kept ones.
  lemma {:induction false} MadeInTree(t: Tree, follow: map<Path, Path>, d: Path,
                                      keep: set<Path>, seen: set<Path>, p: Path)
    requires WellFormed(t) && LinkFree(t, d, keep) && [] !in keep
    requires HasDir(t, d) && forall x :: x in seen ==> |x| < |d|
    ensures Made(t, follow, d, keep, seen, p) <==> HasDir(t, d + p) && !Kept(keep, p)
    decreases |p|
  {
    if p == [] {
      assert d + p == d;
    } else {
      var e := d + [p[0]];
      EntryOnTheWay(t, d, keep, p);
      if e in t && [p[0]] !in keep {
        InnerKept(keep, p);
        MadeThroughEntry(t, follow, d, keep, seen, p);
        if IsDir(t[e]) {
          LinkFreeBelow(t, d, keep, p[0]);
          MadeInTree(t, follow, e, Inner(keep, p[0]), seen + {d}, p[1..]);
        }
      } else {
        assert !Made(t, follow, d, keep, seen, p);
      }
    }
  }

  lemma MadeThroughEntry(t: Tree, follow: map<Path, Path>, d: Path, keep: set<Path>, seen: set<Path>, p: Path)
    requires p != [] && d !in seen && [p[0]] !in keep && d + [p[0]] in t && !t[d + [p[0]]].Link?
    ensures Made(t, follow, d, keep, seen, p) <==>
              IsDir(t[d + [p[0]]]) && Made(t, follow, d + [p[0]], Inner(keep, p[0]), seen + {d}, p[1..])
  {
  }

  lemma EntryOnTheWay(t: Tree, d: Path, keep: set<Path>, p: Path)
    requires WellFormed(t) && LinkFree(t, d, keep) && [] !in keep && p != []
    ensures var e := d + [p[0]];
      && d + p == e + p[1..] && [p[0]] <= p
      && (HasDir(t, d + p) ==> HasDir(t, e))
      && (e in t && [p[0]] !in keep ==> !t[e].Link?)
  {
    var e := d + [p[0]];
    assert p == [p[0]] + p[1..] && d + p == e + p[1..];
    if d + p in t {
      FirstEntry(t, d, d + p);
      if |p| > 1 { AncestorsAreDirs(t, e, d + p); } else { assert d + p == e; }
    }
    if [p[0]] !in keep { OnlyItself(keep, [p[0]]); }
  }

  lemma LinkFreeBelow(t: Tree, d: Path, keep: set<Path>, n: string)
    requires LinkFree(t, d, keep) && [] !in keep && [n] !in keep
    ensures LinkFree(t, d + [n], Inner(keep, n))
  {
    forall r | r != [] && d + [n] + r in t && t[d + [n] + r].Link? ensures Kept(Inner(keep, n), r) {
      assert d + ([n] + r) == d + [n] + r;
      InnerKept(keep, [n] + r);
      assert ([n] + r)[1..] == r;
    }
  }

  // With or without symlinks, a file that is not kept is copied.
  lemma {:induction false} UnkeptIsCopied(t: Tree, follow: map<Path, Path>, d: Path,
                                          keep: set<Path>, seen: set<Path>, p: Path)
    requires WellFormed(t) && [] !in keep && p != [] && d + p in t && t[d + p].File? && !Kept(keep, p)
    requires forall x :: x in seen ==> |x| < |d|
    ensures Copied(t, follow, d, keep, seen, p) == Some(t[d + p].content)
    decreases |p|
  {
    var e := d + [p[0]];
    assert p == [p[0]] + p[1..] && d + p == e + p[1..];
    assert [p[0]] <= p;
    InnerKept(keep, p);
    FirstEntry(t, d, d + p);
    if |p| > 1 {
      AncestorsAreDirs(t, e, d + p);
      UnkeptIsCopied(t, follow, e, Inner(keep, p[0]), seen + {d}, p[1..]);
      CopiedThroughEntry(t, follow, d, keep, seen, p);
    } else {
      assert d + p == e;
    }
  }

  lemma CopiedThroughEntry(t: Tree, follow: map<Path, Path>, d: Path, keep: set<Path>, seen: set<Path>, p: Path)
    requires p != [] && d !in seen && [p[0]] !in keep && HasDir(t, d + [p[0]])
    ensures Copied(t, follow, d, keep, seen, p) ==
            Copied(t, follow, d + [p[0]], Inner(keep, p[0]), seen + {d}, p[1..])
  {
  }

  // The copy holds exactly the files the removal will take away, and the
  // removal leaves exactly what is at or below a kept path and what leads there.
  lemma CopyAndRemovalAreDual(t: Tree, follow: map<Path, Path>, d: Path, keep: set<Path>, p: Path)
    requires WellFormed(t) && HasDir(t, d) && LinkFree(t, d, keep) && [] !in keep && p != []
    ensures d + p in t && t[d + p].File? ==>
              (Copied(t, follow, d, keep, {}, p) == Some(t[d + p].content) <==> d + p !in Pruned(t, d, keep))
    ensures Copied(t, follow, d, keep, {}, p).Some? ==>
              d + p in t && t[d + p] == File(Copied(t, follow, d, keep, {}, p).value) && d + p !in Pruned(t, d, keep)
    ensures d + p in Pruned(t, d, keep) <==>
              d + p in t && (Kept(keep, p) || (IsDir(t[d + p]) && exists k :: k in keep && p < k))
  {
    CopiedInTree(t, follow, d, keep, {}, p);
    PrunedAt(t, d, keep, p);
    if d + p in t && t[d + p].File? { assert !IsDir(t[d + p]); }
  }

  lemma PrunedAt(t: Tree, d: Path, keep: set<Path>, p: Path)
    requires p != []
    ensures d + p in Pruned(t, d, keep) <==>
              d + p in t && (Kept(keep, p) || (IsDir(t[d + p]) && exists k :: k in keep && p < k))
  {
    assert (d + p)[|d|..] == p && d < d + p;
  }
}
