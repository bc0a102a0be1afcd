// The relayout part of install: after the subvolumes are carved, the trees that
// belong on FAT boot filesystems are staged out, removed from Btrfs, and copied
// to where they belong once everything is mounted.
module RootImage {
  import opened Wrappers
  import opened Paths
  import opened SubvolumeLayout
  import opened Volume
  import opened Relayout
  import opened FatTree

  // The volume with its subvolumes placed, the FAT mountpoints, and where the
  // volume's symlinks lead.
  datatype Laid = Laid(tree: Tree, placed: seq<Subvolume>, fats: seq<Path>, follow: map<Path, Path>)

  // Mountpoints strictly below a FAT mountpoint, relative to it.
  function KeepFor(placed: seq<Subvolume>, fats: seq<Path>, f: Path): set<Path> {
    (set m | m in fats && f < m :: m[|f|..]) + (set s | s in placed && f < s.mount :: s.mount[|f|..])
  }

  function Keep(v: Laid, f: Path): set<Path> {
    KeepFor(v.placed, v.fats, f)
  }

  // The directory that stands for a FAT mountpoint, symlinks followed.
  function Entered(v: Laid, f: Path): Path
    requires HasRoot(v.placed)
  {
    Real(v.tree, v.follow, Resolve(v.placed, f))
  }

  predicate Taken(v: Laid, f: Path)
    requires HasRoot(v.placed)
  {
    HasDir(v.tree, Entered(v, f)) && !EndsInLink(v.tree, v.follow, Resolve(v.placed, f))
  }

  // The FAT mountpoints whose content is a directory and no symlink.
  function Trees(v: Laid, fats: seq<Path>): (r: seq<Path>)
    requires HasRoot(v.placed)
    ensures forall f :: f in r <==> f in fats && Taken(v, f)
  {
    if fats == [] then []
    else
      var front, f := fats[..|fats| - 1], fats[|fats| - 1];
      assert forall x :: x in fats <==> x in front || x == f;
      if Taken(v, f) then Trees(v, front) + [f] else Trees(v, front)
  }

  ghost function LandedFrom(v: Laid, f: Path, p: Path): Option<string>
    requires HasRoot(v.placed)
  {
    Landed(v.tree, v.follow, Entered(v, f), f, Keep(v, f), {}, p)
  }

  // The staged file at p: the last tree copied there wins.
  ghost function StagedAt(v: Laid, trees: seq<Path>, p: Path): Option<string>
    requires HasRoot(v.placed)
  {
    if trees == [] then None
    else
      var c := LandedFrom(v, trees[|trees| - 1], p);
      if c.Some? then c else StagedAt(v, trees[..|trees| - 1], p)
  }

  function Remaining(v: Laid, trees: seq<Path>): Tree
    requires HasRoot(v.placed)
  {
    if trees == [] then v.tree
    else
      var f := trees[|trees| - 1];
      Pruned(Remaining(v, trees[..|trees| - 1]), Entered(v, f), Keep(v, f))
  }

  // A mountpoint whose own content is a symlink is left out.
  lemma LinkIsNoTree(v: Laid, f: Path)
    requires HasRoot(v.placed)
    requires var c := Resolve(v.placed, f); c in v.tree && v.tree[c].Link? && c != [] && !LinkOnPath(v.tree, Parent(c))
    ensures f !in Trees(v, v.fats)
  {
    EndsInLinkIff(v.tree, v.follow, Resolve(v.placed, f));
  }

  // ----- the loops of install

  method StageTrees(v: Laid, trees: seq<Path>) returns (stage: Staging)
    requires HasRoot(v.placed) && forall f :: f in trees ==> Taken(v, f)
    ensures fresh(stage)
    ensures forall p :: OverlaidAt(map[], stage.files, StagedAt(v, trees, p), p)
  {
    stage := new Staging();
    for i := 0 to |trees|
      invariant forall p :: OverlaidAt(map[], stage.files, StagedAt(v, trees[..i], p), p)
    {
      var f := trees[i];
      assert f in trees && Taken(v, f);
      ghost var mid, upto := stage.files, trees[..i + 1];
      StageTree(stage, v, f);
      ghost var after := stage.files;
      forall p ensures OverlaidAt(map[], after, StagedAt(v, upto, p), p) {
        assert OverlaidAt(map[], mid, StagedAt(v, trees[..i], p), p);
        assert OverlaidAt(mid, after, LandedFrom(v, f, p), p);
        StagedStep(v, trees, i, p);
      }
    }
    assert trees[..|trees|] == trees;
  }

  method StageTree(stage: Staging, v: Laid, f: Path)
    requires HasRoot(v.placed) && Taken(v, f)
    modifies stage
    ensures forall p :: OverlaidAt(old(stage.files), stage.files, LandedFrom(v, f, p), p)
  {
    stage.CopyFatTree(v.tree, v.follow, Entered(v, f), f, Keep(v, f), {});
    forall p ensures OverlaidAt(old(stage.files), stage.files, LandedFrom(v, f, p), p) {
      ghost var landed := Landed(v.tree, v.follow, Entered(v, f), f, Keep(v, f), {}, p);
      assert OverlaidAt(old(stage.files), stage.files, landed, p);
    }
  }

  lemma StagedStep(v: Laid, trees: seq<Path>, i: nat, p: Path)
    requires HasRoot(v.placed) && i < |trees|
    ensures var c := LandedFrom(v, trees[i], p);
      StagedAt(v, trees[..i + 1], p) == if c.Some? then c else StagedAt(v, trees[..i], p)
  {
    assert trees[..i + 1][..i] == trees[..i];
  }

  // When its turn to be removed comes, a tree's directory is still there. The
  // mountpoints in cut are those that cannot be reached any more because an
  // earlier removal took a symlink on the way away.
  predicate StillThere(v: Laid, trees: seq<Path>, cut: set<Path>, i: nat)
    requires HasRoot(v.placed) && i < |trees|
  {
    && HasDir(Remaining(v, trees[..i]), Entered(v, trees[i]))
    && (LinkOnPath(v.tree, Resolve(v.placed, trees[i])) ==> trees[i] !in cut)
  }

  // How many trees are removed before one is no longer there.
  function Removable(v: Laid, trees: seq<Path>, cut: set<Path>, i: nat): (n: nat)
    requires HasRoot(v.placed) && i <= |trees|
    ensures i <= n <= |trees| && (n < |trees| ==> !StillThere(v, trees, cut, n))
    decreases |trees| - i
  {
    if i == |trees| || !StillThere(v, trees, cut, i) then i else Removable(v, trees, cut, i + 1)
  }

  lemma {:induction false} AllRemovable(v: Laid, trees: seq<Path>, cut: set<Path>, i: nat)
    requires HasRoot(v.placed) && i <= |trees|
    requires forall k :: i <= k < |trees| ==> StillThere(v, trees, cut, k)
    ensures Removable(v, trees, cut, i) == |trees|
    decreases |trees| - i
  {
    if i < |trees| { AllRemovable(v, trees, cut, i + 1); }
  }

  method RemoveTrees(fs: Filesystem, v: Laid, trees: seq<Path>, cut: set<Path>) returns (ok: bool)
    requires HasRoot(v.placed) && WellFormed(v.tree) && fs.nodes == v.tree
    modifies fs
    ensures fs.nodes == Remaining(v, trees[..Removable(v, trees, cut, 0)])
    ensures ok <==> Removable(v, trees, cut, 0) == |trees|
  {
    for i := 0 to |trees|
      invariant Removable(v, trees, cut, 0) == Removable(v, trees, cut, i)
      invariant fs.nodes == Remaining(v, trees[..i])
    {
      if !StillThere(v, trees, cut, i) {
        return false;
      }
      RemoveTree(fs, v, trees, i);
    }
    return true;
  }

  method RemoveTree(fs: Filesystem, v: Laid, trees: seq<Path>, i: nat)
    requires HasRoot(v.placed) && WellFormed(v.tree) && i < |trees|
    requires fs.nodes == Remaining(v, trees[..i]) && HasDir(fs.nodes, Entered(v, trees[i]))
    modifies fs
    ensures fs.nodes == Remaining(v, trees[..i + 1])
  {
    RemainingStep(v, trees, i);
    RemoveFatTree(fs, Entered(v, trees[i]), Keep(v, trees[i]), v.tree);
  }

  lemma {:induction false} RemainingPart(v: Laid, trees: seq<Path>)
    requires HasRoot(v.placed) && WellFormed(v.tree)
    ensures WellFormed(Remaining(v, trees)) && PartOf(Remaining(v, trees), v.tree)
    decreases |trees|
  {
    if trees != [] {
      var front, f := trees[..|trees| - 1], trees[|trees| - 1];
      RemainingPart(v, front);
      PrunedWellFormed(Remaining(v, front), Entered(v, f), Keep(v, f));
    }
  }

  lemma RemainingStep(v: Laid, trees: seq<Path>, i: nat)
    requires HasRoot(v.placed) && WellFormed(v.tree) && i < |trees|
    ensures Remaining(v, trees[..i + 1]) == Pruned(Remaining(v, trees[..i]), Entered(v, trees[i]), Keep(v, trees[i]))
    ensures WellFormed(Remaining(v, trees[..i])) && PartOf(Remaining(v, trees[..i]), v.tree)
    ensures [] !in Keep(v, trees[i])
  {
    assert trees[..i + 1][..i] == trees[..i];
    RemainingPart(v, trees[..i]);
    KeepIsBelow(v.placed, v.fats, trees[i]);
  }

  // Every tree is copied before any is removed.
  method SplitOffFat(fs: Filesystem, v: Laid, cut: set<Path>) returns (stage: Staging, ok: bool)
    requires HasRoot(v.placed) && WellFormed(v.tree) && fs.nodes == v.tree
    modifies fs
    ensures fresh(stage)
    ensures forall p :: OverlaidAt(map[], stage.files, StagedAt(v, Trees(v, v.fats), p), p)
    ensures ok ==> fs.nodes == Remaining(v, Trees(v, v.fats))
    ensures ok <==> Removable(v, Trees(v, v.fats), cut, 0) == |Trees(v, v.fats)|
  {
    var trees := Trees(v, v.fats);
    stage := StageTrees(v, trees);
    ok := RemoveTrees(fs, v, trees, cut);
    assert trees[..|trees|] == trees;
  }

  lemma KeepIsBelow(placed: seq<Subvolume>, fats: seq<Path>, f: Path)
    ensures [] !in KeepFor(placed, fats, f)
  {
    forall m: Path | f < m ensures m[|f|..] != [] {
    }
  }

  lemma PrunedWellFormed(t: Tree, d: Path, keep: set<Path>)
    requires WellFormed(t)
    ensures WellFormed(Pruned(t, d, keep)) && PartOf(Pruned(t, d, keep), t)
  {
    var done := set x | x in t && d < x :: x[|d|];
    StayingWellFormed(t, d, keep, done);
    PrunedIsStaying(t, d, keep, done);
  }

  // ----- which filesystem a path belongs to

  ghost predicate Mounted(layout: seq<Subvolume>, fats: seq<Path>, m: Path) {
    m in fats || exists k :: k in layout && k.mount == m
  }

  // f is the deepest mountpoint at or above p, and a FAT one.
  ghost predicate FatOwner(layout: seq<Subvolume>, fats: seq<Path>, f: Path, p: Path) {
    f in fats && f <= p && forall m :: Mounted(layout, fats, m) && m <= p ==> |m| <= |f|
  }

  lemma OneOwner(layout: seq<Subvolume>, fats: seq<Path>, f: Path, g: Path, p: Path)
    requires FatOwner(layout, fats, f, p) && FatOwner(layout, fats, g, p)
    ensures f == g
  {
    assert Mounted(layout, fats, f) && Mounted(layout, fats, g);
    PrefixesCompare(f, g, p);
  }

  // A target whose mountpoints are directories or absent, each used once, and
  // whose FAT trees hold no symlink.
  ghost predicate Splittable(image: Tree, layout: seq<Subvolume>, fats: seq<Path>) {
    && Ready(image, layout)
    && (forall m :: Mounted(layout, fats, m) && m in image ==> IsDir(image[m]))
    && (forall f, k :: f in fats && k in layout ==> k.mount != f)
    && (forall f, p :: f in fats && p in image && image[p].Link? && f < p ==>
          exists m :: Mounted(layout, fats, m) && f < m <= p)
  }

  function RunOf(v: Laid): Run {
    Run(v.tree, v.placed, None)
  }

  // A relaid volume, as the previous loop leaves it.
  ghost predicate Relaid(v: Laid, image: Tree, layout: seq<Subvolume>) {
    Splittable(image, layout, v.fats) && RunOf(v) == Rearranged(image, layout) && Finished(RunOf(v), image, layout)
  }

  lemma MountIsKept(v: Laid, f: Path, m: Path, p: Path)
    requires f < m <= p && (m in v.fats || exists s :: s in v.placed && s.mount == m)
    ensures Kept(Keep(v, f), p[|f|..])
  {
    var k, r := m[|f|..], p[|f|..];
    assert k in Keep(v, f);
    assert m == p[..|m|];
    assert k == r[..|k|];
  }

  lemma KeptHasMount(v: Laid, f: Path, p: Path) returns (m: Path)
    requires f <= p && Kept(Keep(v, f), p[|f|..])
    ensures f < m <= p && (m in v.fats || exists s :: s in v.placed && s.mount == m)
  {
    var r := p[|f|..];
    var k :| k in Keep(v, f) && k <= r;
    m :| f < m && k == m[|f|..] && (m in v.fats || exists s :: s in v.placed && s.mount == m);
    assert m == f + k && p == f + r;
  }

  lemma KeptIsMounted(v: Laid, image: Tree, layout: seq<Subvolume>, f: Path, p: Path)
    requires Finished(RunOf(v), image, layout) && f <= p
    ensures Kept(Keep(v, f), p[|f|..]) <==> exists m :: Mounted(layout, v.fats, m) && f < m <= p
  {
    if m :| Mounted(layout, v.fats, m) && f < m <= p {
      if m !in v.fats {
        var s :| s in layout && s.mount == m;
        assert s in v.placed;
      }
      MountIsKept(v, f, m, p);
    }
    if Kept(Keep(v, f), p[|f|..]) {
      var m := KeptHasMount(v, f, p);
      assert Mounted(layout, v.fats, m);
    }
  }

  // With no mountpoint in between, a path is stored below where its FAT
  // mountpoint's content is.
  lemma StoredBelowFat(v: Laid, image: Tree, layout: seq<Subvolume>, f: Path, p: Path)
    requires Finished(RunOf(v), image, layout) && f <= p
    requires !(exists m :: Mounted(layout, v.fats, m) && f < m <= p)
    ensures Resolve(v.placed, p) == Resolve(v.placed, f) + p[|f|..]
  {
    var o := Owner(v.placed, f);
    PrefixTransitive(o.mount, f, p);
    forall k | k in v.placed && k.mount <= p ensures |k.mount| <= |o.mount| {
      PrefixesClash(k.mount, f, p);
      assert Mounted(layout, v.fats, k.mount);
    }
    OwnerUnique(v.placed, o, p);
    LocationBelow(o, f, p);
  }

  lemma StoredBelowMeansBelow(v: Laid, image: Tree, layout: seq<Subvolume>, f: Path, p: Path, rest: Path)
    requires Finished(RunOf(v), image, layout) && Resolve(v.placed, p) == Resolve(v.placed, f) + rest
    ensures p == f + rest
  {
    var o := Owner(v.placed, f);
    LocationBelow(o, f, f + rest);
    BelowAppend(f, rest);
    LocationsInjective(v.placed, Owner(v.placed, p), p, o, f + rest);
  }

  // A node below a FAT mountpoint that no other mount hides is the image's.
  lemma BelowFatIsImage(v: Laid, image: Tree, layout: seq<Subvolume>, f: Path, p: Path)
    requires Relaid(v, image, layout) && f in v.fats && f <= p
    requires !(exists m :: Mounted(layout, v.fats, m) && f < m <= p)
    ensures var q := Resolve(v.placed, f) + p[|f|..];
      && Resolve(v.placed, p) == q
      && (q in v.tree && !IsDir(v.tree[q]) ==> p in image && image[p] == v.tree[q])
      && (p in image ==> q in v.tree && Alike(v.tree[q], image[p]))
  {
    StoredBelowFat(v, image, layout, f, p);
    assert Shows(v.tree, image, v.placed, p);
    assert !Hidden(image, v.placed, p);
  }

  lemma FatTreeLinkFree(v: Laid, image: Tree, layout: seq<Subvolume>, f: Path)
    requires Relaid(v, image, layout) && f in v.fats
    ensures LinkFree(v.tree, Resolve(v.placed, f), Keep(v, f))
  {
    var d, keep := Resolve(v.placed, f), Keep(v, f);
    forall r | r != [] && d + r in v.tree && v.tree[d + r].Link? ensures Kept(keep, r) {
      BelowAppend(f, r);
      KeptIsMounted(v, image, layout, f, f + r);
      if !(exists m :: Mounted(layout, v.fats, m) && f < m <= f + r) {
        BelowFatIsImage(v, image, layout, f, f + r);
      }
    }
  }

  lemma DeepestIsOwner(layout: seq<Subvolume>, fats: seq<Path>, f: Path, p: Path)
    requires f in fats && f <= p
    ensures FatOwner(layout, fats, f, p) <==> !(exists m :: Mounted(layout, fats, m) && f < m <= p)
  {
    forall m | Mounted(layout, fats, m) && m <= p && |m| > |f| ensures f < m {
      PrefixesCompare(f, m, p);
    }
  }

  lemma KeptOrOwned(v: Laid, image: Tree, layout: seq<Subvolume>, f: Path, p: Path)
    requires Finished(RunOf(v), image, layout) && f in v.fats && f <= p
    ensures Kept(Keep(v, f), p[|f|..]) <==> !FatOwner(layout, v.fats, f, p)
  {
    KeptIsMounted(v, image, layout, f, p);
    DeepestIsOwner(layout, v.fats, f, p);
  }

  // ----- mountpoints reached through symlinks, and the others

  // Without a symlink on the way the tree is where the resolver says.
  lemma PlainTree(v: Laid, image: Tree, layout: seq<Subvolume>, f: Path)
    requires Relaid(v, image, layout) && !LinkOnPath(image, f)
    ensures !LinkOnPath(v.tree, Resolve(v.placed, f))
    ensures Entered(v, f) == Resolve(v.placed, f)
    ensures Taken(v, f) <==> HasDir(v.tree, Resolve(v.placed, f))
  {
    RelayoutKeepsLinks(image, layout, f);
    RealIsItself(v.tree, v.follow, Resolve(v.placed, f));
  }

  // The image has nothing at or below a path that runs through a symlink.
  lemma NothingBehindLink(image: Tree, f: Path, p: Path)
    requires WellFormed(image) && LinkOnPath(image, f) && f < p
    ensures p !in image
  {
    var k :| 0 < k <= |f| && f[..k] in image && image[f[..k]].Link?;
    assert f[..k] == p[..k] && f[..k] < p;
    if p in image { AncestorsAreDirs(image, f[..k], p); }
  }

  // A FAT mountpoint is taken through a symlink, and a walk from its directory
  // around the kept mountpoints reaches a file.
  ghost predicate StraysTo(v: Laid, image: Tree, f: Path, p: Path)
    requires HasRoot(v.placed)
  {
    && f in v.fats && LinkOnPath(image, f) && Taken(v, f) && f < p
    && exists c :: Reaches(v.tree, v.follow, Entered(v, f), Keep(v, f), {}, p[|f|..], c)
  }

  ghost predicate Strays(v: Laid, image: Tree)
    requires HasRoot(v.placed)
  {
    exists f, p :: StraysTo(v, image, f, p)
  }

  lemma StrayLands(v: Laid, image: Tree, f: Path, p: Path)
    requires HasRoot(v.placed) && f in v.fats && LinkOnPath(image, f) && Taken(v, f)
    ensures LandedFrom(v, f, p).Some? <==> StraysTo(v, image, f, p)
  {
    if f < p {
      KeepIsBelow(v.placed, v.fats, f);
      var d, keep, r := Entered(v, f), Keep(v, f), p[|f|..];
      var landed := Copied(v.tree, v.follow, d, keep, {}, r);
      if landed.Some? {
        CopiesTheReachable(v.tree, v.follow, d, keep, {}, r, landed.value);
      }
      if c :| Reaches(v.tree, v.follow, d, keep, {}, r, c) {
        CopiesTheReachable(v.tree, v.follow, d, keep, {}, r, c);
      }
    } else if f <= p {
      assert p[|f|..] == [];
    }
  }

  // A tree with no file to stage has no file to take away either.
  lemma HarmlessSpares(v: Laid, f: Path, q: Path)
    requires HasRoot(v.placed) && WellFormed(v.tree) && q in v.tree && v.tree[q].File?
    requires forall p :: LandedFrom(v, f, p).None?
    ensures SparedBy(v, f, q)
  {
    var d, keep := Entered(v, f), Keep(v, f);
    if d < q && !Kept(keep, q[|d|..]) {
      KeepIsBelow(v.placed, v.fats, f);
      var r := q[|d|..];
      assert d + r == q;
      UnkeptIsCopied(v.tree, v.follow, d, keep, {}, r);
      assert (f + r)[|f|..] == r;
      var here := LandedFrom(v, f, f + r);
    }
  }

  // A tree reached without symlinks stages a file exactly when it owns the path,
  // and then the image's.
  lemma LandsIffOwner(v: Laid, image: Tree, layout: seq<Subvolume>, f: Path, p: Path)
    requires Relaid(v, image, layout) && f in v.fats && !LinkOnPath(image, f) && Taken(v, f)
    ensures var c := LandedFrom(v, f, p);
      && (c.Some? ==> FatOwner(layout, v.fats, f, p) && p in image && image[p] == File(c.value))
      && (FatOwner(layout, v.fats, f, p) && p in image && image[p].File? ==> c == Some(image[p].content))
  {
    PlainTree(v, image, layout, f);
    if f < p {
      LandsBelow(v, image, layout, f, p);
    } else if p == f {
      assert Mounted(layout, v.fats, f);
    }
  }

  lemma LandsBelow(v: Laid, image: Tree, layout: seq<Subvolume>, f: Path, p: Path)
    requires Relaid(v, image, layout) && f in v.fats && HasDir(v.tree, Resolve(v.placed, f)) && f < p
    ensures var c := Copied(v.tree, v.follow, Resolve(v.placed, f), Keep(v, f), {}, p[|f|..]);
      && (c.Some? ==> FatOwner(layout, v.fats, f, p) && p in image && image[p] == File(c.value))
      && (FatOwner(layout, v.fats, f, p) && p in image && image[p].File? ==> c == Some(image[p].content))
  {
    var d, keep, r := Resolve(v.placed, f), Keep(v, f), p[|f|..];
    FatTreeLinkFree(v, image, layout, f);
    KeepIsBelow(v.placed, v.fats, f);
    KeptOrOwned(v, image, layout, f, p);
    CopiedInTree(v.tree, v.follow, d, keep, {}, r);
    if !Kept(keep, r) {
      DeepestIsOwner(layout, v.fats, f, p);
      BelowFatIsImage(v, image, layout, f, p);
    }
  }

  // It also makes the image's directories it owns, and the others not.
  lemma MakesOwnDirectories(v: Laid, image: Tree, layout: seq<Subvolume>, f: Path, p: Path)
    requires Relaid(v, image, layout) && f in v.fats && !LinkOnPath(image, f) && Taken(v, f) && p in image
    ensures MadeAt(v.tree, v.follow, Entered(v, f), f, Keep(v, f), {}, p) <==>
              FatOwner(layout, v.fats, f, p) && IsDir(image[p])
  {
    PlainTree(v, image, layout, f);
    if f <= p {
      var d, keep, r := Resolve(v.placed, f), Keep(v, f), p[|f|..];
      FatTreeLinkFree(v, image, layout, f);
      KeepIsBelow(v.placed, v.fats, f);
      KeptOrOwned(v, image, layout, f, p);
      MadeInTree(v.tree, v.follow, d, keep, {}, r);
      if !Kept(keep, r) {
        DeepestIsOwner(layout, v.fats, f, p);
        BelowFatIsImage(v, image, layout, f, p);
      }
    }
  }

  ghost predicate SparedBy(v: Laid, f: Path, q: Path)
    requires HasRoot(v.placed)
  {
    q in v.tree && Entered(v, f) < q ==> Remains(Keep(v, f), v.tree[q], q[|Entered(v, f)|..])
  }

  lemma KeptBelow(v: Laid, image: Tree, layout: seq<Subvolume>, f: Path, p: Path, rest: Path)
    requires Finished(RunOf(v), image, layout) && f in v.fats && Resolve(v.placed, p) == Resolve(v.placed, f) + rest
    ensures Kept(Keep(v, f), rest) <==> !FatOwner(layout, v.fats, f, p)
  {
    StoredBelowMeansBelow(v, image, layout, f, p, rest);
    BelowAppend(f, rest);
    KeptOrOwned(v, image, layout, f, p);
  }

  lemma OwnedIsBelow(v: Laid, image: Tree, layout: seq<Subvolume>, f: Path, p: Path)
    requires Relaid(v, image, layout) && p in image && image[p].File?
    ensures FatOwner(layout, v.fats, f, p) ==> Resolve(v.placed, f) < Resolve(v.placed, p)
  {
    if FatOwner(layout, v.fats, f, p) {
      DeepestIsOwner(layout, v.fats, f, p);
      StoredBelowFat(v, image, layout, f, p);
      assert Mounted(layout, v.fats, f);
      assert |f| == |p| ==> f == p;
    }
  }

  lemma UnhiddenHere(v: Laid, image: Tree, layout: seq<Subvolume>, p: Path)
    requires Relaid(v, image, layout) && p in image
    ensures Resolve(v.placed, p) in v.tree && Alike(v.tree[Resolve(v.placed, p)], image[p])
  {
    assert forall k :: k in layout ==> Mounted(layout, v.fats, k.mount);
    UnhiddenIsSame(image, layout, p);
  }

  // What a tree reached without symlinks does not own it does not take away.
  lemma SparedUnlessOwner(v: Laid, image: Tree, layout: seq<Subvolume>, f: Path, p: Path)
    requires Relaid(v, image, layout) && f in v.fats && !LinkOnPath(image, f)
    requires !FatOwner(layout, v.fats, f, p)
    ensures SparedBy(v, f, Resolve(v.placed, p))
  {
    PlainTree(v, image, layout, f);
    var q, d := Resolve(v.placed, p), Resolve(v.placed, f);
    if d < q { KeptBelow(v, image, layout, f, p, q[|d|..]); }
  }

  // A FAT tree reached without symlinks takes a file away exactly when it owns
  // the file's path.
  lemma TakenIffOwner(v: Laid, image: Tree, layout: seq<Subvolume>, f: Path, p: Path)
    requires Relaid(v, image, layout) && f in v.fats && !LinkOnPath(image, f)
    requires p in image && image[p].File?
    ensures SparedBy(v, f, Resolve(v.placed, p)) <==> !FatOwner(layout, v.fats, f, p)
  {
    var q, d := Resolve(v.placed, p), Resolve(v.placed, f);
    PlainTree(v, image, layout, f);
    UnhiddenHere(v, image, layout, p);
    OwnedIsBelow(v, image, layout, f, p);
    if d < q { KeptBelow(v, image, layout, f, p, q[|d|..]); }
  }

  lemma {:induction false} StagedFile(v: Laid, trees: seq<Path>, p: Path, c: Option<string>)
    requires HasRoot(v.placed)
    requires forall f :: f in trees ==> LandedFrom(v, f, p).None? || LandedFrom(v, f, p) == c
    ensures StagedAt(v, trees, p) == if exists f :: f in trees && LandedFrom(v, f, p).Some? then c else None
    decreases |trees|
  {
    if trees != [] {
      var front, last := trees[..|trees| - 1], trees[|trees| - 1];
      assert forall f :: f in trees <==> f in front || f == last;
      StagedFile(v, front, p, c);
    }
  }

  lemma {:induction false} StagedFrom(v: Laid, trees: seq<Path>, p: Path) returns (f: Path)
    requires HasRoot(v.placed) && StagedAt(v, trees, p).Some?
    ensures f in trees && LandedFrom(v, f, p) == StagedAt(v, trees, p)
    decreases |trees|
  {
    f := trees[|trees| - 1];
    if LandedFrom(v, f, p).None? {
      f := StagedFrom(v, trees[..|trees| - 1], p);
    }
  }

  lemma {:induction false} LandedIsStaged(v: Laid, trees: seq<Path>, f: Path, p: Path)
    requires HasRoot(v.placed) && f in trees && LandedFrom(v, f, p).Some?
    ensures StagedAt(v, trees, p).Some?
    decreases |trees|
  {
    if f != trees[|trees| - 1] {
      LandedIsStaged(v, trees[..|trees| - 1], f, p);
    }
  }

  lemma {:induction false} RemainingAt(v: Laid, trees: seq<Path>, q: Path)
    requires HasRoot(v.placed)
    ensures q in Remaining(v, trees) <==> q in v.tree && forall f :: f in trees ==> SparedBy(v, f, q)
    ensures q in Remaining(v, trees) ==> Remaining(v, trees)[q] == v.tree[q]
    decreases |trees|
  {
    if trees != [] {
      var front, last := trees[..|trees| - 1], trees[|trees| - 1];
      assert forall f :: f in trees <==> f in front || f == last;
      RemainingAt(v, front, q);
      assert (forall f :: f in trees ==> SparedBy(v, f, q)) <==>
             (forall f :: f in front ==> SparedBy(v, f, q)) && SparedBy(v, last, q);
    }
  }

  // ----- the removals

  // With every FAT mountpoint reached without symlinks the removals do not get
  // in each other's way.
  lemma RemovalsSucceed(v: Laid, image: Tree, layout: seq<Subvolume>, trees: seq<Path>, cut: set<Path>, i: nat)
    requires Relaid(v, image, layout) && i < |trees|
    requires forall f :: f in trees ==> f in v.fats && !LinkOnPath(image, f) && Taken(v, f)
    ensures StillThere(v, trees, cut, i)
  {
    var f := trees[i];
    PlainTree(v, image, layout, f);
    forall g | g in trees[..i] ensures SparedBy(v, g, Entered(v, f)) {
      assert g in trees;
      SparesOtherTrees(v, image, layout, g, f);
    }
    RemainingAt(v, trees[..i], Entered(v, f));
  }

  lemma SparesOtherTrees(v: Laid, image: Tree, layout: seq<Subvolume>, g: Path, f: Path)
    requires Relaid(v, image, layout) && f in v.fats && g in v.fats
    requires !LinkOnPath(image, f) && !LinkOnPath(image, g)
    ensures SparedBy(v, g, Entered(v, f))
  {
    PlainTree(v, image, layout, f);
    if FatOwner(layout, v.fats, g, f) {
      assert Mounted(layout, v.fats, f);
      assert g == f by { PrefixesCompare(g, f, f); }
    } else {
      SparedUnlessOwner(v, image, layout, g, f);
    }
  }

  // ----- where every file ends up

  lemma OwnerIsTree(v: Laid, image: Tree, layout: seq<Subvolume>, f: Path, p: Path)
    requires Relaid(v, image, layout) && FatOwner(layout, v.fats, f, p) && p in image && image[p].File?
    ensures !LinkOnPath(image, f) && Taken(v, f)
  {
    assert Mounted(layout, v.fats, f);
    assert |f| == |p| ==> f == p;
    if f < p { AncestorsAreDirs(image, f, p); }
    DirHasNoLinkAbove(image, f);
    PlainTree(v, image, layout, f);
    BelowFatIsImage(v, image, layout, f, f);
  }

  lemma RearrangedIsRelaid(v: Laid, image: Tree, layout: seq<Subvolume>)
    requires Splittable(image, layout, v.fats) && RunOf(v) == Rearranged(image, layout)
    ensures Relaid(v, image, layout)
  {
    RelayoutFinishes(image, layout);
  }

  lemma TreesOfFile(v: Laid, image: Tree, layout: seq<Subvolume>, f: Path, p: Path)
    requires Relaid(v, image, layout) && !Strays(v, image) && f in v.fats && Taken(v, f)
    requires p in image && image[p].File?
    ensures LandedFrom(v, f, p) == if FatOwner(layout, v.fats, f, p) then Some(image[p].content) else None
    ensures SparedBy(v, f, Resolve(v.placed, p)) <==> !FatOwner(layout, v.fats, f, p)
  {
    if LinkOnPath(image, f) {
      forall r ensures LandedFrom(v, f, r).None? { StrayLands(v, image, f, r); }
      UnhiddenHere(v, image, layout, p);
      HarmlessSpares(v, f, Resolve(v.placed, p));
      if FatOwner(layout, v.fats, f, p) { OwnerIsTree(v, image, layout, f, p); }
    } else {
      LandsIffOwner(v, image, layout, f, p);
      TakenIffOwner(v, image, layout, f, p);
    }
  }

  // Where a file of the image is after the split.
  ghost predicate SplitRight(v: Laid, image: Tree, layout: seq<Subvolume>, p: Path)
    requires HasRoot(v.placed) && p in image && image[p].File?
  {
    var trees, q := Trees(v, v.fats), Resolve(v.placed, p);
    if exists f :: FatOwner(layout, v.fats, f, p)
    then StagedAt(v, trees, p) == Some(image[p].content) && q !in Remaining(v, trees)
    else StagedAt(v, trees, p) == None && q in Remaining(v, trees) && Remaining(v, trees)[q] == image[p]
  }

  // Unless a file strays, every regular file of the image ends up on exactly one
  // filesystem: the one tree that stages it is that of its only owner.
  lemma FileOnOneFilesystem(v: Laid, image: Tree, layout: seq<Subvolume>, p: Path)
    requires Relaid(v, image, layout) && !Strays(v, image)
    requires p in image && image[p].File?
    ensures SplitRight(v, image, layout, p)
    ensures forall f, g :: FatOwner(layout, v.fats, f, p) && g in Trees(v, v.fats) ==>
              (LandedFrom(v, g, p).Some? <==> g == f)
  {
    var trees := Trees(v, v.fats);
    forall f | f in trees
      ensures LandedFrom(v, f, p) == if FatOwner(layout, v.fats, f, p) then Some(image[p].content) else None
      ensures SparedBy(v, f, Resolve(v.placed, p)) <==> !FatOwner(layout, v.fats, f, p)
    {
      TreesOfFile(v, image, layout, f, p);
    }
    StagedFile(v, trees, p, Some(image[p].content));
    RemainingAt(v, trees, Resolve(v.placed, p));
    UnhiddenHere(v, image, layout, p);
    if f :| FatOwner(layout, v.fats, f, p) {
      OwnerIsTree(v, image, layout, f, p);
      assert f in trees;
    }
    forall f, g | FatOwner(layout, v.fats, f, p) && g in trees ensures LandedFrom(v, g, p).Some? <==> g == f {
      if FatOwner(layout, v.fats, g, p) { OneOwner(layout, v.fats, f, g, p); }
    }
  }

  // And nothing else is there: what is staged is the image's,
  lemma NothingElseStaged(v: Laid, image: Tree, layout: seq<Subvolume>, p: Path)
    requires Relaid(v, image, layout) && !Strays(v, image) && StagedAt(v, Trees(v, v.fats), p).Some?
    ensures p in image && image[p] == File(StagedAt(v, Trees(v, v.fats), p).value)
    ensures exists f :: FatOwner(layout, v.fats, f, p)
  {
    var f := StagedFrom(v, Trees(v, v.fats), p);
    if LinkOnPath(image, f) {
      StrayLands(v, image, f, p);
    } else {
      LandsIffOwner(v, image, layout, f, p);
    }
  }

  // and every file left on Btrfs, strays or not, is one of the image's that no
  // FAT mount owns.
  lemma NothingElseLeft(v: Laid, image: Tree, layout: seq<Subvolume>, q: Path)
    requires Relaid(v, image, layout)
    requires q in Remaining(v, Trees(v, v.fats)) && Remaining(v, Trees(v, v.fats))[q].File?
    ensures q in v.tree && exists r :: r in image && image[r] == v.tree[q] && Resolve(v.placed, r) == q
                                       && !exists f :: FatOwner(layout, v.fats, f, r)
  {
    RemainingAt(v, Trees(v, v.fats), q);
    var r := FileBehind(v, image, layout, q);
    if f :| FatOwner(layout, v.fats, f, r) {
      OwnerIsTree(v, image, layout, f, r);
      TakenIffOwner(v, image, layout, f, r);
    }
  }

  lemma FileBehind(v: Laid, image: Tree, layout: seq<Subvolume>, q: Path) returns (r: Path)
    requires Relaid(v, image, layout) && q in v.tree && v.tree[q].File?
    ensures r in image && image[r] == v.tree[q] && Resolve(v.placed, r) == q
  {
    assert forall k :: k in layout ==> Mounted(layout, v.fats, k.mount);
    RelayoutStoresOnce(image, layout, q);
    r :| r in image && image[r] == v.tree[q] && Resolve(v.placed, r) == q;
  }

  // A node that no FAT mount owns, link or directory or file, stays exactly when
  // no tree reached through a symlink takes it away.
  lemma NotOwnedStaysIff(v: Laid, image: Tree, layout: seq<Subvolume>, p: Path)
    requires Relaid(v, image, layout)
    requires p in image && !exists f :: FatOwner(layout, v.fats, f, p)
    ensures var q := Resolve(v.placed, p);
      q in Remaining(v, Trees(v, v.fats)) <==>
        forall f :: f in v.fats && LinkOnPath(image, f) && Taken(v, f) ==> SparedBy(v, f, q)
    ensures var q := Resolve(v.placed, p);
      q in Remaining(v, Trees(v, v.fats)) ==> Alike(Remaining(v, Trees(v, v.fats))[q], image[p])
  {
    UnhiddenHere(v, image, layout, p);
    forall f | f in v.fats && !LinkOnPath(image, f) ensures SparedBy(v, f, Resolve(v.placed, p)) {
      SparedUnlessOwner(v, image, layout, f, p);
    }
    RemainingAt(v, Trees(v, v.fats), Resolve(v.placed, p));
  }

  // Every file is on its owner's side and nothing else was staged, exactly when
  // no FAT mountpoint is entered through a symlink with a file within reach.
  lemma FilesOnOwnersIff(v: Laid, image: Tree, layout: seq<Subvolume>)
    requires Relaid(v, image, layout)
    ensures !Strays(v, image) <==>
      && (forall p :: p in image && image[p].File? ==> SplitRight(v, image, layout, p))
      && (forall p :: StagedAt(v, Trees(v, v.fats), p).Some? ==> p in image)
  {
    if f, p :| StraysTo(v, image, f, p) {
      StrayLands(v, image, f, p);
      LandedIsStaged(v, Trees(v, v.fats), f, p);
      NothingBehindLink(image, f, p);
    }
    if !Strays(v, image) {
      forall p | p in image && image[p].File? ensures SplitRight(v, image, layout, p) {
        FileOnOneFilesystem(v, image, layout, p);
      }
      forall p | StagedAt(v, Trees(v, v.fats), p).Some? ensures p in image {
        NothingElseStaged(v, image, layout, p);
      }
    }
  }
}
