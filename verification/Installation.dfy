// The end of the relayout: with everything mounted the staged trees are copied
// into the target, and each file arrives on the filesystem it belongs to.
module Installation {
  import opened Wrappers
  import opened Paths
  import opened SubvolumeLayout
  import opened Volume
  import opened Relayout
  import opened FatTree
  import opened RootImage

  // The mountpoint whose filesystem a path of the target is on.
  function Deepest(mounts: seq<Path>, p: Path): (m: Option<Path>)
    ensures m.Some? ==> m.value in mounts && m.value <= p
    ensures m.Some? ==> forall x :: x in mounts && x <= p ==> |x| <= |m.value|
    ensures m.None? ==> forall x :: x in mounts ==> !(x <= p)
  {
    if mounts == [] then None
    else
      var front, last := mounts[..|mounts| - 1], mounts[|mounts| - 1];
      assert forall x :: x in mounts <==> x in front || x == last;
      var m := Deepest(front, p);
      if last <= p && (m.None? || |last| > |m.value|) then Some(last) else m
  }

  function Mounts(layout: seq<Subvolume>, fats: seq<Path>): (r: seq<Path>)
    ensures forall m :: m in r <==> Mounted(layout, fats, m)
  {
    var mounts := seq(|layout|, i requires 0 <= i < |layout| => layout[i].mount);
    assert forall k :: k in layout ==> exists i :: 0 <= i < |layout| && layout[i] == k && mounts[i] == k.mount;
    mounts + fats
  }

  lemma OwnerIsDeepest(layout: seq<Subvolume>, fats: seq<Path>, f: Path, p: Path)
    requires FatOwner(layout, fats, f, p)
    ensures Deepest(Mounts(layout, fats), p) == Some(f)
  {
    assert Mounted(layout, fats, f);
    var m := Deepest(Mounts(layout, fats), p).value;
    assert Mounted(layout, fats, m);
    PrefixesCompare(m, f, p);
  }

  // The staged file at p is in the tree of a FAT mountpoint and lands on the
  // filesystem mounted at m.
  ghost predicate Arrives(stage: map<Path, string>, mounts: seq<Path>, fats: seq<Path>, m: Path, p: Path) {
    p in stage && Deepest(mounts, p) == Some(m) && exists f :: f in fats && f < p
  }

  lemma ArrivesWithOneMore(stage: map<Path, string>, mounts: seq<Path>, fats: seq<Path>, i: nat, m: Path, p: Path)
    requires i < |fats|
    ensures Arrives(stage, mounts, fats[..i + 1], m, p) <==>
      || Arrives(stage, mounts, fats[..i], m, p)
      || (p in stage && fats[i] < p && Deepest(mounts, p) == Some(m))
  {
    var upto, before := fats[..i + 1], fats[..i];
    assert upto == before + [fats[i]];
    if f :| f in upto && f < p { assert f in before || f == fats[i]; }
    if f :| f in before && f < p { assert f in upto; }
    assert fats[i] in upto;
  }

  ghost predicate WrittenAt(written: map<(Path, Path), string>, stage: map<Path, string>, mounts: seq<Path>,
                            fats: seq<Path>, m: Path, p: Path) {
    && ((m, p) in written <==> Arrives(stage, mounts, fats, m, p))
    && ((m, p) in written ==> written[(m, p)] == stage[p])
  }

  // One tree put on top of what was written before.
  ghost predicate CopiedOver(before: map<(Path, Path), string>, after: map<(Path, Path), string>,
                             stage: map<Path, string>, mounts: seq<Path>, f: Path, m: Path, p: Path) {
    var here := p in stage && f < p && Deepest(mounts, p) == Some(m);
    && ((m, p) in after <==> (m, p) in before || here)
    && ((m, p) in after ==> after[(m, p)] == if here then stage[p] else before[(m, p)])
  }

  // Files put into the mounted target, by mountpoint of the filesystem and path.
  class Target {
    var written: map<(Path, Path), string>

    constructor ()
      ensures written == map[]
    {
      written := map[];
    }

    // cp -r of one staged tree; what is mounted below gets what is below.
    method CopyTree(stage: map<Path, string>, mounts: seq<Path>, f: Path)
      requires [] in mounts
      modifies this
      ensures forall m, p :: CopiedOver(old(written), written, stage, mounts, f, m, p)
    {
      written := written + map p | p in stage && f < p :: (Deepest(mounts, p).value, p) := stage[p];
    }

    method CopyBack(stage: map<Path, string>, mounts: seq<Path>, fats: seq<Path>)
      requires [] in mounts && written == map[]
      modifies this
      ensures forall m, p :: WrittenAt(written, stage, mounts, fats, m, p)
    {
      for i := 0 to |fats|
        invariant forall m, p :: WrittenAt(written, stage, mounts, fats[..i], m, p)
      {
        ghost var before, upto := written, fats[..i + 1];
        CopyTree(stage, mounts, fats[i]);
        ghost var after := written;
        forall m, p ensures WrittenAt(written, stage, mounts, upto, m, p) {
          assert WrittenAt(before, stage, mounts, fats[..i], m, p);
          assert CopiedOver(before, after, stage, mounts, fats[i], m, p);
          ArrivesWithOneMore(stage, mounts, fats, i, m, p);
        }
      }
      assert fats[..|fats|] == fats;
    }
  }

  // ----- where an installed file is found

  // On the one filesystem that owns it, with its content: the FAT filesystem of
  // the deepest mountpoint above it, or its place on Btrfs.
  ghost predicate OnItsOwner(tree: Tree, written: map<(Path, Path), string>, layout: seq<Subvolume>, fats: seq<Path>,
                             p: Path, q: Path, content: string) {
    && (forall m :: (m, p) in written <==> FatOwner(layout, fats, m, p))
    && (forall m :: (m, p) in written ==> written[(m, p)] == content)
    && (q in tree && tree[q] == File(content) <==> !exists m :: FatOwner(layout, fats, m, p))
    && (q !in tree <==> exists m :: FatOwner(layout, fats, m, p))
  }

  ghost predicate AllOnOwners(image: Tree, layout: seq<Subvolume>, fats: seq<Path>, tree: Tree,
                              placed: seq<Subvolume>, written: map<(Path, Path), string>)
    requires HasRoot(placed)
  {
    && (forall p :: p in image && image[p].File? ==>
          OnItsOwner(tree, written, layout, fats, p, Resolve(placed, p), image[p].content))
    && (forall m, p :: (m, p) in written ==> p in image && image[p] == File(written[(m, p)]))
  }

  ghost predicate AllStaged(v: Laid, stage: map<Path, string>)
    requires HasRoot(v.placed)
  {
    forall p :: OverlaidAt(map[], stage, StagedAt(v, Trees(v, v.fats), p), p)
  }

  lemma StagedArrives(v: Laid, layout: seq<Subvolume>, stage: map<Path, string>, p: Path)
    requires HasRoot(v.placed) && ROOT in layout && AllStaged(v, stage)
    ensures p in stage ==> exists m :: Arrives(stage, Mounts(layout, v.fats), v.fats, m, p)
    ensures p in stage <==> StagedAt(v, Trees(v, v.fats), p).Some?
    ensures p in stage ==> stage[p] == StagedAt(v, Trees(v, v.fats), p).value
  {
    assert OverlaidAt(map[], stage, StagedAt(v, Trees(v, v.fats), p), p);
    if p in stage {
      var f := StagedFrom(v, Trees(v, v.fats), p);
      assert f <= p && p[|f|..] != [];
      assert f < p;
      assert Mounted(layout, v.fats, []);
      assert Arrives(stage, Mounts(layout, v.fats), v.fats, Deepest(Mounts(layout, v.fats), p).value, p);
    }
  }

  lemma FileArrives(v: Laid, image: Tree, layout: seq<Subvolume>, stage: map<Path, string>,
                    written: map<(Path, Path), string>, p: Path)
    requires Relaid(v, image, layout) && !Strays(v, image) && AllStaged(v, stage)
    requires forall m, r :: WrittenAt(written, stage, Mounts(layout, v.fats), v.fats, m, r)
    requires p in image && image[p].File?
    ensures OnItsOwner(Remaining(v, Trees(v, v.fats)), written, layout, v.fats,
                       p, Resolve(v.placed, p), image[p].content)
  {
    FileOnOneFilesystem(v, image, layout, p);
    StagedArrives(v, layout, stage, p);
    var mounts := Mounts(layout, v.fats);
    forall m ensures (m, p) in written <==> FatOwner(layout, v.fats, m, p)
      ensures (m, p) in written ==> written[(m, p)] == image[p].content
    {
      assert WrittenAt(written, stage, mounts, v.fats, m, p);
      if f :| FatOwner(layout, v.fats, f, p) {
        OwnerIsDeepest(layout, v.fats, f, p);
        if FatOwner(layout, v.fats, m, p) { OneOwner(layout, v.fats, f, m, p); }
      }
    }
  }

  lemma OnlyFilesArrive(v: Laid, image: Tree, layout: seq<Subvolume>, stage: map<Path, string>,
                        written: map<(Path, Path), string>, m: Path, p: Path)
    requires Relaid(v, image, layout) && !Strays(v, image) && AllStaged(v, stage)
    requires WrittenAt(written, stage, Mounts(layout, v.fats), v.fats, m, p) && (m, p) in written
    ensures p in image && image[p] == File(written[(m, p)])
  {
    StagedArrives(v, layout, stage, p);
    NothingElseStaged(v, image, layout, p);
  }

  // The whole relayout puts every file of the image on its owner and nothing
  // else anywhere, exactly when no file strays.
  lemma SettledIff(v: Laid, image: Tree, layout: seq<Subvolume>, stage: map<Path, string>,
                   written: map<(Path, Path), string>)
    requires Relaid(v, image, layout) && AllStaged(v, stage)
    requires forall m, p :: WrittenAt(written, stage, Mounts(layout, v.fats), v.fats, m, p)
    ensures AllOnOwners(image, layout, v.fats, Remaining(v, Trees(v, v.fats)), v.placed, written) <==> !Strays(v, image)
  {
    if f, p :| StraysTo(v, image, f, p) {
      StrayLands(v, image, f, p);
      LandedIsStaged(v, Trees(v, v.fats), f, p);
      StagedArrives(v, layout, stage, p);
      var m :| Arrives(stage, Mounts(layout, v.fats), v.fats, m, p);
      assert WrittenAt(written, stage, Mounts(layout, v.fats), v.fats, m, p);
      NothingBehindLink(image, f, p);
      assert (m, p) in written && p !in image;
    } else {
      forall p | p in image && image[p].File?
        ensures OnItsOwner(Remaining(v, Trees(v, v.fats)), written, layout, v.fats,
                           p, Resolve(v.placed, p), image[p].content)
      {
        FileArrives(v, image, layout, stage, written, p);
      }
      forall m, p | (m, p) in written ensures p in image && image[p] == File(written[(m, p)]) {
        assert WrittenAt(written, stage, Mounts(layout, v.fats), v.fats, m, p);
        OnlyFilesArrive(v, image, layout, stage, written, m, p);
      }
    }
  }

  // ----- install

  ghost function LaidOut(image: Tree, layout: seq<Subvolume>, fats: seq<Path>, follow: map<Path, Path>): Laid
    requires Ready(image, layout)
  {
    Laid(Rearranged(image, layout).tree, Rearranged(image, layout).placed, fats, follow)
  }

  ghost predicate AllFits(image: Tree, layout: seq<Subvolume>) {
    forall s :: s in layout && s != ROOT ==> Fits(image, layout, s)
  }

  lemma LaidOutIsRelaid(image: Tree, layout: seq<Subvolume>, fats: seq<Path>, follow: map<Path, Path>)
    requires Splittable(image, layout, fats) && AllFits(image, layout)
    ensures Relaid(LaidOut(image, layout, fats, follow), image, layout)
  {
    RelayoutFinishes(image, layout);
    RearrangedIsRelaid(LaidOut(image, layout, fats, follow), image, layout);
  }

  // Carving, splitting and copying back, as install runs them. The removals may
  // fail only if some FAT mountpoint is entered through a symlink.
  method ArrangeRoot(fs: Filesystem, image: Tree, layout: seq<Subvolume>, fats: seq<Path>,
                     follow: map<Path, Path>, cut: set<Path>)
    returns (placed: seq<Subvolume>, target: Target, failure: Option<Failure>)
    requires Splittable(image, layout, fats) && fs.nodes == Deployed(image)
    modifies fs
    ensures failure.None? ==> AllFits(image, layout)
    ensures AllFits(image, layout) && (forall f :: f in fats ==> !LinkOnPath(image, f)) ==> failure.None?
    ensures failure.None? ==>
      && HasRoot(placed) && HasRoot(LaidOut(image, layout, fats, follow).placed)
      && (AllOnOwners(image, layout, fats, fs.nodes, placed, target.written) <==>
            !Strays(LaidOut(image, layout, fats, follow), image))
  {
    RelayoutFinishes(image, layout);
    placed, failure := RelayoutInPlace(fs, image, layout);
    target := new Target();
    if failure.Some? {
      return;
    }
    var v := Laid(fs.nodes, placed, fats, follow);
    LaidOutIsRelaid(image, layout, fats, follow);
    if forall f :: f in fats ==> !LinkOnPath(image, f) {
      AllTreesRemovable(v, image, layout, cut);
    }
    var stage, ok := SplitOffFat(fs, v, cut);
    if !ok {
      return placed, target, Some(NotADirectory);
    }
    assert Mounted(layout, fats, []);
    target.CopyBack(stage.files, Mounts(layout, fats), fats);
    SettledIff(v, image, layout, stage.files, target.written);
  }

  lemma AllTreesRemovable(v: Laid, image: Tree, layout: seq<Subvolume>, cut: set<Path>)
    requires Relaid(v, image, layout) && forall f :: f in v.fats ==> !LinkOnPath(image, f)
    ensures Removable(v, Trees(v, v.fats), cut, 0) == |Trees(v, v.fats)|
  {
    var trees := Trees(v, v.fats);
    forall k | 0 <= k < |trees| ensures StillThere(v, trees, cut, k) {
      RemovalsSucceed(v, image, layout, trees, cut, k);
    }
    AllRemovable(v, trees, cut, 0);
  }
}
