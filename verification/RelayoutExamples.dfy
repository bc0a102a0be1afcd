// Images for which the relayout does not do what it is for.
module RelayoutExamples {
  import opened Wrappers
  import opened Paths
  import opened SubvolumeLayout
  import opened Volume
  import opened Relayout
  import opened FatTree
  import opened RootImage
  import opened Installation

  predicate ShortNames(p: Path) {
    forall i :: 0 <= i < |p| ==> |p[i]| < |STAGING|
  }

  lemma ShortIsReady(image: Tree, layout: seq<Subvolume>)
    requires Admitted(layout) && WellFormed(image)
    requires (forall p :: p in image ==> ShortNames(p)) && forall k :: k in layout ==> ShortNames(k.name)
    ensures Ready(image, layout)
  {
    forall p: Path | ShortNames(p) ensures CleanPath(p) {
    }
  }

  const HOME := Subvolume(["@home"], ["home"])

  const FILE_AT_HOME: Tree := map[[] := Dir, ["home"] := File("x")]

  lemma FileAtHomeReady()
    ensures Ready(FILE_AT_HOME, [ROOT, HOME])
  {
    assert Parent(["home"]) == [];
    ShortIsReady(FILE_AT_HOME, [ROOT, HOME]);
  }

  // A regular file where a subvolume is to be mounted: the loop runs through and
  // the file is not found at its path any more.
  lemma FileAtMountpoint()
    ensures Ready(FILE_AT_HOME, [ROOT, HOME])
    ensures Rearranged(FILE_AT_HOME, [ROOT, HOME]).failure.None?
    ensures HasRoot(Rearranged(FILE_AT_HOME, [ROOT, HOME]).placed)
    ensures !Same(Rearranged(FILE_AT_HOME, [ROOT, HOME]), FILE_AT_HOME, ["home"])
  {
    var image, layout := FILE_AT_HOME, [ROOT, HOME];
    FileAtHomeReady();
    RelayoutSucceedsIff(image, layout);
    RelayoutFinishes(image, layout);
    assert HOME in layout;
    HiddenIsNotSame(Rearranged(image, layout), image, layout, HOME);
  }

  lemma HiddenIsNotSame(run: Run, image: Tree, layout: seq<Subvolume>, k: Subvolume)
    requires Finished(run, image, layout) && k in layout && k.mount in image && image[k.mount].File?
    ensures !Same(run, image, k.mount)
  {
    MountShowsSubvolume(run, image, layout, k);
  }

  const NESTED_VAR := Subvolume(["@", "var"], ["var"])

  const EMPTY_IMAGE: Tree := map[[] := Dir]

  // A subvolume inside @ whose directory the image lacks stops the installation.
  lemma NestedWithoutDirectory()
    ensures Ready(EMPTY_IMAGE, [ROOT, NESTED_VAR])
    ensures Rearranged(EMPTY_IMAGE, [ROOT, NESTED_VAR]).failure.Some?
  {
    var image, layout := EMPTY_IMAGE, [ROOT, NESTED_VAR];
    assert ROOT.name < NESTED_VAR.name && NESTED_VAR.mount == ROOT.mount + NESTED_VAR.name[1..];
    ShortIsReady(image, layout);
    RelayoutSucceedsIff(image, layout);
    assert ROOT in layout && NESTED_VAR in layout;
    assert Nested(layout, NESTED_VAR);
  }

  const EFI: Path := ["boot", "efi"]

  const LOADER: Path := ["usr", "boot", "efi", "x"]

  const LINKED_BOOT: Tree := map[
    [] := Dir,
    ["boot"] := Link("usr/boot"),
    ["usr"] := Dir,
    ["usr", "boot"] := Dir,
    ["usr", "boot", "efi"] := Dir,
    LOADER := File("x")]

  const LEADS: map<Path, Path> := map[["@", "boot"] := ["@", "usr", "boot"]]

  ghost const LAID: Laid := Laid(Deployed(LINKED_BOOT), [ROOT], [EFI], LEADS)

  lemma LinkedBootWellFormed()
    ensures WellFormed(LINKED_BOOT)
  {
    assert Parent(["boot"]) == [] && Parent(["usr"]) == [] && Parent(["usr", "boot"]) == ["usr"];
    assert Parent(["usr", "boot", "efi"]) == ["usr", "boot"] && Parent(LOADER) == ["usr", "boot", "efi"];
  }

  lemma LinkedBootIsSplittable()
    ensures Splittable(LINKED_BOOT, [ROOT], [EFI])
  {
    LinkedBootWellFormed();
    ShortIsReady(LINKED_BOOT, [ROOT]);
    OnlyRootAndEfi();
    NoLinkBelowEfi(LINKED_BOOT);
  }

  lemma OnlyRootAndEfi()
    ensures EFI !in LINKED_BOOT
    ensures forall m :: Mounted([ROOT], [EFI], m) <==> m == [] || m == EFI
  {
    assert ROOT in [ROOT];
    assert EFI != LOADER;
  }

  lemma NoLinkBelowEfi(image: Tree)
    requires image == LINKED_BOOT
    ensures forall p :: p in image && image[p].Link? ==> !(EFI < p)
  {
    assert forall p :: p in image && image[p].Link? ==> p == ["boot"];
  }

  lemma LinkedBootLaidOut()
    ensures Ready(LINKED_BOOT, [ROOT])
    ensures LaidOut(LINKED_BOOT, [ROOT], [EFI], LEADS) == LAID
    ensures Rearranged(LINKED_BOOT, [ROOT]).failure.None?
  {
    LinkedBootIsSplittable();
    assert [ROOT][..0] == [] && [ROOT][1..] == [];
    assert ByDepth([]) == [] && Insert([], ROOT) == [ROOT] && ByDepth([ROOT]) == [ROOT];
    assert CarveAll(Deployed(LINKED_BOOT), [ROOT], []) == Run(Deployed(LINKED_BOOT), [ROOT], None);
  }

  lemma LinkedBootNodes(t: Tree)
    requires t == Deployed(LINKED_BOOT)
    ensures ["@"] in t && t[["@"]] == Subvol
    ensures ["@", "boot"] in t && t[["@", "boot"]].Link?
    ensures ["@", "boot", "efi"] !in t
    ensures ["@", "usr", "boot", "efi"] in t && t[["@", "usr", "boot", "efi"]] == Dir
  {
    LinkedBootWellFormed();
    OnlyRootAndEfi();
    DeployedAt(LINKED_BOOT, ["@"]);
    DeployedAt(LINKED_BOOT, ["@", "boot"]);
    DeployedAt(LINKED_BOOT, ["@", "boot", "efi"]);
    DeployedAt(LINKED_BOOT, ["@", "usr", "boot", "efi"]);
    assert ["@", "boot"][1..] == ["boot"] && ["@", "boot", "efi"][1..] == EFI;
    assert ["@", "usr", "boot", "efi"][1..] == ["usr", "boot", "efi"];
  }

  lemma LeadsThere(t: Tree)
    requires ["@"] in t && t[["@"]] == Subvol && ["@", "boot"] in t && t[["@", "boot"]].Link?
    requires ["@", "usr", "boot", "efi"] in t && t[["@", "usr", "boot", "efi"]] == Dir
    ensures Real(t, LEADS, ["@", "boot", "efi"]) == ["@", "usr", "boot", "efi"]
    ensures !EndsInLink(t, LEADS, ["@", "boot", "efi"])
  {
    assert Parent(["@", "boot", "efi"]) == ["@", "boot"] && Parent(["@", "boot"]) == ["@"] && Parent(["@"]) == [];
    assert [] + ["@"] == ["@"] && Real(t, LEADS, ["@"]) == ["@"];
    assert ["@"] + ["boot"] == ["@", "boot"] && Real(t, LEADS, ["@", "boot"]) == ["@", "usr", "boot"];
    assert ["@", "usr", "boot"] + ["efi"] == ["@", "usr", "boot", "efi"];
  }

  lemma LinkedBootEntered()
    ensures Entered(LAID, EFI) == ["@", "usr", "boot", "efi"] && Taken(LAID, EFI)
  {
    LinkedBootNodes(LAID.tree);
    LeadsThere(LAID.tree);
    ResolveRoot(EFI);
    assert ROOT_NAME + EFI == ["@", "boot", "efi"];
  }

  lemma LinkedBootTrees()
    ensures Trees(LAID, [EFI]) == [EFI] && Keep(LAID, EFI) == {}
  {
    LinkedBootEntered();
    assert [EFI][..0] == [] && Trees(LAID, []) == [];
  }

  lemma LoaderIsStored()
    ensures var q := ["@", "usr", "boot", "efi"] + ["x"];
      q == ["@"] + LOADER && q in LAID.tree && LAID.tree[q] == File("x")
  {
    LinkedBootWellFormed();
    assert ["@", "usr", "boot", "efi"] + ["x"] == ["@"] + LOADER && (["@"] + LOADER)[1..] == LOADER;
    DeployedAt(LINKED_BOOT, ["@"] + LOADER);
  }

  lemma LinkedBootStages()
    ensures LandedFrom(LAID, EFI, EFI + ["x"]) == Some("x") && StagedAt(LAID, [EFI], EFI + ["x"]) == Some("x")
  {
    LinkedBootEntered();
    LinkedBootTrees();
    LoaderIsStored();
    assert Copied(LAID.tree, LEADS, Entered(LAID, EFI), {}, {}, ["x"]) == Some("x");
    assert (EFI + ["x"])[|EFI|..] == ["x"];
  }

  lemma LinkedBootRemoves()
    ensures Resolve([ROOT], LOADER) !in Remaining(LAID, [EFI])
  {
    LinkedBootEntered();
    LinkedBootTrees();
    LoaderIsStored();
    ResolveRoot(LOADER);
    var q := ["@"] + LOADER;
    assert !SparedBy(LAID, EFI, q);
    RemainingAt(LAID, [EFI], q);
    assert EFI in [EFI];
  }

  lemma BehindBoot(image: Tree)
    requires image == LINKED_BOOT
    ensures LinkOnPath(image, EFI)
  {
    assert image[["boot"]].Link? && EFI[..1] == ["boot"];
  }

  lemma LinkedBootStrays()
    ensures Strays(LAID, LINKED_BOOT)
  {
    LinkedBootEntered();
    LinkedBootStages();
    BehindBoot(LINKED_BOOT);
    StrayLands(LAID, LINKED_BOOT, EFI, EFI + ["x"]);
    assert StraysTo(LAID, LINKED_BOOT, EFI, EFI + ["x"]);
  }

  // A FAT mountpoint behind a symlink: the file found through the link is staged
  // for it and taken off Btrfs, although no FAT mount owns the file's path.
  lemma FileBehindLinkedMountpoint()
    ensures Splittable(LINKED_BOOT, [ROOT], [EFI]) && Rearranged(LINKED_BOOT, [ROOT]).failure.None?
    ensures LaidOut(LINKED_BOOT, [ROOT], [EFI], LEADS) == LAID && Strays(LAID, LINKED_BOOT)
    ensures StagedAt(LAID, Trees(LAID, [EFI]), EFI + ["x"]) == Some("x")
    ensures Resolve([ROOT], LOADER) !in Remaining(LAID, Trees(LAID, [EFI]))
    ensures !exists f :: FatOwner([ROOT], [EFI], f, LOADER)
  {
    LinkedBootIsSplittable();
    LinkedBootLaidOut();
    LinkedBootEntered();
    LinkedBootTrees();
    LinkedBootStages();
    LinkedBootRemoves();
    LinkedBootStrays();
    LoaderUnowned();
  }

  lemma LoaderUnowned()
    ensures !exists f :: FatOwner([ROOT], [EFI], f, LOADER)
  {
    assert EFI[0] != LOADER[0];
  }
}
