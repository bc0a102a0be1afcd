// The top of the Btrfs filesystem while the root image is being rearranged,
// and create_subvolume, the step that carves one directory out of it.
module Volume {
  import opened Wrappers
  import opened Paths

  datatype Node =
    | Dir
    | Subvol
    | File(content: string)
    | Link(target: string)

  // Directories and subvolume roots look alike to every path operation.
  predicate IsDir(n: Node) {
    n.Dir? || n.Subvol?
  }

  type Tree = map<Path, Node>

  // Every node sits in a directory.
  ghost predicate WellFormed(t: Tree) {
    && [] in t && IsDir(t[[]])
    && forall q :: q in t && q != [] ==> Parent(q) in t && IsDir(t[Parent(q)])
  }

  predicate HasDir(t: Tree, p: Path) {
    p in t && IsDir(t[p])
  }

  lemma {:induction false} AncestorsAreDirs(t: Tree, a: Path, q: Path)
    requires WellFormed(t) && q in t && a < q
    ensures HasDir(t, a)
    decreases |q|
  {
    ParentPrefix(a, q);
    if a != Parent(q) {
      AncestorsAreDirs(t, a, Parent(q));
    }
  }

  datatype Failure = SymlinkBacked | NotADirectory | Occupied | CopyIntoItself

  datatype Outcome = Outcome(tree: Tree, failure: Option<Failure>)

  const STAGING: string := ".monarch-image"

  function Staged(name: Path): Path
    requires name != []
  {
    Parent(name) + [name[|name| - 1] + STAGING]
  }

  predicate LinkOnPath(t: Tree, p: Path) {
    exists k :: 0 < k <= |p| && p[..k] in t && t[p[..k]].Link?
  }

  predicate FileOnPath(t: Tree, p: Path) {
    exists k :: 0 < k <= |p| && p[..k] in t && !IsDir(t[p[..k]])
  }

  // Everything strictly below src, found strictly below dst instead.
  function Forward(src: Path, dst: Path, q: Path): Path {
    if src < q then dst + q[|src|..] else q
  }

  function Backward(src: Path, dst: Path, q: Path): Path {
    if dst < q then src + q[|dst|..] else q
  }

  function Transfer(t: Tree, src: Path, dst: Path): Tree {
    var keys := set q | q in t :: Forward(src, dst, q);
    map q | q in keys && Backward(src, dst, q) in t :: t[Backward(src, dst, q)]
  }

  // A copied subvolume root is a plain directory.
  function Plain(n: Node): Node {
    if n.Subvol? then Dir else n
  }

  function PlainBelow(t: Tree, a: Path): Tree {
    map q | q in t :: if a < q then Plain(t[q]) else t[q]
  }

  function Without(t: Tree, a: Path): Tree {
    map q | q in t && !(a <= q) :: t[q]
  }

  predicate Childless(t: Tree, p: Path) {
    forall q :: q in t ==> !(p < q)
  }

  // rename(2): an occupied target is replaced only by a node of its own kind,
  // and only when it is a file or an empty plain directory.
  predicate Replaceable(t: Tree, src: Path, dst: Path)
    requires src in t
  {
    dst in t ==>
      if IsDir(t[src]) then t[dst].Dir? && Childless(t, dst) else !IsDir(t[dst])
  }

  function Renamed(t: Tree, src: Path, dst: Path): Tree
    requires src in t
  {
    Transfer(t - {src}, src, dst)[dst := t[src]]
  }

  function MissingParents(t: Tree, name: Path): set<Path> {
    set k | 0 < k < |name| && name[..k] !in t :: name[..k]
  }

  function WithParents(t: Tree, name: Path): Tree {
    t + map q | q in MissingParents(t, name) :: Dir
  }

  // create_subvolume after its symlink check: stage what is in the way, make
  // the subvolume, move the content in, drop what was staged.
  function Carved(t: Tree, name: Path, content: Path): Outcome
    requires name != []
  {
    if name in t then
      var staged := Staged(name);
      if !Replaceable(t, name, staged) then
        Outcome(t, Some(Occupied))
      else
        var from := if content == name then staged else content;
        var o := Filled(Renamed(t, name, staged), name, from);
        if o.failure.Some? then o
        else if !HasDir(o.tree, staged) then Outcome(o.tree, Some(NotADirectory))
        else Outcome(Without(o.tree, staged), None)
    else
      Filled(t, name, content)
  }

  function Filled(t: Tree, name: Path, content: Path): Outcome
    requires name != []
  {
    if FileOnPath(t, Parent(name)) then
      Outcome(t, Some(NotADirectory))
    else
      var t1 := WithParents(t, name)[name := Subvol];
      if !HasDir(t1, content) then Outcome(t1, None)
      else if content <= name then Outcome(t1, Some(CopyIntoItself))
      else Outcome(Transfer(PlainBelow(t1, content), content, name), None)
  }

  function Created(t: Tree, name: Path, content: Path): Outcome
    requires name != []
  {
    if LinkOnPath(t, content) || LinkOnPath(t, name) then Outcome(t, Some(SymlinkBacked))
    else Carved(t, name, content)
  }

  // ----- what the moves do to a path

  ghost predicate NothingBelow(t: Tree, a: Path) {
    forall q :: q in t ==> !(a < q)
  }

  lemma TransferAt(t: Tree, src: Path, dst: Path, q: Path)
    requires NothingBelow(t, dst) && !(src <= dst) && !(dst <= src)
    ensures q in Transfer(t, src, dst) <==>
      if dst < q then src + q[|dst|..] in t else q in t && !(src < q)
    ensures q in Transfer(t, src, dst) ==>
      Transfer(t, src, dst)[q] == t[if dst < q then src + q[|dst|..] else q]
  {
    var back := Backward(src, dst, q);
    if dst < q {
      BelowAppend(src, q[|dst|..]);
      assert q == dst + q[|dst|..];
      assert q[|dst|..] != [];
      assert Forward(src, dst, back) == q;
    } else if q in t && !(src < q) {
      assert Forward(src, dst, q) == q;
    } else if src < q && q in t {
      assert q !in Transfer(t, src, dst) by {
        if x :| x in t && Forward(src, dst, x) == q {
          if src < x {
            BelowAppend(dst, x[|src|..]);
          }
        }
      }
    }
  }

  // A copy lands at every path whose origin is below the source.
  lemma CopiedAt(t: Tree, copies: set<Path>, src: Path, dst: Path, q: Path)
    requires !(src <= dst) && !(dst <= src)
    requires copies == set x | x in t && src < x :: Forward(src, dst, x)
    ensures q in copies <==> dst < q && src + q[|dst|..] in t
  {
    if dst < q && src + q[|dst|..] in t {
      var x := src + q[|dst|..];
      BelowAppend(src, q[|dst|..]);
      assert q[|dst|..] != [] && q == dst + q[|dst|..];
      assert Forward(src, dst, x) == q;
    }
    if q in copies {
      var x :| x in t && src < x && Forward(src, dst, x) == q;
      BelowAppend(dst, x[|src|..]);
      assert x == src + x[|src|..];
    }
  }

  // Copying the entries and clearing the source amounts to moving them.
  lemma MovedIsTransfer(t: Tree, copied: Tree, src: Path, dst: Path)
    requires NothingBelow(t, dst) && !(src <= dst) && !(dst <= src)
    requires forall q :: q in copied <==> q in t || (dst < q && src + q[|dst|..] in t)
    requires forall q :: q in copied ==> copied[q] == if dst < q then Plain(t[src + q[|dst|..]]) else t[q]
    ensures (map q | q in copied && !(src < q) :: copied[q]) == Transfer(PlainBelow(t, src), src, dst)
  {
    var moved := map q | q in copied && !(src < q) :: copied[q];
    var whole := Transfer(PlainBelow(t, src), src, dst);
    forall q ensures q in moved <==> q in whole
      ensures q in moved ==> moved[q] == whole[q]
    {
      MovedAt(t, src, dst, q);
    }
  }

  lemma MovedAt(t: Tree, src: Path, dst: Path, q: Path)
    requires NothingBelow(t, dst) && !(src <= dst) && !(dst <= src)
    ensures q in Transfer(PlainBelow(t, src), src, dst) <==>
      !(src < q) && (q in t || (dst < q && src + q[|dst|..] in t))
    ensures q in Transfer(PlainBelow(t, src), src, dst) ==>
      Transfer(PlainBelow(t, src), src, dst)[q] == if dst < q then Plain(t[src + q[|dst|..]]) else t[q]
  {
    TransferAt(PlainBelow(t, src), src, dst, q);
    if dst < q {
      CopyOrigin(src, dst, q);
      if src < q { PrefixesClash(src, dst, q); }
    }
  }

  lemma CopyOrigin(src: Path, dst: Path, q: Path)
    requires dst < q
    ensures src < src + q[|dst|..]
  {
    assert q[|dst|..] != [];
  }

  lemma NothingBelowAbsent(t: Tree, name: Path)
    requires WellFormed(t) && name !in t
    ensures NothingBelow(t, name)
  {
    forall q | q in t ensures !(name < q) {
      if name < q { AncestorsAreDirs(t, name, q); }
    }
  }

  // After the rename nothing is left at the old name.
  lemma NothingLeftBelow(t: Tree, name: Path)
    requires WellFormed(t) && name != [] && name in t && Replaceable(t, name, Staged(name))
    ensures name !in Renamed(t, name, Staged(name))
    ensures NothingBelow(Renamed(t, name, Staged(name)), name)
  {
    var staged := Staged(name);
    StagedApart(name);
    ReplaceableEmpty(t, name, staged);
    forall q | name <= q ensures q !in Renamed(t, name, staged) {
      assert !(staged <= q) by {
        if staged <= q { PrefixesClash(name, staged, q); }
      }
      TransferAt(t - {name}, name, staged, q);
      assert q == name || name < q by {
        if |q| == |name| { assert q == q[..|name|]; }
      }
    }
  }

  lemma PrefixesClash(a: Path, b: Path, q: Path)
    requires a <= q && b <= q
    ensures a <= b || b <= a
  {
    if |a| <= |b| { PrefixesCompare(a, b, q); } else { PrefixesCompare(b, a, q); }
  }

  lemma ReplaceableEmpty(t: Tree, src: Path, dst: Path)
    requires WellFormed(t) && src in t && Replaceable(t, src, dst)
    ensures NothingBelow(t, dst)
  {
    forall q | q in t ensures !(dst < q) {
      if dst < q { AncestorsAreDirs(t, dst, q); }
    }
  }

  lemma StagedApart(name: Path)
    requires name != []
    ensures Staged(name) != name
    ensures !(name <= Staged(name)) && !(Staged(name) <= name)
    ensures Staged(name) != [] && Parent(Staged(name)) == Parent(name)
  {
    var k := |name| - 1;
    assert Staged(name)[k] == name[k] + STAGING;
    assert |Staged(name)[k]| == |name[k]| + |STAGING|;
    assert |Staged(name)| == |name|;
  }

  // ----- what create_subvolume does to each path, when it succeeds

  ghost predicate FreeToStage(t: Tree, name: Path)
    requires name != []
  {
    forall q :: q in t ==> !(Staged(name) <= q)
  }

  lemma ParentsOf(t: Tree, name: Path, q: Path)
    requires name != [] && !FileOnPath(t, Parent(name))
    ensures q in WithParents(t, name) <==> q in t || (q != [] && q < name)
    ensures q in WithParents(t, name) ==> WithParents(t, name)[q] == if q in t then t[q] else Dir
    ensures q in t && q != [] && q < name ==> IsDir(t[q])
  {
    if q != [] && q < name {
      assert q == name[..|q|] == Parent(name)[..|q|];
    }
  }

  // The missing directories above name that are shorter than k, made.
  ghost function ParentsUpTo(t: Tree, name: Path, k: nat): Tree {
    t + map q | q in MissingParents(t, name) && |q| < k :: Dir
  }

  lemma ParentsStep(t: Tree, name: Path, k: nat)
    requires 0 < k < |name|
    ensures name[..k] in ParentsUpTo(t, name, k) <==> name[..k] in t
    ensures var made := ParentsUpTo(t, name, k);
      ParentsUpTo(t, name, k + 1) == if name[..k] in t then made else made[name[..k] := Dir]
  {
    forall q | q in MissingParents(t, name) && |q| == k ensures q == name[..k] {
    }
    assert name[..k] !in t ==> name[..k] in MissingParents(t, name);
  }

  lemma ParentsAll(t: Tree, name: Path)
    ensures ParentsUpTo(t, name, |name|) == WithParents(t, name)
    ensures name != [] ==> ParentsUpTo(t, name, 1) == t
  {
    assert forall q :: q in MissingParents(t, name) ==> 0 < |q| < |name|;
  }

  // A subvolume made where its content already is: only the node at the top changes.
  lemma CarvedInPlace(t: Tree, name: Path, q: Path)
    requires WellFormed(t) && name != [] && name in t && FreeToStage(t, name)
    requires Carved(t, name, name).failure.None?
    ensures IsDir(t[name])
    ensures q in Carved(t, name, name).tree <==> q in t
    ensures q in t ==> Carved(t, name, name).tree[q] == InPlaceNode(name, q, t[q])
  {
    var staged := Staged(name);
    StagedApart(name);
    var t1 := Renamed(t, name, staged);
    NothingLeftBelow(t, name);
    var t2 := WithParents(t1, name)[name := Subvol];
    ParentsOf(t1, name, staged);
    assert staged in t2 && t2[staged] == t[name];
    var t3 := Filled(t1, name, staged).tree;
    assert IsDir(t[name]);
    assert t3 == Transfer(PlainBelow(t2, staged), staged, name);
    InPlaceAt(t, name, q, t1, t2, t3);
  }

  function InPlaceNode(name: Path, q: Path, n: Node): Node {
    if q == name then Subvol else if name < q then Plain(n) else n
  }

  lemma InPlaceAt(t: Tree, name: Path, q: Path, t1: Tree, t2: Tree, t3: Tree)
    requires WellFormed(t) && name != [] && HasDir(t, name) && FreeToStage(t, name)
    requires t1 == Renamed(t, name, Staged(name)) && !FileOnPath(t1, Parent(name))
    requires t2 == WithParents(t1, name)[name := Subvol]
    requires t3 == Transfer(PlainBelow(t2, Staged(name)), Staged(name), name)
    ensures q in Without(t3, Staged(name)) <==> q in t
    ensures q in t ==> Without(t3, Staged(name))[q] == InPlaceNode(name, q, t[q])
  {
    var staged := Staged(name);
    StagedApart(name);
    NothingBelowFresh(t, name, t1, t2);
    TransferAt(PlainBelow(t2, staged), staged, name, q);
    if name < q {
      assert !(staged <= q) by { if staged <= q { PrefixesClash(staged, name, q); } }
      FromStaged(t, name, q, t1, t2);
    } else {
      AsideFromStaged(t, name, q, t1, t2);
    }
  }

  lemma NothingBelowFresh(t: Tree, name: Path, t1: Tree, t2: Tree)
    requires WellFormed(t) && name != [] && HasDir(t, name) && FreeToStage(t, name)
    requires t1 == Renamed(t, name, Staged(name)) && !FileOnPath(t1, Parent(name))
    requires t2 == WithParents(t1, name)[name := Subvol]
    ensures NothingBelow(t2, name)
  {
    StagedApart(name);
    forall x | x in t2 ensures !(name < x) {
      if name < x {
        assert !(Staged(name) <= x) by { if Staged(name) <= x { PrefixesClash(Staged(name), name, x); } }
        RenamedAt(t, name, x);
        ParentsOf(t1, name, x);
      }
    }
  }

  lemma AsideFromStaged(t: Tree, name: Path, q: Path, t1: Tree, t2: Tree)
    requires WellFormed(t) && name != [] && HasDir(t, name) && FreeToStage(t, name) && !(name < q)
    requires t1 == Renamed(t, name, Staged(name)) && !FileOnPath(t1, Parent(name))
    requires t2 == WithParents(t1, name)[name := Subvol]
    ensures q in t ==> !(Staged(name) <= q)
    ensures q in t2 && !(Staged(name) <= q) <==> q in t
    ensures q in t ==> t2[q] == if q == name then Subvol else t[q]
  {
    RenamedAt(t, name, q);
    ParentsOf(t1, name, q);
    StagedApart(name);
    if q != [] && q < name {
      AncestorsAreDirs(t, q, name);
    }
    if |q| == |name| && name <= q { assert q == name; }
  }

  lemma FromStaged(t: Tree, name: Path, q: Path, t1: Tree, t2: Tree)
    requires WellFormed(t) && name != [] && HasDir(t, name) && FreeToStage(t, name) && name < q
    requires t1 == Renamed(t, name, Staged(name)) && !FileOnPath(t1, Parent(name))
    requires t2 == WithParents(t1, name)[name := Subvol]
    ensures Staged(name) < Staged(name) + q[|name|..]
    ensures Staged(name) + q[|name|..] in t2 <==> q in t
    ensures q in t ==> t2[Staged(name) + q[|name|..]] == t[q]
  {
    var x := Staged(name) + q[|name|..];
    StagedImage(name, q);
    RenamedAt(t, name, x);
    ParentsOf(t1, name, x);
  }

  lemma StagedImage(name: Path, q: Path)
    requires name != [] && name < q
    ensures var x := Staged(name) + q[|name|..];
      Staged(name) < x && !(x <= name) && x != name && name + x[|Staged(name)|..] == q
  {
    var staged := Staged(name);
    StagedApart(name);
    var x := staged + q[|name|..];
    CopyOrigin(staged, name, q);
    BelowAppend(staged, q[|name|..]);
    if x <= name { PrefixTransitive(staged, x, name); }
  }

  lemma RenamedAt(t: Tree, name: Path, q: Path)
    requires WellFormed(t) && name != [] && name in t && FreeToStage(t, name)
    ensures q in Renamed(t, name, Staged(name)) <==>
      if Staged(name) <= q then name + q[|Staged(name)|..] in t else q in t && !(name <= q)
    ensures q in Renamed(t, name, Staged(name)) ==>
      Renamed(t, name, Staged(name))[q] == t[if Staged(name) <= q then name + q[|Staged(name)|..] else q]
  {
    var staged := Staged(name);
    StagedApart(name);
    TransferAt(t - {name}, name, staged, q);
    if staged <= q {
      if |q| == |staged| { assert q == staged && name + q[|staged|..] == name; }
    } else if name <= q {
      if |q| == |name| { assert q == name; }
    }
  }

  // A subvolume made elsewhere: the content's entries move under the new name.
  lemma CarvedAway(t: Tree, name: Path, content: Path, q: Path)
    requires WellFormed(t) && name != [] && name !in t
    requires !(content <= name) && !(name <= content)
    requires Carved(t, name, content).failure.None?
    ensures q in Carved(t, name, content).tree <==>
      || q == name
      || (q != [] && q < name)
      || (name < q && content + q[|name|..] in t)
      || (q in t && !(content < q))
    ensures q == name ==> Carved(t, name, content).tree[q] == Subvol
    ensures name < q && q in Carved(t, name, content).tree ==>
              content + q[|name|..] in t && Carved(t, name, content).tree[q] == Plain(t[content + q[|name|..]])
    ensures q in Carved(t, name, content).tree && !(name <= q) ==>
              Carved(t, name, content).tree[q] == if q in t then t[q] else Dir
    ensures q in t && q != [] && q < name ==> IsDir(t[q])
  {
    NothingBelowAbsent(t, name);
    ParentsOf(t, name, q);
    ParentsOf(t, name, content);
    var t1 := WithParents(t, name)[name := Subvol];
    if HasDir(t1, content) {
      forall x | x in t1 ensures !(name < x) { ParentsOf(t, name, x); }
      TransferAt(PlainBelow(t1, content), content, name, q);
    } else {
      forall x | x in t ensures !(content < x) {
        if content < x { AncestorsAreDirs(t, content, x); }
      }
    }
    if name < q {
      var x := content + q[|name|..];
      ParentsOf(t, name, x);
      CopyOrigin(content, name, q);
      assert !(x < name) by { if x < name { PrefixTransitive(content, x, name); } }
      BelowAppend(content, q[|name|..]);
    } else if content < q {
      assert !(q < name) by { if q < name { PrefixTransitive(content, q, name); } }
    }
  }

  // A directory is not set aside over a file, a subvolume or a directory with
  // something in it: then nothing is changed.
  lemma OccupiedStops(t: Tree, name: Path, content: Path, x: Path)
    requires name != [] && HasDir(t, name) && !LinkOnPath(t, name) && !LinkOnPath(t, content)
    requires var aside := Parent(name) + [name[|name| - 1] + ".monarch-image"];
      aside in t && (t[aside].File? || t[aside] == Subvol || (x in t && aside < x))
    ensures Created(t, name, content) == Outcome(t, Some(Occupied))
  {
  }

  // A subvolume root that is copied arrives as a plain directory, and every other
  // node as it was.
  lemma CopiedNodes(t: Tree, name: Path, content: Path, q: Path)
    requires WellFormed(t) && name != [] && name < q
    requires if content == name then name in t && FreeToStage(t, name) else name !in t
    requires content != name ==> !(content <= name) && !(name <= content)
    requires Carved(t, name, content).failure.None? && q in Carved(t, name, content).tree
    ensures var x := content + q[|name|..];
      x in t && Carved(t, name, content).tree[q] == if t[x] == Subvol then Dir else t[x]
  {
    if content == name {
      CarvedInPlace(t, name, q);
      assert content + q[|name|..] == q;
    } else {
      CarvedAway(t, name, content, q);
    }
  }

  // ----- the mutable volume

  class Filesystem {
    var nodes: Tree

    constructor (t: Tree)
      ensures nodes == t
    {
      nodes := t;
    }

    method CrossesLink(p: Path) returns (found: bool)
      ensures found <==> LinkOnPath(nodes, p)
    {
      for k := 0 to |p|
        invariant forall i :: 0 < i <= k ==> !(p[..i] in nodes && nodes[p[..i]].Link?)
      {
        if p[..k + 1] in nodes && nodes[p[..k + 1]].Link? {
          return true;
        }
      }
      return false;
    }

    method Rename(src: Path, dst: Path) returns (ok: bool)
      requires src in nodes
      modifies this
      ensures ok == old(Replaceable(nodes, src, dst))
      ensures nodes == if ok then Renamed(old(nodes), src, dst) else old(nodes)
    {
      ok := Replaceable(nodes, src, dst);
      if ok {
        var top := nodes[src];
        nodes := Transfer(nodes - {src}, src, dst);
        nodes := nodes[dst := top];
      }
    }

    // mkdir(parents=True, exist_ok=True) of the directory holding name: from
    // the top down, one missing directory at a time.
    method MakeParents(name: Path) returns (ok: bool)
      requires name != []
      modifies this
      ensures ok == !old(FileOnPath(nodes, Parent(name)))
      ensures nodes == if ok then WithParents(old(nodes), name) else old(nodes)
    {
      var parent := Parent(name);
      assert forall k :: 0 < k < |name| ==> parent[..k] == name[..k];
      ok := !FileOnPath(nodes, parent);
      if !ok {
        return;
      }
      ghost var before := nodes;
      ParentsAll(before, name);
      for k := 1 to |name|
        invariant nodes == ParentsUpTo(before, name, k)
      {
        ParentsStep(before, name, k);
        if name[..k] !in nodes {
          nodes := nodes[name[..k] := Dir];
        }
      }
    }

    // cp -a content/. into a fresh destination.
    method CopyChildren(content: Path, destination: Path)
      requires !(content <= destination) && !(destination <= content)
      requires NothingBelow(nodes, destination)
      modifies this
      ensures forall q :: q in nodes <==>
        q in old(nodes) || (destination < q && content + q[|destination|..] in old(nodes))
      ensures forall q :: q in nodes ==>
        nodes[q] == if destination < q then Plain(old(nodes)[content + q[|destination|..]]) else old(nodes)[q]
    {
      var copies := set q | q in nodes && content < q :: Forward(content, destination, q);
      forall q ensures q in copies <==> destination < q && content + q[|destination|..] in nodes {
        CopiedAt(nodes, copies, content, destination, q);
      }
      nodes := nodes + map q | q in copies :: Plain(nodes[Backward(content, destination, q)]);
    }

    // Every entry of a directory is removed with all it holds.
    method ClearChildren(content: Path)
      modifies this
      ensures nodes == map q | q in old(nodes) && !(content < q) :: old(nodes)[q]
    {
      ghost var before := nodes;
      var entries := set q | q in nodes && content < q :: q[..|content| + 1];
      while entries != {}
        invariant forall e :: e in entries ==> content < e && |e| == |content| + 1
        invariant nodes == map q | q in before && (content < q ==> q[..|content| + 1] in entries) :: before[q]
        decreases entries
      {
        var e :| e in entries;
        var rest := entries - {e};
        forall q | q in before ensures e <= q <==> content < q && q[..|content| + 1] == e {
          if e <= q { PrefixTransitive(content, e, q); }
        }
        nodes := Without(nodes, e);
        entries := rest;
      }
    }

    method MoveChildren(content: Path, destination: Path)
      requires !(content <= destination) && !(destination <= content)
      requires NothingBelow(nodes, destination)
      modifies this
      ensures nodes == Transfer(PlainBelow(old(nodes), content), content, destination)
    {
      ghost var before := nodes;
      CopyChildren(content, destination);
      ghost var copied := nodes;
      ClearChildren(content);
      MovedIsTransfer(before, copied, content, destination);
    }

    // The part of create_subvolume that runs once the destination is free.
    method FillFresh(name: Path, content: Path) returns (failure: Option<Failure>)
      requires name != [] && NothingBelow(nodes, name)
      requires content in nodes ==> !(name < content)
      modifies this
      ensures Outcome(nodes, failure) == Filled(old(nodes), name, content)
    {
      var made := MakeParents(name);
      if !made {
        return Some(NotADirectory);
      }
      nodes := nodes[name := Subvol];
      if HasDir(nodes, content) {
        if content <= name {
          return Some(CopyIntoItself);
        }
        MoveChildren(content, name);
      }
      return None;
    }

    method CreateSubvolume(name: Path, content: Path) returns (failure: Option<Failure>)
      requires name != [] && WellFormed(nodes)
      modifies this
      ensures Outcome(nodes, failure) == Created(old(nodes), name, content)
    {
      for i := 0 to 2
        invariant nodes == old(nodes)
        invariant i > 0 ==> !LinkOnPath(nodes, content)
        invariant i > 1 ==> !LinkOnPath(nodes, name)
      {
        var linked := CrossesLink(if i == 0 then content else name);
        if linked {
          return Some(SymlinkBacked);
        }
      }
      var from, staged: Option<Path> := content, None;
      ghost var t := nodes;
      if name in nodes {
        var ok := Rename(name, Staged(name));
        if !ok {
          return Some(Occupied);
        }
        staged := Some(Staged(name));
        if content == name {
          from := staged.value;
        }
        NothingLeftBelow(t, name);
      } else {
        NothingBelowAbsent(nodes, name);
      }
      StagedApart(name);
      failure := FillFresh(name, from);
      if failure.None? && staged.Some? {
        if !HasDir(nodes, staged.value) {
          return Some(NotADirectory);
        }
        nodes := Without(nodes, staged.value);
      }
    }
  }
}
