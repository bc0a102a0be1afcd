// The loop that carves one deployed root tree into the subvolumes of an
// accepted layout. It changes where the nodes are stored, never what is found
// at a path of the installed system.
module Relayout {
  import opened Wrappers
  import opened Paths
  import opened SubvolumeLayout
  import opened Volume

  // ----- image_directory: where a path of the target lives at the moment

  predicate HasRoot(placed: seq<Subvolume>) {
    placed != [] && placed[0] == ROOT
  }

  // o is the deepest placed subvolume mounted at or above p.
  ghost predicate Owns(placed: seq<Subvolume>, o: Subvolume, p: Path) {
    o in placed && o.mount <= p && forall k :: k in placed && k.mount <= p ==> |k.mount| <= |o.mount|
  }

  function Owner(placed: seq<Subvolume>, p: Path): (o: Subvolume)
    requires placed != [] && placed[0] == ROOT
    ensures Owns(placed, o, p)
  {
    if |placed| == 1 then ROOT
    else
      var earlier, last := placed[..|placed| - 1], placed[|placed| - 1];
      var o := Owner(earlier, p);
      assert forall k :: k in placed ==> k in earlier || k == last;
      if last.mount <= p && |last.mount| > |o.mount| then last else o
  }

  function Location(s: Subvolume, p: Path): Path
    requires s.mount <= p
  {
    s.name + p[|s.mount|..]
  }

  function Resolve(placed: seq<Subvolume>, p: Path): Path
    requires placed != [] && placed[0] == ROOT
  {
    Location(Owner(placed, p), p)
  }

  lemma LocationBelow(s: Subvolume, a: Path, p: Path)
    requires s.mount <= a && a <= p
    ensures s.mount <= p && Location(s, p) == Location(s, a) + p[|a|..]
  {
    PrefixTransitive(s.mount, a, p);
    assert Location(s, p) == s.name + (a[|s.mount|..] + p[|a|..]);
  }

  lemma OwnerUnique(placed: seq<Subvolume>, o: Subvolume, p: Path)
    requires HasRoot(placed) && Coherent(placed) && Owns(placed, o, p)
    ensures Owner(placed, p) == o
  {
    PrefixesCompare(o.mount, Owner(placed, p).mount, p);
  }

  // A path seen through a nested subvolume or through its container is stored
  // in the same place.
  lemma SeenThroughContainer(a: Subvolume, b: Subvolume, p: Path)
    requires a.name < b.name && Aligned(a, b) && b.mount <= p
    ensures a.mount <= p && |a.mount| < |b.mount| && Location(a, p) == Location(b, p)
  {
    BelowAppend(a.mount, b.name[|a.name|..]);
    PrefixTransitive(a.mount, b.mount, p);
    assert b.name == a.name + b.name[|a.name|..];
    assert Location(a, p) == a.name + (b.name[|a.name|..] + p[|b.mount|..]);
  }

  // No two paths share a location, even with subvolumes stored inside others.
  lemma LocationsInjective(placed: seq<Subvolume>, a: Subvolume, p: Path, b: Subvolume, r: Path)
    requires Coherent(placed) && a in placed && b in placed
    requires a.mount <= p && b.mount <= r && Location(a, p) == Location(b, r)
    ensures p == r
  {
    var q := Location(a, p);
    PrefixesClash(a.name, b.name, q);
    if a.name == b.name {
      AppendCancels(a.name, p[|a.mount|..], r[|b.mount|..]);
    } else if a.name <= b.name {
      assert a.name < b.name && Aligned(a, b);
      SeenThroughContainer(a, b, r);
      AppendCancels(a.name, p[|a.mount|..], r[|a.mount|..]);
    } else {
      assert b.name < a.name && Aligned(b, a);
      SeenThroughContainer(b, a, p);
      AppendCancels(b.name, p[|b.mount|..], r[|b.mount|..]);
    }
    assert p == r by {
      if a.name <= b.name { assert p == a.mount + p[|a.mount|..] && r == a.mount + r[|a.mount|..]; }
      else { assert p == b.mount + p[|b.mount|..] && r == b.mount + r[|b.mount|..]; }
    }
  }

  lemma ResolveInjective(placed: seq<Subvolume>, p: Path, r: Path)
    requires HasRoot(placed) && Coherent(placed)
    requires Resolve(placed, p) == Resolve(placed, r)
    ensures p == r
  {
    LocationsInjective(placed, Owner(placed, p), p, Owner(placed, r), r);
  }

  // ----- placing one more subvolume

  // s may be placed next: the whole is coherent and nothing deeper is placed.
  ghost predicate Placeable(placed: seq<Subvolume>, s: Subvolume) {
    && HasRoot(placed) && Coherent(placed + [s]) && s !in placed && s.name != []
    && (forall k :: k in placed ==> k.name != [])
    && forall k :: k in placed ==> |k.mount| <= |s.mount|
  }

  ghost predicate Nested(placed: seq<Subvolume>, s: Subvolume) {
    exists k :: k in placed && k.name < s.name
  }

  lemma PlaceableFacts(placed: seq<Subvolume>, s: Subvolume)
    requires Placeable(placed, s)
    ensures Coherent(placed) && HasRoot(placed + [s])
    ensures forall k :: k in placed + [s] <==> k in placed || k == s
    ensures forall k :: k in placed ==> k.name != s.name && k.mount != s.mount
    ensures forall k :: k in placed ==> !(s.name < k.name)
    ensures forall k :: k in placed ==> !(s.mount <= k.mount)
  {
    var all := placed + [s];
    assert forall k :: k in all <==> k in placed || k == s;
    forall k | k in placed ensures !(s.name < k.name) && !(s.mount <= k.mount) {
      assert k != s;
      if s.name < k.name {
        assert Aligned(s, k);
        BelowAppend(s.mount, k.name[|s.name|..]);
      }
      if s.mount <= k.mount {
        PrefixesCompare(k.mount, s.mount, k.mount);
      }
    }
  }

  // Everything at or below the new mountpoint is now found below one place.
  lemma BelowMount(placed: seq<Subvolume>, s: Subvolume, p: Path)
    requires Placeable(placed, s) && s.mount <= p
    ensures Owner(placed, p) == Owner(placed, s.mount)
    ensures Resolve(placed, p) == Resolve(placed, s.mount) + p[|s.mount|..]
    ensures Resolve(placed + [s], p) == s.name + p[|s.mount|..]
  {
    PlaceableFacts(placed, s);
    var o := Owner(placed, s.mount);
    PrefixTransitive(o.mount, s.mount, p);
    forall k | k in placed && k.mount <= p ensures |k.mount| <= |o.mount| {
      PrefixesCompare(k.mount, s.mount, p);
    }
    OwnerUnique(placed, o, p);
    OwnerUnique(placed + [s], s, p);
    LocationBelow(o, s.mount, p);
  }

  lemma ElsewhereUnmoved(placed: seq<Subvolume>, s: Subvolume, p: Path)
    requires Placeable(placed, s) && !(s.mount <= p)
    ensures Resolve(placed + [s], p) == Resolve(placed, p)
  {
    PlaceableFacts(placed, s);
    OwnerUnique(placed + [s], Owner(placed, p), p);
  }

  // Only paths below the new mountpoint are stored below its current content.
  lemma BelowContent(placed: seq<Subvolume>, s: Subvolume, k: Subvolume, p: Path, r: Path)
    requires Placeable(placed, s) && k in placed && k.mount <= p
    requires Location(k, p) == Resolve(placed, s.mount) + r
    ensures p == s.mount + r
  {
    PlaceableFacts(placed, s);
    var o := Owner(placed, s.mount);
    LocationBelow(o, s.mount, s.mount + r);
    BelowAppend(s.mount, r);
    LocationsInjective(placed, k, p, o, s.mount + r);
  }

  lemma NestedStaysPut(placed: seq<Subvolume>, s: Subvolume)
    requires Placeable(placed, s) && Nested(placed, s)
    ensures Resolve(placed, s.mount) == s.name
  {
    PlaceableFacts(placed, s);
    var a :| a in placed && a.name < s.name;
    assert Aligned(a, s);
    SeenThroughContainer(a, s, s.mount);
    var o := Owner(placed, s.mount);
    PrefixesCompare(a.mount, o.mount, s.mount);
    if o != a {
      assert Uncrossed(a, s, o);
      assert Aligned(a, o);
      SeenThroughContainer(a, o, s.mount);
    }
    assert Location(s, s.mount) == s.name;
  }

  // A subvolume stored on its own never meets anything already visible.
  lemma SeparateIsFree(placed: seq<Subvolume>, s: Subvolume, p: Path)
    requires Placeable(placed, s) && !Nested(placed, s)
    ensures !(Resolve(placed, p) <= s.name) && !(s.name <= Resolve(placed, p))
  {
    PlaceableFacts(placed, s);
    var k := Owner(placed, p);
    var q := Resolve(placed, p);
    assert k.name <= q;
    if q <= s.name {
      PrefixTransitive(k.name, q, s.name);
    }
    if s.name <= q {
      PrefixesClash(k.name, s.name, q);
    }
  }

  // ----- what the loop keeps

  predicate Alike(a: Node, b: Node) {
    if IsDir(b) then IsDir(a) else a == b
  }

  // A non-directory of the image sitting exactly at a placed mountpoint.
  ghost predicate Hidden(image: Tree, placed: seq<Subvolume>, p: Path) {
    p in image && !IsDir(image[p]) && exists k :: k in placed && k.mount == p
  }

  // What is found at p: the image's own node, or a directory made for a mount.
  ghost predicate Shows(t: Tree, image: Tree, placed: seq<Subvolume>, p: Path)
    requires HasRoot(placed)
  {
    var q := Resolve(placed, p);
    if p in image && !Hidden(image, placed, p) then q in t && Alike(t[q], image[p])
    else q in t ==> IsDir(t[q]) && exists k :: k in placed && p <= k.mount
  }

  // Every stored node is visible, or is bare scaffolding: a directory above a
  // subvolume's name, or the spot a subvolume's content was moved away from.
  ghost predicate Visible(placed: seq<Subvolume>, q: Path)
    requires HasRoot(placed)
  {
    exists p :: Resolve(placed, p) == q
  }

  ghost predicate Scaffold(placed: seq<Subvolume>, q: Path) {
    exists k :: k in placed && q < k.name
  }

  ghost predicate Vacated(placed: seq<Subvolume>, q: Path) {
    exists a, k :: a in placed && k in placed && a.mount < k.mount && q == Location(a, k.mount)
  }

  // Where a stored file or link comes from.
  ghost predicate Origin(image: Tree, placed: seq<Subvolume>, q: Path, n: Node, p: Path)
    requires HasRoot(placed)
  {
    p in image && image[p] == n && (Resolve(placed, p) == q || Hidden(image, placed, p))
  }

  ghost predicate Accounted(t: Tree, image: Tree, placed: seq<Subvolume>, q: Path)
    requires HasRoot(placed)
  {
    q in t ==>
      && (Visible(placed, q) || Scaffold(placed, q) || Vacated(placed, q))
      && (!IsDir(t[q]) ==> exists p :: Origin(image, placed, q, t[q], p))
  }

  predicate CleanPath(p: Path) {
    forall i :: 0 <= i < |p| ==> !EndsWith(p[i], STAGING)
  }

  predicate EndsWith(s: string, suffix: string) {
    |suffix| <= |s| && s[|s| - |suffix|..] == suffix
  }

  ghost predicate Keeps(t: Tree, image: Tree, placed: seq<Subvolume>) {
    && HasRoot(placed) && Coherent(placed)
    && WellFormed(t)
    && (forall k :: k in placed ==> k.name != [] && k.name in t && t[k.name] == Subvol)
    && (forall p :: Shows(t, image, placed, p))
    && (forall q :: Accounted(t, image, placed, q))
    && (forall q :: q in t ==> CleanPath(q))
  }

  lemma CleanStages(t: Tree, name: Path)
    requires name != [] && forall q :: q in t ==> CleanPath(q)
    ensures FreeToStage(t, name)
  {
    var i := |name| - 1;
    var staged := Staged(name);
    assert staged[i] == name[i] + STAGING;
    assert EndsWith(staged[i], STAGING);
    forall q | q in t ensures !(staged <= q) {
      assert CleanPath(q);
    }
  }

  // The destination exists beforehand only when the content is already there.
  lemma ExistingMeansNested(t: Tree, image: Tree, placed: seq<Subvolume>, s: Subvolume)
    requires Keeps(t, image, placed) && Placeable(placed, s) && s.name in t
    ensures Nested(placed, s)
  {
    PlaceableFacts(placed, s);
    assert Accounted(t, image, placed, s.name);
    if Visible(placed, s.name) {
      var p :| Resolve(placed, p) == s.name;
      if !Nested(placed, s) { SeparateIsFree(placed, s, p); }
    } else {
      var a, k :| a in placed && k in placed && a.mount < k.mount && s.name == Location(a, k.mount);
      assert s.name == a.name + k.mount[|a.mount|..];
    }
  }

  lemma HiddenGrows(image: Tree, placed: seq<Subvolume>, s: Subvolume, p: Path)
    ensures Hidden(image, placed + [s], p) <==>
              Hidden(image, placed, p) || (p in image && !IsDir(image[p]) && p == s.mount)
  {
    assert forall k :: k in placed + [s] <==> k in placed || k == s;
  }

  // ----- a nested subvolume: only the node at its mountpoint changes

  lemma SameResolution(placed: seq<Subvolume>, s: Subvolume, p: Path)
    requires Placeable(placed, s) && Nested(placed, s)
    ensures Resolve(placed + [s], p) == Resolve(placed, p)
    ensures Resolve(placed, p) == s.name ==> p == s.mount
  {
    NestedStaysPut(placed, s);
    if s.mount <= p { BelowMount(placed, s, p); } else { ElsewhereUnmoved(placed, s, p); }
    if Resolve(placed, p) == s.name {
      BelowContent(placed, s, Owner(placed, p), p, []);
    }
  }

  ghost predicate InPlace(t: Tree, r: Tree, name: Path) {
    && (forall q :: q in r <==> q in t)
    && (forall q :: q in t ==> r[q] == InPlaceNode(name, q, t[q]))
    && HasDir(t, name)
  }

  lemma NestedShows(t: Tree, r: Tree, image: Tree, placed: seq<Subvolume>, s: Subvolume, p: Path)
    requires Placeable(placed, s) && Nested(placed, s) && InPlace(t, r, s.name)
    requires Shows(t, image, placed, p)
    requires HasRoot(placed + [s])
    ensures Shows(r, image, placed + [s], p)
  {
    SameResolution(placed, s, p);
    HiddenGrows(image, placed, s, p);
    assert forall k :: k in placed ==> k in placed + [s];
    assert s in placed + [s];
    NestedStaysPut(placed, s);
  }

  lemma NestedAccounts(t: Tree, r: Tree, image: Tree, placed: seq<Subvolume>, s: Subvolume, q: Path)
    requires Placeable(placed, s) && Nested(placed, s) && InPlace(t, r, s.name)
    requires Accounted(t, image, placed, q)
    requires HasRoot(placed + [s])
    ensures Accounted(r, image, placed + [s], q)
  {
    var all := placed + [s];
    assert forall k :: k in placed ==> k in all;
    if q in t && Visible(placed, q) {
      var p :| Resolve(placed, p) == q;
      SameResolution(placed, s, p);
      assert Resolve(all, p) == q;
    }
    if q in t && !IsDir(r[q]) {
      var p :| Origin(image, placed, q, t[q], p);
      SameResolution(placed, s, p);
      HiddenGrows(image, placed, s, p);
      assert Origin(image, all, q, r[q], p);
    }
  }

  lemma NestedKeeps(t: Tree, r: Tree, image: Tree, placed: seq<Subvolume>, s: Subvolume)
    requires Keeps(t, image, placed) && Placeable(placed, s) && Nested(placed, s)
    requires InPlace(t, r, s.name)
    ensures Keeps(r, image, placed + [s])
  {
    var all := placed + [s];
    PlaceableFacts(placed, s);
    forall p ensures Shows(r, image, all, p) {
      assert Shows(t, image, placed, p);
      NestedShows(t, r, image, placed, s, p);
    }
    forall q ensures Accounted(r, image, all, q) {
      assert Accounted(t, image, placed, q);
      NestedAccounts(t, r, image, placed, s, q);
    }
    InPlaceWellFormed(t, r, s.name);
  }

  lemma InPlaceWellFormed(t: Tree, r: Tree, name: Path)
    requires WellFormed(t) && InPlace(t, r, name)
    ensures WellFormed(r)
  {
  }

  lemma NestedStep(t: Tree, image: Tree, placed: seq<Subvolume>, s: Subvolume)
    requires Keeps(t, image, placed) && Placeable(placed, s) && Nested(placed, s)
    requires Created(t, s.name, Resolve(placed, s.mount)).failure.None?
    ensures Keeps(Created(t, s.name, Resolve(placed, s.mount)).tree, image, placed + [s])
    ensures HasDir(image, s.mount)
  {
    NestedStaysPut(placed, s);
    CleanStages(t, s.name);
    CreatedInPlace(t, s.name);
    NestedKeeps(t, Created(t, s.name, s.name).tree, image, placed, s);
    NestedHadDirectory(t, image, placed, s);
  }

  lemma NestedHadDirectory(t: Tree, image: Tree, placed: seq<Subvolume>, s: Subvolume)
    requires Placeable(placed, s) && Nested(placed, s) && HasDir(t, s.name)
    requires forall p :: Shows(t, image, placed, p)
    ensures HasDir(image, s.mount)
  {
    NestedStaysPut(placed, s);
    PlaceableFacts(placed, s);
    assert Shows(t, image, placed, s.mount);
  }

  lemma CreatedInPlace(t: Tree, name: Path)
    requires WellFormed(t) && name != [] && FreeToStage(t, name) && Created(t, name, name).failure.None?
    ensures InPlace(t, Created(t, name, name).tree, name)
  {
    NestedExists(t, name);
    var r := Created(t, name, name).tree;
    forall q ensures q in r <==> q in t
      ensures q in t ==> r[q] == InPlaceNode(name, q, t[q])
    {
      CarvedInPlace(t, name, q);
    }
    CarvedInPlace(t, name, name);
  }

  // A container's directory must already hold the nested subvolume's content:
  // otherwise cp is asked to copy the fresh subvolume onto itself.
  lemma NestedExists(t: Tree, name: Path)
    requires name != [] && Carved(t, name, name).failure.None?
    ensures name in t
  {
  }

  // ----- a subvolume stored on its own: its content moves under its name

  ghost predicate AwayAt(t: Tree, r: Tree, name: Path, content: Path, q: Path) {
    && (q in r <==>
          || q == name || (q != [] && q < name)
          || (name < q && content + q[|name|..] in t) || (q in t && !(content < q)))
    && (q == name ==> r[q] == Subvol)
    && (name < q && q in r ==> content + q[|name|..] in t && r[q] == Plain(t[content + q[|name|..]]))
    && (q in r && !(name <= q) ==> r[q] == if q in t then t[q] else Dir)
    && (q in t && q != [] && q < name ==> IsDir(t[q]))
    && (q in t ==> !(name <= q))
  }

  ghost predicate Away(t: Tree, r: Tree, name: Path, content: Path) {
    && !(content <= name) && !(name <= content)
    && forall q :: AwayAt(t, r, name, content, q)
  }

  lemma CreatedAway(t: Tree, name: Path, content: Path)
    requires WellFormed(t) && name != [] && name !in t && !(content <= name) && !(name <= content)
    requires Created(t, name, content).failure.None?
    ensures Away(t, Created(t, name, content).tree, name, content)
  {
    NothingBelowAbsent(t, name);
    forall q ensures AwayAt(t, Created(t, name, content).tree, name, content, q) {
      CarvedAway(t, name, content, q);
      if name <= q && |q| == |name| { assert q == name; }
    }
  }

  lemma AwayWellFormed(t: Tree, r: Tree, name: Path, content: Path)
    requires WellFormed(t) && name != [] && Away(t, r, name, content)
    ensures WellFormed(r)
  {
    assert AwayAt(t, r, name, content, []);
    forall q | q in r && q != [] ensures HasDir(r, Parent(q)) {
      assert AwayAt(t, r, name, content, q);
      assert AwayAt(t, r, name, content, Parent(q));
      if name < q && content + q[|name|..] in t {
        AwayParent(t, name, content, q);
      } else if q <= name {
        assert Parent(q) < name;
      } else {
        BelowParent(content, q);
      }
    }
  }

  lemma BelowParent(a: Path, q: Path)
    requires q != []
    ensures a < Parent(q) ==> a < q
  {
    if a < Parent(q) { PrefixTransitive(a, Parent(q), q); }
  }

  lemma AwayParent(t: Tree, name: Path, content: Path, q: Path)
    requires WellFormed(t) && name < q && content + q[|name|..] in t
    ensures Parent(q) == name || (name < Parent(q) && HasDir(t, content + Parent(q)[|name|..]))
  {
    var x := content + q[|name|..];
    ParentPrefix(name, q);
    if |Parent(q)| == |name| {
      assert Parent(q) == name;
    } else {
      assert Parent(x) == content + Parent(q)[|name|..];
    }
  }

  // Where the new view reads from: the old location, shifted below the mount.
  lemma SeparateShowsBelow(t: Tree, r: Tree, image: Tree, placed: seq<Subvolume>, s: Subvolume, p: Path)
    requires Placeable(placed, s) && Shows(t, image, placed, p) && s.mount <= p
    requires Away(t, r, s.name, Resolve(placed, s.mount))
    requires HasRoot(placed + [s])
    ensures Shows(r, image, placed + [s], p)
  {
    var q := s.name + p[|s.mount|..];
    BelowMount(placed, s, p);
    HiddenGrows(image, placed, s, p);
    assert s in placed + [s] && forall k :: k in placed ==> k in placed + [s];
    assert AwayAt(t, r, s.name, Resolve(placed, s.mount), q);
    if s.mount == p {
      assert q == s.name;
    } else {
      assert q[|s.name|..] == p[|s.mount|..];
      assert s.name < q by { assert p[|s.mount|..] != []; }
    }
  }

  lemma SeparateShows(t: Tree, r: Tree, image: Tree, placed: seq<Subvolume>, s: Subvolume, p: Path)
    requires Placeable(placed, s) && !Nested(placed, s)
    requires Away(t, r, s.name, Resolve(placed, s.mount))
    requires Shows(t, image, placed, p)
    requires HasRoot(placed + [s])
    ensures Shows(r, image, placed + [s], p)
  {
    if s.mount <= p {
      SeparateShowsBelow(t, r, image, placed, s, p);
    } else {
      HiddenGrows(image, placed, s, p);
      assert forall k :: k in placed ==> k in placed + [s];
      ElsewhereUnmoved(placed, s, p);
      ElsewhereStays(t, r, placed, s, p);
    }
  }

  lemma ElsewhereStays(t: Tree, r: Tree, placed: seq<Subvolume>, s: Subvolume, p: Path)
    requires Placeable(placed, s) && !Nested(placed, s) && !(s.mount <= p)
    requires Away(t, r, s.name, Resolve(placed, s.mount))
    ensures var q := Resolve(placed, p);
      (q in r <==> q in t) && (q in t ==> r[q] == t[q])
  {
    var content, q := Resolve(placed, s.mount), Resolve(placed, p);
    assert AwayAt(t, r, s.name, content, q);
    SeparateIsFree(placed, s, p);
    if content < q { BelowContent(placed, s, Owner(placed, p), p, q[|content|..]); }
  }

  // Nothing but visible nodes is stored strictly below the content to be moved.
  lemma ContentIsVisible(t: Tree, image: Tree, placed: seq<Subvolume>, s: Subvolume, rest: Path)
    requires Keeps(t, image, placed) && Placeable(placed, s) && rest != []
    requires Resolve(placed, s.mount) + rest in t
    ensures Resolve(placed, s.mount + rest) == Resolve(placed, s.mount) + rest
  {
    var x := Resolve(placed, s.mount) + rest;
    PlaceableFacts(placed, s);
    assert Accounted(t, image, placed, x);
    if Visible(placed, x) {
      var p :| Resolve(placed, p) == x;
      BelowContent(placed, s, Owner(placed, p), p, rest);
    } else if Vacated(placed, x) {
      var a, k :| a in placed && k in placed && a.mount < k.mount && x == Location(a, k.mount);
      BelowContent(placed, s, a, k.mount, rest);
    } else {
      var k :| k in placed && x < k.name;
      ScaffoldOutside(placed, s, k, rest);
    }
  }

  lemma ScaffoldOutside(placed: seq<Subvolume>, s: Subvolume, k: Subvolume, rest: Path)
    requires Placeable(placed, s) && k in placed && rest != []
    ensures !(Resolve(placed, s.mount) + rest < k.name)
  {
    var o, content := Owner(placed, s.mount), Resolve(placed, s.mount);
    PlaceableFacts(placed, s);
    if content + rest < k.name {
      var more := Below(content + rest, k.name);
      assert o.name <= content && content <= content + rest;
      PrefixTransitive(o.name, content + rest, k.name);
      SeenThroughContainer(o, k, k.mount);
      BelowContent(placed, s, o, k.mount, rest + more);
    }
  }

  lemma MovedAccounts(t: Tree, r: Tree, image: Tree, placed: seq<Subvolume>, s: Subvolume, q: Path)
    requires Keeps(t, image, placed) && Placeable(placed, s) && !Nested(placed, s)
    requires AwayAt(t, r, s.name, Resolve(placed, s.mount), q)
    requires HasRoot(placed + [s]) && s.name < q
    ensures Accounted(r, image, placed + [s], q)
  {
    var all, content, rest := placed + [s], Resolve(placed, s.mount), q[|s.name|..];
    if q in r {
      assert rest != [] && q == s.name + rest;
      ContentIsVisible(t, image, placed, s, rest);
      BelowAppend(s.mount, rest);
      BelowMount(placed, s, s.mount + rest);
      assert Resolve(all, s.mount + rest) == q;
      if !IsDir(r[q]) {
        assert Accounted(t, image, placed, content + rest);
        var p :| Origin(image, placed, content + rest, t[content + rest], p);
        HiddenGrows(image, placed, s, p);
        if Resolve(placed, p) == content + rest {
          BelowContent(placed, s, Owner(placed, p), p, rest);
        }
        assert Origin(image, all, q, r[q], p);
      }
    }
  }

  // A visible node that is not moved stays visible, except at the new mount.
  lemma UnmovedVisible(placed: seq<Subvolume>, s: Subvolume, p: Path)
    requires Placeable(placed, s)
    requires !(Resolve(placed, s.mount) < Resolve(placed, p))
    ensures if p == s.mount then Vacated(placed + [s], Resolve(placed, p))
            else Resolve(placed + [s], p) == Resolve(placed, p)
  {
    PlaceableFacts(placed, s);
    if p == s.mount {
      var o := Owner(placed, p);
      assert o in placed + [s] && s in placed + [s] && o.mount < s.mount;
    } else if s.mount <= p {
      BelowMount(placed, s, p);
    } else {
      ElsewhereUnmoved(placed, s, p);
    }
  }

  lemma UnmovedAccounts(t: Tree, r: Tree, image: Tree, placed: seq<Subvolume>, s: Subvolume, q: Path)
    requires Keeps(t, image, placed) && Placeable(placed, s)
    requires q in t && r == r[q := t[q]] && !(Resolve(placed, s.mount) < q)
    requires HasRoot(placed + [s])
    ensures Accounted(r, image, placed + [s], q)
  {
    var all := placed + [s];
    assert forall k :: k in placed ==> k in all;
    assert Accounted(t, image, placed, q);
    if Visible(placed, q) {
      var p :| Resolve(placed, p) == q;
      UnmovedVisible(placed, s, p);
    }
    if !IsDir(t[q]) {
      var p :| Origin(image, placed, q, t[q], p);
      HiddenGrows(image, placed, s, p);
      if Resolve(placed, p) == q { UnmovedVisible(placed, s, p); }
      assert Origin(image, all, q, t[q], p);
    }
  }

  lemma SeparateAccounts(t: Tree, r: Tree, image: Tree, placed: seq<Subvolume>, s: Subvolume, q: Path)
    requires Keeps(t, image, placed) && Placeable(placed, s) && !Nested(placed, s)
    requires AwayAt(t, r, s.name, Resolve(placed, s.mount), q)
    requires HasRoot(placed + [s])
    ensures Accounted(r, image, placed + [s], q)
  {
    var all := placed + [s];
    assert s in all;
    if s.name < q {
      MovedAccounts(t, r, image, placed, s, q);
    } else if q == s.name {
      BelowMount(placed, s, s.mount);
      assert Resolve(all, s.mount) == q;
    } else if q in r {
      if q != [] && q < s.name {
        assert Scaffold(all, q);
      } else {
        assert s.name <= q && |q| == |s.name| ==> q == s.name;
        assert r == r[q := t[q]];
        UnmovedAccounts(t, r, image, placed, s, q);
      }
    }
  }

  lemma SeparateKeeps(t: Tree, r: Tree, image: Tree, placed: seq<Subvolume>, s: Subvolume)
    requires Keeps(t, image, placed) && Placeable(placed, s) && !Nested(placed, s)
    requires CleanPath(s.name)
    requires Away(t, r, s.name, Resolve(placed, s.mount))
    ensures Keeps(r, image, placed + [s])
  {
    var all, content := placed + [s], Resolve(placed, s.mount);
    PlaceableFacts(placed, s);
    forall p ensures Shows(r, image, all, p) {
      assert Shows(t, image, placed, p);
      SeparateShows(t, r, image, placed, s, p);
    }
    forall q ensures Accounted(r, image, all, q) {
      assert AwayAt(t, r, s.name, content, q);
      SeparateAccounts(t, r, image, placed, s, q);
    }
    AwayWellFormed(t, r, s.name, content);
    AwaySubvolumes(t, r, image, placed, s);
    AwayClean(t, r, s.name, content);
  }

  lemma AwaySubvolumes(t: Tree, r: Tree, image: Tree, placed: seq<Subvolume>, s: Subvolume)
    requires Keeps(t, image, placed) && Placeable(placed, s) && !Nested(placed, s)
    requires Away(t, r, s.name, Resolve(placed, s.mount))
    ensures forall k :: k in placed + [s] ==> k.name in r && r[k.name] == Subvol
  {
    var content := Resolve(placed, s.mount);
    PlaceableFacts(placed, s);
    forall k | k in placed + [s] ensures k.name in r && r[k.name] == Subvol {
      assert AwayAt(t, r, s.name, content, k.name);
      if k != s {
        assert !(content < k.name) by {
          if content < k.name {
            assert Location(k, k.mount) == k.name == content + k.name[|content|..];
            BelowContent(placed, s, k, k.mount, k.name[|content|..]);
          }
        }
      }
    }
  }

  lemma AwayClean(t: Tree, r: Tree, name: Path, content: Path)
    requires Away(t, r, name, content) && CleanPath(name)
    requires forall q :: q in t ==> CleanPath(q)
    ensures forall q :: q in r ==> CleanPath(q)
  {
    forall q | q in r ensures CleanPath(q) {
      assert AwayAt(t, r, name, content, q);
      if name < q {
        var x := content + q[|name|..];
        assert CleanPath(x);
        forall i | 0 <= i < |q| ensures !EndsWith(q[i], STAGING) {
          if |name| <= i { assert q[i] == x[|content| + i - |name|]; }
        }
      }
    }
  }

  lemma SeparateStep(t: Tree, image: Tree, placed: seq<Subvolume>, s: Subvolume)
    requires Keeps(t, image, placed) && Placeable(placed, s) && !Nested(placed, s)
    requires CleanPath(s.name)
    requires Created(t, s.name, Resolve(placed, s.mount)).failure.None?
    ensures Keeps(Created(t, s.name, Resolve(placed, s.mount)).tree, image, placed + [s])
  {
    if s.name in t { ExistingMeansNested(t, image, placed, s); }
    SeparateIsFree(placed, s, s.mount);
    CreatedAway(t, s.name, Resolve(placed, s.mount));
    SeparateKeeps(t, Created(t, s.name, Resolve(placed, s.mount)).tree, image, placed, s);
  }

  // ----- when a step succeeds

  // A nested subvolume needs its directory in the image; one stored on its own
  // only needs a mountpoint that is not reached through a symlink.
  ghost predicate Fits(image: Tree, placed: seq<Subvolume>, s: Subvolume) {
    if Nested(placed, s) then HasDir(image, s.mount) else !LinkOnPath(image, s.mount)
  }

  lemma DirHasNoLinkAbove(t: Tree, p: Path)
    requires WellFormed(t) && HasDir(t, p)
    ensures !LinkOnPath(t, p) && !FileOnPath(t, p)
  {
    forall k | 0 < k <= |p| && p[..k] in t ensures IsDir(t[p[..k]]) {
      if k < |p| { AncestorsAreDirs(t, p[..k], p); } else { assert p[..k] == p; }
    }
  }

  // Staging the directory leaves its own parents clear.
  lemma StagedParentsClear(t: Tree, name: Path)
    requires WellFormed(t) && name != [] && name in t && FreeToStage(t, name)
    ensures !FileOnPath(Renamed(t, name, Staged(name)), Parent(name))
  {
    var t1, parent := Renamed(t, name, Staged(name)), Parent(name);
    forall k | 0 < k <= |parent| && parent[..k] in t1 ensures IsDir(t1[parent[..k]]) {
      assert parent[..k] == name[..k];
      AboveStagedIsDir(t, name, name[..k]);
    }
  }

  lemma AboveStagedIsDir(t: Tree, name: Path, q: Path)
    requires WellFormed(t) && name != [] && name in t && FreeToStage(t, name) && q < name
    ensures HasDir(Renamed(t, name, Staged(name)), q)
  {
    AncestorsAreDirs(t, q, name);
    RenamedAt(t, name, q);
  }

  lemma NestedSucceeds(t: Tree, name: Path)
    requires WellFormed(t) && name != [] && HasDir(t, name) && FreeToStage(t, name)
    ensures Created(t, name, name).failure.None?
  {
    var staged := Staged(name);
    StagedApart(name);
    DirHasNoLinkAbove(t, name);
    StagedParentsClear(t, name);
    var t1 := Renamed(t, name, staged);
    var t2 := WithParents(t1, name)[name := Subvol];
    ParentsOf(t1, name, staged);
    NothingBelowFresh(t, name, t1, t2);
    TransferAt(PlainBelow(t2, staged), staged, name, staged);
  }

  // c, inside the subvolume o, is where the path m leading to at is stored.
  ghost predicate SeenAs(image: Tree, o: Subvolume, at: Path, c: Path, m: Path)
    requires o.name <= c
  {
    m == o.mount + c[|o.name|..] && o.mount < m && m <= at && m in image
  }

  // The prefixes of the content's location above and below the owner's name.
  lemma ContentPrefix(t: Tree, image: Tree, placed: seq<Subvolume>, at: Path, c: Path)
    requires Keeps(t, image, placed)
    requires c <= Resolve(placed, at) && c in t
    ensures var o := Owner(placed, at);
      IsDir(t[c]) || (o.name < c && exists m :: SeenAs(image, o, at, c, m) && image[m] == t[c])
  {
    var o := Owner(placed, at);
    var content := Resolve(placed, at);
    PrefixesClash(c, o.name, content);
    if c < o.name {
      AncestorsAreDirs(t, c, o.name);
    } else if c != o.name {
      var m := o.mount + c[|o.name|..];
      OwnerPrefix(placed, at, c, m);
      assert Shows(t, image, placed, m);
    }
  }

  lemma StepBelow(name: Path, mount: Path, rest: Path, c: Path)
    requires name < c && c <= name + rest
    ensures mount < mount + c[|name|..] && mount + c[|name|..] <= mount + rest
    ensures c == name + c[|name|..]
  {
    assert c[|name|..] != [];
    assert c[|name|..] == rest[..|c| - |name|] by { assert c == (name + rest)[..|c|]; }
  }

  lemma OwnerPrefix(placed: seq<Subvolume>, at: Path, c: Path, m: Path)
    requires HasRoot(placed) && Coherent(placed) && c <= Resolve(placed, at)
    requires Owner(placed, at).name < c && m == Owner(placed, at).mount + c[|Owner(placed, at).name|..]
    ensures Owner(placed, at).mount < m <= at && Resolve(placed, m) == c
    ensures forall k :: k in placed ==> k.mount != m
  {
    var o := Owner(placed, at);
    StepBelow(o.name, o.mount, at[|o.mount|..], c);
    assert at == o.mount + at[|o.mount|..];
    StillOwner(placed, o, at, m);
    BelowAppend(o.mount, c[|o.name|..]);
  }

  // On the way to a path its owner owns everything below its mountpoint.
  lemma StillOwner(placed: seq<Subvolume>, o: Subvolume, at: Path, m: Path)
    requires HasRoot(placed) && Coherent(placed) && Owns(placed, o, at) && o.mount < m <= at
    ensures Owner(placed, m) == o && forall k :: k in placed ==> k.mount != m
  {
    forall k | k in placed && k.mount <= m ensures |k.mount| <= |o.mount| {
      PrefixTransitive(k.mount, m, at);
    }
    OwnerUnique(placed, o, m);
  }

  // The content is reached through a symlink exactly when the image says so.
  lemma LinkedContent(t: Tree, image: Tree, placed: seq<Subvolume>, at: Path)
    requires Keeps(t, image, placed)
    requires !LinkOnPath(image, Owner(placed, at).mount)
    ensures LinkOnPath(t, Resolve(placed, at)) <==> LinkOnPath(image, at)
  {
    var o, content := Owner(placed, at), Resolve(placed, at);
    if LinkOnPath(t, content) {
      var k :| 0 < k <= |content| && content[..k] in t && t[content[..k]].Link?;
      ContentPrefix(t, image, placed, at, content[..k]);
      var m :| SeenAs(image, o, at, content[..k], m) && image[m] == t[content[..k]];
      assert m == at[..|m|];
    }
    if k :| 0 < k <= |at| && at[..k] in image && image[at[..k]].Link? {
      LinkStored(t, image, placed, at, k);
    }
  }

  lemma LinkAboveShorter(t: Tree, a: Path, m: Path, k: int)
    requires a <= m && 0 < k <= |a| && m[..k] in t && t[m[..k]].Link?
    ensures LinkOnPath(t, a)
  {
    assert a[..k] == m[..k];
  }

  lemma LinkStored(t: Tree, image: Tree, placed: seq<Subvolume>, at: Path, k: int)
    requires Keeps(t, image, placed)
    requires !LinkOnPath(image, Owner(placed, at).mount)
    requires 0 < k <= |at| && at[..k] in image && image[at[..k]].Link?
    ensures LinkOnPath(t, Resolve(placed, at))
  {
    var o, content, m := Owner(placed, at), Resolve(placed, at), at[..k];
    if k <= |o.mount| { LinkAboveShorter(image, o.mount, at, k); }
    var c := o.name + m[|o.mount|..];
    PartWay(o, at, k, c);
    OwnerPrefix(placed, at, c, m);
    assert Shows(t, image, placed, m);
    assert c == content[..|c|] && 0 < |c| <= |content|;
  }

  lemma PartWay(o: Subvolume, mount: Path, k: int, c: Path)
    requires o.mount <= mount && |o.mount| < k <= |mount| && c == o.name + mount[..k][|o.mount|..]
    ensures o.name < c && c <= Location(o, mount) && mount[..k] == o.mount + c[|o.name|..]
  {
    var rest := mount[|o.mount|..];
    assert mount[..k][|o.mount|..] == rest[..k - |o.mount|];
    assert mount == o.mount + rest;
  }

  lemma SeparateSucceeds(t: Tree, image: Tree, placed: seq<Subvolume>, s: Subvolume)
    requires Keeps(t, image, placed) && Placeable(placed, s) && !Nested(placed, s)
    requires !LinkOnPath(t, Resolve(placed, s.mount))
    ensures Created(t, s.name, Resolve(placed, s.mount)).failure.None?
  {
    if s.name in t { ExistingMeansNested(t, image, placed, s); }
    SeparateIsFree(placed, s, s.mount);
    forall k | 0 < k < |s.name| && s.name[..k] in t ensures IsDir(t[s.name[..k]]) {
      AboveNameIsDir(t, image, placed, s, s.name[..k]);
    }
    FreshSucceeds(t, s.name, Resolve(placed, s.mount));
  }

  // A free name below directories only can be carved from content elsewhere.
  lemma FreshSucceeds(t: Tree, name: Path, content: Path)
    requires name != [] && name !in t && !(content <= name) && !LinkOnPath(t, content)
    requires forall k :: 0 < k < |name| && name[..k] in t ==> IsDir(t[name[..k]])
    ensures Created(t, name, content).failure.None?
  {
    var parent := Parent(name);
    assert forall k :: 0 < k <= |parent| ==> parent[..k] == name[..k];
    assert name[..|name|] == name;
  }

  lemma VacatedOutside(placed: seq<Subvolume>, s: Subvolume, q: Path)
    requires q < s.name && Vacated(placed, q)
    ensures Nested(placed, s)
  {
    var a, k :| a in placed && k in placed && a.mount < k.mount && q == Location(a, k.mount);
    PrefixTransitive(a.name, q, s.name);
  }

  lemma AboveNameIsDir(t: Tree, image: Tree, placed: seq<Subvolume>, s: Subvolume, q: Path)
    requires Keeps(t, image, placed) && Placeable(placed, s) && !Nested(placed, s)
    requires q in t && q < s.name
    ensures IsDir(t[q])
  {
    assert Accounted(t, image, placed, q);
    if Scaffold(placed, q) {
      var k :| k in placed && q < k.name;
      AncestorsAreDirs(t, q, k.name);
    } else if Visible(placed, q) {
      var p :| Resolve(placed, p) == q;
      SeparateIsFree(placed, s, p);
    } else {
      VacatedOutside(placed, s, q);
    }
  }

  // The mountpoints placed so far are reached without symlinks in the image.
  ghost predicate Trodden(image: Tree, placed: seq<Subvolume>) {
    forall k :: k in placed ==> !LinkOnPath(image, k.mount)
  }

  lemma StepExactly(t: Tree, image: Tree, placed: seq<Subvolume>, s: Subvolume)
    requires WellFormed(image) && Trodden(image, placed)
    requires Keeps(t, image, placed) && Placeable(placed, s) && CleanPath(s.name)
    ensures Created(t, s.name, Resolve(placed, s.mount)).failure.None? <==> Fits(image, placed, s)
    ensures Fits(image, placed, s) ==>
      && Keeps(Created(t, s.name, Resolve(placed, s.mount)).tree, image, placed + [s])
      && Trodden(image, placed + [s])
  {
    assert Owner(placed, s.mount) in placed;
    if Nested(placed, s) {
      NestedStaysPut(placed, s);
      if HasDir(image, s.mount) {
        PlaceableFacts(placed, s);
        assert Shows(t, image, placed, s.mount);
        CleanStages(t, s.name);
        NestedSucceeds(t, s.name);
        DirHasNoLinkAbove(image, s.mount);
      }
      if Created(t, s.name, s.name).failure.None? { NestedStep(t, image, placed, s); }
    } else {
      LinkedContent(t, image, placed, s.mount);
      if !LinkOnPath(image, s.mount) {
        SeparateSucceeds(t, image, placed, s);
        SeparateStep(t, image, placed, s);
      }
    }
  }

  // ----- sorted(layout, key=depth of the mountpoint, then depth of the name)

  predicate Before(a: Subvolume, b: Subvolume) {
    |a.mount| < |b.mount| || (|a.mount| == |b.mount| && |a.name| <= |b.name|)
  }

  function Insert(s: seq<Subvolume>, x: Subvolume): (r: seq<Subvolume>)
    ensures multiset(r) == multiset(s) + multiset{x}
  {
    if s == [] || Before(s[|s| - 1], x) then
      assert s + [x] == s + [x]; s + [x]
    else
      assert s == s[..|s| - 1] + [s[|s| - 1]];
      Insert(s[..|s| - 1], x) + [s[|s| - 1]]
  }

  function ByDepth(layout: seq<Subvolume>): (r: seq<Subvolume>)
    ensures multiset(r) == multiset(layout)
  {
    if layout == [] then []
    else
      assert layout == layout[..|layout| - 1] + [layout[|layout| - 1]];
      Insert(ByDepth(layout[..|layout| - 1]), layout[|layout| - 1])
  }

  ghost predicate Shallow(s: seq<Subvolume>) {
    forall i, j :: 0 <= i < j < |s| ==> |s[i].mount| <= |s[j].mount|
  }

  // Shallower mountpoints first, and of equally deep ones shorter names first.
  ghost predicate InOrder(s: seq<Subvolume>) {
    forall i, j :: 0 <= i < j < |s| ==>
      |s[i].mount| < |s[j].mount| || (|s[i].mount| == |s[j].mount| && |s[i].name| <= |s[j].name|)
  }

  lemma {:induction false} InsertInOrder(s: seq<Subvolume>, x: Subvolume)
    requires InOrder(s)
    ensures InOrder(Insert(s, x))
    decreases |s|
  {
    if s != [] {
      var front, last := s[..|s| - 1], s[|s| - 1];
      if !Before(last, x) {
        InsertInOrder(front, x);
        var r := Insert(front, x);
        forall i | 0 <= i < |r| ensures Before(r[i], last) {
          assert r[i] in multiset(r);
        }
      }
    }
  }

  // The order keeps every entry and puts them as the sort keys say.
  lemma {:induction false} ByDepthInOrder(layout: seq<Subvolume>)
    ensures InOrder(ByDepth(layout)) && multiset(ByDepth(layout)) == multiset(layout)
    decreases |layout|
  {
    if layout != [] {
      ByDepthInOrder(layout[..|layout| - 1]);
      InsertInOrder(ByDepth(layout[..|layout| - 1]), layout[|layout| - 1]);
    }
  }

  lemma ByDepthShallow(layout: seq<Subvolume>)
    ensures Shallow(ByDepth(layout))
  {
    ByDepthInOrder(layout);
  }

  // ----- the whole loop

  datatype Run = Run(tree: Tree, placed: seq<Subvolume>, failure: Option<Failure>)

  ghost predicate Named(s: seq<Subvolume>) {
    forall k :: k in s ==> k.name != []
  }

  function CarveAll(t: Tree, placed: seq<Subvolume>, order: seq<Subvolume>): Run
    requires placed != [] && placed[0] == ROOT
    requires forall k :: k in order ==> k.name != []
    decreases |order|
  {
    if order == [] then Run(t, placed, None)
    else if order[0].name == ROOT_NAME then CarveAll(t, placed, order[1..])
    else
      var o := Created(t, order[0].name, Resolve(placed, order[0].mount));
      if o.failure.Some? then Run(o.tree, placed, o.failure)
      else CarveAll(o.tree, placed + [order[0]], order[1..])
  }

  // Placed and pending subvolumes together are the layout, shallowest first.
  ghost predicate Pending(layout: seq<Subvolume>, placed: seq<Subvolume>, order: seq<Subvolume>) {
    && HasRoot(placed) && Coherent(layout) && Named(layout)
    && (forall k :: k in layout <==> k in placed || k in order)
    && Shallow(order)
    && (forall i, j :: 0 <= i < j < |order| ==> order[i] != order[j])
    && (forall s :: s in order ==> s == ROOT || (s !in placed && forall k :: k in placed ==> |k.mount| <= |s.mount|))
  }

  lemma PendingStep(layout: seq<Subvolume>, placed: seq<Subvolume>, order: seq<Subvolume>)
    requires Pending(layout, placed, order) && order != [] && order[0] != ROOT
    ensures Placeable(placed, order[0])
    ensures Nested(layout, order[0]) <==> Nested(placed, order[0])
    ensures Pending(layout, placed + [order[0]], order[1..])
  {
    var s := order[0];
    assert s in order;
    forall k | k in layout && k.name < s.name ensures k in placed {
      assert Aligned(k, s);
      BelowAppend(k.mount, s.name[|k.name|..]);
    }
    PendingRest(layout, placed, order);
  }

  lemma RestOf(order: seq<Subvolume>, x: Subvolume)
    requires order != [] && Shallow(order) && x in order[1..]
    requires forall i, j :: 0 <= i < j < |order| ==> order[i] != order[j]
    ensures x in order && x != order[0] && |order[0].mount| <= |x.mount|
  {
    var i :| 0 <= i < |order[1..]| && order[1..][i] == x;
    assert order[i + 1] == x;
  }

  lemma PendingRest(layout: seq<Subvolume>, placed: seq<Subvolume>, order: seq<Subvolume>)
    requires Pending(layout, placed, order) && order != [] && order[0] != ROOT
    ensures Pending(layout, placed + [order[0]], order[1..])
  {
    var s, rest := order[0], order[1..];
    forall x | x in rest ensures x in order && x != s && |s.mount| <= |x.mount| {
      RestOf(order, x);
    }
    assert forall x :: x in order <==> x == s || x in rest by { assert order == [s] + rest; }
    assert forall x :: x in placed + [s] <==> x in placed || x == s;
    assert Shallow(rest);
  }

  lemma PendingSkip(layout: seq<Subvolume>, placed: seq<Subvolume>, order: seq<Subvolume>)
    requires Pending(layout, placed, order) && order != [] && order[0] == ROOT
    ensures Pending(layout, placed, order[1..])
  {
    var rest := order[1..];
    assert order == [ROOT] + rest;
    forall x | x in rest ensures x in order {
    }
  }

  // Everything the loop relies on between two subvolumes.
  ghost predicate Underway(t: Tree, image: Tree, layout: seq<Subvolume>,
                           placed: seq<Subvolume>, order: seq<Subvolume>) {
    && WellFormed(image) && Trodden(image, placed) && Keeps(t, image, placed)
    && Pending(layout, placed, order)
    && forall s :: s in order ==> CleanPath(s.name)
  }

  ghost predicate AllFit(image: Tree, layout: seq<Subvolume>, order: seq<Subvolume>) {
    forall i :: 0 <= i < |order| && order[i] != ROOT ==> Fits(image, layout, order[i])
  }

  ghost predicate Finished(run: Run, image: Tree, layout: seq<Subvolume>) {
    Keeps(run.tree, image, run.placed) && forall k :: k in run.placed <==> k in layout
  }

  lemma {:induction false} CarveAllKeeps(t: Tree, image: Tree, layout: seq<Subvolume>,
                                         placed: seq<Subvolume>, order: seq<Subvolume>)
    requires Underway(t, image, layout, placed, order)
    ensures CarveAll(t, placed, order).failure.None? <==> AllFit(image, layout, order)
    ensures CarveAll(t, placed, order).failure.None? ==> Finished(CarveAll(t, placed, order), image, layout)
    decreases |order|
  {
    if order != [] {
      var s, rest := order[0], order[1..];
      AllFitSplit(image, layout, order);
      if s == ROOT {
        UnderwaySkip(t, image, layout, placed, order);
        CarveAllKeeps(t, image, layout, placed, rest);
      } else {
        UnderwayStep(t, image, layout, placed, order);
        if Fits(image, layout, s) {
          CarveAllKeeps(Created(t, s.name, Resolve(placed, s.mount)).tree, image, layout, placed + [s], rest);
        }
      }
    }
  }

  lemma AllFitSplit(image: Tree, layout: seq<Subvolume>, order: seq<Subvolume>)
    requires order != []
    ensures AllFit(image, layout, order) <==>
      (order[0] != ROOT ==> Fits(image, layout, order[0])) && AllFit(image, layout, order[1..])
  {
    var rest := order[1..];
    assert forall i :: 0 <= i < |rest| ==> rest[i] == order[i + 1];
    assert forall i :: 0 < i < |order| ==> order[i] == rest[i - 1];
  }

  lemma UnderwaySkip(t: Tree, image: Tree, layout: seq<Subvolume>, placed: seq<Subvolume>, order: seq<Subvolume>)
    requires Underway(t, image, layout, placed, order) && order != [] && order[0] == ROOT
    ensures Underway(t, image, layout, placed, order[1..])
  {
    PendingSkip(layout, placed, order);
  }

  lemma UnderwayStep(t: Tree, image: Tree, layout: seq<Subvolume>, placed: seq<Subvolume>, order: seq<Subvolume>)
    requires Underway(t, image, layout, placed, order) && order != [] && order[0] != ROOT
    ensures order[0].name != [] && order[0].name != ROOT_NAME
    ensures var o := Created(t, order[0].name, Resolve(placed, order[0].mount));
      && (o.failure.None? <==> Fits(image, layout, order[0]))
      && (o.failure.None? ==> Underway(o.tree, image, layout, placed + [order[0]], order[1..]))
  {
    var s := order[0];
    OnlyRootIsAt(layout, placed, order, s);
    PendingStep(layout, placed, order);
    CarveOne(t, image, layout, placed, s);
  }

  lemma OnlyRootIsAt(layout: seq<Subvolume>, placed: seq<Subvolume>, order: seq<Subvolume>, s: Subvolume)
    requires Pending(layout, placed, order) && s in order
    ensures s != ROOT ==> s.name != ROOT_NAME
  {
    assert ROOT in layout;
  }

  lemma CarveOne(t: Tree, image: Tree, layout: seq<Subvolume>, placed: seq<Subvolume>, s: Subvolume)
    requires WellFormed(image) && Trodden(image, placed) && Keeps(t, image, placed)
    requires Placeable(placed, s) && CleanPath(s.name)
    requires Nested(layout, s) <==> Nested(placed, s)
    ensures Created(t, s.name, Resolve(placed, s.mount)).failure.None? <==> Fits(image, layout, s)
    ensures Fits(image, layout, s) ==>
      && Keeps(Created(t, s.name, Resolve(placed, s.mount)).tree, image, placed + [s])
      && Trodden(image, placed + [s])
  {
    StepExactly(t, image, placed, s);
  }

  // ----- the start: monarch-root renamed to @

  ghost predicate CleanTree(t: Tree) {
    forall q :: q in t ==> CleanPath(q)
  }

  function Deployed(image: Tree): Tree {
    var stored := set p | p in image :: ROOT_NAME + p;
    map q | q in stored + {[]} && (q == [] || q[1..] in image) ::
      if q == [] then Dir else if q == ROOT_NAME then Subvol else image[q[1..]]
  }

  lemma DeployedAt(image: Tree, q: Path)
    requires WellFormed(image)
    ensures q in Deployed(image) <==> q == [] || (ROOT_NAME <= q && q[1..] in image)
    ensures q in Deployed(image) ==>
      Deployed(image)[q] == if q == [] then Dir else if q == ROOT_NAME then Subvol else image[q[1..]]
  {
    if ROOT_NAME <= q && q[1..] in image { assert q == ROOT_NAME + q[1..]; }
  }

  lemma DeployedWellFormed(image: Tree)
    requires WellFormed(image)
    ensures WellFormed(Deployed(image))
  {
    var t := Deployed(image);
    DeployedAt(image, []);
    forall q | q in t && q != [] ensures HasDir(t, Parent(q)) {
      DeployedAt(image, q);
      DeployedAt(image, Parent(q));
      if q != ROOT_NAME {
        assert q[1..] != [] by { assert q == ROOT_NAME + q[1..]; }
        assert Parent(q)[1..] == Parent(q[1..]);
      }
    }
  }

  lemma ResolveRoot(p: Path)
    ensures Resolve([ROOT], p) == ROOT_NAME + p
  {
  }

  lemma DeployedKeeps(image: Tree)
    requires WellFormed(image) && CleanTree(image)
    ensures Keeps(Deployed(image), image, [ROOT]) && Trodden(image, [ROOT])
  {
    var t := Deployed(image);
    DeployedWellFormed(image);
    forall p ensures Shows(t, image, [ROOT], p) {
      ResolveRoot(p);
      DeployedAt(image, ROOT_NAME + p);
      assert (ROOT_NAME + p)[1..] == p;
      assert !Hidden(image, [ROOT], p);
    }
    DeployedAt(image, ROOT_NAME);
    assert ROOT_NAME[1..] == [];
    forall q ensures Accounted(t, image, [ROOT], q) {
      DeployedAt(image, q);
      if q in t && q != [] {
        ResolveRoot(q[1..]);
        assert q == ROOT_NAME + q[1..];
        assert Resolve([ROOT], q[1..]) == q;
        if !IsDir(t[q]) { assert Origin(image, [ROOT], q, t[q], q[1..]); }
      } else {
        assert q in t ==> Scaffold([ROOT], q) by { assert [] < ROOT.name; assert ROOT in [ROOT]; }
      }
    }
    forall q | q in t ensures CleanPath(q) {
      DeployedAt(image, q);
      if q != [] {
        assert CleanPath(q[1..]);
        forall i | 0 <= i < |q| ensures !EndsWith(q[i], STAGING) {
          if i > 0 { assert q[i] == q[1..][i - 1]; }
        }
      }
    }
  }

  // A layout that passed validate_subvolumes.
  ghost predicate Admitted(layout: seq<Subvolume>) {
    Distinct(layout) && ROOT in layout && Coherent(layout) && Named(layout)
  }

  lemma ValidIsAdmitted(requests: seq<Request>)
    requires Valid(requests)
    ensures Admitted(Layout(requests))
  {
    var s := Layout(requests);
    forall k | k in s ensures k.name != [] {
      var i :| 0 <= i < |s| && s[i] == k;
    }
  }

  lemma StartsUnderway(image: Tree, layout: seq<Subvolume>)
    requires Admitted(layout) && WellFormed(image) && CleanTree(image)
    requires forall k :: k in layout ==> CleanPath(k.name)
    ensures Underway(Deployed(image), image, layout, [ROOT], ByDepth(layout))
  {
    var order := ByDepth(layout);
    DeployedKeeps(image);
    ByDepthShallow(layout);
    ByDepthMembers(layout);
    ByDepthDistinct(layout);
    StartsPending(layout, order);
  }

  lemma StartsPending(layout: seq<Subvolume>, order: seq<Subvolume>)
    requires Admitted(layout) && Shallow(order)
    requires forall k :: k in order <==> k in layout
    requires forall i, j :: 0 <= i < j < |order| ==> order[i] != order[j]
    ensures Pending(layout, [ROOT], order)
  {
  }

  lemma ByDepthMembers(layout: seq<Subvolume>)
    ensures forall k :: k in ByDepth(layout) <==> k in layout
  {
    var order := ByDepth(layout);
    forall k ensures k in order <==> k in layout {
      assert k in multiset(order) <==> k in multiset(layout);
    }
  }

  lemma ByDepthDistinct(layout: seq<Subvolume>)
    requires Distinct(layout)
    ensures forall i, j :: 0 <= i < j < |ByDepth(layout)| ==> ByDepth(layout)[i] != ByDepth(layout)[j]
  {
    var r := ByDepth(layout);
    forall i, j | 0 <= i < j < |r| ensures r[i] != r[j] {
      if r[i] == r[j] {
        TwiceInMultiset(r, i, j);
        assert multiset(layout)[r[i]] >= 2;
        OnceInMultiset(layout, r[i]);
      }
    }
  }

  lemma {:induction false} TwiceInMultiset(s: seq<Subvolume>, i: int, j: int)
    requires 0 <= i < j < |s| && s[i] == s[j]
    ensures multiset(s)[s[i]] >= 2
  {
    assert s == s[..j] + [s[j]] + s[j + 1..];
    assert s[i] in s[..j];
  }

  lemma {:induction false} OnceInMultiset(s: seq<Subvolume>, x: Subvolume)
    requires Distinct(s)
    ensures multiset(s)[x] <= 1
    decreases |s|
  {
    if s != [] {
      var front, last := s[..|s| - 1], s[|s| - 1];
      assert s == front + [last];
      OnceInMultiset(front, x);
    }
  }

  function Rearranged(image: Tree, layout: seq<Subvolume>): Run
    requires forall k :: k in layout ==> k.name != []
  {
    assert forall k :: k in ByDepth(layout) ==> k in multiset(layout);
    CarveAll(Deployed(image), [ROOT], ByDepth(layout))
  }

  // ----- main results

  // The preconditions under which the loop is studied: a validated layout, a
  // well-formed image, and nothing using the staging suffix already.
  ghost predicate Ready(image: Tree, layout: seq<Subvolume>) {
    && Admitted(layout) && WellFormed(image) && CleanTree(image)
    && forall k :: k in layout ==> CleanPath(k.name)
  }

  // The node a user finds at p after the loop is the image's own.
  ghost predicate Same(run: Run, image: Tree, p: Path)
    requires HasRoot(run.placed)
  {
    var q := Resolve(run.placed, p);
    p in image && q in run.tree && Alike(run.tree[q], image[p])
  }

  lemma RelayoutFinishes(image: Tree, layout: seq<Subvolume>)
    requires Ready(image, layout)
    ensures Rearranged(image, layout).failure.None? ==> Finished(Rearranged(image, layout), image, layout)
    ensures Rearranged(image, layout).failure.None? <==> forall s :: s in layout && s != ROOT ==> Fits(image, layout, s)
  {
    StartsUnderway(image, layout);
    var order := ByDepth(layout);
    CarveAllKeeps(Deployed(image), image, layout, [ROOT], order);
    ByDepthMembers(layout);
    assert AllFit(image, layout, order) <==> forall s :: s in order && s != ROOT ==> Fits(image, layout, s);
  }

  // The loop runs through exactly when every nested subvolume's directory is in
  // the image and no other mountpoint is reached through a symlink.
  lemma RelayoutSucceedsIff(image: Tree, layout: seq<Subvolume>)
    requires Ready(image, layout)
    ensures Rearranged(image, layout).failure.None? <==>
      forall s :: s in layout && s != ROOT ==>
        if Nested(layout, s) then HasDir(image, s.mount) else !LinkOnPath(image, s.mount)
  {
    RelayoutFinishes(image, layout);
  }

  // What a user sees is unchanged exactly when no regular file of the image
  // sits at a mountpoint.
  lemma RelayoutKeepsView(image: Tree, layout: seq<Subvolume>)
    requires Ready(image, layout) && Rearranged(image, layout).failure.None?
    ensures HasRoot(Rearranged(image, layout).placed)
    ensures (forall p :: p in image ==> Same(Rearranged(image, layout), image, p)) <==>
            (forall k :: k in layout && k.mount in image ==> !image[k.mount].File?)
  {
    RelayoutFinishes(image, layout);
    if forall p :: p in image ==> Same(Rearranged(image, layout), image, p) {
      SameMeansNoFile(Rearranged(image, layout), image, layout);
    }
    if forall k :: k in layout && k.mount in image ==> !image[k.mount].File? {
      forall p | p in image ensures Same(Rearranged(image, layout), image, p) {
        UnhiddenIsSame(image, layout, p);
      }
    }
  }

  // The loop neither adds nor hides a symlink on the way to a path.
  lemma RelayoutKeepsLinks(image: Tree, layout: seq<Subvolume>, p: Path)
    requires Ready(image, layout) && Rearranged(image, layout).failure.None?
    ensures HasRoot(Rearranged(image, layout).placed)
    ensures var run := Rearranged(image, layout);
      LinkOnPath(run.tree, Resolve(run.placed, p)) <==> LinkOnPath(image, p)
  {
    RelayoutFinishes(image, layout);
    var run := Rearranged(image, layout);
    var o := Owner(run.placed, p);
    if o != ROOT {
      assert Fits(image, layout, o);
      if Nested(layout, o) { DirHasNoLinkAbove(image, o.mount); }
    }
    LinkedContent(run.tree, image, run.placed, p);
  }

  lemma SameMeansNoFile(run: Run, image: Tree, layout: seq<Subvolume>)
    requires Finished(run, image, layout) && forall p :: p in image ==> Same(run, image, p)
    ensures forall k :: k in layout && k.mount in image ==> !image[k.mount].File?
  {
    forall k | k in layout && k.mount in image ensures !image[k.mount].File? {
      assert Same(run, image, k.mount);
      MountShowsSubvolume(run, image, layout, k);
    }
  }

  lemma MountShowsSubvolume(run: Run, image: Tree, layout: seq<Subvolume>, k: Subvolume)
    requires Finished(run, image, layout) && k in layout
    ensures Resolve(run.placed, k.mount) == k.name && k.name in run.tree && run.tree[k.name] == Subvol
  {
    OwnerUnique(run.placed, k, k.mount);
  }

  lemma UnhiddenIsSame(image: Tree, layout: seq<Subvolume>, p: Path)
    requires Ready(image, layout) && Rearranged(image, layout).failure.None?
    requires p in image && forall k :: k in layout && k.mount == p ==> !image[p].File?
    ensures HasRoot(Rearranged(image, layout).placed) && Same(Rearranged(image, layout), image, p)
  {
    RelayoutFinishes(image, layout);
    var run := Rearranged(image, layout);
    assert Shows(run.tree, image, run.placed, p);
    if Hidden(image, run.placed, p) { MountIsDirOrFile(image, layout, p); }
  }

  lemma MountIsDirOrFile(image: Tree, layout: seq<Subvolume>, p: Path)
    requires Ready(image, layout) && Rearranged(image, layout).failure.None?
    requires p in image && exists k :: k in layout && k.mount == p
    ensures !image[p].Link?
  {
    RelayoutFinishes(image, layout);
    var k :| k in layout && k.mount == p;
    if k == ROOT {
    } else if !Nested(layout, k) {
      assert Fits(image, layout, k);
      assert p == p[..|p|];
    }
  }

  // Nothing is invented: away from the image only directories on the way to a
  // mountpoint appear.
  lemma RelayoutAddsOnlyMountpoints(image: Tree, layout: seq<Subvolume>, p: Path)
    requires Ready(image, layout) && Rearranged(image, layout).failure.None? && p !in image
    ensures HasRoot(Rearranged(image, layout).placed)
    ensures var run := Rearranged(image, layout);
      Resolve(run.placed, p) in run.tree ==>
        HasDir(run.tree, Resolve(run.placed, p)) && exists k :: k in layout && p <= k.mount
  {
    RelayoutFinishes(image, layout);
    assert Shows(Rearranged(image, layout).tree, image, Rearranged(image, layout).placed, p);
  }

  // Nothing is lost, duplicated or left hidden: every stored file or link is the
  // image's node at exactly one path, found there. Every name is a subvolume.
  lemma RelayoutStoresOnce(image: Tree, layout: seq<Subvolume>, q: Path)
    requires Ready(image, layout) && Rearranged(image, layout).failure.None?
    requires forall k :: k in layout && k.mount in image ==> !image[k.mount].File?
    ensures HasRoot(Rearranged(image, layout).placed)
    ensures var t := Rearranged(image, layout).tree;
      forall k :: k in layout ==> k.name in t && t[k.name] == Subvol
    ensures var run := Rearranged(image, layout);
      q in run.tree && !IsDir(run.tree[q]) ==>
        exists p :: p in image && image[p] == run.tree[q] && Resolve(run.placed, p) == q
    ensures var run := Rearranged(image, layout);
      forall p, r :: Resolve(run.placed, p) == Resolve(run.placed, r) ==> p == r
  {
    RelayoutFinishes(image, layout);
    var run := Rearranged(image, layout);
    assert Accounted(run.tree, image, run.placed, q);
    if q in run.tree && !IsDir(run.tree[q]) {
      var p :| Origin(image, run.placed, q, run.tree[q], p);
      if Hidden(image, run.placed, p) { MountIsDirOrFile(image, layout, p); }
    }
    forall p, r | Resolve(run.placed, p) == Resolve(run.placed, r) ensures p == r {
      ResolveInjective(run.placed, p, r);
    }
  }

  // The loop itself, on the mounted filesystem.
  method RelayoutInPlace(fs: Filesystem, image: Tree, layout: seq<Subvolume>)
    returns (placed: seq<Subvolume>, failure: Option<Failure>)
    requires Ready(image, layout) && fs.nodes == Deployed(image)
    modifies fs
    ensures Run(fs.nodes, placed, failure) == Rearranged(image, layout)
  {
    StartsUnderway(image, layout);
    var order := ByDepth(layout);
    placed := [ROOT];
    assert order[0..] == order;
    for i := 0 to |order|
      invariant Underway(fs.nodes, image, layout, placed, order[i..])
      invariant CarveAll(fs.nodes, placed, order[i..]) == Rearranged(image, layout)
    {
      var s := order[i];
      assert order[i..][0] == s && order[i..][1..] == order[i + 1..];
      if s.name == ROOT_NAME {
        OnlyRootIsAt(layout, placed, order[i..], s);
        UnderwaySkip(fs.nodes, image, layout, placed, order[i..]);
      } else {
        UnderwayStep(fs.nodes, image, layout, placed, order[i..]);
        failure := fs.CreateSubvolume(s.name, Resolve(placed, s.mount));
        if failure.Some? {
          return;
        }
        placed := placed + [s];
      }
    }
    failure := None;
  }
}
