// validate_subvolumes: which sets of Btrfs subvolumes and mountpoints the
// installer agrees to carve the prebuilt root image into.
module SubvolumeLayout {
  import opened Paths

  // A subvolume's name below the top of the filesystem and its mountpoint
  // below the installation target.
  datatype Subvolume = Subvolume(name: Path, mount: Path)

  const ROOT_NAME: Path := ["@"]
  const ROOT := Subvolume(ROOT_NAME, [])

  // One entry of the layout before validation.
  datatype Request = Request(name: Path, absolute: bool, mount: Path)

  datatype Verdict =
    | Accepted
    | InvalidEntry
    | Duplicate
    | NoRoot
    | Mismatch(name: Path)
    | Crosses(name: Path, other: Path)

  function Asked(r: Request): Subvolume {
    Subvolume(r.name, r.mount)
  }

  predicate WellFormedRequest(r: Request) {
    && r.name != [] && ".." !in r.name
    && r.absolute && ".." !in r.mount
  }

  // Every two entries differ in both name and mountpoint.
  ghost predicate Distinct(s: seq<Subvolume>) {
    forall i, j :: 0 <= i < j < |s| ==> s[i].name != s[j].name && s[i].mount != s[j].mount
  }

  // A subvolume stored inside another is mounted at the same place inside it,
  // and between the two mountpoints only subvolumes of the outer one's own
  // chain may be mounted.
  ghost predicate Aligned(a: Subvolume, b: Subvolume) {
    a.name < b.name ==> b.mount == a.mount + b.name[|a.name|..]
  }

  ghost predicate Uncrossed(a: Subvolume, b: Subvolume, c: Subvolume) {
    a.name < b.name && a.mount < c.mount < b.mount ==> a.name < c.name
  }

  ghost predicate Coherent(s: seq<Subvolume>) {
    && (forall a, b :: a in s && b in s ==> Aligned(a, b))
    && (forall a, b :: a in s && b in s && (a.name == b.name || a.mount == b.mount) ==> a == b)
    && (forall a, b, c :: a in s && b in s && c in s ==> Uncrossed(a, b, c))
  }

  // The layouts the guard is meant to let through.
  ghost predicate Valid(requests: seq<Request>) {
    var s := Layout(requests);
    && (forall i :: 0 <= i < |requests| ==> WellFormedRequest(requests[i]))
    && Distinct(s)
    && ROOT in s
    && Coherent(s)
  }

  function Layout(requests: seq<Request>): (s: seq<Subvolume>)
    ensures |s| == |requests|
    ensures forall i :: 0 <= i < |s| ==> s[i] == Asked(requests[i])
  {
    seq(|requests|, i requires 0 <= i < |requests| => Asked(requests[i]))
  }

  // The test the guard makes for one subvolume against its innermost container.
  ghost predicate InnermostContainer(s: seq<Subvolume>, b: Subvolume, p: Subvolume) {
    p in s && p.name < b.name && forall o :: o in s && o.name < b.name ==> |o.name| <= |p.name|
  }

  predicate CrossedBy(b: Subvolume, p: Subvolume, o: Subvolume) {
    && o.name != b.name && o.name != p.name
    && o.mount != p.mount && o.mount != b.mount
    && o.mount <= b.mount && p.mount <= o.mount
  }

  ghost predicate PassesInnermost(s: seq<Subvolume>, b: Subvolume) {
    forall p :: InnermostContainer(s, b, p) ==>
      && b.mount == p.mount + b.name[|p.name|..]
      && forall o :: o in s ==> !CrossedBy(b, p, o)
  }

  // The innermost container exists as soon as there is any container.
  lemma {:induction false} InnermostExists(s: seq<Subvolume>, b: Subvolume, a: Subvolume) returns (p: Subvolume)
    requires a in s && a.name < b.name
    ensures InnermostContainer(s, b, p) && |a.name| <= |p.name|
    decreases |b.name| - |a.name|
  {
    if o :| o in s && o.name < b.name && |o.name| > |a.name| {
      p := InnermostExists(s, b, o);
    } else {
      p := a;
    }
  }

  lemma DistinctElements(s: seq<Subvolume>)
    requires Distinct(s)
    ensures forall a, b :: a in s && b in s && (a.name == b.name || a.mount == b.mount) ==> a == b
  {
    forall a, b | a in s && b in s && (a.name == b.name || a.mount == b.mount) ensures a == b {
      var i :| 0 <= i < |s| && s[i] == a;
      var j :| 0 <= j < |s| && s[j] == b;
    }
  }

  // Checking each subvolume against its innermost container only is enough to
  // align it with every container around it.
  lemma {:induction false} InnermostAligns(s: seq<Subvolume>, a: Subvolume, b: Subvolume)
    requires Distinct(s) && a in s && b in s && a.name < b.name
    requires forall x :: x in s ==> PassesInnermost(s, x)
    ensures b.mount == a.mount + b.name[|a.name|..]
    decreases |b.name|
  {
    DistinctElements(s);
    var p := InnermostExists(s, b, a);
    PrefixesCompare(a.name, p.name, b.name);
    if a != p {
      InnermostAligns(s, a, p);
      PrefixTransitive(a.name, p.name, b.name);
    }
  }

  lemma {:induction false} InnermostUncrosses(s: seq<Subvolume>, a: Subvolume, b: Subvolume, c: Subvolume)
    requires Distinct(s) && a in s && b in s && c in s
    requires a.name < b.name && a.mount < c.mount < b.mount
    requires forall x :: x in s ==> PassesInnermost(s, x)
    ensures a.name < c.name
    decreases |b.name|
  {
    DistinctElements(s);
    var p := InnermostExists(s, b, a);
    PrefixesCompare(a.name, p.name, b.name);
    InnermostAligns(s, p, b);
    assert !CrossedBy(b, p, c);
    if |c.mount| <= |p.mount| {
      PrefixesCompare(c.mount, p.mount, b.mount);
      if c != p {
        InnermostUncrosses(s, a, p, c);
      }
    } else {
      PrefixesCompare(p.mount, c.mount, b.mount);
    }
  }

  // The guard's local test and the global shape of the layout are the same thing.
  lemma InnermostTestIsCoherence(s: seq<Subvolume>)
    requires Distinct(s)
    ensures (forall b :: b in s ==> PassesInnermost(s, b)) <==> Coherent(s)
  {
    DistinctElements(s);
    if forall b :: b in s ==> PassesInnermost(s, b) {
      forall a, b | a in s && b in s ensures Aligned(a, b) {
        if a.name < b.name { InnermostAligns(s, a, b); }
      }
      forall a, b, c | a in s && b in s && c in s ensures Uncrossed(a, b, c) {
        if a.name < b.name && a.mount < c.mount < b.mount { InnermostUncrosses(s, a, b, c); }
      }
    }
    if Coherent(s) {
      forall b, p | b in s && InnermostContainer(s, b, p)
        ensures b.mount == p.mount + b.name[|p.name|..]
        ensures forall o :: o in s ==> !CrossedBy(b, p, o)
      {
        assert Aligned(p, b);
        forall o | o in s ensures !CrossedBy(b, p, o) {
          if CrossedBy(b, p, o) {
            assert Uncrossed(p, b, o);
            assert Aligned(p, o);
            BelowAppend(p.mount, o.name[|p.name|..]);
            ShorterRest(p.name, o.name, b.name, p.mount, o.mount, b.mount);
            assert false;
          }
        }
      }
    }
  }

  // Rests that sit inside each other's mountpoints sit inside each other's names.
  lemma ShorterRest(pn: Path, on: Path, bn: Path, pm: Path, om: Path, bm: Path)
    requires pn < on && pn < bn && om < bm
    requires om == pm + on[|pn|..] && bm == pm + bn[|pn|..]
    ensures on < bn
  {
    var ro, rb := on[|pn|..], bn[|pn|..];
    assert ro == om[|pm|..] && rb == bm[|pm|..];
    assert ro == rb[..|ro|];
    assert on == pn + ro && bn == pn + rb;
  }

  // No accepted name or mountpoint leads out of the filesystem or of the target.
  lemma AcceptedStayInside(requests: seq<Request>, i: nat, k: nat)
    requires Valid(requests) && i < |requests|
    ensures requests[i].absolute && |requests[i].name| > 0
    ensures k < |requests[i].name| ==> requests[i].name[k] != ".."
    ensures k < |requests[i].mount| ==> requests[i].mount[k] != ".."
  {
    var r := requests[i];
    assert WellFormedRequest(r);
    assert k < |r.name| ==> r.name[k] in r.name;
    assert k < |r.mount| ==> r.mount[k] in r.mount;
  }

  // The entries before the i-th are well formed and pairwise different.
  ghost predicate GoodBefore(requests: seq<Request>, i: nat)
    requires i <= |requests|
  {
    (forall k :: 0 <= k < i ==> WellFormedRequest(requests[k])) && Distinct(Layout(requests)[..i])
  }

  ghost predicate FirstMalformed(requests: seq<Request>, i: int) {
    0 <= i < |requests| && GoodBefore(requests, i) && !WellFormedRequest(requests[i])
  }

  // A well-formed entry repeats the name or the mountpoint of an earlier one.
  ghost predicate FirstRepeated(requests: seq<Request>, i: int) {
    && 0 <= i < |requests| && GoodBefore(requests, i) && WellFormedRequest(requests[i])
    && exists k :: 0 <= k < i && (requests[k].name == requests[i].name || requests[k].mount == requests[i].mount)
  }

  // What a complaint about nesting says of the layout.
  ghost predicate Justified(s: seq<Subvolume>, verdict: Verdict) {
    match verdict
    case Mismatch(name) =>
      exists a, b :: a in s && b in s && b.name == name && !Aligned(a, b)
    case Crosses(name, other) =>
      exists a, b, c :: a in s && b in s && c in s && b.name == name && c.name == other
                        && a.name < b.name && a.mount < c.mount < b.mount
    case _ => true
  }

  method ValidateSubvolumes(requests: seq<Request>) returns (verdict: Verdict)
    ensures verdict.Accepted? <==> Valid(requests)
    ensures verdict.InvalidEntry? <==> exists i :: FirstMalformed(requests, i)
    ensures verdict.NoRoot? <==> GoodBefore(requests, |requests|) && ROOT !in Layout(requests)
    ensures verdict.Duplicate? <==> exists i :: FirstRepeated(requests, i)
    ensures verdict.Mismatch? || verdict.Crosses? ==> GoodBefore(requests, |requests|) && !Coherent(Layout(requests))
    ensures Justified(Layout(requests), verdict)
  {
    var layout;
    layout, verdict := CollectEntries(requests);
    if !verdict.Accepted? {
      return;
    }
    InnermostTestIsCoherence(layout);
    if ROOT !in layout {
      return NoRoot;
    }
    verdict := CheckNesting(layout);
  }

  // The first loop: gather the entries, stopping at the first bad one.
  method CollectEntries(requests: seq<Request>) returns (layout: seq<Subvolume>, verdict: Verdict)
    ensures verdict.Accepted? || verdict.InvalidEntry? || verdict.Duplicate?
    ensures verdict.Accepted? <==> GoodBefore(requests, |requests|)
    ensures verdict.Accepted? ==> layout == Layout(requests) && Distinct(layout)
    ensures verdict.InvalidEntry? <==> exists i :: FirstMalformed(requests, i)
    ensures verdict.Duplicate? <==> exists i :: FirstRepeated(requests, i)
  {
    layout := [];
    for i := 0 to |requests|
      invariant layout == Layout(requests)[..i]
      invariant GoodBefore(requests, i)
    {
      var r := requests[i];
      if !WellFormedRequest(r) {
        assert FirstMalformed(requests, i);
        return layout, InvalidEntry;
      }
      if exists k :: 0 <= k < |layout| && (layout[k].name == r.name || layout[k].mount == r.mount) {
        assert Layout(requests)[i] == Asked(r);
        assert FirstRepeated(requests, i);
        DuplicateFirst(requests, i);
        return layout, Duplicate;
      }
      layout := layout + [Asked(r)];
    }
    assert layout == Layout(requests);
    return layout, Accepted;
  }

  lemma DuplicateFirst(requests: seq<Request>, i: nat)
    requires i < |requests| && GoodBefore(requests, i) && WellFormedRequest(requests[i])
    requires exists k :: 0 <= k < i && (requests[k].name == requests[i].name || requests[k].mount == requests[i].mount)
    ensures !Distinct(Layout(requests)) && !Distinct(Layout(requests)[..i + 1])
    ensures !exists j :: FirstMalformed(requests, j)
  {
    var s := Layout(requests);
    var k :| 0 <= k < i && (requests[k].name == requests[i].name || requests[k].mount == requests[i].mount);
    assert s[k].name == s[i].name || s[k].mount == s[i].mount;
    assert s[..i + 1][k] == s[k] && s[..i + 1][i] == s[i];
    forall j | i < j <= |s| ensures !Distinct(s[..j]) {
      assert s[..j][k] == s[k] && s[..j][i] == s[i];
    }
  }

  method CheckNesting(layout: seq<Subvolume>) returns (verdict: Verdict)
    requires Distinct(layout)
    ensures verdict.Accepted? <==> forall b :: b in layout ==> PassesInnermost(layout, b)
    ensures verdict.Accepted? || verdict.Mismatch? || verdict.Crosses?
    ensures Justified(layout, verdict)
  {
    for i := 0 to |layout|
      invariant forall k :: 0 <= k < i ==> PassesInnermost(layout, layout[k])
    {
      verdict := CheckSubvolume(layout, layout[i]);
      if !verdict.Accepted? {
        assert layout[i] in layout;
        return;
      }
    }
    return Accepted;
  }

  method CheckSubvolume(layout: seq<Subvolume>, b: Subvolume) returns (verdict: Verdict)
    requires Distinct(layout)
    ensures verdict.Accepted? <==> PassesInnermost(layout, b)
    ensures verdict.Accepted? || verdict.Mismatch? || verdict.Crosses?
    ensures b in layout ==> Justified(layout, verdict)
  {
    var best, container := Innermost(layout, b);
    if !container {
      return Accepted;
    }
    if b.mount != best.mount + b.name[|best.name|..] {
      assert !Aligned(best, b);
      return Mismatch(b.name);
    }
    for j := 0 to |layout|
      invariant forall k :: 0 <= k < j ==> !CrossedBy(b, best, layout[k])
    {
      if CrossedBy(b, best, layout[j]) {
        assert layout[j] in layout;
        assert best.mount < layout[j].mount < b.mount;
        return Crosses(b.name, layout[j].name);
      }
    }
    OneInnermost(layout, b, best);
    return Accepted;
  }

  lemma OneInnermost(s: seq<Subvolume>, b: Subvolume, p: Subvolume)
    requires Distinct(s) && InnermostContainer(s, b, p)
    ensures forall q :: InnermostContainer(s, b, q) ==> q == p
  {
    DistinctElements(s);
    forall q | InnermostContainer(s, b, q) ensures q == p {
      PrefixesCompare(p.name, q.name, b.name);
    }
  }

  // The container with the longest name, if there is any container.
  method Innermost(s: seq<Subvolume>, b: Subvolume) returns (best: Subvolume, found: bool)
    ensures found <==> exists o :: o in s && o.name < b.name
    ensures found ==> InnermostContainer(s, b, best)
  {
    best, found := ROOT, false;
    for i := 0 to |s|
      invariant found <==> exists k :: 0 <= k < i && s[k].name < b.name
      invariant found ==> best in s && best.name < b.name
      invariant found ==> forall k :: 0 <= k < i && s[k].name < b.name ==> |s[k].name| <= |best.name|
    {
      if s[i].name < b.name && (!found || |s[i].name| > |best.name|) {
        best, found := s[i], true;
      }
    }
  }
}
