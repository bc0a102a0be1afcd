// The boot-menu checks: parsing limine.conf into entries with their ancestors,
// choosing the default entry's OS group, and comparing two menus outside it.
module LimineBoot {
  import opened Wrappers
  import opened Text

  // ----- lines

  datatype Header = Header(depth: nat, open: bool, title: string)

  function SkipSpace(s: string): string {
    if s != [] && IsSpace(s[0]) then SkipSpace(s[1..]) else s
  }

  function DropSpaceEnd(s: string): string {
    if s != [] && IsSpace(s[|s| - 1]) then DropSpaceEnd(s[..|s| - 1]) else s
  }

  function Strip(s: string): string {
    DropSpaceEnd(SkipSpace(s))
  }

  function CountSlashes(s: string): (n: nat)
    ensures n <= |s| && (n < |s| ==> s[n] != '/')
    ensures forall i :: 0 <= i < n ==> s[i] == '/'
  {
    if s != [] && s[0] == '/' then 1 + CountSlashes(s[1..]) else 0
  }

  // \s*(/+)(\+?)([^/].*) over the whole line; a plus sign opens the group only
  // when something other than a slash follows it.
  function ParseHeader(line: string): Option<Header> {
    var s := SkipSpace(line);
    var n := CountSlashes(s);
    var rest := s[n..];
    if n == 0 || rest == [] then None
    else if rest[0] == '+' && |rest| > 1 && rest[1] != '/' then Some(Header(n, true, Strip(rest[1..])))
    else Some(Header(n, false, Strip(rest)))
  }

  // \s*default_entry:\s*(\S+)\s*
  function ParseDefault(line: string): Option<string> {
    var key := "default_entry:";
    var s := SkipSpace(line);
    if !(key <= s) then None
    else
      var v := SkipSpace(s[|key|..]);
      var n := WordEnd(v);
      if n == 0 || SkipSpace(v[n..]) != [] then None else Some(v[..n])
  }

  // ----- the parser

  datatype Entry = Entry(title: string, open: bool, ancestors: seq<nat>, lines: seq<string>)

  datatype State = State(entries: seq<Entry>, stack: seq<nat>, visible: seq<nat>, default: string)

  const START := State([], [], [], "1")

  predicate AllOpen(entries: seq<Entry>, s: seq<nat>) {
    forall k :: 0 <= k < |s| ==> s[k] < |entries| && entries[s[k]].open
  }

  function AddHeader(s: State, h: Header): Option<State> {
    if h.depth == 0 || h.depth > |s.stack| + 1 then None
    else
      var stack := s.stack[..h.depth - 1];
      var index := |s.entries|;
      Some(State(s.entries + [Entry(h.title, h.open, stack, [])],
                 stack + [index],
                 if AllOpen(s.entries, stack) then s.visible + [index] else s.visible,
                 s.default))
  }

  function AddLine(s: State, line: string): State {
    if s.entries != [] then
      var last := |s.entries| - 1;
      s.(entries := s.entries[last := s.entries[last].(lines := s.entries[last].lines + [line])])
    else match ParseDefault(line)
      case Some(d) => s.(default := d)
      case None => s
  }

  function Step(s: State, line: string): Option<State> {
    match ParseHeader(line)
    case Some(h) => AddHeader(s, h)
    case None => Some(AddLine(s, line))
  }

  function Run(s: State, lines: seq<string>): Option<State>
    decreases |lines|
  {
    if lines == [] then Some(s)
    else match Step(s, lines[0])
      case None => None
      case Some(next) => Run(next, lines[1..])
  }

  method ParseMenu(lines: seq<string>) returns (r: Option<State>)
    ensures r == Run(START, lines)
  {
    var entries: seq<Entry>, stack: seq<nat>, visible: seq<nat>, default := [], [], [], "1";
    assert lines[0..] == lines;
    for i := 0 to |lines|
      invariant Run(State(entries, stack, visible, default), lines[i..]) == Run(START, lines)
    {
      var line := lines[i];
      assert lines[i..][0] == line && lines[i..][1..] == lines[i + 1..];
      var header := ParseHeader(line);
      if header.Some? {
        var h := header.value;
        if h.depth == 0 || h.depth > |stack| + 1 {
          return None;
        }
        stack := stack[..h.depth - 1];
        var index := |entries|;
        if AllOpen(entries, stack) {
          visible := visible + [index];
        }
        entries := entries + [Entry(h.title, h.open, stack, [])];
        stack := stack + [index];
      } else if entries != [] {
        var last := |entries| - 1;
        entries := entries[last := entries[last].(lines := entries[last].lines + [line])];
      } else {
        var d := ParseDefault(line);
        if d.Some? {
          default := d.value;
        }
      }
    }
    return Some(State(entries, stack, visible, default));
  }

  // ----- the shape of a parsed menu

  function Depth(e: Entry): nat {
    |e.ancestors| + 1
  }

  // The nearest entry before i that is shallower than i.
  function Enclosing(entries: seq<Entry>, i: nat, below: nat): (r: Option<nat>)
    requires i < |entries| && below <= i
    ensures r.Some? ==> r.value < below && Depth(entries[r.value]) < Depth(entries[i])
    ensures forall j :: (if r.Some? then r.value + 1 else 0) <= j < below ==> Depth(entries[j]) >= Depth(entries[i])
  {
    if below == 0 then None
    else if Depth(entries[below - 1]) < Depth(entries[i]) then Some(below - 1)
    else Enclosing(entries, i, below - 1)
  }

  // The chain of nearest preceding shallower entries, outermost first.
  function Chain(entries: seq<Entry>, i: nat): seq<nat>
    requires i < |entries|
  {
    match Enclosing(entries, i, i)
    case None => []
    case Some(j) => Chain(entries, j) + [j]
  }

  // entry k of the stack is at depth k+1, hangs below the ones before it, and
  // everything after it is deeper.
  ghost predicate StackHolds(entries: seq<Entry>, stack: seq<nat>) {
    && (forall k :: 0 <= k < |stack| ==> stack[k] < |entries| && entries[stack[k]].ancestors == stack[..k])
    && (forall k, x :: 0 <= k < |stack| && stack[k] < x < |entries| ==> Depth(entries[x]) > k + 1)
    && (entries != [] ==> stack != [] && stack[|stack| - 1] == |entries| - 1)
  }

  // Ancestors are the entry's enclosing ones, and the first of them is the last
  // top-level entry before it.
  ghost predicate Placed(entries: seq<Entry>, i: nat)
    requires i < |entries|
  {
    var a := entries[i].ancestors;
    && (a == [] <==> Enclosing(entries, i, i).None?)
    && (forall k :: 0 <= k < |a| ==> a[k] < i && entries[a[k]].ancestors == a[..k])
    && (a != [] ==> Enclosing(entries, i, i) == Some(a[|a| - 1]))
    && (a != [] ==> forall x :: a[0] < x <= i ==> entries[x].ancestors != [])
  }

  ghost predicate VisibleIs(entries: seq<Entry>, visible: seq<nat>) {
    && (forall i :: i in visible <==> 0 <= i < |entries| && AllOpen(entries, entries[i].ancestors))
    && (forall i, j :: 0 <= i < j < |visible| ==> visible[i] < visible[j])
  }

  ghost predicate Parsed(s: State) {
    && StackHolds(s.entries, s.stack)
    && (forall i :: 0 <= i < |s.entries| ==> Placed(s.entries, i))
    && VisibleIs(s.entries, s.visible)
  }

  // Two menus that differ only in body lines are placed alike.
  ghost predicate SameShape(a: seq<Entry>, b: seq<Entry>) {
    |a| == |b| && forall i :: 0 <= i < |a| ==> a[i].ancestors == b[i].ancestors && a[i].open == b[i].open
  }

  lemma {:induction false} EnclosingOfPrefix(a: seq<Entry>, b: seq<Entry>, i: nat, below: nat)
    requires |a| <= |b| && i < |a| && below <= i
    requires forall k :: 0 <= k < |a| ==> a[k].ancestors == b[k].ancestors
    ensures Enclosing(a, i, below) == Enclosing(b, i, below)
    decreases below
  {
    if below > 0 { EnclosingOfPrefix(a, b, i, below - 1); }
  }

  lemma PlacedOfPrefix(a: seq<Entry>, b: seq<Entry>, i: nat)
    requires |a| <= |b| && i < |a| && Placed(a, i)
    requires forall k :: 0 <= k < |a| ==> a[k].ancestors == b[k].ancestors
    ensures Placed(b, i)
  {
    EnclosingOfPrefix(a, b, i, i);
  }

  lemma StackOfShape(a: seq<Entry>, b: seq<Entry>, stack: seq<nat>)
    requires SameShape(a, b) && StackHolds(a, stack)
    ensures StackHolds(b, stack)
  {
  }

  lemma VisibleOfShape(a: seq<Entry>, b: seq<Entry>, visible: seq<nat>)
    requires SameShape(a, b) && VisibleIs(a, visible)
    ensures VisibleIs(b, visible)
  {
    forall i | 0 <= i < |a| ensures AllOpen(a, a[i].ancestors) <==> AllOpen(b, b[i].ancestors) {
    }
  }

  lemma AddLineShape(s: State, line: string)
    ensures SameShape(s.entries, AddLine(s, line).entries)
    ensures AddLine(s, line).stack == s.stack && AddLine(s, line).visible == s.visible
  {
  }

  lemma ShapeKeepsParsed(s: State, r: State)
    requires Parsed(s) && SameShape(s.entries, r.entries) && r.stack == s.stack && r.visible == s.visible
    ensures Parsed(r)
  {
    forall i | 0 <= i < |r.entries| ensures Placed(r.entries, i) {
      PlacedOfPrefix(s.entries, r.entries, i);
    }
    StackOfShape(s.entries, r.entries, s.stack);
    VisibleOfShape(s.entries, r.entries, s.visible);
  }

  lemma LineKeepsParsed(s: State, line: string)
    requires Parsed(s)
    ensures Parsed(AddLine(s, line))
  {
    AddLineShape(s, line);
    ShapeKeepsParsed(s, AddLine(s, line));
  }

  lemma HeaderKeepsParsed(s: State, h: Header)
    requires Parsed(s) && AddHeader(s, h).Some?
    ensures Parsed(AddHeader(s, h).value)
  {
    var next := AddHeader(s, h).value;
    NewEntryPlaced(s, h);
    forall i | 0 <= i < |next.entries| ensures Placed(next.entries, i) {
      if i < |s.entries| { PlacedOfPrefix(s.entries, next.entries, i); }
    }
    NewStackHolds(s, h);
    AncestorsInside(s.entries);
    NewVisible(s, h);
  }

  lemma NewStackHolds(s: State, h: Header)
    requires Parsed(s) && AddHeader(s, h).Some?
    ensures StackHolds(AddHeader(s, h).value.entries, AddHeader(s, h).value.stack)
  {
    StackWithOneMore(s.entries, s.stack, Entry(h.title, h.open, s.stack[..h.depth - 1], []));
  }

  lemma StackWithOneMore(entries: seq<Entry>, stack: seq<nat>, e: Entry)
    requires StackHolds(entries, stack) && e.ancestors <= stack
    ensures StackHolds(entries + [e], e.ancestors + [|entries|])
  {
    var all, top := entries + [e], e.ancestors + [|entries|];
    forall k | 0 <= k < |top| ensures top[k] < |all| && all[top[k]].ancestors == top[..k] {
      if k < |e.ancestors| { assert top[k] == stack[k] && stack[..k] == top[..k]; }
    }
    forall k, x | 0 <= k < |top| && top[k] < x < |all| ensures Depth(all[x]) > k + 1 {
      assert top[k] == stack[k];
    }
  }

  lemma NewEntryPlaced(s: State, h: Header)
    requires Parsed(s) && AddHeader(s, h).Some?
    ensures Placed(AddHeader(s, h).value.entries, |s.entries|)
  {
    PlacedAtEnd(s.entries, s.stack, Entry(h.title, h.open, s.stack[..h.depth - 1], []));
  }

  lemma PlacedAtEnd(entries: seq<Entry>, stack: seq<nat>, e: Entry)
    requires StackHolds(entries, stack) && e.ancestors <= stack
    ensures Placed(entries + [e], |entries|)
  {
    var all, n, a := entries + [e], |entries|, e.ancestors;
    forall k | 0 <= k < |a| ensures a[k] < n && all[a[k]].ancestors == a[..k] {
      assert a[k] == stack[k] && stack[..k] == a[..k];
    }
    if a != [] {
      EnclosedByTop(entries, stack, e);
      forall x | a[0] < x <= n ensures all[x].ancestors != [] {
        if x < n { assert stack[0] < x; }
      }
    }
  }

  lemma {:induction false} EnclosingIs(entries: seq<Entry>, i: nat, p: nat, below: nat)
    requires p < below <= i < |entries| && Depth(entries[p]) < Depth(entries[i])
    requires forall x :: p < x < i ==> Depth(entries[x]) >= Depth(entries[i])
    ensures Enclosing(entries, i, below) == Some(p)
    decreases below
  {
    if below - 1 != p {
      assert Depth(entries[below - 1]) >= Depth(entries[i]);
      EnclosingIs(entries, i, p, below - 1);
    }
  }

  lemma EnclosedByTop(entries: seq<Entry>, stack: seq<nat>, e: Entry)
    requires StackHolds(entries, stack) && e.ancestors <= stack && e.ancestors != []
    ensures Enclosing(entries + [e], |entries|, |entries|) == Some(e.ancestors[|e.ancestors| - 1])
  {
    var all, n, k := entries + [e], |entries|, |e.ancestors| - 1;
    var p := stack[k];
    assert p == e.ancestors[k] && entries[p].ancestors == stack[..k];
    forall x | p < x < n ensures Depth(all[x]) >= Depth(all[n]) {
      assert Depth(entries[x]) > k + 1;
    }
    EnclosingIs(all, n, p, n);
  }

  lemma NewVisible(s: State, h: Header)
    requires VisibleIs(s.entries, s.visible) && Inside(s.entries, s.stack) && AddHeader(s, h).Some?
    requires forall i :: 0 <= i < |s.entries| ==> Inside(s.entries, s.entries[i].ancestors)
    ensures VisibleIs(AddHeader(s, h).value.entries, AddHeader(s, h).value.visible)
  {
    var e, next := Entry(h.title, h.open, s.stack[..h.depth - 1], []), AddHeader(s, h).value;
    assert Inside(s.entries, e.ancestors);
    VisibleWithOneMore(s.entries, s.visible, e);
    assert next.entries == s.entries + [e];
    assert next.visible == if AllOpen(s.entries, e.ancestors) then s.visible + [|s.entries|] else s.visible;
  }

  lemma AncestorsInside(entries: seq<Entry>)
    requires forall i :: 0 <= i < |entries| ==> Placed(entries, i)
    ensures forall i :: 0 <= i < |entries| ==> Inside(entries, entries[i].ancestors)
  {
    forall i | 0 <= i < |entries| ensures Inside(entries, entries[i].ancestors) {
      assert Placed(entries, i);
    }
  }

  ghost predicate Inside(entries: seq<Entry>, s: seq<nat>) {
    forall k :: 0 <= k < |s| ==> s[k] < |entries|
  }

  lemma VisibleWithOneMore(entries: seq<Entry>, visible: seq<nat>, e: Entry)
    requires VisibleIs(entries, visible) && Inside(entries, e.ancestors)
    requires forall i :: 0 <= i < |entries| ==> Inside(entries, entries[i].ancestors)
    ensures VisibleIs(entries + [e], if AllOpen(entries, e.ancestors) then visible + [|entries|] else visible)
  {
    var all := entries + [e];
    forall i | 0 <= i < |entries| ensures AllOpen(entries, entries[i].ancestors) <==> AllOpen(all, all[i].ancestors) {
    }
    assert AllOpen(entries, e.ancestors) <==> AllOpen(all, e.ancestors);
    forall i | 0 <= i < |visible| ensures visible[i] < |entries| {
      assert visible[i] in visible;
    }
  }

  lemma StepKeepsParsed(s: State, line: string)
    requires Parsed(s) && Step(s, line).Some?
    ensures Parsed(Step(s, line).value)
  {
    match ParseHeader(line)
    case Some(h) => HeaderKeepsParsed(s, h);
    case None => LineKeepsParsed(s, line);
  }

  lemma {:induction false} RunKeepsParsed(s: State, lines: seq<string>)
    requires Parsed(s) && Run(s, lines).Some?
    ensures Parsed(Run(s, lines).value)
    decreases |lines|
  {
    if lines != [] {
      StepKeepsParsed(s, lines[0]);
      RunKeepsParsed(Step(s, lines[0]).value, lines[1..]);
    }
  }

  // ----- main results on the parser

  lemma {:induction false} AncestorsAreChain(entries: seq<Entry>, i: nat)
    requires i < |entries| && forall k :: 0 <= k < |entries| ==> Placed(entries, k)
    ensures entries[i].ancestors == Chain(entries, i)
    decreases i
  {
    var a := entries[i].ancestors;
    assert Placed(entries, i);
    if a != [] {
      var p := a[|a| - 1];
      AncestorsAreChain(entries, p);
      assert a == a[..|a| - 1] + [p];
    }
  }

  // Every group around the entry is open.
  ghost predicate Shown(entries: seq<Entry>, i: nat)
    requires i < |entries|
  {
    forall a :: a in entries[i].ancestors ==> a < |entries| && entries[a].open
  }

  lemma ShownIsAllOpen(entries: seq<Entry>, i: nat)
    requires i < |entries|
    ensures Shown(entries, i) <==> AllOpen(entries, entries[i].ancestors)
  {
    var s := entries[i].ancestors;
    if AllOpen(entries, s) {
      forall a | a in s ensures a < |entries| && entries[a].open {
        var k :| 0 <= k < |s| && s[k] == a;
      }
    }
    if Shown(entries, i) {
      forall k | 0 <= k < |s| ensures s[k] < |entries| && entries[s[k]].open {
        assert s[k] in s;
      }
    }
  }

  // For every accepted menu text, an entry's ancestors are the nearest
  // preceding shallower headers, and the visible list has, in order, exactly the
  // entries all of whose ancestors are open.
  lemma MenuIsWellNested(lines: seq<string>)
    requires Run(START, lines).Some?
    ensures var entries := Run(START, lines).value.entries;
      forall i :: 0 <= i < |entries| ==> entries[i].ancestors == Chain(entries, i)
    ensures var s := Run(START, lines).value;
      forall i: nat :: i in s.visible <==> i < |s.entries| && Shown(s.entries, i)
    ensures var visible := Run(START, lines).value.visible;
      forall i, j :: 0 <= i < j < |visible| ==> visible[i] < visible[j]
  {
    RunKeepsParsed(START, lines);
    var entries := Run(START, lines).value.entries;
    forall i: nat | i < |entries| ensures Shown(entries, i) <==> AllOpen(entries, entries[i].ancestors) {
      ShownIsAllOpen(entries, i);
    }
    forall i | 0 <= i < |entries| ensures entries[i].ancestors == Chain(entries, i) {
      AncestorsAreChain(entries, i);
    }
  }

  // Header depths, in order.
  function Depths(lines: seq<string>): seq<nat> {
    if lines == [] then []
    else match ParseHeader(lines[0])
      case Some(h) => [h.depth] + Depths(lines[1..])
      case None => Depths(lines[1..])
  }

  ghost predicate LegalFrom(above: nat, depths: seq<nat>) {
    forall k :: 0 <= k < |depths| ==> 0 < depths[k] <= 1 + DepthBefore(above, depths, k)
  }

  function DepthBefore(above: nat, depths: seq<nat>, k: int): nat
    requires 0 <= k <= |depths|
  {
    if k == 0 then above else depths[k - 1]
  }

  lemma LegalSplit(above: nat, d: nat, rest: seq<nat>)
    ensures LegalFrom(above, [d] + rest) <==> 0 < d <= above + 1 && LegalFrom(d, rest)
  {
    var all := [d] + rest;
    assert all[0] == d && DepthBefore(above, all, 0) == above;
    forall k | 0 <= k < |rest|
      ensures all[k + 1] == rest[k] && DepthBefore(above, all, k + 1) == DepthBefore(d, rest, k)
    {
    }
    if LegalFrom(above, all) {
      forall k | 0 <= k < |rest| ensures 0 < rest[k] <= 1 + DepthBefore(d, rest, k) {
        assert 0 < all[k + 1] <= 1 + DepthBefore(above, all, k + 1);
      }
    }
    if 0 < d <= above + 1 && LegalFrom(d, rest) {
      forall k | 0 <= k < |all| ensures 0 < all[k] <= 1 + DepthBefore(above, all, k) {
        if k > 0 { assert 0 < rest[k - 1] <= 1 + DepthBefore(d, rest, k - 1); }
      }
    }
  }

  // The parser refuses exactly the menus where a header skips a level.
  lemma {:induction false} RefusedIffSkipsLevel(s: State, lines: seq<string>)
    ensures Run(s, lines).Some? <==> LegalFrom(|s.stack|, Depths(lines))
    decreases |lines|
  {
    if lines != [] {
      match ParseHeader(lines[0])
      case Some(h) =>
        LegalSplit(|s.stack|, h.depth, Depths(lines[1..]));
        if AddHeader(s, h).Some? { RefusedIffSkipsLevel(AddHeader(s, h).value, lines[1..]); }
      case None => RefusedIffSkipsLevel(AddLine(s, lines[0]), lines[1..]);
    }
  }

  // ----- snapshot

  datatype Title = Title(title: string, open: bool, ancestors: seq<nat>)

  datatype Foreign = Foreign(title: string, lines: seq<string>)

  datatype Snapshot = Snapshot(entries: seq<Title>, selected: nat, files: map<string, string>, foreign: seq<Foreign>)

  predicate IsDecimal(s: string) {
    s != [] && Digits(s)
  }

  function Position(default: string): int {
    if DecimalValue(default) >= 1 then DecimalValue(default) - 1 else 0
  }

  function OwnGroup(entries: seq<Entry>, selected: nat): nat
    requires selected < |entries|
  {
    if entries[selected].ancestors != [] then entries[selected].ancestors[0] else selected
  }

  predicate InGroup(entries: seq<Entry>, own: nat, i: nat)
    requires i < |entries|
  {
    i == own || own in entries[i].ancestors
  }

  function TitlesOf(entries: seq<Entry>): (r: seq<Title>)
    ensures |r| == |entries|
    ensures forall i :: 0 <= i < |r| ==> r[i] == Title(entries[i].title, entries[i].open, entries[i].ancestors)
  {
    seq(|entries|, i requires 0 <= i < |entries| => Title(entries[i].title, entries[i].open, entries[i].ancestors))
  }

  function ForeignOf(entries: seq<Entry>, own: nat, upto: nat): seq<Foreign>
    requires upto <= |entries|
  {
    if upto == 0 then []
    else
      var rest := ForeignOf(entries, own, upto - 1);
      var e := entries[upto - 1];
      if InGroup(entries, own, upto - 1) then rest else rest + [Foreign(e.title, e.lines)]
  }

  // The entry default_entry chooses among the visible ones, counted from one.
  function Selected(s: State): Option<nat> {
    if !IsDecimal(s.default) then None
    else if Position(s.default) >= |s.visible| then None
    else if s.visible[Position(s.default)] >= |s.entries| then None
    else Some(s.visible[Position(s.default)])
  }

  type Loader = seq<string> -> Option<map<string, string>>

  // load stands for the checks of the selected entry's files against the ESP:
  // the verified path to digest map, or nothing when a check fails.
  function SnapshotOf(lines: seq<string>, load: Loader): Option<Snapshot> {
    match Run(START, lines)
    case None => None
    case Some(s) => match Selected(s)
      case None => None
      case Some(selected) => match load(s.entries[selected].lines)
        case None => None
        case Some(files) =>
          Some(Snapshot(TitlesOf(s.entries), selected, files,
                        ForeignOf(s.entries, OwnGroup(s.entries, selected), |s.entries|)))
  }

  method SelectDefault(s: State) returns (r: Option<nat>)
    requires Parsed(s)
    ensures r == Selected(s)
  {
    if s.entries == [] || !IsDecimal(s.default) {
      assert s.visible != [] ==> s.visible[0] in s.visible;
      return None;
    }
    var position := Position(s.default);
    if position >= |s.visible| {
      return None;
    }
    assert s.visible[position] in s.visible;
    return Some(s.visible[position]);
  }

  // How many of the first n entries are shown.
  function CountVisible(entries: seq<Entry>, n: nat): nat
    requires n <= |entries|
  {
    if n == 0 then 0
    else CountVisible(entries, n - 1) + if AllOpen(entries, entries[n - 1].ancestors) then 1 else 0
  }

  // The visible list up to the place counted is what lies before entry n.
  lemma {:induction false} CountedSplit(entries: seq<Entry>, visible: seq<nat>, n: nat)
    requires VisibleIs(entries, visible) && n <= |entries|
    ensures var k := CountVisible(entries, n);
      && k <= |visible|
      && (forall i :: 0 <= i < k ==> visible[i] < n)
      && (forall i :: k <= i < |visible| ==> n <= visible[i] < |entries|)
    decreases n
  {
    if n == 0 {
      assert forall i :: 0 <= i < |visible| ==> visible[i] in visible;
    } else {
      CountedSplit(entries, visible, n - 1);
      var k := CountVisible(entries, n - 1);
      if AllOpen(entries, entries[n - 1].ancestors) {
        var i :| 0 <= i < |visible| && visible[i] == n - 1;
        assert i >= k && visible[k] >= n - 1;
      } else {
        assert forall i :: k <= i < |visible| ==> visible[i] in visible && visible[i] != n - 1;
      }
    }
  }

  lemma ShownAt(entries: seq<Entry>, visible: seq<nat>, n: nat, k: nat)
    requires VisibleIs(entries, visible) && n < |entries| && k < |visible|
    ensures visible[k] == n <==> AllOpen(entries, entries[n].ancestors) && CountVisible(entries, n) == k
  {
    CountedSplit(entries, visible, n);
    if visible[k] == n {
      assert n in visible;
      CountedSplit(entries, visible, n + 1);
    } else if AllOpen(entries, entries[n].ancestors) {
      CountedSplit(entries, visible, n + 1);
    }
  }

  lemma AllShown(entries: seq<Entry>, visible: seq<nat>)
    requires VisibleIs(entries, visible)
    ensures CountVisible(entries, |entries|) == |visible|
  {
    var n := |entries|;
    var k := CountVisible(entries, n);
    var next := if k < |visible| then visible[k] else 0;
    CountedSplit(entries, visible, n);
  }

  lemma NthVisible(entries: seq<Entry>, visible: seq<nat>, k: nat, n: nat)
    requires VisibleIs(entries, visible) && n < |entries|
    ensures CountVisible(entries, |entries|) == |visible|
    ensures k < |visible| ==> visible[k] < |entries|
    ensures k < |visible| && visible[k] == n <==>
              AllOpen(entries, entries[n].ancestors) && CountVisible(entries, n) == k
  {
    AllShown(entries, visible);
    if k < |visible| {
      ShownAt(entries, visible, n, k);
      assert visible[k] in visible;
    } else {
      CountedSplit(entries, visible, n + 1);
    }
  }

  ghost function ShownBefore(entries: seq<Entry>, n: nat): set<nat>
    requires n <= |entries|
  {
    set i: nat | i < n && Shown(entries, i)
  }

  lemma OneMoreShown(entries: seq<Entry>, n: nat)
    requires n < |entries|
    ensures |ShownBefore(entries, n + 1)| == |ShownBefore(entries, n)| + if Shown(entries, n) then 1 else 0
  {
    var front, all := ShownBefore(entries, n), ShownBefore(entries, n + 1);
    forall i: nat ensures i in all <==> i in front || (i == n && Shown(entries, n)) {
    }
    assert n !in front;
    assert all == if Shown(entries, n) then front + {n} else front;
  }

  lemma {:induction false} CountIsShown(entries: seq<Entry>, n: nat)
    requires n <= |entries|
    ensures |ShownBefore(entries, n)| == CountVisible(entries, n)
    decreases n
  {
    if n == 0 {
      assert ShownBefore(entries, n) == {};
    } else {
      CountIsShown(entries, n - 1);
      ShownIsAllOpen(entries, n - 1);
      OneMoreShown(entries, n - 1);
    }
  }

  // The number a menu counts its shown entries by: 1 is the first, and so is 0.
  // The entry chosen is the shown one with the others that come first before it,
  // and there is none exactly when default_entry is no number or past the last.
  lemma DefaultIsNthVisible(s: State, n: nat)
    requires VisibleIs(s.entries, s.visible) && n < |s.entries|
    ensures var v := DecimalValue(s.default);
      Selected(s) == Some(n) <==>
        && s.default != [] && Digits(s.default) && Shown(s.entries, n)
        && |ShownBefore(s.entries, n)| == if v >= 1 then v - 1 else 0
    ensures var v := DecimalValue(s.default);
      Selected(s).None? <==>
        || s.default == [] || !Digits(s.default)
        || |ShownBefore(s.entries, |s.entries|)| < if v >= 1 then v else 1
  {
    NthVisible(s.entries, s.visible, Position(s.default), n);
    ShownIsAllOpen(s.entries, n);
    CountIsShown(s.entries, n);
    CountIsShown(s.entries, |s.entries|);
  }

  method ForeignEntries(entries: seq<Entry>, own: nat) returns (foreign: seq<Foreign>)
    ensures foreign == ForeignOf(entries, own, |entries|)
  {
    foreign := [];
    for i := 0 to |entries|
      invariant foreign == ForeignOf(entries, own, i)
    {
      if i != own && own !in entries[i].ancestors {
        foreign := foreign + [Foreign(entries[i].title, entries[i].lines)];
      }
    }
  }

  method TakeSnapshot(lines: seq<string>, load: Loader) returns (r: Option<Snapshot>)
    ensures r == SnapshotOf(lines, load)
  {
    var menu := ParseMenu(lines);
    if menu.None? {
      return None;
    }
    var s := menu.value;
    RunKeepsParsed(START, lines);
    var selected := SelectDefault(s);
    if selected.None? {
      return None;
    }
    var files := load(s.entries[selected.value].lines);
    if files.None? {
      return None;
    }
    var foreign := ForeignEntries(s.entries, OwnGroup(s.entries, selected.value));
    return Some(Snapshot(TitlesOf(s.entries), selected.value, files.value, foreign));
  }

  // ----- compare

  datatype Verdict = Same | Changed(key: string) | FilesChanged

  method Compare(before: Snapshot, after: Snapshot) returns (v: Verdict)
    ensures v == Compared(before, after)
  {
    if before.entries != after.entries { return Changed("entries"); }
    if before.selected != after.selected { return Changed("selected"); }
    if before.foreign != after.foreign { return Changed("foreign"); }
    if before.files.Keys != after.files.Keys { return FilesChanged; }
    return Same;
  }

  function Compared(before: Snapshot, after: Snapshot): Verdict {
    if before.entries != after.entries then Changed("entries")
    else if before.selected != after.selected then Changed("selected")
    else if before.foreign != after.foreign then Changed("foreign")
    else if before.files.Keys != after.files.Keys then FilesChanged
    else Same
  }

  // The selected group is one run of indexes that starts at a top-level entry.
  lemma GroupIsContiguous(entries: seq<Entry>, selected: nat, i: nat, j: nat)
    requires selected < |entries| && i <= j < |entries|
    requires forall k :: 0 <= k < |entries| ==> Placed(entries, k)
    ensures var own := OwnGroup(entries, selected);
      && own < |entries| && entries[own].ancestors == [] && InGroup(entries, own, selected)
      && (InGroup(entries, own, i) ==> own <= i)
      && (own <= i && InGroup(entries, own, j) ==> InGroup(entries, own, i))
  {
    var own := OwnGroup(entries, selected);
    assert Placed(entries, selected) && Placed(entries, i) && Placed(entries, j);
    var a := entries[j].ancestors;
    if own in a && own < i {
      OnlyFirstIsTop(entries, j, own);
      assert entries[i].ancestors != [];
      var b := entries[i].ancestors[0];
      assert entries[b].ancestors == [];
    }
  }

  lemma OnlyFirstIsTop(entries: seq<Entry>, j: nat, own: nat)
    requires j < |entries| && Placed(entries, j) && own in entries[j].ancestors
    requires own < |entries| && entries[own].ancestors == []
    ensures entries[j].ancestors[0] == own
  {
    var a := entries[j].ancestors;
    var k :| 0 <= k < |a| && a[k] == own;
    assert entries[a[k]].ancestors == a[..k];
  }

  // The group is the last top-level entry at or before the selected one, and all
  // that follows it up to the next top-level entry.
  lemma GroupIsUntilNextTop(entries: seq<Entry>, selected: nat, i: nat)
    requires selected < |entries| && i < |entries|
    requires forall k :: 0 <= k < |entries| ==> Placed(entries, k)
    ensures var own := OwnGroup(entries, selected);
      && own <= selected && entries[own].ancestors == []
      && (forall x :: own < x <= selected ==> entries[x].ancestors != [])
      && (InGroup(entries, own, i) <==> own <= i && forall x :: own < x <= i ==> entries[x].ancestors != [])
  {
    var own := OwnGroup(entries, selected);
    assert Placed(entries, selected) && Placed(entries, i);
    var a := entries[i].ancestors;
    if own in a {
      OnlyFirstIsTop(entries, i, own);
    }
    if own < i && forall x :: own < x <= i ==> entries[x].ancestors != [] {
      assert entries[i].ancestors != [];
      assert entries[a[0]].ancestors == [];
      assert a[0] == own;
    }
  }

  // ----- comparing two snapshots

  lemma {:induction false} ForeignEqualIff(a: seq<Entry>, b: seq<Entry>, own: nat, upto: nat)
    requires TitlesOf(a) == TitlesOf(b) && upto <= |a|
    ensures ForeignOf(a, own, upto) == ForeignOf(b, own, upto) <==>
      forall i :: 0 <= i < upto && !InGroup(a, own, i) ==> a[i].lines == b[i].lines
    ensures |ForeignOf(a, own, upto)| == |ForeignOf(b, own, upto)|
    decreases upto
  {
    SameTitles(a, b);
    if upto > 0 {
      ForeignEqualIff(a, b, own, upto - 1);
      if !InGroup(a, own, upto - 1) {
        SnocEqual(ForeignOf(a, own, upto - 1), Foreign(a[upto - 1].title, a[upto - 1].lines),
                  ForeignOf(b, own, upto - 1), Foreign(b[upto - 1].title, b[upto - 1].lines));
      }
    }
  }

  lemma SnocEqual(s: seq<Foreign>, x: Foreign, t: seq<Foreign>, y: Foreign)
    requires |s| == |t|
    ensures s + [x] == t + [y] <==> s == t && x == y
  {
    if s + [x] == t + [y] {
      assert s == (s + [x])[..|s|] && t == (t + [y])[..|t|];
      assert x == (s + [x])[|s|] && y == (t + [y])[|t|];
    }
  }

  predicate AlikeButLines(a: Entry, b: Entry) {
    a.title == b.title && a.open == b.open && a.ancestors == b.ancestors
  }

  lemma SameTitles(a: seq<Entry>, b: seq<Entry>)
    requires TitlesOf(a) == TitlesOf(b)
    ensures |a| == |b|
    ensures forall i :: 0 <= i < |a| ==> AlikeButLines(a[i], b[i])
  {
    forall i | 0 <= i < |a| ensures AlikeButLines(a[i], b[i]) {
      assert TitlesOf(a)[i] == TitlesOf(b)[i];
    }
  }

  // What the snapshot of a menu text refers to.
  lemma SnapshotParts(lines: seq<string>, load: Loader)
    requires SnapshotOf(lines, load).Some?
    ensures Run(START, lines).Some?
    ensures var n := SnapshotOf(lines, load).value;
      var entries := Run(START, lines).value.entries;
      && n.selected < |entries| && AllOpen(entries, entries[n.selected].ancestors)
      && n.entries == TitlesOf(entries)
      && n.foreign == ForeignOf(entries, OwnGroup(entries, n.selected), |entries|)
      && load(entries[n.selected].lines) == Some(n.files)
    ensures forall i :: 0 <= i < |Run(START, lines).value.entries| ==> Placed(Run(START, lines).value.entries, i)
  {
    RunKeepsParsed(START, lines);
    var s := Run(START, lines).value;
    assert s.visible[Position(s.default)] in s.visible;
  }

  // A snapshot is taken of every menu that parses, whose default is shown and
  // whose default's files pass the checks.
  lemma SnapshotExistsIff(lines: seq<string>, load: Loader)
    ensures SnapshotOf(lines, load).Some? <==>
              && Run(START, lines).Some? && Selected(Run(START, lines).value).Some?
              && load(Run(START, lines).value.entries[Selected(Run(START, lines).value).value].lines).Some?
  {
  }

  // Two snapshots are accepted exactly when the same entry is selected, the
  // trees of titles agree, and outside the selected group, which is then the
  // same run of indexes in both, every entry is identical to the last line.
  lemma CompareAcceptsIff(before: seq<string>, after: seq<string>,
                          load: Loader, load': Loader)
    requires SnapshotOf(before, load).Some? && SnapshotOf(after, load').Some?
    ensures Run(START, before).Some? && Run(START, after).Some?
    ensures var n, m := SnapshotOf(before, load).value, SnapshotOf(after, load').value;
      var a, b := Run(START, before).value.entries, Run(START, after).value.entries;
      && n.selected < |a| && OwnGroup(a, n.selected) < |a|
      && (Compared(n, m) == Same <==>
            && n.selected == m.selected && TitlesOf(a) == TitlesOf(b) && n.files.Keys == m.files.Keys
            && forall i :: 0 <= i < |a| && !InGroup(a, OwnGroup(a, n.selected), i) ==> a[i] == b[i])
  {
    SnapshotParts(before, load);
    SnapshotParts(after, load');
    var n, m := SnapshotOf(before, load).value, SnapshotOf(after, load').value;
    var a, b := Run(START, before).value.entries, Run(START, after).value.entries;
    GroupIsContiguous(a, n.selected, 0, 0);
    if n.selected == m.selected && TitlesOf(a) == TitlesOf(b) {
      SameTitles(a, b);
      ForeignEqualIff(a, b, OwnGroup(a, n.selected), |a|);
    }
  }

  // The group an accepted comparison leaves free is the same in both menus.
  lemma AcceptedGroupsAgree(before: seq<string>, after: seq<string>,
                            load: Loader, load': Loader, i: nat)
    requires SnapshotOf(before, load).Some? && SnapshotOf(after, load').Some?
    requires Compared(SnapshotOf(before, load).value, SnapshotOf(after, load').value) == Same
    requires Run(START, before).Some? && i < |Run(START, before).value.entries|
    ensures Run(START, after).Some? && i < |Run(START, after).value.entries|
    ensures var n, m := SnapshotOf(before, load).value, SnapshotOf(after, load').value;
      var a, b := Run(START, before).value.entries, Run(START, after).value.entries;
      && n.selected < |a| && m.selected < |b| && OwnGroup(a, n.selected) == OwnGroup(b, m.selected)
      && (InGroup(a, OwnGroup(a, n.selected), i) <==> InGroup(b, OwnGroup(b, m.selected), i))
  {
    SnapshotParts(before, load);
    SnapshotParts(after, load');
    SameTitles(Run(START, before).value.entries, Run(START, after).value.entries);
  }
}
