// Printing a menu tree and parsing it gives the tree back.
module LimineForest {
  import opened Wrappers
  import opened Text
  import opened LimineBoot

  // A level of the menu: its first entry, what is below it, and what follows.
  datatype Forest = Empty | Group(title: string, open: bool, lines: seq<string>, below: Forest, next: Forest)

  function Repeat(c: char, n: nat): string {
    if n == 0 then "" else [c] + Repeat(c, n - 1)
  }

  function HeaderLine(depth: nat, open: bool, title: string): string {
    Repeat('/', depth) + (if open then "+" else "") + title
  }

  function Print(f: Forest, depth: nat): seq<string> {
    match f
    case Empty => []
    case Group(title, open, lines, below, next) =>
      [HeaderLine(depth, open, title)] + lines + Print(below, depth + 1) + Print(next, depth)
  }

  // The entries a forest stands for, added after the given ones; an entry's
  // ancestors are numbered by position.
  function Flatten(f: Forest, ancestors: seq<nat>, before: seq<Entry>): seq<Entry>
    decreases f
  {
    match f
    case Empty => before
    case Group(title, open, lines, below, next) =>
      var kids := Flatten(below, ancestors + [|before|], before + [Entry(title, open, ancestors, lines)]);
      Flatten(next, ancestors, kids)
  }

  // ----- which titles survive the header syntax

  predicate Printable(open: bool, title: string) {
    && title != [] && title[0] != '/'
    && !IsSpace(title[0]) && !IsSpace(title[|title| - 1])
    && (open || title[0] != '+' || |title| == 1 || title[1] == '/')
  }

  lemma {:induction false} RepeatSlashes(n: nat, rest: string)
    requires rest == [] || rest[0] != '/'
    ensures CountSlashes(Repeat('/', n) + rest) == n
    ensures |Repeat('/', n)| == n && (n > 0 ==> Repeat('/', n)[0] == '/')
    decreases n
  {
    if n > 0 {
      RepeatSlashes(n - 1, rest);
      assert Repeat('/', n) + rest == ['/'] + (Repeat('/', n - 1) + rest);
    } else {
      assert Repeat('/', n) + rest == rest;
    }
  }

  lemma StripNoSpace(s: string)
    ensures Strip(s) == s <==> s == [] || (!IsSpace(s[0]) && !IsSpace(s[|s| - 1]))
  {
    SkipSpaceShorter(s);
    DropSpaceShorter(SkipSpace(s));
    DropSpaceShorter(s);
  }

  lemma SkipSpaceShorter(s: string)
    ensures |SkipSpace(s)| <= |s| && (|SkipSpace(s)| == |s| <==> SkipSpace(s) == s)
    ensures s != [] && IsSpace(s[0]) ==> |SkipSpace(s)| < |s|
  {
  }

  lemma DropSpaceShorter(s: string)
    ensures |DropSpaceEnd(s)| <= |s| && (|DropSpaceEnd(s)| == |s| <==> DropSpaceEnd(s) == s)
    ensures s != [] && IsSpace(s[|s| - 1]) ==> |DropSpaceEnd(s)| < |s|
  {
  }

  // A header line means its own depth, flag and title exactly when the title is
  // stripped, does not start with a slash, and does not itself look opened.
  lemma HeaderRoundTrip(depth: nat, open: bool, title: string)
    requires depth > 0
    ensures ParseHeader(HeaderLine(depth, open, title)) == Some(Header(depth, open, title)) <==> Printable(open, title)
  {
    if open { OpenRoundTrip(depth, title); } else { ClosedRoundTrip(depth, title); }
  }

  lemma OpenRoundTrip(depth: nat, title: string)
    requires depth > 0
    ensures ParseHeader(HeaderLine(depth, true, title)) == Some(Header(depth, true, title)) <==> Printable(true, title)
  {
    var rest := "+" + title;
    assert HeaderLine(depth, true, title) == Repeat('/', depth) + rest;
    HeaderParses(depth, rest, HeaderLine(depth, true, title));
    assert rest[1..] == title;
    StripNoSpace(title);
  }

  lemma ClosedRoundTrip(depth: nat, title: string)
    requires depth > 0
    ensures ParseHeader(HeaderLine(depth, false, title)) == Some(Header(depth, false, title)) <==>
              Printable(false, title)
  {
    var line := HeaderLine(depth, false, title);
    assert line == Repeat('/', depth) + title;
    StripNoSpace(title);
    if title != [] && title[0] == '/' {
      TooManySlashes(depth, title);
      RepeatSlashes(depth, []);
      assert line[0] == '/';
      assert SkipSpace(line) == line;
    } else {
      HeaderParses(depth, title, line);
    }
  }

  // What a header line with all its slashes counted parses to.
  lemma HeaderParses(depth: nat, rest: string, line: string)
    requires depth > 0 && (rest == [] || rest[0] != '/') && line == Repeat('/', depth) + rest
    ensures ParseHeader(line) ==
      if rest == [] then None
      else if rest[0] == '+' && |rest| > 1 && rest[1] != '/' then Some(Header(depth, true, Strip(rest[1..])))
      else Some(Header(depth, false, Strip(rest)))
  {
    RepeatSlashes(depth, rest);
    assert line[0] == '/';
    assert SkipSpace(line) == line;
    assert line[depth..] == rest;
  }

  lemma {:induction false} TooManySlashes(depth: nat, rest: string)
    requires rest != [] && rest[0] == '/'
    ensures CountSlashes(Repeat('/', depth) + rest) > depth
    decreases depth
  {
    if depth > 0 {
      TooManySlashes(depth - 1, rest);
      assert Repeat('/', depth) + rest == ['/'] + (Repeat('/', depth - 1) + rest);
    } else {
      assert Repeat('/', 0) + rest == rest;
    }
  }

  // ----- parsing what was printed

  ghost predicate PrintableForest(f: Forest) {
    match f
    case Empty => true
    case Group(title, open, lines, below, next) =>
      && Printable(open, title)
      && (forall i :: 0 <= i < |lines| ==> ParseHeader(lines[i]).None?)
      && PrintableForest(below) && PrintableForest(next)
  }

  lemma {:induction false} RunTwice(s: State, a: seq<string>, b: seq<string>)
    ensures Run(s, a + b) == match Run(s, a) { case None => None case Some(m) => Run(m, b) }
    decreases |a|
  {
    if a == [] {
      assert a + b == b;
    } else {
      assert (a + b)[0] == a[0] && (a + b)[1..] == a[1..] + b;
      if Step(s, a[0]).Some? { RunTwice(Step(s, a[0]).value, a[1..], b); }
    }
  }

  lemma {:induction false} RunBody(s: State, lines: seq<string>)
    requires s.entries != [] && forall i :: 0 <= i < |lines| ==> ParseHeader(lines[i]).None?
    ensures var last := |s.entries| - 1;
      Run(s, lines) == Some(s.(entries := s.entries[last := s.entries[last].(lines := s.entries[last].lines + lines)]))
    decreases |lines|
  {
    var last := |s.entries| - 1;
    if lines == [] {
      assert s.entries[last].lines + lines == s.entries[last].lines;
      assert s.entries[last := s.entries[last]] == s.entries;
    } else {
      var m := AddLine(s, lines[0]);
      RunBody(m, lines[1..]);
      assert s.entries[last].lines + [lines[0]] + lines[1..] == s.entries[last].lines + lines;
      assert m.entries[last := s.entries[last].(lines := s.entries[last].lines + lines)]
          == s.entries[last := s.entries[last].(lines := s.entries[last].lines + lines)];
    }
  }

  // What parsing a level below the given ancestors does to the state.
  ghost predicate Added(s: State, r: Option<State>, f: Forest, ancestors: seq<nat>) {
    && r.Some?
    && r.value.entries == Flatten(f, ancestors, s.entries)
    && ancestors <= r.value.stack
    && r.value.default == s.default
  }

  lemma RunInTurn(s: State, a: seq<string>, s1: State, b: seq<string>, s2: State, c: seq<string>,
                  s3: State, d: seq<string>)
    requires Run(s, a) == Some(s1) && Run(s1, b) == Some(s2) && Run(s2, c) == Some(s3)
    ensures Run(s, a + b + c + d) == Run(s3, d)
  {
    RunTwice(s, a, b);
    RunTwice(s, a + b, c);
    RunTwice(s, a + b + c, d);
  }

  lemma HeaderRuns(s: State, depth: nat, open: bool, title: string)
    requires Printable(open, title) && 0 < depth <= |s.stack| + 1
    ensures Run(s, [HeaderLine(depth, open, title)]) == AddHeader(s, Header(depth, open, title))
  {
    HeaderRoundTrip(depth, open, title);
    assert [HeaderLine(depth, open, title)][1..] == [];
  }

  // The state once a group's header and body have been read.
  lemma GroupStarts(s: State, f: Forest, ancestors: seq<nat>) returns (s1: State, s2: State)
    requires f.Group? && PrintableForest(f) && ancestors <= s.stack
    ensures Run(s, [HeaderLine(|ancestors| + 1, f.open, f.title)]) == Some(s1)
    ensures Run(s1, f.lines) == Some(s2)
    ensures s2.entries == s.entries + [Entry(f.title, f.open, ancestors, f.lines)]
    ensures s2.stack == ancestors + [|s.entries|] && s2.default == s.default
  {
    HeaderRuns(s, |ancestors| + 1, f.open, f.title);
    s1 := AddHeader(s, Header(|ancestors| + 1, f.open, f.title)).value;
    assert s.stack[..|ancestors|] == ancestors;
    RunBody(s1, f.lines);
    s2 := Run(s1, f.lines).value;
    assert [] + f.lines == f.lines;
  }

  lemma PrefixOf(a: seq<nat>, x: nat, s: seq<nat>)
    requires a + [x] <= s
    ensures a <= s
  {
  }

  lemma {:induction false} PrintedLevelParses(s: State, f: Forest, ancestors: seq<nat>)
    requires PrintableForest(f) && ancestors <= s.stack
    ensures Added(s, Run(s, Print(f, |ancestors| + 1)), f, ancestors)
    decreases f
  {
    if f.Group? {
      var own := ancestors + [|s.entries|];
      var s1, s2 := GroupStarts(s, f, ancestors);
      PrintedLevelParses(s2, f.below, own);
      var s3 := Run(s2, Print(f.below, |own| + 1)).value;
      PrefixOf(ancestors, |s.entries|, s3.stack);
      PrintedLevelParses(s3, f.next, ancestors);
      RunInTurn(s, [HeaderLine(|ancestors| + 1, f.open, f.title)], s1, f.lines, s2,
                Print(f.below, |ancestors| + 2), s3, Print(f.next, |ancestors| + 1));
    }
  }

  // ----- reading the forest back from the entries

  // The level at the given depth that starts at entry i, and where it ends.
  function Rebuild(entries: seq<Entry>, i: nat, depth: nat): (r: (Forest, nat))
    requires i <= |entries|
    ensures i <= r.1 <= |entries|
    decreases |entries| - i
  {
    if i == |entries| || Depth(entries[i]) != depth then (Empty, i)
    else
      var e := entries[i];
      var (below, j) := Rebuild(entries, i + 1, depth + 1);
      var (next, k) := Rebuild(entries, j, depth);
      (Group(e.title, e.open, e.lines, below, next), k)
  }

  lemma {:induction false} FlattenExtends(f: Forest, ancestors: seq<nat>, before: seq<Entry>)
    ensures before <= Flatten(f, ancestors, before)
    ensures f.Group? ==> before + [Entry(f.title, f.open, ancestors, f.lines)] <= Flatten(f, ancestors, before)
    decreases f
  {
    if f.Group? {
      var e := before + [Entry(f.title, f.open, ancestors, f.lines)];
      FlattenExtends(f.below, ancestors + [|before|], e);
      FlattenExtends(f.next, ancestors, Flatten(f.below, ancestors + [|before|], e));
    }
  }

  // Whatever follows on a shallower level, the level is read back.
  lemma {:induction false} FlattenRebuilds(f: Forest, ancestors: seq<nat>, before: seq<Entry>, all: seq<Entry>)
    requires Flatten(f, ancestors, before) <= all
    requires var n := |Flatten(f, ancestors, before)|; n == |all| || Depth(all[n]) <= |ancestors|
    ensures |before| <= |all| && Rebuild(all, |before|, |ancestors| + 1) == (f, |Flatten(f, ancestors, before)|)
    decreases f
  {
    FlattenExtends(f, ancestors, before);
    if f.Group? {
      var n := |before|;
      var e := before + [Entry(f.title, f.open, ancestors, f.lines)];
      var kids := Flatten(f.below, ancestors + [n], e);
      FlattenExtends(f.below, ancestors + [n], e);
      FlattenExtends(f.next, ancestors, kids);
      assert all[n] == e[n] && |ancestors + [n]| == |ancestors| + 1;
      NextStarts(f.next, ancestors, kids, all);
      FlattenRebuilds(f.below, ancestors + [n], e, all);
      FlattenRebuilds(f.next, ancestors, kids, all);
    }
  }

  lemma NextStarts(next: Forest, ancestors: seq<nat>, kids: seq<Entry>, all: seq<Entry>)
    requires Flatten(next, ancestors, kids) <= all
    requires var n := |Flatten(next, ancestors, kids)|; n == |all| || Depth(all[n]) <= |ancestors|
    ensures kids <= all && (|kids| == |all| || Depth(all[|kids|]) <= |ancestors| + 1)
  {
    FlattenExtends(next, ancestors, kids);
    if next.Group? {
      assert all[|kids|] == (kids + [Entry(next.title, next.open, ancestors, next.lines)])[|kids|];
    }
  }

  lemma PrintedAtTop(f: Forest)
    requires PrintableForest(f)
    ensures Added(START, Run(START, Print(f, 1)), f, [])
  {
    var none: seq<nat> := [];
    PrintedLevelParses(START, f, none);
    assert |none| + 1 == 1;
  }

  // For every menu tree with printable titles and bodies: printing it and
  // parsing the text succeeds, and the entries read back as the same tree.
  lemma PrintedMenuParsesBack(f: Forest)
    requires PrintableForest(f)
    ensures Run(START, Print(f, 1)).Some?
    ensures Run(START, Print(f, 1)).value.entries == Flatten(f, [], [])
    ensures Rebuild(Run(START, Print(f, 1)).value.entries, 0, 1).0 == f
  {
    PrintedAtTop(f);
    FlattenRebuilds(f, [], [], Flatten(f, [], []));
  }
}
