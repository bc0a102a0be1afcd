// Which lines of limine.conf are headers and which choose the default entry, said
// of the text itself.
module LimineLines {
  import opened Wrappers
  import opened Text
  import opened LimineBoot
  import opened LimineForest

  // ----- blanks around a text

  lemma {:induction false} SkipBlank(a: string, rest: string)
    requires Blank(a) && (rest == [] || !IsSpace(rest[0]))
    ensures SkipSpace(a + rest) == rest
    decreases |a|
  {
    if a == [] {
      assert a + rest == rest;
    } else {
      assert (a + rest)[1..] == a[1..] + rest;
      SkipBlank(a[1..], rest);
    }
  }

  lemma {:induction false} DropBlank(t: string, b: string)
    requires Blank(b) && (t == [] || !IsSpace(t[|t| - 1]))
    ensures DropSpaceEnd(t + b) == t
    decreases |b|
  {
    if b == [] {
      assert t + b == t;
    } else {
      var front := b[..|b| - 1];
      assert (t + b)[..|t + b| - 1] == t + front;
      DropBlank(t, front);
    }
  }

  // Stripping takes off the blanks at both ends and nothing else.
  lemma StripBlanks(a: string, t: string, b: string)
    requires Blank(a) && Blank(b) && (t == [] || (!IsSpace(t[0]) && !IsSpace(t[|t| - 1])))
    ensures Strip(a + t + b) == t
  {
    if t == [] {
      assert a + t + b == (a + b) + [];
      SkipBlank(a + b, []);
    } else {
      assert a + t + b == a + (t + b);
      SkipBlank(a, t + b);
      DropBlank(t, b);
    }
  }

  lemma {:induction false} SkippedBlank(s: string) returns (a: string)
    ensures Blank(a) && s == a + SkipSpace(s)
    ensures SkipSpace(s) == [] || !IsSpace(SkipSpace(s)[0])
    decreases |s|
  {
    if s != [] && IsSpace(s[0]) {
      var rest := SkippedBlank(s[1..]);
      a := [s[0]] + rest;
      assert s == [s[0]] + s[1..];
    } else {
      a := [];
    }
  }

  // ----- headers

  // The line is blanks, n slashes, and something that is no slash first.
  ghost predicate IsHeader(line: string, a: string, n: nat, rest: string) {
    Blank(a) && n > 0 && rest != [] && rest[0] != '/' && line == a + Repeat('/', n) + rest
  }

  // Such a line is a header n deep. A plus after the slashes opens it, unless
  // nothing or another slash comes after the plus; then the plus is title.
  lemma HeaderMeans(line: string, a: string, n: nat, rest: string)
    requires IsHeader(line, a, n, rest)
    ensures rest[0] == '+' && |rest| > 1 && rest[1] != '/' ==>
              ParseHeader(line) == Some(Header(n, true, Strip(rest[1..])))
    ensures rest[0] != '+' || |rest| == 1 || rest[1] == '/' ==>
              ParseHeader(line) == Some(Header(n, false, Strip(rest)))
  {
    RepeatSlashes(n, rest);
    var s := Repeat('/', n) + rest;
    assert line == a + s && s[0] == Repeat('/', n)[0];
    SkipBlank(a, s);
    RepeatSlashes(n, []);
    assert s[n..] == rest;
  }

  lemma {:induction false} SlashesCounted(s: string)
    ensures s == Repeat('/', CountSlashes(s)) + s[CountSlashes(s)..]
    decreases |s|
  {
    if s != [] && s[0] == '/' {
      SlashesCounted(s[1..]);
      assert s == [s[0]] + s[1..];
    }
  }

  // And no other line is a header.
  lemma HeaderIff(line: string)
    ensures ParseHeader(line).Some? <==> exists a, n, rest :: IsHeader(line, a, n, rest)
  {
    if ParseHeader(line).Some? {
      var a := SkippedBlank(line);
      var s := SkipSpace(line);
      SlashesCounted(s);
      var n := CountSlashes(s);
      assert line == a + Repeat('/', n) + s[n..];
      assert IsHeader(line, a, n, s[n..]);
    }
    if a, n, rest :| IsHeader(line, a, n, rest) {
      HeaderMeans(line, a, n, rest);
    }
  }

  // ----- default_entry

  // The line is the key and one word, with any blanks around and between.
  ghost predicate Chooses(line: string, a: string, b: string, w: string, c: string) {
    && Blank(a) && Blank(b) && Blank(c) && w != [] && Spaceless(w)
    && line == a + "default_entry:" + b + w + c
  }

  lemma ChoiceIsRead(line: string, a: string, b: string, w: string, c: string)
    requires Chooses(line, a, b, w, c)
    ensures ParseDefault(line) == Some(w)
  {
    var key, tail := "default_entry:", b + (w + c);
    AfterKey(a, key, tail);
    assert line == a + (key + tail);
    SkipBlank(b, w + c);
    WordEndIs(w, c);
    assert (w + c)[|w|..] == c && (w + c)[..|w|] == w;
    SkipBlank(c, []);
    assert c + [] == c;
  }

  lemma AfterKey(a: string, key: string, tail: string)
    requires Blank(a) && key != [] && !IsSpace(key[0])
    ensures SkipSpace(a + (key + tail)) == key + tail && key <= key + tail && (key + tail)[|key|..] == tail
  {
    SkipBlank(a, key + tail);
  }

  lemma ReadIsChoice(line: string, w: string) returns (a: string, b: string, c: string)
    requires ParseDefault(line) == Some(w)
    ensures Chooses(line, a, b, w, c)
  {
    var key := "default_entry:";
    a := SkippedBlank(line);
    var s := SkipSpace(line);
    var rest := s[|key|..];
    b := SkippedBlank(rest);
    var v := SkipSpace(rest);
    c := WordAndBlank(v, w);
    assert s == key + rest;
    Concatenated(line, a, key, b, w, c, s, rest, v);
  }

  lemma WordAndBlank(v: string, w: string) returns (c: string)
    requires WordEnd(v) > 0 && w == v[..WordEnd(v)] && SkipSpace(v[WordEnd(v)..]) == []
    ensures v == w + c && Blank(c) && w != [] && Spaceless(w)
  {
    c := SkippedBlank(v[WordEnd(v)..]);
    assert c + [] == c;
  }

  lemma Concatenated(line: string, a: string, key: string, b: string, w: string, c: string,
                     s: string, rest: string, v: string)
    requires line == a + s && s == key + rest && rest == b + v && v == w + c
    ensures line == a + key + b + w + c
  {
  }

  lemma DefaultIff(line: string, w: string)
    ensures ParseDefault(line) == Some(w) <==> exists a, b, c :: Chooses(line, a, b, w, c)
  {
    if ParseDefault(line) == Some(w) {
      var a, b, c := ReadIsChoice(line, w);
    }
    if a, b, c :| Chooses(line, a, b, w, c) {
      ChoiceIsRead(line, a, b, w, c);
    }
  }

  // The first k lines are no headers, and the next one is, if there is one.
  ghost predicate HeadersFrom(lines: seq<string>, k: nat) {
    && k <= |lines|
    && (forall i :: 0 <= i < k ==> ParseHeader(lines[i]).None?)
    && (k < |lines| ==> ParseHeader(lines[k]).Some?)
  }

  // d is what the last choice among the first k lines says, or start.
  ghost predicate LastChoice(lines: seq<string>, k: nat, start: string, d: string)
    requires k <= |lines|
  {
    || (d == start && forall i :: 0 <= i < k ==> ParseDefault(lines[i]).None?)
    || exists j :: ChosenAt(lines, k, j, d)
  }

  ghost predicate ChosenAt(lines: seq<string>, k: nat, j: int, d: string)
    requires k <= |lines|
  {
    && 0 <= j < k && ParseDefault(lines[j]) == Some(d)
    && forall i :: j < i < k ==> ParseDefault(lines[i]).None?
  }

  lemma {:induction false} DefaultSettled(s: State, lines: seq<string>)
    requires s.entries != [] && Run(s, lines).Some?
    ensures Run(s, lines).value.default == s.default
    decreases |lines|
  {
    if lines != [] { DefaultSettled(Step(s, lines[0]).value, lines[1..]); }
  }

  lemma {:induction false} RunDefault(s: State, lines: seq<string>) returns (k: nat)
    requires s.entries == [] && Run(s, lines).Some?
    ensures HeadersFrom(lines, k) && LastChoice(lines, k, s.default, Run(s, lines).value.default)
    decreases |lines|
  {
    k := 0;
    if lines != [] {
      var next, rest := Step(s, lines[0]).value, lines[1..];
      if ParseHeader(lines[0]).Some? {
        DefaultSettled(next, rest);
      } else {
        var m := RunDefault(next, rest);
        k := m + 1;
        assert forall i :: 0 < i <= |rest| ==> lines[i] == rest[i - 1];
        LaterChoice(lines, m, s.default, next.default, Run(s, lines).value.default);
      }
    }
  }

  lemma LaterChoice(lines: seq<string>, m: nat, start: string, next: string, d: string)
    requires lines != [] && m < |lines| && LastChoice(lines[1..], m, next, d)
    requires next == match ParseDefault(lines[0]) { case Some(w) => w case None => start }
    ensures LastChoice(lines, m + 1, start, d)
  {
    var rest, k := lines[1..], m + 1;
    assert forall i :: 0 < i <= |rest| ==> lines[i] == rest[i - 1];
    if j :| ChosenAt(rest, m, j, d) {
      assert ChosenAt(lines, k, j + 1, d);
    } else if ParseDefault(lines[0]).Some? {
      assert ChosenAt(lines, k, 0, d);
    }
  }

  // The default of a menu is what the last choice before its first header says,
  // and "1" when there is none.
  lemma DefaultOfMenu(lines: seq<string>) returns (k: nat)
    requires Run(START, lines).Some?
    ensures HeadersFrom(lines, k) && LastChoice(lines, k, "1", Run(START, lines).value.default)
  {
    k := RunDefault(START, lines);
  }
}
