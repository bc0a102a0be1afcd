// How create_partition tells which slot parted filled: both readings of the
// table are sorted as text and compared line by line with comm.
module TableDiff {
  import opened Wrappers
  import opened Text

  // ----- decimal text

  function Digit(d: nat): char
    requires d < 10
  {
    ['0', '1', '2', '3', '4', '5', '6', '7', '8', '9'][d]
  }

  function Decimal(n: nat): (s: string)
    ensures s != [] && forall i :: 0 <= i < |s| ==> IsDigit(s[i])
    ensures n > 0 ==> s[0] != '0'
  {
    if n < 10 then [Digit(n)] else Decimal(n / 10) + [Digit(n % 10)]
  }

  lemma {:induction false} DecimalInjective(a: nat, b: nat)
    requires Decimal(a) == Decimal(b)
    ensures a == b
    decreases a + b
  {
    var s, t := Decimal(a), Decimal(b);
    assert s[|s| - 1] == Digit(a % 10) && t[|t| - 1] == Digit(b % 10);
    assert a % 10 == b % 10;
    if a >= 10 && b >= 10 {
      assert s[..|s| - 1] == Decimal(a / 10) && t[..|t| - 1] == Decimal(b / 10);
      DecimalInjective(a / 10, b / 10);
    }
  }

  lemma {:induction false} ValueOfDecimal(n: nat)
    ensures DecimalValue(Decimal(n)) == n
    decreases n
  {
    var s := Decimal(n);
    if n >= 10 {
      assert s[..|s| - 1] == Decimal(n / 10);
      ValueOfDecimal(n / 10);
    } else {
      assert s[..0] == [];
    }
  }

  // [[ $num =~ ^[1-9][0-9]*$ ]]
  predicate PartNumber(s: string) {
    s != [] && '1' <= s[0] <= '9' && forall i :: 0 <= i < |s| ==> IsDigit(s[i])
  }

  // ----- byte order of lines, as LC_ALL=C sort and comm use it

  predicate Less(a: string, b: string) {
    b != [] && (a == [] || a[0] < b[0] || (a[0] == b[0] && Less(a[1..], b[1..])))
  }

  lemma LessTotal(a: string, b: string)
    ensures Less(a, b) || a == b || Less(b, a)
  {
    if a != [] && b != [] && a[0] == b[0] {
      LessTotal(a[1..], b[1..]);
      assert a == [a[0]] + a[1..] && b == [b[0]] + b[1..];
    }
  }

  lemma LessAsymmetric(a: string, b: string)
    requires Less(a, b)
    ensures a != b && !Less(b, a)
  {
    if a != [] && a[0] == b[0] { LessAsymmetric(a[1..], b[1..]); }
  }

  lemma {:induction false} LessTransitive(a: string, b: string, c: string)
    requires Less(a, b) && Less(b, c)
    ensures Less(a, c)
    decreases |a|
  {
    if a != [] && a[0] == b[0] && b[0] == c[0] { LessTransitive(a[1..], b[1..], c[1..]); }
  }

  ghost predicate Ascending(s: seq<string>) {
    forall i, j :: 0 <= i < j < |s| ==> Less(s[i], s[j])
  }

  // ----- sort

  function InsertLine(s: seq<string>, x: string): seq<string> {
    if s == [] || Less(x, s[0]) then [x] + s else [s[0]] + InsertLine(s[1..], x)
  }

  function SortLines(s: seq<string>): seq<string> {
    if s == [] then [] else InsertLine(SortLines(s[1..]), s[0])
  }

  lemma {:induction false} InsertAscending(s: seq<string>, x: string)
    requires Ascending(s) && x !in s
    ensures Ascending(InsertLine(s, x))
    ensures forall y :: y in InsertLine(s, x) <==> y in s || y == x
    decreases |s|
  {
    if s == [] {
    } else if Less(x, s[0]) {
      forall j | 0 <= j < |s| ensures Less(x, s[j]) {
        if j > 0 { LessTransitive(x, s[0], s[j]); }
      }
    } else {
      LessTotal(x, s[0]);
      InsertAscending(s[1..], x);
      var r := InsertLine(s[1..], x);
      forall j | 0 <= j < |r| ensures Less(s[0], r[j]) {
        assert r[j] in r;
      }
      assert s == [s[0]] + s[1..];
    }
  }

  // Distinct lines come out in strictly ascending order.
  lemma {:induction false} SortAscending(s: seq<string>)
    requires forall i, j :: 0 <= i < j < |s| ==> s[i] != s[j]
    ensures Ascending(SortLines(s))
    ensures forall y :: y in SortLines(s) <==> y in s
    decreases |s|
  {
    if s != [] {
      assert s == [s[0]] + s[1..];
      SortAscending(s[1..]);
      InsertAscending(SortLines(s[1..]), s[0]);
    }
  }

  // ----- comm

  // comm -23: the lines of a that have no partner in b.
  function OnlyFirst(a: seq<string>, b: seq<string>): seq<string>
    decreases |a| + |b|
  {
    if a == [] then []
    else if b == [] then a
    else if Less(a[0], b[0]) then [a[0]] + OnlyFirst(a[1..], b)
    else if Less(b[0], a[0]) then OnlyFirst(a, b[1..])
    else OnlyFirst(a[1..], b[1..])
  }

  // comm -13: the lines of b that have no partner in a.
  function OnlySecond(a: seq<string>, b: seq<string>): seq<string>
    decreases |a| + |b|
  {
    if b == [] then []
    else if a == [] then b
    else if Less(a[0], b[0]) then OnlySecond(a[1..], b)
    else if Less(b[0], a[0]) then [b[0]] + OnlySecond(a, b[1..])
    else OnlySecond(a[1..], b[1..])
  }

  lemma AscendingTail(s: seq<string>, x: string)
    requires Ascending(s) && s != []
    ensures Ascending(s[1..])
    ensures x in s <==> x == s[0] || x in s[1..]
    ensures x in s[1..] ==> Less(s[0], x) && x != s[0]
  {
    assert s == [s[0]] + s[1..];
    if x in s[1..] {
      var i :| 0 <= i < |s[1..]| && s[1..][i] == x;
      LessAsymmetric(s[0], s[i + 1]);
    }
  }

  // On sorted lists the merge computes the two set differences, in order.
  lemma {:induction false} CommIsDifference(a: seq<string>, b: seq<string>, x: string)
    requires Ascending(a) && Ascending(b)
    ensures x in OnlySecond(a, b) <==> x in b && x !in a
    ensures x in OnlyFirst(a, b) <==> x in a && x !in b
    decreases |a| + |b|
  {
    if a != [] && b != [] {
      AscendingTail(a, x);
      AscendingTail(b, x);
      if Less(a[0], b[0]) {
        CommIsDifference(a[1..], b, x);
        LessAsymmetric(a[0], b[0]);
      } else if Less(b[0], a[0]) {
        CommIsDifference(a, b[1..], x);
        LessAsymmetric(b[0], a[0]);
      } else {
        LessTotal(a[0], b[0]);
        CommIsDifference(a[1..], b[1..], x);
      }
    }
  }

  lemma {:induction false} CommAscending(a: seq<string>, b: seq<string>)
    requires Ascending(a) && Ascending(b)
    ensures Ascending(OnlySecond(a, b))
    ensures Ascending(OnlyFirst(a, b))
    decreases |a| + |b|
  {
    if a != [] && b != [] {
      AscendingTail(a, a[0]);
      AscendingTail(b, b[0]);
      if Less(a[0], b[0]) {
        CommAscending(a[1..], b);
        HeadFirst(a, OnlyFirst(a[1..], b), a[1..], b);
      } else if Less(b[0], a[0]) {
        CommAscending(a, b[1..]);
        HeadSecond(b, OnlySecond(a, b[1..]), a, b[1..]);
      } else {
        CommAscending(a[1..], b[1..]);
      }
    }
  }

  lemma HeadFirst(s: seq<string>, r: seq<string>, a: seq<string>, b: seq<string>)
    requires Ascending(s) && s != [] && a == s[1..] && Ascending(b) && r == OnlyFirst(a, b) && Ascending(r)
    ensures Ascending([s[0]] + r)
  {
    forall j | 0 <= j < |r| ensures Less(s[0], r[j]) {
      AscendingTail(s, r[j]);
      CommIsDifference(a, b, r[j]);
    }
  }

  lemma HeadSecond(s: seq<string>, r: seq<string>, a: seq<string>, b: seq<string>)
    requires Ascending(s) && s != [] && b == s[1..] && Ascending(a) && r == OnlySecond(a, b) && Ascending(r)
    ensures Ascending([s[0]] + r)
  {
    forall j | 0 <= j < |r| ensures Less(s[0], r[j]) {
      AscendingTail(s, r[j]);
      CommIsDifference(a, b, r[j]);
    }
  }

  // ----- command substitution: lines joined, trailing newlines dropped

  function Joined(lines: seq<string>): string {
    if lines == [] then [] else lines[0] + ['\n'] + Joined(lines[1..])
  }

  function Stripped(s: string): string {
    if s != [] && s[|s| - 1] == '\n' then Stripped(s[..|s| - 1]) else s
  }

  function Captured(lines: seq<string>): string {
    Stripped(Joined(lines))
  }

  predicate PlainLine(s: string) {
    forall i :: 0 <= i < |s| ==> s[i] != '\n'
  }

  lemma StrippedLine(s: string)
    requires PlainLine(s)
    ensures Stripped(s + ['\n']) == s && Stripped(s) == s
  {
    assert (s + ['\n'])[..|s|] == s;
  }

  lemma {:induction false} StrippedKeeps(s: string, i: int)
    requires 0 <= i < |s| && s[i] != '\n'
    ensures i < |Stripped(s)| && s[..i + 1] == Stripped(s)[..i + 1]
    decreases |s|
  {
    if s[|s| - 1] == '\n' { StrippedKeeps(s[..|s| - 1], i); }
  }

  lemma CapturedOne(s: string)
    requires PlainLine(s)
    ensures Captured([s]) == s
  {
    assert Joined([s]) == s + ['\n'];
    StrippedLine(s);
  }

  // Two or more lines, the last of them not empty, are never one number.
  lemma {:induction false} LastLineStays(lines: seq<string>)
    requires lines != [] && (forall i :: 0 <= i < |lines| ==> PlainLine(lines[i])) && lines[|lines| - 1] != []
    ensures Captured(lines) == Joined(lines)[..|Joined(lines)| - 1] && |Joined(lines)| > 0
    decreases |lines|
  {
    var j := Joined(lines);
    JoinedEnds(lines);
    assert j[|j| - 1] == '\n' && j[|j| - 2] != '\n';
    assert j[..|j| - 1][|j| - 2] == j[|j| - 2];
    assert Stripped(j) == Stripped(j[..|j| - 1]);
    assert Stripped(j[..|j| - 1]) == j[..|j| - 1];
  }

  lemma {:induction false} JoinedEnds(lines: seq<string>)
    requires lines != [] && (forall i :: 0 <= i < |lines| ==> PlainLine(lines[i])) && lines[|lines| - 1] != []
    ensures var j := Joined(lines); |j| >= 2 && j[|j| - 1] == '\n' && j[|j| - 2] != '\n'
    decreases |lines|
  {
    if |lines| > 1 {
      JoinedEnds(lines[1..]);
    } else {
      assert Joined(lines[1..]) == [];
    }
  }

  lemma TwoLinesNoNumber(lines: seq<string>)
    requires |lines| >= 2 && (forall i :: 0 <= i < |lines| ==> PlainLine(lines[i])) && lines[|lines| - 1] != []
    ensures !PartNumber(Captured(lines))
  {
    LastLineStays(lines);
    JoinedEnds(lines[1..]);
    var j := Joined(lines);
    assert j[|lines[0]|] == '\n' && |lines[0]| < |j| - 1;
    assert Captured(lines)[|lines[0]|] == '\n';
  }

  // ----- the claim

  function Lines(numbers: seq<nat>): seq<string> {
    if numbers == [] then [""] else seq(|numbers|, i requires 0 <= i < |numbers| => Decimal(numbers[i]))
  }

  // The number the run claims, from the two readings of the table.
  function Claim(before: seq<nat>, after: seq<nat>): Option<string> {
    var a, b := SortLines(Lines(before)), SortLines(Lines(after));
    var num, removed := Captured(OnlySecond(a, b)), Captured(OnlyFirst(a, b));
    if PartNumber(num) && removed == [] && num !in Lines(before) then Some(num) else None
  }

  // Readings as partition_numbers returns them: positive numbers, none twice.
  ghost predicate Reading(numbers: seq<nat>) {
    && (forall i :: 0 <= i < |numbers| ==> numbers[i] > 0)
    && forall i, j :: 0 <= i < j < |numbers| ==> numbers[i] != numbers[j]
  }

  ghost predicate NewOnly(before: seq<nat>, after: seq<nat>, n: nat) {
    n !in before && forall m :: m in after <==> m in before || m == n
  }

  lemma LinesOf(numbers: seq<nat>)
    requires Reading(numbers)
    ensures forall n: nat :: Decimal(n) in Lines(numbers) <==> n in numbers
    ensures "" in Lines(numbers) <==> numbers == []
    ensures forall i, j :: 0 <= i < j < |Lines(numbers)| ==> Lines(numbers)[i] != Lines(numbers)[j]
    ensures forall i :: 0 <= i < |Lines(numbers)| ==> PlainLine(Lines(numbers)[i])
  {
    var lines := Lines(numbers);
    forall n: nat ensures Decimal(n) in lines <==> n in numbers {
      if Decimal(n) in lines && numbers != [] {
        var i :| 0 <= i < |lines| && lines[i] == Decimal(n);
        DecimalInjective(n, numbers[i]);
      }
      if n in numbers {
        var i :| 0 <= i < |numbers| && numbers[i] == n;
        assert lines[i] == Decimal(n);
      }
    }
    forall i, j | 0 <= i < j < |lines| ensures lines[i] != lines[j] {
      if lines[i] == lines[j] { DecimalInjective(numbers[i], numbers[j]); }
    }
  }

  lemma OnlyLine(s: seq<string>, d: string)
    requires Ascending(s) && forall x :: x in s <==> x == d
    ensures s == [d]
  {
    assert d in s;
    assert s[0] == d by { assert s[0] in s; }
    if |s| > 1 {
      assert s[1] in s;
      LessAsymmetric(s[0], s[1]);
    }
  }

  lemma LastNotEmpty(s: seq<string>)
    requires Ascending(s) && |s| >= 2
    ensures s[|s| - 1] != []
  {
    assert Less(s[0], s[|s| - 1]);
  }

  // Sorted lines whose capture is a partition number are that number alone.
  lemma NumberIsOnlyLine(s: seq<string>)
    requires Ascending(s) && (forall i :: 0 <= i < |s| ==> PlainLine(s[i])) && PartNumber(Captured(s))
    ensures s == [Captured(s)]
  {
    if |s| == 1 {
      CapturedOne(s[0]);
      assert s == [s[0]];
    } else if |s| >= 2 {
      LastNotEmpty(s);
      TwoLinesNoNumber(s);
    }
  }

  lemma NothingCaptured(s: seq<string>, x: string)
    requires Ascending(s) && (forall i :: 0 <= i < |s| ==> PlainLine(s[i])) && Captured(s) == []
    ensures x in s ==> x == []
  {
    if |s| == 1 {
      CapturedOne(s[0]);
      assert s == [s[0]];
    } else if |s| >= 2 {
      LastNotEmpty(s);
      LastLineStays(s);
      JoinedEnds(s[1..]);
    }
  }

  // Every line of a reading is a number's, or the empty line of an empty one.
  lemma LineOrigin(numbers: seq<nat>, s: string)
    requires s in Lines(numbers)
    ensures s == [] || exists m: nat :: m in numbers && s == Decimal(m)
  {
    if numbers != [] {
      var i :| 0 <= i < |numbers| && s == Decimal(numbers[i]);
      assert numbers[i] in numbers;
    }
  }

  lemma NewLine(before: seq<nat>, after: seq<nat>, n: nat, s: string)
    requires Reading(before) && Reading(after) && NewOnly(before, after, n)
    ensures s in Lines(after) && s !in Lines(before) <==> s == Decimal(n)
    ensures s in Lines(before) && s !in Lines(after) ==> s == []
  {
    LinesOf(before);
    LinesOf(after);
    assert n in after;
    if s in Lines(after) { LineOrigin(after, s); }
    if s in Lines(before) { LineOrigin(before, s); }
  }

  // The text comparison claims n exactly when the second reading is the first
  // one plus n and n is new, whatever the numbers' lengths and even when the
  // first reading is empty.
  lemma ClaimIsExact(before: seq<nat>, after: seq<nat>, n: nat)
    requires Reading(before) && Reading(after)
    ensures Claim(before, after) == Some(Decimal(n)) <==> NewOnly(before, after, n)
  {
    var la, lb := Lines(before), Lines(after);
    var a, b := SortLines(la), SortLines(lb);
    LinesOf(before);
    LinesOf(after);
    SortAscending(la);
    SortAscending(lb);
    CommAscending(a, b);
    var fresh', gone := OnlySecond(a, b), OnlyFirst(a, b);
    forall x ensures x in fresh' <==> x in lb && x !in la
      ensures x in gone <==> x in la && x !in lb
    {
      CommIsDifference(a, b, x);
    }
    if NewOnly(before, after, n) {
      ClaimedWhenNew(before, after, n, fresh', gone);
    }
    if Claim(before, after) == Some(Decimal(n)) {
      AllPlain(fresh', lb);
      AllPlain(gone, la);
      NumberIsOnlyLine(fresh');
      NewWhenClaimed(before, after, n, fresh', gone);
    }
  }

  lemma AllPlain(s: seq<string>, lines: seq<string>)
    requires forall x :: x in s ==> x in lines
    requires forall i :: 0 <= i < |lines| ==> PlainLine(lines[i])
    ensures forall i :: 0 <= i < |s| ==> PlainLine(s[i])
  {
    forall i | 0 <= i < |s| ensures PlainLine(s[i]) {
      assert s[i] in lines;
    }
  }

  lemma ClaimedWhenNew(before: seq<nat>, after: seq<nat>, n: nat, fresh': seq<string>, gone: seq<string>)
    requires Reading(before) && Reading(after) && NewOnly(before, after, n)
    requires Ascending(fresh') && Ascending(gone)
    requires forall x :: x in fresh' <==> x in Lines(after) && x !in Lines(before)
    requires forall x :: x in gone <==> x in Lines(before) && x !in Lines(after)
    ensures Captured(fresh') == Decimal(n) && Captured(gone) == []
    ensures PartNumber(Decimal(n)) && Decimal(n) !in Lines(before)
  {
    FreshIsNew(before, after, n, fresh');
    GoneIsBlank(before, after, n, gone);
    CapturedOnly(fresh', Decimal(n));
    CapturedEmpty(gone);
    NewLine(before, after, n, Decimal(n));
    DecimalIsNumber(before, after, n);
  }

  lemma CapturedOnly(s: seq<string>, d: string)
    requires Ascending(s) && PlainLine(d) && forall x :: x in s <==> x == d
    ensures Captured(s) == d
  {
    OnlyLine(s, d);
    CapturedOne(d);
  }

  lemma DecimalIsNumber(before: seq<nat>, after: seq<nat>, n: nat)
    requires Reading(after) && NewOnly(before, after, n)
    ensures PartNumber(Decimal(n))
  {
    assert n in after;
  }

  lemma FreshIsNew(before: seq<nat>, after: seq<nat>, n: nat, fresh': seq<string>)
    requires Reading(before) && Reading(after) && NewOnly(before, after, n)
    requires forall x :: x in fresh' <==> x in Lines(after) && x !in Lines(before)
    ensures forall s :: s in fresh' <==> s == Decimal(n)
  {
    forall s ensures s in fresh' <==> s == Decimal(n) {
      NewLine(before, after, n, s);
    }
  }

  lemma GoneIsBlank(before: seq<nat>, after: seq<nat>, n: nat, gone: seq<string>)
    requires Reading(before) && Reading(after) && NewOnly(before, after, n)
    requires forall x :: x in gone <==> x in Lines(before) && x !in Lines(after)
    ensures forall s :: s in gone ==> s == []
  {
    forall s | s in gone ensures s == [] {
      NewLine(before, after, n, s);
    }
  }

  lemma CapturedEmpty(s: seq<string>)
    requires Ascending(s) && forall x :: x in s ==> x == []
    ensures Captured(s) == []
  {
    if s != [] {
      assert s[0] in s;
      OnlyLine(s, []);
      CapturedOne([]);
    }
  }

  lemma NewWhenClaimed(before: seq<nat>, after: seq<nat>, n: nat, fresh': seq<string>, gone: seq<string>)
    requires Reading(before) && Reading(after)
    requires Ascending(gone) && (forall i :: 0 <= i < |gone| ==> PlainLine(gone[i])) && Captured(gone) == []
    requires fresh' == [Decimal(n)]
    requires forall x :: x in fresh' <==> x in Lines(after) && x !in Lines(before)
    requires forall x :: x in gone <==> x in Lines(before) && x !in Lines(after)
    ensures NewOnly(before, after, n)
  {
    LinesOf(before);
    LinesOf(after);
    assert Decimal(n) in fresh';
    forall m: nat ensures m in after <==> m in before || m == n {
      NothingCaptured(gone, Decimal(m));
      if Decimal(m) in fresh' { DecimalInjective(m, n); }
    }
  }

  // Whatever is claimed is a number.
  lemma ClaimIsNumber(before: seq<nat>, after: seq<nat>)
    requires Reading(before) && Reading(after) && Claim(before, after).Some?
    ensures exists n :: Claim(before, after) == Some(Decimal(n))
  {
    var la, lb := Lines(before), Lines(after);
    var a, b := SortLines(la), SortLines(lb);
    LinesOf(before);
    LinesOf(after);
    SortAscending(la);
    SortAscending(lb);
    CommAscending(a, b);
    forall x ensures x in OnlySecond(a, b) <==> x in lb && x !in la {
      CommIsDifference(a, b, x);
    }
    AllPlain(OnlySecond(a, b), lb);
    NumberIsOnlyLine(OnlySecond(a, b));
    var num := Captured(OnlySecond(a, b));
    assert num in OnlySecond(a, b);
    var i :| 0 <= i < |lb| && lb[i] == num;
    assert num == Decimal(after[i]);
  }
}
