// partition_numbers: the numbers in parted's machine-readable table, or a
// refusal when the text is anything but a whole well-formed list.
module PartedTable {
  import opened Wrappers
  import opened Text
  import opened TableDiff

  function ColonAt(line: string): (n: nat)
    ensures n <= |line| && ':' !in line[..n] && (n < |line| ==> line[n] == ':')
  {
    if line == [] || line[0] == ':' then 0
    else
      var n := 1 + ColonAt(line[1..]);
      assert line[..n] == [line[0]] + line[1..][..n - 1];
      n
  }

  // The k-th field, counted from zero, of a line cut at its colons.
  function Field(line: string, k: nat): string {
    var n := ColonAt(line);
    if k == 0 then line[..n] else if n == |line| then [] else Field(line[n + 1..], k - 1)
  }

  // cut -d: -f6, which prints a line without a colon whole.
  function TableType(line: string): string {
    if ':' in line then Field(line, 5) else line
  }

  // /^[1-9][0-9]*:/
  function RowNumber(line: string): Option<string> {
    var n := ColonAt(line);
    if n < |line| && PartNumber(line[..n]) then Some(line[..n]) else None
  }

  predicate Headed(lines: seq<string>) {
    |lines| >= 2 && lines[0] == "BYT;" && TableType(lines[1]) != "" && TableType(lines[1]) != "unknown"
  }

  // The lines parted printed, and the numbers of its rows.
  method PartitionNumbers(lines: seq<string>) returns (numbers: Option<seq<string>>)
    ensures numbers.Some? <==> Listed(lines)
    ensures numbers.Some? ==> NumbersOf(lines, |lines|, numbers.value)
  {
    if !Headed(lines) {
      return None;
    }
    var seen: seq<string> := [];
    for i := 2 to |lines|
      invariant RowsFine(lines, i)
      invariant NumbersOf(lines, i, seen)
    {
      var n := RowNumber(lines[i]);
      if n.Some? {
        if n.value in seen {
          Repeated(lines, i, seen);
          return None;
        }
        NewRow(lines, i, seen);
        seen := seen + [n.value];
      } else if lines[i] != [] {
        return None;
      }
    }
    return Some(seen);
  }

  // Every row up to line i is blank or numbered, and no number comes twice.
  ghost predicate RowsFine(lines: seq<string>, i: nat)
    requires i <= |lines|
  {
    && (forall k :: 2 <= k < i ==> lines[k] == [] || RowNumber(lines[k]).Some?)
    && (forall k, l :: 2 <= k < l < i && RowNumber(lines[k]).Some? ==> RowNumber(lines[k]) != RowNumber(lines[l]))
  }

  ghost predicate Listed(lines: seq<string>) {
    Headed(lines) && RowsFine(lines, |lines|)
  }

  // Exactly the numbers of the rows before line i, each once.
  ghost predicate NumbersOf(lines: seq<string>, i: nat, numbers: seq<string>)
    requires i <= |lines|
  {
    && (forall s :: s in numbers <==> exists k :: 2 <= k < i && RowNumber(lines[k]) == Some(s))
    && forall k, l :: 0 <= k < l < |numbers| ==> numbers[k] != numbers[l]
  }

  lemma Repeated(lines: seq<string>, i: nat, seen: seq<string>)
    requires i < |lines| && NumbersOf(lines, i, seen)
    requires RowNumber(lines[i]).Some? && RowNumber(lines[i]).value in seen
    ensures !RowsFine(lines, |lines|)
  {
  }

  lemma NewRow(lines: seq<string>, i: nat, seen: seq<string>)
    requires 2 <= i < |lines| && NumbersOf(lines, i, seen) && RowsFine(lines, i)
    requires RowNumber(lines[i]).Some? && RowNumber(lines[i]).value !in seen
    ensures NumbersOf(lines, i + 1, seen + [RowNumber(lines[i]).value]) && RowsFine(lines, i + 1)
  {
    var n := RowNumber(lines[i]).value;
    forall k | 2 <= k < i ensures RowNumber(lines[k]) != Some(n) {
      if RowNumber(lines[k]).Some? { assert RowNumber(lines[k]).value in seen; }
    }
    forall s ensures s in seen + [n] <==> exists k :: 2 <= k < i + 1 && RowNumber(lines[k]) == Some(s) {
      if s in seen {
        var k :| 2 <= k < i && RowNumber(lines[k]) == Some(s);
      }
    }
  }

  // ----- the numbers as numbers

  lemma {:induction false} DecimalOfValue(s: string)
    requires PartNumber(s)
    ensures DecimalValue(s) > 0 && Decimal(DecimalValue(s)) == s
    decreases |s|
  {
    var front, last := s[..|s| - 1], s[|s| - 1];
    assert s == front + [last];
    if front == [] {
      assert DecimalValue(front) == 0;
    } else {
      DecimalOfValue(front);
      assert DecimalValue(s) / 10 == DecimalValue(front) && DecimalValue(s) % 10 == last as int - '0' as int;
    }
  }

  // A list that is not refused is a reading of positive numbers, none twice.
  lemma {:induction false} ReadingOf(texts: seq<string>) returns (numbers: seq<nat>)
    requires forall i :: 0 <= i < |texts| ==> PartNumber(texts[i])
    requires forall i, j :: 0 <= i < j < |texts| ==> texts[i] != texts[j]
    ensures |numbers| == |texts| && Reading(numbers)
    ensures forall i :: 0 <= i < |texts| ==> Decimal(numbers[i]) == texts[i]
    decreases |texts|
  {
    numbers := [];
    if texts != [] {
      var front, last := texts[..|texts| - 1], texts[|texts| - 1];
      numbers := ReadingOf(front);
      DecimalOfValue(last);
      forall i | 0 <= i < |numbers| ensures numbers[i] != DecimalValue(last) {
        assert Decimal(numbers[i]) == front[i] == texts[i];
      }
      numbers := numbers + [DecimalValue(last)];
    }
  }

  lemma NumbersAreReading(lines: seq<string>, texts: seq<string>) returns (numbers: seq<nat>)
    requires NumbersOf(lines, |lines|, texts)
    ensures Reading(numbers) && |numbers| == |texts|
    ensures forall i :: 0 <= i < |texts| ==> Decimal(numbers[i]) == texts[i]
  {
    forall i | 0 <= i < |texts| ensures PartNumber(texts[i]) {
      assert texts[i] in texts;
    }
    numbers := ReadingOf(texts);
  }

  // ----- a table as parted prints it

  lemma {:induction false} ColonAfter(number: string, rest: string)
    requires ':' !in number
    ensures ColonAt(number + ":" + rest) == |number|
    decreases |number|
  {
    var line := number + ":" + rest;
    if number == [] {
      assert line == ":" + rest;
    } else {
      assert line[1..] == number[1..] + ":" + rest;
      ColonAfter(number[1..], rest);
    }
  }

  lemma RowOfNumber(n: nat, rest: string)
    requires n > 0
    ensures RowNumber(Decimal(n) + ":" + rest) == Some(Decimal(n))
  {
    var number := Decimal(n);
    var line := number + ":" + rest;
    ColonAfter(number, rest);
    assert line[..|number|] == number;
    LeadingDigit(n);
  }

  lemma LeadingDigit(n: nat)
    requires n > 0
    ensures PartNumber(Decimal(n))
  {
    assert IsDigit(Decimal(n)[0]);
  }

  // A row is a number right before the first colon.
  lemma RowIff(line: string, s: string)
    ensures RowNumber(line) == Some(s) <==>
              s + ":" <= line && s != [] && '1' <= s[0] <= '9' && forall i :: 0 <= i < |s| ==> '0' <= s[i] <= '9'
  {
    var n := ColonAt(line);
    if s + ":" <= line && Digits(s) {
      RowStart(line, s);
    }
    if n < |line| {
      assert line[..n + 1] == line[..n] + ":";
    }
  }

  lemma RowStart(line: string, s: string)
    requires s + ":" <= line && Digits(s)
    ensures ColonAt(line) == |s| < |line| && line[..|s|] == s
  {
    var rest := line[|s| + 1..];
    assert line[..|s| + 1] == s + ":" && line == s + ":" + rest;
    ColonAfter(s, rest);
  }

  lemma {:induction false} NoColon(a: string)
    requires ':' !in a
    ensures ColonAt(a) == |a|
    decreases |a|
  {
    if a != [] { NoColon(a[1..]); }
  }

  lemma NextField(a: string, rest: string, k: nat)
    requires ':' !in a
    ensures Field(a + ":" + rest, k) == if k == 0 then a else Field(rest, k - 1)
  {
    ColonAfter(a, rest);
    assert (a + ":" + rest)[|a| + 1..] == rest && (a + ":" + rest)[..|a|] == a;
  }

  lemma LastField(a: string, k: nat)
    requires ':' !in a
    ensures Field(a, k) == if k == 0 then a else []
  {
    NoColon(a);
    assert a[..|a|] == a;
  }

  // The type of the table is what stands between the fifth and the sixth colon.
  lemma TypeIsSixth(a: string, b: string, c: string, d: string, e: string, t: string, rest: string)
    requires ':' !in a && ':' !in b && ':' !in c && ':' !in d && ':' !in e && ':' !in t
    ensures TableType(a + ":" + (b + ":" + (c + ":" + (d + ":" + (e + ":" + (t + ":" + rest)))))) == t
    ensures TableType(a) == a && (b != [] ==> TableType(a + ":" + b) == [])
  {
    var l5 := t + ":" + rest;
    var l4 := e + ":" + l5;
    var l3 := d + ":" + l4;
    var l2 := c + ":" + l3;
    var l1 := b + ":" + l2;
    NextField(t, rest, 0);
    NextField(e, l5, 1);
    NextField(d, l4, 2);
    NextField(c, l3, 3);
    NextField(b, l2, 4);
    NextField(a, l1, 5);
    assert (a + ":" + l1)[|a|] == ':' && (a + ":" + b)[|a|] == ':';
    NextField(a, b, 5);
    LastField(b, 4);
  }

  // Row i of the table prints number i, whatever follows the colon.
  ghost predicate Prints(lines: seq<string>, numbers: seq<nat>, rests: seq<string>) {
    && Headed(lines) && |lines| == |numbers| + 2 && |rests| == |numbers|
    && forall i :: 0 <= i < |numbers| ==> lines[i + 2] == Decimal(numbers[i]) + ":" + rests[i]
  }

  // Every table parted can print is read, with exactly its numbers.
  lemma PrintedIsListed(lines: seq<string>, numbers: seq<nat>, rests: seq<string>, texts: seq<string>)
    requires Reading(numbers) && Prints(lines, numbers, rests) && NumbersOf(lines, |lines|, texts)
    ensures Listed(lines)
    ensures forall n: nat :: Decimal(n) in texts <==> n in numbers
  {
    forall k | 2 <= k < |lines| ensures RowNumber(lines[k]) == Some(Decimal(numbers[k - 2])) {
      assert lines[k - 2 + 2] == lines[k];
      RowOfNumber(numbers[k - 2], rests[k - 2]);
    }
    forall k, l | 2 <= k < l < |lines| ensures RowNumber(lines[k]) != RowNumber(lines[l]) {
      if Decimal(numbers[k - 2]) == Decimal(numbers[l - 2]) { DecimalInjective(numbers[k - 2], numbers[l - 2]); }
    }
    forall n: nat ensures Decimal(n) in texts <==> n in numbers {
      if n in numbers {
        var i :| 0 <= i < |numbers| && numbers[i] == n;
        assert RowNumber(lines[i + 2]) == Some(Decimal(n));
      }
      if Decimal(n) in texts {
        var k :| 2 <= k < |lines| && RowNumber(lines[k]) == Some(Decimal(n));
        DecimalInjective(n, numbers[k - 2]);
      }
    }
  }

  // ----- what is refused

  // A table of no known type,
  lemma KnownTypeIff(lines: seq<string>, rest: seq<string>, line: string)
    requires lines == [['B', 'Y', 'T', ';'], line] + rest
    ensures Headed(lines) <==> TableType(line) != [] && TableType(line) != ['u', 'n', 'k', 'n', 'o', 'w', 'n']
  {
  }

  // a text that starts with anything else,
  lemma NotHeaded(lines: seq<string>)
    requires lines == [] || |lines[0]| != 4 || lines[0][..3] != "BYT" || lines[0][3] != ';'
    ensures !Listed(lines)
  {
  }

  // and one with a line that is no row.
  lemma StrayLine(lines: seq<string>, line: string)
    requires |lines| >= 2 && line != [] && ':' !in line
    ensures !Listed(lines + [line])
  {
    var all := lines + [line];
    assert all[|lines|] == line;
    NoColon(line);
  }
}
