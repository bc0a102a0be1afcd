// Free-space partitioning: which GPT slots a run owns, and how they are given
// back by the configurator or, after the handoff, by the orchestrator.
module DiskPartitioning {
  import opened Wrappers
  import opened Text
  import opened TableDiff

  datatype Part = Part(size: int, name: string)

  type Table = map<nat, Part>

  const TOLERANCE: int := 1024 * 1024

  // What the environment does during one create_partition: which readings
  // succeed, what parted left in the table and how it exited.
  datatype Creation = Creation(
    readBefore: bool, after: Table, exitOk: bool, readAfter: bool,
    size: Option<int>, renamed: bool)

  // The table, the numbers this run claims, the number reported for the last
  // creation, and every removal that was ever issued.
  datatype Slots = Slots(table: Table, claimed: seq<nat>, number: Option<nat>, removals: seq<nat>)

  ghost predicate Numbered(t: Table) {
    forall n :: n in t ==> n > 0
  }

  ghost predicate NewSlot(before: set<nat>, after: set<nat>, n: nat) {
    n !in before && after == before + {n}
  }

  // The slot that is new between two readings, when that is all that changed.
  ghost function TakenSlot(before: set<nat>, after: set<nat>): Option<nat> {
    if exists n :: NewSlot(before, after, n) then
      var n :| NewSlot(before, after, n);
      Some(n)
    else None
  }

  function Named(t: Table, n: nat, name: string): Table {
    if n in t then t[n := t[n].(name := name)] else t
  }

  ghost function Create(s: Slots, want: int, name: string, e: Creation): (Slots, bool) {
    var s0 := s.(number := None);
    if !e.readBefore then (s0, false)
    else
      var made := s0.(table := e.after);
      var n := TakenSlot(s.table.Keys, e.after.Keys);
      if !e.exitOk || !e.readAfter || n.None? then (made, false)
      else
        var owned := made.(claimed := made.claimed + [n.value]);
        if e.size.None? || !(want - TOLERANCE <= e.size.value <= want + TOLERANCE) then (owned, false)
        else
          var table := if e.renamed then Named(e.after, n.value, name) else e.after;
          (owned.(table := table, number := n), true)
  }

  // sort -rn, and sorted(..., reverse=True)
  function InsertDown(s: seq<nat>, x: nat): (r: seq<nat>)
    ensures multiset(r) == multiset(s) + multiset{x}
  {
    if s == [] || x >= s[0] then [x] + s
    else
      assert s == [s[0]] + s[1..];
      [s[0]] + InsertDown(s[1..], x)
  }

  function Descending(s: seq<nat>): (r: seq<nat>)
    ensures multiset(r) == multiset(s)
  {
    if s == [] then [] else
      assert s == [s[0]] + s[1..];
      InsertDown(Descending(s[1..]), s[0])
  }

  ghost predicate Falling(s: seq<nat>) {
    forall i, j :: 0 <= i < j < |s| ==> s[i] >= s[j]
  }

  lemma {:induction false} InsertDownFalls(s: seq<nat>, x: nat)
    requires Falling(s)
    ensures Falling(InsertDown(s, x))
    decreases |s|
  {
    if s != [] && x < s[0] {
      InsertDownFalls(s[1..], x);
      var rest := InsertDown(s[1..], x);
      forall j | 0 <= j < |rest| ensures s[0] >= rest[j] {
        assert rest[j] in multiset(rest);
      }
    }
  }

  lemma {:induction false} DescendingFalls(s: seq<nat>)
    ensures Falling(Descending(s))
    decreases |s|
  {
    if s != [] {
      DescendingFalls(s[1..]);
      InsertDownFalls(Descending(s[1..]), s[0]);
    }
  }

  // parted rm for each number in turn; a refused removal leaves the slot.
  function RemoveEach(s: Slots, order: seq<nat>, refused: set<nat>): Slots
    decreases |order|
  {
    if order == [] then s
    else
      var n := order[0];
      var table := if n in refused then s.table else s.table - {n};
      RemoveEach(s.(table := table, removals := s.removals + [n]), order[1..], refused)
  }

  function RolledBack(s: Slots, refused: set<nat>): Slots {
    RemoveEach(s, Descending(s.claimed), refused).(claimed := [])
  }

  // _valid_protected_rollback
  predicate ValidRollback(disk: string, parts: seq<int>) {
    && "/dev/" <= disk
    && parts != []
    && forall i :: 0 <= i < |parts| ==> parts[i] > 0
  }

  // sorted(set(parts), reverse=True)
  function Distinct(parts: seq<nat>): seq<nat> {
    if parts == [] then []
    else if parts[0] in parts[1..] then Distinct(parts[1..])
    else [parts[0]] + Distinct(parts[1..])
  }

  ghost function CleanedUp(s: Slots, disk: string, parts: seq<nat>, refused: set<nat>): Slots {
    if ValidRollback(disk, parts) then RemoveEach(s, Descending(Distinct(parts)), refused) else s
  }

  // ----- a whole free-space run

  datatype Script = Script(
    esp: Creation, root: Creation, steps: seq<bool>, refused: set<nat>,
    installed: bool, refusedLater: set<nat>)

  // run_partition_execute: the partitions it hands over, if it gets that far.
  ghost function Execute(t: Table, espSize: int, rootSize: int, e: Script): (Slots, Option<seq<nat>>) {
    var (s1, ok1) := Create(Slots(t, [], None, []), espSize, "MONARCH_EFI", e.esp);
    if !ok1 then (RolledBack(s1, e.refused), None)
    else
      var (s2, ok2) := Create(s1, rootSize, "MONARCH_ROOT", e.root);
      if !ok2 || false in e.steps then (RolledBack(s2, e.refused), None)
      else (s2, Some([s1.number.value, s2.number.value]))
  }

  // The configurator, then the orchestrator's cleanup when the install fails.
  ghost function WholeRun(t: Table, disk: string, espSize: int, rootSize: int, e: Script): Slots {
    var (s, handoff) := Execute(t, espSize, rootSize, e);
    if handoff.None? || e.installed then s else CleanedUp(s, disk, handoff.value, e.refusedLater)
  }

  // parted alone writes the table: it fills one free slot or none.
  ghost predicate SoleWriter(t: Table, e: Creation) {
    e.after == t || exists n :: n in e.after && n > 0 && n !in t && e.after == t[n := e.after[n]]
  }

  ghost predicate OwnDisk(t: Table, espSize: int, e: Script) {
    Numbered(t) && SoleWriter(t, e.esp)
    && SoleWriter(Create(Slots(t, [], None, []), espSize, "MONARCH_EFI", e.esp).0.table, e.root)
  }

  // ----- creations

  lemma TakenIsNew(before: set<nat>, after: set<nat>, n: nat)
    ensures TakenSlot(before, after) == Some(n) <==> NewSlot(before, after, n)
  {
    if NewSlot(before, after, n) {
      var m := TakenSlot(before, after).value;
      assert m in before + {n} && n in before + {m};
    }
  }

  // What a sole writer leaves is the table and at most one new slot; the run
  // claims that slot unless it could not see it.
  ghost predicate Progress(t: Table, s: Slots) {
    && (forall n :: n in t ==> n in s.table && s.table[n] == t[n])
    && (forall i, j :: 0 <= i < j < |s.claimed| ==> s.claimed[i] != s.claimed[j])
    && (forall n :: n in s.claimed ==> n !in t && n in s.table && n > 0)
    && Numbered(s.table) && s.removals == []
  }

  lemma CreateProgress(t: Table, s: Slots, want: int, name: string, e: Creation)
    requires Progress(t, s) && SoleWriter(s.table, e)
    ensures Progress(t, Create(s, want, name, e).0)
    ensures s.claimed <= Create(s, want, name, e).0.claimed
    ensures Create(s, want, name, e).1 ==>
      Create(s, want, name, e).0.number.Some? &&
      Create(s, want, name, e).0.claimed == s.claimed + [Create(s, want, name, e).0.number.value]
    ensures Create(s, want, name, e).1 ==>
      Create(s, want, name, e).0.table.Keys == s.table.Keys + {Create(s, want, name, e).0.number.value}
  {
    var n := TakenSlot(s.table.Keys, e.after.Keys);
    if n.Some? {
      TakenIsNew(s.table.Keys, e.after.Keys, n.value);
      assert n.value in e.after.Keys;
    }
    assert forall m :: m in e.after.Keys <==> m in e.after;
  }

  // A number is claimed exactly when both readings and the creation went well and
  // it is all that is new, whatever is found wrong with the partition later.
  lemma ClaimedIff(s: Slots, want: int, name: string, e: Creation, n: nat)
    ensures Create(s, want, name, e).0.claimed == s.claimed + [n] <==>
              e.readBefore && e.exitOk && e.readAfter && NewSlot(s.table.Keys, e.after.Keys, n)
    ensures Create(s, want, name, e).0.claimed == s.claimed ||
            exists m :: NewSlot(s.table.Keys, e.after.Keys, m) && Create(s, want, name, e).0.claimed == s.claimed + [m]
  {
    TakenIsNew(s.table.Keys, e.after.Keys, n);
    var r := Create(s, want, name, e).0;
    if TakenSlot(s.table.Keys, e.after.Keys).Some? {
      var m := TakenSlot(s.table.Keys, e.after.Keys).value;
      TakenIsNew(s.table.Keys, e.after.Keys, m);
      assert s.claimed + [m] == s.claimed + [n] ==> (s.claimed + [m])[|s.claimed|] == (s.claimed + [n])[|s.claimed|];
    }
    assert |s.claimed + [n]| == |s.claimed| + 1;
  }

  // A creation succeeds exactly when its slot is claimed and its size is within
  // 1 MiB of the wanted one; only then is a number reported and the slot named.
  lemma CreatedIff(s: Slots, want: int, name: string, e: Creation)
    ensures var (r, ok) := Create(s, want, name, e);
      && (ok <==> && e.readBefore && e.exitOk && e.readAfter && e.size.Some?
                  && (exists n :: NewSlot(s.table.Keys, e.after.Keys, n))
                  && -1048576 <= e.size.value - want <= 1048576)
      && (r.number.Some? <==> ok)
      && (ok ==> NewSlot(s.table.Keys, e.after.Keys, r.number.value) && r.claimed == s.claimed + [r.number.value])
      && (!e.readBefore ==> r.table == s.table)
      && (e.readBefore && !(ok && e.renamed) ==> r.table == e.after)
      && (ok && e.renamed ==> r.number.value in e.after
                              && r.table == e.after[r.number.value := Part(e.after[r.number.value].size, name)])
  {
    if n :| NewSlot(s.table.Keys, e.after.Keys, n) {
      TakenIsNew(s.table.Keys, e.after.Keys, n);
      assert n in e.after.Keys;
    }
  }

  // ----- removals

  lemma {:induction false} RemoveEachIsDifference(s: Slots, order: seq<nat>, refused: set<nat>)
    ensures RemoveEach(s, order, refused) ==
            s.(table := s.table - ((set n | n in order) - refused), removals := s.removals + order)
    decreases |order|
  {
    if order != [] {
      var n, rest := order[0], order[1..];
      var table := if n in refused then s.table else s.table - {n};
      RemoveEachIsDifference(s.(table := table, removals := s.removals + [n]), rest, refused);
      assert order == [n] + rest;
      assert (set m | m in order) == {n} + (set m | m in rest);
      assert s.removals + [n] + rest == s.removals + order;
    } else {
      assert s.removals + order == s.removals;
    }
  }

  lemma DescendingOnce(s: seq<nat>)
    requires forall i, j :: 0 <= i < j < |s| ==> s[i] != s[j]
    ensures forall n :: n in Descending(s) <==> n in s
    ensures forall i, j :: 0 <= i < j < |Descending(s)| ==> Descending(s)[i] > Descending(s)[j]
  {
    var r := Descending(s);
    DescendingFalls(s);
    forall n ensures n in r <==> n in s {
      assert n in multiset(r) <==> n in multiset(s);
    }
    forall i, j | 0 <= i < j < |r| ensures r[i] > r[j] {
      if r[i] == r[j] {
        OccursTwice(r, i, j);
        OccursOnce(s, r[i]);
      }
    }
  }

  lemma OccursTwice(s: seq<nat>, i: int, j: int)
    requires 0 <= i < j < |s| && s[i] == s[j]
    ensures multiset(s)[s[i]] >= 2
  {
    assert s == s[..j] + [s[j]] + s[j + 1..];
    assert s[i] in s[..j];
  }

  lemma {:induction false} OccursOnce(s: seq<nat>, x: nat)
    requires forall i, j :: 0 <= i < j < |s| ==> s[i] != s[j]
    ensures multiset(s)[x] <= 1
    decreases |s|
  {
    if s != [] {
      assert s == [s[0]] + s[1..];
      OccursOnce(s[1..], x);
    }
  }

  lemma {:induction false} DistinctKeepsOne(s: seq<nat>)
    ensures forall n :: n in Distinct(s) <==> n in s
    ensures forall i, j :: 0 <= i < j < |Distinct(s)| ==> Distinct(s)[i] != Distinct(s)[j]
    decreases |s|
  {
    if s != [] {
      assert s == [s[0]] + s[1..];
      DistinctKeepsOne(s[1..]);
    }
  }

  // ----- whole runs

  ghost predicate NoneTwice(s: seq<nat>) {
    forall i, j :: 0 <= i < j < |s| ==> s[i] != s[j]
  }

  // What is left of a run's slots once it has ended.
  ghost predicate Settled(t: Table, s: Slots) {
    && (forall n :: n in t ==> n in s.table && s.table[n] == t[n])
    && (forall n :: n in s.claimed || n in s.removals ==> n !in t && n > 0)
    && NoneTwice(s.removals)
  }

  lemma RemovedSettles(t: Table, s: Slots, order: seq<nat>, refused: set<nat>)
    requires Progress(t, s) && NoneTwice(order) && forall n :: n in order <==> n in s.claimed
    ensures var r := RemoveEach(s, order, refused);
      && Settled(t, r) && r.claimed == s.claimed && r.removals == order
      && r.table == s.table - ((set n | n in s.claimed) - refused)
  {
    RemoveEachIsDifference(s, order, refused);
    assert (set n | n in order) == set n | n in s.claimed;
    assert s.removals + order == order;
  }

  lemma RollBackSettles(t: Table, s: Slots, refused: set<nat>)
    requires Progress(t, s)
    ensures Settled(t, RolledBack(s, refused))
    ensures RolledBack(s, refused).table == s.table - ((set n | n in s.claimed) - refused)
    ensures forall n :: n in RolledBack(s, refused).removals <==> n in s.claimed
  {
    DescendingOnce(s.claimed);
    RemovedSettles(t, s, Descending(s.claimed), refused);
  }

  // Both creations succeeded: the claims are the two numbers, and with the
  // initial entries they are the whole table.
  lemma BothCreated(t: Table, espSize: int, rootSize: int, e: Script)
    requires OwnDisk(t, espSize, e)
    ensures var (s1, ok1) := Create(Slots(t, [], None, []), espSize, "MONARCH_EFI", e.esp);
      var (s2, ok2) := Create(s1, rootSize, "MONARCH_ROOT", e.root);
      && Progress(t, s1)
      && (ok1 ==> Progress(t, s2))
      && (ok1 && ok2 ==> s1.number.Some? && s2.number.Some? && s2.claimed == [s1.number.value, s2.number.value]
                         && s2.table.Keys == t.Keys + {s1.number.value, s2.number.value})
  {
    var s0 := Slots(t, [], None, []);
    CreateProgress(t, s0, espSize, "MONARCH_EFI", e.esp);
    var (s1, ok1) := Create(s0, espSize, "MONARCH_EFI", e.esp);
    if ok1 {
      CreateProgress(t, s1, rootSize, "MONARCH_ROOT", e.root);
    }
  }

  // A run hands over its partitions exactly when both were created and every step
  // after that went well.
  lemma HandedOverIff(t: Table, espSize: int, rootSize: int, e: Script)
    ensures var (s1, ok1) := Create(Slots(t, [], None, []), espSize, "MONARCH_EFI", e.esp);
      Execute(t, espSize, rootSize, e).1.Some? <==>
        ok1 && Create(s1, rootSize, "MONARCH_ROOT", e.root).1 && forall i :: 0 <= i < |e.steps| ==> e.steps[i]
  {
    assert false in e.steps <==> !forall i :: 0 <= i < |e.steps| ==> e.steps[i];
  }

  // The first of them is the ESP and the second the root, by size and by name.
  lemma HandedOverAre(t: Table, espSize: int, rootSize: int, e: Script)
    requires OwnDisk(t, espSize, e) && Execute(t, espSize, rootSize, e).1.Some?
    ensures var (s, handoff) := Execute(t, espSize, rootSize, e);
      && |handoff.value| == 2 && handoff.value[0] in s.table && handoff.value[1] in s.table
      && (e.esp.renamed ==> s.table[handoff.value[0]].name == "MONARCH_EFI")
      && (e.root.renamed ==> s.table[handoff.value[1]].name == "MONARCH_ROOT")
    ensures e.esp.size.Some? && -1048576 <= e.esp.size.value - espSize <= 1048576
    ensures e.root.size.Some? && -1048576 <= e.root.size.value - rootSize <= 1048576
  {
    var s0 := Slots(t, [], None, []);
    HandedOverIff(t, espSize, rootSize, e);
    BothCreated(t, espSize, rootSize, e);
    CreatedIff(s0, espSize, "MONARCH_EFI", e.esp);
    var (s1, ok1) := Create(s0, espSize, "MONARCH_EFI", e.esp);
    CreatedIff(s1, rootSize, "MONARCH_ROOT", e.root);
    CreateProgress(s1.table, s1.(claimed := []), rootSize, "MONARCH_ROOT", e.root);
    assert s1.number.value in s1.table && s1.number.value in e.root.after;
  }

  // The two numbers handed over are exactly what the run claimed.
  lemma ExecuteHandsOver(t: Table, espSize: int, rootSize: int, e: Script)
    requires OwnDisk(t, espSize, e)
    ensures var (s, handoff) := Execute(t, espSize, rootSize, e);
      && (handoff.None? ==> Settled(t, s))
      && (handoff.Some? ==> Progress(t, s) && s.claimed == handoff.value && |handoff.value| == 2
                            && s.table.Keys == t.Keys + {handoff.value[0], handoff.value[1]})
  {
    BothCreated(t, espSize, rootSize, e);
    var (s1, ok1) := Create(Slots(t, [], None, []), espSize, "MONARCH_EFI", e.esp);
    var (s2, ok2) := Create(s1, rootSize, "MONARCH_ROOT", e.root);
    if !ok1 {
      RollBackSettles(t, s1, e.refused);
    } else if !ok2 || false in e.steps {
      RollBackSettles(t, s2, e.refused);
    }
  }

  lemma CleanupSettles(t: Table, s: Slots, disk: string, refused: set<nat>)
    requires Progress(t, s) && "/dev/" <= disk && s.claimed != []
    ensures Settled(t, CleanedUp(s, disk, s.claimed, refused))
    ensures CleanedUp(s, disk, s.claimed, refused).table == s.table - ((set n | n in s.claimed) - refused)
    ensures forall n :: n in CleanedUp(s, disk, s.claimed, refused).removals <==> n in s.claimed
  {
    OnceEach(s.claimed);
    RemovedSettles(t, s, Descending(Distinct(s.claimed)), refused);
    assert ValidRollback(disk, s.claimed) by {
      assert forall i :: 0 <= i < |s.claimed| ==> s.claimed[i] in s.claimed;
    }
  }

  lemma OnceEach(parts: seq<nat>)
    ensures (set n | n in Descending(Distinct(parts))) == set n | n in parts
    ensures forall n :: n in Descending(Distinct(parts)) <==> n in parts
    ensures NoneTwice(Descending(Distinct(parts)))
  {
    DistinctKeepsOne(parts);
    DescendingOnce(Distinct(parts));
  }

  lemma RemovalsWereClaimed(t: Table, disk: string, espSize: int, rootSize: int, e: Script)
    requires OwnDisk(t, espSize, e)
    ensures forall n :: n in WholeRun(t, disk, espSize, rootSize, e).removals ==>
              n in Created(t, espSize, rootSize, e).claimed
  {
    BothCreated(t, espSize, rootSize, e);
    var made := Created(t, espSize, rootSize, e);
    if Execute(t, espSize, rootSize, e).1.None? {
      RollBackSettles(t, made, e.refused);
    } else if !e.installed && "/dev/" <= disk {
      CleanupSettles(t, made, disk, e.refusedLater);
    }
  }

  // The later cleanup touches the disk exactly when the metadata names a device
  // and at least one slot, and none of number zero; then each number once.
  lemma CleanupIff(s: Slots, disk: string, parts: seq<nat>, refused: set<nat>)
    ensures CleanedUp(s, disk, parts, refused) != s <==>
              |disk| >= 5 && disk[..5] == "/dev/" && |parts| > 0 && 0 !in parts
    ensures s.removals <= CleanedUp(s, disk, parts, refused).removals
    ensures CleanedUp(s, disk, parts, refused) != s ==>
              forall n :: n in parts <==> n in CleanedUp(s, disk, parts, refused).removals[|s.removals|..]
  {
    DistinctKeepsOne(parts);
    DescendingOnce(Distinct(parts));
    var order := Descending(Distinct(parts));
    RemoveEachIsDifference(s, order, refused);
    assert (s.removals + order)[|s.removals|..] == order;
    assert parts != [] ==> parts[0] in order;
    assert order != [] ==> |s.removals + order| > |s.removals|;
  }

  // Over every run, with any slot choice and any reading, creation or removal
  // failing: entries that were there are untouched, only slots that were not
  // there are ever claimed, and only claimed ones removed, each at most once.
  lemma RunsOnlyTouchTheirOwn(t: Table, disk: string, espSize: int, rootSize: int, e: Script)
    requires OwnDisk(t, espSize, e)
    ensures Settled(t, WholeRun(t, disk, espSize, rootSize, e))
    ensures forall n :: n in WholeRun(t, disk, espSize, rootSize, e).removals ==>
              n in Created(t, espSize, rootSize, e).claimed
  {
    RemovalsWereClaimed(t, disk, espSize, rootSize, e);
    ExecuteHandsOver(t, espSize, rootSize, e);
    var (s, handoff) := Execute(t, espSize, rootSize, e);
    if handoff.Some? && !e.installed && "/dev/" <= disk {
      CleanupSettles(t, s, disk, e.refusedLater);
    }
  }

  // What the run claimed and what it made before it stopped creating.
  ghost function Created(t: Table, espSize: int, rootSize: int, e: Script): Slots {
    var (s1, ok1) := Create(Slots(t, [], None, []), espSize, "MONARCH_EFI", e.esp);
    if ok1 then Create(s1, rootSize, "MONARCH_ROOT", e.root).0 else s1
  }

  ghost function RefusedIn(t: Table, espSize: int, rootSize: int, e: Script): set<nat> {
    if Execute(t, espSize, rootSize, e).1.Some? then e.refusedLater else e.refused
  }

  // A run that does not end installed returns the initial table exactly when
  // every slot made was claimed and every removal of a claimed slot succeeded.
  lemma TableReturnsIff(t: Table, disk: string, espSize: int, rootSize: int, e: Script)
    requires OwnDisk(t, espSize, e) && "/dev/" <= disk
    requires !(Execute(t, espSize, rootSize, e).1.Some? && e.installed)
    ensures var made := Created(t, espSize, rootSize, e);
      WholeRun(t, disk, espSize, rootSize, e).table == t <==>
        && (forall n :: n in made.table && n !in t ==> n in made.claimed)
        && (forall n :: n in made.claimed ==> n !in RefusedIn(t, espSize, rootSize, e))
  {
    BothCreated(t, espSize, rootSize, e);
    var made := Created(t, espSize, rootSize, e);
    ExecuteHandsOver(t, espSize, rootSize, e);
    var refused := RefusedIn(t, espSize, rootSize, e);
    var final := WholeRun(t, disk, espSize, rootSize, e);
    if Execute(t, espSize, rootSize, e).1.Some? {
      CleanupSettles(t, made, disk, refused);
    } else {
      RollBackSettles(t, made, refused);
    }
    assert final.table == made.table - ((set n | n in made.claimed) - refused);
    ReturnedIff(t, made, refused, final.table);
  }

  // parted made a slot, but the run never got to see it.
  ghost predicate Lost(before: Table, e: Creation) {
    e.readBefore && e.after != before && !(e.exitOk && e.readAfter)
  }

  // What a creation by a sole writer leaves unclaimed.
  lemma UnclaimedIffLost(t: Table, s: Slots, want: int, name: string, e: Creation)
    requires Progress(t, s) && SoleWriter(s.table, e)
    requires forall n :: n in s.table && n !in t ==> n in s.claimed
    ensures var r := Create(s, want, name, e).0;
      (forall n :: n in r.table && n !in t ==> n in r.claimed) <==> !Lost(s.table, e)
  {
    var r := Create(s, want, name, e).0;
    CreatedIff(s, want, name, e);
    if e.readBefore && e.after != s.table {
      var n :| n in e.after && n > 0 && n !in s.table && e.after == s.table[n := e.after[n]];
      assert e.after.Keys == s.table.Keys + {n};
      assert NewSlot(s.table.Keys, e.after.Keys, n);
      ClaimedIff(s, want, name, e, n);
      CreateProgress(t, s, want, name, e);
      assert n in r.table;
    } else {
      assert r.table == s.table || r.table.Keys == s.table.Keys;
      CreateProgress(t, s, want, name, e);
    }
  }

  // In terms of what happened: the initial table comes back exactly when parted
  // made nothing the run could not see and every removal was honoured.
  lemma TableReturnsIffSeen(t: Table, disk: string, espSize: int, rootSize: int, e: Script)
    requires OwnDisk(t, espSize, e) && "/dev/" <= disk
    requires !(Execute(t, espSize, rootSize, e).1.Some? && e.installed)
    ensures var (s1, ok1) := Create(Slots(t, [], None, []), espSize, "MONARCH_EFI", e.esp);
      WholeRun(t, disk, espSize, rootSize, e).table == t <==>
        && !Lost(t, e.esp) && (ok1 ==> !Lost(s1.table, e.root))
        && (forall n :: n in Created(t, espSize, rootSize, e).claimed ==> n !in RefusedIn(t, espSize, rootSize, e))
  {
    TableReturnsIff(t, disk, espSize, rootSize, e);
    BothCreated(t, espSize, rootSize, e);
    var s0 := Slots(t, [], None, []);
    UnclaimedIffLost(t, s0, espSize, "MONARCH_EFI", e.esp);
    var (s1, ok1) := Create(s0, espSize, "MONARCH_EFI", e.esp);
    if ok1 {
      CreatedIff(s0, espSize, "MONARCH_EFI", e.esp);
      UnclaimedIffLost(t, s1, rootSize, "MONARCH_ROOT", e.root);
    }
  }

  lemma ReturnedIff(t: Table, made: Slots, refused: set<nat>, final: Table)
    requires Progress(t, made) && final == made.table - ((set n | n in made.claimed) - refused)
    ensures final == t <==>
      && (forall n :: n in made.table && n !in t ==> n in made.claimed)
      && (forall n :: n in made.claimed ==> n !in refused)
  {
    if final == t {
      forall n | n in made.table && n !in t ensures n in made.claimed {
        assert n !in final;
      }
      forall n | n in made.claimed ensures n !in refused {
        assert n !in final;
      }
    }
    if && (forall n :: n in made.table && n !in t ==> n in made.claimed)
       && (forall n :: n in made.claimed ==> n !in refused)
    {
      forall n ensures n in final <==> n in t {
      }
    }
  }

  // An installed run keeps its two partitions beside everything that was there.
  lemma InstalledKeepsBoth(t: Table, disk: string, espSize: int, rootSize: int, e: Script)
    requires OwnDisk(t, espSize, e) && Execute(t, espSize, rootSize, e).1.Some? && e.installed
    ensures var parts := Execute(t, espSize, rootSize, e).1.value;
      && |parts| == 2 && parts[0] != parts[1] && parts[0] !in t && parts[1] !in t
      && WholeRun(t, disk, espSize, rootSize, e).table.Keys == t.Keys + {parts[0], parts[1]}
      && WholeRun(t, disk, espSize, rootSize, e).removals == []
  {
    ExecuteHandsOver(t, espSize, rootSize, e);
    var (s, handoff) := Execute(t, espSize, rootSize, e);
    assert handoff.value[0] in s.claimed && handoff.value[1] in s.claimed;
  }

  // ----- the scripts, step by step

  class Disk {
    var table: Table
    var createdParts: seq<nat>
    var createdNumber: Option<nat>
    ghost var removals: seq<nat>

    ghost function State(): Slots
      reads this
    {
      Slots(table, createdParts, createdNumber, removals)
    }

    constructor (t: Table)
      ensures State() == Slots(t, [], None, [])
    {
      table, createdParts, createdNumber, removals := t, [], None, [];
    }

    // partition_numbers: the numbers in whatever order parted prints them.
    method PartitionNumbers(readable: bool) returns (numbers: Option<seq<nat>>)
      requires Numbered(table)
      ensures numbers.Some? <==> readable
      ensures numbers.Some? ==> Reading(numbers.value) && forall n: nat :: n in numbers.value <==> n in table
    {
      if !readable {
        return None;
      }
      var left, listed := table.Keys, [];
      while left != {}
        invariant Reading(listed)
        invariant left <= table.Keys
        invariant forall n: nat :: n in table <==> n in left || n in listed
        invariant forall n: nat :: n in listed ==> n !in left
        decreases left
      {
        var n :| n in left;
        left := left - {n};
        listed := listed + [n];
      }
      return Some(listed);
    }

    method CreatePartition(want: int, name: string, e: Creation) returns (ok: bool)
      requires Numbered(table) && Numbered(e.after)
      modifies this
      ensures (State(), ok) == Create(old(State()), want, name, e)
    {
      ghost var before := table;
      createdNumber := None;
      var first := PartitionNumbers(e.readBefore);
      if first.None? {
        return false;
      }
      table := e.after;
      if !e.exitOk {
        return false;
      }
      var second := PartitionNumbers(e.readAfter);
      if second.None? {
        return false;
      }
      var num := Claim(first.value, second.value);
      ClaimedSlot(before, e.after, first.value, second.value);
      if num.None? {
        return false;
      }
      var n := DecimalValue(num.value);
      createdParts := createdParts + [n];
      if e.size.None? || !(want - TOLERANCE <= e.size.value <= want + TOLERANCE) {
        return false;
      }
      if e.renamed {
        table := Named(table, n, name);
      }
      createdNumber := Some(n);
      return true;
    }

    method RemoveAll(order: seq<nat>, refused: set<nat>)
      modifies this`table, this`removals
      ensures State() == RemoveEach(old(State()), order, refused)
    {
      ghost var s := State();
      assert order[0..] == order;
      for i := 0 to |order|
        invariant createdParts == s.claimed && createdNumber == s.number
        invariant RemoveEach(State(), order[i..], refused) == RemoveEach(s, order, refused)
      {
        var n := order[i];
        assert order[i..][0] == n && order[i..][1..] == order[i + 1..];
        if n !in refused {
          table := table - {n};
        }
        removals := removals + [n];
      }
    }

    method RollbackCreatedParts(refused: set<nat>)
      modifies this
      ensures State() == RolledBack(old(State()), refused)
    {
      if |createdParts| == 0 {
        return;
      }
      RemoveAll(Descending(createdParts), refused);
      createdParts := [];
    }

    method RunPartitionExecute(espSize: int, rootSize: int, e: Script) returns (handoff: Option<seq<nat>>)
      requires createdParts == [] && createdNumber.None? && removals == []
      requires OwnDisk(table, espSize, e)
      modifies this
      ensures (State(), handoff) == Execute(old(table), espSize, rootSize, e)
    {
      BothCreated(table, espSize, rootSize, e);
      var ok := CreatePartition(espSize, "MONARCH_EFI", e.esp);
      if !ok {
        RollbackCreatedParts(e.refused);
        return None;
      }
      var espNumber := createdNumber.value;
      ok := CreatePartition(rootSize, "MONARCH_ROOT", e.root);
      if !ok {
        RollbackCreatedParts(e.refused);
        return None;
      }
      var rootNumber := createdNumber.value;
      ghost var s := State();
      for i := 0 to |e.steps|
        invariant State() == s && forall k :: 0 <= k < i ==> e.steps[k]
      {
        if !e.steps[i] {
          RollbackCreatedParts(e.refused);
          return None;
        }
      }
      return Some([espNumber, rootNumber]);
    }

    // The orchestrator's half: it forgets the handed-over numbers before it
    // touches the disk, so a second call removes nothing.
    method CleanupProtectedState(disk: string, createdPartitions: seq<nat>, refused: set<nat>) returns (kept: seq<nat>)
      modifies this
      ensures State() == CleanedUp(old(State()), disk, createdPartitions, refused)
      ensures kept == if ValidRollback(disk, createdPartitions) then [] else createdPartitions
    {
      if !ValidRollback(disk, createdPartitions) {
        return createdPartitions;
      }
      kept := [];
      RemoveAll(Descending(Distinct(createdPartitions)), refused);
    }
  }

  // The textual comparison finds the taken slot, whatever the listing order.
  lemma ClaimedSlot(before: Table, after: Table, first: seq<nat>, second: seq<nat>)
    requires Reading(first) && Reading(second)
    requires forall n: nat :: n in first <==> n in before
    requires forall n: nat :: n in second <==> n in after
    ensures Claim(first, second).None? <==> TakenSlot(before.Keys, after.Keys).None?
    ensures Claim(first, second).Some? ==>
              TakenSlot(before.Keys, after.Keys) == Some(DecimalValue(Claim(first, second).value))
  {
    if Claim(first, second).Some? {
      ClaimIsNumber(first, second);
      var n: nat :| Claim(first, second) == Some(Decimal(n));
      ValueOfDecimal(n);
      SameSlot(before, after, first, second, n);
      TakenIsNew(before.Keys, after.Keys, n);
    }
    if TakenSlot(before.Keys, after.Keys).Some? {
      var n := TakenSlot(before.Keys, after.Keys).value;
      SameSlot(before, after, first, second, n);
    }
  }

  lemma SameSlot(before: Table, after: Table, first: seq<nat>, second: seq<nat>, n: nat)
    requires Reading(first) && Reading(second)
    requires forall n: nat :: n in first <==> n in before
    requires forall n: nat :: n in second <==> n in after
    ensures Claim(first, second) == Some(Decimal(n)) <==> NewSlot(before.Keys, after.Keys, n)
  {
    ClaimIsExact(first, second, n);
    SameNew(before, after, first, second, n);
  }

  lemma SameNew(before: Table, after: Table, first: seq<nat>, second: seq<nat>, n: nat)
    requires forall n: nat :: n in first <==> n in before
    requires forall n: nat :: n in second <==> n in after
    ensures NewOnly(first, second, n) <==> NewSlot(before.Keys, after.Keys, n)
  {
    if NewOnly(first, second, n) {
      assert forall m: nat :: m in after.Keys <==> m in before.Keys + {n};
    }
    if NewSlot(before.Keys, after.Keys, n) {
      assert forall m: nat :: m in second <==> m in first || m == n;
    }
  }

  // Giving everything back twice gives nothing back the second time.
  lemma RollbackTwice(s: Slots, refused: set<nat>, again: set<nat>)
    ensures RolledBack(RolledBack(s, refused), again) == RolledBack(s, refused)
  {
    RemoveEachIsDifference(s, Descending(s.claimed), refused);
    assert Descending([]) == [];
  }
}
