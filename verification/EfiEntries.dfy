// Registering the Limine boot entry and undoing it (Boot#### variables and
// BootOrder, section 3.3 of the UEFI Specification).
module EfiEntries {
  import opened Wrappers

  // Boot entries by number, and the order they are tried in.
  datatype Firmware = Firmware(entries: map<string, string>, order: seq<string>)

  // What is remembered for a rollback.
  datatype Rollback = Rollback(createdEntry: string, previousOrder: seq<string>)

  // How the firmware behaves during one registration and one rollback: what the
  // create call leaves behind however it exits, whether the entries can be read
  // again, and which later calls are honoured.
  datatype Behaviour = Behaviour(
    created: Option<(string, string)>, orderAfterCreate: seq<string>,
    readable: bool, listing: seq<string>, ordered: bool,
    deleted: bool, restored: bool)

  predicate IsHex(c: char) {
    '0' <= c <= '9' || 'A' <= c <= 'F' || 'a' <= c <= 'f'
  }

  // [0-9A-Fa-f]{4}
  predicate BootNumber(s: string) {
    |s| == 4 && forall i :: 0 <= i < 4 ==> IsHex(s[i])
  }

  ghost predicate Numbered(f: Firmware) {
    && (forall n :: n in f.entries ==> BootNumber(n))
    && forall i :: 0 <= i < |f.order| ==> BootNumber(f.order[i])
  }

  // A listing names every entry once.
  ghost predicate Lists(listed: seq<string>, entries: map<string, string>) {
    && (forall n :: n in listed <==> n in entries)
    && forall i, j :: 0 <= i < j < |listed| ==> listed[i] != listed[j]
  }

  // The first listed entry that was not there before and is this ESP's Limine.
  function FirstNew(listed: seq<string>, labels: map<string, string>, before: map<string, string>,
                    ours: string -> bool): Option<string> {
    if listed == [] then None
    else if listed[0] in labels && listed[0] !in before && ours(labels[listed[0]]) then Some(listed[0])
    else FirstNew(listed[1..], labels, before, ours)
  }

  // The previous order without the new entry and without stale numbers.
  function Kept(order: seq<string>, entries: map<string, string>, own: string): seq<string> {
    if order == [] then []
    else if order[0] != own && order[0] in entries then [order[0]] + Kept(order[1..], entries, own)
    else Kept(order[1..], entries, own)
  }

  function AfterCreate(f: Firmware, b: Behaviour): Firmware {
    match b.created
    case None => f.(order := b.orderAfterCreate)
    case Some((n, title)) => Firmware(f.entries[n := title], b.orderAfterCreate)
  }

  // _register_limine_efi_entry: the firmware afterwards and what to undo.
  function Registered(f: Firmware, ours: string -> bool, b: Behaviour): (Firmware, Option<Rollback>) {
    var g := AfterCreate(f, b);
    if !b.readable then (g, None)
    else match FirstNew(b.listing, g.entries, f.entries, ours)
      case None => (g, None)
      case Some(own) =>
        (if b.ordered then g.(order := [own] + Kept(f.order, f.entries, own)) else g,
         Some(Rollback(own, f.order)))
  }

  function Without(s: seq<string>, x: string): seq<string> {
    if s == [] then [] else if s[0] == x then Without(s[1..], x) else [s[0]] + Without(s[1..], x)
  }

  // efibootmgr --delete-bootnum drops the entry and its place in the order.
  function Deleted(f: Firmware, n: string): Firmware {
    Firmware(f.entries - {n}, Without(f.order, n))
  }

  predicate ValidOrder(order: seq<string>) {
    order != [] && forall i :: 0 <= i < |order| ==> BootNumber(order[i])
  }

  // _rollback_protected_efi_entry
  function Undone(f: Firmware, r: Option<Rollback>, b: Behaviour): Firmware {
    if r.None? || !BootNumber(r.value.createdEntry) then f
    else
      var g := if b.deleted then Deleted(f, r.value.createdEntry) else f;
      if ValidOrder(r.value.previousOrder) && b.restored then g.(order := r.value.previousOrder) else g
  }

  // The call the rollback makes, if any.
  function Removal(r: Option<Rollback>): set<string> {
    if r.Some? && BootNumber(r.value.createdEntry) then {r.value.createdEntry} else {}
  }

  // Firmware picks a free number for a new entry and lists what it has.
  ghost predicate Plausible(f: Firmware, b: Behaviour) {
    && Numbered(f)
    && (b.created.Some? ==> BootNumber(b.created.value.0) && b.created.value.0 !in f.entries)
    && Lists(b.listing, AfterCreate(f, b).entries)
  }

  lemma {:induction false} FirstNewFound(listed: seq<string>, labels: map<string, string>,
                                         before: map<string, string>, ours: string -> bool)
    ensures var r := FirstNew(listed, labels, before, ours);
      && (r.Some? ==> r.value in listed && r.value in labels && r.value !in before && ours(labels[r.value]))
      && (r.None? ==> forall n :: n in listed && n in labels && n !in before ==> !ours(labels[n]))
    decreases |listed|
  {
    if listed != [] {
      FirstNewFound(listed[1..], labels, before, ours);
      assert listed == [listed[0]] + listed[1..];
    }
  }

  class Context {
    var firmware: Firmware
    var rollback: Option<Rollback>
    ghost var removed: set<string>

    constructor (f: Firmware)
      ensures firmware == f && rollback.None? && removed == {}
    {
      firmware, rollback, removed := f, None, {};
    }

    method Register(ours: string -> bool, b: Behaviour)
      requires rollback.None?
      modifies this`firmware, this`rollback
      ensures (firmware, rollback) == Registered(old(firmware), ours, b)
    {
      var before := firmware;
      firmware := AfterCreate(firmware, b);
      if !b.readable {
        return;
      }
      var own := FirstNew(b.listing, firmware.entries, before.entries, ours);
      if own.None? {
        return;
      }
      var keep: seq<string> := [];
      assert before.order[0..] == before.order;
      ghost var kept := Kept(before.order, before.entries, own.value);
      for i := 0 to |before.order|
        invariant keep + Kept(before.order[i..], before.entries, own.value) == kept
      {
        assert before.order[i..][0] == before.order[i] && before.order[i..][1..] == before.order[i + 1..];
        if before.order[i] != own.value && before.order[i] in before.entries {
          keep := keep + [before.order[i]];
        }
      }
      assert before.order[|before.order|..] == [] && keep + [] == keep;
      rollback := Some(Rollback(own.value, before.order));
      if b.ordered {
        firmware := firmware.(order := [own.value] + keep);
      }
    }

    method RollBack(b: Behaviour)
      modifies this
      ensures firmware == Undone(old(firmware), old(rollback), b)
      ensures rollback.None? && removed == old(removed) + Removal(old(rollback))
    {
      var r := rollback;
      rollback := None;
      if r.None? || !BootNumber(r.value.createdEntry) {
        return;
      }
      removed := removed + {r.value.createdEntry};
      if b.deleted {
        firmware := Deleted(firmware, r.value.createdEntry);
      }
      if ValidOrder(r.value.previousOrder) && b.restored {
        firmware := firmware.(order := r.value.previousOrder);
      }
    }
  }

  // For every firmware behaviour: at most one number is deleted, never one that
  // was there before, and every earlier entry survives with its title.
  lemma OnlyOurEntryGoes(f: Firmware, ours: string -> bool, b: Behaviour)
    requires Plausible(f, b)
    ensures var (g, r) := Registered(f, ours, b);
      && |Removal(r)| <= 1 && Removal(r) !! f.entries.Keys
      && (forall n :: n in f.entries ==> n in g.entries && g.entries[n] == f.entries[n])
      && (forall n :: n in f.entries ==> n in Undone(g, r, b).entries && Undone(g, r, b).entries[n] == f.entries[n])
  {
    FirstNewFound(b.listing, AfterCreate(f, b).entries, f.entries, ours);
  }

  lemma {:induction false} KeptInOrder(order: seq<string>, entries: map<string, string>, own: string)
    ensures forall n :: n in Kept(order, entries, own) <==> n in order && n != own && n in entries
    ensures Without(Kept(order, entries, own), own) == Kept(order, entries, own)
    ensures |Kept(order, entries, own)| <= |order|
    ensures (forall n :: n in order ==> n != own && n in entries) ==> Kept(order, entries, own) == order
    decreases |order|
  {
    if order != [] {
      KeptInOrder(order[1..], entries, own);
      assert order == [order[0]] + order[1..];
      assert order[0] in order && forall n :: n in order[1..] ==> n in order;
    }
  }

  // A number of the previous order that is asked for again.
  predicate Wanted(n: string, entries: map<string, string>, own: string) {
    n != own && n in entries
  }

  // The kept numbers are the wanted ones of the previous order, all of them, in
  // their old order: at gives the places, from k on, they came from.
  lemma {:induction false} KeptPlaces(order: seq<string>, k: nat, entries: map<string, string>, own: string)
    returns (at: seq<nat>)
    requires k <= |order|
    ensures var kept := Kept(order[k..], entries, own);
      |at| == |kept| && forall i :: 0 <= i < |at| ==> k <= at[i] < |order| && order[at[i]] == kept[i]
    ensures forall i, j :: 0 <= i < j < |at| ==> at[i] < at[j]
    ensures forall x: nat :: k <= x < |order| ==> (x in at <==> Wanted(order[x], entries, own))
    decreases |order| - k
  {
    at := [];
    if k < |order| {
      var rest := KeptPlaces(order, k + 1, entries, own);
      assert order[k..][0] == order[k] && order[k..][1..] == order[k + 1..];
      at := rest;
      if Wanted(order[k], entries, own) {
        at := [k] + rest;
        assert forall x: nat :: x in at <==> x == k || x in rest;
      }
    }
  }

  // While registered, a firmware that accepts the order tries the new entry
  // first and then exactly the earlier existing entries.
  lemma RegisteredOrder(f: Firmware, ours: string -> bool, b: Behaviour)
    requires Plausible(f, b) && b.ordered && Registered(f, ours, b).1.Some?
    ensures var (g, r) := Registered(f, ours, b);
      var own := r.value.createdEntry;
      && own in g.entries && own !in f.entries && ours(g.entries[own])
      && g.order == [own] + Kept(f.order, f.entries, own)
      && (forall n :: n in g.order[1..] <==> n in f.order && n in f.entries)
  {
    var g := AfterCreate(f, b);
    FirstNewFound(b.listing, g.entries, f.entries, ours);
    KeptInOrder(f.order, f.entries, Registered(f, ours, b).1.value.createdEntry);
  }

  // The entries are back exactly when the create call left nothing, or its entry
  // could be claimed and the firmware honoured its deletion.
  lemma EntriesReturnIff(f: Firmware, ours: string -> bool, b: Behaviour)
    requires Plausible(f, b)
    ensures var (g, r) := Registered(f, ours, b);
      Undone(g, r, b).entries == f.entries <==>
        b.created.None? || (b.readable && ours(b.created.value.1) && b.deleted)
  {
    var g := AfterCreate(f, b);
    FirstNewFound(b.listing, g.entries, f.entries, ours);
    if b.created.Some? {
      var (n, title) := b.created.value;
      assert n in g.entries && n in b.listing;
      assert forall m :: m in g.entries && m !in f.entries ==> m == n;
      if b.readable && ours(title) && b.deleted {
        assert f.entries[n := title] - {n} == f.entries;
      } else {
        assert n in g.entries && n !in f.entries;
      }
    }
  }

  // On firmware that honours the order it is given, BootOrder is back exactly when
  // an entry was claimed, whether or not its deletion was honoured, or the create
  // call had not touched the order. An empty order cannot be set again and needs
  // the deletion.
  lemma OrderReturnsIff(f: Firmware, ours: string -> bool, b: Behaviour)
    requires Plausible(f, b) && b.restored && (b.ordered || f.order != [])
    ensures var (g, r) := Registered(f, ours, b);
      Undone(g, r, b).order == f.order <==>
        if r.Some? then f.order != [] || b.deleted else b.orderAfterCreate == f.order
  {
    var g := AfterCreate(f, b);
    FirstNewFound(b.listing, g.entries, f.entries, ours);
    if Registered(f, ours, b).1.Some? {
      var own := Registered(f, ours, b).1.value.createdEntry;
      assert own in g.entries;
      if f.order == [] {
        assert Kept(f.order, f.entries, own) == [] && Without([own], own) == [];
      }
    }
  }

  // A remembered entry that is no number of four hexadecimal digits is ignored.
  lemma OddNumberIgnored(f: Firmware, r: Rollback, b: Behaviour)
    requires || |r.createdEntry| != 4
             || exists i :: 0 <= i < |r.createdEntry| && r.createdEntry[i] !in "0123456789abcdefABCDEF"
    ensures Undone(f, Some(r), b) == f && Removal(Some(r)) == {}
  {
    var hex := "0123456789abcdefABCDEF";
    if |r.createdEntry| == 4 {
      var i :| 0 <= i < 4 && r.createdEntry[i] !in hex;
      HexDigit(r.createdEntry[i]);
    }
  }

  // A remembered order that is empty or holds no such number is not set again.
  lemma OddOrderIgnored(f: Firmware, r: Rollback, b: Behaviour, i: int)
    requires BootNumber(r.createdEntry)
    requires r.previousOrder == [] || (0 <= i < |r.previousOrder| && |r.previousOrder[i]| != 4)
    ensures Undone(f, Some(r), b).order == if b.deleted then Without(f.order, r.createdEntry) else f.order
  {
    assert r.previousOrder != [] ==> !BootNumber(r.previousOrder[i]);
  }

  lemma HexDigit(c: char)
    ensures IsHex(c) <==> c in "0123456789abcdefABCDEF"
  {
    var hex := "0123456789abcdefABCDEF";
    if IsHex(c) {
      var i :=
        if c <= '9' then c as int - '0' as int
        else if c >= 'a' then c as int - 'a' as int + 10
        else c as int - 'A' as int + 16;
      assert hex[i] == c;
    }
  }

  // ----- an entry that is kept and cannot be read back

  const WINDOWS_ONLY := Firmware(map["0000" := "Windows"], ["0000"])

  const UNREADABLE := Behaviour(Some(("0001", "Limine")), ["0001", "0000"], false, ["0000", "0001"], true, true, true)

  lemma KeptEntryStays(ours: string -> bool)
    ensures Plausible(WINDOWS_ONLY, UNREADABLE)
    ensures var (g, r) := Registered(WINDOWS_ONLY, ours, UNREADABLE);
      && "0001" in Undone(g, r, UNREADABLE).entries && "0001" !in WINDOWS_ONLY.entries
      && Undone(g, r, UNREADABLE).order != WINDOWS_ONLY.order
  {
    var f, b := WINDOWS_ONLY, UNREADABLE;
    assert AfterCreate(f, b).entries == map["0000" := "Windows", "0001" := "Limine"];
    assert "0000"[3] != "0001"[3];
    assert Plausible(f, b);
    OrderReturnsIff(f, ours, b);
    assert f.order[0] != b.orderAfterCreate[0];
  }
}
