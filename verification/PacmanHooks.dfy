// Masking pacman hooks around a package install and restoring them, with the
// work possibly interrupted between any two changes to the hook directory.
module PacmanHooks {

  // A symlink to /dev/null, or anything else.
  datatype Node = DevNull | Other(content: string)

  type HookDir = map<string, Node>

  const SUFFIX: string := ".monarch-backup"

  function Backup(name: string): string {
    name + SUFFIX
  }

  predicate IsMask(d: HookDir, name: string) {
    name in d && d[name].DevNull?
  }

  // ----- whole operations

  function MaskOne(d: HookDir, name: string): HookDir {
    if IsMask(d, name) then d
    else if name in d then (d - {name})[Backup(name) := d[name]][name := DevNull]
    else d[name := DevNull]
  }

  function UnmaskOne(d: HookDir, name: string): HookDir {
    var d1 := if IsMask(d, name) then d - {name} else d;
    if Backup(name) in d1 then (d1 - {Backup(name)})[name := d1[Backup(name)]] else d1
  }

  function MaskAll(d: HookDir, names: seq<string>): HookDir {
    if names == [] then d else MaskOne(MaskAll(d, names[..|names| - 1]), names[|names| - 1])
  }

  function UnmaskAll(d: HookDir, names: seq<string>): HookDir {
    if names == [] then d else UnmaskOne(UnmaskAll(d, names[..|names| - 1]), names[|names| - 1])
  }

  class Hooks {
    var entries: HookDir

    constructor (d: HookDir)
      ensures entries == d
    {
      entries := d;
    }

    method Mask(names: seq<string>)
      modifies this
      ensures entries == MaskAll(old(entries), names)
    {
      for i := 0 to |names|
        invariant entries == MaskAll(old(entries), names[..i])
      {
        var path := names[i];
        assert names[..i + 1][..i] == names[..i];
        if IsMask(entries, path) {
          continue;
        }
        ghost var before := entries;
        if path in entries {
          entries := entries - {Backup(path)};
          BackupIsOther(path);
          entries := entries[Backup(path) := entries[path]] - {path};
        }
        entries := entries[path := DevNull];
        assert entries == MaskOne(before, path);
      }
      assert names[..|names|] == names;
    }

    method Unmask(names: seq<string>)
      modifies this
      ensures entries == UnmaskAll(old(entries), names)
    {
      for i := 0 to |names|
        invariant entries == UnmaskAll(old(entries), names[..i])
      {
        var path := names[i];
        assert names[..i + 1][..i] == names[..i];
        if IsMask(entries, path) {
          entries := entries - {path};
        }
        if Backup(path) in entries {
          entries := (entries - {Backup(path)})[path := entries[Backup(path)]];
        }
      }
      assert names[..|names|] == names;
    }
  }

  lemma BackupIsOther(name: string)
    ensures Backup(name) != name
  {
    assert |Backup(name)| == |name| + |SUFFIX|;
  }

  lemma BackupInjective(a: string, b: string)
    requires Backup(a) == Backup(b)
    ensures a == b
  {
    assert |a| == |b|;
    assert a == Backup(a)[..|a|] && b == Backup(b)[..|b|];
  }

  // ----- single changes

  datatype Step = Masking(name: string) | Unmasking(name: string)

  // The next change to the directory the operation would make for one name; an
  // interrupted operation is a number of these, because how far it got is
  // recorded nowhere else.
  function Change(d: HookDir, step: Step): HookDir {
    match step
    case Masking(n) =>
      if IsMask(d, n) then d
      else if n in d then
        if Backup(n) in d then d - {Backup(n)} else d[Backup(n) := d[n]] - {n}
      else d[n := DevNull]
    case Unmasking(n) =>
      if IsMask(d, n) then d - {n}
      else if Backup(n) in d then (d - {Backup(n)})[n := d[Backup(n)]]
      else d
  }

  function Changes(d: HookDir, steps: seq<Step>): HookDir {
    if steps == [] then d else Change(Changes(d, steps[..|steps| - 1]), steps[|steps| - 1])
  }

  // A whole masking is three changes or fewer, and then nothing more happens.
  lemma MaskOneInSteps(d: HookDir, n: string)
    ensures MaskOne(d, n) == Change(Change(Change(d, Masking(n)), Masking(n)), Masking(n))
    ensures Change(MaskOne(d, n), Masking(n)) == MaskOne(d, n)
  {
    BackupIsOther(n);
  }

  // A whole unmasking is two changes or fewer.
  lemma UnmaskOneInSteps(d: HookDir, n: string)
    ensures var once := Change(d, Unmasking(n));
      UnmaskOne(d, n) == once || UnmaskOne(d, n) == Change(once, Unmasking(n))
  {
    BackupIsOther(n);
  }

  // ----- what any mixture of interrupted operations keeps

  // No name is the backup of another.
  ghost predicate Apart(names: seq<string>) {
    && (forall a, b :: a in names && b in names ==> Backup(a) != b)
    && forall i, j :: 0 <= i < j < |names| ==> names[i] != names[j]
  }

  // No name is masked already and none has a backup.
  ghost predicate Clean(d: HookDir, names: seq<string>) {
    forall n :: n in names ==> !IsMask(d, n) && Backup(n) !in d
  }

  ghost predicate Touched(names: seq<string>, k: string) {
    exists n :: n in names && (k == n || k == Backup(n))
  }

  // The hook itself, or its backup, holds what was there; never both or none.
  ghost predicate Holds(d0: HookDir, d: HookDir, n: string) {
    if n in d0 then
      || (n in d && d[n] == d0[n] && Backup(n) !in d)
      || (n !in d && Backup(n) in d && d[Backup(n)] == d0[n])
      || (IsMask(d, n) && Backup(n) in d && d[Backup(n)] == d0[n])
    else
      Backup(n) !in d && (n in d ==> d[n].DevNull?)
  }

  ghost predicate Within(d0: HookDir, d: HookDir, names: seq<string>) {
    && (forall n :: n in names ==> Holds(d0, d, n))
    && forall k :: !Touched(names, k) ==> (k in d <==> k in d0) && (k in d ==> d[k] == d0[k])
  }

  lemma ChangeElsewhere(d: HookDir, step: Step, k: string)
    requires k != step.name && k != Backup(step.name)
    ensures k in Change(d, step) <==> k in d
    ensures k in d ==> Change(d, step)[k] == d[k]
  {
  }

  lemma ChangeHolds(d0: HookDir, d: HookDir, step: Step)
    requires Holds(d0, d, step.name) && !IsMask(d0, step.name)
    ensures Holds(d0, Change(d, step), step.name)
  {
    BackupIsOther(step.name);
  }

  lemma ChangeStaysWithin(d0: HookDir, d: HookDir, names: seq<string>, step: Step)
    requires Apart(names) && Clean(d0, names) && Within(d0, d, names) && step.name in names
    ensures Within(d0, Change(d, step), names)
  {
    var next := Change(d, step);
    forall n | n in names ensures Holds(d0, next, n) {
      if n == step.name {
        ChangeHolds(d0, d, step);
      } else {
        if Backup(n) == Backup(step.name) { BackupInjective(n, step.name); }
        ChangeElsewhere(d, step, n);
        ChangeElsewhere(d, step, Backup(n));
      }
    }
    forall k | !Touched(names, k) ensures (k in next <==> k in d0) && (k in next ==> next[k] == d0[k]) {
      ChangeElsewhere(d, step, k);
    }
  }

  lemma {:induction false} ChangesStayWithin(d0: HookDir, names: seq<string>, steps: seq<Step>)
    requires Apart(names) && Clean(d0, names) && forall i :: 0 <= i < |steps| ==> steps[i].name in names
    ensures Within(d0, Changes(d0, steps), names)
    decreases |steps|
  {
    if steps == [] {
    } else {
      ChangesStayWithin(d0, names, steps[..|steps| - 1]);
      ChangeStaysWithin(d0, Changes(d0, steps[..|steps| - 1]), names, steps[|steps| - 1]);
    }
  }

  // One complete unmasking gives back the original from anywhere in between.
  lemma UnmaskHolds(d0: HookDir, d: HookDir, n: string)
    requires Holds(d0, d, n) && !IsMask(d0, n) && Backup(n) !in d0
    ensures var r := UnmaskOne(d, n);
      Backup(n) !in r && (n in r <==> n in d0) && (n in r ==> r[n] == d0[n])
  {
    BackupIsOther(n);
  }

  lemma {:induction false} UnmaskRestoresSome(d0: HookDir, d: HookDir, names: seq<string>, upto: nat)
    requires Apart(names) && Clean(d0, names) && Within(d0, d, names) && upto <= |names|
    ensures var r := UnmaskAll(d, names[..upto]);
      && Within(d0, r, names)
      && forall i :: 0 <= i < upto ==> Backup(names[i]) !in r && (names[i] in r <==> names[i] in d0)
    decreases upto
  {
    if upto > 0 {
      var n := names[upto - 1];
      assert names[..upto][..upto - 1] == names[..upto - 1];
      UnmaskRestoresSome(d0, d, names, upto - 1);
      var m := UnmaskAll(d, names[..upto - 1]);
      UnmaskOneWithin(d0, m, names, n);
      UnmaskHolds(d0, m, n);
      forall i | 0 <= i < upto - 1
        ensures Backup(names[i]) !in UnmaskOne(m, n) && (names[i] in UnmaskOne(m, n) <==> names[i] in d0)
      {
        UnmaskElsewhere(m, n, names, i);
      }
    }
  }

  lemma UnmaskOneWithin(d0: HookDir, d: HookDir, names: seq<string>, n: string)
    requires Apart(names) && Clean(d0, names) && Within(d0, d, names) && n in names
    ensures Within(d0, UnmaskOne(d, n), names)
  {
    UnmaskOneInSteps(d, n);
    ChangeStaysWithin(d0, d, names, Unmasking(n));
    ChangeStaysWithin(d0, Change(d, Unmasking(n)), names, Unmasking(n));
  }

  lemma UnmaskElsewhere(d: HookDir, n: string, names: seq<string>, i: nat)
    requires Apart(names) && i < |names| && n in names && names[i] != n
    ensures names[i] in UnmaskOne(d, n) <==> names[i] in d
    ensures Backup(names[i]) in UnmaskOne(d, n) <==> Backup(names[i]) in d
  {
    assert names[i] in names && Backup(n) != names[i] && Backup(names[i]) != n;
    if Backup(names[i]) == Backup(n) { BackupInjective(names[i], n); }
  }

  // The two directories agree on a hook and its backup.
  ghost predicate Agree(d: HookDir, e: HookDir, n: string) {
    && (n in d <==> n in e) && (n in d ==> d[n] == e[n])
    && (Backup(n) in d <==> Backup(n) in e) && (Backup(n) in d ==> d[Backup(n)] == e[Backup(n)])
  }

  lemma SameEverywhere(d: HookDir, e: HookDir, names: seq<string>)
    requires forall n :: n in names ==> Agree(d, e, n)
    requires forall k :: !Touched(names, k) ==> (k in d <==> k in e) && (k in d ==> d[k] == e[k])
    ensures d == e
  {
    forall k ensures k in d <==> k in e
      ensures k in d ==> d[k] == e[k]
    {
      if Touched(names, k) {
        var n :| n in names && (k == n || k == Backup(n));
        assert Agree(d, e, n);
      }
    }
  }

  // From a clean directory: any number of maskings and unmaskings, each cut off
  // anywhere, in any order and repeated at will, then one complete unmasking
  // restore the directory exactly.
  lemma InterruptedWorkIsUndone(d0: HookDir, names: seq<string>, steps: seq<Step>)
    requires Apart(names) && Clean(d0, names) && forall i :: 0 <= i < |steps| ==> steps[i].name in names
    ensures UnmaskAll(Changes(d0, steps), names) == d0
  {
    var d := Changes(d0, steps);
    ChangesStayWithin(d0, names, steps);
    UnmaskRestoresSome(d0, d, names, |names|);
    assert names[..|names|] == names;
    var r := UnmaskAll(d, names);
    forall n | n in names ensures Agree(r, d0, n) {
      var i :| 0 <= i < |names| && names[i] == n;
      assert Holds(d0, r, n);
    }
    SameEverywhere(r, d0, names);
  }

  // ----- complete operations on any directory

  lemma OthersAgree(d: HookDir, names: seq<string>, m: string, n: string)
    requires Apart(names) && m in names && n in names && m != n
    ensures Agree(MaskOne(d, m), d, n) && Agree(UnmaskOne(d, m), d, n)
  {
    if Backup(m) == Backup(n) { BackupInjective(m, n); }
  }

  lemma OneAgrees(d: HookDir, e: HookDir, n: string)
    requires Agree(d, e, n)
    ensures Agree(MaskOne(d, n), MaskOne(e, n), n) && Agree(UnmaskOne(d, n), UnmaskOne(e, n), n)
  {
    BackupIsOther(n);
  }

  // What a whole pass does to one hook is what its own operation does.
  lemma {:induction false} PassIsLocal(d: HookDir, names: seq<string>, upto: nat, n: string)
    requires Apart(names) && upto <= |names| && n in names
    ensures n in names[..upto] ==> Agree(MaskAll(d, names[..upto]), MaskOne(d, n), n)
    ensures n in names[..upto] ==> Agree(UnmaskAll(d, names[..upto]), UnmaskOne(d, n), n)
    ensures n !in names[..upto] ==> Agree(MaskAll(d, names[..upto]), d, n) && Agree(UnmaskAll(d, names[..upto]), d, n)
    decreases upto
  {
    if upto > 0 {
      var m := names[upto - 1];
      assert names[..upto][..upto - 1] == names[..upto - 1];
      assert names[..upto] == names[..upto - 1] + [m];
      PassIsLocal(d, names, upto - 1, n);
      var masked, unmasked := MaskAll(d, names[..upto - 1]), UnmaskAll(d, names[..upto - 1]);
      if m == n {
        assert n !in names[..upto - 1];
        OneAgrees(masked, d, n);
        OneAgrees(unmasked, d, n);
      } else {
        OthersAgree(masked, names, m, n);
        OthersAgree(unmasked, names, m, n);
      }
    }
  }

  lemma WholePass(d: HookDir, names: seq<string>, n: string)
    requires Apart(names) && n in names
    ensures Agree(MaskAll(d, names), MaskOne(d, n), n) && Agree(UnmaskAll(d, names), UnmaskOne(d, n), n)
  {
    assert names[..|names|] == names;
    PassIsLocal(d, names, |names|, n);
  }

  lemma {:induction false} PassElsewhere(d: HookDir, names: seq<string>, k: string)
    requires !Touched(names, k)
    ensures k in MaskAll(d, names) <==> k in d
    ensures k in d ==> MaskAll(d, names)[k] == d[k]
    ensures k in UnmaskAll(d, names) <==> k in d
    ensures k in d ==> UnmaskAll(d, names)[k] == d[k]
    decreases |names|
  {
    if names != [] {
      var front, n := names[..|names| - 1], names[|names| - 1];
      assert n in names;
      assert forall m :: m in front ==> m in names;
      PassElsewhere(d, front, k);
    }
  }

  // After a masking every named hook is a mask, and what was there and was none is
  // in its backup; other backups are as before.
  lemma MaskingMasks(d: HookDir, names: seq<string>, n: string)
    requires Apart(names) && n in names
    ensures var r, bk := MaskAll(d, names), n + ".monarch-backup";
      && n in r && r[n].DevNull?
      && (bk in r <==> bk in d || (n in d && !d[n].DevNull?))
      && (bk in r ==> r[bk] == if n in d && !d[n].DevNull? then d[n] else d[bk])
  {
    WholePass(d, names, n);
    BackupIsOther(n);
  }

  // After an unmasking no named hook has a backup: the backup is back in place, or
  // without one the mask is gone and anything else untouched.
  lemma UnmaskingRestores(d: HookDir, names: seq<string>, n: string)
    requires Apart(names) && n in names
    ensures var r, bk := UnmaskAll(d, names), n + ".monarch-backup";
      && bk !in r
      && (n in r <==> bk in d || (n in d && !d[n].DevNull?))
      && (n in r ==> r[n] == if bk in d then d[bk] else d[n])
  {
    WholePass(d, names, n);
    BackupIsOther(n);
  }

  // Masking and then unmasking restores a directory exactly when no hook was
  // masked beforehand and none had a backup.
  lemma RoundTripIff(d: HookDir, names: seq<string>)
    requires Apart(names)
    ensures UnmaskAll(MaskAll(d, names), names) == d <==> Clean(d, names)
  {
    var r := UnmaskAll(MaskAll(d, names), names);
    forall n | n in names
      ensures Agree(r, d, n) <==> !IsMask(d, n) && Backup(n) !in d
    {
      WholePass(d, names, n);
      WholePass(MaskAll(d, names), names, n);
      OneAgrees(MaskAll(d, names), MaskOne(d, n), n);
      BackupIsOther(n);
    }
    if r == d {
      forall n | n in names ensures !IsMask(d, n) && Backup(n) !in d {
        assert Agree(r, d, n);
      }
    }
    if Clean(d, names) {
      forall k ensures k in r <==> k in d
        ensures k in r ==> r[k] == d[k]
      {
        if Touched(names, k) {
          var n :| n in names && (k == n || k == Backup(n));
          assert Agree(r, d, n);
        } else {
          PassElsewhere(d, names, k);
          PassElsewhere(MaskAll(d, names), names, k);
        }
      }
    }
  }

  // A second masking changes nothing, on any directory.
  lemma MaskTwice(d: HookDir, names: seq<string>)
    requires Apart(names)
    ensures MaskAll(MaskAll(d, names), names) == MaskAll(d, names)
  {
    var once := MaskAll(d, names);
    forall n | n in names ensures Agree(MaskAll(once, names), once, n) {
      WholePass(d, names, n);
      WholePass(once, names, n);
    }
    forall k | !Touched(names, k)
      ensures k in MaskAll(once, names) <==> k in once
      ensures k in once ==> MaskAll(once, names)[k] == once[k]
    {
      PassElsewhere(once, names, k);
    }
    SameEverywhere(MaskAll(once, names), once, names);
  }

  // A second unmasking changes nothing exactly when no backup is a mask.
  lemma UnmaskTwiceIff(d: HookDir, names: seq<string>)
    requires Apart(names)
    ensures UnmaskAll(UnmaskAll(d, names), names) == UnmaskAll(d, names) <==>
              forall n :: n in names ==> !IsMask(d, Backup(n))
  {
    var once := UnmaskAll(d, names);
    var twice := UnmaskAll(once, names);
    forall n | n in names ensures Agree(twice, once, n) <==> !IsMask(d, Backup(n)) {
      WholePass(d, names, n);
      WholePass(once, names, n);
      BackupIsOther(n);
    }
    if twice == once {
      forall n | n in names ensures !IsMask(d, Backup(n)) {
        assert Agree(twice, once, n);
      }
    }
    if forall n :: n in names ==> !IsMask(d, Backup(n)) {
      forall k | !Touched(names, k) ensures (k in twice <==> k in once) && (k in twice ==> twice[k] == once[k]) {
        PassElsewhere(once, names, k);
      }
      SameEverywhere(twice, once, names);
    }
  }

  const HOOK: string := "a.hook"

  const BACKUP_MASKED: HookDir := map[HOOK := Other("x"), Backup(HOOK) := DevNull]

  // A backup that is itself a mask is put back by the first unmasking and thrown
  // away by the second.
  lemma MaskedBackup()
    ensures Apart([HOOK])
    ensures UnmaskAll(UnmaskAll(BACKUP_MASKED, [HOOK]), [HOOK]) != UnmaskAll(BACKUP_MASKED, [HOOK])
  {
    BackupIsOther(HOOK);
    assert HOOK in [HOOK];
    UnmaskTwiceIff(BACKUP_MASKED, [HOOK]);
  }
}
