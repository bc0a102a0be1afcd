// What the cryptdevice words of a command line say, and which words are added for
// them, said of the text.
module LuksMappings {
  import opened Wrappers
  import opened Text
  import opened CommandLine

  function Uuid(u: Option<string>, name: string, options: string): Option<Mapping> {
    match u
    case None => None
    case Some(uuid) => if name == [] then None else Some(Mapping(uuid, name, options))
  }

  // cryptdevice=spec:name:options, where the options may hold more colons; the
  // options may be missing, but not the name.
  lemma MappingMeans(spec: string, name: string, options: string, blkid: string -> string)
    requires ':' !in spec && ':' !in name
    ensures var word := "cryptdevice=" + spec + ":" + name + ":" + options;
      IsCrypt(word) && ParseMapping(word, blkid) == Uuid(LuksUuid(spec, blkid), name, options)
    ensures var word := "cryptdevice=" + spec + ":" + name;
      IsCrypt(word) && ParseMapping(word, blkid) == Uuid(LuksUuid(spec, blkid), name, "")
    ensures IsCrypt("cryptdevice=" + spec) && ParseMapping("cryptdevice=" + spec, blkid).None?
  {
    WordParts("cryptdevice=", spec, name, options);
    PartitionAt(spec, name + ":" + options);
    PartitionAt(name, options);
    PartitionAt(spec, name);
    PartitionNone(name);
    PartitionNone(spec);
  }

  lemma WordParts(key: string, spec: string, name: string, options: string)
    ensures var word := key + spec + ":" + name + ":" + options;
      key <= word && word[|key|..] == spec + ":" + (name + ":" + options)
    ensures var word := key + spec + ":" + name;
      key <= word && word[|key|..] == spec + ":" + name
    ensures key <= key + spec && (key + spec)[|key|..] == spec
  {
    assert key + spec + ":" + name + ":" + options == key + (spec + ":" + (name + ":" + options));
    assert key + spec + ":" + name == key + (spec + ":" + name);
  }

  // The three ways to name a device, and no other.
  lemma UuidMeans(x: string, spec: string, blkid: string -> string)
    ensures LuksUuid("UUID=" + x, blkid) == Some(x)
    ensures var asked := blkid("/dev/disk/by-partuuid/" + x);
      LuksUuid("PARTUUID=" + x, blkid) == if asked == "" then None else Some(asked)
    ensures var asked := blkid("/dev/" + x);
      LuksUuid("/dev/" + x, blkid) == if asked == "" then None else Some(asked)
    ensures !("UUID=" <= spec) && !("PARTUUID=" <= spec) && !("/dev/" <= spec) ==> LuksUuid(spec, blkid).None?
  {
    assert ("UUID=" + x)[5..] == x && ("PARTUUID=" + x)[9..] == x;
    assert ("PARTUUID=" + x)[0] == 'P' && ("/dev/" + x)[0] == '/';
    assert "UUID="[0] == 'U' && "PARTUUID="[0] == 'P';
  }

  // ----- allow-discards

  lemma ContainsLater(s: string, needle: string)
    requires s != [] && Contains(s[1..], needle)
    ensures Contains(s, needle)
  {
    assert s[1..] == s[1..|s|];
    ContainsPart(s, 1, |s|, needle);
  }

  // Options without it are as they were,
  lemma {:induction false} OtherOptionsStay(s: string)
    requires !Contains(s, "allow-discards")
    ensures OptionsValue(s) == s
    decreases |s|
  {
    var needle := "allow-discards";
    if |s| >= |needle| {
      assert s[..|needle|] == s[0..0 + |needle|];
      assert FoundAt(s, needle, 0) ==> Contains(s, needle);
      if Contains(s[1..], needle) { ContainsLater(s, needle); }
      OtherOptionsStay(s[1..]);
      assert s == [s[0]] + s[1..];
    }
  }

  // and where it comes first, discard takes its place.
  lemma {:induction false} DiscardTakesItsPlace(a: string, b: string)
    requires !Contains(a + "allow-discard", "allow-discards")
    ensures OptionsValue(a + "allow-discards" + b) == a + "discard" + OptionsValue(b)
    decreases |a|
  {
    var needle, s, front := "allow-discards", a + "allow-discards" + b, a + "allow-discard";
    if a == [] {
      assert s == needle + b && s[..|needle|] == needle && s[|needle|..] == b;
    } else {
      assert |front| >= |needle| && s[..|needle|] == front[0..0 + |needle|];
      assert FoundAt(front, needle, 0) ==> Contains(front, needle);
      assert front[1..] == a[1..] + "allow-discard";
      if Contains(front[1..], needle) { ContainsLater(front, needle); }
      assert s[1..] == a[1..] + "allow-discards" + b;
      DiscardTakesItsPlace(a[1..], b);
      assert a == [a[0]] + a[1..];
    }
  }

  // ----- what is added

  // The call fails exactly when some cryptdevice word cannot be read.
  lemma {:induction false} ExtrasFailIff(params: seq<string>, cmdline: string, blkid: string -> string)
    ensures Extras(params, cmdline, blkid).None? <==>
              exists i :: 0 <= i < |params| && IsCrypt(params[i]) && ParseMapping(params[i], blkid).None?
    decreases |params|
  {
    if params != [] {
      var front := params[..|params| - 1];
      ExtrasFailIff(front, cmdline, blkid);
      assert forall i :: 0 <= i < |front| ==> front[i] == params[i];
    }
  }

  // The word for a mapping of the line whose own text is not there yet.
  ghost predicate IsAdded(cmdline: string, blkid: string -> string, i: nat, m: Mapping, w: string) {
    && Reads(Split(cmdline), blkid, i, m)
    && var name, options := "rd.luks.name=" + m.uuid + "=", "rd.luks.options=" + m.uuid + "=";
    || (w == name + m.name && !Contains(cmdline, name))
    || (w == options + OptionsValue(m.options) && m.options != "" && !Contains(cmdline, options))
  }

  // The words behind the original ones are exactly those.
  lemma AddedIff(cmdline: string, blkid: string -> string, w: string)
    requires Identifiers(blkid) && SdEncrypted(cmdline, blkid).Some?
    ensures |Split(cmdline)| <= |Split(SdEncrypted(cmdline, blkid).value)|
    ensures w in Split(SdEncrypted(cmdline, blkid).value)[|Split(cmdline)|..] <==>
              exists i, m :: IsAdded(cmdline, blkid, i, m, w)
  {
    OriginalWordsStay(cmdline, blkid);
    var params := Split(cmdline);
    var extra := Extras(params, cmdline, blkid).value;
    if w in extra {
      var j := AddedSource(params, cmdline, blkid, w);
      var m := ParseMapping(params[j], blkid).value;
      ExtraMeans(m, cmdline, w);
      assert IsAdded(cmdline, blkid, j, m, w);
    }
    if i, m :| IsAdded(cmdline, blkid, i, m, w) {
      ExtraMeans(m, cmdline, w);
      ExtrasCover(params, cmdline, blkid, i);
    }
  }

  lemma ExtraMeans(m: Mapping, cmdline: string, w: string)
    ensures w in ExtraFor(m, cmdline) <==>
              var name, options := "rd.luks.name=" + m.uuid + "=", "rd.luks.options=" + m.uuid + "=";
              || (w == name + m.name && !Contains(cmdline, name))
              || (w == options + OptionsValue(m.options) && m.options != "" && !Contains(cmdline, options))
  {
  }
}
