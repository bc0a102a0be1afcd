// Kernel command lines as words, and with_sd_encrypt, which adds the systemd
// spelling of every cryptdevice mapping.
module CommandLine {
  import opened Wrappers
  import opened Text

  predicate IsWord(s: string) {
    s != [] && Spaceless(s)
  }

  ghost predicate AllWords(words: seq<string>) {
    forall i :: 0 <= i < |words| ==> IsWord(words[i])
  }

  function Split(s: string): (words: seq<string>)
    ensures AllWords(words)
    decreases |s|
  {
    if s == [] then []
    else if IsSpace(s[0]) then Split(s[1..])
    else [s[..WordEnd(s)]] + Split(s[WordEnd(s)..])
  }

  function Join(words: seq<string>): string {
    if words == [] then ""
    else if |words| == 1 then words[0]
    else words[0] + " " + Join(words[1..])
  }

  // Words joined with single spaces come apart again.
  lemma {:induction false} SplitJoin(words: seq<string>)
    requires AllWords(words)
    ensures Split(Join(words)) == words
    decreases |words|
  {
    if |words| == 1 {
      WordEndIs(words[0], []);
      assert words[0] + [] == words[0];
      assert words == [words[0]];
    } else if |words| > 1 {
      var w, tail := words[0], " " + Join(words[1..]);
      WordEndIs(w, tail);
      assert Join(words) == w + tail;
      assert (w + tail)[..|w|] == w && (w + tail)[|w|..] == tail;
      assert tail[1..] == Join(words[1..]);
      SplitJoin(words[1..]);
      assert words == [w] + words[1..];
    }
  }

  // ----- substring search

  predicate FoundAt(s: string, needle: string, i: int) {
    0 <= i && i + |needle| <= |s| && s[i..i + |needle|] == needle
  }

  predicate Contains(s: string, needle: string) {
    exists i :: 0 <= i <= |s| && FoundAt(s, needle, i)
  }

  lemma ContainsPart(s: string, a: nat, b: nat, needle: string)
    requires a <= b <= |s| && Contains(s[a..b], needle)
    ensures Contains(s, needle)
  {
    var t := s[a..b];
    var i :| 0 <= i <= |t| && FoundAt(t, needle, i);
    var n := |needle|;
    var u, v := s[a + i..a + i + n], t[i..i + n];
    assert forall k :: 0 <= k < n ==> u[k] == v[k];
    assert FoundAt(s, needle, a + i);
  }

  // A needle without spaces is found in a line exactly when it is in a word.
  lemma {:induction false} ContainsInWord(s: string, needle: string)
    requires IsWord(needle)
    ensures Contains(s, needle) <==> exists k :: 0 <= k < |Split(s)| && Contains(Split(s)[k], needle)
    decreases |s|
  {
    if s != [] {
      var words := Split(s);
      var n := if IsSpace(s[0]) then 1 else WordEnd(s);
      ContainsInWord(s[n..], needle);
      if Contains(s, needle) {
        SideOfSpace(s, n, needle);
        if Contains(s[n..], needle) {
          var k :| 0 <= k < |Split(s[n..])| && Contains(Split(s[n..])[k], needle);
          assert Contains(words[if IsSpace(s[0]) then k else k + 1], needle);
        } else {
          assert !IsSpace(s[0]) && words[0] == s[..n];
        }
      }
      if k :| 0 <= k < |words| && Contains(words[k], needle) {
        if IsSpace(s[0]) {
          assert s[1..] == s[1..|s|];
          ContainsPart(s, 1, |s|, needle);
        } else if k == 0 {
          assert words[0] == s[0..n];
          ContainsPart(s, 0, n, needle);
        } else {
          assert words[k] == Split(s[n..])[k - 1];
          assert s[n..] == s[n..|s|];
          ContainsPart(s, n, |s|, needle);
        }
      }
    } else {
      assert |needle| > 0;
    }
  }

  // An occurrence does not cross the space that ends the first word.
  lemma SideOfSpace(s: string, n: nat, needle: string)
    requires IsWord(needle) && Contains(s, needle) && s != []
    requires n == if IsSpace(s[0]) then 1 else WordEnd(s)
    ensures Contains(s[n..], needle) || (!IsSpace(s[0]) && Contains(s[..n], needle))
  {
    var i :| 0 <= i <= |s| && FoundAt(s, needle, i);
    var occurrence := s[i..i + |needle|];
    assert forall k :: 0 <= k < |needle| ==> occurrence[k] == s[i + k];
    if i >= n {
      assert s[n..][i - n..i - n + |needle|] == occurrence;
      assert FoundAt(s[n..], needle, i - n);
    } else if !IsSpace(s[0]) && i + |needle| <= n {
      assert s[..n][i..i + |needle|] == occurrence;
      assert FoundAt(s[..n], needle, i);
    }
  }

  // ----- cryptdevice mappings

  // str.partition(':'): before, after, and whether the separator was there.
  function Partition(s: string): (string, string, bool) {
    if s == [] then ([], [], false)
    else if s[0] == ':' then ([], s[1..], true)
    else
      var (a, b, found) := Partition(s[1..]);
      ([s[0]] + a, b, found)
  }

  lemma {:induction false} PartitionSpaceless(s: string)
    requires Spaceless(s)
    ensures Spaceless(Partition(s).0) && Spaceless(Partition(s).1)
    decreases |s|
  {
    if s != [] && s[0] != ':' { PartitionSpaceless(s[1..]); }
  }

  function Replaced(s: string, old': string, put: string): string
    requires old' != []
    decreases |s|
  {
    if |s| < |old'| then s
    else if s[..|old'|] == old' then put + Replaced(s[|old'|..], old', put)
    else [s[0]] + Replaced(s[1..], old', put)
  }

  lemma {:induction false} ReplacedSpaceless(s: string, old': string, put: string)
    requires old' != [] && Spaceless(s) && Spaceless(put)
    ensures Spaceless(Replaced(s, old', put))
    decreases |s|
  {
    if |s| >= |old'| {
      if s[..|old'|] == old' {
        ReplacedSpaceless(s[|old'|..], old', put);
      } else {
        ReplacedSpaceless(s[1..], old', put);
      }
    }
  }

  const CRYPTDEVICE: string := "cryptdevice="
  const LUKS_NAME: string := "rd.luks.name="
  const LUKS_OPTIONS: string := "rd.luks.options="
  const ALLOW_DISCARDS: string := "allow-discards"
  const DISCARD: string := "discard"

  // luks_uuid_of; blkid gives the stripped output for a device.
  function LuksUuid(spec: string, blkid: string -> string): Option<string> {
    if "UUID=" <= spec then Some(spec[5..])
    else if "PARTUUID=" <= spec then
      var uuid := blkid("/dev/disk/by-partuuid/" + spec[9..]);
      if uuid == [] then None else Some(uuid)
    else if "/dev/" <= spec then
      var uuid := blkid(spec);
      if uuid == [] then None else Some(uuid)
    else None
  }

  datatype Mapping = Mapping(uuid: string, name: string, options: string)

  predicate IsCrypt(param: string) {
    CRYPTDEVICE <= param
  }

  function ParseMapping(param: string, blkid: string -> string): Option<Mapping>
    requires IsCrypt(param)
  {
    var (spec, rest, separator) := Partition(param[|CRYPTDEVICE|..]);
    var (name, options, _) := Partition(rest);
    if !separator || name == [] then None
    else match LuksUuid(spec, blkid)
      case None => None
      case Some(uuid) => Some(Mapping(uuid, name, options))
  }

  function NameKey(uuid: string): string {
    LUKS_NAME + uuid + "="
  }

  function OptionsKey(uuid: string): string {
    LUKS_OPTIONS + uuid + "="
  }

  function OptionsValue(options: string): string {
    Replaced(options, ALLOW_DISCARDS, DISCARD)
  }

  // The parameters added for one mapping, given the whole original line.
  function ExtraFor(m: Mapping, cmdline: string): seq<string> {
    (if Contains(cmdline, NameKey(m.uuid)) then [] else [NameKey(m.uuid) + m.name])
    + (if m.options == [] || Contains(cmdline, OptionsKey(m.uuid)) then []
       else [OptionsKey(m.uuid) + OptionsValue(m.options)])
  }

  function Extras(params: seq<string>, cmdline: string, blkid: string -> string): Option<seq<string>> {
    if params == [] then Some([])
    else
      var front, last := params[..|params| - 1], params[|params| - 1];
      match Extras(front, cmdline, blkid)
      case None => None
      case Some(extra) =>
        if !IsCrypt(last) then Some(extra)
        else match ParseMapping(last, blkid)
          case None => None
          case Some(m) => Some(extra + ExtraFor(m, cmdline))
  }

  function SdEncrypted(cmdline: string, blkid: string -> string): Option<string> {
    match Extras(Split(cmdline), cmdline, blkid)
    case None => None
    case Some(extra) => Some(Join(Split(cmdline) + extra))
  }

  lemma {:induction false} ExtrasStop(params: seq<string>, i: nat, cmdline: string, blkid: string -> string)
    requires i <= |params| && Extras(params[..i], cmdline, blkid).None?
    ensures Extras(params, cmdline, blkid).None?
    decreases |params| - i
  {
    if i < |params| {
      assert params[..i + 1][..i] == params[..i];
      ExtrasStop(params, i + 1, cmdline, blkid);
    } else {
      assert params[..i] == params;
    }
  }

  method WithSdEncrypt(cmdline: string, blkid: string -> string) returns (r: Option<string>)
    ensures r == SdEncrypted(cmdline, blkid)
  {
    var params := Split(cmdline);
    var extra: seq<string> := [];
    for i := 0 to |params|
      invariant Extras(params[..i], cmdline, blkid) == Some(extra)
    {
      var param := params[i];
      assert params[..i + 1][..i] == params[..i];
      if !IsCrypt(param) {
        continue;
      }
      var m := ParseMapping(param, blkid);
      if m.None? {
        ExtrasStop(params, i + 1, cmdline, blkid);
        return None;
      }
      ghost var sofar := extra;
      if !Contains(cmdline, NameKey(m.value.uuid)) {
        extra := extra + [NameKey(m.value.uuid) + m.value.name];
      }
      if m.value.options != [] && !Contains(cmdline, OptionsKey(m.value.uuid)) {
        extra := extra + [OptionsKey(m.value.uuid) + OptionsValue(m.value.options)];
      }
      assert extra == sofar + ExtraFor(m.value, cmdline);
    }
    assert params[..|params|] == params;
    return Some(Join(params + extra));
  }

  // The two parameters a mapping may get: its name, and its options if any.
  datatype Kind = Name | Options

  function Key(kind: Kind, uuid: string): string {
    if kind.Name? then NameKey(uuid) else OptionsKey(uuid)
  }

  predicate Wants(kind: Kind, m: Mapping) {
    kind.Options? ==> m.options != []
  }

  function Added(kind: Kind, m: Mapping): string {
    Key(kind, m.uuid) + if kind.Name? then m.name else OptionsValue(m.options)
  }

  // ----- main results

  // blkid prints identifiers without spaces.
  ghost predicate Identifiers(blkid: string -> string) {
    forall d :: Spaceless(blkid(d))
  }

  lemma MappingSpaceless(param: string, blkid: string -> string)
    requires IsCrypt(param) && IsWord(param) && Identifiers(blkid) && ParseMapping(param, blkid).Some?
    ensures var m := ParseMapping(param, blkid).value; Spaceless(m.uuid) && Spaceless(m.name) && Spaceless(m.options)
  {
    var rest := param[|CRYPTDEVICE|..];
    PartitionSpaceless(rest);
    PartitionSpaceless(Partition(rest).1);
  }

  lemma KeysAreWords(uuid: string)
    requires Spaceless(uuid)
    ensures IsWord(NameKey(uuid)) && IsWord(OptionsKey(uuid))
  {
    assert forall i :: 0 <= i < |LUKS_NAME| ==> !IsSpace(LUKS_NAME[i]);
    assert forall i :: 0 <= i < |LUKS_OPTIONS| ==> !IsSpace(LUKS_OPTIONS[i]);
  }

  lemma ExtraForAreWords(m: Mapping, cmdline: string)
    requires Spaceless(m.uuid) && Spaceless(m.name) && Spaceless(m.options)
    ensures AllWords(ExtraFor(m, cmdline))
  {
    KeysAreWords(m.uuid);
    ReplacedSpaceless(m.options, ALLOW_DISCARDS, DISCARD);
  }

  lemma {:induction false} ExtrasAreWords(params: seq<string>, cmdline: string, blkid: string -> string)
    requires AllWords(params) && Identifiers(blkid) && Extras(params, cmdline, blkid).Some?
    ensures AllWords(Extras(params, cmdline, blkid).value)
    decreases |params|
  {
    if params != [] {
      var front, last := params[..|params| - 1], params[|params| - 1];
      ExtrasAreWords(front, cmdline, blkid);
      if IsCrypt(last) {
        MappingSpaceless(last, blkid);
        ExtraForAreWords(ParseMapping(last, blkid).value, cmdline);
      }
    }
  }

  // Each parameter names no mapping, or one that could be read.
  lemma {:induction false} ExtrasCover(params: seq<string>, cmdline: string, blkid: string -> string, i: nat)
    requires i < |params| && IsCrypt(params[i]) && Extras(params, cmdline, blkid).Some?
    ensures ParseMapping(params[i], blkid).Some?
    ensures forall w :: w in ExtraFor(ParseMapping(params[i], blkid).value, cmdline) ==>
              w in Extras(params, cmdline, blkid).value
    decreases |params|
  {
    if i < |params| - 1 {
      assert params[..|params| - 1][i] == params[i];
      ExtrasCover(params[..|params| - 1], cmdline, blkid, i);
    }
  }

  lemma {:induction false} ExtrasAreParameters(params: seq<string>, cmdline: string, blkid: string -> string, w: string)
    requires Extras(params, cmdline, blkid).Some? && w in Extras(params, cmdline, blkid).value
    ensures LUKS_NAME <= w || LUKS_OPTIONS <= w
    ensures !IsCrypt(w)
    decreases |params|
  {
    if params != [] {
      var front, last := params[..|params| - 1], params[|params| - 1];
      if w in Extras(front, cmdline, blkid).value {
        ExtrasAreParameters(front, cmdline, blkid, w);
      } else {
        assert w[0] == 'r';
        assert CRYPTDEVICE[0] == 'c';
      }
    }
  }

  // The original words stay in front, in order, and what follows are the added
  // parameters, one word each.
  lemma OriginalWordsStay(cmdline: string, blkid: string -> string)
    requires Identifiers(blkid) && SdEncrypted(cmdline, blkid).Some?
    ensures Split(cmdline) <= Split(SdEncrypted(cmdline, blkid).value)
    ensures Extras(Split(cmdline), cmdline, blkid) == Some(Split(SdEncrypted(cmdline, blkid).value)[|Split(cmdline)|..])
  {
    ExtrasAreWords(Split(cmdline), cmdline, blkid);
    SplitJoin(Split(cmdline) + Extras(Split(cmdline), cmdline, blkid).value);
  }

  lemma KeptWord(cmdline: string, result: string, needle: string)
    requires IsWord(needle) && Contains(cmdline, needle) && Split(cmdline) <= Split(result)
    ensures Contains(result, needle)
  {
    ContainsInWord(cmdline, needle);
    ContainsInWord(result, needle);
    var k :| 0 <= k < |Split(cmdline)| && Contains(Split(cmdline)[k], needle);
    assert Split(result)[k] == Split(cmdline)[k];
  }

  lemma AddedWord(result: string, w: string, needle: string)
    requires IsWord(needle) && needle <= w && w in Split(result)
    ensures Contains(result, needle)
  {
    ContainsInWord(result, needle);
    var k :| 0 <= k < |Split(result)| && Split(result)[k] == w;
    assert FoundAt(w, needle, 0);
  }

  // After a success the text of every mapping's name parameter is in the line,
  // repeated UUIDs included, and of its options parameter when it has options.
  lemma EveryMappingIsMatched(cmdline: string, blkid: string -> string, i: nat, kind: Kind)
    requires Identifiers(blkid) && SdEncrypted(cmdline, blkid).Some?
    requires i < |Split(cmdline)| && IsCrypt(Split(cmdline)[i])
    ensures ParseMapping(Split(cmdline)[i], blkid).Some?
    ensures var m := ParseMapping(Split(cmdline)[i], blkid).value;
      Wants(kind, m) ==> Contains(SdEncrypted(cmdline, blkid).value, Key(kind, m.uuid))
  {
    var params, result := Split(cmdline), SdEncrypted(cmdline, blkid).value;
    ExtrasCover(params, cmdline, blkid, i);
    OriginalWordsStay(cmdline, blkid);
    var m := ParseMapping(params[i], blkid).value;
    MappingSpaceless(params[i], blkid);
    KeysAreWords(m.uuid);
    assert Split(result) == params + Extras(params, cmdline, blkid).value;
    if Wants(kind, m) {
      KeyEndsUp(cmdline, result, ExtraFor(m, cmdline), Key(kind, m.uuid), Added(kind, m));
    }
  }

  lemma KeyEndsUp(cmdline: string, result: string, extra: seq<string>, key: string, w: string)
    requires IsWord(key) && key <= w && Split(cmdline) <= Split(result)
    requires forall x :: x in extra ==> x in Split(result)
    requires Contains(cmdline, key) || w in extra
    ensures Contains(result, key)
  {
    if Contains(cmdline, key) { KeptWord(cmdline, result, key); } else { AddedWord(result, w, key); }
  }

  lemma NothingForMatched(cmdline: string, result: string, blkid: string -> string, i: nat)
    requires Identifiers(blkid) && SdEncrypted(cmdline, blkid) == Some(result)
    requires i < |Split(cmdline)| && IsCrypt(Split(cmdline)[i])
    ensures ParseMapping(Split(cmdline)[i], blkid).Some?
    ensures ExtraFor(ParseMapping(Split(cmdline)[i], blkid).value, result) == []
  {
    EveryMappingIsMatched(cmdline, blkid, i, Name);
    EveryMappingIsMatched(cmdline, blkid, i, Options);
  }

  // A second application finds everything in place.
  lemma {:induction false} NothingMoreToAdd(params: seq<string>, cmdline: string, result: string,
                                            blkid: string -> string, upto: nat)
    requires Identifiers(blkid) && SdEncrypted(cmdline, blkid) == Some(result)
    requires params == Split(result) && upto <= |params|
    ensures Extras(params[..upto], result, blkid) == Some([])
    decreases upto
  {
    if upto > 0 {
      assert params[..upto][..upto - 1] == params[..upto - 1];
      NothingMoreToAdd(params, cmdline, result, blkid, upto - 1);
      OriginalWordsStay(cmdline, blkid);
      var w := params[upto - 1];
      if upto <= |Split(cmdline)| {
        assert w == Split(cmdline)[upto - 1];
        assert params[..upto][upto - 1] == w;
        if IsCrypt(w) { NothingForMatched(cmdline, result, blkid, upto - 1); }
      } else {
        assert w == params[|Split(cmdline)|..][upto - 1 - |Split(cmdline)|];
        ExtrasAreParameters(Split(cmdline), cmdline, blkid, w);
      }
    }
  }

  // Applying it twice is applying it once.
  lemma SdEncryptedTwice(cmdline: string, blkid: string -> string)
    requires Identifiers(blkid) && SdEncrypted(cmdline, blkid).Some?
    ensures SdEncrypted(SdEncrypted(cmdline, blkid).value, blkid) == SdEncrypted(cmdline, blkid)
  {
    var result := SdEncrypted(cmdline, blkid).value;
    var params := Split(result);
    NothingMoreToAdd(params, cmdline, result, blkid, |params|);
    assert params[..|params|] == params;
    assert params + [] == params;
    OriginalWordsStay(cmdline, blkid);
    assert params == Split(cmdline) + Extras(Split(cmdline), cmdline, blkid).value;
  }

  // ----- words of their own

  // A word that sets the parameter, as systemd would read it.
  ghost predicate HasOwnWord(words: seq<string>, key: string) {
    exists w :: w in words && key <= w
  }

  lemma ExtraForIs(m: Mapping, cmdline: string, w: string)
    ensures w in ExtraFor(m, cmdline) <==>
      exists kind :: Wants(kind, m) && !Contains(cmdline, Key(kind, m.uuid)) && w == Added(kind, m)
  {
    if w in ExtraFor(m, cmdline) {
      if w == Added(Name, m) && !Contains(cmdline, Key(Name, m.uuid)) {
      } else {
        assert w == Added(Options, m) && Wants(Options, m);
      }
    }
    if kind :| Wants(kind, m) && !Contains(cmdline, Key(kind, m.uuid)) && w == Added(kind, m) {
      assert kind == Name || kind == Options;
    }
  }

  lemma KeysDiffer(kind: Kind, u: string, other: Kind, m: Mapping)
    requires Key(kind, u) <= Added(other, m)
    ensures kind == other
  {
    assert LUKS_NAME[8] == 'n' && LUKS_OPTIONS[8] == 'o';
    assert Key(kind, u)[8] == if kind.Name? then 'n' else 'o';
    assert Added(other, m)[8] == if other.Name? then 'n' else 'o';
  }

  // A mapping of the line whose own parameter is missing and starts like key.
  ghost predicate SuppliedBy(params: seq<string>, cmdline: string, blkid: string -> string,
                             kind: Kind, key: string, j: nat) {
    && j < |params| && IsCrypt(params[j]) && ParseMapping(params[j], blkid).Some?
    && var m := ParseMapping(params[j], blkid).value;
    Wants(kind, m) && key <= Key(kind, m.uuid) && !Contains(cmdline, Key(kind, m.uuid))
  }

  // Which mapping an added parameter comes from.
  lemma {:induction false} AddedSource(params: seq<string>, cmdline: string, blkid: string -> string, w: string)
    returns (j: nat)
    requires Extras(params, cmdline, blkid).Some? && w in Extras(params, cmdline, blkid).value
    ensures j < |params| && IsCrypt(params[j]) && ParseMapping(params[j], blkid).Some?
    ensures w in ExtraFor(ParseMapping(params[j], blkid).value, cmdline)
    decreases |params|
  {
    var front, last := params[..|params| - 1], params[|params| - 1];
    if w in Extras(front, cmdline, blkid).value {
      j := AddedSource(front, cmdline, blkid, w);
    } else {
      j := |params| - 1;
    }
  }

  lemma LongerKeyContains(cmdline: string, short: string, long: string)
    requires short <= long && Contains(cmdline, long)
    ensures Contains(cmdline, short)
  {
    var i :| 0 <= i <= |cmdline| && FoundAt(cmdline, long, i);
    assert cmdline[i..i + |short|] == cmdline[i..i + |long|][..|short|] == short;
    assert FoundAt(cmdline, short, i);
  }

  // A mapping of the line as it was read.
  ghost predicate Reads(params: seq<string>, blkid: string -> string, i: nat, m: Mapping) {
    i < |params| && IsCrypt(params[i]) && ParseMapping(params[i], blkid) == Some(m)
  }

  // Of two keys that start the same word the shorter starts the longer.
  lemma KeysCompare(w: string, a: string, b: string)
    requires a <= w && b <= w && |a| <= |b|
    ensures a <= b
  {
    assert a == w[..|a|] == b[..|a|];
  }

  // An added word that starts with the key of mapping i was supplied for i or
  // for a mapping whose key is longer.
  lemma AddedIsSupplied(params: seq<string>, cmdline: string, blkid: string -> string,
                        i: nat, m: Mapping, kind: Kind, w: string)
    requires Extras(params, cmdline, blkid).Some? && w in Extras(params, cmdline, blkid).value
    requires Reads(params, blkid, i, m) && Wants(kind, m) && Key(kind, m.uuid) <= w
    ensures exists j :: SuppliedBy(params, cmdline, blkid, kind, Key(kind, m.uuid), j)
  {
    var key := Key(kind, m.uuid);
    var j := AddedSource(params, cmdline, blkid, w);
    var theirs := ParseMapping(params[j], blkid).value;
    var their := MissingKey(theirs, cmdline, m.uuid, kind, w);
    if |key| <= |their| {
      KeysCompare(w, key, their);
      assert SuppliedBy(params, cmdline, blkid, kind, key, j);
    } else {
      KeysCompare(w, their, key);
      if Contains(cmdline, key) { LongerKeyContains(cmdline, their, key); }
      assert SuppliedBy(params, cmdline, blkid, kind, key, i);
    }
  }

  lemma MissingKey(m: Mapping, cmdline: string, u: string, kind: Kind, w: string) returns (key: string)
    requires w in ExtraFor(m, cmdline) && Key(kind, u) <= w
    ensures key == Key(kind, m.uuid) && key <= w && !Contains(cmdline, key) && Wants(kind, m)
  {
    ExtraForIs(m, cmdline, w);
    var other :| Wants(other, m) && !Contains(cmdline, Key(other, m.uuid)) && w == Added(other, m);
    KeysDiffer(kind, u, other, m);
    key := Key(kind, m.uuid);
  }

  // The line has a word for the key, or some mapping whose key starts like it
  // was missing from the whole text.
  ghost predicate Provided(cmdline: string, blkid: string -> string, kind: Kind, key: string) {
    HasOwnWord(Split(cmdline), key) || exists j :: SuppliedBy(Split(cmdline), cmdline, blkid, kind, key, j)
  }

  // A mapping ends up with a word of its own, for its name and for its options
  // if any, exactly when the line provided for it; text of the parameter inside
  // another word stops it.
  lemma OwnWordIff(cmdline: string, blkid: string -> string, i: nat, m: Mapping, kind: Kind)
    requires Identifiers(blkid) && SdEncrypted(cmdline, blkid).Some?
    requires Reads(Split(cmdline), blkid, i, m) && Wants(kind, m)
    ensures HasOwnWord(Split(SdEncrypted(cmdline, blkid).value), Key(kind, m.uuid)) <==>
            Provided(cmdline, blkid, kind, Key(kind, m.uuid))
  {
    var params, result, key := Split(cmdline), SdEncrypted(cmdline, blkid).value, Key(kind, m.uuid);
    OriginalWordsStay(cmdline, blkid);
    var extra := Extras(params, cmdline, blkid).value;
    assert Split(result) == params + extra;
    OwnWordSplit(params, extra, key);
    if HasOwnWord(extra, key) {
      var w :| w in extra && key <= w;
      AddedIsSupplied(params, cmdline, blkid, i, m, kind, w);
    }
    if j :| SuppliedBy(params, cmdline, blkid, kind, key, j) {
      SuppliedIsAdded(params, cmdline, blkid, kind, key, j);
    }
  }

  lemma SuppliedIsAdded(params: seq<string>, cmdline: string, blkid: string -> string, kind: Kind, key: string, j: nat)
    requires Extras(params, cmdline, blkid).Some? && SuppliedBy(params, cmdline, blkid, kind, key, j)
    ensures HasOwnWord(Extras(params, cmdline, blkid).value, key)
  {
    ExtrasCover(params, cmdline, blkid, j);
    var m := ParseMapping(params[j], blkid).value;
    var w := Added(kind, m);
    ExtraForIs(m, cmdline, w);
    assert Key(kind, m.uuid) <= w;
    assert key == w[..|key|];
  }

  lemma OwnWordSplit(a: seq<string>, b: seq<string>, key: string)
    ensures HasOwnWord(a + b, key) <==> HasOwnWord(a, key) || HasOwnWord(b, key)
  {
    assert forall w :: w in a + b <==> w in a || w in b;
  }

  const STOPPED: seq<string> := ["cryptdevice=UUID=a:r", "x.rd.luks.name=a="]

  lemma PartitionAt(a: string, b: string)
    requires forall i :: 0 <= i < |a| ==> a[i] != ':'
    ensures Partition(a + ":" + b) == (a, b, true)
  {
    if a == [] {
      assert a + ":" + b == ":" + b;
      assert (":" + b)[1..] == b;
    } else {
      PartitionAt(a[1..], b);
      assert (a + ":" + b)[1..] == a[1..] + ":" + b;
      assert a == [a[0]] + a[1..];
    }
  }

  lemma PartitionNone(a: string)
    requires forall i :: 0 <= i < |a| ==> a[i] != ':'
    ensures Partition(a) == (a, [], false)
  {
    if a != [] {
      PartitionNone(a[1..]);
      assert a == [a[0]] + a[1..];
    }
  }

  lemma StoppedParses(blkid: string -> string)
    ensures IsCrypt(STOPPED[0]) && ParseMapping(STOPPED[0], blkid) == Some(Mapping("a", "r", ""))
  {
    assert STOPPED[0] == CRYPTDEVICE + ("UUID=a" + ":" + "r");
    assert STOPPED[0][|CRYPTDEVICE|..] == "UUID=a" + ":" + "r";
    PartitionAt("UUID=a", "r");
    PartitionNone("r");
    assert "UUID=a"[5..] == "a";
  }

  lemma StoppedWords()
    ensures AllWords(STOPPED)
  {
    assert IsWord(STOPPED[0]);
    assert IsWord(STOPPED[1]);
  }

  lemma StoppedHolds()
    ensures Contains(STOPPED[1], NameKey("a"))
    ensures !HasOwnWord(STOPPED, NameKey("a"))
  {
    var key := NameKey("a");
    assert key == "rd.luks.name=a=";
    assert STOPPED[1] == "x." + key;
    assert STOPPED[1][2..2 + |key|] == key;
    assert FoundAt(STOPPED[1], key, 2);
    assert STOPPED[0][0] == 'c' && STOPPED[1][0] == 'x';
  }

  lemma NothingForFirst(line: string, blkid: string -> string)
    requires Contains(line, NameKey("a"))
    ensures Extras([STOPPED[0]], line, blkid) == Some([])
  {
    StoppedParses(blkid);
    var first := STOPPED[0];
    assert [first][..0] == [] && Extras([], line, blkid) == Some([]);
    assert ExtraFor(Mapping("a", "r", ""), line) == [];
    assert |[first]| == 1 && [first][|[first]| - 1] == first;
    assert [first][..|[first]| - 1] == [];
  }

  // A line with a mapping that comes back unchanged, although no word of it sets
  // the mapping's name.
  lemma StoppedExample(blkid: string -> string)
    ensures Split(Join(STOPPED)) == STOPPED
    ensures IsCrypt(STOPPED[0]) && ParseMapping(STOPPED[0], blkid) == Some(Mapping("a", "r", ""))
    ensures SdEncrypted(Join(STOPPED), blkid) == Some(Join(STOPPED))
    ensures !HasOwnWord(STOPPED, NameKey("a"))
  {
    StoppedWords();
    SplitJoin(STOPPED);
    StoppedParses(blkid);
    StoppedHolds();
    KeysAreWords("a");
    var line := Join(STOPPED);
    ContainsInWord(line, NameKey("a"));
    assert STOPPED[..1] == [STOPPED[0]];
    NothingForFirst(line, blkid);
    assert STOPPED[1][0] == 'x' && !IsCrypt(STOPPED[1]);
    assert Extras(STOPPED, line, blkid) == Some([]);
    assert STOPPED + [] == STOPPED;
  }
}
