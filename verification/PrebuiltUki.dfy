// embed_cmdline: overwriting the room a prebuilt UKI keeps for its command
// line, found through the PE section table (Microsoft PE Format, "Section Table
// (Section Headers)").
module PrebuiltUki {
  import opened Wrappers
  import opened Text
  import opened CommandLine
  import opened Utf8

  // struct.unpack_from('<H') and ('<I')
  function LE16(s: Bytes, i: nat): nat
    requires i + 2 <= |s|
  {
    (s[i] as int) + 256 * (s[i + 1] as int)
  }

  function LE32(s: Bytes, i: nat): nat
    requires i + 4 <= |s|
  {
    LE16(s, i) + 65536 * LE16(s, i + 2)
  }

  const HEADER: nat := 4096
  const MAX_ROOM: nat := 2048
  const NAME: Bytes := [46, 99, 109, 100, 108, 105, 110, 101]
  const MARKER: Bytes := [109, 111, 110, 97, 114, 99, 104, 46, 99, 109, 100, 108, 105, 110, 101, 95,
                          114, 111, 111, 109, 61]

  function DropNulEnd(s: Bytes): Bytes {
    if s != [] && s[|s| - 1] == 0 then DropNulEnd(s[..|s| - 1]) else s
  }

  predicate HasMarker(s: Bytes) {
    exists i :: 0 <= i <= |s| - |MARKER| && MARKER <= s[i..]
  }

  // The first section named .cmdline, if its header lies in the part that was
  // read; a section header that does not ends the search.
  function FindSection(header: Bytes, table: nat, count: nat, index: nat): Option<nat>
    decreases count - index
  {
    var entry := table + index * 40;
    if index >= count || |header| < entry + 40 then None
    else if DropNulEnd(header[entry..entry + 8]) == NAME then Some(entry)
    else FindSection(header, table, count, index + 1)
  }

  function Header(file: Bytes): Bytes {
    file[..if |file| < HEADER then |file| else HEADER]
  }

  // Where the section table starts and how long it is.
  function SectionTable(file: Bytes): Option<(nat, nat)> {
    var h := Header(file);
    if |h| < 64 || h[..2] != [77, 90] then None
    else
      var pe := LE32(h, 60);
      if |h| < pe + 24 || h[pe..pe + 4] != [80, 69, 0, 0] then None
      else Some((pe + 24 + LE16(h, pe + 20), LE16(h, pe + 6)))
  }

  function Section(file: Bytes): Option<nat> {
    match SectionTable(file)
    case None => None
    case Some((table, count)) => FindSection(Header(file), table, count, 0)
  }

  datatype Room = Room(offset: nat, size: nat)

  function RoomOf(h: Bytes, entry: nat): Room
    requires |h| >= entry + 40
  {
    var virtual, raw := LE32(h, entry + 8), LE32(h, entry + 16);
    Room(LE32(h, entry + 20), if virtual <= raw then virtual else raw)
  }

  function ReadAt(file: Bytes, offset: nat, n: nat): Bytes {
    if offset >= |file| then []
    else if offset + n > |file| then file[offset..]
    else file[offset..offset + n]
  }

  // The room the line will be written to, when everything about it is right.
  function Target(file: Bytes, data: Bytes): Option<Room> {
    match Section(file)
    case None => None
    case Some(entry) =>
      if |Header(file)| < entry + 40 then None
      else
        var room := RoomOf(Header(file), entry);
        var prior := ReadAt(file, room.offset, room.size);
        if room.size > MAX_ROOM || |data| + 1 > room.size then None
        else if |prior| != room.size || !HasMarker(prior) then None
        else Some(room)
  }

  function Spaces(n: nat): (r: Bytes)
    ensures |r| == n && forall i :: 0 <= i < n ==> r[i] == 32
  {
    if n == 0 then [] else [32] + Spaces(n - 1)
  }

  // data.ljust(room - 1, b' ') + b'\0'
  function Field(data: Bytes, size: nat): (r: Bytes)
    requires |data| < size
    ensures |r| == size
  {
    data + Spaces(size - 1 - |data|) + [0]
  }

  function Data(cmdline: string): string {
    Join(Split(cmdline))
  }

  // The file after the call: untouched, or with the room overwritten.
  function Embedded(file: Bytes, data: Bytes): Bytes {
    match Target(file, data)
    case None => file
    case Some(room) =>
      if |data| < room.size && room.offset + room.size <= |file|
      then file[..room.offset] + Field(data, room.size) + file[room.offset + room.size..]
      else file
  }

  class UkiFile {
    var bytes: Bytes

    constructor (b: Bytes)
      ensures bytes == b
    {
      bytes := b;
    }

    method EmbedCmdline(cmdline: string) returns (ok: bool)
      modifies this
      ensures ok <==> Target(old(bytes), Encode(Data(cmdline))).Some?
      ensures bytes == Embedded(old(bytes), Encode(Data(cmdline)))
    {
      var data := Encode(Data(cmdline));
      var header := Header(bytes);
      var found := SectionTable(bytes);
      if found.None? {
        return false;
      }
      var (table, count) := found.value;
      for index := 0 to count
        invariant bytes == old(bytes)
        invariant FindSection(header, table, count, index) == Section(bytes)
      {
        var entry := table + index * 40;
        if |header| < entry + 40 {
          return false;
        }
        if DropNulEnd(header[entry..entry + 8]) != NAME {
          continue;
        }
        ok := WriteRoom(data, entry);
        return;
      }
      return false;
    }

    method WriteRoom(data: Bytes, entry: nat) returns (ok: bool)
      requires Section(bytes) == Some(entry) && entry + 40 <= |Header(bytes)|
      modifies this
      ensures ok <==> Target(old(bytes), data).Some?
      ensures bytes == Embedded(old(bytes), data)
    {
      var room := RoomOf(Header(bytes), entry);
      if room.size > MAX_ROOM || |data| + 1 > room.size {
        return false;
      }
      var prior := ReadAt(bytes, room.offset, room.size);
      if |prior| != room.size || !HasMarker(prior) {
        return false;
      }
      bytes := bytes[..room.offset] + Field(data, room.size) + bytes[room.offset + room.size..];
      return true;
    }
  }

  // ----- main results

  lemma TargetInFile(file: Bytes, data: Bytes)
    requires Target(file, data).Some?
    ensures var room := Target(file, data).value;
      |data| < room.size && room.offset + room.size <= |file| && room.size <= MAX_ROOM
  {
  }

  // The section is the first one with the name, all of whose predecessors were
  // read; its name is exactly the eight bytes of .cmdline.
  lemma {:induction false} SectionIsFirst(header: Bytes, table: nat, count: nat, index: nat) returns (k: nat)
    requires FindSection(header, table, count, index).Some?
    ensures index <= k < count && FindSection(header, table, count, index).value == table + k * 40
    ensures table + k * 40 + 40 <= |header| && SectionName(header, table, k) == NAME
    ensures forall j :: index <= j < k ==> SectionName(header, table, j) != NAME
    decreases count - index
  {
    NameOfEight(SectionName(header, table, index));
    if SectionName(header, table, index) == NAME {
      k := index;
    } else {
      k := SectionIsFirst(header, table, count, index + 1);
    }
  }

  ghost function SectionName(header: Bytes, table: nat, k: nat): Bytes {
    ReadAt(header, table + k * 40, 8)
  }

  lemma NameOfEight(name: Bytes)
    ensures |name| == 8 ==> (DropNulEnd(name) == NAME <==> name == NAME)
  {
    DropNulShorter(name);
    if name == NAME { assert name[7] == 101; }
  }

  lemma DropNulShorter(s: Bytes)
    ensures |DropNulEnd(s)| <= |s| && (|DropNulEnd(s)| == |s| ==> DropNulEnd(s) == s)
  {
  }

  // ----- which room that is, said of the bytes of the file

  function Word(s: Bytes, i: nat): int
    requires i + 2 <= |s|
  {
    256 * (s[i + 1] as int) + s[i] as int
  }

  function Long(s: Bytes, i: nat): int
    requires i + 4 <= |s|
  {
    16777216 * (s[i + 3] as int) + 65536 * (s[i + 2] as int) + 256 * (s[i + 1] as int) + s[i] as int
  }

  // The bytes are the characters of an ASCII text.
  ghost predicate Spells(s: Bytes, text: string) {
    |s| == |text| && forall i :: 0 <= i < |s| ==> s[i] as int == text[i] as int
  }

  ghost predicate MarkerAt(file: Bytes, at: int) {
    0 <= at <= |file| - 21 && Spells(file[at..at + 21], "monarch.cmdline_room=")
  }

  // A PE image whose section table starts at the given place with n headers.
  ghost predicate PeImage(h: Bytes, pe: nat, table: nat, n: nat) {
    && |h| >= 64 && h[0] as char == 'M' && h[1] as char == 'Z' && pe == Long(h, 60)
    && pe + 24 <= |h| && h[pe] as char == 'P' && h[pe + 1] as char == 'E' && h[pe + 2] == 0 && h[pe + 3] == 0
    && n == Word(h, pe + 6) && table == pe + 24 + Word(h, pe + 20)
  }

  // Section k is the first one with the name, and the headers up to it were read.
  ghost predicate FirstNamed(h: Bytes, table: nat, n: nat, k: nat) {
    && k < n && table + 40 * k + 40 <= |h|
    && forall j :: 0 <= j <= k ==> (Spells(SectionName(h, table, j), ".cmdline") <==> j == k)
  }

  ghost predicate RoomFits(file: Bytes, data: Bytes, room: Room) {
    && |data| < room.size <= 2048 && room.offset + room.size <= |file|
    && exists at :: room.offset <= at <= room.offset + room.size - 21 && MarkerAt(file, at)
  }

  ghost predicate IsRoom(file: Bytes, data: Bytes, room: Room, pe: nat, table: nat, n: nat, k: nat) {
    var h := if |file| <= 4096 then file else file[..4096];
    && PeImage(h, pe, table, n) && FirstNamed(h, table, n, k)
    && room.offset == Long(h, table + 40 * k + 20)
    && room.size == (var v, r := Long(h, table + 40 * k + 8), Long(h, table + 40 * k + 16); if r < v then r else v)
    && RoomFits(file, data, room)
  }

  lemma NumbersAgree(h: Bytes, i: nat)
    ensures i + 2 <= |h| ==> LE16(h, i) == Word(h, i)
    ensures i + 4 <= |h| ==> LE32(h, i) == Long(h, i)
  {
  }

  lemma TableAgrees(file: Bytes, table: nat, n: nat)
    ensures SectionTable(file) == Some((table, n)) <==> exists pe :: PeImage(Header(file), pe, table, n)
  {
    var h := Header(file);
    if |h| >= 64 {
      NumbersAgree(h, 60);
      var pe := LE32(h, 60);
      if pe + 24 <= |h| {
        NumbersAgree(h, pe + 6);
        NumbersAgree(h, pe + 20);
        assert h[..2] == [h[0], h[1]] && h[pe..pe + 4] == [h[pe], h[pe + 1], h[pe + 2], h[pe + 3]];
        assert 'M' as int == 77 && 'Z' as int == 90 && 'P' as int == 80 && 'E' as int == 69;
        if SectionTable(file) == Some((table, n)) { assert PeImage(h, pe, table, n); }
      }
    }
  }

  lemma NameSpelled(s: Bytes)
    ensures Spells(s, ".cmdline") <==> s == NAME
  {
  }

  lemma MarkerSpelled(s: Bytes)
    ensures Spells(s, "monarch.cmdline_room=") <==> s == MARKER
  {
  }

  lemma {:induction false} NamedIsFound(h: Bytes, table: nat, n: nat, k: nat, index: nat)
    requires FirstNamed(h, table, n, k) && index <= k
    ensures FindSection(h, table, n, index) == Some(table + 40 * k)
    decreases k - index
  {
    NameSpelled(SectionName(h, table, index));
    NameOfEight(SectionName(h, table, index));
    assert SectionName(h, table, index) == h[table + index * 40..table + index * 40 + 8];
    if index < k { NamedIsFound(h, table, n, k, index + 1); }
  }

  lemma FoundIsNamed(h: Bytes, table: nat, n: nat) returns (k: nat)
    requires FindSection(h, table, n, 0).Some?
    ensures FirstNamed(h, table, n, k) && FindSection(h, table, n, 0) == Some(table + 40 * k)
  {
    k := SectionIsFirst(h, table, n, 0);
    forall j | 0 <= j <= k ensures Spells(SectionName(h, table, j), ".cmdline") <==> j == k {
      NameSpelled(SectionName(h, table, j));
    }
  }

  lemma MarkerThere(prior: Bytes)
    ensures HasMarker(prior) <==> exists at :: MarkerAt(prior, at)
  {
    if i :| 0 <= i <= |prior| - |MARKER| && MARKER <= prior[i..] {
      assert prior[i..i + 21] == MARKER;
      MarkerSpelled(prior[i..i + 21]);
      assert MarkerAt(prior, i);
    }
    if at :| MarkerAt(prior, at) {
      MarkerSpelled(prior[at..at + 21]);
      assert prior[at..][..21] == prior[at..at + 21];
    }
  }

  lemma MarkerInPart(file: Bytes, offset: nat, size: nat, at: int)
    requires offset + size <= |file|
    ensures MarkerAt(file[offset..offset + size], at) <==>
              offset <= offset + at <= offset + size - 21 && MarkerAt(file, offset + at)
  {
    if 0 <= at <= size - 21 {
      var part := file[offset..offset + size];
      var a, b := part[at..at + 21], file[offset + at..offset + at + 21];
      assert forall i :: 0 <= i < 21 ==> a[i] == part[at + i] == file[offset + at + i] == b[i];
      assert a == b;
    }
  }

  lemma RoomFitsIff(file: Bytes, data: Bytes, room: Room)
    ensures RoomFits(file, data, room) <==>
              var prior := ReadAt(file, room.offset, room.size);
              room.size <= MAX_ROOM && |data| + 1 <= room.size && |prior| == room.size && HasMarker(prior)
  {
    var prior := ReadAt(file, room.offset, room.size);
    if |data| < room.size && room.offset + room.size <= |file| {
      assert prior == file[room.offset..room.offset + room.size];
      MarkerThere(prior);
      if at :| MarkerAt(prior, at) {
        MarkerInPart(file, room.offset, room.size, at);
      }
      if at :| room.offset <= at <= room.offset + room.size - 21 && MarkerAt(file, at) {
        MarkerInPart(file, room.offset, room.size, at - room.offset);
      }
    }
  }

  // The call writes exactly the room that the first section named .cmdline gives,
  // found behind the optional header, when the room passes the tests.
  lemma TargetIff(file: Bytes, data: Bytes, room: Room)
    ensures Target(file, data) == Some(room) <==> exists pe, table, n, k :: IsRoom(file, data, room, pe, table, n, k)
  {
    if Target(file, data) == Some(room) {
      TargetIsRoom(file, data, room);
    }
    if pe, table, n, k :| IsRoom(file, data, room, pe, table, n, k) {
      RoomIsTarget(file, data, room, pe, table, n, k);
    }
  }

  lemma TargetParts(file: Bytes, data: Bytes, room: Room) returns (at: nat)
    requires Target(file, data) == Some(room)
    ensures Section(file) == Some(at) && at + 40 <= |Header(file)| && RoomOf(Header(file), at) == room
    ensures RoomFits(file, data, room)
  {
    at := Section(file).value;
    RoomFitsIff(file, data, room);
  }

  lemma SectionParts(file: Bytes, at: nat) returns (pe: nat, table: nat, n: nat, k: nat)
    requires Section(file) == Some(at)
    ensures PeImage(Header(file), pe, table, n) && FirstNamed(Header(file), table, n, k) && at == table + 40 * k
  {
    table, n := SectionTable(file).value.0, SectionTable(file).value.1;
    TableAgrees(file, table, n);
    pe :| PeImage(Header(file), pe, table, n);
    k := FoundIsNamed(Header(file), table, n);
  }

  lemma TargetIsRoom(file: Bytes, data: Bytes, room: Room)
    requires Target(file, data) == Some(room)
    ensures exists pe, table, n, k :: IsRoom(file, data, room, pe, table, n, k)
  {
    var at := TargetParts(file, data, room);
    var pe, table, n, k := SectionParts(file, at);
    RoomAgrees(Header(file), at, room);
    HeaderIs(file);
    assert IsRoom(file, data, room, pe, table, n, k);
  }

  lemma HeaderIs(file: Bytes)
    ensures Header(file) == if |file| <= 4096 then file else file[..4096]
  {
  }

  lemma RoomIsTarget(file: Bytes, data: Bytes, room: Room, pe: nat, table: nat, n: nat, k: nat)
    requires IsRoom(file, data, room, pe, table, n, k)
    ensures Target(file, data) == Some(room)
  {
    HeaderIs(file);
    TableAgrees(file, table, n);
    NamedIsFound(Header(file), table, n, k, 0);
    assert Section(file) == Some(table + 40 * k);
    SectionIsTarget(file, data, room, table + 40 * k);
  }

  lemma SectionIsTarget(file: Bytes, data: Bytes, room: Room, at: nat)
    requires Section(file) == Some(at) && at + 40 <= |Header(file)| && RoomFits(file, data, room)
    requires var h := Header(file);
      && room.offset == Long(h, at + 20)
      && room.size == if Long(h, at + 16) < Long(h, at + 8) then Long(h, at + 16) else Long(h, at + 8)
    ensures Target(file, data) == Some(room)
  {
    RoomAgrees(Header(file), at, room);
    RoomFitsIff(file, data, room);
  }

  lemma RoomAgrees(h: Bytes, at: nat, room: Room)
    requires at + 40 <= |h|
    ensures RoomOf(h, at) == room <==>
              && room.offset == Long(h, at + 20)
              && room.size == if Long(h, at + 16) < Long(h, at + 8) then Long(h, at + 16) else Long(h, at + 8)
  {
    NumbersAgree(h, at + 8);
    NumbersAgree(h, at + 16);
    NumbersAgree(h, at + 20);
  }

  // On success the length and every byte outside the room are as before, and the
  // room has the data, blanks and a NUL; otherwise the file is untouched.
  lemma OnlyTheRoomChanges(file: Bytes, data: Bytes, i: nat)
    requires i < |file|
    ensures |Embedded(file, data)| == |file|
    ensures Target(file, data).None? ==> Embedded(file, data) == file
    ensures Target(file, data).Some? ==>
      var room := Target(file, data).value;
      && (i < room.offset || room.offset + room.size <= i ==> Embedded(file, data)[i] == file[i])
      && (i == room.offset + room.size - 1 ==> Embedded(file, data)[i] == 0)
  {
    if Target(file, data).Some? {
      TargetInFile(file, data);
      var room := Target(file, data).value;
      SplicedAt(file, room.offset, Field(data, room.size), i);
      assert Field(data, room.size)[room.size - 1] == 0;
    }
  }

  // In between the room has the data and then blanks.
  lemma RoomContents(file: Bytes, data: Bytes, i: nat)
    requires Target(file, data).Some? && i < Target(file, data).value.size - 1
    ensures var at := Target(file, data).value.offset + i;
      at < |Embedded(file, data)| && Embedded(file, data)[at] as int == if i < |data| then data[i] else ' ' as int
  {
    EmbeddedIs(file, data);
    var room := Target(file, data).value;
    FieldAt(data, room.size, i);
    SplicedAt(file, room.offset, Field(data, room.size), room.offset + i);
  }

  lemma EmbeddedIs(file: Bytes, data: Bytes)
    requires Target(file, data).Some?
    ensures var room := Target(file, data).value;
      && |data| < room.size && room.offset + room.size <= |file|
      && Embedded(file, data) == file[..room.offset] + Field(data, room.size) + file[room.offset + room.size..]
  {
    TargetInFile(file, data);
  }

  lemma FieldAt(data: Bytes, size: nat, i: nat)
    requires |data| < size && i < size - 1
    ensures Field(data, size)[i] as int == if i < |data| then data[i] else ' ' as int
  {
  }

  lemma SplicedAt(file: Bytes, at: nat, part: Bytes, i: nat)
    requires at + |part| <= |file| && i < |file|
    ensures var r := file[..at] + part + file[at + |part|..];
      |r| == |file| && r[i] == if at <= i < at + |part| then part[i - at] else file[i]
  {
  }

  // The text of a field: what comes before its first NUL.
  function UntilNul(s: Bytes): (r: Bytes)
    ensures r <= s && 0 !in r && (|r| < |s| ==> s[|r|] == 0)
  {
    if s == [] || s[0] == 0 then [] else [s[0]] + UntilNul(s[1..])
  }

  function FieldWords(file: Bytes, room: Room): seq<string> {
    Split(Decode(UntilNul(ReadAt(file, room.offset, room.size))))
  }

  predicate NulFree(s: string) {
    forall i :: 0 <= i < |s| ==> s[i] != 0 as char
  }

  lemma {:induction false} SplitBlank(s: string)
    requires forall i :: 0 <= i < |s| ==> IsSpace(s[i])
    ensures Split(s) == []
    decreases |s|
  {
    if s != [] { SplitBlank(s[1..]); }
  }

  lemma {:induction false} SplitTrailing(s: string, blank: string)
    requires forall i :: 0 <= i < |blank| ==> IsSpace(blank[i])
    ensures Split(s + blank) == Split(s)
    decreases |s|
  {
    if s == [] {
      assert s + blank == blank;
      SplitBlank(blank);
    } else if IsSpace(s[0]) {
      assert (s + blank)[1..] == s[1..] + blank;
      SplitTrailing(s[1..], blank);
    } else {
      var n := WordEnd(s);
      assert s == s[..n] + s[n..];
      assert s + blank == s[..n] + (s[n..] + blank);
      WordEndIs(s[..n], s[n..] + blank);
      assert (s + blank)[..n] == s[..n] && (s + blank)[n..] == s[n..] + blank;
      SplitTrailing(s[n..], blank);
    }
  }

  lemma NulInLine(s: string)
    ensures NulFree(s) <==> !Contains(s, [0 as char])
  {
    var nul := [0 as char];
    if Contains(s, nul) {
      var i :| 0 <= i <= |s| && FoundAt(s, nul, i);
      assert s[i] == s[i..i + 1][0];
    }
    if i :| 0 <= i < |s| && s[i] == 0 as char {
      assert s[i..i + 1] == nul;
      assert FoundAt(s, nul, i);
    }
  }

  // Texts that split into the same words hold a NUL together or not at all.
  lemma NulByWords(a: string, b: string)
    requires Split(a) == Split(b)
    ensures NulFree(a) <==> NulFree(b)
  {
    NulInLine(a);
    NulInLine(b);
    ContainsInWord(a, [0 as char]);
    ContainsInWord(b, [0 as char]);
  }

  function Blanks(n: nat): (r: string)
    ensures |r| == n && forall i :: 0 <= i < n ==> r[i] == ' '
  {
    seq(n, i => ' ')
  }

  lemma {:induction false} BlanksEncoded(n: nat)
    ensures Encode(Blanks(n)) == Spaces(n)
    decreases n
  {
    if n > 0 {
      assert Blanks(n)[1..] == Blanks(n - 1);
      BlanksEncoded(n - 1);
    }
  }

  lemma {:induction false} UntilFirstNul(a: Bytes, rest: Bytes)
    requires 0 !in a
    ensures UntilNul(a + [0] + rest) == a
    decreases |a|
  {
    if a == [] {
      assert a + [0] + rest == [0] + rest;
    } else {
      assert (a + [0] + rest)[1..] == a[1..] + [0] + rest;
      UntilFirstNul(a[1..], rest);
    }
  }

  // How much of a line comes before its first NUL, if there is one.
  function NulAt(s: string): (k: nat)
    ensures k <= |s| && NulFree(s[..k]) && (k < |s| ==> s[k] == 0 as char)
  {
    if s == [] || s[0] == 0 as char then 0
    else
      var k := 1 + NulAt(s[1..]);
      assert s[..k] == [s[0]] + s[1..][..k - 1];
      k
  }

  // A field whose text has a NUL ends there,
  lemma FieldIsCut(line: string, size: nat)
    requires |Encode(line)| < size && NulAt(line) < |line|
    ensures Decode(UntilNul(Field(Encode(line), size))) == line[..NulAt(line)]
  {
    var k, n := NulAt(line), size - 1 - |Encode(line)|;
    var head, tail := line[..k], line[k + 1..];
    EncodedAround(line, k);
    var rest := Encode(tail) + Spaces(n) + [0];
    assert Field(Encode(line), size) == Encode(head) + [0] + rest;
    NulEncoded(head);
    UntilFirstNul(Encode(head), rest);
    DecodeEncode(head);
  }

  lemma EncodedAround(line: string, k: nat)
    requires k < |line| && line[k] == 0 as char
    ensures Encode(line) == Encode(line[..k]) + [0] + Encode(line[k + 1..])
  {
    assert line == line[..k] + line[k..];
    EncodeAppend(line[..k], line[k..]);
    NulHead(line[k..]);
    assert line[k..][1..] == line[k + 1..];
  }

  lemma NulHead(s: string)
    requires s != [] && s[0] == 0 as char
    ensures Encode(s) == [0] + Encode(s[1..])
  {
  }

  // and any other is the text and the padding.
  lemma FieldIsWhole(line: string, size: nat)
    requires |Encode(line)| < size && NulFree(line)
    ensures Decode(UntilNul(Field(Encode(line), size))) == line + Blanks(size - 1 - |Encode(line)|)
  {
    var text := line + Blanks(size - 1 - |Encode(line)|);
    EncodeAppend(line, Blanks(size - 1 - |Encode(line)|));
    BlanksEncoded(size - 1 - |Encode(line)|);
    NulEncoded(text);
    assert Field(Encode(line), size) == Encode(text) + [0] + [];
    UntilFirstNul(Encode(text), []);
    DecodeEncode(text);
  }

  lemma FieldUntilNul(line: string, size: nat)
    requires |Encode(line)| < size
    ensures var text := Decode(UntilNul(Field(Encode(line), size)));
      NulFree(text) && (NulFree(line) ==> text == line + Blanks(size - 1 - |Encode(line)|))
  {
    if NulAt(line) < |line| {
      FieldIsCut(line, size);
    } else {
      assert line == line[..NulAt(line)];
      FieldIsWhole(line, size);
    }
  }

  lemma FieldReadsBack(cmdline: string, size: nat)
    requires |Encode(Data(cmdline))| < size
    ensures Split(Decode(UntilNul(Field(Encode(Data(cmdline)), size)))) == Split(cmdline) <==> NulFree(cmdline)
  {
    var line := Data(cmdline);
    var text := Decode(UntilNul(Field(Encode(line), size)));
    FieldUntilNul(line, size);
    SplitJoin(Split(cmdline));
    NulByWords(line, cmdline);
    if NulFree(cmdline) {
      SplitTrailing(line, Blanks(size - 1 - |Encode(line)|));
    } else if Split(text) == Split(cmdline) {
      NulByWords(text, cmdline);
    }
  }

  lemma EmbeddedField(file: Bytes, data: Bytes)
    requires Target(file, data).Some?
    ensures |data| < Target(file, data).value.size
    ensures ReadAt(Embedded(file, data), Target(file, data).value.offset, Target(file, data).value.size)
         == Field(data, Target(file, data).value.size)
  {
    TargetInFile(file, data);
  }

  // Reading the field back up to its first NUL gives exactly the words of the
  // requested line, as long as the line itself holds no NUL; and only then.
  lemma ReadBackIff(file: Bytes, cmdline: string)
    requires Target(file, Encode(Data(cmdline))).Some?
    ensures var data := Encode(Data(cmdline));
      (FieldWords(Embedded(file, data), Target(file, data).value) == Split(cmdline)) <==> NulFree(cmdline)
  {
    EmbeddedField(file, Encode(Data(cmdline)));
    FieldReadsBack(cmdline, Target(file, Encode(Data(cmdline))).value.size);
  }

  // ----- a line that does not read back

  // An image with an optional header of 240 bytes and two sections, the second one
  // named .cmdline, with 48 bytes of its 64 in use.
  function SmallByte(i: nat): Byte {
    if i == 0 then 77 else if i == 1 then 90
    else if i == 60 then 64
    else if i == 64 then 80 else if i == 65 then 69
    else if i == 70 then 2 else if i == 84 then 240
    else if i == 328 then 46
    else if 368 <= i < 376 then NAME[i - 368]
    else if i == 376 then 48 else if i == 384 then 64
    else if i == 389 then 2
    else if 512 <= i < 533 then MARKER[i - 512]
    else if 533 <= i then 32
    else 0
  }

  const SMALL_IMAGE: Bytes := seq(576, i requires 0 <= i < 576 => SmallByte(i))

  const SMALL_ROOM: Room := Room(512, 48)

  const WITH_NUL: string := ['a', 0 as char, 'b']

  lemma SmallHeader(h: Bytes)
    requires h == SMALL_IMAGE
    ensures PeImage(h, 64, 328, 2)
    ensures Long(h, 376) == 48 && Long(h, 384) == 64 && Long(h, 388) == 512
  {
  }

  lemma SmallPieces(h: Bytes)
    requires h == SMALL_IMAGE
    ensures SectionName(h, 328, 0) != NAME && SectionName(h, 328, 1) == NAME && h[512..533] == MARKER
  {
    assert SectionName(h, 328, 0)[1] == 0 && SectionName(h, 328, 1) == h[368..376];
  }

  lemma SmallTarget(data: Bytes)
    requires |data| < 48
    ensures Target(SMALL_IMAGE, data) == Some(SMALL_ROOM)
  {
    var h := SMALL_IMAGE;
    SmallHeader(h);
    SmallPieces(h);
    NameSpelled(SectionName(h, 328, 0));
    NameSpelled(SectionName(h, 328, 1));
    MarkerSpelled(h[512..533]);
    assert MarkerAt(h, 512);
    assert RoomFits(h, data, SMALL_ROOM);
    assert FirstNamed(h, 328, 2, 1);
    RoomIsTarget(h, data, SMALL_ROOM, 64, 328, 2, 1);
  }

  lemma NulIsWritten()
    ensures Data(WITH_NUL) == WITH_NUL && |Encode(WITH_NUL)| == 3 && !NulFree(WITH_NUL)
  {
    var s := WITH_NUL;
    assert s[1] == 0 as char;
    assert forall i :: 0 <= i < |s| ==> !IsSpace(s[i]);
    assert IsWord(s) && s + [] == s;
    WordEndIs(s, []);
    assert s[..3] == s && s[3..] == [] && Split([]) == [];
    assert Split(s) == [s] + [] == [s];
    assert s[1..] == [0 as char, 'b'] && [0 as char, 'b'][1..] == ['b'] && ['b'][1..] == [];
    assert Encode(['b']) == [98] && Encode([0 as char, 'b']) == [0] + [98];
  }

  lemma NulDoesNotReadBack()
    ensures Target(SMALL_IMAGE, Encode(Data(WITH_NUL))) == Some(SMALL_ROOM)
    ensures FieldWords(Embedded(SMALL_IMAGE, Encode(Data(WITH_NUL))), SMALL_ROOM) != Split(WITH_NUL)
  {
    NulIsWritten();
    SmallTarget(Encode(Data(WITH_NUL)));
    ReadBackIff(SMALL_IMAGE, WITH_NUL);
  }
}
