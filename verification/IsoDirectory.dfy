/** Reading ISO 9660 directories: records packed into sectors, and Rock Ridge names behind them. */
module IsoDirectory {

  import opened Results
  import opened Utf
  import opened Sectors

  const MAX_SECTORS: nat := 65536
  const MAX_CONTINUATIONS: nat := 8
  const DOT: Byte := 0x2E
  const SEMICOLON: Byte := 0x3B

  datatype IsoEntry = IsoEntry(name: seq<Byte>, isDirectory: bool, isSymlink: bool, placeholder: nat,
                               extent: nat, size: nat, flags: Byte, mode: nat, target: seq<Byte>)

  // ---------------------------------------------------------------- the system use area

  /** What a system use area adds to a record. */
  datatype RockRidge = RockRidge(name: seq<Byte>, isSymlink: bool, mode: nat, target: seq<Byte>)

  const NOTHING := RockRidge([], false, 0, [])

  predicate Signed(data: seq<Byte>, at: nat, first: char, second: char)
    requires at + 2 <= |data|
  {
    data[at] == first as int && data[at + 1] == second as int
  }

  /** A name segment: marked ones continue the name, others start it anew. */
  function Named(data: seq<Byte>, at: nat, length: nat, rr: RockRidge): RockRidge
    requires 5 <= length && at + length <= |data|
  {
    var segment := data[at + 5..at + length];
    if segment == [] then rr
    else rr.(name := if Bit(data[at + 4], 0x01) then rr.name + segment else segment)
  }

  const SLASH: Byte := 0x2F

  /** What one component of a link adds: up, root or here, then a name and a slash. */
  function Component(flags: Byte, name: seq<Byte>): seq<Byte> {
    (if Bit(flags, 0x04) then [DOT, DOT, SLASH]
     else if Bit(flags, 0x08) || Bit(flags, 0x10) then [SLASH]
     else if Bit(flags, 0x02) then [DOT, SLASH] else [])
    + (if name == [] then [] else name + [SLASH])
  }

  /** The components from p on, as far as they lie in the record. */
  function Components(data: seq<Byte>, p: nat, end: nat): seq<Byte>
    requires end <= |data|
    decreases end - p
  {
    if p + 2 > end || p + 2 + data[p + 1] > end then []
    else Component(data[p], data[p + 2..p + 2 + data[p + 1]]) + Components(data, p + 2 + data[p + 1], end)
  }

  /** Of the flags set, the one for the directory above comes first, then root or volume root, then the directory
      itself; the first bit, for a component that goes on, has no effect. */
  lemma ComponentMeans(flags: Byte, name: seq<Byte>, continues: bool, here: bool, up: bool, root: bool, rest: nat)
    requires flags == One(continues) + 2 * One(here) + 4 * One(up) + 8 * One(root) + 16 * rest
    ensures Component(flags, name)
            == (if up then [0x2E, 0x2E, 0x2F] else if root || rest % 2 == 1 then [0x2F] else if here then [0x2E, 0x2F] else [])
               + (if name == [] then [] else name + [0x2F])
  {
    BitsAreRead(flags, continues, here, up, root, rest);
    hide Bit;
  }

  function WithoutSlashes(s: seq<Byte>): seq<Byte> {
    if s != [] && s[|s| - 1] == SLASH then WithoutSlashes(s[..|s| - 1]) else s
  }

  method ParseLink(data: seq<Byte>, at: nat, length: nat) returns (target: seq<Byte>)
    requires at + length <= |data|
    ensures target == WithoutSlashes(Components(data, at + 5, at + length))
  {
    hide Component, Components;
    target := [];
    var p: nat := at + 5;
    var end := at + length;
    ghost var all := Components(data, p, end);
    while p + 2 <= end
      invariant all == target + Components(data, p, end)
      decreases end - p
    {
      var n: nat := data[p + 1];
      ComponentsStep(data, p, end);
      if p + 2 + n > end {
        break;
      }
      target := target + Component(data[p], data[p + 2..p + 2 + n]);
      p := p + 2 + n;
    }
    ComponentsStep(data, p, end);
    assert target + [] == target;
    target := StripSlashes(target);
  }

  lemma ComponentsStep(data: seq<Byte>, p: nat, end: nat)
    requires end <= |data|
    ensures if p + 2 > end || p + 2 + data[p + 1] > end then Components(data, p, end) == []
            else Components(data, p, end) ==
                 Component(data[p], data[p + 2..p + 2 + data[p + 1]]) + Components(data, p + 2 + data[p + 1], end)
  {
    hide Component;
  }

  method StripSlashes(s: seq<Byte>) returns (r: seq<Byte>)
    ensures r == WithoutSlashes(s)
  {
    r := s;
    while r != [] && r[|r| - 1] == SLASH
      invariant WithoutSlashes(r) == WithoutSlashes(s)
      decreases |r|
    {
      r := r[..|r| - 1];
    }
  }

  /** The rest of a system use area is read in another sector, if the record says so properly. */
  predicate Continued(disk: Disk, data: seq<Byte>, at: nat, length: nat)
    requires at + length <= |data|
  {
    && length >= 16 && 0 < Le32(data, at + 12) <= SECTOR && Le32(data, at + 4) in disk
    && Le32(data, at + 8) % SECTOR + Le32(data, at + 12) <= SECTOR
  }

  /** Records from pos to end, following continuations not deeper than allowed. */
  function SystemUse(disk: Disk, data: seq<Byte>, pos: nat, end: nat, rr: RockRidge, depth: nat): RockRidge
    requires end <= |data|
    decreases if depth > MAX_CONTINUATIONS then 0 else MAX_CONTINUATIONS + 1 - depth, end - pos
  {
    if depth > MAX_CONTINUATIONS || pos + 4 > end || data[pos + 2] < 4 || pos + data[pos + 2] > end then rr
    else
      var length := data[pos + 2];
      var next :=
        if Signed(data, pos, 'N', 'M') then if length >= 5 then Named(data, pos, length, rr) else rr
        else if Signed(data, pos, 'P', 'X') then if length >= 12 then rr.(mode := Le32(data, pos + 4)) else rr
        else if Signed(data, pos, 'S', 'L') then
          rr.(isSymlink := true, target := WithoutSlashes(Components(data, pos + 5, pos + length)))
        else if Signed(data, pos, 'C', 'E') && Continued(disk, data, pos, length) then
          var start := Le32(data, pos + 8) % SECTOR;
          SystemUse(disk, disk[Le32(data, pos + 4)], start, start + Le32(data, pos + 12), rr, depth + 1)
        else rr;
      SystemUse(disk, data, pos + length, end, next, depth)
  }

  method ParseSuspArea(disk: Disk, data: seq<Byte>, start: nat, end: nat, before: RockRidge, depth: nat) returns (rr: RockRidge)
    requires end <= |data|
    ensures rr == SystemUse(disk, data, start, end, before, depth)
    decreases if depth > MAX_CONTINUATIONS then 0 else MAX_CONTINUATIONS + 1 - depth
  {
    rr := before;
    if depth > MAX_CONTINUATIONS {
      return;
    }
    var pos := start;
    while pos + 4 <= end
      invariant SystemUse(disk, data, start, end, before, depth) == SystemUse(disk, data, pos, end, rr, depth)
      decreases end - pos
    {
      var length := data[pos + 2];
      if length < 4 || pos + length > end {
        break;
      }
      if Signed(data, pos, 'N', 'M') {
        if length >= 5 {
          rr := Named(data, pos, length, rr);
        }
      } else if Signed(data, pos, 'P', 'X') {
        if length >= 12 {
          rr := rr.(mode := Le32(data, pos + 4));
        }
      } else if Signed(data, pos, 'S', 'L') {
        var target := ParseLink(data, pos, length);
        rr := rr.(isSymlink := true, target := target);
      } else if Signed(data, pos, 'C', 'E') {
        if Continued(disk, data, pos, length) {
          var from := Le32(data, pos + 8) % SECTOR;
          rr := ParseSuspArea(disk, disk[Le32(data, pos + 4)], from, from + Le32(data, pos + 12), rr, depth + 1);
        }
      }
      pos := pos + length;
    }
  }

  // ---------------------------------------------------------------- one record

  /** The part of a name before its first semicolon. */
  function UpTo(name: seq<Byte>, stop: Byte): (r: seq<Byte>)
    ensures r <= name && stop !in r
    ensures |r| < |name| ==> name[|r|] == stop
  {
    if name == [] || name[0] == stop then [] else [name[0]] + UpTo(name[1..], stop)
  }

  function Ascii(s: string): seq<Byte> {
    if s == "" then [] else [(s[0] as int) % 0x80] + Ascii(s[1..])
  }

  predicate IsPlaceholder(raw: seq<Byte>, isDirectory: bool) {
    |raw| == 1 && isDirectory && 2 <= raw[0] <= 9
  }

  /** The name in a record: the two dot entries and placeholders are single bytes, and files carry a
      version. */
  function PlainName(raw: seq<Byte>, isDirectory: bool): seq<Byte> {
    var name :=
      if raw == [0] then [DOT] else if raw == [1] then [DOT, DOT]
      else if IsPlaceholder(raw, isDirectory) then Ascii("rr_moved/") + [0x30 + raw[0]]
      else raw;
    if isDirectory then name else UpTo(name, SEMICOLON)
  }

  lemma {:induction false} UpToFirst(name: seq<Byte>, stop: Byte, rest: seq<Byte>)
    requires stop !in name
    ensures UpTo(name + [stop] + rest, stop) == name
  {
    var whole := name + [stop] + rest;
    if name != [] {
      UpToFirst(name[1..], stop, rest);
      assert whole[0] == name[0] && whole[1..] == name[1..] + [stop] + rest;
    }
  }

  /** A file's version goes, whatever it is; a directory's name stays whole. */
  lemma VersionGoes(name: seq<Byte>, version: seq<Byte>)
    requires SEMICOLON !in name
    ensures PlainName(name + [SEMICOLON] + version, false) == name
    ensures PlainName(name + [SEMICOLON] + version, true) == name + [SEMICOLON] + version
  {
    var raw := name + [SEMICOLON] + version;
    UpToFirst(name, SEMICOLON, version);
    assert raw[|name|] == SEMICOLON;
    assert |raw| == 1 ==> raw[0] == SEMICOLON;
  }

  function Even(n: nat): nat { if n % 2 == 0 then n else n + 1 }

  /** Where the system use area of a record starts. */
  function AreaStart(data: seq<Byte>, length: nat, nameLength: nat): (at: nat)
    requires length <= |data|
  {
    var at := Even(33 + nameLength);
    if at + 7 <= length && Signed(data, at, 'S', 'P') && data[at + 2] >= 7 && data[at + 3] == 1 && 0 < data[at + 5] < length
    then data[at + 5] else at
  }

  /** The record at the front and its length. */
  function Record(disk: Disk, data: seq<Byte>): (r: Option<(IsoEntry, nat)>)
    ensures r.Some? ==> 33 <= r.value.1 <= |data|
  {
    if data == [] || data[0] < 33 || data[0] > |data| then None
    else
      var length: int, flags, nameLength: int := data[0], data[25], data[32];
      if 33 + nameLength > length then None
      else
        var raw := data[33..33 + nameLength];
        var isDirectory := Bit(flags, 0x02);
        var rr := SystemUse(disk, data, AreaStart(data, length, nameLength), length, NOTHING, 0);
        Some((IsoEntry(if rr.name == [] then PlainName(raw, isDirectory) else rr.name, isDirectory, rr.isSymlink,
                       if IsPlaceholder(raw, isDirectory) then raw[0] else 0, Le32(data, 2), Le32(data, 10), flags, rr.mode, rr.target), length))
  }

  method DecodeName(raw: seq<Byte>, isDirectory: bool) returns (name: seq<Byte>, placeholder: nat)
    ensures name == PlainName(raw, isDirectory)
    ensures placeholder == if IsPlaceholder(raw, isDirectory) then raw[0] else 0
  {
    name, placeholder := raw, 0;
    if |raw| == 1 && raw[0] == 0 {
      name := [DOT];
    } else if |raw| == 1 && raw[0] == 1 {
      name := [DOT, DOT];
    } else if |raw| == 1 && isDirectory && 2 <= raw[0] <= 9 {
      placeholder := raw[0];
      name := Ascii("rr_moved/") + [0x30 + raw[0]];
    }
    if !isDirectory {
      name := UpTo(name, SEMICOLON);
    }
  }

  method FindArea(data: seq<Byte>, length: nat, nameLength: nat) returns (area: nat)
    requires length <= |data|
    ensures area == AreaStart(data, length, nameLength)
  {
    area := 33 + nameLength;
    if area % 2 == 1 {
      area := area + 1;
    }
    if area + 7 <= length && Signed(data, area, 'S', 'P') && data[area + 2] >= 7 && data[area + 3] == 1 {
      var offset := data[area + 5];
      if offset > 0 && offset < length {
        area := offset;
      }
    }
  }

  method ParseDirectoryRecord(disk: Disk, data: seq<Byte>) returns (r: Option<(IsoEntry, nat)>)
    ensures r == Record(disk, data)
  {
    hide SystemUse, PlainName, IsPlaceholder, AreaStart, Le16, Le32, Bit;
    if |data| < 1 {
      return None;
    }
    var length: int := data[0];
    if length == 0 {
      return None;
    }
    if length < 33 || length > |data| {
      return None;
    }
    var flags := data[25];
    var nameLength: int := data[32];
    if 33 + nameLength > length {
      return None;
    }
    var isDirectory := Bit(flags, 0x02);
    var name, placeholder := DecodeName(data[33..33 + nameLength], isDirectory);
    var area := FindArea(data, length, nameLength);
    var rr := NOTHING;
    if area < length {
      rr := ParseSuspArea(disk, data, area, length, rr, 0);
    } else {
      NoArea(disk, data, area, length, rr);
    }
    return Some((IsoEntry(if rr.name == [] then name else rr.name, isDirectory, rr.isSymlink, placeholder,
                          Le32(data, 2), Le32(data, 10), flags, rr.mode, rr.target), length));
  }

  lemma NoArea(disk: Disk, data: seq<Byte>, pos: nat, end: nat, rr: RockRidge)
    requires end <= |data| && end <= pos
    ensures SystemUse(disk, data, pos, end, rr, 0) == rr
  {
  }

  // ---------------------------------------------------------------- a directory

  function Listed(e: IsoEntry): seq<IsoEntry> {
    if e.name == [DOT] || e.name == [DOT, DOT] then [] else [e]
  }

  /** The entries of one sector from a position on. */
  function InSector(disk: Disk, sector: Sector, at: nat): seq<IsoEntry>
    decreases SECTOR - at
  {
    if at >= SECTOR || sector[at] == 0 then []
    else
      var r := Record(disk, sector[at..]);
      if r.None? then [] else Listed(r.value.0) + InSector(disk, sector, at + r.value.1)
  }

  function InSectors(disk: Disk, first: int, count: nat): seq<IsoEntry>
    requires Readable(disk, first, count)
    decreases count
  {
    if count == 0 then [] else InSector(disk, disk[first], 0) + InSectors(disk, first + 1, count - 1)
  }

  function SectorCount(size: int): nat {
    if size <= 0 then 0 else if SectorsFor(size) > MAX_SECTORS then MAX_SECTORS else SectorsFor(size)
  }

  /** So many sectors hold the directory, or the directory is larger than 65536 sectors. */
  lemma SectorsHoldIt(size: int, count: nat)
    ensures SectorCount(size) <= count <==> size <= 2048 * count || 65536 <= count
  {
    if size > 0 {
      FewestSectors(size, count);
    }
    hide SectorsFor;
  }

  method ReadDirectory(disk: Disk, extent: int, size: int) returns (r: Option<seq<IsoEntry>>)
    ensures r.Some? <==> Readable(disk, extent, SectorCount(size))
    ensures r.Some? ==> r.value == InSectors(disk, extent, SectorCount(size))
  {
    hide SectorCount, InSector;
    var out: seq<IsoEntry> := [];
    var sectors := SectorCount(size);
    var s := 0;
    while s < sectors
      invariant 0 <= s <= sectors
      invariant Readable(disk, extent, s)
      invariant Readable(disk, extent, sectors) ==>
                  InSectors(disk, extent, sectors) == out + InSectors(disk, extent + s, sectors - s)
    {
      if extent + s !in disk {
        return None;
      }
      var entries := ReadOneSector(disk, disk[extent + s]);
      out := out + entries;
      s := s + 1;
    }
    return Some(out);
  }

  lemma SectorStep(disk: Disk, sector: Sector, at: nat)
    ensures at >= SECTOR || sector[at] == 0 ==> InSector(disk, sector, at) == []
    ensures at < SECTOR && sector[at] != 0 ==>
              var r := Record(disk, sector[at..]);
              InSector(disk, sector, at) ==
              if r.None? then [] else Listed(r.value.0) + InSector(disk, sector, at + r.value.1)
  {
    hide Record;
  }

  method ReadOneSector(disk: Disk, buffer: Sector) returns (out: seq<IsoEntry>)
    ensures out == InSector(disk, buffer, 0)
  {
    hide Record, InSector;
    out := [];
    var offset: nat := 0;
    while offset < SECTOR
      invariant InSector(disk, buffer, 0) == out + InSector(disk, buffer, offset)
    {
      SectorStep(disk, buffer, offset);
      if buffer[offset] == 0 {
        break;
      }
      var record := ParseDirectoryRecord(disk, buffer[offset..]);
      if record.None? {
        break;
      }
      var (entry, consumed) := record.value;
      if entry.name != [DOT] && entry.name != [DOT, DOT] {
        out := out + [entry];
      }
      offset := offset + consumed;
    }
    SectorStep(disk, buffer, offset);
  }

  // ---------------------------------------------------------------- writing system use areas

  /** A record of a system use area: a segment of the name, the mode, a link's plain components, or any record
      that is none of these, no continuation and no offset for the area. */
  datatype Use =
    | NameUse(part: seq<Byte>, continues: bool)
    | ModeUse(mode: nat, more: seq<Byte>)
    | LinkUse(names: seq<seq<Byte>>)
    | OtherUse(first: Byte, second: Byte, payload: seq<Byte>)

  ghost predicate Writable(u: Use) {
    match u
    case NameUse(part, _) => |part| <= 250
    case ModeUse(mode, more) => mode < 0x1_0000_0000 && 4 <= |more| <= 240
    case LinkUse(names) =>
      && (forall n <- names :: 0 < |n| < 256) && |LinkBytes(names)| <= 250
      && (names != [] ==> names[|names| - 1][|names[|names| - 1]| - 1] != 0x2F)
    case OtherUse(first, second, payload) =>
      && |payload| <= 251
      && [first as char, second as char] !in ["NM", "PX", "SL", "CE", "SP"]
  }

  /** Two letters, the length, a version, then what belongs to it. */
  ghost function UseBytes(u: Use): (r: seq<Byte>)
    requires Writable(u)
    ensures 4 <= |r| < 256
  {
    match u
    case NameUse(part, continues) => ['N' as int, 'M' as int, 5 + |part|, 1, One(continues)] + part
    case ModeUse(mode, more) => ['P' as int, 'X' as int, 8 + |more|, 1] + Le32Bytes(mode) + more
    case LinkUse(names) => ['S' as int, 'L' as int, 5 + |LinkBytes(names)|, 1, 0] + LinkBytes(names)
    case OtherUse(first, second, payload) => [first, second, 4 + |payload|, 1] + payload
  }

  ghost function AreaBytes(uses: seq<Use>): seq<Byte>
    requires forall u <- uses :: Writable(u)
    decreases |uses|
  {
    if uses == [] then [] else UseBytes(uses[0]) + AreaBytes(uses[1..])
  }

  /** Components with single slashes between them. */
  function Slashes(names: seq<seq<Byte>>): seq<Byte> {
    if names == [] then [] else if |names| == 1 then names[0] else names[0] + [0x2F] + Slashes(names[1..])
  }

  /** What a record says: a name starts anew or goes on, the last mode and the last link count, others say nothing. */
  ghost function Said(rr: RockRidge, u: Use): RockRidge {
    match u
    case NameUse(part, continues) => if part == [] then rr else rr.(name := if continues then rr.name + part else part)
    case ModeUse(mode, _) => rr.(mode := mode)
    case LinkUse(names) => rr.(isSymlink := true, target := Slashes(names))
    case OtherUse(_, _, _) => rr
  }

  ghost function AllSaid(rr: RockRidge, uses: seq<Use>): RockRidge
    decreases |uses|
  {
    if uses == [] then rr else AllSaid(Said(rr, uses[0]), uses[1..])
  }

  /** The bytes of part stand in data from pos on. */
  ghost predicate StandsAt(data: seq<Byte>, pos: nat, part: seq<Byte>) {
    pos + |part| <= |data| && forall i | pos <= i < pos + |part| :: data[i] == part[i - pos]
  }

  lemma StandsSplit(data: seq<Byte>, pos: nat, a: seq<Byte>, b: seq<Byte>)
    requires StandsAt(data, pos, a + b)
    ensures StandsAt(data, pos, a) && StandsAt(data, pos + |a|, b)
  {
    forall i | pos <= i < pos + |a| ensures data[i] == a[i - pos] {
      assert data[i] == (a + b)[i - pos];
    }
    forall i | pos + |a| <= i < pos + |a| + |b| ensures data[i] == b[i - (pos + |a|)] {
      assert data[i] == (a + b)[i - pos];
    }
  }

  lemma StandsIs(data: seq<Byte>, pos: nat, part: seq<Byte>)
    requires StandsAt(data, pos, part)
    ensures pos + |part| <= |data| && data[pos..pos + |part|] == part
  {
  }

  /** One record of an area is read as what it says. */
  lemma UseIsRead(disk: Disk, data: seq<Byte>, pos: nat, end: nat, u: Use, rr: RockRidge, depth: nat)
    requires Writable(u) && pos + |UseBytes(u)| <= end <= |data| && StandsAt(data, pos, UseBytes(u)) && depth <= 8
    ensures SystemUse(disk, data, pos, end, rr, depth) == SystemUse(disk, data, pos + |UseBytes(u)|, end, Said(rr, u), depth)
  {
    hide SystemUse, StandsAt, LinkBytes, Components, WithoutSlashes, Slashes, Le32, Le32Bytes, Named, AreaBytes;
    match u
    case NameUse(part, continues) => NameIsRead(disk, data, pos, end, part, continues, rr, depth);
    case ModeUse(mode, more) => ModeIsRead(disk, data, pos, end, mode, more, rr, depth);
    case LinkUse(names) => LinkUseIsRead(disk, data, pos, end, names, rr, depth);
    case OtherUse(first, second, payload) => OtherIsSkipped(disk, data, pos, end, first, second, payload, rr, depth);
  }

  lemma NameIsRead(disk: Disk, data: seq<Byte>, pos: nat, end: nat, part: seq<Byte>, continues: bool, rr: RockRidge, depth: nat)
    requires |part| <= 250 && depth <= 8 && pos + 5 + |part| <= end <= |data|
    requires StandsAt(data, pos, ['N' as int, 'M' as int, 5 + |part|, 1, One(continues)] + part)
    ensures SystemUse(disk, data, pos, end, rr, depth)
            == SystemUse(disk, data, pos + 5 + |part|, end, Said(rr, NameUse(part, continues)), depth)
  {
    hide SystemUse;
    var head := ['N' as int, 'M' as int, 5 + |part|, 1, One(continues)];
    StandsSplit(data, pos, head, part);
    assert data[pos] == head[0] && data[pos + 1] == head[1] && data[pos + 2] == head[2] && data[pos + 4] == head[4];
    assert data[pos + 5..pos + 5 + |part|] == part;
    BitsAreRead(data[pos + 4], continues, false, false, false, 0);
    NameStep(disk, data, pos, end, rr, depth);
  }

  lemma NameStep(disk: Disk, data: seq<Byte>, pos: nat, end: nat, rr: RockRidge, depth: nat)
    requires pos + 4 <= end <= |data| && 5 <= data[pos + 2] && pos + data[pos + 2] <= end && Signed(data, pos, 'N', 'M') && depth <= 8
    ensures SystemUse(disk, data, pos, end, rr, depth)
            == SystemUse(disk, data, pos + data[pos + 2], end, Named(data, pos, data[pos + 2], rr), depth)
  {
    hide Named, Components, WithoutSlashes, Continued, Le32;
  }

  lemma ModeIsRead(disk: Disk, data: seq<Byte>, pos: nat, end: nat, mode: nat, more: seq<Byte>, rr: RockRidge, depth: nat)
    requires mode < 0x1_0000_0000 && 4 <= |more| <= 240 && depth <= 8 && pos + 8 + |more| <= end <= |data|
    requires StandsAt(data, pos, ['P' as int, 'X' as int, 8 + |more|, 1] + Le32Bytes(mode) + more)
    ensures SystemUse(disk, data, pos, end, rr, depth) == SystemUse(disk, data, pos + 8 + |more|, end, rr.(mode := mode), depth)
  {
    hide SystemUse, Le32, Le32Bytes;
    var head := ['P' as int, 'X' as int, 8 + |more|, 1];
    StandsSplit(data, pos, head + Le32Bytes(mode), more);
    StandsSplit(data, pos, head, Le32Bytes(mode));
    assert data[pos] == head[0] && data[pos + 1] == head[1] && data[pos + 2] == head[2];
    StandsIs(data, pos + 4, Le32Bytes(mode));
    Le32RoundTrip(data, pos + 4, mode);
    ModeStep(disk, data, pos, end, rr, depth);
  }

  lemma ModeStep(disk: Disk, data: seq<Byte>, pos: nat, end: nat, rr: RockRidge, depth: nat)
    requires pos + 4 <= end <= |data| && 12 <= data[pos + 2] && pos + data[pos + 2] <= end && Signed(data, pos, 'P', 'X') && depth <= 8
    ensures SystemUse(disk, data, pos, end, rr, depth)
            == SystemUse(disk, data, pos + data[pos + 2], end, rr.(mode := Le32(data, pos + 4)), depth)
  {
    hide Named, Components, WithoutSlashes, Continued, Le32;
  }

  lemma LinkUseIsRead(disk: Disk, data: seq<Byte>, pos: nat, end: nat, names: seq<seq<Byte>>, rr: RockRidge, depth: nat)
    requires Writable(LinkUse(names)) && depth <= 8 && pos + 5 + |LinkBytes(names)| <= end <= |data|
    requires StandsAt(data, pos, ['S' as int, 'L' as int, 5 + |LinkBytes(names)|, 1, 0] + LinkBytes(names))
    ensures SystemUse(disk, data, pos, end, rr, depth)
            == SystemUse(disk, data, pos + 5 + |LinkBytes(names)|, end, Said(rr, LinkUse(names)), depth)
  {
    hide SystemUse, LinkBytes, Components, WithoutSlashes, Slashes;
    var head, n := ['S' as int, 'L' as int, 5 + |LinkBytes(names)|, 1, 0], 5 + |LinkBytes(names)|;
    StandsSplit(data, pos, head, LinkBytes(names));
    assert data[pos] == head[0] && data[pos + 1] == head[1] && data[pos + 2] == head[2];
    LinkIsRead(data, pos + 5, names);
    PlainLinkIsRead(names);
    LinkStep(disk, data, pos, end, rr, depth);
  }

  lemma LinkStep(disk: Disk, data: seq<Byte>, pos: nat, end: nat, rr: RockRidge, depth: nat)
    requires pos + 4 <= end <= |data| && 5 <= data[pos + 2] && pos + data[pos + 2] <= end && Signed(data, pos, 'S', 'L') && depth <= 8
    ensures var n := data[pos + 2];
            SystemUse(disk, data, pos, end, rr, depth)
            == SystemUse(disk, data, pos + n, end, rr.(isSymlink := true, target := WithoutSlashes(Components(data, pos + 5, pos + n))), depth)
  {
    hide Named, Components, WithoutSlashes, Continued, Le32;
  }

  /** A link record without components, at the end of its area, too. */
  lemma BareLinkIsRead(disk: Disk, data: seq<Byte>, pos: nat, end: nat, rr: RockRidge, depth: nat)
    requires depth <= 8 && pos + 4 == end <= |data| && Signed(data, pos, 'S', 'L') && data[pos + 2] == 4
    ensures SystemUse(disk, data, pos, end, rr, depth) == rr.(isSymlink := true, target := [])
  {
    NoMore(disk, data, end, end, rr.(isSymlink := true, target := []), depth);
    ComponentsStep(data, pos + 5, end);
    hide Named, Continued, Le32, Component;
  }

  lemma OtherIsSkipped(disk: Disk, data: seq<Byte>, pos: nat, end: nat, first: Byte, second: Byte, payload: seq<Byte>, rr: RockRidge, depth: nat)
    requires Writable(OtherUse(first, second, payload)) && depth <= 8 && pos + 4 + |payload| <= end <= |data|
    requires StandsAt(data, pos, [first, second, 4 + |payload|, 1] + payload)
    ensures SystemUse(disk, data, pos, end, rr, depth) == SystemUse(disk, data, pos + 4 + |payload|, end, rr, depth)
  {
    hide SystemUse;
    var head := [first, second, 4 + |payload|, 1];
    StandsSplit(data, pos, head, payload);
    assert data[pos] == head[0] && data[pos + 1] == head[1] && data[pos + 2] == head[2];
    OtherStep(disk, data, pos, end, rr, depth);
  }

  lemma OtherStep(disk: Disk, data: seq<Byte>, pos: nat, end: nat, rr: RockRidge, depth: nat)
    requires pos + 4 <= end <= |data| && 4 <= data[pos + 2] && pos + data[pos + 2] <= end && depth <= 8
    requires [data[pos] as char, data[pos + 1] as char] !in ["NM", "PX", "SL", "CE"]
    ensures SystemUse(disk, data, pos, end, rr, depth) == SystemUse(disk, data, pos + data[pos + 2], end, rr, depth)
  {
    hide Named, Components, WithoutSlashes, Continued, Le32;
  }

  /** An area is read as what its records say one after the other; less than a record's head may follow them. */
  lemma {:induction false} AreaIsRead(disk: Disk, data: seq<Byte>, pos: nat, end: nat, uses: seq<Use>, rr: RockRidge, depth: nat)
    requires depth <= 8 && forall u <- uses :: Writable(u)
    requires var bytes := AreaBytes(uses);
             pos + |bytes| <= end <= pos + |bytes| + 3 && end <= |data| && StandsAt(data, pos, bytes)
    ensures SystemUse(disk, data, pos, end, rr, depth) == AllSaid(rr, uses)
    decreases |uses|
  {
    hide SystemUse, StandsAt, UseBytes, Said, Writable;
    if uses == [] {
      NoMore(disk, data, pos, end, rr, depth);
    } else {
      assert uses[0] in uses;
      var bytes, rest := UseBytes(uses[0]), AreaBytes(uses[1..]);
      StandsSplit(data, pos, bytes, rest);
      UseIsRead(disk, data, pos, end, uses[0], rr, depth);
      AreaIsRead(disk, data, pos + |bytes|, end, uses[1..], Said(rr, uses[0]), depth);
    }
  }

  lemma NoMore(disk: Disk, data: seq<Byte>, pos: nat, end: nat, rr: RockRidge, depth: nat)
    requires end <= |data| && end <= pos + 3
    ensures SystemUse(disk, data, pos, end, rr, depth) == rr
  {
  }

  function Joined(segments: seq<seq<Byte>>): seq<Byte> {
    if segments == [] then [] else segments[0] + Joined(segments[1..])
  }

  /** Name records: all but the first are marked as continuing. */
  function NameUses(segments: seq<seq<Byte>>, first: bool): seq<Use>
    decreases |segments|
  {
    if segments == [] then [] else [NameUse(segments[0], !first)] + NameUses(segments[1..], false)
  }

  /** A name split into segments is put together again. */
  lemma {:induction false} SegmentsJoin(segments: seq<seq<Byte>>, rr: RockRidge, first: bool)
    requires forall s <- segments :: s != []
    ensures AllSaid(rr, NameUses(segments, first)) ==
            rr.(name := if segments == [] then rr.name else if first then Joined(segments) else rr.name + Joined(segments))
    decreases |segments|
  {
    if segments != [] {
      var s, rest := segments[0], segments[1..];
      assert s in segments && forall t <- rest :: t in segments;
      SegmentsJoin(rest, Said(rr, NameUse(s, !first)), false);
      OneMoreSegment(segments, rr, first);
      assert rr.name + (s + Joined(rest)) == (rr.name + s) + Joined(rest);
      assert rest == [] ==> s + Joined(rest) == s && rr.name + Joined(segments) == rr.name + s;
    }
    hide AllSaid, NameUses;
  }

  lemma OneMoreSegment(segments: seq<seq<Byte>>, rr: RockRidge, first: bool)
    requires segments != []
    ensures AllSaid(rr, NameUses(segments, first))
            == AllSaid(Said(rr, NameUse(segments[0], !first)), NameUses(segments[1..], false))
  {
    var uses := NameUses(segments, first);
    assert uses[0] == NameUse(segments[0], !first) && uses[1..] == NameUses(segments[1..], false);
    hide Said;
  }

  // ---------------------------------------------------------------- continuation areas

  ghost function Be32Bytes(n: nat): seq<Byte>
    requires n < 0x1_0000_0000
  {
    [n / 0x100_0000, n / 0x1_0000 % 0x100, n / 0x100 % 0x100, n % 0x100]
  }

  /** The number whose bytes stand in the opposite order. */
  ghost function Swapped(n: nat): nat
    requires n < 0x1_0000_0000
  {
    n / 0x100_0000 + n / 0x1_0000 % 0x100 * 0x100 + n / 0x100 % 0x100 * 0x1_0000 + n % 0x100 * 0x100_0000
  }

  /** A continuation record as the System Use Sharing Protocol writes it (section 5.1): block, offset and length,
      each in both byte orders. */
  ghost function ContinuationBytes(block: nat, offset: nat, length: nat): seq<Byte>
    requires block < 0x1_0000_0000 && offset < 0x1_0000_0000 && length < 0x1_0000_0000
  {
    ['C' as int, 'E' as int, 28, 1] + (Le32Bytes(block) + Be32Bytes(block)) + (Le32Bytes(offset) + Be32Bytes(offset))
    + (Le32Bytes(length) + Be32Bytes(length))
  }

  /** Where a continuation record leads: the sector, and the first and the last position in it. */
  ghost function LeadsTo(data: seq<Byte>, at: nat): (nat, nat, nat)
    requires at + 16 <= |data|
  {
    var start := Le32(data, at + 8) % 2048;
    (Le32(data, at + 4), start, start + Le32(data, at + 12))
  }

  /** The area goes on there, if it is a readable sector's and not empty, and not more than eight records deep. */
  lemma ContinuationIsFollowed(disk: Disk, data: seq<Byte>, pos: nat, end: nat, rr: RockRidge, depth: nat)
    requires pos + 16 <= end <= |data| && 16 <= data[pos + 2] && pos + data[pos + 2] <= end && Signed(data, pos, 'C', 'E') && depth <= 8
    ensures var (sector, from, to) := LeadsTo(data, pos);
            SystemUse(disk, data, pos, end, rr, depth)
            == SystemUse(disk, data, pos + data[pos + 2], end,
                         if depth < 8 && sector in disk && from < to <= 2048 then SystemUse(disk, disk[sector], from, to, rr, depth + 1) else rr, depth)
  {
    hide Named, Components, WithoutSlashes, Le32;
  }

  /** The offset is read where the block stands in the other byte order, and the length where the offset stands. So
      a record of the protocol leads to the area it was written for exactly when these happen to be the same. */
  lemma ContinuationIsReadIff(data: seq<Byte>, at: nat, block: nat, offset: nat, length: nat)
    requires block < 0x1_0000_0000 && offset < 2048 && 0 < length <= 2048 - offset
    requires StandsAt(data, at, ContinuationBytes(block, offset, length))
    ensures LeadsTo(data, at) == (block, Swapped(block) % 2048, Swapped(block) % 2048 + offset)
    ensures LeadsTo(data, at) == (block, offset, offset + length) <==> Swapped(block) % 2048 == offset && offset == length
  {
    ContinuationFields(data, at, block, offset, length);
    hide StandsAt, Le32, Swapped;
  }

  lemma ContinuationFields(data: seq<Byte>, at: nat, block: nat, offset: nat, length: nat)
    requires block < 0x1_0000_0000 && offset < 0x1_0000_0000 && length < 0x1_0000_0000
    requires StandsAt(data, at, ContinuationBytes(block, offset, length))
    ensures at + 28 <= |data| && Le32(data, at + 4) == block && Le32(data, at + 8) == Swapped(block) && Le32(data, at + 12) == offset
  {
    hide Le32, Le32Bytes, Be32Bytes, Swapped, StandsAt, ContinuationBytes;
    var bytes := ContinuationBytes(block, offset, length);
    StandsIs(data, at, bytes);
    ContinuationIs(block, offset, length);
    SliceOf(data, at, bytes, 4, 8);
    SliceOf(data, at, bytes, 8, 12);
    SliceOf(data, at, bytes, 12, 16);
    Le32RoundTrip(data, at + 4, block);
    Le32RoundTrip(data, at + 12, offset);
    BackwardIsSwapped(data, at + 8, block);
  }

  lemma ContinuationIs(block: nat, offset: nat, length: nat)
    requires block < 0x1_0000_0000 && offset < 0x1_0000_0000 && length < 0x1_0000_0000
    ensures var bytes := ContinuationBytes(block, offset, length);
            |bytes| == 28 && bytes[4..8] == Le32Bytes(block) && bytes[8..12] == Be32Bytes(block) && bytes[12..16] == Le32Bytes(offset)
  {
    hide Le32Bytes;
  }

  lemma BackwardIsSwapped(data: seq<Byte>, at: nat, n: nat)
    requires n < 0x1_0000_0000 && at + 4 <= |data| && data[at..at + 4] == Be32Bytes(n)
    ensures Le32(data, at) == Swapped(n)
  {
    LittleEndian(data, at);
    var s := data[at..at + 4];
    assert data[at] == s[0] && data[at + 1] == s[1] && data[at + 2] == s[2] && data[at + 3] == s[3];
    hide Le32;
  }

  // ---------------------------------------------------------------- writing records

  /** What a record is written for; more are the upper six flags. */
  datatype File = File(name: seq<Byte>, uses: seq<Use>, extent: nat, size: nat, hidden: bool, isDirectory: bool, more: nat)

  ghost function FlagsOf(f: File): int { One(f.hidden) + 2 * One(f.isDirectory) + 4 * f.more }

  /** The bytes are a directory record for the file; dates and the like may be anything, and less than the
      head of a system use record's worth of padding may follow. */
  ghost predicate IsRecord(bytes: seq<Byte>, f: File) {
    && (forall u <- f.uses :: Writable(u))
    && var area, uses := if |f.name| % 2 == 0 then 34 + |f.name| else 33 + |f.name|, AreaBytes(f.uses);
       && 33 + |f.name| <= |bytes| <= area + |uses| + 3 && |bytes| < 256 && (f.uses != [] ==> area + |uses| <= |bytes|)
       && bytes[0] == |bytes| && bytes[32] == |f.name|
       && Le32(bytes, 2) == f.extent && Le32(bytes, 10) == f.size && bytes[25] == FlagsOf(f)
       && bytes[33..33 + |f.name|] == f.name && (f.uses != [] ==> StandsAt(bytes, area, uses))
  }

  /** The plain name of a file: one byte stands for the dot entries and for moved directories, and a file's name ends
      before its version. */
  ghost function NameFor(f: File): seq<Byte> {
    if f.name == [0] then [0x2E]
    else if f.name == [1] then [0x2E, 0x2E]
    else if !f.isDirectory then UpTo(f.name, 0x3B)
    else if |f.name| == 1 && 2 <= f.name[0] <= 9 then [0x72, 0x72, 0x5F, 0x6D, 0x6F, 0x76, 0x65, 0x64, 0x2F, 0x30 + f.name[0]]
    else f.name
  }

  /** The entry a file should be listed as. */
  ghost function EntryFor(f: File): IsoEntry {
    var rr := AllSaid(RockRidge([], false, 0, []), f.uses);
    var flags: int := FlagsOf(f);
    IsoEntry(if rr.name == [] then NameFor(f) else rr.name, f.isDirectory, rr.isSymlink,
             if f.isDirectory && |f.name| == 1 && 2 <= f.name[0] <= 9 then f.name[0] else 0,
             f.extent, f.size, if 0 <= flags < 256 then flags else 0, rr.mode, rr.target)
  }

  lemma PlainNameIs(f: File)
    ensures PlainName(f.name, f.isDirectory) == NameFor(f)
    ensures IsPlaceholder(f.name, f.isDirectory) <==> f.isDirectory && |f.name| == 1 && 2 <= f.name[0] <= 9
  {
    MovedIs();
    UpToKeeps([0x2E], 0x3B);
    UpToKeeps([0x2E, 0x2E], 0x3B);
    hide Ascii, UpTo;
  }

  lemma MovedIs()
    ensures Ascii("rr_moved/") == [0x72, 0x72, 0x5F, 0x6D, 0x6F, 0x76, 0x65, 0x64, 0x2F]
  {
    AsciiAt("rr_moved/");
    hide Ascii;
  }

  lemma {:induction false} AsciiAt(s: string)
    ensures |Ascii(s)| == |s| && forall i | 0 <= i < |s| :: Ascii(s)[i] == s[i] as int % 0x80
  {
    if s != "" {
      AsciiAt(s[1..]);
    }
  }

  lemma {:induction false} UpToKeeps(name: seq<Byte>, stop: Byte)
    requires stop !in name
    ensures UpTo(name, stop) == name
  {
    if name != [] {
      UpToKeeps(name[1..], stop);
    }
  }

  function Slashed(names: seq<seq<Byte>>): seq<Byte> {
    if names == [] then [] else names[0] + [SLASH] + Slashed(names[1..])
  }

  function LinkBytes(names: seq<seq<Byte>>): seq<Byte>
    requires forall n <- names :: |n| < 256
    decreases |names|
  {
    if names == [] then [] else [0, |names[0]|] + names[0] + LinkBytes(names[1..])
  }

  /** A link's components are joined by slashes. */
  lemma {:induction false} LinkIsRead(data: seq<Byte>, pos: nat, names: seq<seq<Byte>>)
    requires forall n <- names :: 0 < |n| < 256
    requires pos + |LinkBytes(names)| <= |data| && StandsAt(data, pos, LinkBytes(names))
    ensures Components(data, pos, pos + |LinkBytes(names)|) == Slashed(names)
    decreases |names|
  {
    hide Components, StandsAt;
    var end := pos + |LinkBytes(names)|;
    if names == [] {
      ComponentsStep(data, pos, end);
    } else {
      var name, rest := names[0], LinkBytes(names[1..]);
      StandsSplit(data, pos, [0, |name|] + name, rest);
      OneComponent(data, pos, end, name);
      LinkIsRead(data, pos + 2 + |name|, names[1..]);
    }
  }

  lemma OneComponent(data: seq<Byte>, pos: nat, end: nat, name: seq<Byte>)
    requires 0 < |name| < 256 && pos + 2 + |name| <= end <= |data| && StandsAt(data, pos, [0, |name|] + name)
    ensures Components(data, pos, end) == name + [SLASH] + Components(data, pos + 2 + |name|, end)
  {
    hide Components;
    StandsSplit(data, pos, [0, |name|], name);
    assert data[pos] == 0 && data[pos + 1] == |name|;
    assert data[pos + 2..pos + 2 + |name|] == name;
    ComponentsStep(data, pos, end);
    assert Component(0, name) == [] + (name + [SLASH]) == name + [SLASH];
  }

  /** And the slash behind the last one goes. */
  lemma LastSlashGoes(names: seq<seq<Byte>>, last: seq<Byte>)
    requires last != [] && last[|last| - 1] != SLASH
    ensures WithoutSlashes(Slashed(names + [last])) == Slashed(names) + last
    decreases |names|
  {
    SlashedSnoc(names, last);
    var all := Slashed(names) + last;
    assert (all + [SLASH])[..|all|] == all;
    assert all[|all| - 1] == last[|last| - 1];
    assert WithoutSlashes(all + [SLASH]) == WithoutSlashes(all);
  }

  lemma {:induction false} SlashedSnoc(names: seq<seq<Byte>>, last: seq<Byte>)
    ensures Slashed(names + [last]) == Slashed(names) + last + [SLASH]
    decreases |names|
  {
    if names == [] {
      assert names + [last] == [last];
    } else {
      assert (names + [last])[0] == names[0] && (names + [last])[1..] == names[1..] + [last];
      SlashedSnoc(names[1..], last);
    }
  }

  /** Plain components come back with single slashes between them. */
  lemma PlainLinkIsRead(names: seq<seq<Byte>>)
    requires Writable(LinkUse(names))
    ensures WithoutSlashes(Slashed(names)) == Slashes(names)
  {
    hide Slashes;
    SlashesIs(names);
    if names != [] {
      var last := names[|names| - 1];
      assert names == names[..|names| - 1] + [last];
      assert last in names;
      LastSlashGoes(names[..|names| - 1], last);
    }
  }

  lemma {:induction false} SlashesIs(names: seq<seq<Byte>>)
    ensures Slashes(names) == if names == [] then [] else Slashed(names[..|names| - 1]) + names[|names| - 1]
    decreases |names|
  {
    if |names| > 1 {
      SlashesIs(names[1..]);
      var n := |names| - 1;
      assert names[1..][..n - 1] == names[..n][1..] && names[1..][n - 1] == names[n];
      assert (names[0] + [0x2F] + Slashed(names[..n][1..])) + names[n] == names[0] + [0x2F] + (Slashed(names[..n][1..]) + names[n]);
    }
  }

  lemma AreaAfterName(data: seq<Byte>, length: nat, nameLength: nat, uses: seq<Use>)
    requires length <= |data| && forall u <- uses :: Writable(u)
    requires var area, bytes := Even(33 + nameLength), AreaBytes(uses);
             length <= area + |bytes| + 3 && (uses != [] ==> area + |bytes| <= length && StandsAt(data, area, bytes))
    ensures AreaStart(data, length, nameLength) == Even(33 + nameLength)
  {
    if uses != [] {
      var area, bytes := Even(33 + nameLength), AreaBytes(uses);
      assert uses[0] in uses;
      NotAnOffset(uses[0]);
      var head := UseBytes(uses[0]);
      assert bytes[0] == head[0] && bytes[1] == head[1];
      assert data[area] == bytes[0] && data[area + 1] == bytes[1];
    }
    hide Even, AreaBytes, UseBytes, Writable;
  }

  lemma NotAnOffset(u: Use)
    requires Writable(u)
    ensures UseBytes(u)[0] != 'S' as int || UseBytes(u)[1] != 'P' as int
  {
  }

  /** An offset record at the front of the area, at least seven bytes long and pointing into the record, moves the
      start of the area; otherwise that is the first even position behind the name. */
  lemma OffsetIsTaken(data: seq<Byte>, length: nat, nameLength: nat)
    requires length <= |data|
    ensures var at := if nameLength % 2 == 0 then 34 + nameLength else 33 + nameLength;
            AreaStart(data, length, nameLength) ==
            if at + 7 <= length && data[at] == 'S' as int && data[at + 1] == 'P' as int && data[at + 2] >= 7 && data[at + 3] == 1
               && 0 < data[at + 5] < length
            then data[at + 5] else at
  {
  }

  /** A record is read back as the entry it was written for, whatever follows it. */
  lemma RecordRoundTrip(disk: Disk, bytes: seq<Byte>, tail: seq<Byte>, f: File)
    requires IsRecord(bytes, f)
    ensures Record(disk, bytes + tail) == Some((EntryFor(f), |bytes|))
  {
    hide SystemUse, PlainName, IsPlaceholder, AreaStart, Bit, AreaBytes, AllSaid, NameFor, Writable, Le32, One;
    var data := bytes + tail;
    var area, uses := Even(33 + |f.name|), AreaBytes(f.uses);
    SameFront(bytes, tail, f);
    AreaAfterName(data, |bytes|, |f.name|, f.uses);
    EmptyArea();
    if f.uses == [] {
      NothingSaid(disk, data, area, |bytes|, NOTHING, 0);
    } else {
      AreaIsRead(disk, data, area, |bytes|, f.uses, NOTHING, 0);
    }
    DirectoryFlag(bytes[25], f);
    PlainNameIs(f);
  }

  lemma NothingSaid(disk: Disk, data: seq<Byte>, pos: nat, end: nat, rr: RockRidge, depth: nat)
    requires end <= |data| && end <= pos + 3
    ensures SystemUse(disk, data, pos, end, rr, depth) == AllSaid(rr, []) == rr
  {
    NoMore(disk, data, pos, end, rr, depth);
  }

  lemma EmptyArea()
    ensures AreaBytes([]) == []
  {
  }

  lemma DirectoryFlag(b: Byte, f: File)
    requires b == FlagsOf(f)
    ensures Bit(b, 0x02) == f.isDirectory
  {
    BitsAreRead(b, f.hidden, f.isDirectory, f.more % 2 == 1, f.more / 2 % 2 == 1, f.more / 4);
    hide Bit;
  }

  lemma SameFront(bytes: seq<Byte>, tail: seq<Byte>, f: File)
    requires IsRecord(bytes, f)
    ensures var data, area, uses := bytes + tail, Even(33 + |f.name|), AreaBytes(f.uses);
            && data[0] == |bytes| && data[25] == bytes[25] && data[32] == |f.name| && |data| >= |bytes| >= 33 + |f.name|
            && data[33..33 + |f.name|] == f.name && Le32(data, 2) == f.extent && Le32(data, 10) == f.size
            && |bytes| <= area + |uses| + 3 && (f.uses != [] ==> area + |uses| <= |bytes| && StandsAt(data, area, uses))
  {
    var data := bytes + tail;
    hide AreaBytes, Writable, One;
    assert forall i | 0 <= i < |bytes| :: data[i] == bytes[i];
    assert data[33..33 + |f.name|] == bytes[33..33 + |f.name|];
    LittleEndian(data, 2);
    LittleEndian(bytes, 2);
    LittleEndian(data, 10);
    LittleEndian(bytes, 10);
    hide Le32, Le16;
  }

  /** A record together with what it was written for. */
  datatype Written = Written(bytes: seq<Byte>, file: File)

  ghost predicate AllRecords(group: seq<Written>) {
    forall i | 0 <= i < |group| :: IsRecord(group[i].bytes, group[i].file)
  }

  function Bytes(group: seq<Written>): seq<Byte> {
    if group == [] then [] else group[0].bytes + Bytes(group[1..])
  }

  /** What a group of records should be listed as: the dot entries are left out. */
  ghost function Listing(group: seq<Written>): seq<IsoEntry> {
    if group == [] then []
    else (if EntryFor(group[0].file).name in [[0x2E], [0x2E, 0x2E]] then [] else [EntryFor(group[0].file)]) + Listing(group[1..])
  }

  /** The records fill the sector from a position on, up to its end or to padding. */
  ghost predicate Fills(sector: Sector, at: nat, group: seq<Written>) {
    var bytes := Bytes(group);
    && at + |bytes| <= SECTOR && sector[at..at + |bytes|] == bytes
    && (at + |bytes| < SECTOR ==> sector[at + |bytes|] == 0)
  }

  lemma {:induction false} SectorRoundTrip(disk: Disk, sector: Sector, at: nat, group: seq<Written>)
    requires AllRecords(group) && Fills(sector, at, group)
    ensures InSector(disk, sector, at) == Listing(group)
    decreases |group|
  {
    hide Record, InSector, IsRecord, EntryFor;
    SectorStep(disk, sector, at);
    if group != [] {
      var bytes, rest := group[0].bytes, Bytes(group[1..]);
      assert IsRecord(bytes, group[0].file);
      Starts(bytes, group[0].file);
      FrontOfSlice(sector, at, bytes, rest);
      RecordRoundTrip(disk, bytes, sector[at + |bytes|..], group[0].file);
      SectorRoundTrip(disk, sector, at + |bytes|, group[1..]);
    }
  }

  lemma FrontOfSlice(s: seq<Byte>, at: nat, a: seq<Byte>, b: seq<Byte>)
    requires at + |a| + |b| <= |s| && s[at..at + |a| + |b|] == a + b
    ensures s[at..] == a + s[at + |a|..] && s[at + |a|..at + |a| + |b|] == b
    ensures a != [] ==> s[at] == a[0]
  {
    SliceOf(s, at, a + b, 0, |a|);
    SliceOf(s, at, a + b, |a|, |a| + |b|);
    assert (a + b)[..|a|] == a && (a + b)[|a|..] == b;
    assert s[at..][..|a|] == s[at..at + |a|];
  }

  lemma Starts(bytes: seq<Byte>, f: File)
    requires IsRecord(bytes, f)
    ensures |bytes| >= 33 && bytes[0] != 0
  {
  }

  ghost function AllListings(groups: seq<seq<Written>>): seq<IsoEntry> {
    if groups == [] then [] else Listing(groups[0]) + AllListings(groups[1..])
  }

  /** Records packed into consecutive sectors, none of them crossing into the next, are read back in the
      order they were written, as far as sectors are read. */
  lemma {:induction false} DirectoryRoundTrip(disk: Disk, first: int, groups: seq<seq<Written>>)
    requires Readable(disk, first, |groups|)
    requires forall s | 0 <= s < |groups| :: AllRecords(groups[s]) && Fills(disk[first + s], 0, groups[s])
    ensures InSectors(disk, first, |groups|) == AllListings(groups)
    decreases |groups|
  {
    hide InSector, AllRecords, Fills, Listing;
    if groups != [] {
      assert AllRecords(groups[0]) && Fills(disk[first + 0], 0, groups[0]);
      SectorRoundTrip(disk, disk[first], 0, groups[0]);
      forall s | 0 <= s < |groups[1..]|
        ensures AllRecords(groups[1..][s]) && Fills(disk[first + 1 + s], 0, groups[1..][s])
      {
        assert groups[1..][s] == groups[s + 1];
        assert Fills(disk[first + (s + 1)], 0, groups[s + 1]);
      }
      DirectoryRoundTrip(disk, first + 1, groups[1..]);
    }
  }
}
