/** UDF file entries: where a file or a directory lies, and what is read by way of them. */
module UdfFileEntry {

  import opened Results
  import opened Utf
  import opened Sectors
  import opened Extraction
  import opened AllocationDescriptors
  import opened UdfDirectory

  const TAG_FE: nat := 261
  const TAG_EFE: nat := 266

  datatype FileEntry = FileEntry(size: int, isDirectory: bool, ads: seq<Ad>)

  // ---------------------------------------------------------------- tags

  function Sum(bytes: seq<Byte>): nat {
    if bytes == [] then 0 else Sum(bytes[..|bytes| - 1]) + bytes[|bytes| - 1]
  }

  /** A descriptor's tag carries the sum of its other fifteen bytes in byte 4 (3/7.2 of ECMA-167). */
  predicate IsTagged(sector: Sector) {
    (Sum(sector[..4]) + Sum(sector[5..16])) % 0x100 == sector[4]
  }

  method CheckTag(sector: Sector) returns (ok: bool)
    ensures ok == IsTagged(sector)
  {
    hide Sum, Summed, IsTagged;
    var sum: int := 0;
    SummedEnds(sector);
    for i := 0 to 16
      invariant sum == Summed(sector, i) % 0x100
    {
      if i != 4 {
        SummedNext(sector, i);
        var b: int := sector[i];
        sum := (sum + b) % 0x100;
      }
    }
    ok := sum == sector[4];
  }

  /** The first i bytes without byte 4. */
  ghost function Summed(sector: Sector, i: nat): nat
    requires i <= 16
  {
    if i <= 4 then Sum(sector[..i]) else Sum(sector[..4]) + Sum(sector[5..i])
  }

  lemma SummedEnds(sector: Sector)
    ensures Summed(sector, 0) == 0 && Summed(sector, 5) == Summed(sector, 4)
    ensures Summed(sector, 16) % 0x100 == sector[4] <==> IsTagged(sector)
  {
    assert sector[..0] == [] && sector[5..5] == [];
  }

  lemma SummedNext(sector: Sector, i: nat)
    requires i < 16 && i != 4
    ensures Summed(sector, i + 1) == Summed(sector, i) + sector[i]
    ensures (Summed(sector, i) % 0x100 + sector[i]) % 0x100 == Summed(sector, i + 1) % 0x100
  {
    if i < 4 {
      assert sector[..i + 1][..i] == sector[..i];
    } else {
      assert sector[5..i + 1][..i - 5] == sector[5..i];
    }
  }

  // ---------------------------------------------------------------- file entries

  /** A 64-bit field read as a signed number. */
  function Signed64(s: seq<Byte>, at: nat): int
    requires at + 8 <= |s|
  {
    var n := Le32(s, at) + Le32(s, at + 4) * 0x1_0000_0000;
    if n < 0x8000_0000_0000_0000 then n else n - 0x1_0000_0000_0000_0000
  }

  /** Where the list of extents and its length stand in the two kinds of entry. */
  function ListAt(extended: bool): nat { if extended then 200 else 176 }
  function LengthAt(extended: bool): nat { if extended then 196 else 172 }

  /** A file entry that this model reads: properly tagged, and its list of extents lies in its sector. */
  predicate IsFileEntry(sector: Sector) {
    var tag := Le16(sector, 0);
    && IsTagged(sector) && (tag == TAG_FE || tag == TAG_EFE)
    && BytesRead(Le32(sector, LengthAt(tag == TAG_EFE))) <= SECTOR - ListAt(tag == TAG_EFE)
  }

  /** What it says. */
  ghost predicate Says(sector: Sector, f: FileEntry) {
    var extended := Le16(sector, 0) == TAG_EFE;
    && f.size == Signed64(sector, 56) && f.isDirectory == (sector[27] == 4)
    && Parsed(sector[ListAt(extended)..], Le32(sector, LengthAt(extended)), f.ads)
  }

  /** One sector says one thing only. */
  lemma SaysOneThing(sector: Sector, f: FileEntry, g: FileEntry)
    requires Says(sector, f) && Says(sector, g)
    ensures f == g
  {
    hide Le16, Le32, LongAt, ShortAt, Signed64;
    assert forall i | 0 <= i < |f.ads| :: f.ads[i] == g.ads[i];
  }

  method ReadFileEntry(disk: Disk, starts: seq<int>, partition: nat, block: int) returns (r: Option<FileEntry>)
    ensures var at := Absolute(starts, partition, block);
            && (r.Some? <==> at >= 0 && at in disk && IsFileEntry(disk[at]))
            && (r.Some? ==> Says(disk[at], r.value))
  {
    hide IsTagged, Le16, Le32;
    var at := Absolute(starts, partition, block);
    if at < 0 || at !in disk {
      return None;
    }
    var sector := disk[at];
    var tagged := CheckTag(sector);
    var tag := Le16(sector, 0);
    if !tagged || (tag != TAG_FE && tag != TAG_EFE) {
      return None;
    }
    var extended := tag == TAG_EFE;
    var length := Le32(sector, LengthAt(extended));
    if BytesRead(length) > SECTOR - ListAt(extended) {
      return None;
    }
    var ads := ParseAllocationDescriptors(sector[ListAt(extended)..], length);
    return Some(FileEntry(Signed64(sector, 56), sector[27] == 4, ads));
  }

  /** The bytes of the tag but for the fifth, added up. */
  ghost function TagSum(s: Sector): (sum: int) {
    var start: int := s[0];
    start + s[1] + s[2] + s[3] + s[5] + s[6] + s[7] + s[8] + s[9] + s[10] + s[11] + s[12] + s[13] + s[14] + s[15]
  }

  /** A file entry as it is written (4/14.9 and 4/14.17 of ECMA-167), with long descriptors. */
  datatype Described = Described(extended: bool, fileType: Byte, size: nat, list: seq<Stored>)

  /** The sector holds such an entry; what the reader does not look at may be anything. */
  ghost predicate IsEntryFor(sector: Sector, e: Described) {
    && e.size < 0x1_0000_0000_0000_0000 && 16 * |e.list| <= (if e.extended then 1848 else 1872)
    && Le16(sector, 0) == (if e.extended then 266 else 261) && sector[27] == e.fileType
    && Le32(sector, 56) == e.size % 0x1_0000_0000 && Le32(sector, 60) == e.size / 0x1_0000_0000
    && Le32(sector, if e.extended then 196 else 172) == 16 * |e.list|
    && HoldsLong(sector[if e.extended then 200 else 176..], e.list)
    && TagSum(sector) % 256 == sector[4]
  }

  /** Such an entry is read, as what it was written for: file type 4 is a directory's, and sizes from 2^63 on are
      negative. */
  lemma EntryIsRead(sector: Sector, e: Described, f: FileEntry)
    requires IsEntryFor(sector, e)
    ensures IsFileEntry(sector)
    ensures Says(sector, f) ==>
              && f.size == (if e.size < 0x8000_0000_0000_0000 then e.size else e.size - 0x1_0000_0000_0000_0000)
              && f.isDirectory == (e.fileType == 4) && |f.ads| == |e.list|
              && forall i | 0 <= i < |e.list| :: f.ads[i] == e.list[i].ad
  {
    hide Le16, Le32, HoldsLong, IsTagged, Parsed;
    var at := if e.extended then 200 else 176;
    TagIs(sector);
    StaysInSectorIff(at, 16 * |e.list|);
    assert BytesRead(16 * |e.list|) <= 2048 - at;
    if Says(sector, f) {
      LongListIsRead(sector[at..], e.list, f.ads);
      assert e.size == e.size % 0x1_0000_0000 + e.size / 0x1_0000_0000 * 0x1_0000_0000;
    }
  }

  lemma TagIs(sector: Sector)
    ensures IsTagged(sector) <==> TagSum(sector) % 256 == sector[4]
  {
    FirstNine(sector);
    SummedEnds(sector);
    hide Summed, IsTagged;
    SummedNext(sector, 10);
    SummedNext(sector, 11);
    SummedNext(sector, 12);
    SummedNext(sector, 13);
    SummedNext(sector, 14);
    SummedNext(sector, 15);
  }

  /** Exactly these sectors are taken for file entries: a right tag of either kind, and a list of extents within the
      sector. */
  lemma IsFileEntryIff(sector: Sector)
    ensures IsFileEntry(sector) <==>
            && TagSum(sector) % 256 == sector[4]
            && (|| (Le16(sector, 0) == 261 && BytesRead(Le32(sector, 172)) <= 1872)
                || (Le16(sector, 0) == 266 && BytesRead(Le32(sector, 196)) <= 1848))
  {
    TagIs(sector);
    hide Le16, Le32, IsTagged, BytesRead;
  }

  lemma FirstNine(sector: Sector)
    ensures var start: int := sector[0];
            Summed(sector, 10) == start + sector[1] + sector[2] + sector[3] + sector[5] + sector[6] + sector[7] + sector[8] + sector[9]
  {
    SummedEnds(sector);
    hide Sum, Summed, IsTagged;
    SummedNext(sector, 0);
    SummedNext(sector, 1);
    SummedNext(sector, 2);
    SummedNext(sector, 3);
    SummedNext(sector, 5);
    SummedNext(sector, 6);
    SummedNext(sector, 7);
    SummedNext(sector, 8);
    SummedNext(sector, 9);
  }

  // ---------------------------------------------------------------- by way of file entries

  /** The first sector of what an entry describes: its first extent, or the block it was asked for by. */
  function FirstSector(starts: seq<int>, partition: nat, block: int, ads: seq<Ad>): int {
    Absolute(starts, partition, if ads == [] then block else ads[0].location)
  }

  /** A directory is read exactly when its entry can be read and is a directory's, it lies in a known
      partition, is not nested too deep nor too large, and its sectors are there. */
  method ReadDirectoryEntry(disk: Disk, starts: seq<int>, partition: nat, block: int, depth: int)
    returns (r: Option<seq<UdfEntry>>, ghost f: FileEntry)
    ensures var at := Absolute(starts, partition, block);
            var found := at >= 0 && at in disk && IsFileEntry(disk[at]);
            && (found && depth <= 64 ==> Says(disk[at], f))
            && var base := Absolute(starts, partition, if f.ads == [] then block else f.ads[0].location);
               && (r.Some? <==> depth <= 64 && found && f.isDirectory && base >= 0
                                && Reported(f.size) <= 8192 && Readable(disk, base, Reported(f.size)))
               && (r.Some? ==> r.value == Read(disk, base, Reported(f.size), 0))
  {
    hide IsFileEntry, Says, Read, Reported, Readable;
    f := FileEntry(0, false, []);
    if depth > 64 {
      return None, f;
    }
    var entry := ReadFileEntry(disk, starts, partition, block);
    if entry.None? {
      return None, f;
    }
    f := entry.value;
    if !entry.value.isDirectory {
      return None, f;
    }
    var base := FirstSector(starts, partition, block, entry.value.ads);
    if base < 0 {
      return None, f;
    }
    r := ReadDirectory(disk, base, entry.value.size, depth);
  }

  /** A file is extracted by way of its entry: exactly the bytes its extents hold, or nothing. */
  method ExtractEntry(disk: Disk, starts: seq<int>, partition: nat, block: int) returns (r: Option<seq<Byte>>)
    ensures var at := Absolute(starts, partition, block);
            if at >= 0 && at in disk && IsFileEntry(disk[at]) then
              exists f :: Says(disk[at], f) && r == if f.size < 0 then None else Content(disk, starts, f.ads, f.size)
            else r == None
  {
    hide IsFileEntry, Says, Content;
    var entry := ReadFileEntry(disk, starts, partition, block);
    if entry.None? {
      return None;
    }
    r := ExtractUdfFile(disk, starts, entry.value.ads, entry.value.size);
  }
}
