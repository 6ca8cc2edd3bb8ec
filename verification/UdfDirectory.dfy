/** Reading a UDF directory as a stream that grows while it is read. */
module UdfDirectory {

  import opened Results
  import opened Utf
  import opened Sectors
  import opened Names

  const MAX_SECTORS: nat := 8192
  const HEADER: nat := 38
  const TAG_FID: nat := 257

  datatype UdfEntry = UdfEntry(name: seq<Byte>, isDirectory: bool, location: int, partition: int, size: int)

  // ---------------------------------------------------------------- one descriptor

  /** A file identifier descriptor starts here. */
  predicate IsFid(data: seq<Byte>, at: nat)
    requires at + HEADER <= |data|
  {
    Le16(data, at) == TAG_FID
  }

  function FidLength(data: seq<Byte>, at: nat): (n: nat)
    requires at + HEADER <= |data|
    ensures n >= HEADER
  {
    HEADER + data[at + 19] + Le16(data, at + 36)
  }

  /** The next descriptor starts on a multiple of four bytes. */
  function Aligned(n: nat): (m: nat)
    ensures n <= m < n + 4 && m % 4 == 0
  {
    (n + 3) / 4 * 4
  }

  const DOT: Byte := 0x2E

  /** The entry that a descriptor stands for, unless it is the parent's, deleted or nameless. */
  function EntryOf(data: seq<Byte>, at: nat): seq<UdfEntry>
    requires at + HEADER <= |data| && at + FidLength(data, at) <= |data|
  {
    var flags := data[at + 18];
    var from := at + HEADER + Le16(data, at + 36);
    var name := UdfName(data[from..from + data[at + 19]]);
    if Bit(flags, 0x08) || Bit(flags, 0x04) || name == [] || name == [DOT] || name == [DOT, DOT] then []
    else [UdfEntry(name, Bit(flags, 0x02), Le32(data, at + 24), Le16(data, at + 28), Le32(data, at + 20) % 0x4000_0000)]
  }

  predicate AllZero(s: seq<Byte>) {
    forall i | 0 <= i < |s| :: s[i] == 0
  }

  // ---------------------------------------------------------------- the stream

  /** What is read from offset on when the first k sectors are loaded. */
  ghost function Read(disk: Disk, base: int, k: nat, offset: nat): seq<UdfEntry>
    requires k <= MAX_SECTORS && Readable(disk, base, k)
    decreases MAX_SECTORS - k, SECTOR * k - offset
  {
    var data := Run(disk, base, k);
    if offset + HEADER > |data| || !IsFid(data, offset) then []
    else if offset + FidLength(data, offset) > |data| then
      if k >= MAX_SECTORS || base + k !in disk || AllZero(disk[base + k]) then [] else Read(disk, base, k + 1, offset)
    else EntryOf(data, offset) + Read(disk, base, k, offset + Aligned(FidLength(data, offset)))
  }

  /** The number of sectors read before the first descriptor is looked at. */
  function Reported(size: int): nat {
    if size <= 0 then 1 else SectorsFor(size)
  }

  /** As many as hold the reported size, and one in any case. */
  lemma ReportedIs(size: int, count: nat)
    ensures Reported(size) <= count <==> 1 <= count && size <= 2048 * count
  {
    if size > 0 {
      FewestSectors(size, count);
    }
    hide SectorsFor;
  }

  /** The next sector, unless it cannot be read or is all zeroes. */
  method Probe(disk: Disk, sector: int) returns (r: Option<seq<Byte>>)
    ensures r.Some? <==> sector in disk && exists i | 0 <= i < 2048 :: disk[sector][i] != 0
    ensures r.Some? <==> sector in disk && !AllZero(disk[sector])
    ensures r.Some? ==> r.value == disk[sector]
  {
    if sector !in disk {
      return None;
    }
    var probe := disk[sector];
    var nonzero := false;
    var i := 0;
    while i < SECTOR && !nonzero
      invariant 0 <= i <= SECTOR
      invariant nonzero <==> exists j | 0 <= j < i :: probe[j] != 0
    {
      if probe[i] != 0 {
        nonzero := true;
      }
      i := i + 1;
    }
    return if nonzero then Some(probe) else None;
  }

  method DecodeFid(data: seq<Byte>, at: nat) returns (entries: seq<UdfEntry>)
    requires at + HEADER <= |data| && at + FidLength(data, at) <= |data|
    ensures entries == EntryOf(data, at)
  {
    hide UdfName, IsUtf8;
    var flags := data[at + 18];
    entries := [];
    if !Bit(flags, 0x08) && !Bit(flags, 0x04) {
      var lenFi: int, from := data[at + 19], at + HEADER + Le16(data, at + 36);
      var name: seq<Byte> := [];
      if lenFi > 0 {
        var decoded := DecodeUdfName(data[from..from + lenFi]);
        name := decoded.utf8;
      } else {
        NoName(data[from..from + lenFi]);
      }
      if name != [] && name != [DOT] && name != [DOT, DOT] {
        entries := [UdfEntry(name, Bit(flags, 0x02), Le32(data, at + 24), Le16(data, at + 28),
                             Le32(data, at + 20) % 0x4000_0000)];
      }
    }
  }

  lemma NoName(data: seq<Byte>)
    requires data == []
    ensures UdfName(data) == []
  {
  }

  /** One step of the stream, for a reader that has data loaded. */
  lemma ReadStep(disk: Disk, base: int, k: nat, offset: nat, data: seq<Byte>)
    requires k <= MAX_SECTORS && Readable(disk, base, k) && data == Run(disk, base, k)
    ensures offset + HEADER > |data| ==> Read(disk, base, k, offset) == []
    ensures offset + HEADER <= |data| && !IsFid(data, offset) ==> Read(disk, base, k, offset) == []
    ensures
      offset + HEADER <= |data| && IsFid(data, offset) ==>
        var end := offset + FidLength(data, offset);
        && (end <= |data| ==> Read(disk, base, k, offset)
                              == EntryOf(data, offset) + Read(disk, base, k, offset + Aligned(FidLength(data, offset))))
        && (end > |data| ==>
              if k >= MAX_SECTORS || base + k !in disk || AllZero(disk[base + k]) then Read(disk, base, k, offset) == []
              else Readable(disk, base, k + 1) && data + disk[base + k] == Run(disk, base, k + 1)
                   && Read(disk, base, k, offset) == Read(disk, base, k + 1, offset))
  {
    hide EntryOf, FidLength, AllZero, Aligned;
  }

  method ReadDirectory(disk: Disk, base: int, size: int, depth: int) returns (r: Option<seq<UdfEntry>>)
    ensures r.Some? <==> depth <= 64 && Reported(size) <= 8192 && Readable(disk, base, Reported(size))
    ensures r.Some? ==> r.value == Read(disk, base, Reported(size), 0)
  {
    hide EntryOf, FidLength, AllZero, Reported, Read, Run, Aligned;
    if depth > 64 {
      return None;
    }
    var sectorsNeeded := Reported(size);
    if sectorsNeeded > MAX_SECTORS {
      return None;
    }
    var loaded := ReadSectors(disk, base, sectorsNeeded);
    if loaded.None? {
      return None;
    }
    var dirData := loaded.value;
    var out: seq<UdfEntry> := [];
    var offset: nat := 0;
    while true
      invariant sectorsNeeded <= MAX_SECTORS && Readable(disk, base, sectorsNeeded)
      invariant dirData == Run(disk, base, sectorsNeeded)
      invariant Read(disk, base, Reported(size), 0) == out + Read(disk, base, sectorsNeeded, offset)
      decreases MAX_SECTORS - sectorsNeeded, |dirData| - offset
    {
      ReadStep(disk, base, sectorsNeeded, offset, dirData);
      if offset + HEADER > |dirData| {
        break;
      }
      if dirData[offset] == 0 && dirData[offset + 1] == 0 && dirData[offset + 2] == 0 && dirData[offset + 3] == 0 {
        break;
      }
      if Le16(dirData, offset) != TAG_FID {
        break;
      }
      var total := FidLength(dirData, offset);
      if offset + total > |dirData| {
        if sectorsNeeded >= MAX_SECTORS {
          break;
        }
        var probe := Probe(disk, base + sectorsNeeded);
        if probe.None? {
          break;
        }
        dirData := dirData + probe.value;
        sectorsNeeded := sectorsNeeded + 1;
        continue;
      }
      var entries := DecodeFid(dirData, offset);
      out := out + entries;
      offset := offset + Aligned(total);
    }
    return Some(out);
  }

  // ---------------------------------------------------------------- what the reader gets to see

  /** Where a descriptor starts and how long it is. */
  datatype Fid = Fid(start: nat, length: nat)

  function End(f: Fid): nat { f.start + f.length }

  /** The descriptors of directory data that is loaded completely. */
  ghost function Stream(data: seq<Byte>, offset: nat): seq<Fid>
    decreases |data| - offset
  {
    if offset + HEADER > |data| || !IsFid(data, offset) || offset + FidLength(data, offset) > |data| then []
    else [Fid(offset, FidLength(data, offset))] + Stream(data, offset + Aligned(FidLength(data, offset)))
  }

  /** Some sector between the loaded ones and the end of a descriptor is all zeroes. */
  ghost predicate Blocked(disk: Disk, base: int, k: nat, f: Fid) {
    exists s | base + k <= s < base + SectorsFor(End(f)) :: ZeroSector(disk, s)
  }

  ghost predicate ZeroSector(disk: Disk, sector: int) {
    sector in disk && AllZero(disk[sector])
  }

  function LoadedFor(k: nat, f: Fid): nat { if k < SectorsFor(End(f)) then SectorsFor(End(f)) else k }

  /** Of these descriptors, the ones a reader that starts with k sectors gets to: it needs a whole header
      in what is loaded, and loads more only for the rest of a descriptor and up to an all-zero sector. */
  ghost function Reached(disk: Disk, base: int, fids: seq<Fid>, k: nat): seq<Fid>
    decreases |fids|
  {
    if fids == [] || fids[0].start + HEADER > SECTOR * k || Blocked(disk, base, k, fids[0]) then []
    else [fids[0]] + Reached(disk, base, fids[1..], LoadedFor(k, fids[0]))
  }

  ghost predicate Within(data: seq<Byte>, fids: seq<Fid>) {
    forall f <- fids :: End(f) <= |data| && f.start + HEADER <= |data| && f.length == FidLength(data, f.start)
  }

  ghost function EntriesOf(data: seq<Byte>, fids: seq<Fid>): seq<UdfEntry>
    requires Within(data, fids)
    decreases |fids|
  {
    if fids == [] then [] else EntryOf(data, fids[0].start) + EntriesOf(data, fids[1..])
  }

  /** As many sectors as the reader could ever load. */
  ghost predicate Whole(disk: Disk, base: int, all: nat) {
    all <= MAX_SECTORS && Readable(disk, base, all) && (all == MAX_SECTORS || base + all !in disk)
  }

  lemma {:induction false} StreamIsWithin(data: seq<Byte>, offset: nat)
    ensures Within(data, Stream(data, offset))
    decreases |data| - offset
  {
    hide FidLength, IsFid;
    if Stream(data, offset) != [] {
      StreamIsWithin(data, offset + Aligned(FidLength(data, offset)));
    }
  }

  lemma {:induction false} ReachedIsPrefix(disk: Disk, base: int, fids: seq<Fid>, k: nat)
    ensures Reached(disk, base, fids, k) <= fids
    decreases |fids|
  {
    if Reached(disk, base, fids, k) != [] {
      ReachedIsPrefix(disk, base, fids[1..], LoadedFor(k, fids[0]));
    }
  }

  /** What lies in the loaded part of the data does not depend on the rest. */
  lemma PartAgrees(part: seq<Byte>, data: seq<Byte>, at: nat)
    requires part <= data && at + HEADER <= |part|
    ensures IsFid(part, at) == IsFid(data, at) && FidLength(part, at) == FidLength(data, at)
    ensures at + FidLength(part, at) <= |part| ==> EntryOf(part, at) == EntryOf(data, at)
  {
    hide UdfName;
    if at + FidLength(part, at) <= |part| {
      var from := at + HEADER + Le16(data, at + 36);
      assert part[from..from + data[at + 19]] == data[from..from + data[at + 19]];
    }
  }

  /** A descriptor that is loaded completely is seen, and needs nothing more. */
  lemma SeesLoaded(disk: Disk, base: int, fids: seq<Fid>, k: nat)
    requires fids != [] && fids[0].length >= HEADER && End(fids[0]) <= SECTOR * k
    ensures Reached(disk, base, fids, k) == [fids[0]] + Reached(disk, base, fids[1..], k)
  {
    hide ZeroSector;
    assert SectorsFor(End(fids[0])) <= k;
  }

  /** A descriptor whose header is loaded pulls in the next sector, unless that one is all zeroes. */
  lemma PullsInNext(disk: Disk, base: int, fids: seq<Fid>, k: nat)
    requires fids != [] ==> fids[0].start + HEADER <= SECTOR * k < End(fids[0])
    ensures Reached(disk, base, fids, k) == if ZeroSector(disk, base + k) then [] else Reached(disk, base, fids, k + 1)
  {
    hide ZeroSector;
    if fids != [] {
      assert SectorsFor(End(fids[0])) >= k + 1;
      assert Blocked(disk, base, k, fids[0]) == (ZeroSector(disk, base + k) || Blocked(disk, base, k + 1, fids[0]));
    }
  }

  /** The reader sees exactly the descriptors of the whole directory that can be reached. */
  lemma {:induction false} ReadIsReached(disk: Disk, base: int, k: nat, all: nat, offset: nat)
    requires k <= all && Whole(disk, base, all)
    ensures var data := Run(disk, base, all);
            var fids := Reached(disk, base, Stream(data, offset), k);
            Within(data, fids) && Read(disk, base, k, offset) == EntriesOf(data, fids)
    decreases all - k, SECTOR * k - offset
  {
    hide Read, Stream, EntriesOf, Within, EntryOf, FidLength, IsFid, Reached, Run, Aligned, SectorsFor, ZeroSector, AllZero, Blocked;
    var data, part := Run(disk, base, all), Run(disk, base, k);
    RunConcat(disk, base, k, all - k);
    var fids := Stream(data, offset);
    StreamIsWithin(data, offset);
    StreamStep(data, offset);
    ReachedIsPrefix(disk, base, fids, k);
    WithinPrefix(data, Reached(disk, base, fids, k), fids);
    ReadStep(disk, base, k, offset, part);
    NoEntries(data);
    if offset + HEADER > |part| {
      Unseen(disk, base, fids, k);
    } else {
      PartAgrees(part, data, offset);
      var length := FidLength(data, offset);
      if !IsFid(data, offset) {
        Unseen(disk, base, fids, k);
      } else if offset + length <= |part| {
        var next := offset + Aligned(length);
        SeesLoaded(disk, base, fids, k);
        ReadIsReached(disk, base, k, all, next);
        assert fids[1..] == Stream(data, next);
        EntriesStep(data, fids[0], Reached(disk, base, Stream(data, next), k));
      } else if k < all {
        PullsInNext(disk, base, fids, k);
        SectorIsThere(disk, base + k);
        if !ZeroSector(disk, base + k) {
          ReadIsReached(disk, base, k + 1, all, offset);
        }
      } else {
        Unseen(disk, base, fids, k);
      }
    }
  }

  lemma StreamStep(data: seq<Byte>, offset: nat)
    ensures Stream(data, offset) ==
            if offset + HEADER > |data| || !IsFid(data, offset) || offset + FidLength(data, offset) > |data| then []
            else [Fid(offset, FidLength(data, offset))] + Stream(data, offset + Aligned(FidLength(data, offset)))
  {
    hide IsFid, FidLength, Aligned;
  }

  lemma WithinPrefix(data: seq<Byte>, fids: seq<Fid>, more: seq<Fid>)
    requires fids <= more && Within(data, more)
    ensures Within(data, fids)
  {
    hide FidLength;
    assert forall f <- fids :: f in more;
  }

  lemma NoEntries(data: seq<Byte>)
    ensures Within(data, []) && EntriesOf(data, []) == []
  {
  }

  lemma EntriesStep(data: seq<Byte>, f: Fid, rest: seq<Fid>)
    requires Within(data, [f] + rest) && Within(data, rest)
    ensures f.start + HEADER <= |data| && f.start + FidLength(data, f.start) <= |data|
    ensures EntriesOf(data, [f] + rest) == EntryOf(data, f.start) + EntriesOf(data, rest)
  {
    hide FidLength, EntryOf;
    var fids := [f] + rest;
    assert fids[0] in fids && fids[1..] == rest;
  }

  lemma SectorIsThere(disk: Disk, sector: int)
    requires sector in disk
    ensures ZeroSector(disk, sector) == AllZero(disk[sector])
  {
  }

  lemma Unseen(disk: Disk, base: int, fids: seq<Fid>, k: nat)
    requires fids == [] || fids[0].start + HEADER > SECTOR * k
    ensures Reached(disk, base, fids, k) == []
  {
  }

  // ---------------------------------------------------------------- reported sizes

  /** More loaded at the start never shows less. */
  lemma {:induction false} ReachedGrows(disk: Disk, base: int, fids: seq<Fid>, k: nat, more: nat)
    requires k <= more
    ensures Reached(disk, base, fids, k) <= Reached(disk, base, fids, more)
    decreases |fids|
  {
    hide AllZero, ZeroSector, SectorsFor;
    if Reached(disk, base, fids, k) != [] {
      ReachedGrows(disk, base, fids[1..], LoadedFor(k, fids[0]), LoadedFor(more, fids[0]));
    }
  }

  lemma {:induction false} EntriesGrow(data: seq<Byte>, fids: seq<Fid>, more: seq<Fid>)
    requires fids <= more && Within(data, more)
    ensures Within(data, fids) && EntriesOf(data, fids) <= EntriesOf(data, more)
    decreases |fids|
  {
    hide EntryOf, FidLength;
    assert forall f <- fids :: f in more;
    if fids != [] {
      EntriesGrow(data, fids[1..], more[1..]);
    }
  }

  /** A directory that reports less than its size yields a prefix of what it yields when it reports
      more, wherever descriptors cross sectors, as long as the sectors can be read. */
  lemma SmallerSizeIsPrefix(disk: Disk, base: int, k: nat, more: nat, all: nat)
    requires k <= more <= all && Whole(disk, base, all)
    ensures Read(disk, base, k, 0) <= Read(disk, base, more, 0)
  {
    hide Read, EntryOf, FidLength;
    var data := Run(disk, base, all);
    ReadIsReached(disk, base, k, all, 0);
    ReadIsReached(disk, base, more, all, 0);
    ReachedGrows(disk, base, Stream(data, 0), k, more);
    EntriesGrow(data, Reached(disk, base, Stream(data, 0), k), Reached(disk, base, Stream(data, 0), more));
  }

  ghost predicate Ascending(fids: seq<Fid>) {
    forall i, j | 0 <= i < j < |fids| :: End(fids[i]) <= fids[j].start
  }

  /** The sectors loaded when descriptor i is looked at. */
  function LoadedAt(fids: seq<Fid>, k: nat, i: nat): nat
    requires i < |fids|
  {
    if i == 0 then k else LoadedFor(k, fids[i - 1])
  }

  /** Nothing is missed exactly when every descriptor's header lies in sectors that were reported or that
      the descriptor before it needed, and no all-zero sector has to be crossed. */
  lemma {:induction false} NothingMissedIff(disk: Disk, base: int, fids: seq<Fid>, k: nat)
    requires Ascending(fids)
    ensures Reached(disk, base, fids, k) == fids <==> forall i | 0 <= i < |fids| :: IsSeen(disk, base, fids, k, i)
    decreases |fids|
  {
    hide IsSeen, Blocked, LoadedFor;
    if fids != [] {
      var rest, loaded := fids[1..], LoadedFor(k, fids[0]);
      NothingMissedIff(disk, base, rest, loaded);
      SeenFirst(disk, base, fids, k);
      forall i | 0 <= i < |rest| ensures IsSeen(disk, base, rest, loaded, i) == IsSeen(disk, base, fids, k, i + 1) {
        SeenShifts(disk, base, fids, k, i + 1);
      }
      assert forall i | 1 <= i < |fids| :: IsSeen(disk, base, fids, k, i) == IsSeen(disk, base, rest, loaded, i - 1);
      assert fids == [fids[0]] + rest;
    }
  }

  lemma SeenFirst(disk: Disk, base: int, fids: seq<Fid>, k: nat)
    requires fids != []
    ensures IsSeen(disk, base, fids, k, 0) <==> fids[0].start + HEADER <= SECTOR * k && !Blocked(disk, base, k, fids[0])
  {
  }

  lemma SeenShifts(disk: Disk, base: int, fids: seq<Fid>, k: nat, i: nat)
    requires Ascending(fids) && 1 <= i < |fids|
    ensures IsSeen(disk, base, fids, k, i) == IsSeen(disk, base, fids[1..], LoadedFor(k, fids[0]), i - 1)
  {
    hide Blocked, SectorsFor;
    if i > 1 {
      MoreSectors(End(fids[0]), End(fids[i - 1]));
    }
  }

  ghost predicate IsSeen(disk: Disk, base: int, fids: seq<Fid>, k: nat, i: nat)
    requires i < |fids|
  {
    fids[i].start + HEADER <= SECTOR * LoadedAt(fids, k, i) && !Blocked(disk, base, LoadedAt(fids, k, i), fids[i])
  }

  lemma MoreSectors(a: nat, b: nat)
    requires a <= b
    ensures SectorsFor(a) <= SectorsFor(b)
  {
  }

  /** The descriptors of a stream come one after the other, so the above applies to every directory. */
  lemma {:induction false} StreamAscends(data: seq<Byte>, offset: nat)
    ensures Ascending(Stream(data, offset)) && forall f <- Stream(data, offset) :: offset <= f.start
    decreases |data| - offset
  {
    hide FidLength, IsFid;
    if Stream(data, offset) != [] {
      StreamAscends(data, offset + Aligned(FidLength(data, offset)));
      var rest := Stream(data, offset + Aligned(FidLength(data, offset)));
      assert forall j | 0 <= j < |rest| :: rest[j] in rest;
    }
  }
}
