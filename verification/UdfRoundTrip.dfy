/** UDF directories as they are written: descriptors one after the other, then padding. */
module UdfRoundTrip {

  import opened Utf
  import opened Sectors
  import opened Names
  import opened UdfDirectory

  /** What a descriptor is written for; the name is in its stored form, more are the upper four flags, and kind is
      the extent's type in the upper two bits of its length. */
  datatype File = File(name: seq<Byte>, hidden: bool, isDirectory: bool, deleted: bool, parent: bool, more: nat,
                       location: nat, partition: nat, size: nat, kind: nat)

  /** The bytes are a file identifier descriptor (4/14.4 of ECMA-167) padded to a multiple of four; what
      the reader does not look at may be anything. */
  ghost predicate IsFidFor(bytes: seq<Byte>, f: File) {
    && |bytes| >= 38 && |bytes| % 4 == 0
    && Le16(bytes, 0) == 257 && bytes[19] == |f.name|
    && bytes[18] == One(f.hidden) + 2 * One(f.isDirectory) + 4 * One(f.deleted) + 8 * One(f.parent) + 16 * f.more
    && Le32(bytes, 20) == f.size + f.kind * 0x4000_0000 && f.size < 0x4000_0000
    && Le32(bytes, 24) == f.location && Le16(bytes, 28) == f.partition
    && var from := 38 + Le16(bytes, 36);
       && from + |f.name| <= |bytes| < from + |f.name| + 4
       && bytes[from..from + |f.name|] == f.name
  }

  /** What a directory should list for it: nothing for the parent, deleted files and empty or dot names. */
  ghost function EntryFor(f: File): seq<UdfEntry> {
    var name := UdfName(f.name);
    if f.parent || f.deleted || name in [[], [0x2E], [0x2E, 0x2E]] then []
    else [UdfEntry(name, f.isDirectory, f.location, f.partition, f.size)]
  }

  datatype Written = Written(bytes: seq<Byte>, file: File)

  function Packed(ws: seq<Written>): seq<Byte> {
    if ws == [] then [] else ws[0].bytes + Packed(ws[1..])
  }

  ghost function Listing(ws: seq<Written>): seq<UdfEntry> {
    if ws == [] then [] else EntryFor(ws[0].file) + Listing(ws[1..])
  }

  ghost predicate AllFids(ws: seq<Written>) {
    forall i | 0 <= i < |ws| :: IsFidFor(ws[i].bytes, ws[i].file)
  }

  /** The descriptors stand in the data from a position on, and no further one follows them. */
  ghost predicate Holds(data: seq<Byte>, at: nat, ws: seq<Written>) {
    var end := at + |Packed(ws)|;
    && end <= |data| && data[at..end] == Packed(ws)
    && (end + HEADER > |data| || !IsFid(data, end))
  }

  /** A descriptor is read back, wherever it stands. */
  lemma FidRoundTrip(data: seq<Byte>, at: nat, bytes: seq<Byte>, f: File)
    requires IsFidFor(bytes, f) && at + |bytes| <= |data| && data[at..at + |bytes|] == bytes
    ensures IsFid(data, at) && Aligned(FidLength(data, at)) == |bytes|
    ensures at + FidLength(data, at) <= |data| && EntryOf(data, at) == EntryFor(f)
  {
    hide UdfName, Bit, Aligned, One, Le32, Le16;
    var from := 38 + Le16(bytes, 36);
    SliceOf(data, at, bytes, from, from + |f.name|);
    SliceOf(data, at, bytes, 0, HEADER);
    assert bytes[0..HEADER] == bytes[..HEADER];
    Numbers(data, at, bytes);
    FlagsOf(bytes, f);
    AlignedIs(from + |f.name|, |bytes|);
  }

  lemma FlagsOf(bytes: seq<Byte>, f: File)
    requires IsFidFor(bytes, f)
    ensures Bit(bytes[18], 0x02) == f.isDirectory && Bit(bytes[18], 0x04) == f.deleted && Bit(bytes[18], 0x08) == f.parent
  {
    BitsAreRead(bytes[18], f.hidden, f.isDirectory, f.deleted, f.parent, f.more);
    hide Bit;
  }

  lemma AlignedIs(n: nat, m: nat)
    requires m % 4 == 0 && n <= m < n + 4
    ensures Aligned(n) == m
  {
  }

  lemma Numbers(data: seq<Byte>, at: nat, bytes: seq<Byte>)
    requires |bytes| >= HEADER && at + HEADER <= |data| && data[at..at + HEADER] == bytes[..HEADER]
    ensures Le16(data, at) == Le16(bytes, 0) && Le16(data, at + 28) == Le16(bytes, 28) && Le16(data, at + 36) == Le16(bytes, 36)
    ensures Le32(data, at + 20) == Le32(bytes, 20) && Le32(data, at + 24) == Le32(bytes, 24)
    ensures data[at + 18] == bytes[18] && data[at + 19] == bytes[19]
  {
    assert forall i | at <= i < at + HEADER :: data[i] == data[at..at + HEADER][i - at];
  }

  lemma HoldsNext(data: seq<Byte>, at: nat, ws: seq<Written>)
    requires ws != [] && Holds(data, at, ws)
    ensures data[at..at + |ws[0].bytes|] == ws[0].bytes && Holds(data, at + |ws[0].bytes|, ws[1..])
  {
    var bytes, rest := ws[0].bytes, Packed(ws[1..]);
    SliceOf(data, at, bytes + rest, 0, |bytes|);
    SliceOf(data, at, bytes + rest, |bytes|, |bytes + rest|);
    assert (bytes + rest)[..|bytes|] == bytes && (bytes + rest)[|bytes|..] == rest;
    hide IsFid;
  }

  /** A directory whose sectors are all reported is read back entry for entry, in order: names decoded,
      parent, deleted and nameless files left out, and nothing of the padding. */
  lemma {:induction false} DirectoryRoundTrip(disk: Disk, base: int, k: nat, at: nat, ws: seq<Written>)
    requires k <= MAX_SECTORS && Readable(disk, base, k)
    requires AllFids(ws) && Holds(Run(disk, base, k), at, ws)
    ensures Read(disk, base, k, at) == Listing(ws)
    decreases |ws|
  {
    hide EntryOf, FidLength, EntryFor, IsFidFor;
    var data := Run(disk, base, k);
    if ws != [] {
      assert IsFidFor(ws[0].bytes, ws[0].file);
      HoldsNext(data, at, ws);
      FidRoundTrip(data, at, ws[0].bytes, ws[0].file);
      DirectoryRoundTrip(disk, base, k, at + |ws[0].bytes|, ws[1..]);
    }
  }

  /** A live file or directory with a counted 16-bit name is listed as one, under exactly the scalars it was named with. */
  lemma NamedFileIsListed(cps: seq<Scalar>, f: File)
    requires 0 < |Utf16All(cps)| / 2 < 256 && f.name == [16, |Utf16All(cps)| / 2] + Utf16All(cps)
    requires !f.parent && !f.deleted && Utf8All(cps) !in [[], [0x2E], [0x2E, 0x2E]]
    ensures EntryFor(f) == [UdfEntry(Utf8All(cps), f.isDirectory, f.location, f.partition, f.size)]
  {
    hide UdfName, Utf16All, Utf8All;
    Counted16RoundTrip(cps, []);
    assert [16, |Utf16All(cps)| / 2] + Utf16All(cps) + [] == f.name;
  }
}
