/** Copying a file out of an image, a megabyte at a time. */
module Extraction {

  import opened Results
  import opened Utf
  import opened Sectors

  const BUFFER: nat := 0x10_0000

  function Min(a: int, b: int): int { if a < b then a else b }

  // ---------------------------------------------------------------- bytes on the disc

  /** What an extent holds: its bytes in order, whether or not its last sector is used up. */
  function Extent(disk: Disk, first: int, length: nat): (bytes: seq<Byte>)
    requires Readable(disk, first, SectorsFor(length))
    ensures |bytes| == length
  {
    Run(disk, first, SectorsFor(length))[..length]
  }

  /** Byte number i of an extent stands in its sector's place. */
  lemma ExtentAt(disk: Disk, first: int, length: nat, i: nat)
    requires Readable(disk, first, SectorsFor(length)) && i < length
    ensures first + i / 2048 in disk && Extent(disk, first, length)[i] == disk[first + i / 2048][i % 2048]
  {
    Enough(length);
    RunAt(disk, first, SectorsFor(length), i);
    hide Run, SectorsFor;
  }

  /** After whole sectors the next chunk goes on where they end. */
  lemma NextChunk(disk: Disk, first: int, k: nat, chunk: nat)
    ensures var done := k * SECTOR;
            && SectorsFor(done + chunk) == k + SectorsFor(chunk)
            && (Readable(disk, first, SectorsFor(done + chunk)) <==>
                  Readable(disk, first, SectorsFor(done)) && Readable(disk, first + k, SectorsFor(chunk)))
            && (Readable(disk, first, SectorsFor(done + chunk)) ==>
                  Extent(disk, first, done + chunk)
                  == Extent(disk, first, done) + Run(disk, first + k, SectorsFor(chunk))[..chunk])
  {
    var done, n := k * SECTOR, SectorsFor(chunk);
    WholeSectors(k, chunk);
    if Readable(disk, first, k + n) {
      RunConcat(disk, first, k, n);
      assert Readable(disk, first, k) && Readable(disk, first + k, n);
      assert Extent(disk, first, done) == Run(disk, first, k);
    }
  }

  lemma WholeSectors(k: nat, chunk: nat)
    ensures SectorsFor(k * SECTOR) == k && SectorsFor(k * SECTOR + chunk) == k + SectorsFor(chunk)
    ensures SectorsFor(BUFFER) == 512
  {
  }

  lemma Enough(bytes: nat)
    ensures bytes <= SectorsFor(bytes) * SECTOR
  {
  }

  lemma NothingRead(disk: Disk, first: int)
    ensures SectorsFor(0) == 0 && Readable(disk, first, 0) && Extent(disk, first, 0) == []
  {
  }

  lemma Fewer(disk: Disk, first: int, part: nat, all: nat)
    requires part <= all
    ensures Readable(disk, first, SectorsFor(all)) ==> Readable(disk, first, SectorsFor(part))
    ensures Readable(disk, first, SectorsFor(all)) ==> Extent(disk, first, part) == Extent(disk, first, all)[..part]
  {
    if Readable(disk, first, SectorsFor(all)) {
      RunConcat(disk, first, SectorsFor(part), SectorsFor(all) - SectorsFor(part));
    }
  }

  // ---------------------------------------------------------------- ISO 9660: one extent

  /** Writes exactly the first size bytes of the extent, and succeeds exactly when they can be read. */
  method ExtractIsoFile(disk: Disk, extent: int, size: int) returns (r: Option<seq<Byte>>)
    ensures size <= 0 ==> r == Some([])
    ensures size > 0 ==> (r.Some? <==> Readable(disk, extent, SectorsFor(size)))
    ensures size > 0 && r.Some? ==> r.value == Extent(disk, extent, size)
  {
    hide SectorsFor, Readable, Run, Extent;
    var out: seq<Byte> := [];
    var remaining := size;
    var sector := extent;
    ghost var buffers: nat := 0;
    NothingRead(disk, extent);
    while remaining > 0
      invariant remaining == size - |out| && (if size > 0 then remaining >= 0 else out == [])
      invariant Readable(disk, extent, SectorsFor(|out|)) && out == Extent(disk, extent, |out|)
      invariant remaining > 0 ==> |out| == buffers * BUFFER && sector == extent + buffers * 512
    {
      var chunk := Min(remaining, BUFFER);
      var sectors := SectorsFor(chunk);
      NextChunk(disk, extent, buffers * 512, chunk);
      WholeSectors(0, chunk);
      Enough(chunk);
      Fewer(disk, extent, |out| + chunk, size);
      var buffer := ReadSectors(disk, sector, sectors);
      if buffer.None? {
        return None;
      }
      out := out + buffer.value[..chunk];
      sector := sector + sectors;
      remaining := remaining - chunk;
      buffers := buffers + 1;
    }
    return Some(out);
  }

  // ---------------------------------------------------------------- UDF: a list of extents

  /** An allocation descriptor. */
  datatype Ad = Ad(length: nat, location: nat, partition: nat)

  /** Where a block lies on the disc: unknown partitions fall back to the first one. */
  function Absolute(starts: seq<int>, partition: nat, block: int): int {
    if partition < |starts| then starts[partition] + block
    else if starts == [] then -1
    else starts[0] + block
  }

  /** A partition's blocks follow each other from where it starts; what names no partition lies in the first one. */
  lemma BlocksFollow(starts: seq<int>, partition: nat, block: int)
    ensures starts == [] ==> Absolute(starts, partition, block) == -1
    ensures starts != [] ==> Absolute(starts, partition, block) - Absolute(starts, partition, 0) == block
    ensures partition < |starts| ==> Absolute(starts, partition, 0) == starts[partition]
    ensures partition >= |starts| ==> Absolute(starts, partition, block) == Absolute(starts, 0, block)
  {
  }

  /** The bytes of a file: extents one after the other, each trimmed to its length, as far as needed. */
  function Content(disk: Disk, starts: seq<int>, ads: seq<Ad>, size: nat): Option<seq<Byte>> {
    if size == 0 then Some([])
    else if ads == [] then None
    else
      var first, length := Absolute(starts, ads[0].partition, ads[0].location), Min(ads[0].length, size);
      if first < 0 || !Readable(disk, first, SectorsFor(length)) then None
      else
        var rest := Content(disk, starts, ads[1..], size - length);
        if rest.None? then None else Some(Extent(disk, first, length) + rest.value)
  }

  /** Succeeds exactly when the extents cover the size and can be read that far. */
  method ExtractUdfFile(disk: Disk, starts: seq<int>, ads: seq<Ad>, size: int) returns (r: Option<seq<Byte>>)
    ensures size < 0 ==> r == None
    ensures size >= 0 ==> r == Content(disk, starts, ads, size)
  {
    hide SectorsFor, Extent, Readable, Absolute;
    var out: seq<Byte> := [];
    var remaining := size;
    var i := 0;
    if size >= 0 {
      assert ads[0..] == ads;
      AfterNothing(Content(disk, starts, ads, size));
    }
    while i < |ads| && remaining > 0
      invariant 0 <= i <= |ads|
      invariant remaining == size - |out| && (if size >= 0 then remaining >= 0 else out == [])
      invariant size >= 0 ==> Content(disk, starts, ads, size) == After(out, Content(disk, starts, ads[i..], remaining))
    {
      var abs := Absolute(starts, ads[i].partition, ads[i].location);
      if abs < 0 {
        return None;
      }
      ghost var rest := Content(disk, starts, ads[i..], remaining);
      ghost var length := Min(ads[i].length, remaining);
      assert ads[i..][1..] == ads[i + 1..];
      var extent := ExtractExtent(disk, abs, ads[i].length, remaining);
      if extent.None? {
        return None;
      }
      AfterAfter(out, extent.value, Content(disk, starts, ads[i + 1..], remaining - length));
      out := out + extent.value;
      remaining := remaining - |extent.value|;
      i := i + 1;
    }
    assert out + [] == out;
    return if remaining == 0 then Some(out) else None;
  }

  /** One extent, but no more of it than remains to be written. */
  method ExtractExtent(disk: Disk, first: int, adLength: nat, limit: nat) returns (r: Option<seq<Byte>>)
    ensures r.Some? <==> Readable(disk, first, SectorsFor(Min(adLength, limit)))
    ensures r.Some? ==> r.value == Extent(disk, first, Min(adLength, limit))
  {
    hide SectorsFor, Readable, Run, Extent;
    var out: seq<Byte> := [];
    var abs, adLen, remaining := first, adLength as int, limit as int;
    ghost var length := Min(adLength, limit);
    ghost var buffers: nat := 0;
    NothingRead(disk, first);
    while adLen > 0 && remaining > 0
      invariant |out| <= length && remaining == limit - |out|
      invariant Readable(disk, first, SectorsFor(|out|)) && out == Extent(disk, first, |out|)
      invariant |out| < length ==>
                  |out| == buffers * BUFFER && abs == first + buffers * 512 && adLen == adLength - |out|
      invariant |out| == length ==> adLen <= 0 || remaining == 0
      decreases remaining
    {
      var chunk := Min(Min(adLen, BUFFER), remaining);
      var sectors := SectorsFor(chunk);
      NextChunk(disk, first, buffers * 512, chunk);
      WholeSectors(0, chunk);
      Enough(chunk);
      Fewer(disk, first, |out| + chunk, length);
      var buffer := ReadSectors(disk, abs, sectors);
      if buffer.None? {
        return None;
      }
      out := out + buffer.value[..chunk];
      abs := abs + sectors;
      adLen := adLen - sectors * SECTOR;
      remaining := remaining - chunk;
      buffers := buffers + 1;
    }
    return Some(out);
  }

  // ---------------------------------------------------------------- what a file consists of

  ghost function Covered(ads: seq<Ad>): nat {
    if ads == [] then 0 else ads[0].length + Covered(ads[1..])
  }

  /** All extents in full, one after the other. */
  ghost function AllExtents(disk: Disk, starts: seq<int>, ads: seq<Ad>): (bytes: seq<Byte>)
    requires AllReadable(disk, starts, ads)
    ensures |bytes| == Covered(ads)
  {
    if ads == [] then []
    else
      assert OneReadable(disk, starts, ads[0]);
      Extent(disk, Absolute(starts, ads[0].partition, ads[0].location), ads[0].length) + AllExtents(disk, starts, ads[1..])
  }

  ghost predicate OneReadable(disk: Disk, starts: seq<int>, ad: Ad) {
    var first := Absolute(starts, ad.partition, ad.location);
    first >= 0 && Readable(disk, first, SectorsFor(ad.length))
  }

  ghost predicate AllReadable(disk: Disk, starts: seq<int>, ads: seq<Ad>) {
    forall ad <- ads :: OneReadable(disk, starts, ad)
  }

  /** What is extracted is exactly the first size bytes of the extents put together, and with readable
      extents extraction succeeds exactly when they cover the size. */
  lemma {:induction false} ContentIsTheFirstBytes(disk: Disk, starts: seq<int>, ads: seq<Ad>, size: nat)
    requires AllReadable(disk, starts, ads)
    ensures Content(disk, starts, ads, size) ==
            if size <= Covered(ads) then Some(AllExtents(disk, starts, ads)[..size]) else None
    decreases |ads|
  {
    hide SectorsFor, Extent, Readable;
    if size > 0 && ads != [] {
      assert OneReadable(disk, starts, ads[0]);
      var first, length := Absolute(starts, ads[0].partition, ads[0].location), Min(ads[0].length, size);
      Fewer(disk, first, length, ads[0].length);
      ContentIsTheFirstBytes(disk, starts, ads[1..], size - length);
      assert forall ad <- ads[1..] :: ad in ads;
      var whole, rest := Extent(disk, first, ads[0].length), AllExtents(disk, starts, ads[1..]);
      if length == ads[0].length {
        if size - length <= |rest| {
          assert (whole + rest)[..size] == whole + rest[..size - length];
        }
      } else {
        assert (whole + rest)[..size] == whole[..length] + rest[..0];
      }
    }
  }

  /** Whatever can or cannot be read, extraction never succeeds with fewer bytes than asked for. */
  lemma {:induction false} ContentIsComplete(disk: Disk, starts: seq<int>, ads: seq<Ad>, size: nat)
    requires Content(disk, starts, ads, size).Some?
    ensures |Content(disk, starts, ads, size).value| == size <= Covered(ads)
    decreases |ads|
  {
    if size > 0 {
      ContentIsComplete(disk, starts, ads[1..], size - Min(ads[0].length, size));
    }
  }
}
