/** The list of extents in a UDF file entry, whose record size has to be guessed. */
module AllocationDescriptors {

  import opened Utf
  import opened Sectors
  import opened Extraction

  /** Long descriptors come in multiples of 16 bytes, so a length that is one is taken for theirs. */
  function RecordSize(length: nat): nat { if length % 16 == 0 then 16 else 8 }

  function Limit(length: nat): nat { if length > SECTOR then SECTOR else length }

  /** How many bytes are looked at: whole records only, and never more than a sector's worth. */
  function BytesRead(length: nat): nat { Limit(length) / RecordSize(length) * RecordSize(length) }

  function LongAt(data: seq<Byte>, pos: nat): Ad
    requires pos + 16 <= |data|
  {
    Ad(Le32(data, pos) % 0x4000_0000, Le32(data, pos + 4), Le16(data, pos + 8))
  }

  function ShortAt(data: seq<Byte>, pos: nat): Ad
    requires pos + 8 <= |data|
  {
    Ad(Le32(data, pos) % 0x4000_0000, Le32(data, pos + 4), 0)
  }

  /** The records of the guessed size that fit in the recorded length and in a sector's worth. */
  ghost predicate Parsed(data: seq<Byte>, length: nat, ads: seq<Ad>) {
    && BytesRead(length) <= |data|
    && |ads| == Limit(length) / RecordSize(length)
    && forall i | 0 <= i < |ads| ::
         ads[i] == if RecordSize(length) == 16 then LongAt(data, 16 * i) else ShortAt(data, 8 * i)
  }

  /** Reads whole records only. The caller has to provide the bytes of all of them. */
  method ParseAllocationDescriptors(data: seq<Byte>, length: nat) returns (ads: seq<Ad>)
    requires BytesRead(length) <= |data|
    ensures Parsed(data, length, ads)
  {
    hide Le16, Le32;
    var adSize := if length % 16 == 0 then 16 else 8;
    var end := length;
    if end > SECTOR {
      end := SECTOR;
    }
    ads := [];
    var pos := 0;
    while pos + adSize <= end
      invariant pos == adSize * |ads| <= end
      invariant forall i | 0 <= i < |ads| ::
        ads[i] == if adSize == 16 then LongAt(data, 16 * i) else ShortAt(data, 8 * i)
    {
      ads := ads + [Ad(Le32(data, pos) % 0x4000_0000, Le32(data, pos + 4), if adSize == 16 then Le16(data, pos + 8) else 0)];
      pos := pos + adSize;
    }
  }

  /** A multiple of 16 bytes is as many long records, anything else as many whole short ones; longer lists than a
      sector are cut. */
  lemma RecordCount(data: seq<Byte>, length: nat, ads: seq<Ad>)
    requires Parsed(data, length, ads)
    ensures |ads| == if length % 16 == 0 then if length > 2048 then 128 else length / 16
                     else if length > 2048 then 256 else length / 8
  {
    hide LongAt, ShortAt;
  }

  /** The callers pass what is left of a file entry's sector, behind 176 bytes or behind 200. The records
      lie in it exactly when the recorded length does not reach the first record that would not fit; the
      source does not check that. */
  lemma StaysInSectorIff(at: nat, length: nat)
    requires at == 176 || at == 200
    ensures var size := RecordSize(length);
            BytesRead(length) <= SECTOR - at <==> length < (SECTOR - at) / size * size + size
  {
  }

  // ---------------------------------------------------------------- round trips

  /** A descriptor as it is stored: its type in the length's upper two bits, and in the long form the
      partition and six bytes of implementation use. */
  datatype Stored = Stored(ad: Ad, kind: nat, use: seq<Byte>)

  ghost predicate Fits(s: Stored) {
    && s.ad.length < 0x4000_0000 && s.kind < 4 && s.ad.location < 0x1_0000_0000
    && s.ad.partition < 0x1_0000 && |s.use| == 6
  }

  ghost function LongBytes(s: Stored): (r: seq<Byte>)
    requires Fits(s)
    ensures |r| == 16
  {
    Le32Bytes(s.kind * 0x4000_0000 + s.ad.length) + Le32Bytes(s.ad.location) + Le16Bytes(s.ad.partition) + s.use
  }

  ghost function ShortBytes(s: Stored): (r: seq<Byte>)
    requires Fits(s)
    ensures |r| == 8
  {
    Le32Bytes(s.kind * 0x4000_0000 + s.ad.length) + Le32Bytes(s.ad.location)
  }

  lemma LongIsRead(data: seq<Byte>, pos: nat, s: Stored)
    requires Fits(s) && pos + 16 <= |data| && data[pos..pos + 16] == LongBytes(s)
    ensures LongAt(data, pos) == s.ad
  {
    var first := s.kind * 0x4000_0000 + s.ad.length;
    var bytes := LongBytes(s);
    SliceOf(data, pos, bytes, 0, 4);
    SliceOf(data, pos, bytes, 4, 8);
    SliceOf(data, pos, bytes, 8, 10);
    assert bytes[0..4] == Le32Bytes(first) && bytes[4..8] == Le32Bytes(s.ad.location) && bytes[8..10] == Le16Bytes(s.ad.partition);
    Le32RoundTrip(data, pos, first);
    Le32RoundTrip(data, pos + 4, s.ad.location);
    Le16RoundTrip(data, pos + 8, s.ad.partition);
    hide Le16, Le32, Le16Bytes, Le32Bytes;
    assert first % 0x4000_0000 == s.ad.length;
  }

  lemma ShortIsRead(data: seq<Byte>, pos: nat, s: Stored)
    requires Fits(s) && pos + 8 <= |data| && data[pos..pos + 8] == ShortBytes(s)
    ensures ShortAt(data, pos) == s.ad.(partition := 0)
  {
    var first := s.kind * 0x4000_0000 + s.ad.length;
    var bytes := ShortBytes(s);
    SliceOf(data, pos, bytes, 0, 4);
    SliceOf(data, pos, bytes, 4, 8);
    assert bytes[0..4] == Le32Bytes(first) && bytes[4..8] == Le32Bytes(s.ad.location);
    Le32RoundTrip(data, pos, first);
    Le32RoundTrip(data, pos + 4, s.ad.location);
    hide Le16, Le32, Le16Bytes, Le32Bytes;
    assert first % 0x4000_0000 == s.ad.length;
  }

  /** The records stand in the data one after the other. */
  ghost predicate HoldsLong(data: seq<Byte>, list: seq<Stored>) {
    && 16 * |list| <= |data|
    && forall i | 0 <= i < |list| :: Fits(list[i]) && data[16 * i..16 * i + 16] == LongBytes(list[i])
  }

  ghost predicate HoldsShort(data: seq<Byte>, list: seq<Stored>) {
    && 8 * |list| <= |data|
    && forall i | 0 <= i < |list| :: Fits(list[i]) && data[8 * i..8 * i + 8] == ShortBytes(list[i])
  }

  /** A list written as long descriptors is read back whole, whatever their types and implementation use. */
  lemma LongListIsRead(data: seq<Byte>, list: seq<Stored>, ads: seq<Ad>)
    requires HoldsLong(data, list) && 16 * |list| <= SECTOR && Parsed(data, 16 * |list|, ads)
    ensures |ads| == |list| && forall i | 0 <= i < |list| :: ads[i] == list[i].ad
  {
    forall i | 0 <= i < |list| ensures LongAt(data, 16 * i) == list[i].ad {
      LongIsRead(data, 16 * i, list[i]);
    }
    hide LongAt, LongBytes;
  }

  /** A list written as short descriptors is read back, in the first partition, exactly when it is empty or of
      odd length: an even number of them takes up a multiple of 16 bytes and is read as half as many. */
  lemma ShortListIsReadIff(data: seq<Byte>, list: seq<Stored>, ads: seq<Ad>)
    requires HoldsShort(data, list) && 8 * |list| <= SECTOR && Parsed(data, 8 * |list|, ads)
    ensures (|ads| == |list| && forall i | 0 <= i < |list| :: ads[i] == list[i].ad.(partition := 0)) <==>
            |list| == 0 || |list| % 2 == 1
  {
    if |list| % 2 == 1 {
      assert 8 * |list| % 16 == 8;
      forall i | 0 <= i < |list| ensures ShortAt(data, 8 * i) == list[i].ad.(partition := 0) {
        ShortIsRead(data, 8 * i, list[i]);
      }
    } else {
      assert 8 * |list| == 16 * (|list| / 2);
      assert |ads| == |list| / 2;
    }
    hide LongAt, LongBytes, ShortAt, ShortBytes;
  }
}
