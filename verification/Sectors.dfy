/** Images as sectors that can be read or not, and the little-endian numbers in them. */
module Sectors {

  import opened Results
  import opened Utf

  const SECTOR: nat := 2048

  type Sector = s: seq<Byte> | |s| == SECTOR witness seq(SECTOR, _ => 0)

  /** The sectors of an image that can be read. */
  type Disk = map<int, Sector>

  predicate Readable(disk: Disk, first: int, count: nat) {
    forall s | first <= s < first + count :: s in disk
  }

  /** The bytes of consecutive sectors. */
  function Run(disk: Disk, first: int, count: nat): (bytes: seq<Byte>)
    requires Readable(disk, first, count)
    ensures |bytes| == SECTOR * count
  {
    if count == 0 then [] else Run(disk, first, count - 1) + disk[first + count - 1]
  }

  /** Reading count sectors into the buffer. */
  method ReadSectors(disk: Disk, first: int, count: nat) returns (r: Option<seq<Byte>>)
    ensures r.Some? <==> Readable(disk, first, count)
    ensures r.Some? ==> r.value == Run(disk, first, count)
  {
    var data: seq<Byte> := [];
    for s := 0 to count
      invariant Readable(disk, first, s) && data == Run(disk, first, s)
    {
      if first + s !in disk {
        return None;
      }
      data := data + disk[first + s];
    }
    return Some(data);
  }

  lemma {:induction false} RunConcat(disk: Disk, first: int, a: nat, b: nat)
    requires Readable(disk, first, a + b)
    ensures Run(disk, first, a + b) == Run(disk, first, a) + Run(disk, first + a, b)
  {
    if b == 0 {
      assert Run(disk, first, a) + [] == Run(disk, first, a);
    } else {
      RunConcat(disk, first, a, b - 1);
      var x, y, z := Run(disk, first, a), Run(disk, first + a, b - 1), disk[first + a + b - 1];
      assert (x + y) + z == x + (y + z);
    }
  }

  /** Byte number i of a run stands in its sector's place, 2048 to a sector. */
  lemma {:induction false} RunAt(disk: Disk, first: int, count: nat, i: nat)
    requires Readable(disk, first, count) && i < 2048 * count
    ensures first + i / 2048 in disk && Run(disk, first, count)[i] == disk[first + i / 2048][i % 2048]
    decreases count
  {
    if i < 2048 * (count - 1) {
      RunAt(disk, first, count - 1, i);
    } else {
      assert i / 2048 == count - 1 && i % 2048 == i - 2048 * (count - 1);
    }
  }

  /** Sectors to hold so many bytes. */
  function SectorsFor(bytes: nat): nat { (bytes + SECTOR - 1) / SECTOR }

  /** A part of what stands in the data from a position on. */
  lemma SliceOf(data: seq<Byte>, at: nat, bytes: seq<Byte>, a: nat, b: nat)
    requires a <= b <= |bytes| && at + |bytes| <= |data| && data[at..at + |bytes|] == bytes
    ensures data[at + a..at + b] == bytes[a..b]
  {
    var slice := data[at..at + |bytes|];
    forall i | a <= i < b ensures data[at + i] == bytes[i] {
      assert slice[i] == bytes[i];
    }
  }

  function Le16(s: seq<Byte>, at: nat): (r: nat)
    requires at + 2 <= |s|
    ensures r < 0x1_0000
  {
    var b0: int, b1: int := s[at], s[at + 1];
    b0 + b1 * 0x100
  }

  function Le32(s: seq<Byte>, at: nat): (r: nat)
    requires at + 4 <= |s|
    ensures r < 0x1_0000_0000
  {
    Le16(s, at) + Le16(s, at + 2) * 0x1_0000
  }

  function Le16Bytes(n: nat): (r: seq<Byte>)
    requires n < 0x1_0000
    ensures |r| == 2
  {
    [n % 0x100, n / 0x100]
  }

  function Le32Bytes(n: nat): (r: seq<Byte>)
    requires n < 0x1_0000_0000
    ensures |r| == 4
  {
    Le16Bytes(n % 0x1_0000) + Le16Bytes(n / 0x1_0000)
  }

  /** Numbers written are read back, wherever they stand. */
  lemma Le16RoundTrip(s: seq<Byte>, at: nat, n: nat)
    requires n < 0x1_0000 && at + 2 <= |s| && s[at..at + 2] == Le16Bytes(n)
    ensures Le16(s, at) == n
  {
    assert s[at] == s[at..at + 2][0] && s[at + 1] == s[at..at + 2][1];
  }

  lemma Le32RoundTrip(s: seq<Byte>, at: nat, n: nat)
    requires n < 0x1_0000_0000 && at + 4 <= |s| && s[at..at + 4] == Le32Bytes(n)
    ensures Le32(s, at) == n
  {
    var low, high := n % 0x1_0000, n / 0x1_0000;
    SliceOf(s, at, Le32Bytes(n), 0, 2);
    SliceOf(s, at, Le32Bytes(n), 2, 4);
    assert Le32Bytes(n)[0..2] == Le16Bytes(low) && Le32Bytes(n)[2..4] == Le16Bytes(high);
    Le16RoundTrip(s, at, low);
    Le16RoundTrip(s, at + 2, high);
    hide Le16, Le16Bytes;
  }

  /** Little-endian, as numbers: each byte weighs 256 times as much as the one before it. */
  lemma LittleEndian(s: seq<Byte>, at: nat)
    requires at + 4 <= |s|
    ensures var b0: int, b1: int, b2: int, b3: int := s[at], s[at + 1], s[at + 2], s[at + 3];
            Le16(s, at) == b0 + 256 * b1 && Le32(s, at) == b0 + 256 * b1 + 65536 * b2 + 16777216 * b3
  {
  }

  /** The count of sectors is the smallest that holds the bytes, at 2048 in each. */
  lemma FewestSectors(bytes: nat, count: nat)
    ensures SectorsFor(bytes) <= count <==> bytes <= 2048 * count
  {
  }

  /** Bit number k of a byte. */
  predicate Bit(b: Byte, mask: nat)
    requires mask > 0
  {
    b / mask % 2 == 1
  }

  function One(bit: bool): nat { if bit then 1 else 0 }

  /** The eight bits of a byte, weighed, are the byte. */
  lemma BitsAddUp(b: Byte)
    ensures b == One(Bit(b, 1)) + 2 * One(Bit(b, 2)) + 4 * One(Bit(b, 4)) + 8 * One(Bit(b, 8))
                 + 16 * One(Bit(b, 16)) + 32 * One(Bit(b, 32)) + 64 * One(Bit(b, 64)) + 128 * One(Bit(b, 128))
  {
    var n: int := b;
    var q1, q2, q3, q4, q5, q6, q7 := n / 2, n / 4, n / 8, n / 16, n / 32, n / 64, n / 128;
    BitIs(b);
    Halved(n, q1);
    Halved(q1, q2);
    Halved(q2, q3);
    Halved(q3, q4);
    Halved(q4, q5);
    Halved(q5, q6);
    Halved(q6, q7);
    hide Bit;
  }

  lemma BitIs(b: Byte)
    ensures var n: int := b;
            && One(Bit(b, 1)) == n % 2 && One(Bit(b, 2)) == n / 2 % 2 && One(Bit(b, 4)) == n / 4 % 2 && One(Bit(b, 8)) == n / 8 % 2
            && One(Bit(b, 16)) == n / 16 % 2 && One(Bit(b, 32)) == n / 32 % 2 && One(Bit(b, 64)) == n / 64 % 2
            && One(Bit(b, 128)) == n / 128
  {
  }

  lemma Halved(n: nat, half: nat)
    requires half == n / 2
    ensures n == 2 * half + n % 2
  {
  }

  /** And bits that were put together are read back. */
  lemma BitsAreRead(b: Byte, b1: bool, b2: bool, b4: bool, b8: bool, rest: nat)
    requires b == One(b1) + 2 * One(b2) + 4 * One(b4) + 8 * One(b8) + 16 * rest
    ensures Bit(b, 1) == b1 && Bit(b, 2) == b2 && Bit(b, 4) == b4 && Bit(b, 8) == b8 && Bit(b, 16) == (rest % 2 == 1)
  {
    var n: int := b;
    BitIs(b);
    assert n / 2 == One(b2) + 2 * One(b4) + 4 * One(b8) + 8 * rest;
    assert n / 4 == One(b4) + 2 * One(b8) + 4 * rest;
    assert n / 8 == One(b8) + 2 * rest;
    assert n / 16 == rest;
    hide Bit;
  }
}
