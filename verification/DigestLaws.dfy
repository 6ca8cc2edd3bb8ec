/** What the padding of a message says, and digests of messages whose digests are known. */
module DigestLaws {
  import opened BlockDigest

  /** A byte as a number. */
  function Num(b: bv8): (n: nat)
    ensures n < 256
  {
    b as int
  }

  /** Bytes as a number, each weighing 256 times as much as the one before it. */
  ghost function Weighed(s: seq<bv8>): nat {
    if s == [] then 0 else Num(s[0]) + 256 * Weighed(s[1..])
  }

  ghost function Power(k: nat): nat { if k == 0 then 1 else 256 * Power(k - 1) }

  lemma LowByteIs(n: nat)
    ensures Num(LowByte(n)) == n % 256
  {
    ThereAndBack(n % 256);
  }

  lemma ThereAndBack(x: nat)
    requires x < 256
    ensures x as bv8 as int == x
  {
    var b := ByteOf(x);
    ItsByteIs(x, b);
  }

  lemma {:induction false} ByteOf(x: nat) returns (b: bv8)
    requires x < 256
    ensures b as int == x
  {
    if x == 0 {
      b := 0;
    } else {
      b := ByteOf(x - 1);
      NextByte(b);
      b := b + 1;
    }
  }

  lemma NextByte(b: bv8)
    requires b as int < 255
    ensures (b + 1) as int == b as int + 1
  {
  }

  lemma ItsByteIs(x: nat, b: bv8)
    requires x < 256 && b as int == x
    ensures x as bv8 as int == x
  {
  }

  /** Enough bytes of a number are read back as the number. */
  lemma {:induction false} BytesReadBack(n: nat, k: nat)
    requires n < Power(k)
    ensures Weighed(Bytes(n, k)) == n
    decreases k
  {
    hide Num, LowByte;
    if k > 0 {
      LowByteIs(n);
      BytesReadBack(n / 256, k - 1);
      assert Bytes(n, k)[1..] == Bytes(n / 256, k - 1);
    }
  }

  lemma EightBytes()
    ensures Power(8) == 0x1_0000_0000_0000_0000
  {
  }

  /** The last eight bytes of the padding are the length in bits modulo 2^64, the highest byte first for SHA-256 and
      the lowest first for MD5. */
  lemma LengthIsReadBack(kind: Kind, m: seq<bv8>)
    ensures var p := Pad(kind, m);
            var b := p[|p| - 8..];
            8 * |m| % 0x1_0000_0000_0000_0000
            == match kind
               case Sha256 => BigEndian8(b[0], b[1], b[2], b[3], b[4], b[5], b[6], b[7])
               case Md5 => BigEndian8(b[7], b[6], b[5], b[4], b[3], b[2], b[1], b[0])
  {
    hide Bytes, Reverse, Weighed, Power, Num, BigEndian8, Pad, LengthField;
    var n := 8 * |m| % 0x1_0000_0000_0000_0000;
    var s := Bytes(n, 8);
    EightBytes();
    BytesReadBack(n, 8);
    WeighedIs(s);
    ReverseIs(s);
    EndsWithLength(kind, m);
  }

  lemma EndsWithLength(kind: Kind, m: seq<bv8>)
    ensures var p, bytes := Pad(kind, m), Bytes(8 * |m| % 0x1_0000_0000_0000_0000, 8);
            p[|p| - 8..] == if kind.Sha256? then Reverse(bytes) else bytes
  {
    hide Bytes, Reverse;
    var front := m + [0x80] + Zeros(ZeroCount(|m|));
    assert (front + LengthField(kind, |m|))[|front|..] == LengthField(kind, |m|);
  }

  /** Eight bytes as a number, the highest first. */
  function BigEndian8(a: bv8, b: bv8, c: bv8, d: bv8, e: bv8, f: bv8, g: bv8, h: bv8): nat {
    Num(h) + 256 * (Num(g) + 256 * (Num(f) + 256 * (Num(e) + 256 * (Num(d) + 256 * (Num(c) + 256 * (Num(b) + 256 * Num(a)))))))
  }

  lemma WeighedIs(s: seq<bv8>)
    requires |s| == 8
    ensures Weighed(s) == BigEndian8(s[7], s[6], s[5], s[4], s[3], s[2], s[1], s[0])
  {
    hide Num;
    var t := s[4..];
    assert Weighed(s) == Num(s[0]) + 256 * Weighed(s[1..]) && s[1..][1..] == s[2..];
    assert Weighed(s[1..]) == Num(s[1]) + 256 * Weighed(s[2..]) && s[2..][1..] == s[3..];
    assert Weighed(s[2..]) == Num(s[2]) + 256 * Weighed(s[3..]) && s[3..][1..] == t;
    assert Weighed(s[3..]) == Num(s[3]) + 256 * Weighed(t);
    FourWeighed(t);
  }

  lemma FourWeighed(s: seq<bv8>)
    requires |s| == 4
    ensures Weighed(s) == Num(s[0]) + 256 * (Num(s[1]) + 256 * (Num(s[2]) + 256 * Num(s[3])))
  {
    hide Num;
    assert Weighed(s) == Num(s[0]) + 256 * Weighed(s[1..]) && s[1..][1..] == s[2..];
    assert Weighed(s[1..]) == Num(s[1]) + 256 * Weighed(s[2..]) && s[2..][1..] == s[3..];
    assert Weighed(s[2..]) == Num(s[2]) + 256 * Weighed(s[3..]) && s[3..][1..] == [];
    assert Weighed(s[3..]) == Num(s[3]);
  }

  lemma {:induction false} ReverseIs(s: seq<bv8>)
    ensures forall i | 0 <= i < |s| :: Reverse(s)[i] == s[|s| - 1 - i]
  {
    if s != [] {
      ReverseIs(s[1..]);
    }
  }
}
