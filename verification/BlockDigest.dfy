/** SHA-256 and MD5: the buffered engines digest the padded message, however it is cut. */
module BlockDigest {
  import Crc32

  type Word = bv32

  datatype Kind = Sha256 | Md5

  const SHA256_K: seq<seq<Word>> := [
    [0x428a2f98, 0x71374491, 0xb5c0fbcf, 0xe9b5dba5, 0x3956c25b, 0x59f111f1, 0x923f82a4, 0xab1c5ed5],
    [0xd807aa98, 0x12835b01, 0x243185be, 0x550c7dc3, 0x72be5d74, 0x80deb1fe, 0x9bdc06a7, 0xc19bf174],
    [0xe49b69c1, 0xefbe4786, 0x0fc19dc6, 0x240ca1cc, 0x2de92c6f, 0x4a7484aa, 0x5cb0a9dc, 0x76f988da],
    [0x983e5152, 0xa831c66d, 0xb00327c8, 0xbf597fc7, 0xc6e00bf3, 0xd5a79147, 0x06ca6351, 0x14292967],
    [0x27b70a85, 0x2e1b2138, 0x4d2c6dfc, 0x53380d13, 0x650a7354, 0x766a0abb, 0x81c2c92e, 0x92722c85],
    [0xa2bfe8a1, 0xa81a664b, 0xc24b8b70, 0xc76c51a3, 0xd192e819, 0xd6990624, 0xf40e3585, 0x106aa070],
    [0x19a4c116, 0x1e376c08, 0x2748774c, 0x34b0bcb5, 0x391c0cb3, 0x4ed8aa4a, 0x5b9cca4f, 0x682e6ff3],
    [0x748f82ee, 0x78a5636f, 0x84c87814, 0x8cc70208, 0x90befffa, 0xa4506ceb, 0xbef9a3f7, 0xc67178f2]]

  const MD5_T: seq<seq<Word>> := [
    [0xd76aa478, 0xe8c7b756, 0x242070db, 0xc1bdceee, 0xf57c0faf, 0x4787c62a, 0xa8304613, 0xfd469501],
    [0x698098d8, 0x8b44f7af, 0xffff5bb1, 0x895cd7be, 0x6b901122, 0xfd987193, 0xa679438e, 0x49b40821],
    [0xf61e2562, 0xc040b340, 0x265e5a51, 0xe9b6c7aa, 0xd62f105d, 0x02441453, 0xd8a1e681, 0xe7d3fbc8],
    [0x21e1cde6, 0xc33707d6, 0xf4d50d87, 0x455a14ed, 0xa9e3e905, 0xfcefa3f8, 0x676f02d9, 0x8d2a4c8a],
    [0xfffa3942, 0x8771f681, 0x6d9d6122, 0xfde5380c, 0xa4beea44, 0x4bdecfa9, 0xf6bb4b60, 0xbebfbc70],
    [0x289b7ec6, 0xeaa127fa, 0xd4ef3085, 0x04881d05, 0xd9d4d039, 0xe6db99e5, 0x1fa27cf8, 0xc4ac5665],
    [0xf4292244, 0x432aff97, 0xab9423a7, 0xfc93a039, 0x655b59c3, 0x8f0ccc92, 0xffeff47d, 0x85845dd1],
    [0x6fa87e4f, 0xfe2ce6e0, 0xa3014314, 0x4e0811a1, 0xf7537e82, 0xbd3af235, 0x2ad7d2bb, 0xeb86d391]]

  function RoundWord(i: nat): Word
    requires i < 64
  {
    SHA256_K[i / 8][i % 8]
  }

  function SineWord(i: nat): Word
    requires i < 64
  {
    MD5_T[i / 8][i % 8]
  }

  /** The rotation of operation i: four amounts a round, repeated. */
  function Md5Shift(i: nat): (n: bv32)
    ensures n <= 32
  {
    var k := i % 4;
    if i < 16 then (if k == 0 then 7 else if k == 1 then 12 else if k == 2 then 17 else 22)
    else if i < 32 then (if k == 0 then 5 else if k == 1 then 9 else if k == 2 then 14 else 20)
    else if i < 48 then (if k == 0 then 4 else if k == 1 then 11 else if k == 2 then 16 else 23)
    else (if k == 0 then 6 else if k == 1 then 10 else if k == 2 then 15 else 21)
  }

  // ---------------------------------------------------------------- word functions

  function Add(x: Word, y: Word): Word { x + y }

  function Rotr(x: Word, n: bv32): Word
    requires n <= 32
  {
    (x >> n) | (x << (32 - n))
  }
  function Ch(x: Word, y: Word, z: Word): Word { (x & y) ^ (!x & z) }
  function Maj(x: Word, y: Word, z: Word): Word { (x & y) ^ (x & z) ^ (y & z) }
  function Sigma0(x: Word): Word { Rotr(x, 2) ^ Rotr(x, 13) ^ Rotr(x, 22) }
  function Sigma1(x: Word): Word { Rotr(x, 6) ^ Rotr(x, 11) ^ Rotr(x, 25) }
  function Gamma0(x: Word): Word { Rotr(x, 7) ^ Rotr(x, 18) ^ (x >> 3) }
  function Gamma1(x: Word): Word { Rotr(x, 17) ^ Rotr(x, 19) ^ (x >> 10) }

  function Md5F(x: Word, y: Word, z: Word): Word { (x & y) | (!x & z) }
  function Md5G(x: Word, y: Word, z: Word): Word { (x & z) | (y & !z) }
  function Md5H(x: Word, y: Word, z: Word): Word { x ^ y ^ z }
  function Md5I(x: Word, y: Word, z: Word): Word { y ^ (x | !z) }
  function Rotl(x: Word, n: bv32): Word
    requires n <= 32
  {
    (x << n) | (x >> (32 - n))
  }

  function BigEndianWord(a: bv8, b: bv8, c: bv8, d: bv8): Word {
    ((a as Word) << 24) | ((b as Word) << 16) | ((c as Word) << 8) | (d as Word)
  }
  function LittleEndianBytes(w: Word): seq<bv8> {
    [(w & 0xFF) as bv8, ((w >> 8) & 0xFF) as bv8, ((w >> 16) & 0xFF) as bv8, ((w >> 24) & 0xFF) as bv8]
  }

  // ---------------------------------------------------------------- the compression functions

  type Block = b: seq<bv8> | |b| == 64 witness seq(64, _ => 0)

  datatype ShaVars = ShaVars(a: Word, b: Word, c: Word, d: Word, e: Word, f: Word, g: Word, h: Word)

  /** The message schedule (section 6.2.2 of FIPS 180-4, step 1). */
  function ShaWord(block: Block, t: nat): Word
    requires t < 64
    decreases |block|, t
  {
    if t < 16 then BigEndianWord(block[4 * t], block[4 * t + 1], block[4 * t + 2], block[4 * t + 3])
    else Add(Add(Add(Gamma1(ShaWord(block, t - 2)), ShaWord(block, t - 7)), Gamma0(ShaWord(block, t - 15))), ShaWord(block, t - 16))
  }

  function ShaRound(v: ShaVars, k: Word, w: Word): ShaVars {
    var t1 := Add(Add(Add(Add(v.h, Sigma1(v.e)), Ch(v.e, v.f, v.g)), k), w);
    var t2 := Add(Sigma0(v.a), Maj(v.a, v.b, v.c));
    ShaVars(Add(t1, t2), v.a, v.b, v.c, Add(v.d, t1), v.e, v.f, v.g)
  }

  /** The working variables after t rounds. */
  function ShaRounds(v: ShaVars, block: Block, t: nat): ShaVars
    requires t <= 64
    decreases |block|, t
  {
    if t == 0 then v else ShaRound(ShaRounds(v, block, t - 1), RoundWord(t - 1), ShaWord(block, t - 1))
  }

  datatype Md5Vars = Md5Vars(a: Word, b: Word, c: Word, d: Word)

  function Md5Word(block: Block, g: nat): Word
    requires g < 16
  {
    BigEndianWord(block[4 * g + 3], block[4 * g + 2], block[4 * g + 1], block[4 * g])
  }

  /** Which word of the block operation i takes. */
  function Md5Index(i: nat): (g: nat)
    ensures g < 16
  {
    if i < 16 then i else if i < 32 then (5 * i + 1) % 16 else if i < 48 then (3 * i + 5) % 16 else (7 * i) % 16
  }

  /** What it rotates: its round's function, a, its constant and the word. */
  function Md5Mix(v: Md5Vars, i: nat, m: Word): Word
    requires i < 64
  {
    var f := if i < 16 then Md5F(v.b, v.c, v.d) else if i < 32 then Md5G(v.b, v.c, v.d)
             else if i < 48 then Md5H(v.b, v.c, v.d) else Md5I(v.b, v.c, v.d);
    Add(Add(Add(f, v.a), SineWord(i)), m)
  }

  /** One of the 64 operations (section 3.4 of RFC 1321). */
  function Md5Round(v: Md5Vars, block: Block, i: nat): Md5Vars
    requires i < 64
  {
    Md5Vars(v.d, Add(v.b, Rotl(Md5Mix(v, i, Md5Word(block, Md5Index(i))), Md5Shift(i))), v.b, v.c)
  }

  function Md5Rounds(v: Md5Vars, block: Block, t: nat): Md5Vars
    requires t <= 64
    decreases |block|, t
  {
    if t == 0 then v else Md5Round(Md5Rounds(v, block, t - 1), block, t - 1)
  }

  /** The chaining words of either engine. */
  datatype State = ShaState(sha: ShaVars) | Md5State(md5: Md5Vars)

  function ShaSum(s: ShaVars, v: ShaVars): ShaVars {
    ShaVars(Add(s.a, v.a), Add(s.b, v.b), Add(s.c, v.c), Add(s.d, v.d), Add(s.e, v.e), Add(s.f, v.f), Add(s.g, v.g), Add(s.h, v.h))
  }

  function Md5Sum(s: Md5Vars, v: Md5Vars): Md5Vars {
    Md5Vars(Add(s.a, v.a), Add(s.b, v.b), Add(s.c, v.c), Add(s.d, v.d))
  }

  function Compress(s: State, block: Block): State {
    match s
    case ShaState(v) => ShaState(ShaSum(v, ShaRounds(v, block, 64)))
    case Md5State(v) => Md5State(Md5Sum(v, Md5Rounds(v, block, 64)))
  }

  function Initial(kind: Kind): State {
    match kind
    case Sha256 => ShaState(ShaVars(0x6a09e667, 0xbb67ae85, 0x3c6ef372, 0xa54ff53a, 0x510e527f, 0x9b05688c, 0x1f83d9ab, 0x5be0cd19))
    case Md5 => Md5State(Md5Vars(0x67452301, 0xefcdab89, 0x98badcfe, 0x10325476))
  }

  // ---------------------------------------------------------------- the digest of a message

  /** Compress the complete blocks of a message from left to right. */
  function Fold(s: State, m: seq<bv8>): State
    requires |m| % 64 == 0
    decreases |m|
  {
    if m == [] then s else Fold(Compress(s, m[..64]), m[64..])
  }

  const TWO64: nat := 0x1_0000_0000_0000_0000

  function LowByte(n: nat): bv8 { (n % 256) as bv8 }

  /** The low k bytes of a number, least significant first. */
  function Bytes(n: nat, k: nat): (r: seq<bv8>)
    ensures |r| == k
    decreases n, k
  {
    if k == 0 then [] else [LowByte(n)] + Bytes(n / 256, k - 1)
  }

  function Reverse(s: seq<bv8>): (r: seq<bv8>)
    ensures |r| == |s|
  {
    if s == [] then [] else Reverse(s[1..]) + [s[0]]
  }

  /** The bit length in the algorithm's byte order, modulo 2^64. */
  function LengthField(kind: Kind, length: nat): (r: seq<bv8>)
    ensures |r| == 8
  {
    var bytes := Bytes((length * 8) % TWO64, 8);
    if kind.Sha256? then Reverse(bytes) else bytes
  }

  function Zeros(k: nat): (r: seq<bv8>)
    ensures |r| == k
  {
    seq(k, _ => 0)
  }

  function ZeroCount(length: nat): (k: nat)
    ensures (length + 1 + k + 8) % 64 == 0
  {
    (55 - length) % 64
  }

  /** Section 5.1.1 of FIPS 180-4, and sections 3.1 and 3.2 of RFC 1321. */
  function Pad(kind: Kind, m: seq<bv8>): (r: seq<bv8>)
    ensures |r| % 64 == 0
  {
    m + [0x80] + Zeros(ZeroCount(|m|)) + LengthField(kind, |m|)
  }

  /** The padding takes the fewest zero bytes that leave room for the length in the last block. */
  lemma FewestZeros(length: nat, k: nat)
    requires (length + 1 + k + 8) % 64 == 0
    ensures ZeroCount(length) <= k
    ensures (length + 1 + ZeroCount(length)) % 64 == 56
  {
  }

  function Output(s: State): seq<bv8> {
    match s
    case ShaState(v) =>
      Crc32.BigEndian(v.a) + Crc32.BigEndian(v.b) + Crc32.BigEndian(v.c) + Crc32.BigEndian(v.d)
      + Crc32.BigEndian(v.e) + Crc32.BigEndian(v.f) + Crc32.BigEndian(v.g) + Crc32.BigEndian(v.h)
    case Md5State(v) =>
      LittleEndianBytes(v.a) + LittleEndianBytes(v.b) + LittleEndianBytes(v.c) + LittleEndianBytes(v.d)
  }

  function Digest(kind: Kind, m: seq<bv8>): seq<bv8> {
    Output(Fold(Initial(kind), Pad(kind, m)))
  }

  lemma {:induction false} FoldConcat(s: State, a: seq<bv8>, b: seq<bv8>)
    requires |a| % 64 == 0 && |b| % 64 == 0
    ensures Fold(s, a + b) == Fold(Fold(s, a), b)
    decreases |a|
  {
    hide Compress;
    if a == [] {
      assert a + b == b;
    } else {
      assert (a + b)[..64] == a[..64] && (a + b)[64..] == a[64..] + b;
      FoldConcat(Compress(s, a[..64]), a[64..], b);
    }
  }

  lemma FoldOneMore(s: State, a: seq<bv8>, block: Block)
    requires |a| % 64 == 0
    ensures Fold(s, a + block) == Compress(Fold(s, a), block)
  {
    hide Compress;
    FoldConcat(s, a, block);
    assert block[..64] == block && block[64..] == [];
  }

  // ---------------------------------------------------------------- the engine

  /** Both engines share this buffering; only the block function, the initial words,
      the byte order and the digest's size differ. */
  class BlockChecksum {
    const kind: Kind
    var state: State
    const buffer: array<bv8>
    var totalLength: nat    // a 64-bit counter
    var bufferLength: nat
    ghost var message: seq<bv8>

    /** The engine has absorbed m: whole blocks are compressed, the rest waits in the buffer. */
    ghost predicate Holds(m: seq<bv8>)
      reads this`state, this`bufferLength, buffer
    {
      && buffer.Length == 64
      && bufferLength == |m| % 64
      && buffer[..bufferLength] == m[|m| - bufferLength..]
      && kind == (if state.ShaState? then Sha256 else Md5)
      && state == Fold(Initial(kind), m[..|m| - bufferLength])
    }

    ghost predicate Valid()
      reads this, buffer
    {
      Holds(message) && totalLength == |message| % TWO64
    }

    lemma Waits(m: seq<bv8>)
      requires Holds(m)
      ensures bufferLength == |m| % 64
    {
    }

    lemma Waiting()
      requires Valid()
      ensures bufferLength == |message| % 64
    {
    }

    constructor (kind: Kind)
      ensures Valid() && message == [] && this.kind == kind && fresh(buffer)
    {
      this.kind := kind;
      buffer := new bv8[64];
      state := Initial(kind);
      totalLength, bufferLength := 0, 0;
      message := [];
    }

    method ProcessBlock(block: Block)
      modifies this`state
      ensures state == Compress(old(state), block)
    {
      hide ShaRounds, Md5Rounds, ShaSum, Md5Sum;
      match state
      case ShaState(s) =>
        var v := ShaBlock(s, block);
        state := ShaState(ShaSum(s, v));
      case Md5State(s) =>
        var v := Md5Block(s, block);
        state := Md5State(Md5Sum(s, v));
    }

    /** memcpy into the buffer. */
    method CopyIn(at: nat, data: seq<bv8>)
      requires buffer.Length == 64 && at + |data| <= 64
      modifies buffer
      ensures buffer[..at] == old(buffer[..at])
      ensures buffer[..at + |data|] == old(buffer[..at]) + data
    {
      forall k | 0 <= k < |data| {
        buffer[at + k] := data[k];
      }
    }

    method Update(data: seq<bv8>)
      requires Valid()
      modifies this, buffer
      ensures Valid() && message == old(message) + data
    {
      hide Holds;
      CountWraps(|message|, |data|);
      totalLength := (totalLength + |data|) % TWO64;
      ghost var m0 := message;
      message := m0 + data;
      var offset := 0;
      Waits(m0);
      assert m0 + data[..0] == m0;
      if bufferLength > 0 {
        offset := TopUp(m0, data);
      }
      offset := WholeBlocks(m0, data, offset);
      if offset < |data| {
        Keep(m0 + data[..offset], data[offset..]);
      }
      NothingLeft(m0, data, offset);
    }

    /** Blocks that lie in the data completely are compressed from there. */
    method WholeBlocks(ghost m0: seq<bv8>, data: seq<bv8>, start: nat) returns (offset: nat)
      requires start <= |data| && Holds(m0 + data[..start]) && (start == |data| || bufferLength == 0)
      modifies this`state
      ensures start <= offset <= |data| < offset + 64 && (offset == |data| || bufferLength == 0)
      ensures Holds(m0 + data[..offset])
    {
      hide Holds;
      offset := start;
      while offset + 64 <= |data|
        invariant start <= offset <= |data|
        invariant Holds(m0 + data[..offset])
        invariant offset == |data| || bufferLength == 0
      {
        assert m0 + data[..offset] + data[offset..offset + 64] == m0 + data[..offset + 64];
        Absorb(m0 + data[..offset], data[offset..offset + 64]);
        offset := offset + 64;
      }
    }

    /** What is left, less than a block, waits in the buffer. */
    method Keep(ghost m: seq<bv8>, rest: seq<bv8>)
      requires Holds(m) && bufferLength == 0 && |rest| < 64
      modifies this`bufferLength, buffer
      ensures Holds(m + rest)
    {
      hide Compress, Fold, Initial;
      bufferLength := |rest|;
      CopyIn(0, rest);
      assert m[..|m|] == m && (m + rest)[..|m|] == m && (m + rest)[|m|..] == rest;
    }

    /** With an empty buffer, one whole block goes straight through. */
    method Absorb(ghost m: seq<bv8>, block: Block)
      requires Holds(m) && bufferLength == 0
      modifies this`state
      ensures Holds(m + block) && bufferLength == 0
    {
      hide Compress, Fold, Initial;
      assert m[..|m| - bufferLength] == m;
      assert (m + block)[..|m + block|] == m + block;
      FoldOneMore(Initial(kind), m, block);
      CompressKeepsKind(state, block);
      ProcessBlock(block);
    }

    /** Fill up a partial block first, and compress it once it is complete. */
    method TopUp(ghost m0: seq<bv8>, data: seq<bv8>) returns (offset: nat)
      requires Holds(m0) && bufferLength > 0
      modifies this`state, this`bufferLength, buffer
      ensures offset <= |data| && (offset == |data| || bufferLength == 0)
      ensures Holds(m0 + data[..offset])
    {
      hide Compress, Fold, Initial;
      offset := if |data| < 64 - bufferLength then |data| else 64 - bufferLength;
      ghost var m := m0 + data[..offset];
      Topped(m0, bufferLength, data[..offset]);
      CopyIn(bufferLength, data[..offset]);
      bufferLength := bufferLength + offset;
      if bufferLength == 64 {
        FlushFull(m);
      }
    }

    /** A full buffer is compressed and emptied. */
    method FlushFull(ghost m: seq<bv8>)
      requires buffer.Length == 64 && bufferLength == 64 && |m| % 64 == 0 && |m| >= 64
      requires buffer[..] == m[|m| - 64..]
      requires kind == (if state.ShaState? then Sha256 else Md5)
      requires state == Fold(Initial(kind), m[..|m| - 64])
      modifies this`state, this`bufferLength
      ensures bufferLength == 0 && Holds(m)
    {
      hide Compress, Fold, Initial;
      FoldOneMore(Initial(kind), m[..|m| - 64], buffer[..]);
      assert m[..|m| - 64] + buffer[..] == m && m[..|m|] == m;
      CompressKeepsKind(state, buffer[..]);
      ProcessBlock(buffer[..]);
      bufferLength := 0;
    }

    /** Padding, then the length, then the digest: what the standards define for the message. */
    method Finalize() returns (digest: seq<bv8>)
      requires Valid()
      modifies this, buffer
      ensures digest == Digest(kind, old(message))
    {
      hide Compress, Fold, Initial, Bytes, Reverse, Output;
      ghost var m := message;
      BitsWrap(|m|);
      var totalBits := (totalLength * 8) % TWO64;
      PadTo56();
      var lengthBytes := LengthBytes(kind, totalBits);
      Update(lengthBytes);
      assert message == Pad(kind, m);
      assert message[..|message|] == message;
      digest := Output(state);
    }

    /** One 0x80 byte, then zero bytes until eight bytes of the block are left. */
    method PadTo56()
      requires Valid()
      modifies this, buffer
      ensures Valid() && message == old(message) + [0x80] + Zeros(ZeroCount(|old(message)|))
    {
      hide Valid, ZeroCount;
      ghost var m := message;
      Update([0x80]);
      ghost var zeros: nat := 0;
      assert m + [0x80] + Zeros(0) == m + [0x80];
      ZerosLeft(|m|, 0);
      Waiting();
      while bufferLength != 56
        invariant Valid() && zeros <= ZeroCount(|m|)
        invariant message == m + [0x80] + Zeros(zeros)
        invariant bufferLength == 56 <==> zeros == ZeroCount(|m|)
        decreases ZeroCount(|m|) - zeros
      {
        Update([0]);
        Waiting();
        assert m + [0x80] + Zeros(zeros) + [0] == m + [0x80] + Zeros(zeros + 1);
        zeros := zeros + 1;
        ZerosLeft(|m|, zeros);
      }
    }
  }

  lemma NothingLeft(m0: seq<bv8>, data: seq<bv8>, offset: nat)
    requires offset <= |data|
    ensures m0 + data[..offset] + data[offset..] == m0 + data
    ensures offset == |data| ==> m0 + data[..offset] == m0 + data
  {
  }

  /** A message whose last waiting bytes are joined by a part that fits in the block. */
  lemma Topped(m0: seq<bv8>, waiting: nat, part: seq<bv8>)
    requires waiting == |m0| % 64 && waiting + |part| <= 64
    ensures var m, start := m0 + part, |m0| - waiting;
            && m[..start] == m0[..start] && m[start..] == m0[start..] + part
            && |m| % 64 == if waiting + |part| == 64 then 0 else waiting + |part|
  {
  }

  lemma CountWraps(a: nat, b: nat)
    ensures (a % TWO64 + b) % TWO64 == (a + b) % TWO64
  {
  }

  lemma BitsWrap(a: nat)
    ensures ((a % TWO64) * 8) % TWO64 == (a * 8) % TWO64
  {
    assert a == TWO64 * (a / TWO64) + a % TWO64;
    assert a * 8 == TWO64 * (8 * (a / TWO64)) + (a % TWO64) * 8;
  }

  lemma ZerosLeft(length: nat, zeros: nat)
    requires zeros <= ZeroCount(length)
    ensures (length + 1 + zeros) % 64 == 56 <==> zeros == ZeroCount(length)
  {
  }

  lemma CompressKeepsKind(s: State, block: Block)
    ensures Compress(s, block).ShaState? == s.ShaState?
  {
  }

  /** The loops that write the length field: SHA-256 from the last byte, MD5 from the first. */
  method LengthBytes(kind: Kind, bits: nat) returns (r: seq<bv8>)
    ensures r == (if kind.Sha256? then Reverse(Bytes(bits, 8)) else Bytes(bits, 8))
  {
    hide Reverse, Bytes;
    var buf := new bv8[8];
    if kind.Sha256? {
      WriteBackward(buf, bits);
    } else {
      WriteForward(buf, bits);
    }
    r := buf[..];
  }

  method WriteBackward(buf: array<bv8>, bits: nat)
    modifies buf
    ensures buf[..] == Reverse(Bytes(bits, buf.Length))
  {
    hide LowByte;
    var rest := bits;
    var i := buf.Length;
    while i > 0
      invariant 0 <= i <= buf.Length
      invariant Reverse(Bytes(bits, buf.Length)) == Reverse(Bytes(rest, i)) + buf[i..]
    {
      i := i - 1;
      ghost var after := buf[i + 1..];
      assert Bytes(rest, i + 1)[1..] == Bytes(rest / 256, i);
      buf[i] := LowByte(rest);
      assert buf[i..] == [LowByte(rest)] + after;
      rest := rest / 256;
    }
  }

  method WriteForward(buf: array<bv8>, bits: nat)
    modifies buf
    ensures buf[..] == Bytes(bits, buf.Length)
  {
    hide LowByte;
    var rest := bits;
    var i := 0;
    while i < buf.Length
      invariant 0 <= i <= buf.Length
      invariant Bytes(bits, buf.Length) == buf[..i] + Bytes(rest, buf.Length - i)
    {
      ghost var before := buf[..i];
      buf[i] := LowByte(rest);
      assert buf[..i + 1] == before + [LowByte(rest)];
      rest := rest / 256;
      i := i + 1;
    }
    assert buf[..i] == buf[..];
  }

  lemma LateWord(block: Block, t: nat)
    requires 16 <= t < 64
    ensures ShaWord(block, t) == Add(Add(Add(Gamma1(ShaWord(block, t - 2)), ShaWord(block, t - 7)), Gamma0(ShaWord(block, t - 15))), ShaWord(block, t - 16))
  {
    hide Gamma0, Gamma1, Add;
  }

  lemma EarlyWord(block: Block, t: nat)
    requires t < 16
    ensures ShaWord(block, t) == BigEndianWord(block[4 * t], block[4 * t + 1], block[4 * t + 2], block[4 * t + 3])
  {
    hide BigEndianWord;
  }

  method ShaSchedule(block: Block) returns (w: array<Word>)
    ensures w.Length == 64 && forall j | 0 <= j < 64 :: w[j] == ShaWord(block, j)
  {
    hide *;
    w := new Word[64];
    var i := 0;
    while i < 16
      invariant 0 <= i <= 16
      invariant forall j | 0 <= j < i :: w[j] == ShaWord(block, j)
    {
      EarlyWord(block, i);
      w[i] := BigEndianWord(block[i * 4], block[i * 4 + 1], block[i * 4 + 2], block[i * 4 + 3]);
      i := i + 1;
    }
    while i < 64
      invariant 16 <= i <= 64
      invariant forall j | 0 <= j < i :: w[j] == ShaWord(block, j)
    {
      LateWord(block, i);
      w[i] := Add(Add(Add(Gamma1(w[i - 2]), w[i - 7]), Gamma0(w[i - 15])), w[i - 16]);
      i := i + 1;
    }
  }

  method ShaBlock(s: ShaVars, block: Block) returns (v: ShaVars)
    ensures v == ShaRounds(s, block, 64)
  {
    hide Sigma0, Sigma1, Ch, Maj, Add, ShaWord, RoundWord;
    var w := ShaSchedule(block);
    var a, b, c, d, e, f, g, h := s.a, s.b, s.c, s.d, s.e, s.f, s.g, s.h;
    var i := 0;
    while i < 64
      invariant 0 <= i <= 64
      invariant ShaVars(a, b, c, d, e, f, g, h) == ShaRounds(s, block, i)
    {
      var t1 := Add(Add(Add(Add(h, Sigma1(e)), Ch(e, f, g)), RoundWord(i)), w[i]);
      var t2 := Add(Sigma0(a), Maj(a, b, c));
      h := g; g := f; f := e; e := Add(d, t1);
      d := c; c := b; b := a; a := Add(t1, t2);
      i := i + 1;
    }
    v := ShaVars(a, b, c, d, e, f, g, h);
  }

  method Md5Words(block: Block) returns (m: array<Word>)
    ensures m.Length == 16 && forall j | 0 <= j < 16 :: m[j] == Md5Word(block, j)
  {
    hide BigEndianWord;
    m := new Word[16];
    var i := 0;
    while i < 16
      invariant 0 <= i <= 16
      invariant forall j | 0 <= j < i :: m[j] == Md5Word(block, j)
    {
      m[i] := BigEndianWord(block[i * 4 + 3], block[i * 4 + 2], block[i * 4 + 1], block[i * 4]);
      i := i + 1;
    }
  }

  method Md5Block(s: Md5Vars, block: Block) returns (v: Md5Vars)
    ensures v == Md5Rounds(s, block, 64)
  {
    hide Md5Word, Md5F, Md5G, Md5H, Md5I, Rotl, Md5Shift, SineWord, Add;
    var m := Md5Words(block);
    var a, b, c, d := s.a, s.b, s.c, s.d;
    var i := 0;
    while i < 64
      invariant 0 <= i <= 64
      invariant Md5Vars(a, b, c, d) == Md5Rounds(s, block, i)
    {
      var f, g;
      if i < 16 {
        f, g := Md5F(b, c, d), i;
      } else if i < 32 {
        f, g := Md5G(b, c, d), (5 * i + 1) % 16;
      } else if i < 48 {
        f, g := Md5H(b, c, d), (3 * i + 5) % 16;
      } else {
        f, g := Md5I(b, c, d), (7 * i) % 16;
      }
      f := Add(Add(Add(f, a), SineWord(i)), m[g]);
      a := d; d := c; c := b;
      b := Add(b, Rotl(f, Md5Shift(i)));
      i := i + 1;
    }
    v := Md5Vars(a, b, c, d);
  }
}
