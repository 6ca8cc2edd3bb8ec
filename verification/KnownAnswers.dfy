/** Digests that are published: the message "abc" under SHA-256 (FIPS 180-4) and MD5 (section A.5 of RFC 1321), and the
    check value of CRC-32. */
module KnownAnswers {
  import T = Tables
  import C = Crc32
  import opened B = BlockDigest
  import opened FileHash
  import opened DigestLaws

  const ABC: seq<bv8> := [0x61, 0x62, 0x63]

  /** The one block of the padded message, its length in bits where the algorithm puts it. */
  ghost predicate AbcBlock(b: Block, at: nat) {
    && b[0] == 0x61 && b[1] == 0x62 && b[2] == 0x63 && b[3] == 0x80 && 4 <= at < 64 && b[at] == 24
    && forall i | 4 <= i < 64 && i != at :: b[i] == 0
  }

  lemma PaddedAbc(kind: Kind)
    ensures |Pad(kind, ABC)| == 64 && AbcBlock(Pad(kind, ABC), if kind.Sha256? then 63 else 56)
  {
    hide Bytes, Reverse;
    TwentyFour();
    ReverseIs(Bytes(24, 8));
    var front, length := ABC + [0x80] + Zeros(ZeroCount(3)), LengthField(kind, 3);
    assert |front| == 56 && Pad(kind, ABC) == front + length;
    forall i | 4 <= i < 56 ensures front[i] == 0 {
    }
    forall i | 0 <= i < 8 ensures length[i] == if i == (if kind.Sha256? then 7 else 0) then 24 else 0 {
    }
  }

  lemma TwentyFour()
    ensures Bytes(24, 8)[0] == 24 && forall i | 1 <= i < 8 :: Bytes(24, 8)[i] == 0
  {
    NoBytes(7);
    assert Bytes(24, 8) == [LowByte(24)] + Bytes(0, 7);
  }

  lemma {:induction false} NoBytes(k: nat)
    ensures forall i | 0 <= i < k :: Bytes(0, k)[i] == 0
  {
    if k > 0 {
      NoBytes(k - 1);
    }
  }

  // ---------------------------------------------------------------- SHA-256

  ghost predicate Words0(b: Block) {
    && ShaWord(b, 0) == 0x61626380 && ShaWord(b, 1) == 0x00000000 && ShaWord(b, 2) == 0x00000000 && ShaWord(b, 3) == 0x00000000
    && ShaWord(b, 4) == 0x00000000 && ShaWord(b, 5) == 0x00000000 && ShaWord(b, 6) == 0x00000000 && ShaWord(b, 7) == 0x00000000
  }

  ghost predicate Words8(b: Block) {
    && ShaWord(b, 8) == 0x00000000 && ShaWord(b, 9) == 0x00000000 && ShaWord(b, 10) == 0x00000000 && ShaWord(b, 11) == 0x00000000
    && ShaWord(b, 12) == 0x00000000 && ShaWord(b, 13) == 0x00000000 && ShaWord(b, 14) == 0x00000000 && ShaWord(b, 15) == 0x00000018
  }

  ghost predicate Words16(b: Block) {
    && ShaWord(b, 16) == 0x61626380 && ShaWord(b, 17) == 0x000f0000 && ShaWord(b, 18) == 0x7da86405 && ShaWord(b, 19) == 0x600003c6
    && ShaWord(b, 20) == 0x3e9d7b78 && ShaWord(b, 21) == 0x0183fc00 && ShaWord(b, 22) == 0x12dcbfdb && ShaWord(b, 23) == 0xe2e2c38e
  }

  ghost predicate Words24(b: Block) {
    && ShaWord(b, 24) == 0xc8215c1a && ShaWord(b, 25) == 0xb73679a2 && ShaWord(b, 26) == 0xe5bc3909 && ShaWord(b, 27) == 0x32663c5b
    && ShaWord(b, 28) == 0x9d209d67 && ShaWord(b, 29) == 0xec8726cb && ShaWord(b, 30) == 0x702138a4 && ShaWord(b, 31) == 0xd3b7973b
  }

  ghost predicate Words32(b: Block) {
    && ShaWord(b, 32) == 0x93f5997f && ShaWord(b, 33) == 0x3b68ba73 && ShaWord(b, 34) == 0xaff4ffc1 && ShaWord(b, 35) == 0xf10a5c62
    && ShaWord(b, 36) == 0x0a8b3996 && ShaWord(b, 37) == 0x72af830a && ShaWord(b, 38) == 0x9409e33e && ShaWord(b, 39) == 0x24641522
  }

  ghost predicate Words40(b: Block) {
    && ShaWord(b, 40) == 0x9f47bf94 && ShaWord(b, 41) == 0xf0a64f5a && ShaWord(b, 42) == 0x3e246a79 && ShaWord(b, 43) == 0x27333ba3
    && ShaWord(b, 44) == 0x0c4763f2 && ShaWord(b, 45) == 0x840abf27 && ShaWord(b, 46) == 0x7a290d5d && ShaWord(b, 47) == 0x065c43da
  }

  ghost predicate Words48(b: Block) {
    && ShaWord(b, 48) == 0xfb3e89cb && ShaWord(b, 49) == 0xcc7617db && ShaWord(b, 50) == 0xb9e66c34 && ShaWord(b, 51) == 0xa9993667
    && ShaWord(b, 52) == 0x84badedd && ShaWord(b, 53) == 0xc21462bc && ShaWord(b, 54) == 0x1487472c && ShaWord(b, 55) == 0xb20f7a99
  }

  ghost predicate Words56(b: Block) {
    && ShaWord(b, 56) == 0xef57b9cd && ShaWord(b, 57) == 0xebe6b238 && ShaWord(b, 58) == 0x9fe3095e && ShaWord(b, 59) == 0x78bc8d4b
    && ShaWord(b, 60) == 0xa43fcf15 && ShaWord(b, 61) == 0x668b2ff8 && ShaWord(b, 62) == 0xeeaba2cc && ShaWord(b, 63) == 0x12b1edeb
  }

  lemma FirstWords(b: Block)
    requires AbcBlock(b, 63)
    ensures Words0(b) && Words8(b)
  {
    forall t: nat | 0 < t < 15 ensures ShaWord(b, t) == 0 {
      EarlyWord(b, t);
    }
    EarlyWord(b, 0);
    EarlyWord(b, 15);
    hide ShaWord;
  }

  lemma NextWords16(b: Block)
    requires Words0(b) && Words8(b)
    ensures Words16(b)
  {
    hide ShaWord;
    LateWord(b, 16); LateWord(b, 17); LateWord(b, 18); LateWord(b, 19);
    LateWord(b, 20); LateWord(b, 21); LateWord(b, 22); LateWord(b, 23);
  }

  lemma NextWords24(b: Block)
    requires Words8(b) && Words16(b)
    ensures Words24(b)
  {
    hide ShaWord;
    LateWord(b, 24); LateWord(b, 25); LateWord(b, 26); LateWord(b, 27);
    LateWord(b, 28); LateWord(b, 29); LateWord(b, 30); LateWord(b, 31);
  }

  lemma NextWords32(b: Block)
    requires Words16(b) && Words24(b)
    ensures Words32(b)
  {
    hide ShaWord;
    LateWord(b, 32); LateWord(b, 33); LateWord(b, 34); LateWord(b, 35);
    LateWord(b, 36); LateWord(b, 37); LateWord(b, 38); LateWord(b, 39);
  }

  lemma NextWords40(b: Block)
    requires Words24(b) && Words32(b)
    ensures Words40(b)
  {
    hide ShaWord;
    LateWord(b, 40); LateWord(b, 41); LateWord(b, 42); LateWord(b, 43);
    LateWord(b, 44); LateWord(b, 45); LateWord(b, 46); LateWord(b, 47);
  }

  lemma NextWords48(b: Block)
    requires Words32(b) && Words40(b)
    ensures Words48(b)
  {
    hide ShaWord;
    LateWord(b, 48); LateWord(b, 49); LateWord(b, 50); LateWord(b, 51);
    LateWord(b, 52); LateWord(b, 53); LateWord(b, 54); LateWord(b, 55);
  }

  lemma NextWords56(b: Block)
    requires Words40(b) && Words48(b)
    ensures Words56(b)
  {
    hide ShaWord;
    LateWord(b, 56); LateWord(b, 57); LateWord(b, 58); LateWord(b, 59);
    LateWord(b, 60); LateWord(b, 61); LateWord(b, 62); LateWord(b, 63);
  }

  lemma RoundWords0()
    ensures RoundWord(0) == 0x428a2f98 && RoundWord(1) == 0x71374491 && RoundWord(2) == 0xb5c0fbcf && RoundWord(3) == 0xe9b5dba5
    ensures RoundWord(4) == 0x3956c25b && RoundWord(5) == 0x59f111f1 && RoundWord(6) == 0x923f82a4 && RoundWord(7) == 0xab1c5ed5
    ensures RoundWord(8) == 0xd807aa98 && RoundWord(9) == 0x12835b01 && RoundWord(10) == 0x243185be && RoundWord(11) == 0x550c7dc3
    ensures RoundWord(12) == 0x72be5d74 && RoundWord(13) == 0x80deb1fe && RoundWord(14) == 0x9bdc06a7 && RoundWord(15) == 0xc19bf174
  {
  }

  lemma RoundWords16()
    ensures RoundWord(16) == 0xe49b69c1 && RoundWord(17) == 0xefbe4786 && RoundWord(18) == 0x0fc19dc6 && RoundWord(19) == 0x240ca1cc
    ensures RoundWord(20) == 0x2de92c6f && RoundWord(21) == 0x4a7484aa && RoundWord(22) == 0x5cb0a9dc && RoundWord(23) == 0x76f988da
    ensures RoundWord(24) == 0x983e5152 && RoundWord(25) == 0xa831c66d && RoundWord(26) == 0xb00327c8 && RoundWord(27) == 0xbf597fc7
    ensures RoundWord(28) == 0xc6e00bf3 && RoundWord(29) == 0xd5a79147 && RoundWord(30) == 0x06ca6351 && RoundWord(31) == 0x14292967
  {
  }

  lemma RoundWords32()
    ensures RoundWord(32) == 0x27b70a85 && RoundWord(33) == 0x2e1b2138 && RoundWord(34) == 0x4d2c6dfc && RoundWord(35) == 0x53380d13
    ensures RoundWord(36) == 0x650a7354 && RoundWord(37) == 0x766a0abb && RoundWord(38) == 0x81c2c92e && RoundWord(39) == 0x92722c85
    ensures RoundWord(40) == 0xa2bfe8a1 && RoundWord(41) == 0xa81a664b && RoundWord(42) == 0xc24b8b70 && RoundWord(43) == 0xc76c51a3
    ensures RoundWord(44) == 0xd192e819 && RoundWord(45) == 0xd6990624 && RoundWord(46) == 0xf40e3585 && RoundWord(47) == 0x106aa070
  {
  }

  lemma RoundWords48()
    ensures RoundWord(48) == 0x19a4c116 && RoundWord(49) == 0x1e376c08 && RoundWord(50) == 0x2748774c && RoundWord(51) == 0x34b0bcb5
    ensures RoundWord(52) == 0x391c0cb3 && RoundWord(53) == 0x4ed8aa4a && RoundWord(54) == 0x5b9cca4f && RoundWord(55) == 0x682e6ff3
    ensures RoundWord(56) == 0x748f82ee && RoundWord(57) == 0x78a5636f && RoundWord(58) == 0x84c87814 && RoundWord(59) == 0x8cc70208
    ensures RoundWord(60) == 0x90befffa && RoundWord(61) == 0xa4506ceb && RoundWord(62) == 0xbef9a3f7 && RoundWord(63) == 0xc67178f2
  {
  }

  ghost function ShaAfter(b: Block, t: nat): ShaVars
    requires t <= 64
  {
    ShaRounds(Initial(Sha256).sha, b, t)
  }

  /** One more round: two of the variables are new, the others move on. */
  lemma NextVars(b: Block, t: nat, v: ShaVars, a: Word, e: Word) returns (n: ShaVars)
    requires t < 64 && ShaAfter(b, t) == v
    requires ShaRound(v, RoundWord(t), ShaWord(b, t)) == ShaVars(a, v.a, v.b, v.c, e, v.e, v.f, v.g)
    ensures n == ShaVars(a, v.a, v.b, v.c, e, v.e, v.f, v.g) == ShaAfter(b, t + 1)
  {
    n := ShaVars(a, v.a, v.b, v.c, e, v.e, v.f, v.g);
    hide ShaRound, ShaWord, RoundWord;
  }

  lemma Rounds0(b: Block)
    requires Words0(b) && Words8(b) && ShaAfter(b, 0) ==
      ShaVars(0x6a09e667, 0xbb67ae85, 0x3c6ef372, 0xa54ff53a, 0x510e527f, 0x9b05688c, 0x1f83d9ab, 0x5be0cd19)
    ensures ShaAfter(b, 16) ==
      ShaVars(0xb0fa238e, 0xc0645fde, 0xd932eb16, 0x87912990, 0x07590dcd, 0x0b92f20c, 0x745a48de, 0x1e578218)
  {
    hide ShaAfter, ShaWord, RoundWord;
    RoundWords0();
    var v := ShaVars(0x6a09e667, 0xbb67ae85, 0x3c6ef372, 0xa54ff53a, 0x510e527f, 0x9b05688c, 0x1f83d9ab, 0x5be0cd19);
    v := NextVars(b, 0, v, 0x5d6aebcd, 0xfa2a4622); v := NextVars(b, 1, v, 0x5a6ad9ad, 0x78ce7989);
    v := NextVars(b, 2, v, 0xc8c347a7, 0xf92939eb); v := NextVars(b, 3, v, 0xd550f666, 0x24e00850);
    v := NextVars(b, 4, v, 0x04409a6a, 0x43ada245); v := NextVars(b, 5, v, 0x2b4209f5, 0x714260ad);
    v := NextVars(b, 6, v, 0xe5030380, 0x9b27a401); v := NextVars(b, 7, v, 0x85a07b5f, 0x0c657a79);
    v := NextVars(b, 8, v, 0x8e04ecb9, 0x32ca2d8c); v := NextVars(b, 9, v, 0x8c87346b, 0x1cc92596);
    v := NextVars(b, 10, v, 0x4798a3f4, 0x436b23e8); v := NextVars(b, 11, v, 0xf71fc5a9, 0x816fd6e9);
    v := NextVars(b, 12, v, 0x87912990, 0x1e578218); v := NextVars(b, 13, v, 0xd932eb16, 0x745a48de);
    v := NextVars(b, 14, v, 0xc0645fde, 0x0b92f20c); v := NextVars(b, 15, v, 0xb0fa238e, 0x07590dcd);
  }

  lemma Rounds16(b: Block)
    requires Words16(b) && Words24(b) && ShaAfter(b, 16) ==
      ShaVars(0xb0fa238e, 0xc0645fde, 0xd932eb16, 0x87912990, 0x07590dcd, 0x0b92f20c, 0x745a48de, 0x1e578218)
    ensures ShaAfter(b, 32) ==
      ShaVars(0x73b33bf5, 0xea992a22, 0xa0060b30, 0x363482c9, 0xba591112, 0x0109ab3a, 0xade79437, 0x6112a3b7)
  {
    hide ShaAfter, ShaWord, RoundWord;
    RoundWords16();
    var v := ShaVars(0xb0fa238e, 0xc0645fde, 0xd932eb16, 0x87912990, 0x07590dcd, 0x0b92f20c, 0x745a48de, 0x1e578218);
    v := NextVars(b, 16, v, 0x21da9a9b, 0x8034229c); v := NextVars(b, 17, v, 0xc2fbd9d1, 0x846ee454);
    v := NextVars(b, 18, v, 0xfe777bbf, 0xcc899961); v := NextVars(b, 19, v, 0xe1f20c33, 0xb0638179);
    v := NextVars(b, 20, v, 0x9dc68b63, 0x8ada8930); v := NextVars(b, 21, v, 0xc2606d6d, 0xe1257970);
    v := NextVars(b, 22, v, 0xa7a3623f, 0x49f5114a); v := NextVars(b, 23, v, 0xc5d53d8d, 0xaa47c347);
    v := NextVars(b, 24, v, 0x1c2c2838, 0x2823ef91); v := NextVars(b, 25, v, 0xcde8037d, 0x14383d8e);
    v := NextVars(b, 26, v, 0xb62ec4bc, 0xc74c6516); v := NextVars(b, 27, v, 0x77d37528, 0xedffbff8);
    v := NextVars(b, 28, v, 0x363482c9, 0x6112a3b7); v := NextVars(b, 29, v, 0xa0060b30, 0xade79437);
    v := NextVars(b, 30, v, 0xea992a22, 0x0109ab3a); v := NextVars(b, 31, v, 0x73b33bf5, 0xba591112);
  }

  lemma Rounds32(b: Block)
    requires Words32(b) && Words40(b) && ShaAfter(b, 32) ==
      ShaVars(0x73b33bf5, 0xea992a22, 0xa0060b30, 0x363482c9, 0xba591112, 0x0109ab3a, 0xade79437, 0x6112a3b7)
    ensures ShaAfter(b, 48) ==
      ShaVars(0x4172328d, 0xa14c14b0, 0x72ab4b91, 0x26628815, 0xfecf0bc6, 0xd57b94a9, 0xb7755da1, 0xa80f11f0)
  {
    hide ShaAfter, ShaWord, RoundWord;
    RoundWords32();
    var v := ShaVars(0x73b33bf5, 0xea992a22, 0xa0060b30, 0x363482c9, 0xba591112, 0x0109ab3a, 0xade79437, 0x6112a3b7);
    v := NextVars(b, 32, v, 0x98e12507, 0x9cd9f5f6); v := NextVars(b, 33, v, 0xfe604df5, 0x59249dd3);
    v := NextVars(b, 34, v, 0xa9a7738c, 0x085f3833); v := NextVars(b, 35, v, 0x65a0cfe4, 0xf4b002d6);
    v := NextVars(b, 36, v, 0x41a65cb1, 0x0772a26b); v := NextVars(b, 37, v, 0x34df1604, 0xa507a53d);
    v := NextVars(b, 38, v, 0x6dc57a8a, 0xf0781bc8); v := NextVars(b, 39, v, 0x79ea687a, 0x1efbc0a0);
    v := NextVars(b, 40, v, 0xd6670766, 0x26352d63); v := NextVars(b, 41, v, 0xdf46652f, 0x838b2711);
    v := NextVars(b, 42, v, 0x17aa0dfe, 0xdecd4715); v := NextVars(b, 43, v, 0x9d4baf93, 0xfda24c2e);
    v := NextVars(b, 44, v, 0x26628815, 0xa80f11f0); v := NextVars(b, 45, v, 0x72ab4b91, 0xb7755da1);
    v := NextVars(b, 46, v, 0xa14c14b0, 0xd57b94a9); v := NextVars(b, 47, v, 0x4172328d, 0xfecf0bc6);
  }

  lemma Rounds48(b: Block)
    requires Words48(b) && Words56(b) && ShaAfter(b, 48) ==
      ShaVars(0x4172328d, 0xa14c14b0, 0x72ab4b91, 0x26628815, 0xfecf0bc6, 0xd57b94a9, 0xb7755da1, 0xa80f11f0)
    ensures ShaAfter(b, 64) ==
      ShaVars(0x506e3058, 0xd39a2165, 0x04d24d6c, 0xb85e2ce9, 0x5ef50f24, 0xfb121210, 0x948d25b6, 0x961f4894)
  {
    hide ShaAfter, ShaWord, RoundWord;
    RoundWords48();
    var v := ShaVars(0x4172328d, 0xa14c14b0, 0x72ab4b91, 0x26628815, 0xfecf0bc6, 0xd57b94a9, 0xb7755da1, 0xa80f11f0);
    v := NextVars(b, 48, v, 0x05757ceb, 0xbd714038); v := NextVars(b, 49, v, 0xf11bfaa8, 0x6e5c390c);
    v := NextVars(b, 50, v, 0x7a0508a1, 0x52f1ccf7); v := NextVars(b, 51, v, 0x886e7a22, 0x49231c1e);
    v := NextVars(b, 52, v, 0x101fd28f, 0x529e7d00); v := NextVars(b, 53, v, 0xf5702fdb, 0x9f4787c3);
    v := NextVars(b, 54, v, 0x3ec45cdb, 0xe50e1b4f); v := NextVars(b, 55, v, 0x38cc9913, 0x54cb266b);
    v := NextVars(b, 56, v, 0xfcd1887b, 0x9b5e906c); v := NextVars(b, 57, v, 0xc062d46f, 0x7e44008e);
    v := NextVars(b, 58, v, 0xffb70472, 0x6d83bfc6); v := NextVars(b, 59, v, 0xb6ae8fff, 0xb21bad3d);
    v := NextVars(b, 60, v, 0xb85e2ce9, 0x961f4894); v := NextVars(b, 61, v, 0x04d24d6c, 0x948d25b6);
    v := NextVars(b, 62, v, 0xd39a2165, 0xfb121210); v := NextVars(b, 63, v, 0x506e3058, 0x5ef50f24);
  }

  // ---------------------------------------------------------------- MD5

  /** The block's words are zero but for the message's and the length's. */
  ghost predicate AbcWords(b: Block) {
    Md5Word(b, 0) == 0x80636261 && Md5Word(b, 14) == 24 && forall g | 0 < g < 16 && g != 14 :: Md5Word(b, g) == 0
  }

  lemma AbcWordsAre(b: Block)
    requires AbcBlock(b, 56)
    ensures AbcWords(b)
  {
  }

  ghost function Md5After(b: Block, t: nat): Md5Vars
    requires t <= 64
  {
    Md5Rounds(Initial(Md5).md5, b, t)
  }

  lemma SineWords0()
    ensures SineWord(0) == 0xd76aa478 && SineWord(1) == 0xe8c7b756 && SineWord(2) == 0x242070db && SineWord(3) == 0xc1bdceee
    ensures SineWord(4) == 0xf57c0faf && SineWord(5) == 0x4787c62a && SineWord(6) == 0xa8304613 && SineWord(7) == 0xfd469501
    ensures SineWord(8) == 0x698098d8 && SineWord(9) == 0x8b44f7af && SineWord(10) == 0xffff5bb1 && SineWord(11) == 0x895cd7be
    ensures SineWord(12) == 0x6b901122 && SineWord(13) == 0xfd987193 && SineWord(14) == 0xa679438e && SineWord(15) == 0x49b40821
  {
  }

  lemma Inputs0(b: Block)
    requires AbcWords(b)
    ensures Md5Word(b, Md5Index(0)) == 0x80636261 && Md5Word(b, Md5Index(1)) == 0 && Md5Word(b, Md5Index(2)) == 0 && Md5Word(b, Md5Index(3)) == 0
    ensures Md5Word(b, Md5Index(4)) == 0 && Md5Word(b, Md5Index(5)) == 0 && Md5Word(b, Md5Index(6)) == 0 && Md5Word(b, Md5Index(7)) == 0
    ensures Md5Word(b, Md5Index(8)) == 0 && Md5Word(b, Md5Index(9)) == 0 && Md5Word(b, Md5Index(10)) == 0 && Md5Word(b, Md5Index(11)) == 0
    ensures Md5Word(b, Md5Index(12)) == 0 && Md5Word(b, Md5Index(13)) == 0 && Md5Word(b, Md5Index(14)) == 24 && Md5Word(b, Md5Index(15)) == 0
  {
    hide Md5Word;
  }

  lemma SineWords16()
    ensures SineWord(16) == 0xf61e2562 && SineWord(17) == 0xc040b340 && SineWord(18) == 0x265e5a51 && SineWord(19) == 0xe9b6c7aa
    ensures SineWord(20) == 0xd62f105d && SineWord(21) == 0x02441453 && SineWord(22) == 0xd8a1e681 && SineWord(23) == 0xe7d3fbc8
    ensures SineWord(24) == 0x21e1cde6 && SineWord(25) == 0xc33707d6 && SineWord(26) == 0xf4d50d87 && SineWord(27) == 0x455a14ed
    ensures SineWord(28) == 0xa9e3e905 && SineWord(29) == 0xfcefa3f8 && SineWord(30) == 0x676f02d9 && SineWord(31) == 0x8d2a4c8a
  {
  }

  lemma Inputs16(b: Block)
    requires AbcWords(b)
    ensures Md5Word(b, Md5Index(16)) == 0 && Md5Word(b, Md5Index(17)) == 0 && Md5Word(b, Md5Index(18)) == 0 && Md5Word(b, Md5Index(19)) == 0x80636261
    ensures Md5Word(b, Md5Index(20)) == 0 && Md5Word(b, Md5Index(21)) == 0 && Md5Word(b, Md5Index(22)) == 0 && Md5Word(b, Md5Index(23)) == 0
    ensures Md5Word(b, Md5Index(24)) == 0 && Md5Word(b, Md5Index(25)) == 24 && Md5Word(b, Md5Index(26)) == 0 && Md5Word(b, Md5Index(27)) == 0
    ensures Md5Word(b, Md5Index(28)) == 0 && Md5Word(b, Md5Index(29)) == 0 && Md5Word(b, Md5Index(30)) == 0 && Md5Word(b, Md5Index(31)) == 0
  {
    hide Md5Word;
  }

  lemma SineWords32()
    ensures SineWord(32) == 0xfffa3942 && SineWord(33) == 0x8771f681 && SineWord(34) == 0x6d9d6122 && SineWord(35) == 0xfde5380c
    ensures SineWord(36) == 0xa4beea44 && SineWord(37) == 0x4bdecfa9 && SineWord(38) == 0xf6bb4b60 && SineWord(39) == 0xbebfbc70
    ensures SineWord(40) == 0x289b7ec6 && SineWord(41) == 0xeaa127fa && SineWord(42) == 0xd4ef3085 && SineWord(43) == 0x04881d05
    ensures SineWord(44) == 0xd9d4d039 && SineWord(45) == 0xe6db99e5 && SineWord(46) == 0x1fa27cf8 && SineWord(47) == 0xc4ac5665
  {
  }

  lemma Inputs32(b: Block)
    requires AbcWords(b)
    ensures Md5Word(b, Md5Index(32)) == 0 && Md5Word(b, Md5Index(33)) == 0 && Md5Word(b, Md5Index(34)) == 0 && Md5Word(b, Md5Index(35)) == 24
    ensures Md5Word(b, Md5Index(36)) == 0 && Md5Word(b, Md5Index(37)) == 0 && Md5Word(b, Md5Index(38)) == 0 && Md5Word(b, Md5Index(39)) == 0
    ensures Md5Word(b, Md5Index(40)) == 0 && Md5Word(b, Md5Index(41)) == 0x80636261 && Md5Word(b, Md5Index(42)) == 0 && Md5Word(b, Md5Index(43)) == 0
    ensures Md5Word(b, Md5Index(44)) == 0 && Md5Word(b, Md5Index(45)) == 0 && Md5Word(b, Md5Index(46)) == 0 && Md5Word(b, Md5Index(47)) == 0
  {
    hide Md5Word;
  }

  lemma SineWords48()
    ensures SineWord(48) == 0xf4292244 && SineWord(49) == 0x432aff97 && SineWord(50) == 0xab9423a7 && SineWord(51) == 0xfc93a039
    ensures SineWord(52) == 0x655b59c3 && SineWord(53) == 0x8f0ccc92 && SineWord(54) == 0xffeff47d && SineWord(55) == 0x85845dd1
    ensures SineWord(56) == 0x6fa87e4f && SineWord(57) == 0xfe2ce6e0 && SineWord(58) == 0xa3014314 && SineWord(59) == 0x4e0811a1
    ensures SineWord(60) == 0xf7537e82 && SineWord(61) == 0xbd3af235 && SineWord(62) == 0x2ad7d2bb && SineWord(63) == 0xeb86d391
  {
  }

  lemma Inputs48(b: Block)
    requires AbcWords(b)
    ensures Md5Word(b, Md5Index(48)) == 0x80636261 && Md5Word(b, Md5Index(49)) == 0 && Md5Word(b, Md5Index(50)) == 24 && Md5Word(b, Md5Index(51)) == 0
    ensures Md5Word(b, Md5Index(52)) == 0 && Md5Word(b, Md5Index(53)) == 0 && Md5Word(b, Md5Index(54)) == 0 && Md5Word(b, Md5Index(55)) == 0
    ensures Md5Word(b, Md5Index(56)) == 0 && Md5Word(b, Md5Index(57)) == 0 && Md5Word(b, Md5Index(58)) == 0 && Md5Word(b, Md5Index(59)) == 0
    ensures Md5Word(b, Md5Index(60)) == 0 && Md5Word(b, Md5Index(61)) == 0 && Md5Word(b, Md5Index(62)) == 0 && Md5Word(b, Md5Index(63)) == 0
  {
    hide Md5Word;
  }

  /** One more operation: one of the variables is new. */
  lemma NextMd5(b: Block, t: nat, v: Md5Vars, w: Word, shift: bv32, n: Word) returns (r: Md5Vars)
    requires t < 64 && Md5After(b, t) == v && Md5Word(b, Md5Index(t)) == w
    requires Md5Shift(t) == shift && Add(v.b, Rotl(Md5Mix(v, t, w), shift)) == n
    ensures r == Md5Vars(v.d, n, v.b, v.c) == Md5After(b, t + 1)
  {
    r := Md5Vars(v.d, n, v.b, v.c);
    hide Md5Shift, Rotl, Add, Md5Mix, Md5Index, Md5Word;
  }

  lemma Md5Rounds0(b: Block)
    requires AbcWords(b) && Md5After(b, 0) == Md5Vars(0x67452301, 0xefcdab89, 0x98badcfe, 0x10325476)
    ensures Md5After(b, 16) == Md5Vars(0xdda9b9a6, 0x72aff2e0, 0xe396856b, 0xa1051895)
  {
    hide Md5After, SineWord, Md5Word, Md5Index, AbcWords;
    SineWords0();
    Inputs0(b);
    var v := Md5Vars(0x67452301, 0xefcdab89, 0x98badcfe, 0x10325476);
    v := NextMd5(b, 0, v, 0x80636261, 7, 0xd6d117b4); v := NextMd5(b, 1, v, 0, 12, 0x344a8432);
    v := NextMd5(b, 2, v, 0, 17, 0x2f6fbd72); v := NextMd5(b, 3, v, 0, 22, 0x7ad956f2);
    v := NextMd5(b, 4, v, 0, 7, 0xc73741ef); v := NextMd5(b, 5, v, 0, 12, 0x8bac3051);
    v := NextMd5(b, 6, v, 0, 17, 0x207dc67b); v := NextMd5(b, 7, v, 0, 22, 0x928d99f6);
    v := NextMd5(b, 8, v, 0, 7, 0x854b3712); v := NextMd5(b, 9, v, 0, 12, 0x74e2f284);
    v := NextMd5(b, 10, v, 0, 17, 0x3020401c); v := NextMd5(b, 11, v, 0, 22, 0x5ed49596);
    v := NextMd5(b, 12, v, 0, 7, 0xdda9b9a6); v := NextMd5(b, 13, v, 0, 12, 0xa1051895);
    v := NextMd5(b, 14, v, 24, 17, 0xe396856b); v := NextMd5(b, 15, v, 0, 22, 0x72aff2e0);
  }

  lemma Md5Rounds16(b: Block)
    requires AbcWords(b) && Md5After(b, 16) == Md5Vars(0xdda9b9a6, 0x72aff2e0, 0xe396856b, 0xa1051895)
    ensures Md5After(b, 32) == Md5Vars(0x790a77fb, 0x726342d3, 0xa62884aa, 0x9f47e4f8)
  {
    hide Md5After, SineWord, Md5Word, Md5Index, AbcWords;
    SineWords16();
    Inputs16(b);
    var v := Md5Vars(0xdda9b9a6, 0x72aff2e0, 0xe396856b, 0xa1051895);
    v := NextMd5(b, 16, v, 0, 5, 0x3e9e9126); v := NextMd5(b, 17, v, 0, 9, 0x4a1d804e);
    v := NextMd5(b, 18, v, 0, 14, 0xe25e1652); v := NextMd5(b, 19, v, 0x80636261, 20, 0xb5b204e4);
    v := NextMd5(b, 20, v, 0, 5, 0x59a8ffda); v := NextMd5(b, 21, v, 0, 9, 0x6d002f1e);
    v := NextMd5(b, 22, v, 0, 14, 0xabfc7920); v := NextMd5(b, 23, v, 0, 20, 0x47092c07);
    v := NextMd5(b, 24, v, 0, 5, 0xb7f268cf); v := NextMd5(b, 25, v, 24, 9, 0x09388eff);
    v := NextMd5(b, 26, v, 0, 14, 0xfe1623b1); v := NextMd5(b, 27, v, 0, 20, 0x786acb8f);
    v := NextMd5(b, 28, v, 0, 5, 0x790a77fb); v := NextMd5(b, 29, v, 0, 9, 0x9f47e4f8);
    v := NextMd5(b, 30, v, 0, 14, 0xa62884aa); v := NextMd5(b, 31, v, 0, 20, 0x726342d3);
  }

  lemma Md5Rounds32(b: Block)
    requires AbcWords(b) && Md5After(b, 32) == Md5Vars(0x790a77fb, 0x726342d3, 0xa62884aa, 0x9f47e4f8)
    ensures Md5After(b, 48) == Md5Vars(0x7f2e507b, 0x7beb9700, 0x8fae6399, 0x99d9679d)
  {
    hide Md5After, SineWord, Md5Word, Md5Index, AbcWords;
    SineWords32();
    Inputs32(b);
    var v := Md5Vars(0x790a77fb, 0x726342d3, 0xa62884aa, 0x9f47e4f8);
    v := NextMd5(b, 32, v, 0, 4, 0xb3707ebf); v := NextMd5(b, 33, v, 0, 11, 0x60127b2e);
    v := NextMd5(b, 34, v, 0, 16, 0x8d212ff5); v := NextMd5(b, 35, v, 24, 23, 0x3b0875c7);
    v := NextMd5(b, 36, v, 0, 4, 0x21b117b9); v := NextMd5(b, 37, v, 0, 11, 0x6e7429d5);
    v := NextMd5(b, 38, v, 0, 16, 0x3575227e); v := NextMd5(b, 39, v, 0, 23, 0x5a2f5ea5);
    v := NextMd5(b, 40, v, 0, 4, 0x11de1779); v := NextMd5(b, 41, v, 0x80636261, 11, 0xfadcaa38);
    v := NextMd5(b, 42, v, 0, 16, 0x31c465ca); v := NextMd5(b, 43, v, 0, 23, 0x4c6124f4);
    v := NextMd5(b, 44, v, 0, 4, 0x7f2e507b); v := NextMd5(b, 45, v, 0, 11, 0x99d9679d);
    v := NextMd5(b, 46, v, 0, 16, 0x8fae6399); v := NextMd5(b, 47, v, 0, 23, 0x7beb9700);
  }

  lemma Md5Rounds48(b: Block)
    requires AbcWords(b) && Md5After(b, 48) == Md5Vars(0x7f2e507b, 0x7beb9700, 0x8fae6399, 0x99d9679d)
    ensures Md5After(b, 64) == Md5Vars(0x310ade8f, 0xc08226b3, 0xe484b9d8, 0x624d8cb2)
  {
    hide Md5After, SineWord, Md5Word, Md5Index, AbcWords;
    SineWords48();
    Inputs48(b);
    var v := Md5Vars(0x7f2e507b, 0x7beb9700, 0x8fae6399, 0x99d9679d);
    v := NextMd5(b, 48, v, 0x80636261, 6, 0x7b201df8); v := NextMd5(b, 49, v, 0, 10, 0xf4e8e96e);
    v := NextMd5(b, 50, v, 24, 15, 0xb298cefd); v := NextMd5(b, 51, v, 0, 21, 0x8bf025c4);
    v := NextMd5(b, 52, v, 0, 6, 0x06cc5e8a); v := NextMd5(b, 53, v, 0, 10, 0x5b0d97aa);
    v := NextMd5(b, 54, v, 0, 15, 0x7d632dd0); v := NextMd5(b, 55, v, 0, 21, 0x3bfa2c27);
    v := NextMd5(b, 56, v, 0, 6, 0x7f81cc35); v := NextMd5(b, 57, v, 0, 10, 0x094454ab);
    v := NextMd5(b, 58, v, 0, 15, 0x4f9dbe3f); v := NextMd5(b, 59, v, 0, 21, 0x7327d604);
    v := NextMd5(b, 60, v, 0, 6, 0x310ade8f); v := NextMd5(b, 61, v, 0, 10, 0x624d8cb2);
    v := NextMd5(b, 62, v, 0, 15, 0xe484b9d8); v := NextMd5(b, 63, v, 0, 21, 0xc08226b3);
  }

  // ---------------------------------------------------------------- the digests

  lemma OneBlock(s: State, b: Block)
    ensures Fold(s, b) == Compress(s, b)
  {
    assert b[..64] == b && b[64..] == [];
    hide Compress;
  }

  /** SHA-256 of "abc". */
  lemma Sha256OfAbc()
    ensures DigestOf(T.Sha256, ABC) ==
            [0xba, 0x78, 0x16, 0xbf, 0x8f, 0x01, 0xcf, 0xea, 0x41, 0x41, 0x40, 0xde, 0x5d, 0xae, 0x22, 0x23]
            + [0xb0, 0x03, 0x61, 0xa3, 0x96, 0x17, 0x7a, 0x9c, 0xb4, 0x10, 0xff, 0x61, 0xf2, 0x00, 0x15, 0xad]
  {
    hide ShaRounds, ShaWord;
    var b := Pad(Sha256, ABC);
    PaddedAbc(Sha256);
    FirstWords(b);
    NextWords16(b); NextWords24(b); NextWords32(b); NextWords40(b); NextWords48(b); NextWords56(b);
    ShaStarts(b);
    Rounds0(b); Rounds16(b); Rounds32(b); Rounds48(b);
    OneBlock(Initial(Sha256), b);
    ShaEnds(ShaAfter(b, 64));
  }

  lemma ShaStarts(b: Block)
    ensures ShaAfter(b, 0) ==
      ShaVars(0x6a09e667, 0xbb67ae85, 0x3c6ef372, 0xa54ff53a, 0x510e527f, 0x9b05688c, 0x1f83d9ab, 0x5be0cd19)
  {
  }

  lemma ShaEnds(v: ShaVars)
    requires v ==
      ShaVars(0x506e3058, 0xd39a2165, 0x04d24d6c, 0xb85e2ce9, 0x5ef50f24, 0xfb121210, 0x948d25b6, 0x961f4894)
    ensures Output(ShaState(ShaSum(Initial(Sha256).sha, v))) ==
            [0xba, 0x78, 0x16, 0xbf, 0x8f, 0x01, 0xcf, 0xea, 0x41, 0x41, 0x40, 0xde, 0x5d, 0xae, 0x22, 0x23]
            + [0xb0, 0x03, 0x61, 0xa3, 0x96, 0x17, 0x7a, 0x9c, 0xb4, 0x10, 0xff, 0x61, 0xf2, 0x00, 0x15, 0xad]
  {
  }

  /** MD5 of "abc". */
  lemma Md5OfAbc()
    ensures DigestOf(T.Md5, ABC) ==
            [0x90, 0x01, 0x50, 0x98, 0x3c, 0xd2, 0x4f, 0xb0, 0xd6, 0x96, 0x3f, 0x7d, 0x28, 0xe1, 0x7f, 0x72]
  {
    hide Md5Rounds, Md5Word, AbcWords;
    var b := Pad(Md5, ABC);
    PaddedAbc(Md5);
    AbcWordsAre(b);
    Md5Starts(b);
    Md5Rounds0(b); Md5Rounds16(b); Md5Rounds32(b); Md5Rounds48(b);
    OneBlock(Initial(Md5), b);
    Md5Ends(Md5After(b, 64));
  }

  lemma Md5Starts(b: Block)
    ensures Md5After(b, 0) == Md5Vars(0x67452301, 0xefcdab89, 0x98badcfe, 0x10325476)
  {
  }

  lemma Md5Ends(v: Md5Vars)
    requires v == Md5Vars(0x310ade8f, 0xc08226b3, 0xe484b9d8, 0x624d8cb2)
    ensures Output(Md5State(Md5Sum(Initial(Md5).md5, v))) ==
            [0x90, 0x01, 0x50, 0x98, 0x3c, 0xd2, 0x4f, 0xb0, 0xd6, 0x96, 0x3f, 0x7d, 0x28, 0xe1, 0x7f, 0x72]
  {
  }

  // ---------------------------------------------------------------- CRC-32

  /** One more byte: its entry of the table and the upper bytes of the register. */
  lemma NextRegister(m: seq<bv8>, t: nat, c: bv32, i: bv32, entry: bv32, n: bv32)
    requires t < |m| && C.FeedBits(C.INITIAL, C.BitsOf(m[..t])) == c && C.Low(C.Xor(c, C.Wide(m[t]))) == i
    requires C.Steps(i, 8) == entry && C.Xor(entry, C.DropByte(c)) == n
    ensures C.FeedBits(C.INITIAL, C.BitsOf(m[..t + 1])) == n
  {
    hide C.FeedBits, C.BitsOf, C.ByteBits, C.Steps, C.Low, C.Xor, C.Wide, C.DropByte;
    C.TableStep(c, m[t]);
    C.OneMoreByte(C.INITIAL, m[..t], m[t]);
    assert m[..t + 1] == m[..t] + [m[t]];
  }

  const DIGITS: seq<bv8> := [0x31, 0x32, 0x33, 0x34, 0x35, 0x36, 0x37, 0x38, 0x39]

  lemma FourDigits()
    ensures C.FeedBits(C.INITIAL, C.BitsOf(DIGITS[..4])) == 0x641c1f5c
  {
    hide C.FeedBits, C.BitsOf;
    C.FeedNothing(C.INITIAL);
    assert DIGITS[..0] == [];
    NextRegister(DIGITS, 0, 0xffffffff, 0xce, 0x7cdcefb7, 0x7c231048);
    NextRegister(DIGITS, 1, 0x7c231048, 0x7a, 0xb0d09822, 0xb0acbb32);
    NextRegister(DIGITS, 2, 0xb0acbb32, 0x01, 0x77073096, 0x77b79c2d);
    NextRegister(DIGITS, 3, 0x77b79c2d, 0x19, 0x646ba8c0, 0x641c1f5c);
  }

  /** CRC-32 of "123456789", with the highest byte first. */
  lemma Crc32OfDigits()
    ensures DigestOf(T.Crc32, DIGITS) == [0xcb, 0xf4, 0x39, 0x26]
  {
    hide C.FeedBits, C.BitsOf;
    FourDigits();
    NextRegister(DIGITS, 4, 0x641c1f5c, 0x69, 0x346ed9fc, 0x340ac5e3);
    NextRegister(DIGITS, 5, 0x340ac5e3, 0xd5, 0xf6b9265b, 0xf68d2c9e);
    NextRegister(DIGITS, 6, 0xf68d2c9e, 0xa9, 0xaf0a1b4c, 0xaffc9660);
    NextRegister(DIGITS, 7, 0xaffc9660, 0x58, 0x65b0d9c6, 0x651f2550);
    NextRegister(DIGITS, 8, 0x651f2550, 0x69, 0x346ed9fc, 0x340bc6d9);
    assert DIGITS[..9] == DIGITS;
  }

  /** The generator is x^32 + x^26 + x^23 + x^22 + x^16 + x^12 + x^11 + x^10 + x^8 + x^7 + x^5 + x^4 + x^2 + x + 1, its
      lowest power in the highest bit. */
  lemma GeneratorIs(k: bv32)
    requires k < 32
    ensures C.Odd(C.POLY >> (31 - k)) <==> k in [26, 23, 22, 16, 12, 11, 10, 8, 7, 5, 4, 2, 1, 0]
  {
  }

  /** The sizes of the digests, whatever the content. */
  lemma DigestSizes(a: T.Algorithm, content: seq<bv8>)
    ensures |DigestOf(a, content)| == match a case Sha256 => 32 case Md5 => 16 case Crc32 => 4
  {
    hide Fold, Compress, Pad;
    FoldKeepsKind(Initial(Sha256), Pad(Sha256, content));
    FoldKeepsKind(Initial(Md5), Pad(Md5, content));
  }

  lemma {:induction false} FoldKeepsKind(s: State, m: seq<bv8>)
    requires |m| % 64 == 0
    ensures Fold(s, m).ShaState? == s.ShaState?
    decreases |m|
  {
    hide Compress;
    if m != [] {
      CompressKeepsKind(s, m[..64]);
      FoldKeepsKind(Compress(s, m[..64]), m[64..]);
    }
  }
}
