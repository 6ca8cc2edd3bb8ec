/** CRC-32: the table-driven engine computes the bit-at-a-time remainder. */
module Crc32 {

  const POLY: bv32 := 0xEDB88320

  // Small names for the word operations keep the solver from expanding them in the proofs above them.
  predicate Odd(c: bv32) { c & 1 != 0 }
  function Half(c: bv32): bv32 { c >> 1 }
  function Xor(a: bv32, b: bv32): bv32 { a ^ b }
  function Wide(b: bv8): bv32 { b as bv32 }
  function Low(c: bv32): bv32 { c & 0xFF }
  function High(c: bv32): bv32 { c & 0xFFFF_FF00 }
  function DropByte(c: bv32): bv32 { c >> 8 }
  function Feed(odd: bool, half: bv32): bv32 { if odd then Xor(POLY, half) else half }

  // ---------------------------------------------------------------- the specification, bit by bit

  /** One step of the division by the reflected polynomial: shift in a message bit. */
  function FeedBit(c: bv32, bit: bool): bv32 { Feed(Odd(c) != bit, Half(c)) }

  function FeedBits(c: bv32, bits: seq<bool>): bv32
    decreases |bits|
  {
    if bits == [] then c else FeedBits(FeedBit(c, bits[0]), bits[1..])
  }

  /** The n low bits of a word, least significant first. */
  function LowBits(w: bv32, n: nat): seq<bool>
    decreases n
  {
    if n == 0 then [] else [Odd(w)] + LowBits(Half(w), n - 1)
  }

  function ByteBits(b: bv8): seq<bool> { LowBits(Wide(b), 8) }

  function BitsOf(message: seq<bv8>): seq<bool> {
    if message == [] then [] else ByteBits(message[0]) + BitsOf(message[1..])
  }

  // ---------------------------------------------------------------- the table generator's step

  function Step(c: bv32): bv32 { Feed(Odd(c), Half(c)) }

  function Steps(c: bv32, n: nat): bv32
    decreases n
  {
    if n == 0 then c else Steps(Step(c), n - 1)
  }

  function Shift(c: bv32, n: nat): bv32
    decreases n
  {
    if n == 0 then c else Shift(Half(c), n - 1)
  }

  lemma XorAssociative(p: bv32, a: bv32, b: bv32)
    ensures Xor(Xor(p, a), b) == Xor(p, Xor(a, b))
  {
  }

  lemma XorCommutes(a: bv32, b: bv32)
    ensures Xor(a, b) == Xor(b, a)
  {
  }

  lemma XorSelf(a: bv32)
    ensures Xor(a, a) == 0
  {
  }

  lemma XorZero(a: bv32)
    ensures Xor(0, a) == a
    ensures Xor(a, 0) == a
  {
  }

  lemma HalfOfXor(x: bv32, y: bv32)
    ensures Half(Xor(x, y)) == Xor(Half(x), Half(y))
  {
  }

  lemma OddXor(x: bv32, y: bv32)
    ensures Odd(Xor(x, y)) <==> (Odd(x) != Odd(y))
  {
  }

  lemma FeedOfXor(xOdd: bool, yOdd: bool, a: bv32, b: bv32)
    ensures Feed(xOdd != yOdd, Xor(a, b)) == Xor(Feed(xOdd, a), Feed(yOdd, b))
  {
    hide Xor;
    XorAssociative(POLY, a, b);
    XorAssociative(POLY, b, a);
    XorAssociative(POLY, a, Feed(yOdd, b));
    XorAssociative(a, POLY, b);
    XorCommutes(a, POLY);
    if xOdd && yOdd {
      calc {
        Xor(Xor(POLY, a), Xor(POLY, b));
        { XorCommutes(POLY, a); XorAssociative(a, POLY, Xor(POLY, b)); }
        Xor(a, Xor(POLY, Xor(POLY, b)));
        { XorAssociative(POLY, POLY, b); XorSelf(POLY); XorZero(b); }
        Xor(a, b);
      }
    }
  }

  /** Shifting in a bit and adding the rest of the byte is one plain step of their sum. */
  lemma FeedBitIsStep(c: bv32, w: bv32)
    ensures Xor(FeedBit(c, Odd(w)), Half(w)) == Step(Xor(c, w))
  {
    hide Xor, Odd, Half;
    HalfOfXor(c, w);
    OddXor(c, w);
    FeedOfXor(Odd(c) != Odd(w), false, Half(c), Half(w));
  }

  /** The step is linear over exclusive or. */
  lemma StepIsLinear(x: bv32, y: bv32)
    ensures Step(Xor(x, y)) == Xor(Step(x), Step(y))
  {
    hide Xor, Odd, Half, Feed;
    HalfOfXor(x, y);
    OddXor(x, y);
    FeedOfXor(Odd(x), Odd(y), Half(x), Half(y));
  }

  lemma {:induction false} StepsAreLinear(x: bv32, y: bv32, n: nat)
    ensures Steps(Xor(x, y), n) == Xor(Steps(x, n), Steps(y, n))
    decreases n
  {
    hide Xor, Step;
    if n > 0 {
      StepIsLinear(x, y);
      StepsAreLinear(Step(x), Step(y), n - 1);
    }
  }

  /** Shifting in n bits of a word, against n plain steps of their sum. */
  lemma {:induction false} FeedBitsIsSteps(c: bv32, w: bv32, n: nat)
    ensures Xor(FeedBits(c, LowBits(w, n)), Shift(w, n)) == Steps(Xor(c, w), n)
    decreases n
  {
    hide Xor, Odd, Half, FeedBit, Step;
    if n > 0 {
      FeedBitIsStep(c, w);
      var bits := LowBits(w, n);
      assert bits[0] == Odd(w) && bits[1..] == LowBits(Half(w), n - 1);
      FeedBitsIsSteps(FeedBit(c, Odd(w)), Half(w), n - 1);
    }
  }

  lemma EightHalves(w: bv32)
    ensures Shift(w, 8) == Half(Half(Half(Half(Half(Half(Half(Half(w))))))))
  {
    hide Half;
    var w2 := Half(Half(w));
    var w4 := Half(Half(w2));
    assert Shift(w4, 4) == Shift(Half(Half(w4)), 2);
    assert Shift(w2, 6) == Shift(w4, 4);
  }

  lemma ByteShiftsOut(b: bv8)
    ensures Shift(Wide(b), 8) == 0
  {
    EightHalves(Wide(b));
    hide Shift;
  }

  predicate NibbleIsZero(w: bv32) { w & 0xF == 0 }
  function DropNibble(w: bv32): bv32 { w >> 4 }

  lemma LowNibbles(c: bv32)
    ensures NibbleIsZero(High(c)) && NibbleIsZero(DropNibble(High(c)))
  {
  }

  lemma FourHalves(w: bv32)
    ensures Half(Half(Half(Half(w)))) == DropNibble(w)
  {
  }

  lemma HighShifts(c: bv32)
    ensures DropNibble(DropNibble(High(c))) == DropByte(c)
  {
  }

  lemma HalfOfEven(w: bv32, mask: bv32)
    requires mask & 1 == 1 && w & mask == 0
    ensures !Odd(w) && Half(w) & (mask >> 1) == 0
  {
  }

  lemma EvenStep(w: bv32, mask: bv32, n: nat)
    requires mask & 1 == 1 && w & mask == 0 && n > 0
    ensures Steps(w, n) == Steps(Half(w), n - 1) && Half(w) & (mask >> 1) == 0
  {
    HalfOfEven(w, mask);
    hide Odd, Half;
  }

  lemma FourEvenSteps(w: bv32, n: nat)
    requires n >= 4 && NibbleIsZero(w)
    ensures Steps(w, n) == Steps(DropNibble(w), n - 4)
  {
    FourHalves(w);
    hide Odd, Half, Step, DropNibble;
    var h := Half(w);
    EvenStep(w, 0x0F, n);
    EvenStep(h, 0x07, n - 1); h := Half(h);
    EvenStep(h, 0x03, n - 2); h := Half(h);
    EvenStep(h, 0x01, n - 3);
  }

  /** Eight steps shift the three high bytes down unchanged. */
  lemma StepsOfHigh(c: bv32)
    ensures Steps(High(c), 8) == DropByte(c)
  {
    hide High, Step, DropByte, NibbleIsZero, DropNibble;
    LowNibbles(c);
    HighShifts(c);
    FourEvenSteps(High(c), 8);
    FourEvenSteps(DropNibble(High(c)), 4);
  }

  lemma SplitSum(s: bv32)
    ensures Xor(Low(s), High(s)) == s
  {
  }

  lemma SumDropsTheByte(c: bv32, b: bv8)
    ensures DropByte(Xor(c, Wide(b))) == DropByte(c)
  {
  }

  /** The table's step on one byte is eight steps of the bit-at-a-time division. */
  lemma TableStep(c: bv32, b: bv8)
    ensures FeedBits(c, ByteBits(b)) == Xor(Entry(Xor(c, Wide(b))), DropByte(c))
  {
    hide Xor, Low, High, Wide, DropByte, LowBits, Steps, Shift;
    var s := Xor(c, Wide(b));
    FeedBitsIsSteps(c, Wide(b), 8);
    ByteShiftsOut(b);
    XorZero(FeedBits(c, ByteBits(b)));
    SplitSum(s);
    SumDropsTheByte(c, b);
    StepsAreLinear(Low(s), High(s), 8);
    StepsOfHigh(s);
  }

  // ---------------------------------------------------------------- chunking

  lemma {:induction false} FeedBitsConcat(c: bv32, a: seq<bool>, b: seq<bool>)
    ensures FeedBits(c, a + b) == FeedBits(FeedBits(c, a), b)
    decreases |a|
  {
    hide FeedBit;
    if a == [] {
      assert a + b == b;
    } else {
      assert (a + b)[0] == a[0] && (a + b)[1..] == a[1..] + b;
      FeedBitsConcat(FeedBit(c, a[0]), a[1..], b);
    }
  }

  lemma {:induction false} BitsOfConcat(a: seq<bv8>, b: seq<bv8>)
    ensures BitsOf(a + b) == BitsOf(a) + BitsOf(b)
  {
    hide ByteBits;
    if a == [] {
      assert a + b == b;
    } else {
      assert (a + b)[0] == a[0] && (a + b)[1..] == a[1..] + b;
      BitsOfConcat(a[1..], b);
    }
  }

  /** One more byte at the end of a message. */
  lemma OneMoreByte(c: bv32, message: seq<bv8>, b: bv8)
    ensures FeedBits(c, BitsOf(message + [b])) == FeedBits(FeedBits(c, BitsOf(message)), ByteBits(b))
  {
    hide ByteBits, FeedBit;
    BitsOfConcat(message, [b]);
    assert BitsOf([b]) == ByteBits(b) + BitsOf([]);
    assert ByteBits(b) + [] == ByteBits(b);
    FeedBitsConcat(c, BitsOf(message), ByteBits(b));
  }

  lemma FeedNothing(c: bv32)
    ensures FeedBits(c, BitsOf([])) == c
  {
  }

  function Flatten(chunks: seq<seq<bv8>>): seq<bv8> {
    if chunks == [] then [] else chunks[0] + Flatten(chunks[1..])
  }

  function FeedChunks(c: bv32, chunks: seq<seq<bv8>>): bv32
    decreases |chunks|
  {
    if chunks == [] then c else FeedChunks(FeedBits(c, BitsOf(chunks[0])), chunks[1..])
  }

  /** However a message is cut into updates, the register ends the same. */
  lemma {:induction false} AnyChunking(c: bv32, chunks: seq<seq<bv8>>)
    ensures FeedChunks(c, chunks) == FeedBits(c, BitsOf(Flatten(chunks)))
    decreases |chunks|
  {
    if chunks != [] {
      AnyChunking(FeedBits(c, BitsOf(chunks[0])), chunks[1..]);
      BitsOfConcat(chunks[0], Flatten(chunks[1..]));
      FeedBitsConcat(c, BitsOf(chunks[0]), BitsOf(Flatten(chunks[1..])));
    }
  }

  // ---------------------------------------------------------------- the engine

  const INITIAL: bv32 := 0xFFFF_FFFF

  /** The checksum of a message (section 8 of RFC 1952). */
  function Checksum(message: seq<bv8>): bv32 { Xor(FeedBits(INITIAL, BitsOf(message)), INITIAL) }

  function BigEndian(w: bv32): seq<bv8> {
    [((w >> 24) & 0xFF) as bv8, ((w >> 16) & 0xFF) as bv8, ((w >> 8) & 0xFF) as bv8, (w & 0xFF) as bv8]
  }

  function FromBigEndian(d: seq<bv8>): bv32
    requires |d| == 4
  {
    ((d[0] as bv32) << 24) | ((d[1] as bv32) << 16) | ((d[2] as bv32) << 8) | (d[3] as bv32)
  }

  /** The one-shot form reassembles the digest's bytes into the checksum. */
  lemma DigestReassembles(w: bv32)
    ensures FromBigEndian(BigEndian(w)) == w
  {
  }

  /** Where the table keeps the entry for a register's low byte. */
  function Index(c: bv32): (i: nat)
    ensures i < 256
  {
    LowIsByte(c);
    Low(c) as int
  }

  lemma LowIsByte(c: bv32)
    ensures Low(c) < 256 && Low(c) as int < 256
  {
  }

  lemma LowOfByte(i: bv32)
    requires i < 256
    ensures Low(i) == i
  {
  }

  lemma IndexIsInjective(x: bv32, y: bv32)
    requires Index(x) == Index(y)
    ensures Low(x) == Low(y)
  {
    LowIsByte(x);
    LowIsByte(y);
    SmallRoundTrip(Low(x));
    SmallRoundTrip(Low(y));
  }

  lemma SmallRoundTrip(x: bv32)
    requires x < 256
    ensures (x as int) as bv32 == x
  {
  }

  /** An entry of the table: eight generator steps from the byte. */
  function Entry(x: bv32): bv32 { Steps(Low(x), 8) }

  predicate Below(x: bv32, n: bv32) { Low(x) < n }

  /** The table's entries for the bytes below n. */
  ghost predicate TableBelow(t: seq<bv32>, n: bv32) {
    |t| == 256 && forall x: bv32 :: Below(x, n) ==> t[Index(x)] == Entry(x)
  }

  lemma BelowNext(x: bv32, i: bv32)
    requires i < 256 && Below(x, i + 1)
    ensures Below(x, i) || Low(x) == Low(i)
  {
  }

  lemma SameLow(x: bv32, y: bv32)
    requires Low(x) == Low(y)
    ensures Index(x) == Index(y) && Entry(x) == Entry(y)
  {
  }

  lemma TableGrows(t: seq<bv32>, i: bv32)
    requires i < 256 && TableBelow(t, i)
    ensures TableBelow(t[Index(i) := Entry(i)], i + 1)
  {
    hide Index, Entry, Below, Low;
    forall x: bv32 | Below(x, i + 1)
      ensures t[Index(i) := Entry(i)][Index(x)] == Entry(x)
    {
      BelowNext(x, i);
      if Index(x) == Index(i) {
        IndexIsInjective(x, i);
      }
      if Low(x) == Low(i) {
        SameLow(x, i);
      }
    }
  }

  lemma WholeTable(t: seq<bv32>, x: bv32)
    requires TableBelow(t, 256)
    ensures t[Index(x)] == Entry(x)
  {
    LowIsByte(x);
    hide Index, Entry;
  }

  class Crc32Checksum {
    var state: bv32
    const table: array<bv32>

    ghost predicate TableReady()
      reads table
    {
      TableBelow(table[..], 256)
    }

    lemma Lookup(c: bv32)
      requires TableReady()
      ensures table.Length == 256 && table[Index(c)] == Entry(c)
    {
      WholeTable(table[..], c);
    }

    constructor ()
      ensures TableReady() && state == INITIAL && fresh(table)
    {
      table := new bv32[256];
      new;
      var i: bv32 := 0;
      while i < 256
        invariant i <= 256
        invariant TableBelow(table[..], i)
        decreases 256 - i
      {
        hide *;
        var c := TableEntry(i);
        TableGrows(table[..], i);
        table[Index(i)] := c;
        i := i + 1;
      }
      Reset();
    }

    /** The generator's inner loop. */
    static method TableEntry(i: bv32) returns (c: bv32)
      requires i < 256
      ensures c == Entry(i)
    {
      LowOfByte(i);
      c := i;
      var k := 0;
      while k < 8
        invariant 0 <= k <= 8
        invariant Steps(c, 8 - k) == Steps(i, 8)
      {
        c := if c & 1 != 0 then POLY ^ (c >> 1) else c >> 1;
        k := k + 1;
      }
    }

    method Reset()
      modifies this`state
      ensures state == INITIAL
    {
      state := INITIAL;
    }

    method Update(data: seq<bv8>)
      requires TableReady()
      modifies this
      ensures state == FeedBits(old(state), BitsOf(data))
    {
      hide *;
      var crc := state;
      var i := 0;
      assert data[..0] == [];
      FeedNothing(crc);
      while i < |data|
        invariant 0 <= i <= |data|
        invariant crc == FeedBits(old(state), BitsOf(data[..i]))
      {
        ghost var done := data[..i];
        TableStep(crc, data[i]);
        OneMoreByte(old(state), done, data[i]);
        assert data[..i + 1] == done + [data[i]];
        Lookup(Xor(crc, Wide(data[i])));
        crc := Xor(table[Index(Xor(crc, Wide(data[i])))], DropByte(crc));
        i := i + 1;
      }
      assert data[..i] == data;
      state := crc;
    }

    method Finalize() returns (digest: seq<bv8>)
      ensures digest == BigEndian(Xor(state, INITIAL))
    {
      var result := state ^ 0xFFFF_FFFF;
      digest := [((result >> 24) & 0xFF) as bv8, ((result >> 16) & 0xFF) as bv8,
                 ((result >> 8) & 0xFF) as bv8, (result & 0xFF) as bv8];
    }
  }

  /** A fresh engine, one update, one digest: the checksum of the data. */
  method Compute(data: seq<bv8>) returns (crc: bv32)
    ensures crc == Checksum(data)
  {
    var engine := new Crc32Checksum();
    engine.Update(data);
    var digest := engine.Finalize();
    DigestReassembles(Checksum(data));
    crc := ((digest[0] as bv32) << 24) | ((digest[1] as bv32) << 16) | ((digest[2] as bv32) << 8) | (digest[3] as bv32);
  }
}
