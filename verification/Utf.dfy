/** UTF-8 and UTF-16: what is accepted is exactly what encoding code points can produce. */
module Utf {

  import opened Results

  type Byte = b: int | 0 <= b < 256

  // ---------------------------------------------------------------- encoding

  /** Unicode scalar values: code points that are not surrogates. */
  type Scalar = cp: int | 0 <= cp < 0xD800 || 0xE000 <= cp < 0x11_0000

  /** The widest value four bytes can carry; beyond Unicode, but the search decoder yields it. */
  type CodePoint = cp: int | 0 <= cp < 0x20_0000

  /** The low six bits, what is above them, and the two put together again. */
  function Low(x: nat): (r: int)
    ensures 0 <= r < 0x40
  {
    x % 0x40
  }

  function High(x: nat): (r: nat) { x / 0x40 }

  function Extended(high: int, low: int): int { high * 0x40 + low }

  lemma HighAndLow(high: nat, low: nat)
    requires low < 0x40
    ensures High(Extended(high, low)) == high && Low(Extended(high, low)) == low
  {
  }

  lemma PutTogether(x: nat)
    ensures x == Extended(High(x), Low(x))
  {
  }

  lemma HighBelow(x: nat, bound: nat)
    requires x < bound * 0x40
    ensures High(x) < bound
  {
  }

  /** One code point as UTF-8 bytes. */
  function Utf8(cp: CodePoint): (r: seq<Byte>) {
    if cp < 0x80 then [cp]
    else if cp < 0x800 then
      HighBelow(cp, 0x20);
      [0xC0 + High(cp), 0x80 + Low(cp)]
    else if cp < 0x1_0000 then
      HighBelow(cp, 0x400); HighBelow(High(cp), 0x10);
      [0xE0 + High(High(cp)), 0x80 + Low(High(cp)), 0x80 + Low(cp)]
    else
      HighBelow(cp, 0x8000); HighBelow(High(cp), 0x200); HighBelow(High(High(cp)), 8);
      [0xF0 + High(High(High(cp))), 0x80 + Low(High(High(cp))), 0x80 + Low(High(cp)), 0x80 + Low(cp)]
  }

  /** The bytes as numbers (section 3 of RFC 3629, with the fourth form in full). */
  lemma Utf8Is(cp: CodePoint)
    ensures var r := Utf8(cp);
            if cp <= 0x7F then |r| == 1 && r[0] == cp
            else if cp <= 0x7FF then |r| == 2 && r[0] == 0xC0 + cp / 64 && r[1] == 0x80 + cp % 64
            else if cp <= 0xFFFF then |r| == 3 && r[0] == 0xE0 + cp / 4096 && r[1] == 0x80 + cp / 64 % 64 && r[2] == 0x80 + cp % 64
            else |r| == 4 && r[0] == 0xF0 + cp / 262144 && r[1] == 0x80 + cp / 4096 % 64 && r[2] == 0x80 + cp / 64 % 64
                 && r[3] == 0x80 + cp % 64
  {
    assert cp / 64 / 64 == cp / 4096 && cp / 4096 / 64 == cp / 262144;
  }

  function Utf8All(cps: seq<CodePoint>): seq<Byte> {
    if cps == [] then [] else Utf8(cps[0]) + Utf8All(cps[1..])
  }

  /** One scalar value as big-endian UTF-16 bytes. */
  function Utf16(cp: Scalar): seq<Byte> {
    if cp < 0x1_0000 then Unit(cp) else Unit(HighSurrogate(cp)) + Unit(LowSurrogate(cp))
  }

  function HighSurrogate(cp: Scalar): (u: int)
    requires cp >= 0x1_0000
    ensures 0xD800 <= u < 0xDC00
  {
    0xD800 + (cp - 0x1_0000) / 0x400
  }

  function LowSurrogate(cp: Scalar): (u: int)
    requires cp >= 0x1_0000
    ensures 0xDC00 <= u < 0xE000
  {
    0xDC00 + (cp - 0x1_0000) % 0x400
  }

  function Paired(high: int, low: int): Scalar
    requires 0xD800 <= high < 0xDC00 && 0xDC00 <= low < 0xE000
  {
    0x1_0000 + (high - 0xD800) * 0x400 + (low - 0xDC00)
  }

  lemma PairSplits(high: int, low: int)
    requires 0xD800 <= high < 0xDC00 && 0xDC00 <= low < 0xE000
    ensures var cp := Paired(high, low); cp >= 0x1_0000 && HighSurrogate(cp) == high && LowSurrogate(cp) == low
  {
  }

  lemma SurrogatesPair(cp: Scalar)
    requires cp >= 0x1_0000
    ensures Paired(HighSurrogate(cp), LowSurrogate(cp)) == cp
  {
  }

  function Unit(u: int): seq<Byte>
    requires 0 <= u < 0x10000
  {
    [u / 0x100, u % 0x100]
  }

  /** The bytes as numbers (section 2.1 of RFC 2781). */
  lemma Utf16Is(cp: Scalar)
    ensures var r, u := Utf16(cp), cp - 0x1_0000;
            if cp <= 0xFFFF then |r| == 2 && r[0] == cp / 256 && r[1] == cp % 256
            else |r| == 4 && r[0] == 0xD8 + u / 0x4_0000 && r[1] == u / 0x400 % 256 && r[2] == 0xDC + u / 256 % 4 && r[3] == u % 256
  {
    if cp > 0xFFFF {
      var u := cp - 0x1_0000;
      assert u / 0x400 / 0x100 == u / 0x4_0000;
      assert (0xD800 + u / 0x400) / 0x100 == 0xD8 + u / 0x400 / 0x100 && (0xD800 + u / 0x400) % 0x100 == u / 0x400 % 0x100;
      LowHalf(u);
    }
  }

  lemma LowHalf(u: nat)
    ensures (0xDC00 + u % 0x400) / 0x100 == 0xDC + u / 0x100 % 4 && (0xDC00 + u % 0x400) % 0x100 == u % 0x100
  {
    var q, b, low := u / 0x400, u / 0x100 % 4, u % 0x100;
    assert u / 0x100 == 4 * q + b;
    assert u == 0x400 * q + 0x100 * b + low;
    assert u % 0x400 == 0x100 * b + low;
  }

  function Utf16All(cps: seq<Scalar>): seq<Byte> {
    if cps == [] then [] else Utf16(cps[0]) + Utf16All(cps[1..])
  }

  lemma {:induction false} Utf8AllConcat(a: seq<CodePoint>, b: seq<CodePoint>)
    ensures Utf8All(a + b) == Utf8All(a) + Utf8All(b)
  {
    if a == [] {
      assert a + b == b;
    } else {
      assert (a + b)[0] == a[0] && (a + b)[1..] == a[1..] + b;
      Utf8AllConcat(a[1..], b);
    }
  }

  // ---------------------------------------------------------------- decoding, as a specification

  predicate Continues(b: Byte) { 0x80 <= b < 0xC0 }

  /** How many bytes at the front encode one scalar value; 0 if none do. */
  function Front(s: seq<Byte>): nat {
    if s == [] then 0
    else if s[0] < 0x80 then 1
    else if 0xC2 <= s[0] < 0xE0 then if 2 <= |s| && Continues(s[1]) then 2 else 0
    else if 0xE0 <= s[0] < 0xF0 then
      if 3 <= |s| && Continues(s[1]) && Continues(s[2])
         && (s[0] == 0xE0 ==> s[1] >= 0xA0) && (s[0] == 0xED ==> s[1] < 0xA0) then 3 else 0
    else if 0xF0 <= s[0] < 0xF5 then
      if 4 <= |s| && Continues(s[1]) && Continues(s[2]) && Continues(s[3])
         && (s[0] == 0xF0 ==> s[1] >= 0x90) && (s[0] == 0xF4 ==> s[1] < 0x90) then 4 else 0
    else 0
  }

  function FrontScalar(s: seq<Byte>): (cp: Scalar)
    requires Front(s) > 0
  {
    var n := Front(s);
    if n == 1 then s[0]
    else if n == 2 then Extended(s[0] - 0xC0, s[1] - 0x80)
    else if n == 3 then Extended(Extended(s[0] - 0xE0, s[1] - 0x80), s[2] - 0x80)
    else Extended(Extended(Extended(s[0] - 0xF0, s[1] - 0x80), s[2] - 0x80), s[3] - 0x80)
  }

  lemma Encoded2(a: nat, b: nat)
    requires 2 <= a < 0x20 && b < 0x40
    ensures 0x80 <= Extended(a, b) < 0x800 && Utf8(Extended(a, b)) == [0xC0 + a, 0x80 + b]
  {
    HighAndLow(a, b);
    hide High, Low;
  }

  lemma Encoded3(a: nat, b: nat, c: nat)
    requires a < 0x10 && b < 0x40 && c < 0x40 && Extended(a, b) >= 0x20
    ensures 0x800 <= Extended(Extended(a, b), c) < 0x1_0000
    ensures Utf8(Extended(Extended(a, b), c)) == [0xE0 + a, 0x80 + b, 0x80 + c]
  {
    HighAndLow(a, b);
    HighAndLow(Extended(a, b), c);
    hide High, Low;
  }

  lemma Encoded4(a: nat, b: nat, c: nat, d: nat)
    requires a < 8 && b < 0x40 && c < 0x40 && d < 0x40 && Extended(a, b) >= 0x10
    ensures 0x1_0000 <= Extended(Extended(Extended(a, b), c), d) < 0x20_0000
    ensures Utf8(Extended(Extended(Extended(a, b), c), d)) == [0xF0 + a, 0x80 + b, 0x80 + c, 0x80 + d]
  {
    HighAndLow(a, b);
    HighAndLow(Extended(a, b), c);
    HighAndLow(Extended(Extended(a, b), c), d);
    hide High, Low;
  }

  /** What is accepted at the front is the encoding of the scalar it yields. */
  lemma FrontIsEncoded(s: seq<Byte>)
    requires Front(s) > 0
    ensures Front(s) <= |s| && s[..Front(s)] == Utf8(FrontScalar(s))
  {
    hide Utf8, High, Low;
    var n := Front(s);
    if n == 1 {
      Encoded1(s[0]);
    } else if n == 2 {
      Encoded2(s[0] - 0xC0, s[1] - 0x80);
    } else if n == 3 {
      Encoded3(s[0] - 0xE0, s[1] - 0x80, s[2] - 0x80);
    } else {
      Encoded4(s[0] - 0xF0, s[1] - 0x80, s[2] - 0x80, s[3] - 0x80);
    }
  }

  lemma Encoded1(a: nat)
    requires a < 0x80
    ensures Utf8(a) == [a]
  {
  }

  /** Every encoded scalar is accepted, whatever follows it. */
  lemma EncodedIsFront(cp: Scalar, rest: seq<Byte>)
    ensures Front(Utf8(cp) + rest) == |Utf8(cp)| && FrontScalar(Utf8(cp) + rest) == cp
  {
    PutTogether(cp);
    PutTogether(High(cp));
    PutTogether(High(High(cp)));
    var s := Utf8(cp) + rest;
    if 0x800 <= cp {
      assert s[1] == Utf8(cp)[1] && s[2] == Utf8(cp)[2];
    }
    hide High, Low;
  }

  /** The scalar values that UTF-8 bytes encode, if they are well-formed. */
  function Scalars8(s: seq<Byte>): Option<seq<Scalar>> {
    if s == [] then Some([])
    else if Front(s) == 0 || Front(s) > |s| then None
    else
      var rest := Scalars8(s[Front(s)..]);
      if rest.None? then None else Some([FrontScalar(s)] + rest.value)
  }

  predicate IsUtf8(s: seq<Byte>) { Scalars8(s).Some? }

  /** Well-formed bytes are the encoding of the scalars they yield. */
  lemma {:induction false} Utf8Decodes(s: seq<Byte>)
    requires IsUtf8(s)
    ensures Utf8All(Scalars8(s).value) == s
  {
    hide Utf8, Front, FrontScalar;
    if s != [] {
      FrontIsEncoded(s);
      Utf8Decodes(s[Front(s)..]);
      var rest := Scalars8(s[Front(s)..]).value;
      assert ([FrontScalar(s)] + rest)[1..] == rest;
      assert s == s[..Front(s)] + s[Front(s)..];
    }
  }

  /** Encoded scalars are well-formed, and are read back. */
  lemma {:induction false} Utf8RoundTrip(cps: seq<Scalar>)
    ensures Scalars8(Utf8All(cps)) == Some(cps)
  {
    if cps != [] {
      var rest := Utf8All(cps[1..]);
      EncodedIsFront(cps[0], rest);
      Utf8RoundTrip(cps[1..]);
      assert (Utf8(cps[0]) + rest)[|Utf8(cps[0])|..] == rest;
      assert cps == [cps[0]] + cps[1..];
    }
  }

  function UnitAt(s: seq<Byte>, i: nat): int
    requires 2 * i + 1 < |s|
  {
    UnitOf(s[2 * i], s[2 * i + 1])
  }

  function UnitOf(high: int, low: int): int { high * 0x100 + low }

  lemma UnitBytes(a: Byte, b: Byte)
    ensures 0 <= UnitOf(a, b) < 0x1_0000 && Unit(UnitOf(a, b)) == [a, b]
  {
  }

  lemma UnitValue(u: int)
    requires 0 <= u < 0x1_0000
    ensures UnitOf(Unit(u)[0], Unit(u)[1]) == u
  {
  }

  predicate IsHigh(u: int) { 0xD800 <= u < 0xDC00 }
  predicate IsLow(u: int) { 0xDC00 <= u < 0xE000 }

  /** The scalar values that big-endian UTF-16 bytes encode, if they are well-formed. */
  function Scalars16(s: seq<Byte>): Option<seq<Scalar>> {
    if s == [] then Some([])
    else if |s| == 1 then None
    else
      var u := UnitAt(s, 0);
      if IsHigh(u) then
        if |s| < 4 || !IsLow(UnitAt(s, 1)) then None
        else
          var rest := Scalars16(s[4..]);
          if rest.None? then None else Some([Paired(u, UnitAt(s, 1))] + rest.value)
      else if IsLow(u) then None
      else
        var rest := Scalars16(s[2..]);
        if rest.None? then None else Some([u] + rest.value)
  }

  lemma {:induction false} Utf16Decodes(s: seq<Byte>)
    requires Scalars16(s).Some?
    ensures Utf16All(Scalars16(s).value) == s
  {
    hide Unit, UnitOf, Paired, HighSurrogate, LowSurrogate;
    if s != [] {
      UnitBytes(s[0], s[1]);
      var u := UnitAt(s, 0);
      var cps := Scalars16(s).value;
      if IsHigh(u) {
        UnitBytes(s[2], s[3]);
        PairSplits(u, UnitAt(s, 1));
        Utf16Decodes(s[4..]);
        assert cps[1..] == Scalars16(s[4..]).value;
        assert s == [s[0], s[1]] + [s[2], s[3]] + s[4..];
      } else {
        Utf16Decodes(s[2..]);
        assert cps[1..] == Scalars16(s[2..]).value;
        assert s == [s[0], s[1]] + s[2..];
      }
    }
  }

  lemma {:induction false} Utf16RoundTrip(cps: seq<Scalar>)
    ensures Scalars16(Utf16All(cps)) == Some(cps)
  {
    if cps != [] {
      var cp, rest := cps[0], Utf16All(cps[1..]);
      Utf16RoundTrip(cps[1..]);
      assert cps == [cp] + cps[1..];
      var s := Utf16(cp) + rest;
      if cp < 0x1_0000 {
        UnitValue(cp);
        assert s[2..] == rest;
      } else {
        UnitValue(HighSurrogate(cp));
        UnitValue(LowSurrogate(cp));
        SurrogatesPair(cp);
        assert s[4..] == rest;
      }
      hide UnitOf, Paired, HighSurrogate, LowSurrogate;
    }
  }

  // ---------------------------------------------------------------- the decoders

  lemma Resume(data: seq<Byte>, i: nat, n: nat)
    requires i < |data| && n == Front(data[i..]) && 0 < n && i + n <= |data|
    ensures IsUtf8(data[i..]) == IsUtf8(data[i + n..])
  {
    assert data[i..][n..] == data[i + n..];
  }

  /** Well-formed is exactly what encoding a sequence of scalar values can produce. */
  lemma IsUtf8Iff(data: seq<Byte>)
    ensures IsUtf8(data) <==> exists cps: seq<Scalar> :: Utf8All(cps) == data
  {
    if IsUtf8(data) {
      Utf8Decodes(data);
    }
    forall cps: seq<Scalar> | Utf8All(cps) == data ensures IsUtf8(data) {
      Utf8RoundTrip(cps);
    }
  }

  method IsValidUtf8(data: seq<Byte>) returns (ok: bool)
    ensures ok == IsUtf8(data)
  {
    hide Scalars8;
    var i := 0;
    assert data[0..] == data;
    while i < |data|
      invariant i <= |data|
      invariant IsUtf8(data) == IsUtf8(data[i..])
    {
      var b := data[i];
      if Front(data[i..]) == 0 {
        Rejected(data[i..]);
      } else {
        Resume(data, i, Front(data[i..]));
      }
      if b < 0x80 {
        i := i + 1;
      } else if 0xC0 <= b < 0xE0 {
        if i + 1 >= |data| || !Continues(data[i + 1]) { return false; }
        if b < 0xC2 { return false; }
        i := i + 2;
      } else if 0xE0 <= b < 0xF0 {
        if i + 2 >= |data| { return false; }
        if !Continues(data[i + 1]) || !Continues(data[i + 2]) { return false; }
        if b == 0xE0 && data[i + 1] < 0xA0 { return false; }
        if b == 0xED && data[i + 1] >= 0xA0 { return false; }
        i := i + 3;
      } else if 0xF0 <= b < 0xF8 {
        if i + 3 >= |data| { return false; }
        if !Continues(data[i + 1]) || !Continues(data[i + 2]) || !Continues(data[i + 3]) { return false; }
        if b == 0xF0 && data[i + 1] < 0x90 { return false; }
        if b > 0xF4 { return false; }
        if b == 0xF4 && data[i + 1] >= 0x90 { return false; }
        i := i + 4;
      } else {
        return false;
      }
    }
    Accepted(data[i..]);
    return true;
  }

  lemma Rejected(s: seq<Byte>)
    requires s != [] && Front(s) == 0
    ensures !IsUtf8(s)
  {
  }

  lemma Accepted(s: seq<Byte>)
    requires s == []
    ensures IsUtf8(s)
  {
  }

  /** The UTF-8 of what big-endian UTF-16 bytes encode. */
  function Recoded(s: seq<Byte>): Option<seq<Byte>> {
    var cps := Scalars16(s);
    if cps.None? then None else Some(Utf8All(cps.value))
  }

  function After(front: seq<Byte>, r: Option<seq<Byte>>): Option<seq<Byte>> {
    if r.None? then None else Some(front + r.value)
  }

  lemma RecodePair(s: seq<Byte>)
    requires |s| >= 2 && IsHigh(UnitAt(s, 0))
    ensures |s| >= 4 && IsLow(UnitAt(s, 1)) ==>
              Recoded(s) == After(Utf8(Paired(UnitAt(s, 0), UnitAt(s, 1))), Recoded(s[4..]))
    ensures |s| < 4 || !IsLow(UnitAt(s, 1)) ==> Recoded(s) == None
  {
    hide Utf8, Paired, UnitOf;
    if Scalars16(s).Some? {
      assert Scalars16(s).value[1..] == Scalars16(s[4..]).value;
    }
  }

  lemma RecodeUnit(s: seq<Byte>)
    requires |s| >= 2 && !IsHigh(UnitAt(s, 0))
    ensures IsLow(UnitAt(s, 0)) ==> Recoded(s) == None
    ensures 0 <= UnitAt(s, 0) < 0x1_0000
    ensures !IsLow(UnitAt(s, 0)) ==> Recoded(s) == After(Utf8(UnitAt(s, 0)), Recoded(s[2..]))
  {
    UnitBytes(s[0], s[1]);
    hide Utf8, UnitOf;
    if Scalars16(s).Some? {
      assert Scalars16(s).value[1..] == Scalars16(s[2..]).value;
    }
  }

  lemma {:induction false} AfterAfter(a: seq<Byte>, b: seq<Byte>, r: Option<seq<Byte>>)
    ensures After(a, After(b, r)) == After(a + b, r)
  {
    if r.Some? {
      assert a + (b + r.value) == (a + b) + r.value;
    }
  }

  /** Succeeds exactly on well-formed big-endian UTF-16, and then yields the same scalars as UTF-8. */
  method DecodeUtf16be(data: seq<Byte>) returns (r: Option<seq<Byte>>)
    ensures r == Recoded(data)
  {
    if |data| % 2 != 0 {
      OddLength(data);
      return None;
    }
    hide Scalars16, Utf8, Utf8All, UnitOf, Recoded, Paired;
    var out: seq<Byte> := [];
    var units := |data| / 2;
    var i := 0;
    assert data[0..] == data;
    AfterNothing(Recoded(data));
    while i < units
      invariant 0 <= i <= units
      invariant Recoded(data) == After(out, Recoded(data[2 * i..]))
    {
      var u := UnitAt(data, i);
      ghost var rest := data[2 * i..];
      assert UnitAt(rest, 0) == u;
      if IsHigh(u) {
        RecodePair(rest);
        if i + 1 >= units { return None; }
        var low := UnitAt(data, i + 1);
        assert UnitAt(rest, 1) == low;
        if !IsLow(low) { return None; }
        assert rest[4..] == data[2 * (i + 2)..];
        AfterAfter(out, Utf8(Paired(u, low)), Recoded(rest[4..]));
        out := out + Utf8(Paired(u, low));
        i := i + 2;
      } else {
        RecodeUnit(rest);
        if IsLow(u) {
          return None;
        }
        assert rest[2..] == data[2 * (i + 1)..];
        AfterAfter(out, Utf8(u), Recoded(rest[2..]));
        out := out + Utf8(u);
        i := i + 1;
      }
    }
    RecodedNothing(data[2 * i..]);
    assert out + [] == out;
    return Some(out);
  }

  lemma AfterNothing(r: Option<seq<Byte>>)
    ensures After([], r) == r
  {
    if r.Some? {
      assert [] + r.value == r.value;
    }
  }

  lemma RecodedNothing(s: seq<Byte>)
    requires s == []
    ensures Recoded(s) == Some([])
  {
  }

  /** What can be decoded is exactly what encoding scalar values as UTF-16 produces. */
  lemma Utf16Iff(data: seq<Byte>)
    ensures Recoded(data).Some? <==> exists cps: seq<Scalar> :: Utf16All(cps) == data
    ensures forall cps: seq<Scalar> | Utf16All(cps) == data :: Recoded(data) == Some(Utf8All(cps))
  {
    if Recoded(data).Some? {
      Utf16Decodes(data);
    }
    forall cps: seq<Scalar> | Utf16All(cps) == data ensures Recoded(data) == Some(Utf8All(cps)) {
      Utf16RoundTrip(cps);
    }
  }

  lemma {:induction false} OddLength(s: seq<Byte>)
    requires |s| % 2 != 0
    ensures Scalars16(s).None?
  {
    if |s| >= 4 {
      OddLength(s[2..]);
      OddLength(s[4..]);
    }
  }

  /** No two names become the same: what decoding yields determines what was decoded. */
  lemma DecodingIsInjective(a: seq<Byte>, b: seq<Byte>)
    requires Recoded(a).Some? && Recoded(a) == Recoded(b)
    ensures a == b
  {
    Utf8RoundTrip(Scalars16(a).value);
    Utf8RoundTrip(Scalars16(b).value);
    Utf16Decodes(a);
    Utf16Decodes(b);
  }
}
