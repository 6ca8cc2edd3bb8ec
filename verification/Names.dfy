/** File names as UDF and Joliet store them. */
module Names {

  import opened Results
  import opened Utf

  datatype DecodedName = DecodedName(utf8: seq<Byte>, encoding: string, confidence: int)

  // ---------------------------------------------------------------- what a name should be

  /** The code units of big-endian UTF-16 bytes that are not surrogates. */
  function PlainUnits(s: seq<Byte>): seq<Scalar> {
    if |s| < 2 then []
    else
      UnitBytes(s[0], s[1]);
      var u := UnitAt(s, 0);
      (if IsHigh(u) || IsLow(u) then [] else [u]) + PlainUnits(s[2..])
  }

  type CodeUnit = u: int | 0 <= u < 0x1_0000

  /** Code units as bytes, whether or not they make sense. */
  function UnitsAsBytes(us: seq<CodeUnit>): seq<Byte> {
    if us == [] then [] else [us[0] / 256, us[0] % 256] + UnitsAsBytes(us[1..])
  }

  function WithoutSurrogates(us: seq<CodeUnit>): seq<Scalar> {
    if us == [] then []
    else
      var rest := WithoutSurrogates(us[1..]);
      if 0xD800 <= us[0] <= 0xDFFF then rest else [us[0]] + rest
  }

  /** Of any code units, the surrogates are dropped and the others stay, in order; an odd byte at the end goes. */
  lemma {:induction false} PlainUnitsAre(us: seq<CodeUnit>, odd: seq<Byte>)
    requires |odd| < 2
    ensures PlainUnits(UnitsAsBytes(us) + odd) == WithoutSurrogates(us)
    decreases |us|
  {
    var s := UnitsAsBytes(us) + odd;
    if us != [] {
      assert UnitAt(s, 0) == us[0] / 256 * 256 + us[0] % 256 == us[0];
      assert s[2..] == UnitsAsBytes(us[1..]) + odd;
      PlainUnitsAre(us[1..], odd);
    }
  }

  /** Well-formed UTF-16 is decoded; anything else keeps its plain units. */
  function Name16(s: seq<Byte>): seq<Byte> {
    if Recoded(s).Some? then Recoded(s).value else Utf8All(PlainUnits(s))
  }

  /** Valid UTF-8 stays; anything else is read as Latin-1, one code point a byte. */
  function HeuristicName(s: seq<Byte>): seq<Byte> {
    if IsUtf8(s) then s else Utf8All(s)
  }

  /** Whether the byte after the compression id is a count of characters of the given width. */
  predicate Counted(data: seq<Byte>, width: nat) {
    |data| >= 2 && data[1] > 0 && data[1] * width <= |data| - 2
  }

  function Chars(data: seq<Byte>, width: nat): seq<Byte>
    requires data != [] && width > 0
  {
    if Counted(data, width) then data[2..2 + data[1] * width] else data[1..|data| - (|data| - 1) % width]
  }

  function UdfName(data: seq<Byte>): seq<Byte> {
    if data == [] then []
    else if data[0] == 16 then Name16(Chars(data, 2))
    else if data[0] == 8 then Utf8All(Chars(data, 1))
    else if data[0] < 8 then Utf8All(data[1..])
    else HeuristicName(data[1..])
  }

  // ---------------------------------------------------------------- always valid UTF-8

  lemma ScalarsEncode(cps: seq<Scalar>)
    ensures IsUtf8(Utf8All(cps))
  {
    Utf8RoundTrip(cps);
  }

  lemma Name16IsUtf8(s: seq<Byte>)
    ensures IsUtf8(Name16(s))
  {
    if Recoded(s).Some? {
      ScalarsEncode(Scalars16(s).value);
    } else {
      ScalarsEncode(PlainUnits(s));
    }
  }

  /** Whatever bytes a UDF name consists of, what is catalogued is valid UTF-8. */
  lemma UdfNameIsUtf8(data: seq<Byte>)
    ensures IsUtf8(UdfName(data))
  {
    if data != [] {
      if data[0] == 16 {
        Name16IsUtf8(Chars(data, 2));
      } else if data[0] == 8 {
        ScalarsEncode(Chars(data, 1));
      } else {
        ScalarsEncode(data[1..]);
      }
    }
  }

  // ---------------------------------------------------------------- the decoders

  method Latin1(data: seq<Byte>) returns (out: seq<Byte>)
    ensures out == Utf8All(data)
  {
    hide Utf8;
    out := [];
    var i := 0;
    while i < |data|
      invariant 0 <= i <= |data|
      invariant out == Utf8All(data[..i])
    {
      OneMore(data, i);
      out := out + Utf8(data[i]);
      i := i + 1;
    }
    assert data[..i] == data;
  }

  lemma OneMore(cps: seq<CodePoint>, i: nat)
    requires i < |cps|
    ensures Utf8All(cps[..i + 1]) == Utf8All(cps[..i]) + Utf8(cps[i])
  {
    hide Utf8;
    assert cps[..i + 1] == cps[..i] + [cps[i]];
    Utf8AllConcat(cps[..i], [cps[i]]);
    assert Utf8All([cps[i]]) == Utf8(cps[i]) + Utf8All([]);
  }

  /** Decodes code units one by one and drops every surrogate. */
  method Salvage(data: seq<Byte>) returns (out: seq<Byte>)
    ensures out == Utf8All(PlainUnits(data))
  {
    hide Utf8, UnitOf;
    out := [];
    var units := |data| / 2;
    var i := 0;
    assert data[0..] == data;
    while i < units
      invariant 0 <= i <= units
      invariant Utf8All(PlainUnits(data)) == out + Utf8All(PlainUnits(data[2 * i..]))
    {
      var u := UnitAt(data, i);
      ghost var rest := data[2 * i..];
      assert UnitAt(rest, 0) == u && rest[2..] == data[2 * (i + 1)..];
      i := i + 1;
      if IsHigh(u) || IsLow(u) {
        assert PlainUnits(rest) == PlainUnits(rest[2..]);
        continue;
      }
      UnitBytes(rest[0], rest[1]);
      assert PlainUnits(rest)[1..] == PlainUnits(rest[2..]);
      out := out + Utf8(u);
    }
  }

  method DecodeUdfName(data: seq<Byte>) returns (r: DecodedName)
    ensures r.utf8 == UdfName(data) && IsUtf8(r.utf8)
    ensures data == [] ==> r.utf8 == [] && r.confidence == 0
    ensures data != [] && data[0] == 8 ==> r.confidence == 100
    ensures data != [] && data[0] == 16 ==> r.confidence == if Recoded(Chars(data, 2)).Some? then 100 else 60
    ensures data != [] && data[0] < 8 ==> r.utf8 == Utf8All(data[1..]) && r.confidence == 70
    ensures data != [] && data[0] > 8 && data[0] != 16 ==>
              && r.utf8 == (if IsUtf8(data[1..]) then data[1..] else Utf8All(data[1..]))
              && r.confidence == if |data| > 1 && IsUtf8(data[1..]) then 80 else 40
  {
    hide Recoded, IsUtf8, Utf8All, PlainUnits;
    UdfNameIsUtf8(data);
    if |data| == 0 {
      NothingEncoded();
      return DecodedName([], "compatibility", 0);
    }
    var id := data[0];
    if id == 16 {
      var specFormat := |data| >= 2 && data[1] > 0 && data[1] * 2 <= |data| - 2;
      var charStart := if specFormat then 2 else 1;
      var byteLength: int;
      if specFormat {
        var count: int := data[1];
        byteLength := count * 2;
      } else {
        byteLength := |data| - 1;
        if byteLength % 2 != 0 {
          byteLength := byteLength - 1;
        }
      }
      var chars := data[charStart..charStart + byteLength];
      var utf8 := DecodeUtf16be(chars);
      if utf8.Some? {
        return DecodedName(utf8.value, "udf-cs0", 100);
      }
      var salvaged := Salvage(chars);
      return DecodedName(salvaged, "compatibility", 60);
    }
    if id == 8 {
      var specFormat := |data| >= 2 && data[1] > 0 && data[1] <= |data| - 2;
      var charStart := if specFormat then 2 else 1;
      var byteLength: int := if specFormat then data[1] else |data| - 1;
      var out := Latin1(data[charStart..charStart + byteLength]);
      return DecodedName(out, "udf-cs0", 100);
    }
    if id < 8 {
      var out := Latin1(data[1..]);
      return DecodedName(out, "compatibility", 70);
    }
    r := HeuristicDecodeName(data[1..]);
  }

  lemma NothingEncoded()
    ensures Utf8All([]) == [] && IsUtf8([])
  {
  }

  method HeuristicDecodeName(data: seq<Byte>) returns (r: DecodedName)
    ensures r.utf8 == HeuristicName(data) && IsUtf8(r.utf8)
    ensures r.confidence == if data != [] && IsUtf8(data) then 80 else 40
  {
    hide IsUtf8, Utf8All;
    ScalarsEncode(data);
    if |data| == 0 {
      NothingEncoded();
      return DecodedName([], "heuristic", 40);
    }
    var valid := IsValidUtf8(data);
    if valid {
      return DecodedName(data, "heuristic", 80);
    }
    var out := Latin1(data);
    return DecodedName(out, "heuristic", 40);
  }

  // ---------------------------------------------------------------- round trips

  lemma CountedChars(id: Byte, count: Byte, width: nat, chars: seq<Byte>, padding: seq<Byte>)
    requires 0 < count && 0 < width && count * width == |chars|
    ensures Chars([id, count] + chars + padding, width) == chars
  {
    var data := [id, count] + chars + padding;
    assert data[1] == count && |data| == 2 + |chars| + |padding|;
    assert Counted(data, width);
    assert data[2..2 + |chars|] == chars;
  }

  /** A counted 16-bit name is read back, whatever follows it. */
  lemma Counted16RoundTrip(cps: seq<Scalar>, padding: seq<Byte>)
    requires 0 < |Utf16All(cps)| / 2 < 256
    ensures UdfName([16, |Utf16All(cps)| / 2] + Utf16All(cps) + padding) == Utf8All(cps)
  {
    hide Utf8All, Utf16All, Name16, Counted, Chars;
    var chars := Utf16All(cps);
    UnitsAreEven(cps);
    CountedChars(16, |chars| / 2, 2, chars, padding);
    Name16RoundTrip(cps);
  }

  /** A counted 8-bit name is read back as the same code points, whatever follows it. */
  lemma Counted8RoundTrip(chars: seq<Byte>, padding: seq<Byte>)
    requires 0 < |chars| < 256
    ensures UdfName([8, |chars|] + chars + padding) == Utf8All(chars)
  {
    hide Utf8All, Counted, Chars;
    CountedChars(8, |chars|, 1, chars, padding);
  }

  lemma {:induction false} UnitsAreEven(cps: seq<Scalar>)
    ensures |Utf16All(cps)| % 2 == 0 && 2 * |cps| <= |Utf16All(cps)|
  {
    if cps != [] {
      UnitsAreEven(cps[1..]);
    }
  }

  /** Names written without a count are misread exactly when their first byte could be one. */
  lemma Uncounted16IsReadIff(cps: seq<Scalar>)
    ensures UdfName([16] + Utf16All(cps)) == Utf8All(cps) <==>
            var chars := Utf16All(cps); chars == [] || chars[0] == 0 || 2 * (chars[0] as int) >= |chars|
  {
    hide Utf8All, Utf16All, Name16;
    var data := [16] + Utf16All(cps);
    UnitsAreEven(cps);
    var chars := Chars(data, 2);
    if !Counted(data, 2) {
      assert chars == Utf16All(cps);
      Name16RoundTrip(cps);
    } else {
      ShorterIsMisread(cps, chars);
    }
  }

  lemma Name16RoundTrip(cps: seq<Scalar>)
    ensures Name16(Utf16All(cps)) == Utf8All(cps)
  {
    Utf16RoundTrip(cps);
  }

  lemma ShorterIsMisread(cps: seq<Scalar>, chars: seq<Byte>)
    requires |chars| < |Utf16All(cps)|
    ensures Name16(chars) != Utf8All(cps)
  {
    hide Utf8All, Utf16, Scalars8, Scalars16;
    Utf8RoundTrip(cps);
    if Recoded(chars).Some? {
      Utf8RoundTrip(Scalars16(chars).value);
      Utf16Decodes(chars);
    } else {
      Utf8RoundTrip(PlainUnits(chars));
      PlainUnitsAreUnits(chars);
      if PlainUnits(chars) == cps {
        PlainUnitsEncode(cps);
      }
    }
  }

  lemma {:induction false} PlainUnitsAreUnits(s: seq<Byte>)
    ensures 2 * |PlainUnits(s)| <= |s| && forall i | 0 <= i < |PlainUnits(s)| :: PlainUnits(s)[i] < 0x1_0000
  {
    if |s| >= 2 {
      UnitBytes(s[0], s[1]);
      PlainUnitsAreUnits(s[2..]);
    }
  }

  lemma {:induction false} PlainUnitsEncode(cps: seq<Scalar>)
    requires forall i | 0 <= i < |cps| :: cps[i] < 0x1_0000
    ensures |Utf16All(cps)| == 2 * |cps|
  {
    if cps != [] {
      PlainUnitsEncode(cps[1..]);
    }
  }

  lemma Uncounted8IsReadIff(chars: seq<Byte>)
    ensures UdfName([8] + chars) == Utf8All(chars) <==> chars == [] || chars[0] == 0 || chars[0] >= |chars|
  {
    hide Utf8All, Scalars8;
    var data := [8] + chars;
    assert Counted(data, 1) <==> chars != [] && 0 < chars[0] < |chars|;
    if !Counted(data, 1) {
      assert Chars(data, 1) == chars;
    } else {
      Utf8RoundTrip(chars);
      Utf8RoundTrip(Chars(data, 1));
    }
  }

  // ---------------------------------------------------------------- Joliet

  const SEMICOLON: Scalar := 0x3B

  /** Where the version suffix of a file starts: the first semicolon, but never the last unit. */
  ghost predicate IsNameEnd(data: seq<Byte>, isDirectory: bool, n: nat) {
    && 2 * n <= |data|
    && (forall i: nat | i < n && i + 1 < |data| / 2 && !isDirectory :: UnitAt(data, i) != SEMICOLON)
    && (n == |data| / 2 || (!isDirectory && n + 1 < |data| / 2 && UnitAt(data, n) == SEMICOLON))
  }

  method DecodeJolietName(data: seq<Byte>, isDirectory: bool) returns (name: seq<Byte>)
    ensures IsUtf8(name)
    ensures exists n: nat :: IsNameEnd(data, isDirectory, n) && name == Name16(data[..2 * n])
  {
    hide Recoded, IsUtf8, Utf8All, PlainUnits;
    var nameUnits := |data| / 2;
    if !isDirectory {
      var i := 0;
      while i + 1 < |data| / 2
        invariant 0 <= i <= |data| / 2
        invariant forall k: nat | k < i :: UnitAt(data, k) != SEMICOLON
      {
        UnitBytes(data[2 * i], data[2 * i + 1]);
        if data[2 * i] == 0x00 && data[2 * i + 1] == 0x3B {
          nameUnits := i;
          break;
        }
        assert UnitAt(data, i) != SEMICOLON by { NotSemicolon(data[2 * i], data[2 * i + 1]); }
        i := i + 1;
      }
    }
    assert IsNameEnd(data, isDirectory, nameUnits);
    Name16IsUtf8(data[..2 * nameUnits]);
    var utf8 := DecodeUtf16be(data[..2 * nameUnits]);
    if utf8.Some? {
      return utf8.value;
    }
    name := Salvage(data[..2 * nameUnits]);
  }

  lemma NotSemicolon(a: Byte, b: Byte)
    requires a != 0x00 || b != 0x3B
    ensures UnitOf(a, b) != SEMICOLON
  {
  }

  /** The name ends at one place only, so the decoder's result is determined. */
  lemma NameEndIsUnique(data: seq<Byte>, isDirectory: bool, m: nat, n: nat)
    requires IsNameEnd(data, isDirectory, m) && IsNameEnd(data, isDirectory, n)
    ensures m == n
  {
  }

  lemma NoSemicolonInHead(cp: Scalar, rest: seq<Byte>, i: nat)
    requires cp != SEMICOLON && 2 * i < |Utf16(cp)|
    ensures UnitAt(Utf16(cp) + rest, i) != SEMICOLON
  {
    var u := if cp < 0x1_0000 then cp else if i == 0 then HighSurrogate(cp) else LowSurrogate(cp);
    UnitValue(u);
    hide HighSurrogate, LowSurrogate, UnitOf;
    assert (Utf16(cp) + rest)[2 * i..2 * i + 2] == Unit(u);
  }

  lemma {:induction false} NoSemicolonUnits(cps: seq<Scalar>, i: nat)
    requires SEMICOLON !in cps && 2 * i + 1 < |Utf16All(cps)|
    ensures UnitAt(Utf16All(cps), i) != SEMICOLON
  {
    if cps != [] {
      var head, rest := Utf16(cps[0]), Utf16All(cps[1..]);
      assert |head| == 2 || |head| == 4;
      hide Utf16, UnitOf;
      if 2 * i < |head| {
        NoSemicolonInHead(cps[0], rest, i);
      } else {
        NoSemicolonUnits(cps[1..], i - |head| / 2);
        assert UnitAt(head + rest, i) == UnitAt(rest, i - |head| / 2);
      }
    }
  }

  /** A directory's name has no version. */
  lemma DirectoryKeepsName(data: seq<Byte>, n: nat)
    requires IsNameEnd(data, true, n)
    ensures 2 * n <= |data| < 2 * n + 2
  {
  }

  /** A file name followed by a semicolon and at least one more unit loses exactly that suffix; a
      semicolon with nothing behind it stays in the name. */
  lemma VersionIsStripped(cps: seq<Scalar>, version: seq<Scalar>, n: nat)
    requires 0x3B !in cps
    requires IsNameEnd(Utf16All(cps) + [0x00, 0x3B] + Utf16All(version), false, n)
    ensures var data := Utf16All(cps) + [0x00, 0x3B] + Utf16All(version);
            Name16(data[..2 * n]) == if version != [] then Utf8All(cps) else Utf8All(cps + [0x3B])
  {
    assert Unit(SEMICOLON) == [0x00, 0x3B];
    hide Utf8All, Utf16All, Name16;
    var name, suffix := Utf16All(cps), Utf16All(version);
    var data := name + Unit(SEMICOLON) + suffix;
    UnitsAreEven(cps);
    UnitsAreEven(version);
    forall i: nat | i < |name| / 2 ensures UnitAt(data, i) != SEMICOLON {
      NoSemicolonUnits(cps, i);
      assert UnitAt(data, i) == UnitAt(name, i);
    }
    var end := if version != [] then |name| / 2 else |data| / 2;
    SemicolonAt(name, suffix);
    EmptyEncodes();
    assert IsNameEnd(data, false, end);
    NameEndIsUnique(data, false, end, n);
    if version != [] {
      assert data[..2 * n] == name;
      Name16RoundTrip(cps);
    } else {
      Utf16AllConcat(cps, [SEMICOLON]);
      assert data[..2 * n] == Utf16All(cps + [SEMICOLON]);
      Name16RoundTrip(cps + [SEMICOLON]);
    }
  }

  lemma EmptyEncodes()
    ensures Utf16All([]) == [] && Utf16All([SEMICOLON]) == Unit(SEMICOLON)
  {
    assert Utf16All([SEMICOLON]) == Utf16(SEMICOLON) + Utf16All([]);
  }

  lemma SemicolonAt(before: seq<Byte>, after: seq<Byte>)
    requires |before| % 2 == 0
    ensures UnitAt(before + Unit(SEMICOLON) + after, |before| / 2) == SEMICOLON
  {
    UnitValue(SEMICOLON);
  }

  lemma {:induction false} Utf16AllConcat(a: seq<Scalar>, b: seq<Scalar>)
    ensures Utf16All(a + b) == Utf16All(a) + Utf16All(b)
  {
    hide Utf16;
    if a == [] {
      assert a + b == b;
    } else {
      assert (a + b)[0] == a[0] && (a + b)[1..] == a[1..] + b;
      Utf16AllConcat(a[1..], b);
    }
  }
}
