/** Turning what a user types into a full-text match expression. */
module FtsQuery {

  import opened Results
  import opened Utf

  const REPLACEMENT: CodePoint := 0xFFFD
  const SPACE: Byte := 0x20
  const STAR: Byte := 0x2A

  // ---------------------------------------------------------------- lenient decoding

  /** A value extended by continuation bytes, unless one of them is none. */
  function Follow(value: int, bytes: seq<Byte>): Option<int>
    decreases bytes
  {
    if bytes == [] then Some(value)
    else if !Continues(bytes[0]) then None
    else Follow(Extended(value, bytes[0] - 0x80), bytes[1..])
  }

  /** What the first byte announces: its own bits and the length of the sequence; length 0 if it cannot
      start one or too few bytes follow. */
  function Lead(s: seq<Byte>): (int, nat)
    requires s != []
  {
    var b := s[0];
    if b < 0x80 then (b, 1)
    else if |s| >= 2 && 0xC0 <= b < 0xE0 then (b - 0xC0, 2)
    else if |s| >= 3 && 0xE0 <= b < 0xF0 then (b - 0xE0, 3)
    else if |s| >= 4 && 0xF0 <= b < 0xF8 then (b - 0xF0, 4)
    else (0, 0)
  }

  lemma {:induction false} FollowBound(value: nat, bytes: seq<Byte>, bound: nat)
    requires value < bound && |bytes| <= 3
    ensures var r := Follow(value, bytes);
            r.Some? ==> 0 <= r.value < bound * (if |bytes| == 0 then 1 else if |bytes| == 1 then 0x40 else if |bytes| == 2 then 0x1000 else 0x40000)
    decreases bytes
  {
    if bytes != [] && Continues(bytes[0]) {
      FollowBound(Extended(value, bytes[0] - 0x80), bytes[1..], bound * 0x40);
    }
  }

  /** The code point at the front and how many bytes it takes: a malformed sequence is one byte that
      reads as the replacement character. */
  function Next(s: seq<Byte>): (r: (CodePoint, nat))
    requires s != []
    ensures 1 <= r.1 <= |s|
  {
    var (value, need) := Lead(s);
    if need == 0 then (REPLACEMENT, 1)
    else
      FollowBound(value, s[1..need], if need == 1 then 0x80 else if need == 2 then 0x20 else if need == 3 then 0x10 else 8);
      var r := Follow(value, s[1..need]);
      if r.None? then (REPLACEMENT, 1) else (r.value, need)
  }

  function CodePoints(s: seq<Byte>): seq<CodePoint> {
    if s == [] then [] else [Next(s).0] + CodePoints(s[Next(s).1..])
  }

  lemma FollowOne(value: int, b: int)
    requires 0 <= b < 0x40
    ensures Follow(value, [0x80 + b]) == Some(Extended(value, b))
  {
    assert Follow(value, [0x80 + b]) == Follow(Extended(value, b), []);
  }

  lemma FollowMore(value: int, b: int, rest: seq<Byte>)
    requires 0 <= b < 0x40
    ensures Follow(value, [0x80 + b] + rest) == Follow(Extended(value, b), rest)
  {
    assert ([0x80 + b] + rest)[1..] == rest;
  }

  lemma NextOfTwo(a: nat, b: nat, rest: seq<Byte>)
    requires a < 0x20 && b < 0x40
    ensures Next([0xC0 + a, 0x80 + b] + rest) == (Extended(a, b), 2)
    ensures Extended(a, b) == 64 * a + b
  {
    FollowOne(a, b);
    hide Extended, Follow;
    assert ([0xC0 + a, 0x80 + b] + rest)[1..2] == [0x80 + b];
  }

  lemma NextOfThree(a: nat, b: nat, c: nat, rest: seq<Byte>)
    requires a < 0x10 && b < 0x40 && c < 0x40
    ensures Next([0xE0 + a, 0x80 + b, 0x80 + c] + rest) == (Extended(Extended(a, b), c), 3)
    ensures Extended(Extended(a, b), c) == 4096 * a + 64 * b + c
  {
    FollowOne(Extended(a, b), c);
    FollowMore(a, b, [0x80 + c]);
    hide Extended, Follow;
    assert ([0xE0 + a, 0x80 + b, 0x80 + c] + rest)[1..3] == [0x80 + b] + [0x80 + c];
  }

  lemma NextOfFour(a: nat, b: nat, c: nat, d: nat, rest: seq<Byte>)
    requires a < 8 && b < 0x40 && c < 0x40 && d < 0x40
    ensures Next([0xF0 + a, 0x80 + b, 0x80 + c, 0x80 + d] + rest) == (Extended(Extended(Extended(a, b), c), d), 4)
    ensures Extended(Extended(Extended(a, b), c), d) == 262144 * a + 4096 * b + 64 * c + d
  {
    FollowOne(Extended(Extended(a, b), c), d);
    FollowMore(Extended(a, b), c, [0x80 + d]);
    FollowMore(a, b, [0x80 + c] + [0x80 + d]);
    hide Extended, Follow;
    assert ([0xF0 + a, 0x80 + b, 0x80 + c, 0x80 + d] + rest)[1..4] == [0x80 + b] + ([0x80 + c] + [0x80 + d]);
  }

  /** Decoding undoes appending, for every value that four bytes can carry. */
  lemma NextOfAppended(cp: CodePoint, rest: seq<Byte>)
    ensures Next(Utf8(cp) + rest) == (cp, |Utf8(cp)|)
  {
    if cp < 0x80 {
      assert Follow(cp, (Utf8(cp) + rest)[1..1]) == Some(cp);
    } else if cp < 0x800 {
      NextOfAppendedTwo(cp, rest);
    } else if cp < 0x1_0000 {
      NextOfAppendedThree(cp, rest);
    } else {
      NextOfAppendedFour(cp, rest);
    }
  }

  lemma NextOfAppendedTwo(cp: CodePoint, rest: seq<Byte>)
    requires 0x80 <= cp < 0x800
    ensures Next(Utf8(cp) + rest) == (cp, |Utf8(cp)|)
  {
    hide Next, Low, Extended;
    HighBelow(cp, 0x20);
    NextOfTwo(High(cp), Low(cp), rest);
    PutTogether(cp);
    hide High;
  }

  lemma NextOfAppendedThree(cp: CodePoint, rest: seq<Byte>)
    requires 0x800 <= cp < 0x1_0000
    ensures Next(Utf8(cp) + rest) == (cp, |Utf8(cp)|)
  {
    hide Next, Low, Extended;
    HighBelow(cp, 0x400);
    HighBelow(High(cp), 0x10);
    NextOfThree(High(High(cp)), Low(High(cp)), Low(cp), rest);
    PutTogether(cp);
    PutTogether(High(cp));
    hide High;
  }

  lemma NextOfAppendedFour(cp: CodePoint, rest: seq<Byte>)
    requires 0x1_0000 <= cp
    ensures Next(Utf8(cp) + rest) == (cp, |Utf8(cp)|)
  {
    hide Next, Low, Extended;
    HighBelow(cp, 0x8000);
    HighBelow(High(cp), 0x200);
    HighBelow(High(High(cp)), 8);
    NextOfFour(High(High(High(cp))), Low(High(High(cp))), Low(High(cp)), Low(cp), rest);
    PutTogether(cp);
    PutTogether(High(cp));
    PutTogether(High(High(cp)));
    hide High;
  }

  /** The front of a sequence of two, three or four bytes, overlong ones among them. */
  predicate Starts(s: seq<Byte>, first: int, last: int, length: nat) {
    |s| >= length > 0 && first <= s[0] <= last && forall i | 1 <= i < length :: 0x80 <= s[i] <= 0xBF
  }

  /** Anything else but ASCII is one byte and reads as U+FFFD. */
  lemma OtherwiseReplaced(s: seq<Byte>)
    requires s != [] && s[0] > 0x7F
    requires !Starts(s, 0xC0, 0xDF, 2) && !Starts(s, 0xE0, 0xEF, 3) && !Starts(s, 0xF0, 0xF7, 4)
    ensures Next(s) == (0xFFFD, 1)
  {
    var (value, need) := Lead(s);
    if need > 0 {
      var i :| 1 <= i < need && !Continues(s[i]);
      FollowStops(value, s[1..need], i - 1);
    }
  }

  lemma {:induction false} FollowStops(value: int, bytes: seq<Byte>, i: nat)
    requires i < |bytes| && !Continues(bytes[i])
    ensures Follow(value, bytes) == None
    decreases i
  {
    hide Extended;
    if i > 0 && Continues(bytes[0]) {
      FollowStops(Extended(value, bytes[0] - 0x80), bytes[1..], i - 1);
    }
  }

  method DecodeUtf8Cp(s: seq<Byte>, pos: nat) returns (cp: CodePoint, next: nat)
    requires pos < |s|
    ensures (cp, next - pos) == Next(s[pos..])
  {
    var p := s[pos..];
    var remaining := |p|;
    var value: int, need: nat;
    if remaining >= 1 && p[0] < 0x80 {
      value, need := p[0], 1;
    } else if remaining >= 2 && 0xC0 <= p[0] < 0xE0 {
      value, need := p[0] - 0xC0, 2;
    } else if remaining >= 3 && 0xE0 <= p[0] < 0xF0 {
      value, need := p[0] - 0xE0, 3;
    } else if remaining >= 4 && 0xF0 <= p[0] < 0xF8 {
      value, need := p[0] - 0xF0, 4;
    } else {
      return REPLACEMENT, pos + 1;
    }
    var i := 1;
    while i < need
      invariant 1 <= i <= need <= |p|
      invariant Follow(Lead(p).0, p[1..need]) == Follow(value, p[i..need])
    {
      assert p[i..need][1..] == p[i + 1..need];
      if !Continues(p[i]) {
        return REPLACEMENT, pos + 1;
      }
      value := Extended(value, p[i] - 0x80);
      i := i + 1;
    }
    assert p[need..need] == [];
    assert Next(p) == (value, need);
    return value, pos + need;
  }

  // ---------------------------------------------------------------- words

  /** Letters, digits and everything outside ASCII belong to a word. */
  predicate InWord(cp: int) {
    cp >= 0x80 || 0x30 <= cp <= 0x39 || 0x41 <= cp <= 0x5A || 0x61 <= cp <= 0x7A
  }

  /** Of ASCII, the digits and the letters. */
  lemma InWordIff(cp: CodePoint)
    ensures InWord(cp) <==>
            cp > 127 || '0' <= cp as char <= '9' || 'A' <= cp as char <= 'Z' || 'a' <= cp as char <= 'z'
  {
  }

  predicate IsWord(w: seq<CodePoint>) {
    w != [] && forall i | 0 <= i < |w| :: InWord(w[i])
  }

  /** How far the run of word characters at the front reaches. */
  function RunLength(cps: seq<CodePoint>): (n: nat)
    ensures n <= |cps|
    ensures forall i | 0 <= i < n :: InWord(cps[i])
    ensures n < |cps| ==> !InWord(cps[n])
  {
    if cps == [] || !InWord(cps[0]) then 0 else 1 + RunLength(cps[1..])
  }

  /** The maximal runs of word characters. */
  function Words(cps: seq<CodePoint>): (words: seq<seq<CodePoint>>)
    ensures forall i | 0 <= i < |words| :: IsWord(words[i])
    decreases |cps|
  {
    if cps == [] then []
    else if RunLength(cps) == 0 then Words(cps[1..])
    else [cps[..RunLength(cps)]] + Words(cps[RunLength(cps)..])
  }

  /** Each word with a star behind it, separated by single spaces. */
  function Starred(words: seq<seq<CodePoint>>): seq<Byte> {
    if words == [] then []
    else Utf8All(words[0]) + [STAR] + (if |words| == 1 then [] else [SPACE] + Starred(words[1..]))
  }

  /** A run followed by a separator, or by nothing, is one word. */
  lemma RunIsWord(w: seq<CodePoint>, rest: seq<CodePoint>)
    requires forall i | 0 <= i < |w| :: InWord(w[i])
    requires rest == [] || !InWord(rest[0])
    ensures Words(w + rest) == (if w == [] then [] else [w]) + Words(if rest == [] then [] else rest[1..])
  {
    var all := w + rest;
    var n := RunLength(all);
    assert forall i | 0 <= i < |w| :: all[i] == w[i];
    assert rest != [] ==> all[|w|] == rest[0];
    assert n == |w|;
    assert w == [] ==> all == rest;
    assert all[..n] == w && all[n..] == rest;
  }

  lemma {:induction false} StarredSnoc(words: seq<seq<CodePoint>>, w: seq<CodePoint>)
    ensures Starred(words + [w]) == Starred(words) + (if words == [] then [] else [0x20]) + Utf8All(w) + [0x2A]
  {
    hide Utf8All;
    var tail := Utf8All(w) + [STAR];
    if words == [] {
      assert words + [w] == [w];
    } else {
      hide Starred;
      var head, rest := Utf8All(words[0]) + [STAR], words[1..];
      assert (words + [w])[0] == words[0] && (words + [w])[1..] == rest + [w];
      StarredSnoc(rest, w);
      StarredStep(words + [w]);
      StarredStep(words);
      if rest == [] {
        StarredNone();
        assert head + ([SPACE] + tail) == (head + [SPACE]) + tail;
      } else {
        Regroup(head, Starred(rest), tail);
      }
    }
  }

  lemma StarredStep(words: seq<seq<CodePoint>>)
    requires words != []
    ensures Starred(words) == (Utf8All(words[0]) + [STAR]) + if |words| == 1 then [] else [SPACE] + Starred(words[1..])
  {
    hide Utf8All;
  }

  lemma StarredNone()
    ensures Starred([]) == []
  {
  }

  lemma Regroup(head: seq<Byte>, rest: seq<Byte>, tail: seq<Byte>)
    ensures head + ([SPACE] + (rest + [SPACE] + tail)) == (head + ([SPACE] + rest)) + [SPACE] + tail
  {
  }

  lemma Utf8AllSnoc(w: seq<CodePoint>, cp: CodePoint)
    ensures Utf8All(w + [cp]) == Utf8All(w) + Utf8(cp)
  {
    hide Utf8;
    Utf8AllConcat(w, [cp]);
    assert Utf8All([cp]) == Utf8(cp) + Utf8All([]);
  }

  /** The state of the query builder: the words finished so far and the one being read. */
  ghost predicate Reads(query: seq<Byte>, pos: nat, result: seq<Byte>, word: seq<Byte>,
                        done: seq<seq<CodePoint>>, run: seq<CodePoint>)
    requires pos <= |query|
  {
    && result == Starred(done) && word == Utf8All(run)
    && (forall i | 0 <= i < |run| :: InWord(run[i]))
    && Words(CodePoints(query)) == done + Words(run + CodePoints(query[pos..]))
  }

  /** Ends the word being read. */
  method Flush(result: seq<Byte>, word: seq<Byte>, ghost done: seq<seq<CodePoint>>, ghost run: seq<CodePoint>)
      returns (r: seq<Byte>)
    requires result == Starred(done) && word == Utf8All(run)
    ensures r == Starred(done + if run == [] then [] else [run])
  {
    r := result;
    assert done + [] == done;
    if word != [] {
      StarredSnoc(done, run);
      if result != [] {
        r := r + [SPACE];
      }
      r := r + word + [STAR];
    }
  }

  method BuildFtsQuery(query: seq<Byte>) returns (result: seq<Byte>)
    ensures result == Starred(Words(CodePoints(query)))
  {
    hide Words, Utf8All, Starred, Utf8;
    var word: seq<Byte> := [];
    ghost var done: seq<seq<CodePoint>>, run: seq<CodePoint> := [], [];
    result := [];
    var pos := 0;
    Begins(query);
    while pos < |query|
      invariant 0 <= pos <= |query|
      invariant Reads(query, pos, result, word, done, run)
    {
      ghost var rest := query[pos..];
      var cp: CodePoint, next: nat := DecodeUtf8Cp(query, pos);
      assert rest[next - pos..] == query[next..];
      ghost var after := CodePoints(query[next..]);
      assert CodePoints(rest) == [cp] + after;
      if cp >= 0x80 || 0x30 <= cp <= 0x39 || 0x41 <= cp <= 0x5A || 0x61 <= cp <= 0x7A {
        Utf8AllSnoc(run, cp);
        assert run + ([cp] + after) == (run + [cp]) + after;
        word := word + Utf8(cp);
        run := run + [cp];
      } else {
        RunIsWord(run, [cp] + after);
        assert ([cp] + after)[1..] == after && [] + after == after;
        result := Flush(result, word, done, run);
        done := done + if run == [] then [] else [run];
        word, run := [], [];
      }
      pos := next;
    }
    RunIsWord(run, []);
    NoWords();
    assert query[pos..] == [] && run + CodePoints(query[pos..]) == run + [];
    assert (if run == [] then [] else [run]) + [] == if run == [] then [] else [run];
    result := Flush(result, word, done, run);
  }

  lemma NoWords()
    ensures Words([]) == [] && Utf8All([]) == []
  {
  }

  lemma Begins(query: seq<Byte>)
    ensures Reads(query, 0, [], [], [], [])
  {
    assert query[0..] == query;
    assert [] + CodePoints(query) == CodePoints(query);
  }

  // ---------------------------------------------------------------- laws of the query

  lemma {:induction false} CodePointsOfAppended(cps: seq<CodePoint>, rest: seq<Byte>)
    ensures CodePoints(Utf8All(cps) + rest) == cps + CodePoints(rest)
  {
    hide Utf8, Next;
    if cps == [] {
      assert Utf8All(cps) + rest == rest;
    } else {
      var head, tail := Utf8(cps[0]), Utf8All(cps[1..]) + rest;
      assert Utf8All(cps) + rest == head + tail;
      NextOfAppended(cps[0], tail);
      assert (head + tail)[|head|..] == tail;
      CodePointsOfAppended(cps[1..], rest);
      assert cps == [cps[0]] + cps[1..];
    }
  }

  /** A built query, read as a query, has the same words. */
  lemma {:induction false} StarredReadsBack(words: seq<seq<CodePoint>>)
    requires forall i | 0 <= i < |words| :: IsWord(words[i])
    ensures Words(CodePoints(Starred(words))) == words
  {
    hide Utf8All, Words, Next;
    NoWords();
    if words != [] {
      var w, rest := words[0], words[1..];
      StarredReadsBack(rest);
      if rest == [] {
        LastWordReadsBack(w);
        assert Starred(words) == Utf8All(w) + [STAR];
      } else {
        WordReadsBack(w, Starred(rest));
        assert Starred(words) == Utf8All(w) + ([STAR] + ([SPACE] + Starred(rest)));
      }
      assert words == [w] + rest;
    }
  }

  lemma LastWordReadsBack(w: seq<CodePoint>)
    requires IsWord(w)
    ensures Words(CodePoints(Utf8All(w) + [STAR])) == [w]
  {
    hide Utf8All, Words, Next;
    NoWords();
    CodePointsOfAppended(w, [STAR]);
    CodePointOfAscii(STAR, []);
    assert [STAR] + [] == [STAR] && CodePoints([]) == [];
    assert CodePoints([STAR]) == [STAR];
    RunIsWord(w, [STAR]);
    assert [STAR][1..] == [];
  }

  lemma WordReadsBack(w: seq<CodePoint>, tail: seq<Byte>)
    requires IsWord(w)
    ensures Words(CodePoints(Utf8All(w) + ([STAR] + ([SPACE] + tail)))) == [w] + Words(CodePoints(tail))
  {
    hide Utf8All, Words, Next;
    var cps := CodePoints(tail);
    CodePointsOfAppended(w, [STAR] + ([SPACE] + tail));
    CodePointOfAscii(STAR, [SPACE] + tail);
    CodePointOfAscii(SPACE, tail);
    RunIsWord(w, [STAR] + ([SPACE] + cps));
    RunIsWord([], [SPACE] + cps);
    assert ([STAR] + ([SPACE] + cps))[1..] == [SPACE] + cps;
    assert ([SPACE] + cps)[1..] == cps;
    assert [] + ([SPACE] + cps) == [SPACE] + cps;
    assert [] + Words(cps) == Words(cps);
  }

  lemma CodePointOfAscii(b: Byte, rest: seq<Byte>)
    requires b < 0x80
    ensures CodePoints([b] + rest) == [b] + CodePoints(rest)
  {
    NextOfAppended(b, rest);
    assert ([b] + rest)[1..] == rest;
    hide Next;
  }

  /** Building a query from a built query changes nothing. */
  lemma BuildingIsIdempotent(query: seq<Byte>)
    ensures var built := Starred(Words(CodePoints(query)));
            Starred(Words(CodePoints(built))) == built
  {
    StarredReadsBack(Words(CodePoints(query)));
  }

  function OnlyWordCharacters(cps: seq<CodePoint>): seq<CodePoint> {
    if cps == [] then []
    else (if InWord(cps[0]) then [cps[0]] else []) + OnlyWordCharacters(cps[1..])
  }

  function Flat(words: seq<seq<CodePoint>>): seq<CodePoint> {
    if words == [] then [] else words[0] + Flat(words[1..])
  }

  /** The words are all the word characters, in order: none is lost, moved or repeated. */
  lemma {:induction false} NothingIsLost(cps: seq<CodePoint>)
    ensures Flat(Words(cps)) == OnlyWordCharacters(cps)
    decreases |cps|
  {
    if cps != [] {
      var n := RunLength(cps);
      if n == 0 {
        NothingIsLost(cps[1..]);
      } else {
        NothingIsLost(cps[n..]);
        RunIsKept(cps[..n], cps[n..]);
        assert cps == cps[..n] + cps[n..];
        assert Words(cps)[1..] == Words(cps[n..]);
      }
    }
  }

  lemma {:induction false} RunIsKept(run: seq<CodePoint>, rest: seq<CodePoint>)
    requires forall i | 0 <= i < |run| :: InWord(run[i])
    ensures OnlyWordCharacters(run + rest) == run + OnlyWordCharacters(rest)
  {
    if run == [] {
      assert run + rest == rest;
    } else {
      assert (run + rest)[0] == run[0] && (run + rest)[1..] == run[1..] + rest;
      RunIsKept(run[1..], rest);
    }
  }
}
