/** Unicode scalar values and their encodings as RFC 3629 (UTF-8) and RFC 2781 (UTF-16) define them.
  * This is the specification the transcoder of `transcoder.dfy` is proved against.
  */
module Unicode {
  import opened Sequences

  type byte = bv8
  type u16 = bv16
  type u32 = bv32

  predicate IsHighSurrogate(value: u32) {
    0xD800 <= value && value <= 0xDBFF
  }

  predicate IsLowSurrogate(value: u32) {
    0xDC00 <= value && value <= 0xDFFF
  }

  predicate IsScalar(c: u32) {
    c <= 0x10FFFF && !IsHighSurrogate(c) && !IsLowSurrogate(c)
  }

  ghost predicate Scalars(cs: seq<u32>) {
    forall k :: 0 <= k < |cs| ==> IsScalar(cs[k])
  }

  /** `static_cast<char>` of a 32-bit value. */
  function Low8(x: u32): byte { (x & 0xFF) as byte }

  /** `static_cast<wchar_t>` of a 32-bit value when wchar_t has two bytes. */
  function Low16(x: u32): u16 { (x & 0xFFFF) as u16 }

  // ----- The three encodings of one code point -----

  /** The bit layout of RFC 3629 section 3. */
  function Utf8(c: u32): seq<byte> {
    if c <= 0x7F then
      [Low8(c)]
    else if c <= 0x7FF then
      [Low8(0xC0 | (c >> 6)), Low8(0x80 | (c & 0x3F))]
    else if c <= 0xFFFF then
      [Low8(0xE0 | (c >> 12)), Low8(0x80 | ((c >> 6) & 0x3F)), Low8(0x80 | (c & 0x3F))]
    else
      [Low8(0xF0 | (c >> 18)), Low8(0x80 | ((c >> 12) & 0x3F)), Low8(0x80 | ((c >> 6) & 0x3F)),
       Low8(0x80 | (c & 0x3F))]
  }

  /** RFC 2781 section 2.1. */
  function Utf16(c: u32): seq<u16> {
    if c <= 0xFFFF then
      [Low16(c)]
    else
      [HighUnit(c), LowUnit(c)]
  }

  function HighUnit(c: u32): u16 { Low16(0xD800 + ((c - 0x10000) >> 10)) }

  function LowUnit(c: u32): u16 { Low16(0xDC00 + ((c - 0x10000) & 0x3FF)) }

  function Utf32(c: u32): seq<u32> { [c] }

  // ----- The byte grammar of RFC 3629 section 4, which never mentions code points -----

  predicate Tail(b: byte) { 0x80 <= b && b <= 0xBF }

  predicate WellFormed(s: seq<byte>) {
    || (|s| == 1 && s[0] <= 0x7F)
    || (|s| == 2 && 0xC2 <= s[0] && s[0] <= 0xDF && Tail(s[1]))
    || (|s| == 3 && WellFormedThree(s[0], s[1]) && Tail(s[2]))
    || (|s| == 4 && WellFormedFour(s[0], s[1]) && Tail(s[2]) && Tail(s[3]))
  }

  /** E0 A0-BF, E1-EC 80-BF, ED 80-9F or EE-EF 80-BF. */
  predicate WellFormedThree(b0: byte, b1: byte) {
    || (b0 == 0xE0 && 0xA0 <= b1 && b1 <= 0xBF)
    || (0xE1 <= b0 && b0 <= 0xEC && Tail(b1))
    || (b0 == 0xED && 0x80 <= b1 && b1 <= 0x9F)
    || (0xEE <= b0 && b0 <= 0xEF && Tail(b1))
  }

  /** F0 90-BF, F1-F3 80-BF or F4 80-8F. */
  predicate WellFormedFour(b0: byte, b1: byte) {
    || (b0 == 0xF0 && 0x90 <= b1 && b1 <= 0xBF)
    || (0xF1 <= b0 && b0 <= 0xF3 && Tail(b1))
    || (b0 == 0xF4 && 0x80 <= b1 && b1 <= 0x8F)
  }

  /** A well-formed sequence of the grammar starts at `at`. */
  ghost predicate StartsWellFormed(text: seq<byte>, at: nat) {
    exists end :: at <= end <= |text| && WellFormed(text[at..end])
  }

  // ----- Codes: the encodings of whole texts -----

  function Encode<T>(code: u32 -> seq<T>, cs: seq<u32>): seq<T> {
    if cs == [] then [] else code(cs[0]) + Encode(code, cs[1..])
  }

  /** `s` is the encoding of some scalar sequence. */
  ghost predicate Encodes<T>(code: u32 -> seq<T>, s: seq<T>) {
    exists cs :: Scalars(cs) && Encode(code, cs) == s
  }

  /** No scalar's code is empty or a prefix of another scalar's code. */
  ghost predicate PrefixCode<T>(code: u32 -> seq<T>) {
    && (forall c :: IsScalar(c) ==> code(c) != [])
    && (forall c, d :: IsScalar(c) && IsScalar(d) && code(c) <= code(d) ==> c == d)
  }

  lemma {:induction false} EncodeConcat<T>(code: u32 -> seq<T>, a: seq<u32>, b: seq<u32>)
    ensures Encode(code, a + b) == Encode(code, a) + Encode(code, b)
  {
    if a == [] {
      assert a + b == b;
    } else {
      EncodeConcat(code, a[1..], b);
      assert (a + b)[1..] == a[1..] + b && (a + b)[0] == a[0];
      Associates(code(a[0]), Encode(code, a[1..]), Encode(code, b));
    }
  }

  lemma EncodeSnoc<T>(code: u32 -> seq<T>, a: seq<u32>, c: u32)
    ensures Encode(code, a + [c]) == Encode(code, a) + code(c)
  {
    EncodeConcat(code, a, [c]);
    assert Encode(code, [c]) == code(c) + Encode(code, []);
  }

  /** Under a prefix code, a text that starts with the code of `done` is the code of `done` and something. */
  lemma {:induction false} DecodingContinues<T>(code: u32 -> seq<T>, done: seq<u32>, rest: seq<T>, cs: seq<u32>)
    requires PrefixCode(code) && Scalars(done) && Scalars(cs)
    requires Encode(code, cs) == Encode(code, done) + rest
    ensures done <= cs && Encode(code, cs[|done|..]) == rest
  {
    if done != [] {
      var whole := Encode(code, cs);
      assert whole == code(done[0]) + (Encode(code, done[1..]) + rest);
      assert IsScalar(done[0]);
      assert cs != [];
      assert IsScalar(cs[0]);
      var x, y := code(cs[0]), code(done[0]);
      assert x <= whole && y <= whole;
      assert x <= y || y <= x;
      assert Encode(code, cs[1..]) == whole[|x|..] == Encode(code, done[1..]) + rest;
      DecodingContinues(code, done[1..], rest, cs[1..]);
      assert cs[1..][|done| - 1..] == cs[|done|..];
    }
  }

  /** Concatenations of a prefix code decode uniquely. */
  lemma UniqueDecoding<T>(code: u32 -> seq<T>, a: seq<u32>, b: seq<u32>)
    requires PrefixCode(code) && Scalars(a) && Scalars(b)
    requires Encode(code, a) == Encode(code, b)
    ensures a == b
  {
    DecodingContinues(code, a, [], b);
    DecodingContinues(code, b, [], a);
  }

  lemma FirstCodeStarts<T>(code: u32 -> seq<T>, cs: seq<u32>)
    requires Scalars(cs) && Encode(code, cs) != []
    ensures exists c :: IsScalar(c) && code(c) <= Encode(code, cs)
  {}

  /** Decoding is stuck, and the whole text is ill-formed, once no scalar's code starts the rest. */
  lemma StuckIsIllFormed<T>(code: u32 -> seq<T>, done: seq<u32>, rest: seq<T>)
    requires PrefixCode(code) && Scalars(done) && rest != []
    requires forall c :: IsScalar(c) ==> !(code(c) <= rest)
    ensures !Encodes(code, Encode(code, done) + rest)
  {
    forall cs | Scalars(cs) && Encode(code, cs) == Encode(code, done) + rest ensures false {
      DecodingContinues(code, done, rest, cs);
      FirstCodeStarts(code, cs[|done|..]);
    }
  }

  // ----- The UTF-8 code against its grammar -----

  /** The payload bits of a lead byte. */
  function Lead(b: byte): u32 {
    if b <= 0x7F then b as u32
    else if b <= 0xDF then b as u32 & 0x1F
    else if b <= 0xEF then b as u32 & 0x0F
    else b as u32 & 0x07
  }

  /** One continuation byte adds six payload bits. */
  function Shift(acc: u32, b: byte): u32 { (acc << 6) | (b as u32 & 0x3F) }

  /** The code point carried by a lead byte and its continuation bytes. */
  function Payload(s: seq<byte>): u32
    requires s != []
  {
    if |s| == 1 then Lead(s[0]) else Shift(Payload(s[..|s| - 1]), s[|s| - 1])
  }

  lemma TwoBytes(b0: byte, b1: byte)
    requires 0xC2 <= b0 && b0 <= 0xDF && Tail(b1)
    ensures var c := Shift(Lead(b0), b1);
            0x80 <= c <= 0x7FF && Low8(0xC0 | (c >> 6)) == b0 && Low8(0x80 | (c & 0x3F)) == b1
  {}

  lemma ThreeBytes(b0: byte, b1: byte, b2: byte)
    requires 0xE0 <= b0 && b0 <= 0xEF && Tail(b1) && Tail(b2)
    ensures var c := Shift(Shift(Lead(b0), b1), b2);
            && c <= 0xFFFF
            && Low8(0xE0 | (c >> 12)) == b0 && Low8(0x80 | ((c >> 6) & 0x3F)) == b1 && Low8(0x80 | (c & 0x3F)) == b2
            && (WellFormedThree(b0, b1) <==> (0x800 <= c && IsScalar(c)))
  {}

  lemma FourBytes(b0: byte, b1: byte, b2: byte, b3: byte)
    requires 0xF0 <= b0 && b0 <= 0xF4 && Tail(b1) && Tail(b2) && Tail(b3)
    ensures var c := Shift(Shift(Shift(Lead(b0), b1), b2), b3);
            && Low8(0xF0 | (c >> 18)) == b0 && Low8(0x80 | ((c >> 12) & 0x3F)) == b1
            && Low8(0x80 | ((c >> 6) & 0x3F)) == b2 && Low8(0x80 | (c & 0x3F)) == b3
            && (WellFormedFour(b0, b1) <==> (0x10000 <= c && IsScalar(c)))
  {}

  lemma PayloadUnfolds(s: seq<byte>, b: byte)
    requires s != []
    ensures Payload(s + [b]) == Shift(Payload(s), b)
  {}

  lemma TwoBytesPayload(b0: byte, b1: byte)
    ensures Payload([b0, b1]) == Shift(Lead(b0), b1)
  {}

  lemma ThreeBytesPayload(b0: byte, b1: byte, b2: byte)
    ensures Payload([b0, b1, b2]) == Shift(Shift(Lead(b0), b1), b2)
  {
    assert [b0, b1, b2] == [b0, b1] + [b2];
    PayloadUnfolds([b0, b1], b2);
    TwoBytesPayload(b0, b1);
  }

  lemma FourBytesPayload(b0: byte, b1: byte, b2: byte, b3: byte)
    ensures Payload([b0, b1, b2, b3]) == Shift(Shift(Shift(Lead(b0), b1), b2), b3)
  {
    assert [b0, b1, b2, b3] == [b0, b1, b2] + [b3];
    PayloadUnfolds([b0, b1, b2], b3);
    ThreeBytesPayload(b0, b1, b2);
  }

  lemma PayloadOfOne(b0: byte)
    requires b0 <= 0x7F
    ensures Payload([b0]) == b0 as u32 && IsScalar(b0 as u32) && Utf8(b0 as u32) == [b0]
  {}

  lemma PayloadOfTwo(b0: byte, b1: byte)
    requires 0xC2 <= b0 && b0 <= 0xDF && Tail(b1)
    ensures var c := Payload([b0, b1]); 0x80 <= c <= 0x7FF && Utf8(c) == [b0, b1]
  {
    TwoBytesPayload(b0, b1);
    TwoBytes(b0, b1);
  }

  lemma PayloadOfThree(b0: byte, b1: byte, b2: byte)
    requires 0xE0 <= b0 && b0 <= 0xEF && Tail(b1) && Tail(b2)
    ensures var c := Payload([b0, b1, b2]);
            && (WellFormedThree(b0, b1) <==> 0x800 <= c && IsScalar(c))
            && (0x800 <= c ==> Utf8(c) == [b0, b1, b2])
  {
    ThreeBytesPayload(b0, b1, b2);
    ThreeBytes(b0, b1, b2);
  }

  lemma PayloadOfFour(b0: byte, b1: byte, b2: byte, b3: byte)
    requires 0xF0 <= b0 && b0 <= 0xF4 && Tail(b1) && Tail(b2) && Tail(b3)
    ensures var c := Payload([b0, b1, b2, b3]);
            && (WellFormedFour(b0, b1) <==> 0x10000 <= c && IsScalar(c))
            && (0x10000 <= c ==> Utf8(c) == [b0, b1, b2, b3])
  {
    FourBytesPayload(b0, b1, b2, b3);
    FourBytes(b0, b1, b2, b3);
  }

  /** A lead byte that announces `count` continuation bytes, and the least code point that needs so many. */
  predicate Announces(first: byte, count: nat, minimum: u32) {
    || (first <= 0x7F && count == 0 && minimum == 0)
    || (0xC2 <= first && first <= 0xDF && count == 1 && minimum == 0x80)
    || (0xE0 <= first && first <= 0xEF && count == 2 && minimum == 0x800)
    || (0xF0 <= first && first <= 0xF4 && count == 3 && minimum == 0x10000)
  }

  /** The code point the decoder assembles after a lead byte that announces the rest of `s`: its range test
    * is exactly the grammar, and encoding it gives the bytes back.
    */
  lemma PayloadIsExact(s: seq<byte>, minimum: u32)
    requires s != [] && Announces(s[0], |s| - 1, minimum)
    requires forall k :: 1 <= k < |s| ==> Tail(s[k])
    ensures WellFormed(s) <==> minimum <= Payload(s) && IsScalar(Payload(s))
    ensures minimum <= Payload(s) && IsScalar(Payload(s)) ==> Utf8(Payload(s)) == s
  {
    hide Payload, Utf8;
    if |s| == 1 {
      assert s == [s[0]];
      PayloadOfOne(s[0]);
    } else if |s| == 2 {
      assert s == [s[0], s[1]];
      PayloadOfTwo(s[0], s[1]);
    } else if |s| == 3 {
      assert s == [s[0], s[1], s[2]];
      PayloadOfThree(s[0], s[1], s[2]);
    } else {
      assert s == [s[0], s[1], s[2], s[3]];
      PayloadOfFour(s[0], s[1], s[2], s[3]);
    }
  }

  /** The grammar accepts exactly the encodings of scalar values: no overlong form, surrogate or
    * value above U+10FFFF has a well-formed sequence, and every scalar has one.
    */
  lemma GrammarIsExact(s: seq<byte>)
    ensures WellFormed(s) <==> exists c :: IsScalar(c) && Utf8(c) == s
    ensures WellFormed(s) ==> IsScalar(Payload(s)) && Utf8(Payload(s)) == s
  {
    forall c | IsScalar(c) ensures WellFormed(Utf8(c)) {}
    if WellFormed(s) {
      PayloadIsExact(s, if |s| == 1 then 0 else if |s| == 2 then 0x80 else if |s| == 3 then 0x800 else 0x10000);
      assert IsScalar(Payload(s)) && Utf8(Payload(s)) == s;
    }
  }

  /** A text the grammar of section 4 derives: well-formed sequences one after the other. */
  ghost predicate WellFormedText(t: seq<byte>) {
    t == [] || exists n :: 0 < n <= |t| && WellFormed(t[..n]) && WellFormedText(t[n..])
  }

  lemma {:induction false} DerivedTextEncodes(t: seq<byte>) returns (cs: seq<u32>)
    requires WellFormedText(t)
    ensures Scalars(cs) && Encode(Utf8, cs) == t
    decreases |t|
  {
    hide WellFormed, Utf8, Payload, IsScalar;
    cs := [];
    if t != [] {
      var n :| 0 < n <= |t| && WellFormed(t[..n]) && WellFormedText(t[n..]);
      var rest := DerivedTextEncodes(t[n..]);
      GrammarIsExact(t[..n]);
      var c := Payload(t[..n]);
      cs := [c] + rest;
      assert cs[0] == c && cs[1..] == rest && t == t[..n] + t[n..];
    }
  }

  lemma {:induction false} EncodedTextIsDerived(cs: seq<u32>)
    requires Scalars(cs)
    ensures WellFormedText(Encode(Utf8, cs))
  {
    if cs != [] {
      var first, t := Utf8(cs[0]), Encode(Utf8, cs);
      assert IsScalar(cs[0]) && t[..|first|] == first && t[|first|..] == Encode(Utf8, cs[1..]);
      GrammarIsExact(first);
      EncodedTextIsDerived(cs[1..]);
    }
  }

  /** The byte strings that encode some scalar sequence are exactly those the grammar derives. */
  lemma GrammarAcceptsExactly(t: seq<byte>)
    ensures Encodes(Utf8, t) <==> WellFormedText(t)
  {
    if WellFormedText(t) { var cs := DerivedTextEncodes(t); }
    forall cs | Scalars(cs) && Encode(Utf8, cs) == t ensures WellFormedText(t) { EncodedTextIsDerived(cs); }
  }

  /** The lead byte fixes the length, so at most one well-formed sequence starts a text. */
  lemma WellFormedPrefixIsUnique(a: seq<byte>, b: seq<byte>)
    requires WellFormed(a) && WellFormed(b) && a <= b
    ensures a == b
  {}

  lemma OneByteBack(c: u32)
    requires c <= 0x7F
    ensures Lead(Low8(c)) == c
  {}

  lemma TwoBytesBack(c: u32)
    requires 0x80 <= c && c <= 0x7FF
    ensures Shift(Lead(Low8(0xC0 | (c >> 6))), Low8(0x80 | (c & 0x3F))) == c
  {}

  lemma ThreeBytesBack(c: u32)
    requires 0x800 <= c && c <= 0xFFFF
    ensures Shift(Shift(Lead(Low8(0xE0 | (c >> 12))), Low8(0x80 | ((c >> 6) & 0x3F))), Low8(0x80 | (c & 0x3F))) == c
  {}

  lemma FourBytesBack(c: u32)
    requires 0x10000 <= c && c <= 0x10FFFF
    ensures Shift(Shift(Shift(Lead(Low8(0xF0 | (c >> 18))), Low8(0x80 | ((c >> 12) & 0x3F))),
                        Low8(0x80 | ((c >> 6) & 0x3F))), Low8(0x80 | (c & 0x3F))) == c
  {}

  /** Each scalar is the payload of its own encoding. */
  lemma PayloadOfUtf8(c: u32)
    requires IsScalar(c)
    ensures Payload(Utf8(c)) == c
  {
    var s := Utf8(c);
    if c <= 0x7F {
      OneByteBack(c);
    } else if c <= 0x7FF {
      assert s == [s[0], s[1]];
      TwoBytesPayload(s[0], s[1]);
      TwoBytesBack(c);
    } else if c <= 0xFFFF {
      assert s == [s[0], s[1], s[2]];
      ThreeBytesPayload(s[0], s[1], s[2]);
      ThreeBytesBack(c);
    } else {
      assert s == [s[0], s[1], s[2], s[3]];
      FourBytesPayload(s[0], s[1], s[2], s[3]);
      FourBytesBack(c);
    }
  }

  lemma Utf8IsPrefixCode()
    ensures PrefixCode(Utf8)
  {
    forall c, d | IsScalar(c) && IsScalar(d) && Utf8(c) <= Utf8(d) ensures c == d {
      GrammarIsExact(Utf8(c));
      GrammarIsExact(Utf8(d));
      WellFormedPrefixIsUnique(Utf8(c), Utf8(d));
      PayloadOfUtf8(c);
      PayloadOfUtf8(d);
    }
  }

  /** RFC 2781 section 2.2: the scalar of a high and a low surrogate. */
  function Pair(high: u32, low: u32): u32 {
    0x10000 + ((high - 0xD800) << 10) + (low - 0xDC00)
  }

  lemma PairThenUnits(high: u16, low: u16)
    requires IsHighSurrogate(high as u32) && IsLowSurrogate(low as u32)
    ensures var c := Pair(high as u32, low as u32);
            0x10000 <= c <= 0x10FFFF && HighUnit(c) == high && LowUnit(c) == low
  {}

  lemma SurrogateUnitsAreInjective(c: u32, d: u32)
    requires 0x10000 <= c && c <= 0x10FFFF && 0x10000 <= d && d <= 0x10FFFF
    requires HighUnit(c) == HighUnit(d) && LowUnit(c) == LowUnit(d)
    ensures c == d
  {}

  lemma BasicUnit(c: u32)
    requires c <= 0xFFFF
    ensures Low16(c) as u32 == c
  {}

  lemma BasicUnitIsNoSurrogate(c: u32, d: u32)
    requires IsScalar(c) && c <= 0xFFFF && 0x10000 <= d && d <= 0x10FFFF
    ensures HighUnit(d) != Low16(c)
  {}

  lemma Utf16Units(c: u32)
    ensures c <= 0xFFFF ==> |Utf16(c)| == 1 && Utf16(c)[0] == Low16(c)
    ensures c > 0xFFFF ==> |Utf16(c)| == 2 && Utf16(c)[0] == HighUnit(c) && Utf16(c)[1] == LowUnit(c)
  {}

  lemma Utf16Prefix(c: u32, d: u32)
    requires IsScalar(c) && IsScalar(d) && Utf16(c) <= Utf16(d)
    ensures c == d
  {
    Utf16Units(c);
    Utf16Units(d);
    var s, t := Utf16(c), Utf16(d);
    assert s[0] == t[0] && (|s| == 2 ==> s[1] == t[1]);
    if c <= 0xFFFF && d <= 0xFFFF {
      BasicUnit(c);
      BasicUnit(d);
    } else if c <= 0xFFFF {
      BasicUnitIsNoSurrogate(c, d);
    } else if d <= 0xFFFF {
      BasicUnitIsNoSurrogate(d, c);
    } else {
      SurrogateUnitsAreInjective(c, d);
    }
  }

  // ----- Well-formed UTF-16, without code points: RFC 2781 section 2.2 -----

  predicate IsHighUnit(unit: u16) { IsHighSurrogate(unit as u32) }

  predicate IsLowUnit(unit: u16) { IsLowSurrogate(unit as u32) }

  /** Units that are no surrogates, and high surrogates each followed by a low one. */
  predicate Paired(s: seq<u16>) {
    || s == []
    || (!IsHighUnit(s[0]) && !IsLowUnit(s[0]) && Paired(s[1..]))
    || (|s| >= 2 && IsHighUnit(s[0]) && IsLowUnit(s[1]) && Paired(s[2..]))
  }

  lemma UnitIsScalar(unit: u16)
    requires !IsHighUnit(unit) && !IsLowUnit(unit)
    ensures IsScalar(unit as u32) && Utf16(unit as u32) == [unit]
  {
    Utf16Units(unit as u32);
  }

  lemma PairIsScalar(high: u16, low: u16)
    requires IsHighUnit(high) && IsLowUnit(low)
    ensures var c := Pair(high as u32, low as u32); IsScalar(c) && Utf16(c) == [high, low]
  {
    PairThenUnits(high, low);
    Utf16Units(Pair(high as u32, low as u32));
  }

  lemma BasicIsSingle(c: u32)
    requires IsScalar(c) && c <= 0xFFFF
    ensures !IsHighUnit(Low16(c)) && !IsLowUnit(Low16(c))
  {}

  lemma SupplementaryIsPair(c: u32)
    requires IsScalar(c) && c > 0xFFFF
    ensures IsHighUnit(HighUnit(c)) && IsLowUnit(LowUnit(c))
  {}

  lemma ScalarIsPaired(c: u32, rest: seq<u16>)
    requires IsScalar(c) && Paired(rest)
    ensures Paired(Utf16(c) + rest)
  {
    hide IsScalar, IsHighUnit, IsLowUnit, Utf16, Low16, HighUnit, LowUnit;
    Utf16Units(c);
    var s := Utf16(c) + rest;
    if c <= 0xFFFF {
      BasicIsSingle(c);
      assert s[1..] == rest;
    } else {
      SupplementaryIsPair(c);
      assert s[2..] == rest;
    }
  }

  lemma {:induction false} EncodedTextIsPaired(cs: seq<u32>)
    requires Scalars(cs)
    ensures Paired(Encode(Utf16, cs))
  {
    if cs != [] {
      assert IsScalar(cs[0]);
      EncodedTextIsPaired(cs[1..]);
      ScalarIsPaired(cs[0], Encode(Utf16, cs[1..]));
    }
  }

  lemma EncodeCons<T>(code: u32 -> seq<T>, c: u32, cs: seq<u32>)
    ensures Encode(code, [c] + cs) == code(c) + Encode(code, cs)
  {
    assert ([c] + cs)[1..] == cs;
  }

  lemma SplitsOff<T>(s: seq<T>, n: nat, first: seq<T>)
    requires n <= |s| && first == s[..n]
    ensures s == first + s[n..]
  {}

  lemma FirstScalar(s: seq<u16>) returns (c: u32, length: nat)
    requires Paired(s) && s != []
    ensures 0 < length <= |s| && Paired(s[length..])
    ensures IsScalar(c) && s == Utf16(c) + s[length..]
  {
    hide IsScalar, IsHighUnit, IsLowUnit, Utf16, Pair;
    var u := s[0];
    if !IsHighUnit(u) {
      UnitIsScalar(u);
      c, length := u as u32, 1;
    } else {
      var v := s[1];
      PairIsScalar(u, v);
      c, length := Pair(u as u32, v as u32), 2;
    }
    SplitsOff(s, length, Utf16(c));
  }

  lemma {:induction false} PairedTextEncodes(s: seq<u16>) returns (cs: seq<u32>)
    requires Paired(s)
    ensures Scalars(cs) && Encode(Utf16, cs) == s
    decreases |s|
  {
    hide IsScalar, IsHighUnit, IsLowUnit, Utf16;
    cs := [];
    if s != [] {
      var c, length := FirstScalar(s);
      var rest := PairedTextEncodes(s[length..]);
      EncodeCons(Utf16, c, rest);
      cs := [c] + rest;
    }
  }

  /** The unit strings that encode some scalar sequence are exactly those whose surrogates are paired. */
  lemma PairingIsExact(s: seq<u16>)
    ensures Encodes(Utf16, s) <==> Paired(s)
  {
    if Paired(s) { var cs := PairedTextEncodes(s); }
    forall cs | Scalars(cs) && Encode(Utf16, cs) == s ensures Paired(s) { EncodedTextIsPaired(cs); }
  }

  lemma Utf16IsPrefixCode()
    ensures PrefixCode(Utf16)
  {
    forall c, d | IsScalar(c) && IsScalar(d) && Utf16(c) <= Utf16(d) ensures c == d {
      Utf16Prefix(c, d);
    }
  }

  lemma Utf32IsPrefixCode()
    ensures PrefixCode(Utf32)
  {
    forall c, d | IsScalar(c) && IsScalar(d) && Utf32(c) <= Utf32(d) ensures c == d {
      assert Utf32(c)[0] == Utf32(d)[0];
    }
  }

  lemma {:induction false} Utf32IsIdentity(cs: seq<u32>)
    ensures Encode(Utf32, cs) == cs
  {
    if cs != [] { Utf32IsIdentity(cs[1..]); }
  }

  // ----- Transcoding as a mathematical function -----

  /** Reads `s` in one code and writes the same scalars in another; the empty text when `s` is ill-formed. */
  ghost function Transcode<S, T>(from: u32 -> seq<S>, to: u32 -> seq<T>, s: seq<S>): seq<T> {
    if Encodes(from, s) then
      var cs :| Scalars(cs) && Encode(from, cs) == s; Encode(to, cs)
    else []
  }

  lemma TranscodeOf<S, T>(from: u32 -> seq<S>, to: u32 -> seq<T>, cs: seq<u32>)
    requires PrefixCode(from) && Scalars(cs)
    ensures Encodes(from, Encode(from, cs))
    ensures Transcode(from, to, Encode(from, cs)) == Encode(to, cs)
  {
    var s := Encode(from, cs);
    var chosen :| Scalars(chosen) && Encode(from, chosen) == s && Transcode(from, to, s) == Encode(to, chosen);
    UniqueDecoding(from, chosen, cs);
  }

  lemma EncodeIsEmpty<T>(code: u32 -> seq<T>, cs: seq<u32>)
    requires PrefixCode(code) && Scalars(cs)
    ensures Encode(code, cs) == [] <==> cs == []
  {}

  /** Between two prefix codes: converting there and back is the identity on every well-formed text, the
    * image is well-formed, and the result is empty exactly when the input is empty or ill-formed.
    */
  lemma TranscodeIsInvertible<S, T>(from: u32 -> seq<S>, to: u32 -> seq<T>, s: seq<S>)
    requires PrefixCode(from) && PrefixCode(to)
    ensures Encodes(from, s) ==> Encodes(to, Transcode(from, to, s))
    ensures Encodes(from, s) ==> Transcode(to, from, Transcode(from, to, s)) == s
    ensures Transcode(from, to, s) == [] <==> s == [] || !Encodes(from, s)
  {
    if Encodes(from, s) {
      var cs :| Scalars(cs) && Encode(from, cs) == s;
      TranscodeOf(from, to, cs);
      TranscodeOf(to, from, cs);
      EncodeIsEmpty(from, cs);
      EncodeIsEmpty(to, cs);
    } else {
      assert s == [] ==> Encode(from, []) == s;
    }
  }
}
