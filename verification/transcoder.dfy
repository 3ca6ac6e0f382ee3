/** The conversions of pans/src/utils/string_utils.cc, loop by loop, proved against `Unicode`.
  * A failed assertion (`ASSERT_RETVAL2`) returns the empty text. `wchar_t` is `u16` in the methods named
  * Utf16 and `u32` in the methods named Utf32.
  */
module StringUtils {
  import opened Unicode

  /** The decoder's continuation test reads the top two bits; the grammar reads a range. */
  lemma ContinuationMask(b: byte)
    ensures (b as u32 & 0xC0) == 0x80 <==> Tail(b)
  {}

  method AppendUtf8(output: seq<byte>, codePoint: u32) returns (appended: seq<byte>)
    ensures appended == output + Utf8(codePoint)
  {
    appended := output;
    if codePoint <= 0x7F {
      appended := appended + [Low8(codePoint)];
    } else if codePoint <= 0x7FF {
      appended := appended + [Low8(0xC0 | (codePoint >> 6))];
      appended := appended + [Low8(0x80 | (codePoint & 0x3F))];
    } else if codePoint <= 0xFFFF {
      appended := appended + [Low8(0xE0 | (codePoint >> 12))];
      appended := appended + [Low8(0x80 | ((codePoint >> 6) & 0x3F))];
      appended := appended + [Low8(0x80 | (codePoint & 0x3F))];
    } else {
      appended := appended + [Low8(0xF0 | (codePoint >> 18))];
      appended := appended + [Low8(0x80 | ((codePoint >> 12) & 0x3F))];
      appended := appended + [Low8(0x80 | ((codePoint >> 6) & 0x3F))];
      appended := appended + [Low8(0x80 | (codePoint & 0x3F))];
    }
  }

  lemma WellFormedHere(text: seq<byte>, start: nat, end: nat, count: nat, minimum: u32)
    requires start < end <= |text| && WellFormed(text[start..end]) && Announces(text[start], count, minimum)
    ensures end == start + 1 + count
    ensures forall k :: start < k < end ==> Tail(text[k])
  {}

  lemma LeadAlone(text: seq<byte>, start: nat)
    requires start < |text|
    ensures Payload(text[start..start + 1]) == Lead(text[start])
  {}

  lemma NoLead(text: seq<byte>, start: nat)
    requires start < |text|
    requires (0x80 <= text[start] && text[start] <= 0xC1) || 0xF5 <= text[start]
    ensures !StartsWellFormed(text, start)
  {}

  lemma NoRoom(text: seq<byte>, start: nat, count: nat, minimum: u32)
    requires start < |text| < start + 1 + count && Announces(text[start], count, minimum)
    ensures !StartsWellFormed(text, start)
  {}

  lemma NoTail(text: seq<byte>, start: nat, count: nat, minimum: u32, bad: nat)
    requires start < bad < start + 1 + count <= |text| && Announces(text[start], count, minimum)
    requires !Tail(text[bad])
    ensures !StartsWellFormed(text, start)
  {}

  lemma OneMoreByte(text: seq<byte>, start: nat, offset: nat)
    requires start < offset < |text|
    ensures (text[offset] as u32 & 0xC0) == 0x80 <==> Tail(text[offset])
    ensures Payload(text[start..offset + 1]) == (Payload(text[start..offset]) << 6) | (text[offset] as u32 & 0x3F)
  {
    ContinuationMask(text[offset]);
    assert text[start..offset + 1] == text[start..offset] + [text[offset]];
    PayloadUnfolds(text[start..offset], text[offset]);
  }

  lemma RangeTest(text: seq<byte>, start: nat, offset: nat, minimum: u32, codePoint: u32)
    requires start < offset <= |text| && Announces(text[start], offset - start - 1, minimum)
    requires forall k :: start < k < offset ==> Tail(text[k])
    requires codePoint == Payload(text[start..offset])
    ensures StartsWellFormed(text, start) <==> minimum <= codePoint && IsScalar(codePoint)
    ensures minimum <= codePoint && IsScalar(codePoint) ==> Utf8(codePoint) == text[start..offset]
  {
    var s := text[start..offset];
    PayloadIsExact(s, minimum);
    forall end | start <= end <= |text| && WellFormed(text[start..end]) ensures WellFormed(s) {
      WellFormedHere(text, start, end, offset - start - 1, minimum);
    }
  }

  /** Decoding succeeds exactly when a well-formed sequence starts at `start`, consumes exactly that
    * sequence and returns the scalar value that encodes to it.
    */
  method DecodeUtf8CodePoint(text: seq<byte>, start: nat) returns (ok: bool, offset: nat, codePoint: u32)
    requires start < |text|
    ensures start < offset <= |text|
    ensures ok <==> StartsWellFormed(text, start)
    ensures ok ==> IsScalar(codePoint) && Utf8(codePoint) == text[start..offset]
  {
    hide Payload, Utf8, StartsWellFormed;
    offset := start;
    codePoint := 0;
    var first := text[offset];
    offset := offset + 1;
    LeadAlone(text, start);
    if first <= 0x7F {
      codePoint := first as u32;
      RangeTest(text, start, offset, 0, codePoint);
      return true, offset, codePoint;
    }

    var minimumCodePoint: u32 := 0;
    var continuationCount: nat := 0;
    if first >= 0xC2 && first <= 0xDF {
      codePoint := first as u32 & 0x1F;
      minimumCodePoint := 0x80;
      continuationCount := 1;
    } else if first >= 0xE0 && first <= 0xEF {
      codePoint := first as u32 & 0x0F;
      minimumCodePoint := 0x800;
      continuationCount := 2;
    } else if first >= 0xF0 && first <= 0xF4 {
      codePoint := first as u32 & 0x07;
      minimumCodePoint := 0x10000;
      continuationCount := 3;
    } else {
      NoLead(text, start);
      return false, offset, codePoint;
    }
    assert Announces(first, continuationCount, minimumCodePoint) && codePoint == Payload(text[start..offset]);

    if |text| - offset < continuationCount {
      NoRoom(text, start, continuationCount, minimumCodePoint);
      return false, offset, codePoint;
    }
    for i := 0 to continuationCount
      invariant offset == start + 1 + i
      invariant codePoint == Payload(text[start..offset])
      invariant forall k :: start < k < offset ==> Tail(text[k])
    {
      var continuation := text[offset];
      OneMoreByte(text, start, offset);
      offset := offset + 1;
      if (continuation as u32 & 0xC0) != 0x80 {
        NoTail(text, start, continuationCount, minimumCodePoint, offset - 1);
        return false, offset, codePoint;
      }
      codePoint := (codePoint << 6) | (continuation as u32 & 0x3F);
    }
    RangeTest(text, start, offset, minimumCodePoint, codePoint);
    if codePoint < minimumCodePoint || codePoint > 0x10FFFF || IsHighSurrogate(codePoint) || IsLowSurrogate(codePoint) {
      return false, offset, codePoint;
    }
    return true, offset, codePoint;
  }

  // ----- Whole texts -----

  /** The conversion of `text` gives the empty text exactly for an empty or ill-formed one. */
  ghost predicate EmptyExactly<S, T>(text: seq<S>, wellFormed: bool, result: seq<T>) {
    result == [] <==> text == [] || !wellFormed
  }

  /** A conversion loop that has read `text[..at]` and written `result` has transcoded `done`. */
  ghost predicate Progress<S, T>(from: u32 -> seq<S>, to: u32 -> seq<T>, text: seq<S>, at: nat, result: seq<T>,
                                 done: seq<u32>)
  {
    at <= |text| && Scalars(done) && Encode(from, done) == text[..at] && Encode(to, done) == result
  }

  lemma StartsProgress<S, T>(from: u32 -> seq<S>, to: u32 -> seq<T>, text: seq<S>)
    ensures Progress(from, to, text, 0, [], [])
  {}

  lemma ProgressSteps<S, T>(from: u32 -> seq<S>, to: u32 -> seq<T>, text: seq<S>, at: nat, next: nat, result: seq<T>,
                            done: seq<u32>, c: u32)
    requires Progress(from, to, text, at, result, done)
    requires at <= next <= |text| && IsScalar(c) && from(c) == text[at..next]
    ensures Progress(from, to, text, next, result + to(c), done + [c])
  {
    EncodeSnoc(from, done, c);
    EncodeSnoc(to, done, c);
    assert text[..next] == text[..at] + text[at..next];
  }

  lemma ProgressEnds<S, T>(from: u32 -> seq<S>, to: u32 -> seq<T>, text: seq<S>, result: seq<T>, done: seq<u32>)
    requires PrefixCode(from) && Progress(from, to, text, |text|, result, done)
    ensures result == Transcode(from, to, text)
  {
    assert text[..|text|] == text;
    TranscodeOf(from, to, done);
  }

  lemma ProgressFails<S, T>(from: u32 -> seq<S>, to: u32 -> seq<T>, text: seq<S>, at: nat, result: seq<T>,
                            done: seq<u32>)
    requires PrefixCode(from) && Progress(from, to, text, at, result, done) && at < |text|
    requires forall c :: IsScalar(c) ==> !(from(c) <= text[at..])
    ensures Transcode(from, to, text) == []
  {
    assert text == text[..at] + text[at..];
    StuckIsIllFormed(from, done, text[at..]);
  }

  lemma Utf8Starts(text: seq<byte>, at: nat, c: u32)
    requires at <= |text| && IsScalar(c) && Utf8(c) <= text[at..]
    ensures StartsWellFormed(text, at)
  {
    GrammarIsExact(Utf8(c));
    assert text[at..at + |Utf8(c)|] == Utf8(c);
  }

  lemma NoUtf8Starts(text: seq<byte>, at: nat)
    requires at < |text| && !StartsWellFormed(text, at)
    ensures forall c :: IsScalar(c) ==> !(Utf8(c) <= text[at..])
  {
    forall c | IsScalar(c) && Utf8(c) <= text[at..] ensures false {
      Utf8Starts(text, at, c);
    }
  }

  lemma NoUtf16Starts(rest: seq<u16>)
    requires rest != []
    requires IsLowUnit(rest[0]) || (IsHighUnit(rest[0]) && (|rest| == 1 || !IsLowUnit(rest[1])))
    ensures forall c :: IsScalar(c) ==> !(Utf16(c) <= rest)
  {}

  method CombineSurrogates(high: u32, low: u32) returns (codePoint: u32)
    ensures codePoint == Pair(high, low)
  {
    codePoint := 0x10000 + ((high - 0xD800) << 10) + (low - 0xDC00);
  }

  /** `c` is encoded between the two positions. */
  ghost predicate Reads(text: seq<u16>, start: nat, next: nat, c: u32) {
    start < next <= |text| && IsScalar(c) && Utf16(c) == text[start..next]
  }

  ghost predicate ReadsNothing(text: seq<u16>, start: nat)
    requires start <= |text|
  {
    forall c :: IsScalar(c) ==> !(Utf16(c) <= text[start..])
  }

  lemma OneUnitReads(text: seq<u16>, start: nat)
    requires start < |text|
    requires !IsHighSurrogate(text[start] as u32) && !IsLowSurrogate(text[start] as u32)
    ensures Reads(text, start, start + 1, text[start] as u32)
  {
    UnitIsScalar(text[start]);
  }

  lemma TwoUnitsRead(text: seq<u16>, start: nat)
    requires start + 1 < |text|
    requires IsHighSurrogate(text[start] as u32) && IsLowSurrogate(text[start + 1] as u32)
    ensures Reads(text, start, start + 2, Pair(text[start] as u32, text[start + 1] as u32))
  {
    hide Utf16, IsScalar, Pair;
    PairIsScalar(text[start], text[start + 1]);
    assert text[start..start + 2] == [text[start], text[start + 1]];
  }

  lemma UnpairedReadsNothing(text: seq<u16>, start: nat)
    requires start < |text|
    requires || IsLowSurrogate(text[start] as u32)
             || (IsHighSurrogate(text[start] as u32)
                 && (start + 1 == |text| || !IsLowSurrogate(text[start + 1] as u32)))
    ensures ReadsNothing(text, start)
  {
    NoUtf16Starts(text[start..]);
  }

  /** One turn of the loop over a two-byte wide text, up to its call of `AppendUtf8`. */
  method ReadUtf16CodePoint(text: seq<u16>, start: nat) returns (ok: bool, next: nat, codePoint: u32)
    requires start < |text|
    ensures if ok then Reads(text, start, next, codePoint) else ReadsNothing(text, start)
  {
    hide Reads, ReadsNothing;
    next := start;
    codePoint := text[next] as u32;
    if IsHighSurrogate(codePoint) {
      next := next + 1;
      if !(next < |text|) {
        UnpairedReadsNothing(text, start);
        return false, next, codePoint;
      }
      var lowSurrogate := text[next] as u32;
      if !IsLowSurrogate(lowSurrogate) {
        UnpairedReadsNothing(text, start);
        return false, next, codePoint;
      }
      codePoint := CombineSurrogates(codePoint, lowSurrogate);
      TwoUnitsRead(text, start);
    } else {
      if IsLowSurrogate(codePoint) {
        UnpairedReadsNothing(text, start);
        return false, next, codePoint;
      }
      OneUnitReads(text, start);
    }
    return true, next + 1, codePoint;
  }

  method WStringToStringUtf16(text: seq<u16>) returns (result: seq<byte>)
    ensures result == Transcode(Utf16, Utf8, text)
    ensures EmptyExactly(text, Paired(text), result)
  {
    hide Utf8, Utf16, Progress, Transcode, Paired, Scalars, Encode, PrefixCode, EmptyExactly, IsScalar;
    EmptyMeansEmptyOrIllFormed([], text, []);
    StartsProgress(Utf16, Utf8, text);
    Utf16IsPrefixCode();
    result := [];
    ghost var done: seq<u32> := [];
    var i := 0;
    while i < |text|
      invariant i <= |text| && Progress(Utf16, Utf8, text, i, result, done)
    {
      var paired, next, codePoint := ReadUtf16CodePoint(text, i);
      if !paired {
        ProgressFails(Utf16, Utf8, text, i, result, done);
        return [];
      }
      ProgressSteps(Utf16, Utf8, text, i, next, result, done, codePoint);
      done := done + [codePoint];
      result := AppendUtf8(result, codePoint);
      i := next;
    }
    ProgressEnds(Utf16, Utf8, text, result, done);
  }

  method WStringToStringUtf32(text: seq<u32>) returns (result: seq<byte>)
    ensures result == Transcode(Utf32, Utf8, text)
    ensures EmptyExactly(text, Scalars(text), result)
  {
    hide Utf8, Progress, Transcode, Scalars, Encode, PrefixCode, EmptyExactly;
    StartsProgress(Utf32, Utf8, text);
    EmptyMeansEmptyOrIllFormed([], [], text);
    Utf32IsPrefixCode();
    result := [];
    ghost var done: seq<u32> := [];
    for i := 0 to |text|
      invariant Progress(Utf32, Utf8, text, i, result, done)
    {
      var codePoint := text[i];
      if !(codePoint <= 0x10FFFF && !IsHighSurrogate(codePoint) && !IsLowSurrogate(codePoint)) {
        forall c | IsScalar(c) ensures !(Utf32(c) <= text[i..]) { assert Utf32(c)[0] == c; }
        ProgressFails(Utf32, Utf8, text, i, result, done);
        return [];
      }
      ProgressSteps(Utf32, Utf8, text, i, i + 1, result, done, codePoint);
      done := done + [codePoint];
      result := AppendUtf8(result, codePoint);
    }
    ProgressEnds(Utf32, Utf8, text, result, done);
  }

  /** What a turn of the loop pushes when wchar_t has two bytes. */
  method AppendUtf16(output: seq<u16>, codePoint: u32) returns (appended: seq<u16>)
    ensures appended == output + Utf16(codePoint)
  {
    Utf16Units(codePoint);
    if codePoint <= 0xFFFF {
      appended := output + [Low16(codePoint)];
    } else {
      var supplementary := codePoint - 0x10000;
      appended := output + [Low16(0xD800 + (supplementary >> 10))];
      appended := appended + [Low16(0xDC00 + (supplementary & 0x3FF))];
    }
  }

  method StringToWStringUtf16(text: seq<byte>) returns (result: seq<u16>)
    ensures result == Transcode(Utf8, Utf16, text)
    ensures EmptyExactly(text, WellFormedText(text), result)
  {
    hide Utf8, Utf16, Progress, StartsWellFormed, Transcode, WellFormedText, Scalars, Encode, PrefixCode, EmptyExactly;
    hide IsScalar;
    EmptyMeansEmptyOrIllFormed(text, [], []);
    StartsProgress(Utf8, Utf16, text);
    Utf8IsPrefixCode();
    result := [];
    ghost var done: seq<u32> := [];
    var offset := 0;
    while offset < |text|
      invariant offset <= |text| && Progress(Utf8, Utf16, text, offset, result, done)
    {
      var decoded, next, codePoint := DecodeUtf8CodePoint(text, offset);
      if !decoded {
        NoUtf8Starts(text, offset);
        ProgressFails(Utf8, Utf16, text, offset, result, done);
        return [];
      }
      ProgressSteps(Utf8, Utf16, text, offset, next, result, done, codePoint);
      done := done + [codePoint];
      result := AppendUtf16(result, codePoint);
      offset := next;
    }
    ProgressEnds(Utf8, Utf16, text, result, done);
  }

  method StringToWStringUtf32(text: seq<byte>) returns (result: seq<u32>)
    ensures result == Transcode(Utf8, Utf32, text)
    ensures EmptyExactly(text, WellFormedText(text), result)
  {
    hide Utf8, Progress, StartsWellFormed, Transcode, WellFormedText, Scalars, Encode, PrefixCode, EmptyExactly;
    StartsProgress(Utf8, Utf32, text);
    EmptyMeansEmptyOrIllFormed(text, [], []);
    Utf8IsPrefixCode();
    result := [];
    ghost var done: seq<u32> := [];
    var offset := 0;
    while offset < |text|
      invariant offset <= |text| && Progress(Utf8, Utf32, text, offset, result, done)
    {
      var decoded, next, codePoint := DecodeUtf8CodePoint(text, offset);
      if !decoded {
        NoUtf8Starts(text, offset);
        ProgressFails(Utf8, Utf32, text, offset, result, done);
        return [];
      }
      ProgressSteps(Utf8, Utf32, text, offset, next, result, done, codePoint);
      done := done + [codePoint];
      result := result + [codePoint];
      offset := next;
    }
    ProgressEnds(Utf8, Utf32, text, result, done);
  }

  // ----- What the conversions promise -----

  lemma PrefixCodes()
    ensures PrefixCode(Utf8) && PrefixCode(Utf16) && PrefixCode(Utf32)
  {
    Utf8IsPrefixCode();
    Utf16IsPrefixCode();
    Utf32IsPrefixCode();
  }

  /** Wide text, in either wchar_t width, survives the trip through UTF-8. */
  lemma WideRoundTrips(w16: seq<u16>, w32: seq<u32>)
    ensures Paired(w16) ==> Transcode(Utf8, Utf16, Transcode(Utf16, Utf8, w16)) == w16
    ensures Scalars(w32) ==> Transcode(Utf8, Utf32, Transcode(Utf32, Utf8, w32)) == w32
  {
    PrefixCodes();
    TranscodeIsInvertible(Utf16, Utf8, w16);
    TranscodeIsInvertible(Utf32, Utf8, w32);
    PairingIsExact(w16);
    Utf32IsIdentity(w32);
  }

  /** Every accepted byte string survives the trip through wide text, in either width. */
  lemma ByteRoundTrips(t: seq<byte>)
    requires WellFormedText(t)
    ensures Transcode(Utf16, Utf8, Transcode(Utf8, Utf16, t)) == t
    ensures Transcode(Utf32, Utf8, Transcode(Utf8, Utf32, t)) == t
  {
    PrefixCodes();
    GrammarAcceptsExactly(t);
    TranscodeIsInvertible(Utf8, Utf16, t);
    TranscodeIsInvertible(Utf8, Utf32, t);
  }

  /** A conversion returns the empty text exactly for an empty or ill-formed input: bytes the grammar does not
    * derive, units with a surrogate that is not paired, or units that are no scalar values.
    */
  lemma EmptyMeansEmptyOrIllFormed(t: seq<byte>, w16: seq<u16>, w32: seq<u32>)
    ensures EmptyExactly(t, WellFormedText(t), Transcode(Utf8, Utf16, t))
    ensures EmptyExactly(t, WellFormedText(t), Transcode(Utf8, Utf32, t))
    ensures EmptyExactly(w16, Paired(w16), Transcode(Utf16, Utf8, w16))
    ensures EmptyExactly(w32, Scalars(w32), Transcode(Utf32, Utf8, w32))
  {
    PrefixCodes();
    TranscodeIsInvertible(Utf8, Utf16, t);
    TranscodeIsInvertible(Utf8, Utf32, t);
    TranscodeIsInvertible(Utf16, Utf8, w16);
    TranscodeIsInvertible(Utf32, Utf8, w32);
    GrammarAcceptsExactly(t);
    PairingIsExact(w16);
    WellFormedUtf32(w32);
  }

  /** A four-byte wide text is well-formed exactly when each unit is a scalar value. */
  lemma WellFormedUtf32(w: seq<u32>)
    ensures Encodes(Utf32, w) <==> Scalars(w)
  {
    Utf32IsIdentity(w);
    forall cs | Scalars(cs) && Encode(Utf32, cs) == w ensures Scalars(w) { Utf32IsIdentity(cs); }
  }

  /** The two wchar_t widths agree: the two-byte result is the RFC 2781 encoding of the four-byte result,
    * both accept the same bytes, and both directions to UTF-8 give the same bytes for the same scalars.
    */
  lemma WidthsAgree(t: seq<byte>, cs: seq<u32>)
    requires Scalars(cs)
    ensures Transcode(Utf8, Utf16, t) == Encode(Utf16, Transcode(Utf8, Utf32, t))
    ensures Transcode(Utf8, Utf16, t) == [] <==> Transcode(Utf8, Utf32, t) == []
    ensures Transcode(Utf16, Utf8, Encode(Utf16, cs)) == Transcode(Utf32, Utf8, cs) == Encode(Utf8, cs)
  {
    PrefixCodes();
    EmptyMeansEmptyOrIllFormed(t, [], []);
    if Encodes(Utf8, t) {
      var ds :| Scalars(ds) && Encode(Utf8, ds) == t;
      TranscodeOf(Utf8, Utf16, ds);
      TranscodeOf(Utf8, Utf32, ds);
      Utf32IsIdentity(ds);
    }
    TranscodeOf(Utf16, Utf8, cs);
    TranscodeOf(Utf32, Utf8, cs);
    Utf32IsIdentity(cs);
  }
}
