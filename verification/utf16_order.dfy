/** Which surrogate pair belongs to which code point (RFC 2781 section 2.1): `PairingIsExact` makes the assignment onto
  * all pairs, and here it is in order, which leaves only one.
  */
module Utf16Order {
  import opened Lexicographic
  import opened Unicode

  predicate UnitLess(x: u16, y: u16) { x < y }

  predicate UnitAtMost(x: u16, y: u16) { x < y || x == y }

  lemma HighUnitsAreOrdered(c: u32, d: u32)
    requires 0x10000 <= c && c < d && d <= 0x10FFFF
    ensures UnitAtMost(HighUnit(c), HighUnit(d))
  {}

  lemma LowUnitsAreOrdered(c: u32, d: u32)
    requires 0x10000 <= c && c < d && d <= 0x10FFFF
    requires HighUnit(c) == HighUnit(d)
    ensures LowUnit(c) < LowUnit(d)
  {}

  lemma DifferInPair(s0: u16, s1: u16, t0: u16, t1: u16)
    requires UnitLess(s0, t0) || (s0 == t0 && UnitLess(s1, t1))
    ensures OrderedBefore(UnitLess, [s0, s1], [t0, t1])
  {
    hide UnitLess;
    Differ(UnitLess, [s0, s1], [t0, t1], if s0 == t0 && UnitLess(s1, t1) then 1 else 0);
  }

  /** A smaller supplementary code point has a smaller pair, unit by unit. */
  lemma PairsAreOrdered(c: u32, d: u32)
    requires 0x10000 <= c && c < d && d <= 0x10FFFF
    ensures |Utf16(c)| == 2 && |Utf16(d)| == 2 && OrderedBefore(UnitLess, Utf16(c), Utf16(d))
  {
    hide Utf16, HighUnit, LowUnit;
    Utf16Units(c);
    Utf16Units(d);
    HighUnitsAreOrdered(c, d);
    var s0, s1, t0, t1 := HighUnit(c), LowUnit(c), HighUnit(d), LowUnit(d);
    if s0 == t0 { LowUnitsAreOrdered(c, d); }
    assert Utf16(c) == [s0, s1] && Utf16(d) == [t0, t1];
    DifferInPair(s0, s1, t0, t1);
  }

  /** A basic code point is its own unit. */
  lemma BasicCodesAreThemselves(c: u32)
    requires c <= 0xFFFF
    ensures |Utf16(c)| == 1 && Utf16(c)[0] as u32 == c
  {
    BasicUnit(c);
  }

  /** The first, the last and one other supplementary code point, with their pairs. */
  lemma SomePairs()
    ensures Utf16(0x10000) == [0xD800, 0xDC00] && Utf16(0x10FFFF) == [0xDBFF, 0xDFFF]
    ensures Utf16(0x10400) == [0xD801, 0xDC00]
  {}
}
