/** UTF-8 preserves order (RFC 3629 section 1): sorting encoded texts byte by byte sorts them by code point. */
module Utf8Order {
  import opened Lexicographic
  import opened Unicode

  predicate ByteLess(x: byte, y: byte) { x < y }

  predicate CodePointLess(x: u32, y: u32) { x < y }

  // A smaller code point of the same length: at the first byte that differs, its byte is the smaller one.

  predicate AtMost(x: byte, y: byte) { x < y || x == y }

  lemma TwoLeads(c: u32, d: u32)
    requires 0x80 <= c && c < d && d <= 0x7FF
    ensures AtMost(Low8(0xC0 | (c >> 6)), Low8(0xC0 | (d >> 6)))
  {}

  lemma TwoLasts(c: u32, d: u32)
    requires 0x80 <= c && c < d && d <= 0x7FF
    requires Low8(0xC0 | (c >> 6)) == Low8(0xC0 | (d >> 6))
    ensures Low8(0x80 | (c & 0x3F)) < Low8(0x80 | (d & 0x3F))
  {}

  lemma ThreeLeads(c: u32, d: u32)
    requires 0x800 <= c && c < d && d <= 0xFFFF
    ensures AtMost(Low8(0xE0 | (c >> 12)), Low8(0xE0 | (d >> 12)))
  {}

  lemma ThreeSeconds(c: u32, d: u32)
    requires 0x800 <= c && c < d && d <= 0xFFFF
    requires Low8(0xE0 | (c >> 12)) == Low8(0xE0 | (d >> 12))
    ensures var x, y := Low8(0x80 | ((c >> 6) & 0x3F)), Low8(0x80 | ((d >> 6) & 0x3F)); AtMost(x, y)
  {}

  lemma ThreeLasts(c: u32, d: u32)
    requires 0x800 <= c && c < d && d <= 0xFFFF
    requires Low8(0xE0 | (c >> 12)) == Low8(0xE0 | (d >> 12))
    requires Low8(0x80 | ((c >> 6) & 0x3F)) == Low8(0x80 | ((d >> 6) & 0x3F))
    ensures Low8(0x80 | (c & 0x3F)) < Low8(0x80 | (d & 0x3F))
  {}

  lemma FourLeads(c: u32, d: u32)
    requires 0x10000 <= c && c < d && d <= 0x10FFFF
    ensures AtMost(Low8(0xF0 | (c >> 18)), Low8(0xF0 | (d >> 18)))
  {}

  lemma FourSeconds(c: u32, d: u32)
    requires 0x10000 <= c && c < d && d <= 0x10FFFF
    requires Low8(0xF0 | (c >> 18)) == Low8(0xF0 | (d >> 18))
    ensures var x, y := Low8(0x80 | ((c >> 12) & 0x3F)), Low8(0x80 | ((d >> 12) & 0x3F)); AtMost(x, y)
  {}

  lemma FourThirds(c: u32, d: u32)
    requires 0x10000 <= c && c < d && d <= 0x10FFFF
    requires Low8(0xF0 | (c >> 18)) == Low8(0xF0 | (d >> 18))
    requires Low8(0x80 | ((c >> 12) & 0x3F)) == Low8(0x80 | ((d >> 12) & 0x3F))
    ensures var x, y := Low8(0x80 | ((c >> 6) & 0x3F)), Low8(0x80 | ((d >> 6) & 0x3F)); AtMost(x, y)
  {}

  lemma FourLasts(c: u32, d: u32)
    requires 0x10000 <= c && c < d && d <= 0x10FFFF
    requires Low8(0xF0 | (c >> 18)) == Low8(0xF0 | (d >> 18))
    requires Low8(0x80 | ((c >> 12) & 0x3F)) == Low8(0x80 | ((d >> 12) & 0x3F))
    requires Low8(0x80 | ((c >> 6) & 0x3F)) == Low8(0x80 | ((d >> 6) & 0x3F))
    ensures Low8(0x80 | (c & 0x3F)) < Low8(0x80 | (d & 0x3F))
  {}

  lemma DifferInTwo(s0: byte, s1: byte, t0: byte, t1: byte)
    requires AtMost(s0, t0) && (s0 == t0 ==> s1 < t1)
    ensures OrderedBefore(ByteLess, [s0, s1], [t0, t1])
  {
    Differ(ByteLess, [s0, s1], [t0, t1], if s0 != t0 then 0 else 1);
  }

  lemma DifferInThree(s0: byte, s1: byte, s2: byte, t0: byte, t1: byte, t2: byte)
    requires AtMost(s0, t0) && (s0 == t0 ==> AtMost(s1, t1)) && (s0 == t0 && s1 == t1 ==> s2 < t2)
    ensures OrderedBefore(ByteLess, [s0, s1, s2], [t0, t1, t2])
  {
    Differ(ByteLess, [s0, s1, s2], [t0, t1, t2], if s0 != t0 then 0 else if s1 != t1 then 1 else 2);
  }

  lemma DifferInFour(s0: byte, s1: byte, s2: byte, s3: byte, t0: byte, t1: byte, t2: byte, t3: byte)
    requires AtMost(s0, t0) && (s0 == t0 ==> AtMost(s1, t1))
    requires s0 == t0 && s1 == t1 ==> AtMost(s2, t2) && (s2 == t2 ==> s3 < t3)
    ensures OrderedBefore(ByteLess, [s0, s1, s2, s3], [t0, t1, t2, t3])
  {
    Differ(ByteLess, [s0, s1, s2, s3], [t0, t1, t2, t3],
           if s0 != t0 then 0 else if s1 != t1 then 1 else if s2 != t2 then 2 else 3);
  }

  lemma OrderOfTwo(c: u32, d: u32)
    requires 0x80 <= c && c < d && d <= 0x7FF
    ensures OrderedBefore(ByteLess, Utf8(c), Utf8(d))
  {
    var s0, s1 := Low8(0xC0 | (c >> 6)), Low8(0x80 | (c & 0x3F));
    var t0, t1 := Low8(0xC0 | (d >> 6)), Low8(0x80 | (d & 0x3F));
    TwoLeads(c, d);
    if s0 == t0 { TwoLasts(c, d); }
    DifferInTwo(s0, s1, t0, t1);
  }

  lemma OrderOfThree(c: u32, d: u32)
    requires 0x800 <= c && c < d && d <= 0xFFFF
    ensures OrderedBefore(ByteLess, Utf8(c), Utf8(d))
  {
    var s0, s1, s2 := Low8(0xE0 | (c >> 12)), Low8(0x80 | ((c >> 6) & 0x3F)), Low8(0x80 | (c & 0x3F));
    var t0, t1, t2 := Low8(0xE0 | (d >> 12)), Low8(0x80 | ((d >> 6) & 0x3F)), Low8(0x80 | (d & 0x3F));
    ThreeLeads(c, d);
    if s0 == t0 {
      ThreeSeconds(c, d);
      if s1 == t1 { ThreeLasts(c, d); }
    }
    DifferInThree(s0, s1, s2, t0, t1, t2);
  }

  lemma OrderOfFour(c: u32, d: u32)
    requires 0x10000 <= c && c < d && d <= 0x10FFFF
    ensures OrderedBefore(ByteLess, Utf8(c), Utf8(d))
  {
    var s0, s1 := Low8(0xF0 | (c >> 18)), Low8(0x80 | ((c >> 12) & 0x3F));
    var s2, s3 := Low8(0x80 | ((c >> 6) & 0x3F)), Low8(0x80 | (c & 0x3F));
    var t0, t1 := Low8(0xF0 | (d >> 18)), Low8(0x80 | ((d >> 12) & 0x3F));
    var t2, t3 := Low8(0x80 | ((d >> 6) & 0x3F)), Low8(0x80 | (d & 0x3F));
    FourLeads(c, d);
    if s0 == t0 {
      FourSeconds(c, d);
      if s1 == t1 {
        FourThirds(c, d);
        if s2 == t2 { FourLasts(c, d); }
      }
    }
    DifferInFour(s0, s1, s2, s3, t0, t1, t2, t3);
  }

  /** Codes of different lengths, or of length one, already differ at the lead byte. */
  lemma LeadsDiffer(c: u32, d: u32)
    requires IsScalar(c) && IsScalar(d) && c < d
    requires d <= 0x7F || c <= 0x7F || (c <= 0x7FF && 0x800 <= d) || (c <= 0xFFFF && 0x10000 <= d)
    ensures Utf8(c)[0] < Utf8(d)[0]
  {}

  /** A smaller scalar has a smaller code, and the difference shows inside both codes. */
  lemma CodesAreOrdered(c: u32, d: u32)
    requires IsScalar(c) && IsScalar(d) && c < d
    ensures OrderedBefore(ByteLess, Utf8(c), Utf8(d))
  {
    if 0x80 <= c && d <= 0x7FF {
      OrderOfTwo(c, d);
    } else if 0x800 <= c && d <= 0xFFFF {
      OrderOfThree(c, d);
    } else if 0x10000 <= c {
      OrderOfFour(c, d);
    } else {
      LeadsDiffer(c, d);
      Differ(ByteLess, Utf8(c), Utf8(d), 0);
    }
  }

  lemma {:induction false} OrderIsPreserved(a: seq<u32>, b: seq<u32>)
    requires Scalars(a) && Scalars(b) && LexLess(CodePointLess, a, b)
    ensures LexLess(ByteLess, Encode(Utf8, a), Encode(Utf8, b))
  {
    assert IsScalar(b[0]);
    if a == [] {
      Utf8IsPrefixCode();
      EncodeIsEmpty(Utf8, b);
    } else if a[0] < b[0] {
      assert IsScalar(a[0]);
      CodesAreOrdered(a[0], b[0]);
      OrderedTextsStayOrdered(ByteLess, Utf8(a[0]), Utf8(b[0]), Encode(Utf8, a[1..]), Encode(Utf8, b[1..]));
    } else {
      OrderIsPreserved(a[1..], b[1..]);
      CommonPrefix(ByteLess, Utf8(a[0]), Encode(Utf8, a[1..]), Encode(Utf8, b[1..]));
    }
  }

  // Bit-vector trichotomy, eight bits at a time.

  lemma HighPartDecides(x: u32, y: u32)
    ensures (x >> 8) < (y >> 8) ==> x < y
  {}

  lemma LowPartDecides(x: u32, y: u32)
    requires (x >> 8) == (y >> 8)
    ensures (x & 0xFF) < (y & 0xFF) ==> x < y
    ensures (x & 0xFF) == (y & 0xFF) ==> x == y
  {}

  predicate Comparable(x: u32, y: u32) { x < y || y < x || x == y }

  lemma TotalInByte(x: u32, y: u32)
    requires x <= 0xFF && y <= 0xFF
    ensures Comparable(x, y)
  {}

  lemma TotalStep(x: u32, y: u32, xHigh: u32, yHigh: u32)
    requires xHigh == x >> 8 && yHigh == y >> 8 && Comparable(xHigh, yHigh)
    ensures Comparable(x, y)
  {
    HighPartDecides(x, y);
    HighPartDecides(y, x);
    if xHigh == yHigh {
      LowPartDecides(x, y);
      LowPartDecides(y, x);
      TotalInByte(x & 0xFF, y & 0xFF);
    }
  }

  lemma Bytes(x: u32)
    requires x <= 0x10FFFF
    ensures (x >> 8) >> 8 <= 0xFF
  {}

  lemma ScalarsAreTotal(x: u32, y: u32)
    requires IsScalar(x) && IsScalar(y)
    ensures Comparable(x, y)
  {
    Bytes(x);
    Bytes(y);
    var x1, y1 := x >> 8, y >> 8;
    var x2, y2 := x1 >> 8, y1 >> 8;
    TotalInByte(x2, y2);
    TotalStep(x1, y1, x2, y2);
    TotalStep(x, y, x1, y1);
  }

  lemma {:induction false} CodePointsAreTotal(a: seq<u32>, b: seq<u32>)
    requires Scalars(a) && Scalars(b)
    ensures a == b || LexLess(CodePointLess, a, b) || LexLess(CodePointLess, b, a)
  {
    if a != [] && b != [] {
      ScalarsAreTotal(a[0], b[0]);
      CodePointsAreTotal(a[1..], b[1..]);
      assert a == [a[0]] + a[1..] && b == [b[0]] + b[1..];
    }
  }

  lemma BytesAreAsymmetric(s: seq<byte>, t: seq<byte>)
    ensures !(LexLess(ByteLess, s, t) && LexLess(ByteLess, t, s))
  {}

  /** Byte order of the encodings is code point order of the texts, in both directions. */
  lemma ByteOrderIsCodePointOrder(a: seq<u32>, b: seq<u32>)
    requires Scalars(a) && Scalars(b)
    ensures LexLess(ByteLess, Encode(Utf8, a), Encode(Utf8, b)) <==> LexLess(CodePointLess, a, b)
  {
    CodePointsAreTotal(a, b);
    BytesAreAsymmetric(Encode(Utf8, a), Encode(Utf8, b));
    if LexLess(CodePointLess, a, b) { OrderIsPreserved(a, b); }
    if LexLess(CodePointLess, b, a) { OrderIsPreserved(b, a); }
  }
}
