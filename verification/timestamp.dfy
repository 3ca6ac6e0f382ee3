/** The parts of a timestamp that the log formatter prints: whole seconds and six microsecond digits.
  * Timestamps are signed nanosecond counts since the epoch.
  */
module Timestamp {
  import opened Lexicographic

  const MICROSECONDS_PER_SECOND := 1000000

  /** C++ integer division and remainder, which truncate toward zero. */
  function TruncDiv(a: int, b: int): int
    requires 0 < b
  {
    if a >= 0 then a / b else -((-a) / b)
  }

  function TruncMod(a: int, b: int): int
    requires 0 < b
  {
    a - b * TruncDiv(a, b)
  }

  /** duration_cast to seconds, and to microseconds. */
  function Seconds(timestamp: int): int { TruncDiv(timestamp, 1000000000) }

  function Microseconds(timestamp: int): int { TruncDiv(timestamp, 1000) }

  /** `quotient` is `n / unit` truncated toward zero: the remainder is smaller than the unit and has the sign of `n`. */
  predicate Truncates(n: int, unit: int, quotient: int) {
    if n >= 0 then unit * quotient <= n < unit * quotient + unit
    else unit * quotient - unit < n <= unit * quotient
  }

  lemma TruncDivTruncates(n: int, unit: int)
    requires 0 < unit
    ensures Truncates(n, unit, TruncDiv(n, unit))
  {
    var m := if n >= 0 then n else -n;
    assert m == unit * (m / unit) + m % unit;
  }

  lemma TruncationIsUnique(n: int, unit: int, p: int, q: int)
    requires 0 < unit && Truncates(n, unit, p) && Truncates(n, unit, q)
    ensures p == q
  {
    if p < q { LessByUnit(unit, p, q); }
    if q < p { LessByUnit(unit, q, p); }
  }

  lemma {:induction false} LessByUnit(unit: int, p: int, q: int)
    requires 0 < unit && p < q
    ensures unit * p + unit <= unit * q
    decreases q - p
  {
    assert unit * q == unit * (q - 1) + unit;
    if p < q - 1 { LessByUnit(unit, p, q - 1); }
  }

  /** Whole seconds and whole microseconds of a nanosecond count. */
  lemma UnitsOfTime(timestamp: int)
    ensures Truncates(timestamp, 1000000000, Seconds(timestamp)) && Truncates(timestamp, 1000, Microseconds(timestamp))
  {
    TruncDivTruncates(timestamp, 1000000000);
    TruncDivTruncates(timestamp, 1000);
  }

  /** The last `width` decimal digits of `value`, most significant first. */
  function Digits(value: nat, width: nat): string {
    if width == 0 then "" else Digits(value / 10, width - 1) + [('0' as int + value % 10) as char]
  }

  /** The number a digit string denotes. */
  function Value(digits: string): int {
    if digits == "" then 0 else 10 * Value(digits[..|digits| - 1]) + (digits[|digits| - 1] as int - '0' as int)
  }

  predicate IsDigit(c: char) { '0' <= c <= '9' }

  /** What `MicrosecondsFormatItem` prints. */
  function MicrosecondText(timestamp: int): string {
    Digits(Microseconds(timestamp) % MICROSECONDS_PER_SECOND, 6)
  }

  function Pow10(n: nat): nat {
    if n == 0 then 1 else 10 * Pow10(n - 1)
  }

  lemma ValueSnoc(digits: string, digit: nat)
    requires digit < 10
    ensures var c := ('0' as int + digit) as char; IsDigit(c) && Value(digits + [c]) == 10 * Value(digits) + digit
  {
    var c := ('0' as int + digit) as char;
    var s := digits + [c];
    assert s[..|s| - 1] == digits && s[|s| - 1] == c;
  }

  lemma {:induction false} DigitsDenote(value: nat, width: nat)
    requires value < Pow10(width)
    ensures |Digits(value, width)| == width && Value(Digits(value, width)) == value
    ensures forall k :: 0 <= k < width ==> IsDigit(Digits(value, width)[k])
  {
    if width > 0 {
      DigitsDenote(value / 10, width - 1);
      ValueSnoc(Digits(value / 10, width - 1), value % 10);
    }
  }

  lemma SixDigits()
    ensures Pow10(6) == MICROSECONDS_PER_SECOND
  {}

  predicate CharLess(x: char, y: char) { x < y }

  /** Fixed-width digits sort like the numbers they denote. */
  lemma {:induction false} DigitsAreSorted(a: nat, b: nat, width: nat)
    requires a < b < Pow10(width)
    ensures OrderedBefore(CharLess, Digits(a, width), Digits(b, width))
  {
    var u, v := Digits(a / 10, width - 1), Digits(b / 10, width - 1);
    var x, y := ('0' as int + a % 10) as char, ('0' as int + b % 10) as char;
    if a / 10 < b / 10 {
      DigitsAreSorted(a / 10, b / 10, width - 1);
      OrderedBeforeExtends(CharLess, u, v, [x], [y]);
    } else {
      Differ(CharLess, u + [x], v + [y], |u|);
    }
  }

  /** For every timestamp, before the epoch or after: exactly six digits, and they denote the non-negative
    * remainder of the microsecond count modulo one million.
    */
  lemma MicrosecondTextIsExact(timestamp: int)
    ensures var s := MicrosecondText(timestamp);
            && |s| == 6 && (forall k :: 0 <= k < 6 ==> IsDigit(s[k]))
            && Value(s) == Microseconds(timestamp) % MICROSECONDS_PER_SECOND
  {
    SixDigits();
    DigitsDenote(Microseconds(timestamp) % MICROSECONDS_PER_SECOND, 6);
  }

  /** Printed seconds and microseconds rebuild the microsecond count exactly from the epoch on, and before it
    * only on whole seconds: there the seconds are truncated toward zero but the digits count up from below.
    */
  lemma PartsRebuildExactly(timestamp: int)
    ensures var us := Microseconds(timestamp);
            Seconds(timestamp) * MICROSECONDS_PER_SECOND + Value(MicrosecondText(timestamp)) == us
            <==> us >= 0 || us % MICROSECONDS_PER_SECOND == 0
  {
    MicrosecondTextIsExact(timestamp);
    SecondsOfMicroseconds(timestamp);
    var us := Microseconds(timestamp);
    if us < 0 {
      var n := -us;
      assert n == MICROSECONDS_PER_SECOND * (n / MICROSECONDS_PER_SECOND) + n % MICROSECONDS_PER_SECOND;
      assert us == MICROSECONDS_PER_SECOND * (us / MICROSECONDS_PER_SECOND) + us % MICROSECONDS_PER_SECOND;
    }
  }

  /** One microsecond before the epoch prints as second 0 and 999999 microseconds. */
  lemma BeforeTheEpoch()
    ensures Seconds(-1000) == 0 && Value(MicrosecondText(-1000)) == 999999
  {
    MicrosecondTextIsExact(-1000);
  }

  lemma SecondsOfMicroseconds(timestamp: int)
    ensures Seconds(timestamp) == TruncDiv(Microseconds(timestamp), MICROSECONDS_PER_SECOND)
  {}

  /** From the epoch on, ordering log lines by (second, microsecond digits) is ordering them by time. */
  lemma PartsAreSorted(t: int, u: int)
    requires 0 <= t && 0 <= u
    ensures Microseconds(t) < Microseconds(u) <==>
            || Seconds(t) < Seconds(u)
            || (Seconds(t) == Seconds(u) && LexLess(CharLess, MicrosecondText(t), MicrosecondText(u)))
  {
    SecondsOfMicroseconds(t);
    SecondsOfMicroseconds(u);
    SixDigits();
    var a, b := Microseconds(t) % MICROSECONDS_PER_SECOND, Microseconds(u) % MICROSECONDS_PER_SECOND;
    if a < b { TextsAreSorted(a, b); }
    if b < a { TextsAreSorted(b, a); }
    LexIsAsymmetric(CharLess, Digits(a, 6), Digits(b, 6));
  }

  lemma TextsAreSorted(a: nat, b: nat)
    requires a < b < Pow10(6)
    ensures LexLess(CharLess, Digits(a, 6), Digits(b, 6))
  {
    DigitsAreSorted(a, b, 6);
    OrderedTextsStayOrdered(CharLess, Digits(a, 6), Digits(b, 6), "", "");
    assert Digits(a, 6) + "" == Digits(a, 6) && Digits(b, 6) + "" == Digits(b, 6);
  }

  lemma NoDigits(value: nat, rest: string)
    ensures Digits(value, 0) + rest == rest
  {}

  lemma OneDigit(value: nat, width: nat, rest: string)
    ensures Digits(value, width + 1) + rest == Digits(value / 10, width) + ([('0' as int + value % 10) as char] + rest)
  {}

  /** The digit loop of `MicrosecondsFormatItem::format`. */
  method MicrosecondDigits(timestamp: int) returns (text: string)
    ensures text == MicrosecondText(timestamp)
  {
    hide Digits;
    var total := Microseconds(timestamp);
    var microseconds := TruncMod(total, 1000000);
    if microseconds < 0 {
      microseconds := microseconds + 1000000;
    }
    RemainderIsEuclidean(total);
    var digits := new char[6];
    var remaining := microseconds;
    var index := digits.Length;
    assert digits[6..] == "" && Digits(remaining, 6) + "" == Digits(remaining, 6);
    while index > 0
      invariant 0 <= index <= 6 && 0 <= remaining
      invariant Digits(remaining, index) + digits[index..] == MicrosecondText(timestamp)
    {
      index := index - 1;
      ghost var before, rest := remaining, digits[index + 1..];
      var digit := ('0' as int + remaining % 10) as char;
      digits[index] := digit;
      remaining := remaining / 10;
      assert digits[index..] == [digit] + rest;
      OneDigit(before, index, rest);
    }
    text := digits[..];
    assert digits[0..] == digits[..];
    NoDigits(remaining, text);
  }

  lemma RemainderIsEuclidean(total: int)
    ensures var r := TruncMod(total, 1000000); (if r < 0 then r + 1000000 else r) == total % MICROSECONDS_PER_SECOND
  {}
}
