/** Rendering compiled patterns, pans/src/Logger/formatter.cc: what each item appends, the `Formatter` that
  * compiles and runs them, and the direct reading of a pattern it is equivalent to.
  */
module Formatting {
  import opened Buffer
  import opened DateCache
  import opened Pattern
  import LogLevel
  import Timestamp

  /** `LogRecordView`; times are signed nanosecond counts. */
  datatype Record = Record(level: LogLevel.Level, loggerName: string, message: string, timestamp: int, elapsed: int,
                           threadId: nat, fiberId: nat, threadName: string, fileName: string, line: nat)

  /** `std::to_chars` in base ten. */
  function Decimal(n: int): string
    decreases if n < 0 then 1 else 0, if n < 0 then -n else n
  {
    if n < 0 then "-" + Decimal(-n)
    else if n < 10 then [('0' as int + n) as char]
    else Decimal(n / 10) + [('0' as int + n % 10) as char]
  }

  /** `text` is the decimal numeral of `n`: digits without leading zeros that denote it, after a minus sign if it is
    * negative. No other text is.
    */
  predicate IsNumeral(text: string, n: int) {
    if n < 0 then text != "" && text[0] == '-' && IsNumeral(text[1..], -n)
    else
      && text != "" && (forall k :: 0 <= k < |text| ==> Timestamp.IsDigit(text[k]))
      && (|text| > 1 ==> text[0] != '0') && Timestamp.Value(text) == n
  }

  lemma OneDigit(n: nat)
    requires n < 10
    ensures IsNumeral([('0' as int + n) as char], n)
  {
    Timestamp.ValueSnoc("", n);
    assert "" + [('0' as int + n) as char] == [('0' as int + n) as char];
  }

  lemma MoreDigits(front: string, n: nat)
    requires n >= 10 && IsNumeral(front, n / 10)
    ensures IsNumeral(front + [('0' as int + n % 10) as char], n)
  {
    NotZero(front, n / 10);
    Timestamp.ValueSnoc(front, n % 10);
  }

  lemma {:induction false} DecimalDenotes(n: int)
    ensures IsNumeral(Decimal(n), n)
    decreases if n < 0 then 1 else 0, if n < 0 then -n else n
  {
    if n < 0 {
      DecimalDenotes(-n);
      assert ("-" + Decimal(-n))[1..] == Decimal(-n);
    } else if n >= 10 {
      DecimalDenotes(n / 10);
      MoreDigits(Decimal(n / 10), n);
    } else {
      OneDigit(n);
    }
  }

  lemma NotZero(text: string, n: int)
    requires IsNumeral(text, n) && n > 0
    ensures text[0] != '0'
  {
    if |text| == 1 { assert text[..0] == "" && Timestamp.Value(text[..0]) == 0; }
  }

  lemma {:induction false} Positive(text: string)
    requires text != "" && text[0] != '0' && forall k :: 0 <= k < |text| ==> Timestamp.IsDigit(text[k])
    ensures Timestamp.Value(text) > 0
    decreases |text|
  {
    if |text| == 1 {
      assert text[..0] == "" && Timestamp.Value(text[..0]) == 0;
    } else {
      Positive(text[..|text| - 1]);
    }
  }

  lemma LastDigit(text: string, n: nat)
    requires IsNumeral(text, n)
    ensures var front, last := text[..|text| - 1], text[|text| - 1];
            && last as int - '0' as int == n % 10
            && (if n < 10 then front == "" else IsNumeral(front, n / 10))
  {
    var front := text[..|text| - 1];
    assert Timestamp.Value(text) == 10 * Timestamp.Value(front) + (text[|text| - 1] as int - '0' as int);
    if front != "" { Positive(front); }
  }

  /** So the contracts that promise a numeral promise one text. */
  lemma {:induction false} NumeralIsUnique(a: string, b: string, n: int)
    requires IsNumeral(a, n) && IsNumeral(b, n)
    ensures a == b
    decreases |a|
  {
    if n < 0 {
      NumeralIsUnique(a[1..], b[1..], -n);
      assert a == [a[0]] + a[1..] && b == [b[0]] + b[1..];
    } else {
      LastDigit(a, n);
      LastDigit(b, n);
      if n >= 10 { NumeralIsUnique(a[..|a| - 1], b[..|b| - 1], n / 10); }
      assert a == a[..|a| - 1] + [a[|a| - 1]] && b == b[..|b| - 1] + [b[|b| - 1]];
    }
  }

  function Milliseconds(duration: int): int { Timestamp.TruncDiv(duration, 1000000) }

  /** What the item of a directive appends; only dates use and change the thread's cache. */
  function RenderDirective(clock: Clock, c: char, arg: string, record: Record, cache: Cache): Output {
    match c
    case 'm' => Output(record.message, cache)
    case 'p' => Output(LogLevel.Name(record.level), cache)
    case 'r' => Output(Decimal(Milliseconds(record.elapsed)), cache)
    case 'c' => Output(record.loggerName, cache)
    case 't' => Output(Decimal(record.threadId), cache)
    case 'n' => Output("\n", cache)
    case 'd' => DateCache.Render(clock, arg, Timestamp.Seconds(record.timestamp), cache)
    case 'u' => Output(Timestamp.MicrosecondText(record.timestamp), cache)
    case 'f' => Output(record.fileName, cache)
    case 'l' => Output(Decimal(record.line), cache)
    case 'T' => Output("\t", cache)
    case 'F' => Output(Decimal(record.fiberId), cache)
    case 'N' => Output(record.threadName, cache)
    case _ => Output("", cache)
  }

  function RenderItem(clock: Clock, item: Item, record: Record, cache: Cache): Output {
    match item
    case Literal(text) => Output(text, cache)
    case Directive(c, arg) => RenderDirective(clock, c, arg, record, cache)
  }

  /** The items in order, each seeing the cache the one before it left. */
  function RenderItems(clock: Clock, items: seq<Item>, record: Record, cache: Cache): Output {
    if items == [] then Output("", cache)
    else
      var first := RenderItem(clock, items[0], record, cache);
      var rest := RenderItems(clock, items[1..], record, first.cache);
      Output(first.text + rest.text, rest.cache)
  }

  // ----- Compiling preserves meaning -----

  /** Reading the pattern string from left to right and appending as it goes: no items and no literals, one
    * character or directive at a time. It stops where the pattern is malformed.
    */
  function Interpret(clock: Clock, p: string, record: Record, cache: Cache): Output
    decreases |p|
  {
    if p == "" then Output("", cache)
    else if p[0] != '%' then
      var rest := Interpret(clock, p[1..], record, cache);
      Output([p[0]] + rest.text, rest.cache)
    else if |p| >= 2 && p[1] == '%' then
      var rest := Interpret(clock, p[2..], record, cache);
      Output("%" + rest.text, rest.cache)
    else
      match ScanToken(p)
      case Stop(_) => Output("", cache)
      case Read(token, length) =>
        var first := RenderToken(clock, token, record, cache);
        var rest := Interpret(clock, p[length..], record, first.cache);
        Output(first.text + rest.text, rest.cache)
  }

  function RenderToken(clock: Clock, token: Token, record: Record, cache: Cache): Output {
    match token
    case Plain(c) => Output([c], cache)
    case Dir(c, arg) => RenderDirective(clock, c, arg, record, cache)
  }

  function RenderTokens(clock: Clock, tokens: seq<Token>, record: Record, cache: Cache): Output {
    if tokens == [] then Output("", cache)
    else
      var first := RenderToken(clock, tokens[0], record, cache);
      var rest := RenderTokens(clock, tokens[1..], record, first.cache);
      Output(first.text + rest.text, rest.cache)
  }

  lemma {:induction false} InterpretIsTokens(clock: Clock, p: string, record: Record, cache: Cache)
    requires Tokens(p).Accepted?
    ensures Interpret(clock, p, record, cache) == RenderTokens(clock, Tokens(p).value, record, cache)
    decreases |p|
  {
    if p != "" {
      var r := ScanToken(p);
      var more := p[r.length..];
      var rest := Tokens(more).value;
      assert Tokens(p).value == [r.token] + rest;
      assert ([r.token] + rest)[1..] == rest;
      InterpretIsTokens(clock, more, record, RenderToken(clock, r.token, record, cache).cache);
    }
  }

  lemma RenderItemsCons(clock: Clock, item: Item, items: seq<Item>, record: Record, cache: Cache)
    ensures var first := RenderItem(clock, item, record, cache);
            var rest := RenderItems(clock, items, record, first.cache);
            RenderItems(clock, [item] + items, record, cache) == Output(first.text + rest.text, rest.cache)
  {}

  lemma RenderFlush(clock: Clock, literal: string, items: seq<Item>, record: Record, cache: Cache)
    ensures var rest := RenderItems(clock, items, record, cache);
            RenderItems(clock, Flush(literal) + items, record, cache) == Output(literal + rest.text, rest.cache)
  {
    var rest := RenderItems(clock, items, record, cache);
    if literal == "" {
      assert Flush(literal) + items == items && literal + rest.text == rest.text;
    } else {
      RenderItemsCons(clock, Literal(literal), items, record, cache);
    }
  }

  /** Coalescing characters into literals does not change what is appended. */
  lemma {:induction false} BuildKeepsMeaning(clock: Clock, literal: string, tokens: seq<Token>, record: Record,
                                             cache: Cache)
    ensures var o := RenderTokens(clock, tokens, record, cache);
            RenderItems(clock, Build(literal, tokens), record, cache) == Output(literal + o.text, o.cache)
    decreases |tokens|
  {
    if tokens == [] {
      RenderFlush(clock, literal, [], record, cache);
      assert Flush(literal) + [] == Flush(literal);
    } else {
      var tail := tokens[1..];
      match tokens[0]
      case Plain(c) =>
        BuildKeepsMeaning(clock, literal + [c], tail, record, cache);
        var o := RenderTokens(clock, tail, record, cache);
        assert literal + [c] + o.text == literal + ([c] + o.text);
      case Dir(c, arg) =>
        var item, items := Directive(c, arg), Build("", tail);
        var first := RenderItem(clock, item, record, cache);
        BuildKeepsMeaning(clock, "", tail, record, first.cache);
        var o := RenderTokens(clock, tail, record, first.cache);
        assert "" + o.text == o.text;
        RenderItemsCons(clock, item, items, record, cache);
        RenderFlush(clock, literal, [item] + items, record, cache);
        assert Flush(literal) + [item] + items == Flush(literal) + ([item] + items);
    }
  }

  /** Running the compiled items is reading the pattern: same text, same cache afterwards. */
  lemma CompilingPreservesMeaning(clock: Clock, p: string, record: Record, cache: Cache)
    requires Parse(p).Accepted?
    ensures RenderItems(clock, Parse(p).value, record, cache) == Interpret(clock, p, record, cache)
  {
    InterpretIsTokens(clock, p, record, cache);
    BuildKeepsMeaning(clock, "", Tokens(p).value, record, cache);
    var o := RenderTokens(clock, Tokens(p).value, record, cache);
    assert "" + o.text == o.text;
  }

  /** A literal text, with its `%` doubled, prints as itself whatever the record. */
  lemma EscapedLiteralPrintsItself(clock: Clock, text: string, record: Record, cache: Cache)
    requires text != ""
    ensures Interpret(clock, Print([Literal(text)]), record, cache) == Output(text, cache)
  {
    var items := [Literal(text)];
    assert CanonicalAt(items, 0);
    ParseInvertsPrint(items);
    CompilingPreservesMeaning(clock, Print(items), record, cache);
    RenderItemsCons(clock, Literal(text), [], record, cache);
    assert items == [Literal(text)] + [] && text + "" == text;
  }

  // ----- The formatter -----

  /** The parse loop has read `pattern[..index]`: what is left to read completes the same item list. */
  ghost predicate Progress(pattern: string, index: nat, items: seq<Item>, literal: string) {
    && index <= |pattern|
    && match Tokens(pattern[index..])
       case Rejected(code) => Tokens(pattern) == Rejected(code)
       case Accepted(rest) =>
         Tokens(pattern).Accepted? && Build("", Tokens(pattern).value) == items + Build(literal, rest)
  }

  lemma ProgressReads(pattern: string, index: nat, items: seq<Item>, literal: string, token: Token, length: nat)
    requires Progress(pattern, index, items, literal) && index < |pattern|
    requires ScanToken(pattern[index..]) == Read(token, length)
    ensures match token
            case Plain(c) => Progress(pattern, index + length, items, literal + [c])
            case Dir(c, arg) => Progress(pattern, index + length, items + Flush(literal) + [Directive(c, arg)], "")
  {}

  // One lemma for each way through the loop body.

  lemma StartsReading(pattern: string)
    ensures Progress(pattern, 0, [], "")
  {}

  lemma ReadsCharacter(pattern: string, index: nat, items: seq<Item>, literal: string)
    requires Progress(pattern, index, items, literal) && index < |pattern| && pattern[index] != '%'
    ensures Progress(pattern, index + 1, items, literal + [pattern[index]])
  {}

  lemma ReadsPercent(pattern: string, index: nat, items: seq<Item>, literal: string)
    requires Progress(pattern, index, items, literal)
    requires index + 1 < |pattern| && pattern[index] == '%' && pattern[index + 1] == '%'
    ensures Progress(pattern, index + 2, items, literal + ['%'])
  {}

  /** The position of the closing brace the parser looks for, or |pattern|. */
  function ClosingBrace(pattern: string, index: nat): nat
    requires index + 3 <= |pattern|
  {
    index + 3 + Find(pattern[index + 3..], '}')
  }

  ghost predicate DirectiveAt(pattern: string, index: nat) {
    index + 1 < |pattern| && pattern[index] == '%' && pattern[index + 1] != '%'
  }

  ghost predicate BraceAt(pattern: string, index: nat) {
    DirectiveAt(pattern, index) && index + 2 < |pattern| && pattern[index + 2] == '{'
  }

  lemma ReadsDirective(pattern: string, index: nat, items: seq<Item>, literal: string)
    requires Progress(pattern, index, items, literal)
    requires DirectiveAt(pattern, index) && !BraceAt(pattern, index)
    ensures Progress(pattern, index + 2, items + Flush(literal) + [Directive(pattern[index + 1], "")], "")
  {
    var p := pattern[index..];
    assert p[1] == pattern[index + 1] && (|p| > 2 ==> p[2] == pattern[index + 2]);
    ProgressReads(pattern, index, items, literal, Dir(pattern[index + 1], ""), 2);
  }

  lemma ScansArgument(pattern: string, index: nat)
    requires BraceAt(pattern, index)
    ensures var p, brace := pattern[index..], ClosingBrace(pattern, index);
            ScanToken(p) == if brace == |pattern| || brace == index + 3 then Stop(BAD_ARGUMENT)
                            else Read(Dir(pattern[index + 1], pattern[index + 3..brace]), brace + 1 - index)
  {
    var p := pattern[index..];
    assert p[1] == pattern[index + 1] && p[2] == pattern[index + 2] && p[3..] == pattern[index + 3..];
    var n := Find(p[3..], '}');
    assert p[3..3 + n] == pattern[index + 3..index + 3 + n];
  }

  lemma ReadsArgument(pattern: string, index: nat, items: seq<Item>, literal: string)
    requires Progress(pattern, index, items, literal) && BraceAt(pattern, index)
    ensures var brace := ClosingBrace(pattern, index);
            if brace == |pattern| || brace == index + 3 then Parse(pattern) == Rejected(BAD_ARGUMENT)
            else Progress(pattern, brace + 1,
                          items + Flush(literal) + [Directive(pattern[index + 1], pattern[index + 3..brace])], "")
  {
    hide Find, ScanToken;
    var brace := ClosingBrace(pattern, index);
    ScansArgument(pattern, index);
    if !(brace == |pattern| || brace == index + 3) {
      var arg := pattern[index + 3..brace];
      ProgressReads(pattern, index, items, literal, Dir(pattern[index + 1], arg), brace + 1 - index);
    }
  }

  lemma StopsIncomplete(pattern: string, index: nat, items: seq<Item>, literal: string)
    requires Progress(pattern, index, items, literal) && index + 1 == |pattern| && pattern[index] == '%'
    ensures Parse(pattern) == Rejected(INCOMPLETE_DIRECTIVE)
  {}

  lemma ReadsToTheEnd(pattern: string, items: seq<Item>, literal: string)
    requires Progress(pattern, |pattern|, items, literal)
    ensures var all := items + Flush(literal);
            Parse(pattern) == if AllKnown(all) then Accepted(all) else Rejected(UNKNOWN_DIRECTIVE)
  {}

  class Formatter {
    const pattern: string
    var items: seq<Item>

    /** A formatter that its constructor let through. */
    ghost predicate Valid()
      reads this
    {
      Parse(pattern) == Accepted(items)
    }

    constructor (pattern: string)
      ensures this.pattern == pattern && items == []
    {
      this.pattern := pattern;
      items := [];
    }

    method AddLiteral(literal: string) returns (cleared: string)
      modifies this
      ensures items == old(items) + Flush(literal) && cleared == ""
    {
      if literal == "" {
        return literal;
      }
      items := items + [Literal(literal)];
      cleared := "";
    }

    /** `parse`: zero and the compiled items, or the error code. */
    method ParsePattern() returns (code: int)
      requires items == []
      modifies this
      ensures code == 0 <==> Pattern.Parse(pattern).Accepted?
      ensures code == 0 ==> Valid()
      ensures code != 0 ==> Pattern.Parse(pattern) == Rejected(code)
    {
      hide Progress, Tokens, Build, ScanToken, Find, Known, AllKnown, Pattern.Parse;
      var literal := "";
      var index := 0;
      StartsReading(pattern);
      while index < |pattern|
        invariant index <= |pattern| && Progress(pattern, index, items, literal)
        decreases |pattern| - index
      {
        ghost var start, itemsBefore, literalBefore := index, items, literal;
        if pattern[index] != '%' {
          ReadsCharacter(pattern, index, items, literal);
          literal := literal + [pattern[index]];
          index := index + 1;
          continue;
        }
        if !(index + 1 < |pattern|) {
          StopsIncomplete(pattern, index, items, literal);
          return INCOMPLETE_DIRECTIVE;
        }
        index := index + 1;
        var directive := pattern[index];
        if directive == '%' {
          ReadsPercent(pattern, start, items, literal);
          literal := literal + ['%'];
          index := index + 1;
          continue;
        }
        literal := AddLiteral(literal);
        var itemFormat := "";
        if index + 1 < |pattern| && pattern[index + 1] == '{' {
          ReadsArgument(pattern, start, itemsBefore, literalBefore);
          var closingBrace := index + 2 + Find(pattern[index + 2..], '}');
          if closingBrace == |pattern| || closingBrace == index + 2 {
            return BAD_ARGUMENT;
          }
          itemFormat := pattern[index + 2..closingBrace];
          index := closingBrace;
        } else {
          ReadsDirective(pattern, start, itemsBefore, literalBefore);
        }
        items := items + [Directive(directive, itemFormat)];
        index := index + 1;
      }
      ReadsToTheEnd(pattern, items, literal);
      literal := AddLiteral(literal);
      code := CheckItems();
    }

    /** The check for items without a factory at the end of `parse`. */
    method CheckItems() returns (code: int)
      ensures code == if AllKnown(items) then 0 else UNKNOWN_DIRECTIVE
    {
      for i := 0 to |items|
        invariant AllKnown(items[..i])
      {
        if items[i].Directive? && !Known(items[i].c) {
          return UNKNOWN_DIRECTIVE;
        }
      }
      assert items[..|items|] == items;
      return 0;
    }

    /** `Formatter::format`. */
    method Format(clock: Clock, record: Record, output: InlineBuffer, cache: ThreadCache)
      requires output.Valid()
      modifies output, output.inline, cache
      ensures output.Valid()
      ensures var o := RenderItems(clock, items, record, old(cache.Value()));
              output.View() == old(output.View()) + o.text && cache.Value() == o.cache
    {
      ghost var start := output.View();
      ghost var whole := RenderItems(clock, items, record, cache.Value());
      assert items[0..] == items;
      for i := 0 to |items|
        invariant output.Valid()
        invariant var rest := RenderItems(clock, items[i..], record, cache.Value());
                  output.View() + rest.text == start + whole.text && rest.cache == whole.cache
      {
        ghost var first := RenderItem(clock, items[i], record, cache.Value());
        ghost var rest := RenderItems(clock, items[i + 1..], record, first.cache);
        ghost var before := output.View();
        assert items[i..][0] == items[i] && items[i..][1..] == items[i + 1..];
        assert (before + first.text) + rest.text == before + (first.text + rest.text);
        FormatItem(clock, items[i], record, output, cache);
      }
    }
  }

  method AppendInteger(output: InlineBuffer, value: int)
    requires output.Valid()
    modifies output, output.inline
    ensures output.Valid() && output.View() == old(output.View()) + Decimal(value)
  {
    output.Append(Decimal(value));
  }

  /** The item classes' `format`. */
  method FormatItem(clock: Clock, item: Item, record: Record, output: InlineBuffer, cache: ThreadCache)
    requires output.Valid()
    modifies output, output.inline, cache
    ensures output.Valid()
    ensures var o := RenderItem(clock, item, record, old(cache.Value()));
            output.View() == old(output.View()) + o.text && cache.Value() == o.cache
  {
    if item.Literal? {
      output.Append(item.text);
      return;
    }
    match item.c {
      case 'm' => output.Append(record.message);
      case 'p' => output.Append(LogLevel.Name(record.level));
      case 'r' => AppendInteger(output, Milliseconds(record.elapsed));
      case 'c' => output.Append(record.loggerName);
      case 't' => AppendInteger(output, record.threadId);
      case 'n' => output.AppendChar('\n');
      case 'd' =>
        var text := cache.Format(clock, item.arg, Timestamp.Seconds(record.timestamp));
        output.Append(text);
      case 'u' =>
        var digits := Timestamp.MicrosecondDigits(record.timestamp);
        output.Append(digits);
      case 'f' => output.Append(record.fileName);
      case 'l' => AppendInteger(output, record.line);
      case 'T' => output.AppendChar('\t');
      case 'F' => AppendInteger(output, record.fiberId);
      case 'N' => output.Append(record.threadName);
      case _ =>
    }
  }

  /** The constructor: null when it throws. */
  method MakeFormatter(pattern: string) returns (formatter: Formatter?)
    ensures formatter == null <==> Parse(pattern).Rejected?
    ensures formatter != null ==> fresh(formatter) && formatter.Valid() && formatter.pattern == pattern
  {
    formatter := new Formatter(pattern);
    var code := formatter.ParsePattern();
    if code != 0 {
      return null;
    }
  }
}
