/** What each directive of a pattern prints, in terms of the record's own fields, and that a pattern prints its parts
  * one after the other.
  */
module Directives {
  import opened DateCache
  import opened Formatting
  import opened LogLevel
  import opened Pattern
  import opened Sequences
  import Timestamp

  /** A pattern of one directive. */
  function One(c: char, arg: string): string {
    if arg == "" then ['%', c] else ['%', c, '{'] + arg + "}"
  }

  lemma ScansOne(c: char, arg: string)
    requires c != '%' && '}' !in arg
    ensures ScanToken(One(c, arg)) == Read(Dir(c, arg), |One(c, arg)|)
  {
    ScanInvertsPrint(Dir(c, arg), "");
    assert One(c, arg) + "" == One(c, arg);
  }

  lemma ReadsOne(clock: Clock, c: char, arg: string, record: Record, cache: Cache)
    requires c != '%' && '}' !in arg
    ensures Interpret(clock, One(c, arg), record, cache) == RenderDirective(clock, c, arg, record, cache)
  {
    hide ScanToken, RenderDirective;
    ScansOne(c, arg);
    var p, o := One(c, arg), RenderDirective(clock, c, arg, record, cache);
    assert p[|p|..] == "" && o.text + "" == o.text;
  }

  lemma ReadsBare(clock: Clock, c: char, p: string, record: Record, cache: Cache)
    requires c != '%' && p == ['%', c]
    ensures Interpret(clock, p, record, cache) == RenderDirective(clock, c, "", record, cache)
  {
    hide ScanToken, RenderDirective, Interpret;
    ReadsOne(clock, c, "", record, cache);
  }

  lemma TextDirectives(clock: Clock, record: Record, cache: Cache)
    ensures Interpret(clock, "%m", record, cache) == Output(record.message, cache)
    ensures Interpret(clock, "%c", record, cache) == Output(record.loggerName, cache)
    ensures Interpret(clock, "%f", record, cache) == Output(record.fileName, cache)
    ensures Interpret(clock, "%N", record, cache) == Output(record.threadName, cache)
    ensures Interpret(clock, "%n", record, cache) == Output("\n", cache)
    ensures Interpret(clock, "%T", record, cache) == Output("\t", cache)
  {
    hide ScanToken, Interpret;
    ReadsBare(clock, 'm', "%m", record, cache);
    ReadsBare(clock, 'c', "%c", record, cache);
    ReadsBare(clock, 'f', "%f", record, cache);
    ReadsBare(clock, 'N', "%N", record, cache);
    ReadsBare(clock, 'n', "%n", record, cache);
    ReadsBare(clock, 'T', "%T", record, cache);
  }

  /** Only the date has a use for its argument. */
  lemma ArgumentsIgnored(clock: Clock, c: char, arg: string, record: Record, cache: Cache)
    requires c != '%' && c != 'd' && '}' !in arg && arg != ""
    ensures Interpret(clock, "%" + [c] + "{" + arg + "}", record, cache) == Interpret(clock, ['%', c], record, cache)
  {
    hide ScanToken, Interpret;
    ReadsOne(clock, c, arg, record, cache);
    ReadsOne(clock, c, "", record, cache);
    assert One(c, arg) == "%" + [c] + "{" + arg + "}";
  }

  lemma LevelDirective(clock: Clock, record: Record, cache: Cache)
    ensures var o := Interpret(clock, "%p", record, cache);
            && o.cache == cache
            && (record.level == Debug ==> o.text == "DEBUG") && (record.level == Info ==> o.text == "INFO")
            && (record.level == Warn ==> o.text == "WARN") && (record.level == Error ==> o.text == "ERROR")
            && (record.level == Fatal ==> o.text == "FATAL") && (record.level == Off ==> o.text == "OFF")
  {
    hide ScanToken, Interpret;
    ReadsBare(clock, 'p', "%p", record, cache);
  }

  /** Line, thread and fiber in decimal, and the elapsed nanoseconds in whole milliseconds. */
  lemma NumberDirectives(clock: Clock, record: Record, cache: Cache, milliseconds: int)
    requires Timestamp.Truncates(record.elapsed, 1000000, milliseconds)
    ensures var o := Interpret(clock, "%l", record, cache); o.cache == cache && IsNumeral(o.text, record.line)
    ensures var o := Interpret(clock, "%t", record, cache); o.cache == cache && IsNumeral(o.text, record.threadId)
    ensures var o := Interpret(clock, "%F", record, cache); o.cache == cache && IsNumeral(o.text, record.fiberId)
    ensures var o := Interpret(clock, "%r", record, cache); o.cache == cache && IsNumeral(o.text, milliseconds)
  {
    hide ScanToken, Interpret, IsNumeral, Decimal;
    ReadsBare(clock, 'l', "%l", record, cache);
    ReadsBare(clock, 't', "%t", record, cache);
    ReadsBare(clock, 'F', "%F", record, cache);
    ReadsBare(clock, 'r', "%r", record, cache);
    Timestamp.TruncDivTruncates(record.elapsed, 1000000);
    Timestamp.TruncationIsUnique(record.elapsed, 1000000, milliseconds, Milliseconds(record.elapsed));
    DecimalDenotes(record.line);
    DecimalDenotes(record.threadId);
    DecimalDenotes(record.fiberId);
    DecimalDenotes(milliseconds);
  }

  /** Six digits: the microseconds within the second. */
  lemma MicrosecondDirective(clock: Clock, record: Record, cache: Cache, microseconds: int)
    requires Timestamp.Truncates(record.timestamp, 1000, microseconds)
    ensures var o := Interpret(clock, "%u", record, cache);
            && o.cache == cache && |o.text| == 6 && (forall k :: 0 <= k < 6 ==> Timestamp.IsDigit(o.text[k]))
            && Timestamp.Value(o.text) == microseconds % 1000000
  {
    hide ScanToken, Interpret;
    ReadsBare(clock, 'u', "%u", record, cache);
    Timestamp.MicrosecondTextIsExact(record.timestamp);
    Timestamp.UnitsOfTime(record.timestamp);
    Timestamp.TruncationIsUnique(record.timestamp, 1000, microseconds, Timestamp.Microseconds(record.timestamp));
  }

  /** The date: what the cache holds for the record's second, or a conversion with the directive's own argument. */
  lemma DateDirective(clock: Clock, arg: string, record: Record, cache: Cache, second: int)
    requires '}' !in arg && Timestamp.Truncates(record.timestamp, 1000000000, second)
    ensures var o := Interpret(clock, if arg == "" then "%d" else "%d{" + arg + "}", record, cache);
            if second == cache.lastSecond then o == Output(cache.text, cache)
            else
              match clock(arg, second)
              case Converted(text) => o == Output(text, Cache(second, text))
              case NoLocalTime => o == Output("", cache)
              case NoFormat(left) => o == Output("", Cache(cache.lastSecond, left))
  {
    hide ScanToken, Interpret;
    ReadsOne(clock, 'd', arg, record, cache);
    assert One('d', arg) == if arg == "" then "%d" else "%d{" + arg + "}";
    Timestamp.UnitsOfTime(record.timestamp);
    Timestamp.TruncationIsUnique(record.timestamp, 1000000000, second, Timestamp.Seconds(record.timestamp));
  }

  /** The one-directive patterns that compile. */
  lemma DirectivesAccepted(c: char)
    ensures Parse(['%', c]).Accepted? <==> c in {'%', 'm', 'p', 'r', 'c', 't', 'n', 'd', 'u', 'f', 'l', 'T', 'F', 'N'}
    ensures Parse(['%', c]).Rejected? ==> Parse(['%', c]).code == -3
  {
    var p := ['%', c];
    var token := if c == '%' then Plain('%') else Dir(c, "");
    var tokens, item := [token], if c == '%' then Literal("%") else Directive(c, "");
    assert p[2..] == "" && Tokens(p) == Accepted(tokens + []);
    assert tokens + [] == tokens && tokens[1..] == [] && "" + ['%'] == "%";
    var items := [item];
    assert [] + items + [] == items;
    assert Build("", tokens) == items;
    assert items[0] == item && (AllKnown(items) <==> c == '%' || Known(c));
  }

  // ----- Patterns print their parts one after the other -----

  lemma {:induction false} TokensInSequence(clock: Clock, x: seq<Token>, y: seq<Token>, record: Record, cache: Cache)
    ensures var first := RenderTokens(clock, x, record, cache);
            var rest := RenderTokens(clock, y, record, first.cache);
            RenderTokens(clock, x + y, record, cache) == Output(first.text + rest.text, rest.cache)
    decreases |x|
  {
    hide RenderToken;
    if x == [] {
      assert x + y == y;
      var rest := RenderTokens(clock, y, record, cache);
      assert "" + rest.text == rest.text;
    } else {
      var o := RenderToken(clock, x[0], record, cache);
      assert (x + y)[0] == x[0] && (x + y)[1..] == x[1..] + y;
      TokensInSequence(clock, x[1..], y, record, o.cache);
      var first := RenderTokens(clock, x[1..], record, o.cache);
      Associates(o.text, first.text, RenderTokens(clock, y, record, first.cache).text);
    }
  }

  /** `q` does not read as the argument of a directive that `p` ends in. */
  ghost predicate Apart(p: string, q: string)
    requires Tokens(p).Accepted?
  {
    var tokens := Tokens(p).value; tokens != [] ==> Separated(tokens[|tokens| - 1], q)
  }

  /** Reading `p` and then `q`: the texts in that order, the cache handed on. */
  lemma PatternsInSequence(clock: Clock, p: string, q: string, record: Record, cache: Cache)
    requires Tokens(p).Accepted? && Tokens(q).Accepted? && Apart(p, q)
    ensures var first := Interpret(clock, p, record, cache);
            var rest := Interpret(clock, q, record, first.cache);
            Interpret(clock, p + q, record, cache) == Output(first.text + rest.text, rest.cache)
  {
    hide Interpret, RenderTokens;
    var x, y := Tokens(p).value, Tokens(q).value;
    PrintedTokens(p);
    TokensOfPrinted(x, q);
    InterpretIsTokens(clock, p, record, cache);
    InterpretIsTokens(clock, q, record, RenderTokens(clock, x, record, cache).cache);
    InterpretIsTokens(clock, p + q, record, cache);
    TokensInSequence(clock, x, y, record, cache);
  }
}
