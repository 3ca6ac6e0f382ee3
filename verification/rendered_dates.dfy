/** The date cache behind whole log lines: when the lines a thread renders are those of a renderer that converts
  * every date afresh.
  */
module RenderedDates {
  import opened DateCache
  import opened Formatting
  import opened Pattern
  import opened Sequences
  import Timestamp

  datatype Line = Line(pattern: string, record: Record)

  /** The lines' patterns are those of loggers: accepted. */
  ghost predicate AllAccepted(lines: seq<Line>) {
    forall k :: 0 <= k < |lines| ==> Tokens(lines[k].pattern).Accepted?
  }

  /** What a thread renders, line by line. */
  function Rendered(clock: Clock, lines: seq<Line>, cache: Cache): seq<string> {
    if lines == [] then []
    else
      var o := Interpret(clock, lines[0].pattern, lines[0].record, cache);
      [o.text] + Rendered(clock, lines[1..], o.cache)
  }

  // ----- The renderer that always converts -----

  function Second(record: Record): int { Timestamp.Seconds(record.timestamp) }

  /** A cache that cannot answer for the record's second. */
  function Useless(record: Record): Cache { Cache(Second(record) + 1, "") }

  function FreshToken(clock: Clock, token: Token, record: Record): string {
    RenderToken(clock, token, record, Useless(record)).text
  }

  function FreshLine(clock: Clock, tokens: seq<Token>, record: Record): string {
    if tokens == [] then "" else FreshToken(clock, tokens[0], record) + FreshLine(clock, tokens[1..], record)
  }

  function FreshLines(clock: Clock, lines: seq<Line>): seq<string>
    requires AllAccepted(lines)
  {
    if lines == [] then []
    else [FreshLine(clock, Tokens(lines[0].pattern).value, lines[0].record)] + FreshLines(clock, lines[1..])
  }

  // ----- The dates the lines ask for -----

  function DateOf(token: Token, record: Record): seq<Request> {
    if token.Dir? && token.c == 'd' then [Request(token.arg, Second(record))] else []
  }

  function Dates(tokens: seq<Token>, record: Record): seq<Request> {
    if tokens == [] then []
    else DateOf(tokens[0], record) + Dates(tokens[1..], record)
  }

  function AllDates(lines: seq<Line>): seq<Request>
    requires AllAccepted(lines)
  {
    if lines == [] then []
    else Dates(Tokens(lines[0].pattern).value, lines[0].record) + AllDates(lines[1..])
  }

  /** The cache after a run of date calls. */
  function After(clock: Clock, requests: seq<Request>, cache: Cache): Cache {
    if requests == [] then cache
    else After(clock, requests[1..], Render(clock, requests[0].format, requests[0].second, cache).cache)
  }

  lemma {:induction false} RunSplits(clock: Clock, x: seq<Request>, y: seq<Request>, cache: Cache)
    ensures Outputs(clock, x + y, cache) == Outputs(clock, x, cache) + Outputs(clock, y, After(clock, x, cache))
    ensures After(clock, x + y, cache) == After(clock, y, After(clock, x, cache))
    ensures |Outputs(clock, x, cache)| == |x|
  {
    if x == [] {
      assert x + y == y;
    } else {
      var o := Render(clock, x[0].format, x[0].second, cache);
      assert (x + y)[0] == x[0] && (x + y)[1..] == x[1..] + y;
      RunSplits(clock, x[1..], y, o.cache);
      Associates([o.text], Outputs(clock, x[1..], o.cache), Outputs(clock, y, After(clock, x, cache)));
    }
  }

  lemma ConvertsConcat(clock: Clock, x: seq<Request>, y: seq<Request>)
    ensures Converts(clock, x + y) <==> Converts(clock, x) && Converts(clock, y)
  {
    if Converts(clock, x + y) {
      forall k | 0 <= k < |x| ensures ConvertsOne(clock, x[k]) { assert ConvertsOne(clock, (x + y)[k]); }
      forall k | 0 <= k < |y| ensures ConvertsOne(clock, y[k]) { assert ConvertsOne(clock, (x + y)[|x| + k]); }
    }
  }

  lemma {:induction false} FreshSplits(clock: Clock, x: seq<Request>, y: seq<Request>)
    requires Converts(clock, x) && Converts(clock, y)
    ensures Converts(clock, x + y) && FreshTexts(clock, x + y) == FreshTexts(clock, x) + FreshTexts(clock, y)
    ensures |FreshTexts(clock, x)| == |x|
  {
    ConvertsConcat(clock, x, y);
    if x == [] {
      assert x + y == y;
    } else {
      ConvertsTail(clock, x);
      assert (x + y)[0] == x[0] && (x + y)[1..] == x[1..] + y;
      FreshSplits(clock, x[1..], y);
      Associates([Fresh(clock, x[0])], FreshTexts(clock, x[1..]), FreshTexts(clock, y));
    }
  }

  lemma EqualParts<T>(a: seq<T>, b: seq<T>, c: seq<T>, d: seq<T>)
    requires a + b == c + d && |a| == |c|
    ensures a == c && b == d
  {
    assert a == (a + b)[..|a|] && c == (c + d)[..|c|] && b == (a + b)[|a|..] && d == (c + d)[|c|..];
  }

  /** A transparent run is transparent in both its parts. */
  lemma TransparentParts(clock: Clock, x: seq<Request>, y: seq<Request>, cache: Cache)
    requires Converts(clock, x + y) && Transparent(clock, x + y, cache)
    ensures Converts(clock, x) && Transparent(clock, x, cache)
    ensures Converts(clock, y) && Transparent(clock, y, After(clock, x, cache))
  {
    ConvertsConcat(clock, x, y);
    RunSplits(clock, x, y, cache);
    FreshSplits(clock, x, y);
    EqualParts(Outputs(clock, x, cache), Outputs(clock, y, After(clock, x, cache)), FreshTexts(clock, x),
               FreshTexts(clock, y));
  }

  // ----- Transparent dates make transparent lines -----

  lemma OneToken(clock: Clock, token: Token, record: Record, cache: Cache)
    ensures var dates := DateOf(token, record);
            var o := RenderToken(clock, token, record, cache);
            && o.cache == After(clock, dates, cache)
            && (Converts(clock, dates) && Transparent(clock, dates, cache)
                ==> o.text == FreshToken(clock, token, record))
  {
    var dates := DateOf(token, record);
    if dates != [] {
      assert dates[1..] == [];
      if Converts(clock, dates) && Transparent(clock, dates, cache) {
        assert ConvertsOne(clock, dates[0]);
        assert Outputs(clock, dates, cache)[0] == FreshTexts(clock, dates)[0];
      }
    }
  }

  lemma {:induction false} OneLine(clock: Clock, tokens: seq<Token>, record: Record, cache: Cache)
    ensures var dates := Dates(tokens, record); var o := RenderTokens(clock, tokens, record, cache);
            && o.cache == After(clock, dates, cache)
            && (Converts(clock, dates) && Transparent(clock, dates, cache)
                ==> o.text == FreshLine(clock, tokens, record))
  {
    if tokens != [] {
      var rest := tokens[1..];
      var x, y := DateOf(tokens[0], record), Dates(rest, record);
      OneToken(clock, tokens[0], record, cache);
      OneLine(clock, rest, record, After(clock, x, cache));
      RunSplits(clock, x, y, cache);
      if Converts(clock, x + y) && Transparent(clock, x + y, cache) { TransparentParts(clock, x, y, cache); }
    }
  }

  lemma {:induction false} ManyLines(clock: Clock, lines: seq<Line>, cache: Cache)
    requires AllAccepted(lines) && Converts(clock, AllDates(lines)) && Transparent(clock, AllDates(lines), cache)
    ensures Rendered(clock, lines, cache) == FreshLines(clock, lines)
  {
    if lines != [] {
      var tokens, record, rest := Tokens(lines[0].pattern).value, lines[0].record, lines[1..];
      InterpretIsTokens(clock, lines[0].pattern, record, cache);
      OneLine(clock, tokens, record, cache);
      TransparentParts(clock, Dates(tokens, record), AllDates(rest), cache);
      ManyLines(clock, rest, After(clock, Dates(tokens, record), cache));
    }
  }

  // ----- A first date in second 0 always shows -----

  /** Rendered with an empty text for its second in the cache, a token lacks its date. */
  lemma TokenWithoutDate(clock: Clock, token: Token, record: Record, cache: Cache)
    requires cache == Cache(Second(record), "") || DateOf(token, record) == []
    requires Converts(clock, DateOf(token, record))
    ensures var o := RenderToken(clock, token, record, cache);
            && o.cache == cache && |o.text| + |DateOf(token, record)| <= |FreshToken(clock, token, record)|
            && (DateOf(token, record) == [] ==> o.text == FreshToken(clock, token, record))
  {
    if DateOf(token, record) != [] { assert ConvertsOne(clock, DateOf(token, record)[0]); }
  }

  lemma {:induction false} LineWithoutDates(clock: Clock, tokens: seq<Token>, record: Record, cache: Cache)
    requires cache == Cache(Second(record), "") || Dates(tokens, record) == []
    requires Converts(clock, Dates(tokens, record))
    ensures var o := RenderTokens(clock, tokens, record, cache);
            && o.cache == cache && |o.text| + |Dates(tokens, record)| <= |FreshLine(clock, tokens, record)|
            && (Dates(tokens, record) == [] ==> o.text == FreshLine(clock, tokens, record))
  {
    hide RenderToken, FreshToken, DateOf;
    if tokens != [] {
      ConvertsConcat(clock, DateOf(tokens[0], record), Dates(tokens[1..], record));
      TokenWithoutDate(clock, tokens[0], record, cache);
      LineWithoutDates(clock, tokens[1..], record, cache);
    }
  }

  lemma {:induction false} SecondZeroShows(clock: Clock, lines: seq<Line>)
    requires AllAccepted(lines) && Converts(clock, AllDates(lines))
    requires AllDates(lines) != [] && AllDates(lines)[0].second == 0
    ensures Rendered(clock, lines, EMPTY) != FreshLines(clock, lines)
  {
    hide RenderTokens, FreshLine, Dates, Converts, Tokens, Interpret;
    var tokens, record, rest := Tokens(lines[0].pattern).value, lines[0].record, lines[1..];
    var dates := Dates(tokens, record);
    InterpretIsTokens(clock, lines[0].pattern, record, EMPTY);
    ConvertsConcat(clock, dates, AllDates(rest));
    SameSecond(tokens, record);
    LineWithoutDates(clock, tokens, record, EMPTY);
    var o := RenderTokens(clock, tokens, record, EMPTY);
    ConsIsInjective(o.text, Rendered(clock, rest, o.cache), FreshLine(clock, tokens, record), FreshLines(clock, rest));
    if dates == [] {
      assert dates + AllDates(rest) == AllDates(rest);
      SecondZeroShows(clock, rest);
    }
  }

  lemma {:induction false} SameSecond(tokens: seq<Token>, record: Record)
    ensures forall k :: 0 <= k < |Dates(tokens, record)| ==> Dates(tokens, record)[k].second == Second(record)
  {
    if tokens != [] { SameSecond(tokens[1..], record); }
  }

  // ----- The lines of a new thread -----

  /** On a new thread whose conversions succeed, every line is rendered as if each date were converted afresh, if
    * the first date is not in second 0 and consecutive dates in one second ask for formats that give the same text;
    * and only if the first date is not in second 0.
    */
  lemma LinesAreTransparent(clock: Clock, lines: seq<Line>)
    requires AllAccepted(lines) && Converts(clock, AllDates(lines))
    ensures var dates := AllDates(lines); var same := Rendered(clock, lines, EMPTY) == FreshLines(clock, lines);
            && (dates == [] || (dates[0].second != 0 && AllAgree(clock, dates)) ==> same)
            && (same ==> dates == [] || dates[0].second != 0)
  {
    var dates := AllDates(lines);
    if dates == [] {
      ManyLines(clock, lines, EMPTY);
    } else {
      CacheIsTransparentExactly(clock, dates);
      if dates[0].second == 0 {
        SecondZeroShows(clock, lines);
      } else if AllAgree(clock, dates) {
        ManyLines(clock, lines, EMPTY);
      }
    }
  }

  /** With one date format on the thread that is exact. */
  lemma OneFormatLines(clock: Clock, lines: seq<Line>, format: string)
    requires AllAccepted(lines) && Converts(clock, AllDates(lines))
    requires forall k :: 0 <= k < |AllDates(lines)| ==> AllDates(lines)[k].format == format
    ensures Rendered(clock, lines, EMPTY) == FreshLines(clock, lines) <==>
            AllDates(lines) == [] || AllDates(lines)[0].second != 0
  {
    LinesAreTransparent(clock, lines);
    var dates := AllDates(lines);
    forall k | 0 < k < |dates| ensures Agrees(clock, dates, k) {
      assert dates[k].format == dates[k - 1].format;
    }
  }
}
