/** The line the default pattern of pans/src/Logger/Logger.cc prints. */
module DefaultLine {
  import opened DateCache
  import opened DefaultPattern
  import opened Directives
  import opened Formatting
  import opened Pattern
  import opened Sequences
  import LogLevel
  import Timestamp

  /** Reading `p` gives `text` and then what `q` gives. */
  ghost predicate PrintsThen(clock: Clock, p: string, text: string, q: string, record: Record, cache: Cache) {
    var rest := Interpret(clock, q, record, cache);
    Interpret(clock, p, record, cache) == Output(text + rest.text, rest.cache)
  }

  lemma Both(clock: Clock, p: string, a: string, q: string, b: string, r: string, record: Record, cache: Cache)
    requires PrintsThen(clock, p, a, q, record, cache) && PrintsThen(clock, q, b, r, record, cache)
    ensures PrintsThen(clock, p, a + b, r, record, cache)
  {
    Associates(a, b, Interpret(clock, r, record, cache).text);
  }

  lemma {:induction false} TextThen(clock: Clock, text: string, q: string, record: Record, cache: Cache)
    requires '%' !in text
    ensures PrintsThen(clock, text + q, text, q, record, cache)
  {
    var rest := Interpret(clock, q, record, cache);
    if text == "" {
      assert text + q == q && text + rest.text == rest.text;
    } else {
      assert text[0] in text && (text + q)[1..] == text[1..] + q;
      TextThen(clock, text[1..], q, record, cache);
      Associates([text[0]], text[1..], rest.text);
      assert [text[0]] + text[1..] == text;
    }
  }

  lemma DirectiveThen(clock: Clock, c: char, q: string, record: Record, cache: Cache)
    requires c != '%' && c != 'd' && (q != "" ==> q[0] != '{')
    ensures PrintsThen(clock, ['%', c] + q, RenderDirective(clock, c, "", record, cache).text, q, record, cache)
  {
    hide RenderDirective;
    NoCache(clock, c, record, cache);
    assert PrintToken(Dir(c, "")) == ['%', c];
    ScanInvertsPrint(Dir(c, ""), q);
    assert (['%', c] + q)[2..] == q;
  }

  lemma NoCache(clock: Clock, c: char, record: Record, cache: Cache)
    requires c != 'd'
    ensures RenderDirective(clock, c, "", record, cache).cache == cache
  {}

  // One lemma for each part of the pattern.

  /** A text, a directive and a tab. */
  lemma Labelled(clock: Clock, tag: string, c: char, printed: string, q: string, record: Record, cache: Cache)
    requires '%' !in tag && c != '%' && c != 'd' && (q != "" ==> q[0] != '{')
    requires printed == RenderDirective(clock, c, "", record, cache).text
    ensures PrintsThen(clock, tag + ['%', c, '%', 'T'] + q, tag + printed + "\t", q, record, cache)
  {
    hide PrintsThen, RenderDirective;
    var tab := ['%', 'T'] + q;
    var directive := ['%', c] + tab;
    TextThen(clock, tag, directive, record, cache);
    DirectiveThen(clock, c, tab, record, cache);
    DirectiveThen(clock, 'T', q, record, cache);
    TabPrints(clock, record, cache);
    Both(clock, tag + directive, tag, directive, printed, tab, record, cache);
    Both(clock, tag + directive, tag + printed, tab, "\t", q, record, cache);
    assert tag + directive == tag + ['%', c, '%', 'T'] + q;
  }

  lemma TabPrints(clock: Clock, record: Record, cache: Cache)
    ensures RenderDirective(clock, 'T', "", record, cache).text == "\t"
  {}

  lemma NumbersPrint(clock: Clock, record: Record, cache: Cache, thread: string, fiber: string, line: string)
    requires IsNumeral(thread, record.threadId) && IsNumeral(fiber, record.fiberId) && IsNumeral(line, record.line)
    ensures RenderDirective(clock, 't', "", record, cache).text == thread
    ensures RenderDirective(clock, 'F', "", record, cache).text == fiber
    ensures RenderDirective(clock, 'l', "", record, cache).text == line
  {
    hide IsNumeral, Decimal;
    DecimalDenotes(record.threadId);
    DecimalDenotes(record.fiberId);
    DecimalDenotes(record.line);
    NumeralIsUnique(thread, Decimal(record.threadId), record.threadId);
    NumeralIsUnique(fiber, Decimal(record.fiberId), record.fiberId);
    NumeralIsUnique(line, Decimal(record.line), record.line);
  }

  lemma TextsPrint(clock: Clock, record: Record, cache: Cache)
    ensures RenderDirective(clock, 'f', "", record, cache).text == record.fileName
    ensures RenderDirective(clock, 'm', "", record, cache).text == record.message
    ensures RenderDirective(clock, 'n', "", record, cache).text == "\n"
    ensures RenderDirective(clock, 'p', "", record, cache).text == LogLevel.Name(record.level)
    ensures RenderDirective(clock, 'u', "", record, cache).text == Timestamp.MicrosecondText(record.timestamp)
  {}

  /** `%f:%l%T%m%n`. */
  lemma PlacePart(clock: Clock, p: string, line: string, record: Record, cache: Cache)
    requires p == "%f:%l%T%m%n" && RenderDirective(clock, 'l', "", record, cache).text == line
    ensures PrintsThen(clock, p, record.fileName + (":" + line + "\t") + record.message + "\n", "", record, cache)
  {
    hide PrintsThen, RenderDirective;
    TextsPrint(clock, record, cache);
    var p3, p2 := "%n", "%m%n";
    var p1 := ":%l%T" + p2;
    assert p3 == ['%', 'n'] + "" && p2 == ['%', 'm'] + p3 && p == ['%', 'f'] + p1;
    DirectiveThen(clock, 'f', p1, record, cache);
    assert p1 == ":" + ['%', 'l', '%', 'T'] + p2;
    Labelled(clock, ":", 'l', line, p2, record, cache);
    DirectiveThen(clock, 'm', p3, record, cache);
    DirectiveThen(clock, 'n', "", record, cache);
    var file, place := record.fileName, ":" + line + "\t";
    Both(clock, p, file, p1, place, p2, record, cache);
    Both(clock, p, file + place, p2, record.message, p3, record, cache);
    Both(clock, p, file + place + record.message, p3, "\n", "", record, cache);
  }

  /** `[%p]%T`. */
  lemma LevelPart(clock: Clock, q: string, record: Record, cache: Cache)
    requires q != "" ==> q[0] != '{'
    ensures PrintsThen(clock, "[%p]%T" + q, "[" + LogLevel.Name(record.level) + "]" + "\t", q, record, cache)
  {
    hide PrintsThen, RenderDirective, LogLevel.Name;
    TextsPrint(clock, record, cache);
    TabPrints(clock, record, cache);
    var tab := ['%', 'T'] + q;
    var close := "]" + tab;
    var level := ['%', 'p'] + close;
    var p, name := "[" + level, LogLevel.Name(record.level);
    TextThen(clock, "[", level, record, cache);
    DirectiveThen(clock, 'p', close, record, cache);
    TextThen(clock, "]", tab, record, cache);
    DirectiveThen(clock, 'T', q, record, cache);
    Both(clock, p, "[", level, name, close, record, cache);
    Both(clock, p, "[" + name, close, "]", tab, record, cache);
    Both(clock, p, "[" + name + "]", tab, "\t", q, record, cache);
    assert p == "[%p]%T" + q;
  }

  /** The whole line without its date. */
  ghost function AfterDate(record: Record, thread: string, fiber: string, line: string): string {
    "." + Timestamp.MicrosecondText(record.timestamp) + "\t"
    + ("thread=" + thread + "\t")
    + ("fiber=" + fiber + "\t")
    + ("[" + LogLevel.Name(record.level) + "]" + "\t")
    + (record.fileName + (":" + line + "\t") + record.message + "\n")
  }

  lemma PartsPrint(clock: Clock, record: Record, cache: Cache, thread: string, fiber: string, line: string)
    requires IsNumeral(thread, record.threadId) && IsNumeral(fiber, record.fiberId) && IsNumeral(line, record.line)
    ensures PrintsThen(clock, ".%u%T" + ("thread=%t%T" + ("fiber=%F%T" + ("[%p]%T" + "%f:%l%T%m%n"))),
                       AfterDate(record, thread, fiber, line), "", record, cache)
  {
    hide PrintsThen, RenderDirective, LogLevel.Name, Timestamp.MicrosecondText, IsNumeral;
    TextsPrint(clock, record, cache);
    NumbersPrint(clock, record, cache, thread, fiber, line);
    var p5 := "%f:%l%T%m%n";
    var p4 := "[%p]%T" + p5;
    var p3 := "fiber=%F%T" + p4;
    var p2 := "thread=%t%T" + p3;
    var p1 := ".%u%T" + p2;
    var micro := Timestamp.MicrosecondText(record.timestamp);
    Labelled(clock, ".", 'u', micro, p2, record, cache);
    assert "." + ['%', 'u', '%', 'T'] == ".%u%T";
    Labelled(clock, "thread=", 't', thread, p3, record, cache);
    assert "thread=" + ['%', 't', '%', 'T'] == "thread=%t%T";
    Labelled(clock, "fiber=", 'F', fiber, p4, record, cache);
    assert "fiber=" + ['%', 'F', '%', 'T'] == "fiber=%F%T";
    LevelPart(clock, p5, record, cache);
    PlacePart(clock, p5, line, record, cache);
    var a, b, c := "." + micro + "\t", "thread=" + thread + "\t", "fiber=" + fiber + "\t";
    var d := "[" + LogLevel.Name(record.level) + "]" + "\t";
    var e := record.fileName + (":" + line + "\t") + record.message + "\n";
    Both(clock, p1, a, p2, b, p3, record, cache);
    Both(clock, p1, a + b, p3, c, p4, record, cache);
    Both(clock, p1, a + b + c, p4, d, p5, record, cache);
    Both(clock, p1, a + b + c + d, p5, e, "", record, cache);
  }

  /** A line of the default pattern: date, microseconds, thread, fiber, level, place and message, in that order and with
    * these separators. The numerals are those of the record's ids and line.
    */
  lemma DefaultLinePrints(clock: Clock, record: Record, cache: Cache, thread: string, fiber: string, line: string)
    requires IsNumeral(thread, record.threadId) && IsNumeral(fiber, record.fiberId) && IsNumeral(line, record.line)
    ensures var date := Interpret(clock, "%d{" + "%Y-%m-%d %H:%M:%S" + "}", record, cache);
            Interpret(clock, DEFAULT_LOG_PATTERN, record, cache)
            == Output(date.text + AfterDate(record, thread, fiber, line), date.cache)
  {
    hide Interpret, AfterDate;
    var p := ".%u%T" + ("thread=%t%T" + ("fiber=%F%T" + ("[%p]%T" + "%f:%l%T%m%n")));
    DateThen(clock, "%Y-%m-%d %H:%M:%S", p, record, cache);
    var date := Interpret(clock, "%d{" + "%Y-%m-%d %H:%M:%S" + "}", record, cache);
    PartsPrint(clock, record, date.cache, thread, fiber, line);
    NothingMore(clock, record, date.cache);
    var rest := AfterDate(record, thread, fiber, line);
    assert rest + "" == rest;
  }

  lemma NothingMore(clock: Clock, record: Record, cache: Cache)
    ensures Interpret(clock, "", record, cache) == Output("", cache)
  {}

  lemma DateThen(clock: Clock, arg: string, q: string, record: Record, cache: Cache)
    requires arg != "" && '}' !in arg
    ensures var date := Interpret(clock, "%d{" + arg + "}", record, cache);
            var rest := Interpret(clock, q, record, date.cache);
            Interpret(clock, "%d{" + arg + "}" + q, record, cache) == Output(date.text + rest.text, rest.cache)
  {
    hide RenderDirective, ScanToken;
    var p := "%d{" + arg + "}";
    ScanInvertsPrint(Dir('d', arg), q);
    ReadsOne(clock, 'd', arg, record, cache);
    assert PrintToken(Dir('d', arg)) == p == One('d', arg) && (p + q)[|p|..] == q;
  }
}
