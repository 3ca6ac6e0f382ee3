/** One log statement, pans/src/Logger/LogLine.cc and the macros of pans/include/pans/Logger/Log.h. */
module LogLines {
  import opened Appenders
  import opened Buffer
  import opened DateCache
  import opened Formatting
  import opened LogLevel
  import opened Loggers

  const LOG_MESSAGE_INLINE_CAPACITY := 128
  const PRINTF_FORMAT_INLINE_CAPACITY := 128

  /** What the constructor reads from the clock and the thread, and the macro from the call. */
  datatype Site = Site(timestamp: int, elapsed: int, threadId: nat, fiberId: nat, threadName: string,
                       fileName: string, line: nat)

  /** The record a logger gets from a call: the logger's name, the call's level and message, and the site's data, each
    * in its own field.
    */
  function MakeRecord(logger: Logger, level: Level, site: Site, message: string): (r: Record)
    ensures r.level == level && r.loggerName == logger.name && r.message == message
    ensures r.timestamp == site.timestamp && r.elapsed == site.elapsed
    ensures r.threadId == site.threadId && r.fiberId == site.fiberId && r.threadName == site.threadName
    ensures r.fileName == site.fileName && r.line == site.line
  {
    Record(level, logger.name, message, site.timestamp, site.elapsed, site.threadId, site.fiberId, site.threadName,
           site.fileName, site.line)
  }

  /** `message` went through `logger`. */
  twostate predicate Logged(clock: Clock, logger: Logger, level: Level, site: Site, message: string, cache: ThreadCache)
    reads *
  {
    Received(clock, MakeRecord(logger, level, site, message), cache, old(logger.Reaches(level)),
             old(logger.Owner().formatter.pattern), old(logger.Owner().appenders))
  }

  class LogLine {
    const logger: Logger
    const level: Level
    const site: Site
    const message: InlineBuffer
    const stream: SmallStreamBuffer

    ghost predicate Valid()
      reads message
    {
      stream.buffer == message && message.Valid()
    }

    constructor (logger: Logger, level: Level, site: Site)
      ensures this.logger == logger && this.level == level && this.site == site
      ensures Valid() && fresh(message) && fresh(message.inline) && message.View() == ""
    {
      this.logger := logger;
      this.level := level;
      this.site := site;
      var buffer := new InlineBuffer(LOG_MESSAGE_INLINE_CAPACITY);
      message := buffer;
      stream := new SmallStreamBuffer(buffer);
    }

    /** The destructor. */
    method Destroy(clock: Clock, cache: ThreadCache)
      requires Valid() && logger.Valid()
      modifies cache, logger.Owner().appenders
      ensures Logged(clock, logger, level, site, old(message.View()), cache)
    {
      var text := message.GetView();
      logger.Submit(clock, MakeRecord(logger, level, site, text), cache);
    }
  }

  /** What `vsnprintf` makes of a format and its arguments: a text, or an encoding error. */
  datatype Expansion = Fails | Text(text: string)

  /** The characters `vsnprintf` stores in a buffer of `size` characters, the terminator not counted. */
  function Stored(text: string, size: nat): string {
    if |text| < size then text else if size == 0 then "" else text[..size - 1]
  }

  /** `std::vsnprintf`. A failing call may leave anything in the buffer. */
  method Vsnprintf(buffer: array<char>, expansion: Expansion) returns (required: int)
    modifies buffer
    ensures required < 0 <==> expansion.Fails?
    ensures expansion.Text? ==>
              && required == |expansion.text|
              && var stored := Stored(expansion.text, buffer.Length);
                 buffer[..|stored|] == stored && (buffer.Length > 0 ==> buffer[|stored|] == 0 as char)
  {
    if expansion.Fails? {
      return -1;
    }
    var stored := Stored(expansion.text, buffer.Length);
    if buffer.Length > 0 {
      forall i | 0 <= i < |stored| {
        buffer[i] := stored[i];
      }
      buffer[|stored|] := 0 as char;
    }
    return |expansion.text|;
  }

  /** `LogPrintf`. `format` is whether the format string is not null; `first` and `second` are the outcomes of the up
    * to two `vsnprintf` calls. Whatever its length, the whole expansion is logged; the error marker takes its place
    * only when the first call fails, or the expansion needs the second call and that one fails.
    */
  method LogPrintf(logger: Logger, level: Level, site: Site, format: bool, first: Expansion, second: Expansion,
                   clock: Clock, cache: ThreadCache)
    requires logger.Valid()
    requires first.Text? && second.Text? ==> first == second
    modifies cache, logger.Owner().appenders
    ensures !format ==>
              Logged(clock, logger, level, site, "<null-format>", cache)
    ensures format && first.Text? && (|first.text| < 128 || second.Text?) ==>
              Logged(clock, logger, level, site, first.text, cache)
    ensures format && (first.Fails? || (|first.text| >= 128 && second.Fails?)) ==>
              Logged(clock, logger, level, site, "<format-error>", cache)
  {
    hide Logged;
    ghost var message := LogExpansion(logger, level, site, format, first, second, clock, cache);
  }

  /** The life of the line, its message written by `WriteMessage`. */
  method LogExpansion(logger: Logger, level: Level, site: Site, format: bool, first: Expansion, second: Expansion,
                      clock: Clock, cache: ThreadCache)
    returns (ghost message: string)
    requires logger.Valid()
    requires first.Text? && second.Text? ==> first == second
    modifies cache, logger.Owner().appenders
    ensures Logged(clock, logger, level, site, message, cache)
    ensures !format ==> message == "<null-format>"
    ensures format && first.Text? && (|first.text| < 128 || second.Text?) ==> message == first.text
    ensures format && (first.Fails? || (|first.text| >= 128 && second.Fails?)) ==> message == "<format-error>"
  {
    hide Interpret, GoesPlaces, Logger.Valid, MakeRecord;
    var logLine := new LogLine(logger, level, site);
    WriteMessage(logLine.stream, format, first, second);
    assert forall a :: a in logger.Owner().appenders ==> a.Value() == old(a.Value());
    message := logLine.message.View();
    logLine.Destroy(clock, cache);
  }

  method WriteMessage(stream: SmallStreamBuffer, format: bool, first: Expansion, second: Expansion)
    requires stream.buffer.Valid()
    requires first.Text? && second.Text? ==> first == second
    modifies stream.buffer, stream.buffer.inline
    ensures stream.buffer.Valid()
    ensures !format ==>
              stream.buffer.View() == old(stream.buffer.View()) + "<null-format>"
    ensures format && first.Text? && (|first.text| < 128 || second.Text?) ==>
              stream.buffer.View() == old(stream.buffer.View()) + first.text
    ensures format && (first.Fails? || (|first.text| >= 128 && second.Fails?)) ==>
              stream.buffer.View() == old(stream.buffer.View()) + "<format-error>"
  {
    if !format {
      Insert(stream, "<null-format>");
      return;
    }
    var inlineBuffer := new char[PRINTF_FORMAT_INLINE_CAPACITY];
    var requiredSize := Vsnprintf(inlineBuffer, first);
    if requiredSize < 0 {
      Insert(stream, "<format-error>");
      return;
    }
    if requiredSize < inlineBuffer.Length {
      var written := stream.Xsputn(inlineBuffer[..], requiredSize);
      return;
    }
    var overflowBuffer := new char[requiredSize + 1];
    var secondResult := Vsnprintf(overflowBuffer, second);
    if secondResult < 0 {
      Insert(stream, "<format-error>");
      return;
    }
    var written := stream.Xsputn(overflowBuffer[..], requiredSize);
  }

  /** `stream << text`. */
  method Insert(stream: SmallStreamBuffer, text: string)
    requires stream.buffer.Valid()
    modifies stream.buffer, stream.buffer.inline
    ensures stream.buffer.Valid() && stream.buffer.View() == old(stream.buffer.View()) + text
  {
    var written := stream.Xsputn(text, |text|);
  }

  /** The life of a line whose stream hands `message` to its buffer cut up as `cuts` say. */
  method LogPieces(logger: Logger, level: Level, site: Site, message: string, cuts: seq<Cut>,
                   clock: Clock, cache: ThreadCache)
    requires logger.Valid()
    modifies cache, logger.Owner().appenders
    ensures Logged(clock, logger, level, site, message, cache)
  {
    hide Interpret, GoesPlaces, Logger.Valid, MakeRecord;
    var logLine := new LogLine(logger, level, site);
    logLine.stream.WriteCut(message, cuts);
    assert logLine.message.View() == message;
    assert forall a :: a in logger.Owner().appenders ==> a.Value() == old(a.Value());
    logLine.Destroy(clock, cache);
  }

  // ----- The macros -----

  /** `PANS_LOG_FMT_LEVEL`. Its gate cannot be seen: the effect is that of an ungated call. */
  method LogFormatted(logger: Logger?, level: Level, site: Site, format: bool, first: Expansion, second: Expansion,
                      clock: Clock, cache: ThreadCache)
    requires logger != null ==> logger.Valid()
    requires first.Text? && second.Text? ==> first == second
    modifies if logger == null then {} else {cache}
    modifies if logger == null then [] else logger.Owner().appenders
    ensures logger != null && !format ==>
              Logged(clock, logger, level, site, "<null-format>", cache)
    ensures logger != null && format && first.Text? && (|first.text| < 128 || second.Text?) ==>
              Logged(clock, logger, level, site, first.text, cache)
    ensures logger != null && format && (first.Fails? || (|first.text| >= 128 && second.Fails?)) ==>
              Logged(clock, logger, level, site, "<format-error>", cache)
  {
    if logger == null {
    } else if !logger.ShouldLog(level) {
    } else {
      LogPrintf(logger, level, site, format, first, second, clock, cache);
    }
  }

  /** `PANS_LOG_LEVEL`, the stream cutting `message` up as `cuts` say. */
  method LogStreamed(logger: Logger?, level: Level, site: Site, message: string, cuts: seq<Cut>,
                     clock: Clock, cache: ThreadCache)
    requires logger != null ==> logger.Valid()
    modifies if logger == null then {} else {cache}
    modifies if logger == null then [] else logger.Owner().appenders
    ensures logger != null ==> Logged(clock, logger, level, site, message, cache)
  {
    if logger == null {
    } else if !logger.ShouldLog(level) {
    } else {
      LogPieces(logger, level, site, message, cuts, clock, cache);
    }
  }
}
