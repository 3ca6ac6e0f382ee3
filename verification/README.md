# A verified model of pans

pans is a small C++ runtime library. This project models its four hardest parts in Dafny and proves what each of
them promises, over every input, every run and every interleaving:

- **The Unicode transcoder** (`unicode.dfy`, `transcoder.dfy`, `order.dfy`, `utf16_order.dfy`, `lexicographic.dfy`,
  `sequences.dfy`). The hand-written UTF-8 decoder and encoder and the UTF-16 and UTF-32 loops keep their shape
  (moving offset, in-place shifts on 32-bit words, the extra `++i` of a surrogate pair). They are proved against the
  byte grammar of section 4 of RFC 3629, which never mentions code points, and against an encoding-independent notion
  of transcoding: read the text as scalar values in one code, write the same scalar values in the other. That notion
  is shown to be single-valued because all three encodings are prefix codes.
- **The locks and the counting benchmarks** (`locks.dfy`, `benchmark.dfy`). `SpinLock`, `AtomicWaitLock` and the
  compare-exchange increment loop are state machines over any number of threads, one program counter each, where any
  thread may take the next atomic step. `compare_exchange_weak` may fail and `atomic_wait` may wake for no reason.
- **The log pattern compiler, the renderer and the small buffer** (`pattern.dfy`, `formatter.dfy`, `date_cache.dfy`,
  `directives.dfy`, `rendered_dates.dfy`, `timestamp.dfy`, `buffer.dfy`, `default_pattern.dfy`, `default_line.dfy`).
  `Formatter`, `InlineBuffer`, `SmallStreamBuffer` and the thread's date cache are classes; the parse loop, the item
  loop and the digit loop are loops.
- **Logger dispatch** (`logger.dfy`, `appender.dfy`, `log_line.dfy`, `session.dfy`, `log_level.dfy`). `Logger`,
  `LoggerManager`, `Appender` and `LogLine` are classes. `session.dfy` runs arbitrary programs against the registry,
  by any number of threads, and proves that they refine a model on plain values: which operations every appender goes
  through, so which text it ends up with and what of it is on disk.

How to read it: in a method's contract, text is always stated with a function that has its own theorem. For example
`StringToWStringUtf16` returns `Transcode(Utf8, Utf16, text)`, and `WideRoundTrips`, `ByteRoundTrips`,
`EmptyMeansEmptyOrIllFormed` and `WidthsAgree` say what `Transcode` is; `Logger.Submit` appends
`Interpret(pattern)`, and `CompilingPreservesMeaning` says that running the compiled items is exactly that.

Where the code and its comments disagree, the model follows the code:

- formatter.cc line 118 speaks of reusing a date within the same minute; the code compares seconds.
- formatter.cc line 111 asks for one date format per process; what the code needs is that consecutive dates of one
  thread within one second ask for the same text. The exact condition is `DateCache.CacheIsTransparentExactly`,
  which also shows that a thread's first date in second 0 prints nothing. A failing `strftime` leaves its characters in
  the cache (`DateCache.FailureSpoilsCache`).
- formatter.cc line 251 calls `%u` milliseconds; it prints six microsecond digits.

## Model

| member | source | states |
|---|---|---|
| Unicode.GrammarIsExact | pans/src/utils/string_utils.cc:32-56 | the section 4 grammar of RFC 3629 accepts exactly the byte sequences the encoder writes for scalar values, so no overlong form, surrogate or value above 0x10FFFF has one; the assembled bits are the scalar |
| Unicode.PayloadIsExact | pans/src/utils/string_utils.cc:70-110 | for a lead byte followed by the continuation bytes it announces, the decoder's final range test holds exactly when the bytes are in the grammar, and re-encoding gives the bytes back |
| Unicode.GrammarAcceptsExactly | pans/src/utils/string_utils.cc:158-189 | a byte string encodes some scalar sequence if and only if the grammar derives it |
| Unicode.PairingIsExact | pans/src/utils/string_utils.cc:123-140 | a unit string encodes some scalar sequence if and only if every surrogate in it is one of a high and low pair; pairing is defined without code points |
| Utf16Order.PairsAreOrdered | pans/src/utils/string_utils.cc:177-182 | a smaller supplementary code point has a smaller surrogate pair, unit by unit; with `PairingIsExact` (onto all pairs) this leaves one assignment, that of section 2.1 of RFC 2781 |
| Utf16Order.BasicCodesAreThemselves | pans/src/utils/string_utils.cc:173-176 | a code point up to 0xFFFF is its own unit |
| Utf16Order.SomePairs | pans/src/utils/string_utils.cc:177-182 | U+10000, U+10400 and U+10FFFF with their pairs |
| Unicode.Utf8IsPrefixCode | pans/src/utils/string_utils.cc:32-56 | no code point's UTF-8 is empty or a prefix of another's |
| Unicode.Utf16IsPrefixCode | pans/src/utils/string_utils.cc:168-180 | no code point's UTF-16 is empty or a prefix of another's, surrogate pairs included |
| Unicode.UniqueDecoding | pans/src/utils/string_utils.cc:116-149 | under a prefix code two scalar sequences with the same encoding are the same sequence |
| Unicode.TranscodeIsInvertible | pans/src/utils/string_utils.cc:116-196 | between any two prefix codes: there and back is the identity on well-formed text, the image is well-formed, and the result is empty exactly for empty or ill-formed input |
| StringUtils.AppendUtf8 | pans/src/utils/string_utils.cc:32-56 | appends the code point's UTF-8 and keeps everything before it |
| StringUtils.DecodeUtf8CodePoint | pans/src/utils/string_utils.cc:58-112 | succeeds if and only if a well-formed sequence of the grammar starts at the offset; then it consumes exactly that sequence and returns the scalar whose encoding it is; it always moves forward and stays inside the text |
| StringUtils.WStringToStringUtf16 | pans/src/utils/string_utils.cc:116-149 | two-byte wchar_t: the UTF-8 of the scalars the UTF-16 text encodes; empty exactly for the empty text and when a surrogate is unpaired; which pair stands for which scalar is fixed by `PairsAreOrdered` |
| StringUtils.WStringToStringUtf32 | pans/src/utils/string_utils.cc:116-149 | four-byte wchar_t: the UTF-8 of the text; empty exactly for the empty text and when a unit is not a scalar value |
| StringUtils.StringToWStringUtf16 | pans/src/utils/string_utils.cc:158-189 | two-byte wchar_t: the UTF-16 of the scalars the bytes encode; empty exactly for the empty text and when the grammar does not derive the bytes; which pair stands for which scalar is fixed by `PairsAreOrdered` |
| StringUtils.StringToWStringUtf32 | pans/src/utils/string_utils.cc:158-189 | four-byte wchar_t: the scalars the bytes encode; empty exactly for the empty text and when the grammar does not derive the bytes |
| StringUtils.WideRoundTrips | pans/src/utils/string_utils.cc:116-196 | every wide text with paired surrogates, or of scalar values in the wide width, survives the trip through UTF-8 |
| StringUtils.ByteRoundTrips | pans/src/utils/string_utils.cc:116-196 | every byte string the grammar derives survives the trip through wide text, in either width |
| StringUtils.EmptyMeansEmptyOrIllFormed | pans/src/utils/string_utils.cc:116-196 | all four conversions: the result is empty if and only if the input is empty or ill-formed, that is, not derived by the byte grammar, with an unpaired surrogate, or with a unit that is no scalar value |
| StringUtils.WidthsAgree | pans/src/utils/string_utils.cc:123-188 | both widths accept the same bytes, the UTF-16 result is the UTF-16 encoding of the UTF-32 result, and both write the same bytes for the same scalars |
| Utf8Order.CodesAreOrdered | pans/src/utils/string_utils.cc:32-56 | a smaller code point has a smaller UTF-8, differing inside both codes |
| Utf8Order.ByteOrderIsCodePointOrder | pans/src/utils/string_utils.cc:116-149 | byte-lexicographic order of the outputs is code-point-lexicographic order of the texts, in both directions |
| Locks.StepKeepsInv | tests/test_mutex.cpp:35-58 | every step of either lock by any thread keeps mutual exclusion, the flag's meaning and the no-lost-wake-up invariant |
| Locks.EveryReachableState | tests/test_mutex.cpp:24-62 | in every state of every interleaving of any number of threads: at most one holder, the flag is set exactly when there is one, and a blocked thread is owed a wake-up by a holder, a pending notification or a thread awake in the acquisition loop |
| Locks.NobodySleepsForever | tests/test_mutex.cpp:35-58 | no reachable state has the lock free, nobody awake in `lock` or `unlock`, and somebody blocked |
| Locks.TryLockTells | pans/include/pans/mutex.h:38-41 | over any run, the exchange of `try_lock` ends the call at once: true exactly when nobody held the lock, and then the caller is the one holder; false exactly when another thread holds it, and then neither the flag nor any other thread has changed |
| Locks.LockTakesFreeOnly | pans/include/pans/mutex.h:26-35 | over any run, an exchange of `lock` ends the call exactly when nobody held the lock; otherwise its caller waits on and nothing else has changed |
| Locks.UnlockFrees | tests/test_mutex.cpp:54-58 | over any run, `unlock` frees the lock with its first step and is then over, or over after its notification, which wakes a sleeper if there is one |
| Locks.SpinnerAcquires | pans/include/pans/mutex.h:26-35 | whenever the flag is clear, a thread inside `SpinLock::lock` can take the lock by at most two steps of its own |
| Locks.AnyoneCanAcquire | tests/test_mutex.cpp:35-58 | either lock, any mix of `lock`, `try_lock` and `unlock` calls: from every state the invariant allows, any thread inside `lock`, asleep or not, can still become the holder, without spurious wake-ups and spurious failures |
| Locks.HeldLockIsNotTaken | pans/include/pans/mutex.h:26-46 | while the flag is set, no step of a thread other than the holder changes who holds the lock |
| Benchmark.SharesAddUp | tests/test_lock.cpp:25-30 | the shares of `OperationsForThread` add up to the target for every thread count |
| Benchmark.SharesAreEven | tests/test_lock.cpp:25-30 | an earlier thread's share equals a later one's or is one operation more |
| Benchmark.StepKeepsInv | tests/test_mutex.cpp:71-123 | every step keeps: the counter is the sum of completed increments, the latches count the threads that have not passed them, and a value loaded under the lock is still the counter's |
| Benchmark.EveryReachableState | tests/test_mutex.cpp:71-123 | that invariant holds in every state of every interleaving of workers and main |
| Benchmark.EverybodyStartsTogether | tests/test_mutex.cpp:81-93 | in every interleaving, a thread past the start latch finds every thread past the ready latch, and main passes only when every thread is done |
| Benchmark.OnlyHolderLoaded | tests/test_mutex.cpp:111-116 | at most one thread is between the load and the store of `Counter_++` |
| Benchmark.CounterIsExact | tests/test_mutex.cpp:71-123 | the counter always equals the completed increments and never passes the target; main gets past `finished.wait` only with the counter equal to the target, for both locks and for the compare-exchange loop, so with the split of tests/test_lock.cpp:25-30 (not the one tests/test_mutex.cpp:85 calls) the check of `BenchmarkMutex` never throws |
| Benchmark.StepIsOneIncrementOrNone | tests/test_lock.cpp:103-116 | refinement of an atomic increment: a step changes nothing visible, or adds one to the counter and one to exactly one thread, spurious failures included |
| Benchmark.CanAlwaysFinish | tests/test_mutex.cpp:71-123 | no deadlock and no lost wake-up: from every state the invariant allows there is a continuation without spurious wake-ups and without spurious exchange failures, so that sleepers are woken by notifications only, in which main passes `finished.wait` with the counter at the target |
| Pattern.PrintInvertsParse | pans/src/Logger/formatter.cc:281-317 | printing the compiled items gives every accepted pattern back exactly, and only canonical item lists are produced |
| Pattern.ParseInvertsPrint | pans/src/Logger/formatter.cc:281-317 | parsing the printed form of any canonical item list gives that list |
| Pattern.AcceptedExactly | pans/src/Logger/formatter.cc:270-317 | the accepted patterns are exactly the printed canonical lists, each of one list only |
| Pattern.ErrorCodesMean | pans/src/Logger/formatter.cc:290-313 | the codes -1, -2 and -3 each characterised by the shape of the pattern, in both directions |
| Directives.DirectivesAccepted | pans/src/Logger/formatter.cc:241-268 | the characters whose one-directive patterns compile are `%` and the thirteen of the factory table; every other is rejected with -3 |
| Formatting.CompilingPreservesMeaning | pans/src/Logger/formatter.cc:23-29 | for every accepted pattern, record and cache, running the items gives the same text and cache as reading the pattern string directly from left to right |
| Formatting.EscapedLiteralPrintsItself | pans/src/Logger/formatter.cc:283-300 | any text with its `%` doubled prints as itself, whatever the record |
| Directives.TextDirectives | pans/src/Logger/formatter.cc:76-225 | `%m`, `%c`, `%f`, `%N`, `%n` and `%T` print the record's message, logger name, file name and thread name, a line end and a tab |
| Directives.ArgumentsIgnored | pans/src/Logger/formatter.cc:229-268 | a brace argument changes nothing for any directive but `%d` |
| Directives.LevelDirective | pans/src/Logger/formatter.cc:58-65 | `%p` prints the name of the record's level, name by name |
| Directives.NumberDirectives | pans/src/Logger/formatter.cc:67-208 | `%l`, `%t` and `%F` print the decimal numerals of the record's line, thread and fiber, and `%r` that of its elapsed time in whole milliseconds, truncated toward zero |
| Directives.MicrosecondDirective | pans/src/Logger/formatter.cc:144-168 | `%u` prints six digits that denote the whole microseconds of the timestamp modulo one million |
| Directives.DateDirective | pans/src/Logger/formatter.cc:102-142 | `%d`, with or without an argument, prints what the cache holds for the record's second, or else a conversion of that second with that argument; every outcome, failures included, with the cache it leaves |
| Directives.PatternsInSequence | pans/src/Logger/formatter.cc:23-29 | a pattern made of two prints the first one's text and then the second one's, the cache handed on |
| DefaultLine.DefaultLinePrints | pans/src/Logger/Logger.cc:17-17 | a line of the default pattern: date, microseconds, thread, fiber, level, file and line, and message, in that order and with the pattern's separators |
| Formatting.DecimalDenotes | pans/src/Logger/formatter.cc:33-41 | the printed text is a numeral of the number: digits without leading zeros that denote it, after a minus sign if it is negative |
| Formatting.NumeralIsUnique | pans/src/Logger/formatter.cc:33-41 | a number has only one such numeral |
| Formatting.Formatter.AddLiteral | pans/src/Logger/formatter.cc:270-278 | a literal becomes one item, an empty one none |
| Formatting.Formatter.ParsePattern | pans/src/Logger/formatter.cc:281-317 | the loop returns 0 exactly on accepted patterns and then holds their items; otherwise the error code that `ErrorCodesMean` characterises |
| Formatting.Formatter.CheckItems | pans/src/Logger/formatter.cc:311-314 | the final check fails exactly when some directive has no factory |
| Formatting.MakeFormatter | pans/src/Logger/formatter.cc:14-21 | construction throws exactly on rejected patterns |
| Formatting.Formatter.Format | pans/src/Logger/formatter.cc:23-29 | appends to the buffer the items' texts in order, threading the date cache through them |
| Formatting.FormatItem | pans/src/Logger/formatter.cc:43-225 | each item class appends what its directive prints, as `Directives` states it field by field |
| Timestamp.MicrosecondTextIsExact | pans/src/Logger/formatter.cc:147-168 | for every timestamp, before the epoch too: exactly six digits, denoting the Euclidean remainder modulo one million |
| Timestamp.PartsRebuildExactly | pans/src/Logger/formatter.cc:109-168 | seconds times one million plus the digits is the microsecond count if and only if the count is not negative or is a whole number of seconds |
| Timestamp.BeforeTheEpoch | pans/src/Logger/formatter.cc:109-168 | a concrete timestamp where seconds and digits do not rebuild the count |
| Timestamp.UnitsOfTime | pans/src/Logger/formatter.cc:115-149 | seconds and microseconds are the nanosecond timestamp divided by their unit and truncated toward zero |
| Timestamp.PartsAreSorted | pans/src/Logger/formatter.cc:158-165 | from the epoch on, ordering by second and digit string is ordering by time, in both directions |
| Timestamp.MicrosecondDigits | pans/src/Logger/formatter.cc:149-167 | the digit loop produces that text |
| DateCache.ThreadCache.Format | pans/src/Logger/formatter.cc:109-138 | one call appends the cached or the freshly converted text and leaves the cache the next call sees, failures included |
| DateCache.ThreadStorage.CacheFor | pans/src/Logger/formatter.cc:112-113 | each thread has a cache of its own, empty when it is first needed and the same from then on |
| DateCache.CacheIsTransparentExactly | pans/src/Logger/formatter.cc:109-138 | over any run of successful conversions on a new thread, every output equals a fresh conversion if and only if the first second is not 0 and consecutive calls in one second would convert to the same text |
| DateCache.OneFormatIsTransparent | pans/src/Logger/formatter.cc:109-138 | with one date format on the thread the cache is invisible if and only if the first second is not 0 |
| DateCache.SharedCacheMixesFormats | pans/src/Logger/formatter.cc:111-113 | two formats in one second: the second prints the first one's text |
| DateCache.SecondZeroPrintsNothing | pans/src/Logger/formatter.cc:112-119 | a new thread's date in second 0 prints nothing |
| DateCache.FailureSpoilsCache | pans/src/Logger/formatter.cc:130-137 | after a failing `strftime`, the next date in the second cached before prints what the failing call left behind |
| DateCache.OneConversionPerRun | pans/src/Logger/formatter.cc:118-135 | the conversions made are one for each maximal run of equal seconds |
| RenderedDates.LinesAreTransparent | pans/src/Logger/formatter.cc:23-138 | over any run of rendered records on a new thread, every line equals that of a renderer that converts each date afresh, if the first date is not in second 0 and consecutive dates in one second would convert to the same text, and only if the first date is not in second 0 |
| RenderedDates.OneFormatLines | pans/src/Logger/formatter.cc:23-138 | with one date format on the thread, the lines are those of the fresh renderer if and only if there is no date or the first one is not in second 0 |
| Buffer.InlineBuffer.Append | pans/src/Logger/buffer.h:17-38 | the view is what it was followed by the data, and the vector is in use exactly when the total exceeds the capacity, for any capacity |
| Buffer.InlineBuffer.GetView | pans/src/Logger/buffer.h:50-63 | the view is all that was appended, `size` characters |
| Buffer.SmallStreamBuffer.Xsputn | pans/src/Logger/buffer.h:81-90 | appends the characters it reports and nothing for a count that is not positive |
| Buffer.SmallStreamBuffer.Overflow | pans/src/Logger/buffer.h:92-102 | appends a character, or nothing for end-of-file, and always reports success |
| Buffer.SmallStreamBuffer.Write | pans/src/Logger/buffer.h:81-102 | any run of chunks appends exactly their texts in order |
| Buffer.CuttingIsInvisible | pans/src/Logger/buffer.h:81-102 | however a message is cut into pieces and single characters, end-of-file values in between included, its chunks carry the message |
| Buffer.SmallStreamBuffer.WriteCut | pans/src/Logger/buffer.h:81-102 | sending a message cut up in any way leaves the view that one `xsputn` of all of it leaves |
| Appenders.Appender.Append | pans/src/Logger/apender.cc:44-65 | below the threshold nothing changes; otherwise the whole record is written at the end, and a FATAL one reaches the operating system |
| Appenders.PassesExactly | pans/include/pans/Logger/Log_level.h:13-21 | the levels each threshold lets pass, by name |
| Appenders.AcceptsExactly | pans/src/Logger/apender.cc:44-59 | which records an appender writes at each threshold, by name; the others change nothing |
| Appenders.Appender.Flush | pans/src/Logger/apender.cc:78-82 | everything written reaches the operating system |
| Appenders.Appender.SetLevel | pans/src/Logger/apender.cc:67-70 | the threshold is the new one and nothing written moves |
| Appenders.Appender.Sync | pans/src/Logger/apender.cc:84-158 | everything written reaches the operating system, and for a file the disk |
| Appenders.WrittenIsAccepted | pans/src/Logger/apender.cc:44-65 | over any run, the written text is what the file held followed by exactly the records that passed the threshold in force, whole and in order |
| Appenders.Durability | pans/src/Logger/apender.cc:44-158 | over any run, disk is a prefix of operating system is a prefix of written; what was accepted up to a passing FATAL record or a flush stays with the operating system, and up to a file sync stays on disk, for the rest of the run |
| Appenders.Lasts | pans/src/Logger/apender.cc:44-158 | the same from one state of the appender to another: whatever operations follow, a sync keeps everything accepted before it on a file's disk, and a flush, a sync or a passing FATAL record keeps it with the operating system |
| Appenders.GoesWrites | pans/src/Logger/apender.cc:44-76 | over any operations the appender's text is the old text and the accepted records, and its threshold the last one set |
| Appenders.CopiesArrive | pans/src/Logger/apender.cc:44-65 | a record appended any number of times arrives that often, whole and at the end, or, below the threshold, changes nothing at all |
| Appenders.RepeatedOnce | pans/src/Logger/apender.cc:78-88 | flushing or syncing the same appender again is flushing or syncing it once |
| DefaultPattern.DefaultPatternCompiles | pans/src/Logger/Logger.cc:17-17 | the default pattern is accepted, so constructing a logger does not throw for its sake |
| Loggers.EraseRemovesExactly | pans/src/Logger/Logger.cc:177-181 | removing an appender removes all its places and keeps every other appender's |
| Loggers.EraseKeepsOrder | pans/src/Logger/Logger.cc:177-181 | the appenders that stay keep their order |
| Loggers.CopiesIsMultiplicity | pans/src/Logger/Logger.cc:128-131 | the places an appender is called at are its occurrences in the list |
| Loggers.Logger.constructor | pans/src/Logger/Logger.cc:82-90 | a new logger has level DEBUG, no appenders, no root and the default pattern |
| Loggers.MakeLogger | pans/src/Logger/Logger.cc:82-90 | construction throws exactly for the empty name |
| Loggers.Logger.ShouldLog | pans/src/Logger/Logger.cc:92-106 | true if and only if every threshold between the logger and a non-empty appender list, its own or the root's, lets the level pass; the recursion takes at most one hop |
| Loggers.OpensExactly | pans/src/Logger/Logger.cc:92-106 | the levels the gate of a logger with appenders opens for at each threshold, by name |
| Loggers.FallsBackToRoot | pans/src/Logger/Logger.cc:92-140 | without appenders of its own, a logger opens exactly when it and its root do, and its records are its root's to deliver |
| Loggers.Logger.Submit | pans/src/Logger/Logger.cc:108-140 | the same condition decides whether the record arrives; then every appender of the owning logger goes through exactly one append for each place it has, of the text the owning logger's pattern gives, and otherwise no appender and no cache changes in any way |
| Loggers.Logger.SetFormatter | pans/src/Logger/Logger.cc:45-49 | a rejected pattern throws and leaves the logger as it was |
| Loggers.Logger.AddAppender | pans/src/Logger/Logger.cc:170-175 | added at the end; a null appender changes nothing |
| Loggers.Logger.RemoveAppender | pans/src/Logger/Logger.cc:177-181 | exactly that appender is gone |
| Loggers.Logger.Flush | pans/src/Logger/Logger.cc:189-205 | every appender of the owning logger, at most one hop away and with no level gate, goes through exactly one flush for each place it has |
| Loggers.Logger.Sync | pans/src/Logger/Logger.cc:207-224 | every appender of the owning logger, at most one hop away and with no level gate, goes through exactly one sync for each place it has |
| Loggers.LoggerManager.constructor | pans/src/Logger/Logger.cc:244-249 | only the root is registered, under "root", with one console appender |
| Loggers.LoggerManager.GetRoot | pans/src/Logger/Logger.cc:251-254 | the root logger, which is named "root" and has no root |
| Loggers.LoggerManager.GetLogger | pans/src/Logger/Logger.cc:256-271 | null exactly for the empty name; a known name gives the same logger as before; a new name gives a new logger of that name; the registry's invariant is kept: every key is its logger's name, the root has no root and is the root of every other logger |
| Loggers.LoggerManager.LookupTwice | pans/src/Logger/Logger.cc:256-271 | two lookups give one logger exactly when they ask for one name |
| Sessions.WhoReceives | pans/src/Logger/Logger.cc:108-140 | of a record, an appender accepts the owning logger's text once for each place it has in the effective list (the logger's own, or the root's while it has none), if the level reaches the logger's, the owner's and its own threshold, and nothing otherwise |
| Sessions.Run | pans/src/Logger/Logger.cc:92-277 | one lookup followed by a setter, a record, a flush or a sync, or one call on an appender, does to the registry and the thread's date cache what the model on values says, and takes every appender through exactly the model's appends, flushes, syncs and threshold changes on it |
| Sessions.RunAll | pans/src/Logger/Logger.cc:92-277 | any program run, by any number of threads in turn, refines the model: the registry's invariant holds throughout, names keep their loggers, every thread's date cache is the model's, every appender goes through exactly the model's operations on it, and everything it accepted up to a command that synced it (a file) or pushed it out is still on disk or with the operating system at the end |
| Sessions.SessionsLast | pans/src/Logger/Logger.cc:189-224 | durability of sessions: what a file appender accepted up to a sync of a logger that owns it is on disk after any further commands; the same for the operating system after a flush, a sync or a FATAL record that arrived |
| LogLines.Vsnprintf | pans/src/Logger/LogLine.cc:101-109 | the given behaviour of `vsnprintf`: the full length, and the text cut to the buffer with a terminator |
| LogLines.WriteMessage | pans/src/Logger/LogLine.cc:92-134 | with a format and successful calls the whole expansion is appended, whatever its length; the error marker exactly when the first call fails, or the expansion has 128 or more characters and the second call fails; the null marker exactly for a null format |
| LogLines.LogPrintf | pans/src/Logger/LogLine.cc:92-134 | the effect of submitting one record whose message is, in those same three cases, the whole expansion, the error marker or the null marker |
| LogLines.MakeRecord | pans/src/Logger/LogLine.cc:37-51 | the record carries the logger's name, the call's level and message and the site's data, each in its own field |
| LogLines.LogLine.Destroy | pans/src/Logger/LogLine.cc:80-85 | destruction submits what was streamed, with the site's data |
| LogLines.LogFormatted | pans/include/pans/Logger/Log.h:52-55 | a null logger does nothing; otherwise the macro's gate cannot be seen: the effect is that of an ungated call |
| LogLines.LogStreamed | pans/include/pans/Logger/Log.h:41-44 | the same for the stream macro, however the stream cuts the message up |

## Left out

- Locks as classes: threads interleave between single atomic operations, so the two locks and the benchmarks are step relations over a state value instead of methods; there is no object and no aliasing in that model.
- Memory orderings weaker than sequential consistency, the CPU pause, timing and averaging of the benchmarks.
- Fairness: `CanAlwaysFinish` and `AnyoneCanAcquire` give continuations that finish or acquire, not that every schedule does.
- `OperationForThread` at tests/test_mutex.cpp:64-69 takes the remainder by the thread index, which is undefined for thread 0; the benchmark is modelled with the split of tests/test_lock.cpp:25-30. The lambdas of both `BenchmarkThreads` capture the loop index by reference; the model passes it by value.
- The `std::mutex`, `std::shared_mutex` and `fetch_add` benchmarks: their locks are not the repository's.
- Logger operations running at the same time: logger and registry methods are one step each. The threshold test of an appender, which happens just before its mutex is taken, is in one step with the write.
- Logging, printing or aborting by the assertion macros: a failed assertion is its return value.
- Allocation failure and every `catch (...)` path, including a failing mutex.
- `size_t` wrap-around of lengths and appending a buffer's own view to itself.
- `localtime_r` and `strftime` (one given function of format and second, with both failures; a fixed time zone), `vsnprintf` (given outcomes; two calls with the same arguments give the same text when both succeed), `to_chars`, and the formatting done by `std::ostream`.
- stdio write errors: a write succeeds, and buffered characters may only move on early. Opening a file, its errors and closing it.
- The console's contents before the program started: a console appender starts with the empty text.
- Thread and fiber ids, thread names, elapsed time and the clock are inputs of a log statement.
- Backtraces, demangling and the rest of pans/src/utils/system_utils.cc and pans/src/utils/thread_utils.cc.
- `LogLevel::FromString` and `TypeName`: a finite table and compiler text.
- The placement-new storage of `LogLine`, export macros and build files.
- Sharing below the appenders: two console appenders write to one `std::cout`, and two file appenders may have the same file open (pans/src/Logger/apender.cc:95, 123); in the model every appender has text of its own, so how their records interleave in the shared stream or file is not stated.
