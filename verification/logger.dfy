/** Loggers and their registry, pans/src/Logger/Logger.cc. */
module Loggers {
  import opened Appenders
  import opened Buffer
  import opened DateCache
  import opened DefaultPattern
  import opened Formatting
  import opened LogLevel
  import Pattern

  const FORMATTED_RECORD_INLINE_CAPACITY := 256

  /** `std::erase`. */
  function Erase(appenders: seq<Appender>, appender: Appender?): seq<Appender> {
    if appenders == [] then []
    else (if appenders[0] == appender then [] else [appenders[0]]) + Erase(appenders[1..], appender)
  }

  lemma {:induction false} EraseRemovesExactly(appenders: seq<Appender>, appender: Appender?)
    ensures appender !in Erase(appenders, appender)
    ensures forall a: Appender :: a != appender ==> multiset(Erase(appenders, appender))[a] == multiset(appenders)[a]
  {
    if appenders != [] {
      EraseRemovesExactly(appenders[1..], appender);
      assert appenders == [appenders[0]] + appenders[1..];
    }
  }

  /** Those that stay keep their order: `at` lists where they were. */
  lemma {:induction false} EraseKeepsOrder(appenders: seq<Appender>, appender: Appender?) returns (at: seq<nat>)
    ensures |at| == |Erase(appenders, appender)|
    ensures forall k :: 0 <= k < |at| ==> at[k] < |appenders| && Erase(appenders, appender)[k] == appenders[at[k]]
    ensures forall j, k :: 0 <= j < k < |at| ==> at[j] < at[k]
  {
    hide Erase;
    EraseUnfolds(appenders, appender);
    if appenders == [] {
      at := [];
    } else {
      var rest := EraseKeepsOrder(appenders[1..], appender);
      var moved := seq(|rest|, k requires 0 <= k < |rest| => rest[k] + 1);
      at := if appenders[0] == appender then moved else [0] + moved;
    }
  }

  lemma EraseUnfolds(appenders: seq<Appender>, appender: Appender?)
    ensures appenders == [] ==> Erase(appenders, appender) == []
    ensures appenders != [] && appenders[0] == appender ==>
              Erase(appenders, appender) == Erase(appenders[1..], appender)
    ensures appenders != [] && appenders[0] != appender ==>
              Erase(appenders, appender) == [appenders[0]] + Erase(appenders[1..], appender)
  {}

  /** The places of `a` among the first `n`. */
  function Copies(appenders: seq<Appender>, n: nat, a: Appender): nat
    requires n <= |appenders|
  {
    if n == 0 then 0 else Copies(appenders, n - 1, a) + if appenders[n - 1] == a then 1 else 0
  }

  lemma {:induction false} CopiesIsMultiplicity(appenders: seq<Appender>, n: nat, a: Appender)
    requires n <= |appenders|
    ensures Copies(appenders, n, a) == multiset(appenders[..n])[a]
  {
    if n > 0 {
      CopiesIsMultiplicity(appenders, n - 1, a);
      assert appenders[..n] == appenders[..n - 1] + [appenders[n - 1]];
    }
  }

  /** `a` goes through `op` once for each of its first `n` places in the list. */
  ghost predicate GoesPlaces(a: Appender, s: State, op: Op, appenders: seq<Appender>, n: nat, s': State)
    requires n <= |appenders|
  {
    Goes(a.kind, s, Repeat(op, Copies(appenders, n, a)), s')
  }

  lemma NoPlaceYet(a: Appender, s: State, op: Op, appenders: seq<Appender>)
    requires s.stages.Valid()
    ensures GoesPlaces(a, s, op, appenders, 0, s)
  {
    GoesNowhere(a.kind, s);
    assert Repeat(op, 0) == [];
  }

  lemma NextPlace(a: Appender, s: State, op: Op, appenders: seq<Appender>, n: nat, s': State, s'': State)
    requires n < |appenders| && GoesPlaces(a, s, op, appenders, n, s')
    requires if a == appenders[n] then Step(a.kind, s', op, s'') else s'' == s'
    ensures GoesPlaces(a, s, op, appenders, n + 1, s'')
  {
    if a == appenders[n] {
      var copies := Copies(appenders, n, a);
      GoesOn(a.kind, s, Repeat(op, copies), s', op, s'');
      assert Repeat(op, copies + 1) == Repeat(op, copies) + [op];
    }
  }

  /** Every appender of the list went through `op` once for each of its places. */
  twostate predicate AllWent(op: Op, appenders: seq<Appender>, n: nat)
    requires n <= |appenders|
    reads appenders
  {
    forall a :: a in appenders ==> GoesPlaces(a, old(a.Value()), op, appenders, n, a.Value())
  }

  /** The effect of submitting `record` to a logger whose records go to `appenders`, read from `pattern`. */
  twostate predicate Received(clock: Clock, record: Record, cache: ThreadCache, open: bool, pattern: string,
                              appenders: seq<Appender>)
    reads cache, appenders
  {
    if open then
      var o := Interpret(clock, pattern, record, old(cache.Value()));
      cache.Value() == o.cache && AllWent(Op.Append(record.level, o.text), appenders, |appenders|)
    else cache.Value() == old(cache.Value()) && forall a :: a in appenders ==> a.Value() == old(a.Value())
  }

  /** The loop of `submit` over its appenders. */
  method AppendToAll(appenders: seq<Appender>, level: Level, text: string)
    modifies appenders
    ensures AllWent(Op.Append(level, text), appenders, |appenders|)
  {
    hide GoesPlaces, Step;
    ghost var op := Op.Append(level, text);
    forall a | a in appenders { NoPlaceYet(a, a.Value(), op, appenders); }
    for i := 0 to |appenders|
      invariant AllWent(op, appenders, i)
    {
      label Before:
      appenders[i].Append(level, text);
      forall a | a in appenders ensures GoesPlaces(a, old(a.Value()), op, appenders, i + 1, a.Value()) {
        NextPlace(a, old(a.Value()), op, appenders, i, old@Before(a.Value()), a.Value());
      }
    }
  }

  /** The loop of `flush`. */
  method FlushAll(appenders: seq<Appender>)
    modifies appenders
    ensures AllWent(Op.Flush, appenders, |appenders|)
  {
    hide GoesPlaces, Step;
    forall a | a in appenders { NoPlaceYet(a, a.Value(), Op.Flush, appenders); }
    for i := 0 to |appenders|
      invariant AllWent(Op.Flush, appenders, i)
    {
      label Before:
      appenders[i].Flush();
      forall a | a in appenders ensures GoesPlaces(a, old(a.Value()), Op.Flush, appenders, i + 1, a.Value()) {
        NextPlace(a, old(a.Value()), Op.Flush, appenders, i, old@Before(a.Value()), a.Value());
      }
    }
  }

  /** The loop of `sync`. */
  method SyncAll(appenders: seq<Appender>)
    modifies appenders
    ensures AllWent(Op.Sync, appenders, |appenders|)
  {
    hide GoesPlaces, Step;
    forall a | a in appenders { NoPlaceYet(a, a.Value(), Op.Sync, appenders); }
    for i := 0 to |appenders|
      invariant AllWent(Op.Sync, appenders, i)
    {
      label Before:
      appenders[i].Sync();
      forall a | a in appenders ensures GoesPlaces(a, old(a.Value()), Op.Sync, appenders, i + 1, a.Value()) {
        NextPlace(a, old(a.Value()), Op.Sync, appenders, i, old@Before(a.Value()), a.Value());
      }
    }
  }

  lemma {:induction false} EraseKeepsOthers(appenders: seq<Appender>, appender: Appender?)
    ensures forall a: Appender :: a in Erase(appenders, appender) <==> a in appenders && a != appender
  {
    if appenders != [] {
      EraseKeepsOthers(appenders[1..], appender);
    }
  }

  class Logger {
    const name: string
    var level: Level
    var formatter: Formatter
    var appenders: seq<Appender>
    var root: Logger?

    ghost predicate ValidAlone()
      reads this, formatter
    {
      name != "" && formatter.Valid()
    }

    /** The root of a logger has no root of its own, so falling back takes at most one hop. */
    ghost predicate Valid()
      reads this, formatter, root, if root == null then {} else {root.formatter}
    {
      ValidAlone() && (root != null ==> root != this && root.root == null && root.ValidAlone())
    }

    ghost function Hops(): nat
      reads this
    {
      if root == null then 0 else 1
    }

    /** The logger whose appenders and formatter this one's records use: itself, or its root while it has no
      * appenders.
      */
    ghost function Owner(): Logger
      reads this
    {
      if appenders == [] && root != null then root else this
    }

    /** Every threshold between this logger and a non-empty list of appenders lets `recordLevel` pass. */
    ghost predicate Reaches(recordLevel: Level)
      reads this, root
    {
      Passes(recordLevel, level) && Passes(recordLevel, Owner().level) && Owner().appenders != []
    }

    predicate ShouldLog(recordLevel: Level): (open: bool)
      requires root != null ==> root.root == null
      reads this, root
      ensures open <==> Reaches(recordLevel)
      decreases Hops()
    {
      if Rank(recordLevel) < Rank(level) then false
      else if appenders != [] then true
      else root != null && root.ShouldLog(recordLevel)
    }

    constructor (name: string)
      requires name != ""
      ensures Valid() && this.name == name && level == Debug && appenders == [] && root == null
      ensures fresh(formatter) && formatter.pattern == DEFAULT_LOG_PATTERN
    {
      hide Pattern.Parse;
      DefaultPatternCompiles();
      var f := MakeFormatter(DEFAULT_LOG_PATTERN);
      this.name := name;
      level := Debug;
      formatter := f;
      appenders := [];
      root := null;
    }

    method Submit(clock: Clock, record: Record, cache: ThreadCache)
      requires Valid()
      modifies cache, Owner().appenders
      ensures Received(clock, record, cache, Reaches(record.level), Owner().formatter.pattern, Owner().appenders)
      decreases Hops()
    {
      if Rank(record.level) < Rank(level) {
        return;
      }
      if appenders == [] {
        if root != null {
          root.Submit(clock, record, cache);
        }
        return;
      }
      SubmitOwn(clock, record, cache);
    }

    /** The part of `submit` after the gates. */
    method SubmitOwn(clock: Clock, record: Record, cache: ThreadCache)
      requires ValidAlone()
      modifies cache, appenders
      ensures Received(clock, record, cache, true, formatter.pattern, appenders)
    {
      hide Interpret, Pattern.Parse;
      CompilingPreservesMeaning(clock, formatter.pattern, record, cache.Value());
      var formattedRecord := new InlineBuffer(FORMATTED_RECORD_INLINE_CAPACITY);
      formatter.Format(clock, record, formattedRecord, cache);
      var text := formattedRecord.GetView();
      assert text == Interpret(clock, formatter.pattern, record, old(cache.Value())).text;
      assert cache.Value() == Interpret(clock, formatter.pattern, record, old(cache.Value())).cache;
      assert forall a :: a in appenders ==> a.Value() == old(a.Value());
      AppendToAll(appenders, record.level, text);
      assert cache.Value() == Interpret(clock, formatter.pattern, record, old(cache.Value())).cache;
    }

    method SetLevel(newLevel: Level)
      requires Valid()
      modifies this`level
      ensures Valid() && level == newLevel
    {
      level := newLevel;
    }

    /** False when the formatter's constructor throws. */
    method SetFormatter(pattern: string) returns (ok: bool)
      requires Valid()
      modifies this`formatter
      ensures Valid() && ok == Pattern.Parse(pattern).Accepted?
      ensures if ok then fresh(formatter) && formatter.pattern == pattern else formatter == old(formatter)
    {
      hide Pattern.Parse;
      var f := MakeFormatter(pattern);
      if f == null {
        return false;
      }
      formatter := f;
      return true;
    }

    method AddAppender(appender: Appender?)
      requires Valid()
      modifies this`appenders
      ensures Valid()
      ensures appenders == if appender == null then old(appenders) else old(appenders) + [appender]
    {
      if !(appender != null) {
        return;
      }
      appenders := appenders + [appender];
    }

    method RemoveAppender(appender: Appender?)
      requires Valid()
      modifies this`appenders
      ensures Valid() && appenders == Erase(old(appenders), appender) && appender !in appenders
      ensures forall a: Appender :: a != appender ==> multiset(appenders)[a] == multiset(old(appenders))[a]
    {
      EraseRemovesExactly(appenders, appender);
      appenders := Erase(appenders, appender);
    }

    method ClearAppenders()
      requires Valid()
      modifies this`appenders
      ensures Valid() && appenders == []
    {
      appenders := [];
    }

    method Flush()
      requires Valid()
      modifies Owner().appenders
      ensures AllWent(Op.Flush, Owner().appenders, |Owner().appenders|)
      decreases Hops()
    {
      if appenders == [] {
        if root != null {
          root.Flush();
        }
        return;
      }
      FlushAll(appenders);
    }

    method Sync()
      requires Valid()
      modifies Owner().appenders
      ensures AllWent(Op.Sync, Owner().appenders, |Owner().appenders|)
      decreases Hops()
    {
      if appenders == [] {
        if root != null {
          root.Sync();
        }
        return;
      }
      SyncAll(appenders);
    }

    method SetRoot(newRoot: Logger)
      modifies this`root
      ensures root == newRoot
    {
      root := newRoot;
    }
  }

  /** The levels the gate of a logger with appenders opens for, threshold by threshold. */
  lemma OpensExactly(logger: Logger, level: Level)
    requires logger.Valid() && logger.appenders != []
    ensures logger.level == Debug ==> logger.ShouldLog(level)
    ensures logger.level == Info ==> (logger.ShouldLog(level) <==> level in {Info, Warn, Error, Fatal, Off})
    ensures logger.level == Warn ==> (logger.ShouldLog(level) <==> level in {Warn, Error, Fatal, Off})
    ensures logger.level == Error ==> (logger.ShouldLog(level) <==> level in {Error, Fatal, Off})
    ensures logger.level == Fatal ==> (logger.ShouldLog(level) <==> level in {Fatal, Off})
    ensures logger.level == Level.Off ==> (logger.ShouldLog(level) <==> level == Off)
  {
    PassesExactly(level);
  }

  /** Without appenders of its own, a logger opens for what it and its root both let pass, if the root has appenders. */
  lemma FallsBackToRoot(logger: Logger, level: Level)
    requires logger.Valid() && logger.appenders == []
    ensures logger.ShouldLog(level) <==>
            logger.root != null && Passes(level, logger.level) && logger.root.ShouldLog(level)
    ensures logger.Owner() == if logger.root != null then logger.root else logger
  {}

  /** The constructor: null when it throws. */
  method MakeLogger(name: string) returns (logger: Logger?)
    ensures logger == null <==> name == ""
    ensures logger != null ==> fresh(logger) && fresh(logger.formatter) && logger.Valid() && logger.name == name
    ensures logger != null ==> logger.level == Debug && logger.appenders == [] && logger.root == null
    ensures logger != null ==> logger.formatter.pattern == DEFAULT_LOG_PATTERN
  {
    if name == "" {
      return null;
    }
    logger := new Logger(name);
  }

  // ----- The registry -----

  class LoggerManager {
    const root: Logger
    var loggers: map<string, Logger>
    ghost var Repr: set<object>

    /** Every key is its logger's name, the root is registered and has no root, and it is the root of all others. */
    ghost predicate Valid()
      reads this, Repr
    {
      && this in Repr && "" !in loggers && "root" in loggers && loggers["root"] == root
      && forall name :: name in loggers ==>
           loggers[name] in Repr && loggers[name].formatter in Repr && Registered(name, loggers[name])
    }

    ghost predicate Registered(name: string, logger: Logger)
      reads logger, logger.formatter
    {
      && logger.name == name && logger.ValidAlone()
      && logger.root == if logger == root then null else root
    }

    constructor ()
      ensures Valid() && fresh(Repr)
      ensures loggers.Keys == {"root"} && root.level == Debug && root.formatter.pattern == DEFAULT_LOG_PATTERN
      ensures |root.appenders| == 1 && fresh(root.appenders[0]) && root.appenders[0].kind == Stdout
    {
      hide Pattern.Parse;
      var logger := new Logger("root");
      var appender := new Appender(Stdout, "");
      logger.AddAppender(appender);
      root := logger;
      loggers := map["root" := logger];
      Repr := {this, logger, logger.formatter};
    }

    method GetRoot() returns (logger: Logger)
      requires Valid()
      ensures logger == root && logger.name == "root" && logger.root == null
    {
      RegisteredMeans("root", root);
      return root;
    }

    /** A new logger bound to the root, before it is entered. */
    method MakeBound(name: string) returns (logger: Logger)
      requires name != "" && name != "root"
      ensures fresh(logger) && fresh(logger.formatter) && logger.formatter.pattern == DEFAULT_LOG_PATTERN
      ensures logger.level == Debug && logger.appenders == []
      ensures logger != root && logger.name == name && Registered(name, logger)
    {
      hide Pattern.Parse;
      logger := MakeLogger(name);
      logger.SetRoot(root);
    }

    method GetLogger(name: string) returns (logger: Logger?)
      requires Valid()
      modifies this`loggers, this`Repr
      ensures Valid() && fresh(Repr - old(Repr))
      ensures name == "" ==> logger == null && loggers == old(loggers)
      ensures name != "" ==> logger != null && name in loggers && loggers[name] == logger && logger.name == name
      ensures name in old(loggers) ==> logger == old(loggers[name]) && loggers == old(loggers)
      ensures name != "" && name !in old(loggers) ==>
        && fresh(logger) && logger.level == Debug && logger.appenders == []
        && logger.formatter.pattern == DEFAULT_LOG_PATTERN
        && loggers == old(loggers)[name := logger]
    {
      hide Registered;
      if !(name != "") {
        return null;
      }
      if name in loggers {
        RegisteredMeans(name, loggers[name]);
        return loggers[name];
      }
      logger := MakeBound(name);
      loggers := loggers[name := logger];
      Repr := Repr + {logger, logger.formatter};
    }

    lemma RegisteredMeans(name: string, logger: Logger)
      ensures Registered(name, logger) <==>
        && logger.name == name && logger.ValidAlone()
        && logger.root == if logger == root then null else root
    {}

    /** Two lookups give one logger exactly when they ask for one name. */
    method LookupTwice(a: string, b: string) returns (x: Logger?, y: Logger?)
      requires Valid()
      modifies this`loggers, this`Repr
      ensures Valid() && fresh(Repr - old(Repr))
      ensures (x == null <==> a == "") && (y == null <==> b == "")
      ensures x != null && y != null ==> x.name == a && y.name == b && (x == y <==> a == b)
    {
      hide Valid, Registered;
      x := GetLogger(a);
      y := GetLogger(b);
    }

    /** Its root is managed too, so a managed logger meets what its own operations ask for. */
    lemma ManagedIsValid(name: string)
      requires Valid() && name in loggers
      ensures loggers[name].Valid()
    {}

    /** The loggers' appenders are all in `pool`. */
    ghost predicate UsesOnly(pool: set<Appender>)
      reads this, loggers.Values
    {
      forall name :: name in loggers ==> forall a :: a in loggers[name].appenders ==> a in pool
    }

    lemma OwnerUsesOnly(name: string, pool: set<Appender>)
      requires Valid() && name in loggers && UsesOnly(pool)
      ensures forall a :: a in loggers[name].Owner().appenders ==> a in pool
    {}
  }
}
