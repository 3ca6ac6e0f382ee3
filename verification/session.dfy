/** Whole runs of a program that logs through the registry, against a model on plain values: the operations every
  * appender goes through are a function of the commands.
  */
module Sessions {
  import opened Appenders
  import opened DateCache
  import opened DefaultPattern
  import opened Formatting
  import opened LogLevel
  import opened Loggers
  import opened Sequences
  import Pattern

  datatype Setter =
    | ChangeLevel(level: Level)
    | ChangeFormatter(pattern: string)
    | Add(appender: Appender?)
    | Remove(appender: Appender?)
    | Clear
  {
    ghost predicate UsesOnly(pool: set<Appender>) {
      Add? && appender != null ==> appender in pool
    }
  }

  /** What a program does with a logger it looks up, or with an appender it holds. */
  datatype Command =
    | Lookup(name: string)
    | Change(name: string, setter: Setter)
    | Log(name: string, record: Record)
    | FlushIt(name: string)
    | SyncIt(name: string)
    | Direct(appender: Appender, op: Op)
  {
    /** An appender's own methods are its setter, its flush and its sync. */
    ghost predicate UsesOnly(pool: set<Appender>) {
      && (Change? ==> setter.UsesOnly(pool))
      && (Direct? ==> appender in pool && (op.Flush? || op.Sync? || op.SetLevel?))
    }
  }

  // ----- The model on values -----

  datatype LoggerView = LoggerView(level: Level, pattern: string, appenders: seq<Appender>)

  type Registry = map<string, LoggerView>

  /** An operation on an appender. */
  datatype Call = Call(appender: Appender, op: Op)

  datatype Effect = Effect(registry: Registry, cache: Cache, calls: seq<Call>)

  function Set(view: LoggerView, setter: Setter): LoggerView {
    match setter
    case ChangeLevel(level) => view.(level := level)
    case ChangeFormatter(pattern) => if Pattern.Parse(pattern).Accepted? then view.(pattern := pattern) else view
    case Add(appender) => if appender == null then view else view.(appenders := view.appenders + [appender])
    case Remove(appender) => view.(appenders := Erase(view.appenders, appender))
    case Clear => view.(appenders := [])
  }

  /** A first lookup registers a logger without appenders. */
  function Bind(registry: Registry, name: string): Registry {
    if name == "" || name in registry then registry
    else registry[name := LoggerView(Debug, DEFAULT_LOG_PATTERN, [])]
  }

  /** Where the records of `name` go. */
  function OwnerOf(registry: Registry, name: string): LoggerView
    requires name in registry && "root" in registry
  {
    if registry[name].appenders == [] then registry["root"] else registry[name]
  }

  /** `op` on every place of a list, in order. */
  function OnEach(appenders: seq<Appender>, op: Op): seq<Call> {
    seq(|appenders|, i requires 0 <= i < |appenders| => Call(appenders[i], op))
  }

  function DoLog(clock: Clock, registry: Registry, cache: Cache, name: string, record: Record): (e: Effect)
    requires name in registry && "root" in registry
    ensures e.registry == registry
  {
    var owner := OwnerOf(registry, name);
    if Passes(record.level, registry[name].level) && Passes(record.level, owner.level) && owner.appenders != [] then
      var o := Interpret(clock, owner.pattern, record, cache);
      Effect(registry, o.cache, OnEach(owner.appenders, Op.Append(record.level, o.text)))
    else Effect(registry, cache, [])
  }

  function Do(clock: Clock, registry: Registry, cache: Cache, command: Command): (e: Effect)
    requires "root" in registry
    ensures "root" in e.registry
  {
    if command.Direct? then Effect(registry, cache, [Call(command.appender, command.op)])
    else if command.name == "" then Effect(registry, cache, [])
    else DoOn(clock, Bind(registry, command.name), cache, command)
  }

  /** The command, its logger looked up. */
  function DoOn(clock: Clock, registry: Registry, cache: Cache, command: Command): (e: Effect)
    requires !command.Direct? && command.name in registry && "root" in registry
    ensures "root" in e.registry
  {
    var name := command.name;
    match command
    case Lookup(_) => Effect(registry, cache, [])
    case Change(_, setter) => Effect(registry[name := Set(registry[name], setter)], cache, [])
    case Log(_, record) => DoLog(clock, registry, cache, name, record)
    case FlushIt(_) => Effect(registry, cache, OnEach(OwnerOf(registry, name).appenders, Op.Flush))
    case SyncIt(_) => Effect(registry, cache, OnEach(OwnerOf(registry, name).appenders, Op.Sync))
  }

  /** A command, and the thread that gives it. */
  datatype Action = Action(thread: nat, command: Command)

  /** The date caches of the threads so far; a thread starts with the empty cache. */
  type Caches = map<nat, Cache>

  datatype Outcome = Outcome(registry: Registry, caches: Caches, calls: seq<Call>)

  function CacheOf(caches: Caches, thread: nat): Cache {
    if thread in caches then caches[thread] else EMPTY
  }

  function DoAction(clock: Clock, registry: Registry, caches: Caches, action: Action): (o: Outcome)
    requires "root" in registry
    ensures "root" in o.registry
  {
    var e := Do(clock, registry, CacheOf(caches, action.thread), action.command);
    Outcome(e.registry, caches[action.thread := e.cache], e.calls)
  }

  function DoAll(clock: Clock, registry: Registry, caches: Caches, actions: seq<Action>): (o: Outcome)
    requires "root" in registry
    ensures "root" in o.registry
    decreases |actions|
  {
    if actions == [] then Outcome(registry, caches, [])
    else
      var first := DoAction(clock, registry, caches, actions[0]);
      var rest := DoAll(clock, first.registry, first.caches, actions[1..]);
      Outcome(rest.registry, rest.caches, first.calls + rest.calls)
  }

  /** The operations `a` itself goes through. */
  function OpsFor(a: Appender, calls: seq<Call>): seq<Op> {
    if calls == [] then []
    else (if calls[0].appender == a then [calls[0].op] else []) + OpsFor(a, calls[1..])
  }

  lemma {:induction false} OpsForConcat(a: Appender, x: seq<Call>, y: seq<Call>)
    ensures OpsFor(a, x + y) == OpsFor(a, x) + OpsFor(a, y)
  {
    if x == [] {
      assert x + y == y;
    } else {
      assert (x + y)[0] == x[0] && (x + y)[1..] == x[1..] + y;
      OpsForConcat(a, x[1..], y);
      Associates(if x[0].appender == a then [x[0].op] else [], OpsFor(a, x[1..]), OpsFor(a, y));
    }
  }

  /** Of one operation on every place, `a` sees as many as it has places. */
  lemma {:induction false} OpsForPlaces(a: Appender, appenders: seq<Appender>, op: Op, n: nat)
    requires n <= |appenders|
    ensures OpsFor(a, OnEach(appenders, op)[..n]) == Repeat(op, Copies(appenders, n, a))
  {
    if n > 0 {
      OpsForPlaces(a, appenders, op, n - 1);
      var last := OnEach(appenders, op)[n - 1];
      assert OnEach(appenders, op)[..n] == OnEach(appenders, op)[..n - 1] + [last];
      OpsForConcat(a, OnEach(appenders, op)[..n - 1], [last]);
      assert [last][1..] == [];
    }
  }

  lemma OpsForEach(a: Appender, appenders: seq<Appender>, op: Op)
    ensures OpsFor(a, OnEach(appenders, op)) == Repeat(op, multiset(appenders)[a])
  {
    OpsForPlaces(a, appenders, op, |appenders|);
    CopiesIsMultiplicity(appenders, |appenders|, a);
    assert OnEach(appenders, op)[..|appenders|] == OnEach(appenders, op) && appenders[..|appenders|] == appenders;
  }

  /** Who receives one record: an appender gets it once for each place it has in the list of the logger that owns
    * the appenders, if the level is at least the logger's, the owner's and the appender's own; the text is the
    * owner's pattern's.
    */
  lemma WhoReceives(clock: Clock, registry: Registry, cache: Cache, name: string, record: Record, a: Appender,
                    threshold: Level)
    requires name in registry && "root" in registry
    ensures var owner := if registry[name].appenders != [] then registry[name] else registry["root"];
            Accepted(OpsFor(a, DoLog(clock, registry, cache, name, record).calls), threshold) ==
            if Passes(record.level, registry[name].level) && Passes(record.level, owner.level)
               && Passes(record.level, threshold)
            then Times(Interpret(clock, owner.pattern, record, cache).text, multiset(owner.appenders)[a]) else ""
  {
    var owner := OwnerOf(registry, name);
    var text := Interpret(clock, owner.pattern, record, cache).text;
    OpsForEach(a, owner.appenders, Op.Append(record.level, text));
    AcceptedCopies(record.level, text, multiset(owner.appenders)[a], threshold);
  }

  // ----- Durability of sessions -----

  /** The first k actions, one more, and the rest. */
  lemma {:induction false} DoAllSplits(clock: Clock, registry: Registry, caches: Caches, actions: seq<Action>, k: nat)
    returns (later: seq<Call>)
    requires "root" in registry && k < |actions|
    ensures var start := DoAll(clock, registry, caches, actions[..k]);
            var here := DoAction(clock, start.registry, start.caches, actions[k]);
            && DoAll(clock, registry, caches, actions[..k + 1]).calls == start.calls + here.calls
            && DoAll(clock, registry, caches, actions).calls == start.calls + here.calls + later
    decreases |actions|
  {
    hide DoAction;
    var first := DoAction(clock, registry, caches, actions[0]);
    var rest := actions[1..];
    if k == 0 {
      later := DoAll(clock, first.registry, first.caches, rest).calls;
      assert actions[..0] == [] && actions[..1] == [actions[0]] && actions[..1][1..] == [];
      assert [] + first.calls == first.calls + [] == first.calls;
    } else {
      later := DoAllSplits(clock, first.registry, first.caches, rest, k - 1);
      assert actions[..k][1..] == rest[..k - 1] && actions[..k + 1][1..] == rest[..k];
      var start := DoAll(clock, first.registry, first.caches, rest[..k - 1]);
      var here := DoAction(clock, start.registry, start.caches, actions[k]);
      Associates(first.calls, start.calls, here.calls);
      Associates(first.calls, start.calls + here.calls, later);
    }
  }

  /** What `a` goes through before, in and after action k. */
  lemma OpsAround(clock: Clock, registry: Registry, caches: Caches, actions: seq<Action>, k: nat, a: Appender)
    returns (after: seq<Op>)
    requires "root" in registry && k < |actions|
    ensures var start := DoAll(clock, registry, caches, actions[..k]);
            var here := DoAction(clock, start.registry, start.caches, actions[k]);
            var upTo := OpsFor(a, start.calls) + OpsFor(a, here.calls);
            && OpsFor(a, DoAll(clock, registry, caches, actions[..k + 1]).calls) == upTo
            && OpsFor(a, DoAll(clock, registry, caches, actions).calls) == upTo + after
  {
    hide DoAction, DoAll, OpsFor;
    var later := DoAllSplits(clock, registry, caches, actions, k);
    var start := DoAll(clock, registry, caches, actions[..k]);
    var here := DoAction(clock, start.registry, start.caches, actions[k]);
    OpsForConcat(a, start.calls, here.calls);
    OpsForConcat(a, start.calls + here.calls, later);
    after := OpsFor(a, later);
  }

  /** Whose appenders a flush, a sync or a record of `name` goes to, after its lookup. */
  ghost predicate Owns(registry: Registry, name: string, a: Appender)
    requires "root" in registry
  {
    name != "" && a in OwnerOf(Bind(registry, name), name).appenders
  }

  /** The command syncs `a`. */
  ghost predicate Syncs(registry: Registry, command: Command, a: Appender)
    requires "root" in registry
  {
    match command
    case SyncIt(name) => Owns(registry, name, a)
    case Direct(b, op) => a == b && op.Sync?
    case _ => false
  }

  /** The command pushes what `a` holds to the operating system: a flush, a sync or a FATAL record that arrives. */
  ghost predicate PushesOut(registry: Registry, command: Command, a: Appender, threshold: Level)
    requires "root" in registry
  {
    || Syncs(registry, command, a)
    || match command
       case FlushIt(name) => Owns(registry, name, a)
       case Direct(b, op) => a == b && op.Flush?
       case Log(name, record) =>
         && Owns(registry, name, a) && record.level == Fatal && Passes(Fatal, threshold)
         && var bound := Bind(registry, name);
            Passes(Fatal, bound[name].level) && Passes(Fatal, OwnerOf(bound, name).level)
       case _ => false
  }

  lemma {:induction false} RepeatKeepsLevel(op: Op, n: nat, threshold: Level)
    requires !op.SetLevel?
    ensures LevelAfter(Repeat(op, n), threshold) == threshold
  {
    if n > 0 {
      assert Repeat(op, n)[1..] == Repeat(op, n - 1);
      RepeatKeepsLevel(op, n - 1, threshold);
    }
  }

  lemma {:induction false} LevelAfterConcat(x: seq<Op>, y: seq<Op>, threshold: Level)
    ensures LevelAfter(x + y, threshold) == LevelAfter(y, LevelAfter(x, threshold))
  {
    if x == [] {
      assert x + y == y;
    } else {
      assert (x + y)[1..] == x[1..] + y;
      LevelAfterConcat(x[1..], y, if x[0].SetLevel? then x[0].threshold else threshold);
    }
  }

  /** Such a command ends, for `a`, in the operation that pushes. */
  lemma EndsInPush(clock: Clock, registry: Registry, cache: Cache, command: Command, a: Appender, threshold: Level)
    returns (before: seq<Op>, op: Op)
    requires "root" in registry && PushesOut(registry, command, a, threshold)
    ensures OpsFor(a, Do(clock, registry, cache, command).calls) == before + [op]
    ensures Pushes(op, threshold) && LevelAfter(before, threshold) == threshold
    ensures Syncs(registry, command, a) ==> op.Sync?
  {
    if command.Direct? {
      before, op := [], command.op;
      assert [Call(a, op)][1..] == [];
    } else {
      var bound := Bind(registry, command.name);
      var owner := OwnerOf(bound, command.name);
      op := if command.FlushIt? then Op.Flush
            else if command.SyncIt? then Op.Sync
            else Op.Append(Fatal, Interpret(clock, owner.pattern, command.record, cache).text);
      var n := multiset(owner.appenders)[a];
      before := Repeat(op, n - 1);
      OpsForEach(a, owner.appenders, op);
      RepeatKeepsLevel(op, n - 1, threshold);
      assert Repeat(op, n) == before + [op];
    }
  }

  /** `a`, having gone from `s` to `s'` in a run of `actions`, has kept what action k secured: what it accepted up
    * to the end of that action is on disk, if its command syncs `a` and `a` is a file, and is with the operating
    * system, if the command pushes `a`, whatever the rest of the run did.
    */
  ghost predicate Kept(clock: Clock, registry: Registry, caches: Caches, actions: seq<Action>, k: nat, a: Appender,
                       s: State, s': State)
    requires "root" in registry && k < |actions|
  {
    var start, command := DoAll(clock, registry, caches, actions[..k]), actions[k].command;
    var upTo := OpsFor(a, DoAll(clock, registry, caches, actions[..k + 1]).calls);
    var text := s.stages.written + Accepted(upTo, s.level);
    && (Syncs(start.registry, command, a) && a.kind == File ==> text <= s'.stages.disk)
    && (PushesOut(start.registry, command, a, LevelAfter(OpsFor(a, start.calls), s.level)) ==> text <= s'.stages.os)
  }

  /** Durability of sessions. */
  lemma SessionsLast(clock: Clock, registry: Registry, caches: Caches, actions: seq<Action>, k: nat, a: Appender,
                     s: State, s': State)
    requires "root" in registry && k < |actions|
    requires Went(a, s, s', DoAll(clock, registry, caches, actions).calls)
    ensures Kept(clock, registry, caches, actions, k, a, s, s')
  {
    hide Do, DoAll, OpsFor, PushesOut, Syncs, Accepted, LevelAfter;
    var after := OpsAround(clock, registry, caches, actions, k, a);
    var start, command := DoAll(clock, registry, caches, actions[..k]), actions[k].command;
    var u := OpsFor(a, start.calls);
    var threshold := LevelAfter(u, s.level);
    SyncIsPush(start.registry, command, a, threshold);
    if PushesOut(start.registry, command, a, threshold) {
      var cache := CacheOf(start.caches, actions[k].thread);
      var before, op := EndsInPush(clock, start.registry, cache, command, a, threshold);
      Associates(u, before, [op]);
      LevelAfterConcat(u, before, s.level);
      Lasts(a.kind, s, u + before, op, after, s');
    }
  }

  lemma SyncIsPush(registry: Registry, command: Command, a: Appender, threshold: Level)
    requires "root" in registry
    ensures Syncs(registry, command, a) ==> PushesOut(registry, command, a, threshold)
  {}

  // ----- The program -----

  ghost function ViewOf(manager: LoggerManager): Registry
    reads manager, manager.loggers.Values
  {
    map name | name in manager.loggers :: ViewOfLogger(manager.loggers[name])
  }

  ghost function ViewOfLogger(logger: Logger): LoggerView
    reads logger
  {
    LoggerView(logger.level, logger.formatter.pattern, logger.appenders)
  }

  /** `a` went from `s` to `s'` by its own operations among `calls`, and by nothing else. */
  ghost predicate Went(a: Appender, s: State, s': State, calls: seq<Call>) {
    Goes(a.kind, s, OpsFor(a, calls), s')
  }

  lemma WentNowhere(a: Appender, s: State)
    requires s.stages.Valid()
    ensures Went(a, s, s, [])
  {
    GoesNowhere(a.kind, s);
  }

  lemma WentFurther(a: Appender, s: State, s': State, s'': State, x: seq<Call>, y: seq<Call>)
    requires Went(a, s, s', x) && Went(a, s', s'', y)
    ensures Went(a, s, s'', x + y)
  {
    OpsForConcat(a, x, y);
    GoesFurther(a.kind, s, OpsFor(a, x), s', OpsFor(a, y), s'');
  }

  lemma {:induction false} NoCopies(appenders: seq<Appender>, n: nat, a: Appender)
    requires n <= |appenders| && a !in appenders
    ensures Copies(appenders, n, a) == 0
  {
    if n > 0 { NoCopies(appenders, n - 1, a); }
  }

  lemma WentEach(a: Appender, s: State, s': State, op: Op, appenders: seq<Appender>)
    requires s.stages.Valid()
    requires if a in appenders then GoesPlaces(a, s, op, appenders, |appenders|, s') else s' == s
    ensures Went(a, s, s', OnEach(appenders, op))
  {
    OpsForPlaces(a, appenders, op, |appenders|);
    assert OnEach(appenders, op)[..|appenders|] == OnEach(appenders, op);
    if a !in appenders {
      NoCopies(appenders, |appenders|, a);
      GoesNowhere(a.kind, s);
      assert Repeat(op, 0) == [];
    }
  }

  method Apply(logger: Logger, setter: Setter, ghost pool: set<Appender>)
    requires logger.Valid() && setter.UsesOnly(pool) && forall a :: a in logger.appenders ==> a in pool
    modifies logger
    ensures logger.ValidAlone() && logger.root == old(logger.root)
    ensures logger.formatter == old(logger.formatter) || fresh(logger.formatter)
    ensures forall a :: a in logger.appenders ==> a in pool
    ensures ViewOfLogger(logger) == Set(old(ViewOfLogger(logger)), setter)
  {
    hide Pattern.Parse;
    match setter {
      case ChangeLevel(level) => logger.SetLevel(level);
      case ChangeFormatter(pattern) => var ok := logger.SetFormatter(pattern);
      case Add(appender) => logger.AddAppender(appender);
      case Remove(appender) =>
        ghost var before := logger.appenders;
        logger.RemoveAppender(appender);
        forall a | a in logger.appenders ensures a in before { EraseKeepsOthers(before, appender); }
      case Clear => logger.ClearAppenders();
    }
  }

  lemma ViewHas(manager: LoggerManager, name: string)
    requires manager.Valid() && name in manager.loggers
    ensures name != "" && "root" in ViewOf(manager) && name in ViewOf(manager)
    ensures ViewOf(manager)[name] == ViewOfLogger(manager.loggers[name])
    ensures OwnerOf(ViewOf(manager), name) == ViewOfLogger(manager.loggers[name].Owner())
    ensures OwnerOf(ViewOf(manager), name).appenders == manager.loggers[name].Owner().appenders
    ensures manager.loggers[name].Valid()
  {}

  lemma ViewHasRoot(manager: LoggerManager)
    requires manager.Valid()
    ensures "root" in ViewOf(manager)
  {}

  method RunLookup(manager: LoggerManager, name: string, ghost pool: set<Appender>) returns (logger: Logger?)
    requires manager.Valid() && manager.UsesOnly(pool)
    modifies manager`loggers, manager`Repr
    ensures manager.Valid() && fresh(manager.Repr - old(manager.Repr)) && manager.UsesOnly(pool)
    ensures name == "" <==> logger == null
    ensures name != "" ==> name in manager.loggers
    ensures ViewOf(manager) == Bind(old(ViewOf(manager)), name)
    ensures Grows(old(manager.loggers), manager.loggers)
    ensures forall n :: n in manager.loggers && n !in old(manager.loggers) ==> fresh(manager.loggers[n])
  {
    hide LoggerManager.Valid;
    logger := manager.GetLogger(name);
  }

  /** A setter called on a managed logger. */
  method RunChange(manager: LoggerManager, name: string, setter: Setter, ghost pool: set<Appender>)
    requires manager.Valid() && name in manager.loggers && manager.UsesOnly(pool) && setter.UsesOnly(pool)
    modifies manager`Repr, manager.loggers[name]
    ensures manager.Valid() && fresh(manager.Repr - old(manager.Repr)) && manager.UsesOnly(pool)
    ensures ViewOf(manager) == old(ViewOf(manager))[name := Set(old(ViewOf(manager)[name]), setter)]
  {
    hide LoggerManager.Registered, Logger.Valid, Logger.ValidAlone, Formatter.Valid, Set, ViewOfLogger;
    var logger := manager.loggers[name];
    manager.ManagedIsValid(name);
    manager.RegisteredMeans(name, logger);
    forall n | n in manager.loggers ensures manager.loggers[n].name == n {
      manager.RegisteredMeans(n, manager.loggers[n]);
    }
    Apply(logger, setter, pool);
    manager.Repr := manager.Repr + {logger.formatter};
    manager.RegisteredMeans(name, logger);
    forall n | n in manager.loggers && n != name ensures manager.Registered(n, manager.loggers[n]) {
      assert old(manager.Registered(n, manager.loggers[n])) && manager.loggers[n] != logger;
    }
  }

  method RunLog(manager: LoggerManager, name: string, record: Record, clock: Clock, cache: ThreadCache,
                ghost pool: set<Appender>)
    requires manager.Valid() && name in manager.loggers && manager.UsesOnly(pool)
    modifies cache, manager.loggers[name].Owner().appenders
    ensures manager.Valid()
    ensures var view := old(ViewOf(manager));
            name in view && "root" in view
            && var e := DoLog(clock, view, old(cache.Value()), name, record);
               cache.Value() == e.cache && forall a :: a in pool ==> Went(a, old(a.Value()), a.Value(), e.calls)
  {
    hide LoggerManager.Registered, Interpret, Went, GoesPlaces, OnEach;
    ViewHas(manager, name);
    var logger := manager.loggers[name];
    forall n | n in manager.loggers ensures manager.Registered(n, manager.loggers[n]) {}
    ghost var owner, o := logger.Owner(), Interpret(clock, logger.Owner().formatter.pattern, record, cache.Value());
    ghost var open := logger.Reaches(record.level);
    logger.Submit(clock, record, cache);
    forall n | n in manager.loggers ensures manager.Registered(n, manager.loggers[n]) {}
    forall a | a in pool
      ensures var op := Op.Append(record.level, o.text);
              Went(a, old(a.Value()), a.Value(), if open then OnEach(owner.appenders, op) else [])
    {
      if open {
        WentEach(a, old(a.Value()), a.Value(), Op.Append(record.level, o.text), owner.appenders);
      } else {
        WentNowhere(a, a.Value());
      }
    }
  }

  method RunFlush(manager: LoggerManager, name: string, ghost pool: set<Appender>)
    requires manager.Valid() && name in manager.loggers && manager.UsesOnly(pool)
    modifies manager.loggers[name].Owner().appenders
    ensures manager.Valid()
    ensures var calls := OnEach(manager.loggers[name].Owner().appenders, Op.Flush);
            forall a :: a in pool ==> Went(a, old(a.Value()), a.Value(), calls)
  {
    hide LoggerManager.Registered, Went, GoesPlaces, OnEach;
    ViewHas(manager, name);
    var logger := manager.loggers[name];
    forall n | n in manager.loggers ensures manager.Registered(n, manager.loggers[n]) {}
    logger.Flush();
    forall n | n in manager.loggers ensures manager.Registered(n, manager.loggers[n]) {}
    ghost var list := logger.Owner().appenders;
    forall a | a in pool ensures Went(a, old(a.Value()), a.Value(), OnEach(list, Op.Flush)) {
      WentEach(a, old(a.Value()), a.Value(), Op.Flush, list);
    }
  }

  method RunSync(manager: LoggerManager, name: string, ghost pool: set<Appender>)
    requires manager.Valid() && name in manager.loggers && manager.UsesOnly(pool)
    modifies manager.loggers[name].Owner().appenders
    ensures manager.Valid()
    ensures var calls := OnEach(manager.loggers[name].Owner().appenders, Op.Sync);
            forall a :: a in pool ==> Went(a, old(a.Value()), a.Value(), calls)
  {
    hide LoggerManager.Registered, Went, GoesPlaces, OnEach;
    ViewHas(manager, name);
    var logger := manager.loggers[name];
    forall n | n in manager.loggers ensures manager.Registered(n, manager.loggers[n]) {}
    logger.Sync();
    forall n | n in manager.loggers ensures manager.Registered(n, manager.loggers[n]) {}
    ghost var list := logger.Owner().appenders;
    forall a | a in pool ensures Went(a, old(a.Value()), a.Value(), OnEach(list, Op.Sync)) {
      WentEach(a, old(a.Value()), a.Value(), Op.Sync, list);
    }
  }

  /** The command, its logger looked up. */
  method RunOn(manager: LoggerManager, command: Command, clock: Clock, cache: ThreadCache, ghost pool: set<Appender>)
    requires manager.Valid() && manager.UsesOnly(pool) && command.UsesOnly(pool)
    requires !command.Direct? && command.name in manager.loggers
    modifies manager`Repr, manager.loggers[command.name], cache, pool
    ensures manager.Valid() && fresh(manager.Repr - old(manager.Repr)) && manager.UsesOnly(pool)
    ensures var view := old(ViewOf(manager));
            command.name in view && "root" in view && var e := DoOn(clock, view, old(cache.Value()), command);
            && ViewOf(manager) == e.registry && cache.Value() == e.cache
            && forall a :: a in pool ==> Went(a, old(a.Value()), a.Value(), e.calls)
  {
    hide LoggerManager.Registered, LoggerManager.Valid, LoggerManager.UsesOnly, Logger.Valid, Logger.ValidAlone;
    hide Went, DoLog, Set, OwnerOf, ViewOfLogger, OnEach;
    ViewHas(manager, command.name);
    manager.OwnerUsesOnly(command.name, pool);
    forall a | a in pool ensures Went(a, a.Value(), a.Value(), []) { WentNowhere(a, a.Value()); }
    match command {
      case Lookup(_) =>
      case Change(name, setter) => RunChange(manager, name, setter, pool);
      case Log(name, record) => RunLog(manager, name, record, clock, cache, pool);
      case FlushIt(name) => RunFlush(manager, name, pool);
      case SyncIt(name) => RunSync(manager, name, pool);
    }
  }

  /** A method of the appender's own. */
  method RunDirect(manager: LoggerManager, appender: Appender, op: Op, ghost pool: set<Appender>)
    requires manager.Valid() && (op.Flush? || op.Sync? || op.SetLevel?)
    modifies appender
    ensures manager.Valid()
    ensures forall a :: a in pool ==> Went(a, old(a.Value()), a.Value(), [Call(appender, op)])
  {
    hide Step, LoggerManager.Registered;
    forall n | n in manager.loggers ensures manager.Registered(n, manager.loggers[n]) {}
    ghost var calls := [Call(appender, op)];
    assert calls[1..] == [];
    ghost var before := appender.Value();
    match op {
      case Flush => appender.Flush();
      case Sync => appender.Sync();
      case SetLevel(threshold) => appender.SetLevel(threshold);
    }
    forall n | n in manager.loggers ensures manager.Registered(n, manager.loggers[n]) {}
    forall a | a in pool ensures Went(a, old(a.Value()), a.Value(), calls) {
      GoesNowhere(a.kind, old(a.Value()));
      if a == appender {
        GoesOn(a.kind, before, [], before, op, a.Value());
        assert [] + [op] == OpsFor(a, calls);
      } else {
        assert OpsFor(a, calls) == [];
      }
    }
  }

  method Run(manager: LoggerManager, command: Command, clock: Clock, cache: ThreadCache, ghost pool: set<Appender>)
    requires manager.Valid() && manager.UsesOnly(pool) && command.UsesOnly(pool)
    modifies manager`loggers, manager`Repr, manager.loggers.Values, cache, pool
    ensures manager.Valid() && fresh(manager.Repr - old(manager.Repr)) && manager.UsesOnly(pool)
    ensures Grows(old(manager.loggers), manager.loggers)
    ensures forall n :: n in manager.loggers && n !in old(manager.loggers) ==> fresh(manager.loggers[n])
    ensures var view := old(ViewOf(manager));
            "root" in view && var e := Do(clock, view, old(cache.Value()), command);
            && ViewOf(manager) == e.registry && cache.Value() == e.cache
            && forall a :: a in pool ==> Went(a, old(a.Value()), a.Value(), e.calls)
  {
    hide LoggerManager.Valid, LoggerManager.UsesOnly, Went, DoOn, ViewOf;
    ViewHasRoot(manager);
    if command.Direct? {
      RunDirect(manager, command.appender, command.op, pool);
      return;
    }
    var logger := RunLookup(manager, command.name, pool);
    if logger == null {
      forall a | a in pool ensures Went(a, a.Value(), a.Value(), []) { WentNowhere(a, a.Value()); }
      return;
    }
    RunOn(manager, command, clock, cache, pool);
  }

  /** The thread's own cache is made when it is first needed. */
  method RunCache(manager: LoggerManager, threads: ThreadStorage, thread: nat) returns (cache: ThreadCache)
    requires manager.Valid() && threads.Valid()
    modifies threads
    ensures manager.Valid() && threads.Valid() && thread in threads.caches && threads.caches[thread] == cache
    ensures cache.Value() == CacheOf(old(threads.View()), thread)
    ensures threads.View() == old(threads.View())[thread := cache.Value()]
    ensures if thread in old(threads.caches) then threads.caches == old(threads.caches)
            else fresh(cache) && threads.caches == old(threads.caches)[thread := cache]
  {
    hide LoggerManager.Registered;
    forall n | n in manager.loggers ensures manager.Registered(n, manager.loggers[n]) {}
    cache := threads.CacheFor(thread);
    forall n | n in manager.loggers ensures manager.Registered(n, manager.loggers[n]) {}
  }

  /** A command on a thread that has its cache. */
  method RunOnThread(manager: LoggerManager, action: Action, clock: Clock, threads: ThreadStorage,
                     ghost pool: set<Appender>)
    requires manager.Valid() && manager.UsesOnly(pool) && action.command.UsesOnly(pool)
    requires threads.Valid() && action.thread in threads.caches
    modifies manager`loggers, manager`Repr, manager.loggers.Values, threads.caches[action.thread], pool
    ensures manager.Valid() && fresh(manager.Repr - old(manager.Repr)) && manager.UsesOnly(pool)
    ensures Grows(old(manager.loggers), manager.loggers)
    ensures forall n :: n in manager.loggers && n !in old(manager.loggers) ==> fresh(manager.loggers[n])
    ensures var view := old(ViewOf(manager));
            "root" in view && var e := Do(clock, view, old(threads.caches[action.thread].Value()), action.command);
            && ViewOf(manager) == e.registry && threads.View() == old(threads.View())[action.thread := e.cache]
            && forall a :: a in pool ==> Went(a, old(a.Value()), a.Value(), e.calls)
  {
    hide LoggerManager.Valid, LoggerManager.UsesOnly, Went, Do, ViewOf, Grows;
    Run(manager, action.command, clock, threads.caches[action.thread], pool);
    forall t | t in threads.caches && t != action.thread
      ensures threads.caches[t].Value() == old(threads.caches[t].Value())
    {
      assert threads.caches[t] != threads.caches[action.thread];
    }
  }

  method RunAction(manager: LoggerManager, action: Action, clock: Clock, threads: ThreadStorage,
                   ghost pool: set<Appender>)
    requires manager.Valid() && manager.UsesOnly(pool) && action.command.UsesOnly(pool) && threads.Valid()
    modifies manager`loggers, manager`Repr, manager.loggers.Values, threads, threads.caches.Values, pool
    ensures manager.Valid() && fresh(manager.Repr - old(manager.Repr)) && manager.UsesOnly(pool) && threads.Valid()
    ensures Grows(old(manager.loggers), manager.loggers)
    ensures forall n :: n in manager.loggers && n !in old(manager.loggers) ==> fresh(manager.loggers[n])
    ensures forall t :: t in threads.caches ==>
      fresh(threads.caches[t]) || (t in old(threads.caches) && threads.caches[t] == old(threads.caches[t]))
    ensures var view := old(ViewOf(manager));
            "root" in view && var o := DoAction(clock, view, old(threads.View()), action);
            && ViewOf(manager) == o.registry && threads.View() == o.caches
            && forall a :: a in pool ==> Went(a, old(a.Value()), a.Value(), o.calls)
  {
    hide LoggerManager.Valid, LoggerManager.UsesOnly, Went, Do, ViewOf, CacheOf, Grows, ThreadStorage.View;
    ViewHasRoot(manager);
    var cache := RunCache(manager, threads, action.thread);
    RunOnThread(manager, action, clock, threads, pool);
  }

  /** Names keep their loggers. */
  ghost predicate Grows(before: map<string, Logger>, after: map<string, Logger>) {
    forall n :: n in before ==> n in after && after[n] == before[n]
  }

  /** Any run refines the model: the registry's invariant holds throughout, names keep their loggers, the
    * registry and every thread's date cache end up as in the model, and every appender has gone through exactly the
    * model's operations on it and has kept what each command secured.
    */
  method RunAll(manager: LoggerManager, actions: seq<Action>, clock: Clock, threads: ThreadStorage,
                ghost pool: set<Appender>)
    requires manager.Valid() && manager.UsesOnly(pool) && threads.Valid()
    requires forall action :: action in actions ==> action.command.UsesOnly(pool)
    modifies manager`loggers, manager`Repr, manager.loggers.Values, threads, threads.caches.Values, pool
    ensures manager.Valid() && fresh(manager.Repr - old(manager.Repr)) && manager.UsesOnly(pool) && threads.Valid()
    ensures Grows(old(manager.loggers), manager.loggers)
    ensures forall n :: n in manager.loggers && n !in old(manager.loggers) ==> fresh(manager.loggers[n])
    ensures var view := old(ViewOf(manager));
            "root" in view && var o := DoAll(clock, view, old(threads.View()), actions);
            && ViewOf(manager) == o.registry && threads.View() == o.caches
            && forall a :: a in pool ==> Went(a, old(a.Value()), a.Value(), o.calls)
    ensures var view := old(ViewOf(manager));
            "root" in view
            && forall a, k :: a in pool && 0 <= k < |actions| ==>
                 Kept(clock, view, old(threads.View()), actions, k, a, old(a.Value()), a.Value())
    decreases |actions|
  {
    hide LoggerManager.Valid, LoggerManager.UsesOnly, Went, DoAction, ViewOf, Kept;
    ghost var view, start := ViewOf(manager), threads.View();
    ViewHasRoot(manager);
    if actions == [] {
      forall a | a in pool ensures Went(a, a.Value(), a.Value(), []) { WentNowhere(a, a.Value()); }
      return;
    }
    ghost var first := DoAction(clock, view, start, actions[0]);
    RunAction(manager, actions[0], clock, threads, pool);
    label Mid:
    ghost var rest := DoAll(clock, ViewOf(manager), threads.View(), actions[1..]);
    RunAll(manager, actions[1..], clock, threads, pool);
    forall a | a in pool ensures Went(a, old(a.Value()), a.Value(), first.calls + rest.calls) {
      WentFurther(a, old(a.Value()), old@Mid(a.Value()), a.Value(), first.calls, rest.calls);
    }
    forall a, k | a in pool && 0 <= k < |actions|
      ensures Kept(clock, view, start, actions, k, a, old(a.Value()), a.Value())
    {
      SessionsLast(clock, view, start, actions, k, a, old(a.Value()), a.Value());
    }
  }
}
