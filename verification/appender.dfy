/** Appenders, pans/src/Logger/apender.cc: the level test and the stages a record passes on its way to disk.
  *
  * stdio may hand buffered characters to the operating system, and the operating system may write them to
  * disk, earlier than asked; never later. Writing does not fail.
  */
module Appenders {
  import opened LogLevel
  import opened Sequences

  datatype Kind = Stdout | File

  /** Everything written so far, what of it the operating system has, and what of that is on disk. */
  datatype Stages = Stages(written: string, os: string, disk: string) {
    predicate Valid() { disk <= os <= written }
  }

  type OrderedStages = s: Stages | s.Valid() witness Stages("", "", "")

  datatype State = State(level: Level, stages: Stages)

  datatype Op =
    | Append(level: Level, record: string)
    | Flush
    | Sync
    | SetLevel(threshold: Level)
    | Idle   // stdio or the operating system moves characters on by itself

  predicate Passes(level: Level, threshold: Level) { Rank(level) >= Rank(threshold) }

  /** The levels each threshold lets pass, by name. */
  lemma PassesExactly(level: Level)
    ensures Passes(level, Debug)
    ensures Passes(level, Info) <==> level in {Info, Warn, Error, Fatal, Off}
    ensures Passes(level, Warn) <==> level in {Warn, Error, Fatal, Off}
    ensures Passes(level, Error) <==> level in {Error, Fatal, Off}
    ensures Passes(level, Fatal) <==> level in {Fatal, Off}
    ensures Passes(level, Off) <==> level == Off
  {}

  /** Nothing is taken back from the operating system or from disk. */
  predicate Advances(s: Stages, s': Stages) {
    s.os <= s'.os && s.disk <= s'.disk && s'.Valid()
  }

  /** One operation under the appender's mutex. */
  predicate Step(kind: Kind, s: State, op: Op, s': State) {
    match op
    case Append(level, record) =>
      if !Passes(level, s.level) then s' == s
      else
        && s'.level == s.level && s'.stages.written == s.stages.written + record && Advances(s.stages, s'.stages)
        && (level == Fatal ==> s'.stages.os == s'.stages.written)
    case Flush =>
      && s'.level == s.level && s'.stages.written == s.stages.written && Advances(s.stages, s'.stages)
      && s'.stages.os == s'.stages.written
    case Sync =>
      && s'.level == s.level && s'.stages.written == s.stages.written && Advances(s.stages, s'.stages)
      && s'.stages.os == s'.stages.written && (kind == File ==> s'.stages.disk == s'.stages.written)
    case SetLevel(threshold) => s' == s.(level := threshold)
    case Idle => s'.level == s.level && s'.stages.written == s.stages.written && Advances(s.stages, s'.stages)
  }

  class Appender {
    const kind: Kind
    var level: Level
    var stages: OrderedStages

    ghost function Value(): State
      reads this
    {
      State(level, stages)
    }

    /** Opens for appending: what the file held stays in front. */
    constructor (kind: Kind, existing: string)
      ensures this.kind == kind
      ensures Value() == State(Debug, Stages(existing, existing, existing))
    {
      this.kind := kind;
      level := Debug;
      stages := Stages(existing, existing, existing);
    }

    method MoveOn()
      modifies this
      ensures Step(kind, old(Value()), Idle, Value())
    {
      var n :| |stages.os| <= n <= |stages.written|;
      stages := stages.(os := stages.written[..n]);
      var m :| |stages.disk| <= m <= |stages.os|;
      stages := stages.(disk := stages.os[..m]);
    }

    method WriteUnlocked(record: string)
      modifies this
      ensures level == old(level) && Advances(old(stages), stages)
      ensures stages.written == old(stages.written) + record
    {
      stages := stages.(written := stages.written + record);
      MoveOn();
    }

    method FlushUnlocked()
      modifies this
      ensures Step(kind, old(Value()), Op.Flush, Value())
    {
      stages := stages.(os := stages.written);
      MoveOn();
    }

    method SyncUnlocked()
      modifies this
      ensures Step(kind, old(Value()), Op.Sync, Value())
    {
      FlushUnlocked();
      if kind == File {
        stages := stages.(disk := stages.os);
      }
    }

    method Append(recordLevel: Level, record: string)
      modifies this
      ensures Step(kind, old(Value()), Op.Append(recordLevel, record), Value())
      ensures level == old(level) && old(stages.written) <= stages.written
      ensures recordLevel == Fatal && Passes(Fatal, level) ==> stages.os == stages.written
    {
      if Rank(recordLevel) < Rank(level) {
        return;
      }
      WriteUnlocked(record);
      if recordLevel == Fatal {
        FlushUnlocked();
      }
    }

    method Flush()
      modifies this
      ensures Step(kind, old(Value()), Op.Flush, Value())
      ensures level == old(level) && stages.os == stages.written == old(stages.written)
    {
      FlushUnlocked();
    }

    method Sync()
      modifies this
      ensures Step(kind, old(Value()), Op.Sync, Value())
      ensures level == old(level) && stages.os == stages.written == old(stages.written)
      ensures kind == File ==> stages.disk == stages.written
    {
      SyncUnlocked();
    }

    method SetLevel(threshold: Level)
      modifies this
      ensures Step(kind, old(Value()), Op.SetLevel(threshold), Value())
      ensures level == threshold && stages == old(stages)
    {
      level := threshold;
    }
  }

  // ----- Whole runs, in the order of the mutex -----

  /** The records of a run that pass the threshold in force when they come, joined. */
  function Accepted(ops: seq<Op>, threshold: Level): string {
    if ops == [] then ""
    else
      match ops[0]
      case Append(level, record) => (if Passes(level, threshold) then record else "") + Accepted(ops[1..], threshold)
      case SetLevel(next) => Accepted(ops[1..], next)
      case _ => Accepted(ops[1..], threshold)
  }

  /** states[k] is the appender before ops[k]. */
  ghost predicate Run(kind: Kind, ops: seq<Op>, states: seq<State>) {
    && |states| == |ops| + 1 && states[0].stages.Valid()
    && forall k :: 0 <= k < |ops| ==> Step(kind, states[k], ops[k], states[k + 1])
  }

  lemma {:induction false} StagesStayValid(kind: Kind, ops: seq<Op>, states: seq<State>, k: nat)
    requires Run(kind, ops, states) && k < |states|
    ensures states[k].stages.Valid()
  {
    if k > 0 {
      StagesStayValid(kind, ops, states, k - 1);
      assert Step(kind, states[k - 1], ops[k - 1], states[k]);
    }
  }

  lemma {:induction false} RunTail(kind: Kind, ops: seq<Op>, states: seq<State>)
    requires Run(kind, ops, states) && ops != []
    ensures Run(kind, ops[1..], states[1..])
  {}

  /** The written text is what the file held, then exactly the accepted records, whole and in order. */
  lemma {:induction false} WrittenIsAccepted(kind: Kind, ops: seq<Op>, states: seq<State>)
    requires Run(kind, ops, states)
    ensures states[|ops|].stages.written == states[0].stages.written + Accepted(ops, states[0].level)
  {
    if ops != [] {
      assert Step(kind, states[0], ops[0], states[1]);
      RunTail(kind, ops, states);
      WrittenIsAccepted(kind, ops[1..], states[1..]);
      var first := if ops[0].Append? && Passes(ops[0].level, states[0].level) then ops[0].record else "";
      var rest := Accepted(ops[1..], states[1].level);
      assert states[0].stages.written + "" == states[0].stages.written;
      assert "" + rest == rest;
      assert states[0].stages.written + first + rest == states[0].stages.written + (first + rest);
    }
  }

  lemma {:induction false} NothingIsTakenBack(kind: Kind, ops: seq<Op>, states: seq<State>, j: nat, k: nat)
    requires Run(kind, ops, states) && j <= k < |states|
    ensures states[j].stages.disk <= states[k].stages.disk
    ensures states[j].stages.os <= states[k].stages.os
    ensures states[j].stages.written <= states[k].stages.written
  {
    if j < k {
      NothingIsTakenBack(kind, ops, states, j, k - 1);
      StagesStayValid(kind, ops, states, k - 1);
      assert Step(kind, states[k - 1], ops[k - 1], states[k]);
    }
  }

  /** Durability over any run: the stages are prefixes of each other, the written text is the accepted records,
    * and once an operation has flushed (a passing FATAL record, flush or sync) or synced a file, everything
    * accepted before its end stays with the operating system, or on disk, for the rest of the run.
    */
  lemma Durability(kind: Kind, ops: seq<Op>, states: seq<State>, j: nat, k: nat)
    requires Run(kind, ops, states) && j < |ops| && j < k < |states|
    ensures states[k].stages.disk <= states[k].stages.os <= states[k].stages.written
    ensures states[k].stages.written == states[0].stages.written + Accepted(ops[..k], states[0].level)
    ensures var upToJ := states[0].stages.written + Accepted(ops[..j + 1], states[0].level);
            && (ops[j] == Sync && kind == File ==> upToJ <= states[k].stages.disk)
            && (ops[j].Flush? || ops[j].Sync?
                || (ops[j].Append? && ops[j].level == Fatal && Passes(Fatal, states[j].level))
                ==> upToJ <= states[k].stages.os)
  {
    StagesStayValid(kind, ops, states, k);
    RunPrefix(kind, ops, states, k);
    WrittenIsAccepted(kind, ops[..k], states[..k + 1]);
    RunPrefix(kind, ops, states, j + 1);
    WrittenIsAccepted(kind, ops[..j + 1], states[..j + 2]);
    assert Step(kind, states[j], ops[j], states[j + 1]);
    NothingIsTakenBack(kind, ops, states, j + 1, k);
  }

  lemma RunPrefix(kind: Kind, ops: seq<Op>, states: seq<State>, k: nat)
    requires Run(kind, ops, states) && k <= |ops|
    ensures Run(kind, ops[..k], states[..k + 1])
  {}

  // ----- From one state to another -----

  /** The appender goes from `s` to `s'` by `ops`, one after the other. */
  ghost predicate Goes(kind: Kind, s: State, ops: seq<Op>, s': State) {
    exists states :: Run(kind, ops, states) && states[0] == s && states[|ops|] == s'
  }

  lemma GoesNowhere(kind: Kind, s: State)
    requires s.stages.Valid()
    ensures Goes(kind, s, [], s)
  {
    assert Run(kind, [], [s]);
  }

  lemma GoesNowhereElse(kind: Kind, s: State, s': State)
    requires Goes(kind, s, [], s')
    ensures s' == s
  {}

  lemma GoesFirst(kind: Kind, s: State, ops: seq<Op>, s': State) returns (mid: State)
    requires Goes(kind, s, ops, s') && ops != []
    ensures Step(kind, s, ops[0], mid) && Goes(kind, mid, ops[1..], s')
  {
    var states :| Run(kind, ops, states) && states[0] == s && states[|ops|] == s';
    mid := states[1];
    assert Step(kind, states[0], ops[0], states[1]);
    StagesStayValid(kind, ops, states, 1);
    RunTail(kind, ops, states);
    assert Run(kind, ops[1..], states[1..]) && states[1..][|ops[1..]|] == s';
  }

  lemma GoesOn(kind: Kind, s: State, ops: seq<Op>, s': State, op: Op, s'': State)
    requires Goes(kind, s, ops, s') && Step(kind, s', op, s'')
    ensures Goes(kind, s, ops + [op], s'')
  {
    var states :| Run(kind, ops, states) && states[0] == s && states[|ops|] == s';
    assert Run(kind, ops + [op], states + [s'']);
  }

  lemma GoesFurther(kind: Kind, s: State, x: seq<Op>, s': State, y: seq<Op>, s'': State)
    requires Goes(kind, s, x, s') && Goes(kind, s', y, s'')
    ensures Goes(kind, s, x + y, s'')
  {
    var u :| Run(kind, x, u) && u[0] == s && u[|x|] == s';
    var v :| Run(kind, y, v) && v[0] == s' && v[|y|] == s'';
    var w := u + v[1..];
    forall k | 0 <= k < |x + y| ensures Step(kind, w[k], (x + y)[k], w[k + 1]) {
      if k < |x| {
        assert Step(kind, u[k], x[k], u[k + 1]);
      } else {
        assert Step(kind, v[k - |x|], y[k - |x|], v[k - |x| + 1]) && w[k] == v[k - |x|];
      }
    }
    assert Run(kind, x + y, w);
  }

  function Repeat(op: Op, n: nat): seq<Op> { seq(n, i => op) }

  function Times(text: string, n: nat): string {
    if n == 0 then "" else text + Times(text, n - 1)
  }

  lemma {:induction false} AcceptedCopies(level: Level, text: string, n: nat, threshold: Level)
    ensures Accepted(Repeat(Op.Append(level, text), n), threshold)
            == if Passes(level, threshold) then Times(text, n) else ""
  {
    if n > 0 {
      AcceptedCopies(level, text, n - 1, threshold);
      assert Repeat(Op.Append(level, text), n)[1..] == Repeat(Op.Append(level, text), n - 1);
    }
  }

  /** Appending a record `n` times is all or nothing: below the threshold nothing changes at all. */
  lemma {:induction false} CopiesArrive(kind: Kind, s: State, level: Level, text: string, n: nat, s': State)
    requires Goes(kind, s, Repeat(Op.Append(level, text), n), s')
    ensures !Passes(level, s.level) ==> s' == s
    ensures Passes(level, s.level) ==>
              && s'.level == s.level && s'.stages.written == s.stages.written + Times(text, n)
              && Advances(s.stages, s'.stages) && (level == Fatal && 0 < n ==> s'.stages.os == s'.stages.written)
    decreases n
  {
    if n == 0 {
      GoesNowhereElse(kind, s, s');
    } else {
      var op := Op.Append(level, text);
      var mid := GoesFirst(kind, s, Repeat(op, n), s');
      assert Repeat(op, n)[1..] == Repeat(op, n - 1);
      CopiesArrive(kind, mid, level, text, n - 1, s');
      Associates(s.stages.written, text, Times(text, n - 1));
    }
  }

  /** A flush or a sync, repeated, is a flush or a sync. */
  lemma {:induction false} RepeatedOnce(kind: Kind, s: State, op: Op, n: nat, s': State)
    requires Goes(kind, s, Repeat(op, n), s') && (op.Flush? || op.Sync?) && 0 < n
    ensures Step(kind, s, op, s')
    decreases n
  {
    var mid := GoesFirst(kind, s, Repeat(op, n), s');
    assert Repeat(op, n)[1..] == Repeat(op, n - 1);
    if n == 1 {
      GoesNowhereElse(kind, mid, s');
    } else {
      RepeatedOnce(kind, mid, op, n - 1, s');
    }
  }

  /** The threshold after `ops`. */
  function LevelAfter(ops: seq<Op>, threshold: Level): Level {
    if ops == [] then threshold
    else LevelAfter(ops[1..], if ops[0].SetLevel? then ops[0].threshold else threshold)
  }

  lemma {:induction false} LevelFollows(kind: Kind, ops: seq<Op>, states: seq<State>)
    requires Run(kind, ops, states)
    ensures states[|ops|].level == LevelAfter(ops, states[0].level)
  {
    if ops != [] {
      assert Step(kind, states[0], ops[0], states[1]);
      RunTail(kind, ops, states);
      LevelFollows(kind, ops[1..], states[1..]);
    }
  }

  /** `op` pushes everything accepted so far to the operating system. */
  predicate Pushes(op: Op, threshold: Level) {
    op.Flush? || op.Sync? || (op.Append? && op.level == Fatal && Passes(Fatal, threshold))
  }

  /** What was accepted up to a pushing operation stays pushed, whatever follows. */
  lemma Lasts(kind: Kind, s: State, x: seq<Op>, op: Op, y: seq<Op>, s': State)
    requires Goes(kind, s, x + [op] + y, s')
    ensures var upTo := s.stages.written + Accepted(x + [op], s.level);
            && (op.Sync? && kind == File ==> upTo <= s'.stages.disk)
            && (Pushes(op, LevelAfter(x, s.level)) ==> upTo <= s'.stages.os)
  {
    var ops := x + [op] + y;
    var states :| Run(kind, ops, states) && states[0] == s && states[|ops|] == s';
    Durability(kind, ops, states, |x|, |ops|);
    RunPrefix(kind, ops, states, |x|);
    LevelFollows(kind, ops[..|x|], states[..|x| + 1]);
    assert ops[..|x| + 1] == x + [op] && ops[..|x|] == x;
  }

  lemma GoesWrites(kind: Kind, s: State, ops: seq<Op>, s': State)
    requires Goes(kind, s, ops, s')
    ensures s'.stages.written == s.stages.written + Accepted(ops, s.level)
    ensures s'.level == LevelAfter(ops, s.level) && Advances(s.stages, s'.stages)
  {
    var states :| Run(kind, ops, states) && states[0] == s && states[|ops|] == s';
    WrittenIsAccepted(kind, ops, states);
    LevelFollows(kind, ops, states);
    StagesStayValid(kind, ops, states, |ops|);
    NothingIsTakenBack(kind, ops, states, 0, |ops|);
  }

  /** What an appender accepts of a record, threshold by threshold. */
  lemma AcceptsExactly(kind: Kind, s: State, level: Level, record: string, s': State)
    requires Step(kind, s, Op.Append(level, record), s')
    ensures var taken := s'.stages.written == s.stages.written + record;
            && (s.level == Debug ==> taken)
            && (s.level == Info ==> if level in {Info, Warn, Error, Fatal, Off} then taken else s' == s)
            && (s.level == Warn ==> if level in {Warn, Error, Fatal, Off} then taken else s' == s)
            && (s.level == Error ==> if level in {Error, Fatal, Off} then taken else s' == s)
            && (s.level == Fatal ==> if level in {Fatal, Off} then taken else s' == s)
            && (s.level == Level.Off ==> if level == Off then taken else s' == s)
  {
    PassesExactly(level);
  }
}
