/** The counting benchmarks of tests/test_mutex.cpp and tests/test_lock.cpp: `BenchmarkThreads` with its three
  * latches, run over the lock protocols of `Locks` or over the compare-exchange increment loop.
  *
  * `Counter_++` under a lock is two steps, a load and a store. Counters are 64 bits wide.
  */
module Benchmark {
  import Locks

  const U64: nat := 0x1_0000_0000_0000_0000

  /** What a thread does `operations` times. */
  datatype Operation =
    | UnderLock(kind: Locks.Kind)   // lock; Counter_++; unlock
    | CasLoop                       // load; compare_exchange_weak until it succeeds

  datatype Work =
    | Fresh                               // about to ready.count_down()
    | AwaitStart                          // in start_state.wait()
    | Head(index: nat)                    // at the loop test
    | Locking(index: nat)                 // in lock(), or back from it
    | Loaded(index: nat, value: nat)      // holds the lock, has read Counter_
    | Unlocking(index: nat)               // in unlock(), or back from it
    | Expecting(index: nat, value: nat)   // compare-exchange loop, with its expected value
    | Finishing                           // about to finished.count_down()
    | Done

  datatype Main = AwaitReady | Release | AwaitFinished | Passed

  datatype Config = Config(operation: Operation, target: nat, threads: nat)

  datatype State = State(lock: Locks.State, work: seq<Work>, counter: nat,
                         ready: nat, start: nat, finished: nat, main: Main)
  {
    ghost predicate At(t: nat, w: Work) { t < |work| && work[t] == w }

    function Put(t: nat, w: Work): State
      requires t < |work|
    {
      this.(work := work[t := w])
    }
  }

  ghost predicate ValidConfig(c: Config) { 0 < c.threads && c.target < U64 }

  /** `OperationsForThread`. */
  function Operations(c: Config, t: nat): nat
    requires 0 < c.threads
  {
    c.target / c.threads + if t < c.target % c.threads then 1 else 0
  }

  ghost predicate Init(c: Config, s: State) {
    && |s.work| == c.threads == |s.lock.pcs| && Locks.Init(s.lock)
    && (forall t :: 0 <= t < |s.work| ==> s.work[t] == Fresh)
    && s.counter == 0 && s.ready == s.finished == c.threads && s.start == 1 && s.main == AwaitReady
  }

  // ----- The steps of a worker thread t -----

  ghost predicate CountReady(s: State, t: nat, s': State) {
    s.At(t, Fresh) && 0 < s.ready && s' == s.Put(t, AwaitStart).(ready := s.ready - 1)
  }

  ghost predicate PassStart(s: State, t: nat, s': State) {
    s.At(t, AwaitStart) && s.start == 0 && s' == s.Put(t, Head(0))
  }

  ghost predicate LoopTest(c: Config, s: State, t: nat, s': State)
    requires ValidConfig(c)
  {
    && t < |s.work| && s.work[t].Head?
    && var i := s.work[t].index;
       if i >= Operations(c, t) then s' == s.Put(t, Finishing)
       else if c.operation.CasLoop? then s' == s.Put(t, Expecting(i, s.counter))
       else Locks.CallLock(s.lock, t, s'.lock) && s' == s.Put(t, Locking(i)).(lock := s'.lock)
  }

  /** A step inside lock() or unlock(). */
  ghost predicate LockStep(c: Config, s: State, t: nat, s': State) {
    && c.operation.UnderLock? && t < |s.work| && t < |s.lock.pcs|
    && ((s.work[t].Locking? && s.lock.pcs[t] != Locks.Holding)
        || (s.work[t].Unlocking? && s.lock.pcs[t] != Locks.Outside))
    && Locks.Next(c.operation.kind, s.lock, t, s'.lock) && s' == s.(lock := s'.lock)
  }

  ghost predicate Load(s: State, t: nat, s': State) {
    && t < |s.work| && s.work[t].Locking? && s.lock.At(t, Locks.Holding)
    && s' == s.Put(t, Loaded(s.work[t].index, s.counter))
  }

  ghost predicate Store(s: State, t: nat, s': State) {
    && t < |s.work| && s.work[t].Loaded?
    && s' == s.Put(t, Unlocking(s.work[t].index)).(counter := (s.work[t].value + 1) % U64)
  }

  ghost predicate Unlocked(s: State, t: nat, s': State) {
    && t < |s.work| && s.work[t].Unlocking? && s.lock.At(t, Locks.Outside)
    && s' == s.Put(t, Head(s.work[t].index + 1))
  }

  ghost predicate CasSucceeds(s: State, t: nat, s': State) {
    && t < |s.work| && s.work[t].Expecting? && s.work[t].value == s.counter
    && s' == s.Put(t, Head(s.work[t].index + 1)).(counter := (s.work[t].value + 1) % U64)
  }

  /** A failed compare_exchange_weak, spurious or not, stores the current value into `expected`. */
  ghost predicate CasFails(s: State, t: nat, s': State) {
    && t < |s.work| && s.work[t].Expecting?
    && s' == s.Put(t, Expecting(s.work[t].index, s.counter))
  }

  ghost predicate CountFinished(s: State, t: nat, s': State) {
    s.At(t, Finishing) && 0 < s.finished && s' == s.Put(t, Done).(finished := s.finished - 1)
  }

  ghost predicate WorkerStep(c: Config, s: State, t: nat, s': State)
    requires ValidConfig(c)
  {
    || CountReady(s, t, s') || PassStart(s, t, s') || LoopTest(c, s, t, s') || LockStep(c, s, t, s')
    || Load(s, t, s') || Store(s, t, s') || Unlocked(s, t, s') || CasSucceeds(s, t, s') || CasFails(s, t, s')
    || CountFinished(s, t, s')
  }

  // ----- The steps of the main thread -----

  ghost predicate MainStep(s: State, s': State) {
    || (s.main == AwaitReady && s.ready == 0 && s' == s.(main := Release))
    || (s.main == Release && s' == s.(main := AwaitFinished, start := 0))
    || (s.main == AwaitFinished && s.finished == 0 && s' == s.(main := Passed))
  }

  ghost predicate Next(c: Config, s: State, s': State)
    requires ValidConfig(c)
  {
    MainStep(s, s') || exists t :: WorkerStep(c, s, t, s')
  }

  ghost predicate Run(c: Config, run: seq<State>)
    requires ValidConfig(c)
  {
    && run != [] && Init(c, run[0])
    && forall k :: 0 < k < |run| ==> Next(c, run[k - 1], run[k])
  }

  // ----- Sums over the threads -----

  ghost function Sum(xs: seq<nat>): nat {
    if xs == [] then 0 else xs[0] + Sum(xs[1..])
  }

  lemma {:induction false} SumAfterPut(xs: seq<nat>, t: nat, x: nat)
    requires t < |xs|
    ensures Sum(xs[t := x]) + xs[t] == Sum(xs) + x
  {
    if t == 0 {
      assert xs[0 := x][1..] == xs[1..];
    } else {
      assert xs[t := x][1..] == xs[1..][t - 1 := x];
      SumAfterPut(xs[1..], t - 1, x);
    }
  }

  lemma {:induction false} SumSnoc(xs: seq<nat>, x: nat)
    ensures Sum(xs + [x]) == Sum(xs) + x
  {
    if xs == [] {
      assert xs + [x] == [x];
    } else {
      assert (xs + [x])[1..] == xs[1..] + [x];
      SumSnoc(xs[1..], x);
    }
  }

  lemma {:induction false} SumAtMost(xs: seq<nat>, ys: seq<nat>, t: nat)
    requires |xs| == |ys| && t < |xs| && xs[t] < ys[t]
    requires forall k :: 0 <= k < |xs| ==> xs[k] <= ys[k]
    ensures Sum(xs) < Sum(ys)
  {
    if t > 0 {
      SumAtMost(xs[1..], ys[1..], t - 1);
    } else {
      SumMonotone(xs[1..], ys[1..]);
    }
  }

  lemma {:induction false} SumMonotone(xs: seq<nat>, ys: seq<nat>)
    requires |xs| == |ys|
    requires forall k :: 0 <= k < |xs| ==> xs[k] <= ys[k]
    ensures Sum(xs) <= Sum(ys)
  {
    if xs != [] { SumMonotone(xs[1..], ys[1..]); }
  }

  function Shares(c: Config, n: nat): seq<nat>
    requires 0 < c.threads
  {
    seq(n, t requires 0 <= t => Operations(c, t))
  }

  lemma OneMore(n: nat, base: nat)
    requires 0 < n
    ensures (n - 1) * base + base == n * base
  {}

  lemma SharesSnoc(c: Config, n: nat)
    requires 0 < c.threads
    ensures Sum(Shares(c, n + 1)) == Sum(Shares(c, n)) + Operations(c, n)
  {
    hide Sum, Operations;
    assert Shares(c, n + 1) == Shares(c, n) + [Operations(c, n)];
    SumSnoc(Shares(c, n), Operations(c, n));
  }

  lemma {:induction false} SharesUpTo(c: Config, n: nat)
    requires 0 < c.threads && n <= c.threads
    ensures Sum(Shares(c, n)) ==
            n * (c.target / c.threads) + if n < c.target % c.threads then n else c.target % c.threads
  {
    if n > 0 {
      SharesUpTo(c, n - 1);
      SharesSnoc(c, n - 1);
      OneMore(n, c.target / c.threads);
    }
  }

  /** The shares of `OperationsForThread` add up to the target: no operation is dropped or duplicated. */
  lemma SharesAddUp(c: Config)
    requires 0 < c.threads
    ensures Sum(Shares(c, c.threads)) == c.target
  {
    SharesUpTo(c, c.threads);
  }

  /** The work is spread evenly: an earlier thread has as much as a later one, or one operation more. */
  lemma SharesAreEven(c: Config, t: nat, u: nat)
    requires 0 < c.threads && t <= u < c.threads
    ensures Operations(c, u) <= Operations(c, t) <= Operations(c, u) + 1
  {}

  // ----- What every step keeps -----

  /** The increments a thread has completed. */
  function Completed(w: Work, share: nat): nat {
    match w
    case Fresh => 0
    case AwaitStart => 0
    case Head(i) => i
    case Locking(i) => i
    case Loaded(i, _) => i
    case Unlocking(i) => i + 1
    case Expecting(i, _) => i
    case Finishing => share
    case Done => share
  }

  function Completions(c: Config, work: seq<Work>): seq<nat>
    requires 0 < c.threads
  {
    seq(|work|, t requires 0 <= t < |work| => Completed(work[t], Operations(c, t)))
  }

  function Freshes(work: seq<Work>): seq<nat> {
    seq(|work|, t requires 0 <= t < |work| => if work[t].Fresh? then 1 else 0)
  }

  function Unfinished(work: seq<Work>): seq<nat> {
    seq(|work|, t requires 0 <= t < |work| => if work[t].Done? then 0 else 1)
  }

  /** Work and lock agree, indices stay within the share, and a loaded value is still the counter's. */
  predicate ThreadOk(c: Config, w: Work, pc: Locks.Pc, counter: nat, share: nat) {
    match w
    case Head(i) => i <= share && pc == Locks.Outside
    case Locking(i) =>
      i < share && c.operation.UnderLock?
      && pc in {Locks.Acquiring, Locks.Checking, Locks.Blocked, Locks.Holding}
    case Loaded(i, v) => i < share && c.operation.UnderLock? && pc == Locks.Holding && v == counter
    case Unlocking(i) =>
      i < share && c.operation.UnderLock? && pc in {Locks.Holding, Locks.Notifying, Locks.Outside}
    case Expecting(i, _) => i < share && c.operation.CasLoop? && pc == Locks.Outside
    case _ => pc == Locks.Outside
  }

  ghost predicate Shape(c: Config, s: State) {
    ValidConfig(c) && |s.work| == c.threads == |s.lock.pcs|
  }

  ghost predicate ThreadsOk(c: Config, s: State)
    requires Shape(c, s)
  {
    forall t :: 0 <= t < c.threads ==> ThreadOk(c, s.work[t], s.lock.pcs[t], s.counter, Operations(c, t))
  }

  ghost predicate Inv(c: Config, s: State) {
    && Shape(c, s) && ThreadsOk(c, s)
    && (c.operation.UnderLock? ==> Locks.Inv(c.operation.kind, s.lock))
    && s.counter == Sum(Completions(c, s.work))
    && s.ready == Sum(Freshes(s.work)) && s.finished == Sum(Unfinished(s.work))
    && (s.start == 0 <==> s.main in {AwaitFinished, Passed})
    && (s.main != AwaitReady ==> s.ready == 0)
    && (s.main == Passed ==> s.finished == 0)
  }

  /** Moving one thread moves the three sums by that thread's contribution. */
  lemma SumsAfterPut(c: Config, work: seq<Work>, t: nat, w: Work)
    requires 0 < c.threads && t < |work|
    ensures var next := work[t := w];
            && Sum(Completions(c, next)) + Completed(work[t], Operations(c, t))
               == Sum(Completions(c, work)) + Completed(w, Operations(c, t))
            && Sum(Freshes(next)) + (if work[t].Fresh? then 1 else 0)
               == Sum(Freshes(work)) + (if w.Fresh? then 1 else 0)
            && Sum(Unfinished(next)) + (if work[t].Done? then 0 else 1)
               == Sum(Unfinished(work)) + (if w.Done? then 0 else 1)
  {
    var next := work[t := w];
    assert Completions(c, next) == Completions(c, work)[t := Completed(w, Operations(c, t))];
    assert Freshes(next) == Freshes(work)[t := if w.Fresh? then 1 else 0];
    assert Unfinished(next) == Unfinished(work)[t := if w.Done? then 0 else 1];
    SumAfterPut(Completions(c, work), t, Completed(w, Operations(c, t)));
    SumAfterPut(Freshes(work), t, if w.Fresh? then 1 else 0);
    SumAfterPut(Unfinished(work), t, if w.Done? then 0 else 1);
  }

  /** A thread with an increment left to do keeps the counter below the target. */
  lemma CounterBelowTarget(c: Config, s: State, t: nat)
    requires Inv(c, s) && t < c.threads && Completed(s.work[t], Operations(c, t)) < Operations(c, t)
    ensures s.counter < c.target
  {
    var done, shares := Completions(c, s.work), Shares(c, c.threads);
    forall u | 0 <= u < c.threads ensures done[u] <= shares[u] {
      assert ThreadOk(c, s.work[u], s.lock.pcs[u], s.counter, Operations(c, u));
    }
    SumAtMost(done, shares, t);
    SharesAddUp(c);
  }

  /** Only the holder of the lock is between the load and the store. */
  lemma OnlyHolderLoaded(c: Config, s: State, t: nat, u: nat)
    requires Inv(c, s) && t < c.threads && u < c.threads && s.work[t].Loaded? && s.work[u].Loaded?
    ensures t == u
  {
    assert ThreadOk(c, s.work[t], s.lock.pcs[t], s.counter, Operations(c, t));
    assert ThreadOk(c, s.work[u], s.lock.pcs[u], s.counter, Operations(c, u));
    assert s.lock.At(t, Locks.Holding) && s.lock.At(u, Locks.Holding);
  }

  lemma LockStepKeepsThreads(c: Config, s: State, t: nat, s': State)
    requires Inv(c, s) && LockStep(c, s, t, s')
    ensures Shape(c, s') && ThreadsOk(c, s')
  {
    hide Locks.Inv, Sum, Completions, Freshes, Unfinished;
  }

  /** The increment of thread t is one step on the counter, and no other thread depends on its old value. */
  lemma IncrementKeepsThreads(c: Config, s: State, t: nat, s': State)
    requires Inv(c, s) && (Store(s, t, s') || CasSucceeds(s, t, s'))
    ensures Shape(c, s') && ThreadsOk(c, s') && s'.counter == s.counter + 1
  {
    assert ThreadOk(c, s.work[t], s.lock.pcs[t], s.counter, Operations(c, t));
    CounterBelowTarget(c, s, t);
    forall u | 0 <= u < c.threads
      ensures ThreadOk(c, s'.work[u], s'.lock.pcs[u], s'.counter, Operations(c, u))
    {
      assert ThreadOk(c, s.work[u], s.lock.pcs[u], s.counter, Operations(c, u));
      if s.work[u].Loaded? && s.work[t].Loaded? { OnlyHolderLoaded(c, s, t, u); }
    }
  }

  lemma LoopTestKeepsThreads(c: Config, s: State, t: nat, s': State)
    requires Inv(c, s) && LoopTest(c, s, t, s')
    ensures Shape(c, s') && ThreadsOk(c, s')
  {
    forall u | 0 <= u < c.threads
      ensures ThreadOk(c, s'.work[u], s'.lock.pcs[u], s'.counter, Operations(c, u))
    {
      assert ThreadOk(c, s.work[u], s.lock.pcs[u], s.counter, Operations(c, u));
    }
  }

  lemma OtherStepKeepsThreads(c: Config, s: State, t: nat, s': State)
    requires Inv(c, s)
    requires CountReady(s, t, s') || PassStart(s, t, s') || Load(s, t, s') || Unlocked(s, t, s') || CasFails(s, t, s')
             || CountFinished(s, t, s')
    ensures Shape(c, s') && ThreadsOk(c, s')
  {
    forall u | 0 <= u < c.threads
      ensures ThreadOk(c, s'.work[u], s'.lock.pcs[u], s'.counter, Operations(c, u))
    {
      assert ThreadOk(c, s.work[u], s.lock.pcs[u], s.counter, Operations(c, u));
    }
  }

  lemma LockStepKeepsInv(c: Config, s: State, t: nat, s': State)
    requires Inv(c, s) && LockStep(c, s, t, s')
    ensures Inv(c, s')
  {
    LockStepKeepsThreads(c, s, t, s');
    Locks.StepKeepsInv(c.operation.kind, s.lock, t, s'.lock);
  }

  lemma LoopTestKeepsInv(c: Config, s: State, t: nat, s': State)
    requires Inv(c, s) && LoopTest(c, s, t, s')
    ensures Inv(c, s')
  {
    assert ThreadOk(c, s.work[t], s.lock.pcs[t], s.counter, Operations(c, t));
    SumsAfterPut(c, s.work, t, s'.work[t]);
    LoopTestKeepsThreads(c, s, t, s');
    if s'.work[t].Locking? {
      assert Locks.Next(c.operation.kind, s.lock, t, s'.lock);
      Locks.StepKeepsInv(c.operation.kind, s.lock, t, s'.lock);
    }
  }

  lemma IncrementKeepsInv(c: Config, s: State, t: nat, s': State)
    requires Inv(c, s) && (Store(s, t, s') || CasSucceeds(s, t, s'))
    ensures Inv(c, s')
  {
    SumsAfterPut(c, s.work, t, s'.work[t]);
    IncrementKeepsThreads(c, s, t, s');
  }

  lemma OtherStepKeepsInv(c: Config, s: State, t: nat, s': State)
    requires Inv(c, s)
    requires CountReady(s, t, s') || PassStart(s, t, s') || Load(s, t, s') || Unlocked(s, t, s') || CasFails(s, t, s')
             || CountFinished(s, t, s')
    ensures Inv(c, s')
  {
    hide Locks.Inv, Sum;
    OtherStepKeepsThreads(c, s, t, s');
    assert ThreadOk(c, s.work[t], s.lock.pcs[t], s.counter, Operations(c, t));
    SumsAfterPut(c, s.work, t, s'.work[t]);
    assert s'.work == s.work[t := s'.work[t]] && s'.lock == s.lock && s'.counter == s.counter;
  }

  lemma WorkerKeepsInv(c: Config, s: State, t: nat, s': State)
    requires Inv(c, s) && WorkerStep(c, s, t, s')
    ensures Inv(c, s')
  {
    if LockStep(c, s, t, s') {
      LockStepKeepsInv(c, s, t, s');
    } else if LoopTest(c, s, t, s') {
      LoopTestKeepsInv(c, s, t, s');
    } else if Store(s, t, s') || CasSucceeds(s, t, s') {
      IncrementKeepsInv(c, s, t, s');
    } else {
      OtherStepKeepsInv(c, s, t, s');
    }
  }

  lemma {:induction false} SumOfConstant(xs: seq<nat>, x: nat)
    requires forall k :: 0 <= k < |xs| ==> xs[k] == x
    ensures Sum(xs) == |xs| * x
  {
    if xs != [] { SumOfConstant(xs[1..], x); }
  }

  lemma InitSatisfiesInv(c: Config, s: State)
    requires ValidConfig(c) && Init(c, s)
    ensures Inv(c, s)
  {
    SumOfConstant(Completions(c, s.work), 0);
    SumOfConstant(Freshes(s.work), 1);
    SumOfConstant(Unfinished(s.work), 1);
    if c.operation.UnderLock? { assert forall t, pc :: s.lock.At(t, pc) ==> pc == Locks.Outside; }
  }

  lemma StepKeepsInv(c: Config, s: State, s': State)
    requires Inv(c, s) && Next(c, s, s')
    ensures Inv(c, s')
  {
    if !MainStep(s, s') {
      var t :| WorkerStep(c, s, t, s');
      WorkerKeepsInv(c, s, t, s');
    }
  }

  lemma {:induction false} EveryReachableState(c: Config, run: seq<State>, k: nat)
    requires ValidConfig(c) && Run(c, run) && k < |run|
    ensures Inv(c, run[k])
  {
    if k == 0 {
      InitSatisfiesInv(c, run[0]);
    } else {
      EveryReachableState(c, run, k - 1);
      StepKeepsInv(c, run[k - 1], run[k]);
    }
  }

  // ----- The start latch -----

  /** A thread at work has been let go. */
  ghost predicate LetGo(s: State) {
    && (s.start == 0 ==> s.main in {AwaitFinished, Passed})
    && forall t :: 0 <= t < |s.work| ==> s.work[t] == Fresh || s.work[t] == AwaitStart || s.start == 0
  }

  lemma StepKeepsLetGo(c: Config, s: State, s': State)
    requires ValidConfig(c) && LetGo(s) && Next(c, s, s')
    ensures LetGo(s')
  {
    hide Locks.Next, Locks.CallLock;
    if !MainStep(s, s') {
      var t: nat :| WorkerStep(c, s, t, s');
      assert t < |s.work| && s'.work == s.work[t := s'.work[t]];
      assert s.work[t] == Fresh || s.work[t] == AwaitStart || s.start == 0;
    }
  }

  lemma {:induction false} EveryStateLetsGo(c: Config, run: seq<State>, k: nat)
    requires ValidConfig(c) && Run(c, run) && k < |run|
    ensures LetGo(run[k])
  {
    if k > 0 {
      EveryStateLetsGo(c, run, k - 1);
      StepKeepsLetGo(c, run[k - 1], run[k]);
    }
  }

  /** Nobody starts early: in every state of every interleaving, a thread past the start latch finds every thread past
    * the ready latch; and main passes only after every thread is done.
    */
  lemma EverybodyStartsTogether(c: Config, run: seq<State>, k: nat, t: nat, u: nat)
    requires ValidConfig(c) && Run(c, run) && k < |run| && t < c.threads && u < c.threads
    ensures |run[k].work| == c.threads
    ensures run[k].work[t] != Fresh && run[k].work[t] != AwaitStart ==> run[k].work[u] != Fresh
    ensures run[k].main == Passed ==> run[k].work[u] == Done
  {
    var s := run[k];
    EveryReachableState(c, run, k);
    EveryStateLetsGo(c, run, k);
    if s.work[u] == Fresh { LatchesCount(c, s, u); }
    if s.main == Passed { AllDone(c, s); }
  }

  lemma {:induction false} SumIsZero(xs: seq<nat>, t: nat)
    requires t < |xs| && Sum(xs) == 0
    ensures xs[t] == 0
  {
    if t > 0 { SumIsZero(xs[1..], t - 1); }
  }

  lemma AllDone(c: Config, s: State)
    requires Inv(c, s) && s.finished == 0
    ensures forall t :: 0 <= t < c.threads ==> s.work[t] == Done
    ensures s.counter == c.target
  {
    forall t | 0 <= t < c.threads ensures s.work[t] == Done {
      SumIsZero(Unfinished(s.work), t);
      assert Unfinished(s.work)[t] == 0;
    }
    assert Completions(c, s.work) == Shares(c, c.threads);
    SharesAddUp(c);
  }

  /** Whatever the interleaving, main gets past finished.wait() only with the counter exactly at the target:
    * with the split of tests/test_lock.cpp:25-30, the correctness check of `BenchmarkMutex` never throws, with
    * either lock, and the compare-exchange loop loses and repeats nothing. Up to then the counter is the number of
    * completed increments. The split that tests/test_mutex.cpp itself calls is not this one.
    */
  lemma CounterIsExact(c: Config, run: seq<State>, k: nat)
    requires ValidConfig(c) && Run(c, run) && k < |run|
    ensures run[k].counter == Sum(Completions(c, run[k].work)) <= c.target
    ensures run[k].main == Passed ==> run[k].counter == c.target
  {
    EveryReachableState(c, run, k);
    var s := run[k];
    var done, shares := Completions(c, s.work), Shares(c, c.threads);
    forall u | 0 <= u < c.threads ensures done[u] <= shares[u] {
      assert ThreadOk(c, s.work[u], s.lock.pcs[u], s.counter, Operations(c, u));
    }
    SumMonotone(done, shares);
    SharesAddUp(c);
    if s.main == Passed { AllDone(c, s); }
  }

  lemma CompletionsAfterPut(c: Config, work: seq<Work>, t: nat, w: Work)
    requires 0 < c.threads && t < |work|
    ensures Completions(c, work[t := w]) == Completions(c, work)[t := Completed(w, Operations(c, t))]
  {}

  lemma WorkerIncrements(c: Config, s: State, t: nat, s': State)
    requires Inv(c, s) && WorkerStep(c, s, t, s')
    ensures var before, after := Completions(c, s.work), Completions(c, s'.work);
            if Store(s, t, s') || CasSucceeds(s, t, s')
            then s'.counter == s.counter + 1 && t < |before| && after == before[t := before[t] + 1]
            else s'.counter == s.counter && after == before
  {
    hide Locks.Inv, Locks.Next, Sum, Freshes, Unfinished;
    var before, after := Completions(c, s.work), Completions(c, s'.work);
    assert ThreadOk(c, s.work[t], s.lock.pcs[t], s.counter, Operations(c, t));
    if LockStep(c, s, t, s') {
      assert s'.work == s.work;
    } else {
      assert s'.work == s.work[t := s'.work[t]];
      CompletionsAfterPut(c, s.work, t, s'.work[t]);
      if Store(s, t, s') || CasSucceeds(s, t, s') {
        IncrementKeepsThreads(c, s, t, s');
      } else {
        assert after[t] == before[t];
      }
    }
  }

  /** The benchmark refines an atomic increment: a step either leaves the counter and every thread's completed
    * increments alone, or adds one to the counter and one to exactly one thread.
    */
  lemma StepIsOneIncrementOrNone(c: Config, s: State, s': State)
    requires Inv(c, s) && Next(c, s, s')
    ensures var before, after := Completions(c, s.work), Completions(c, s'.work);
            || (s'.counter == s.counter && after == before)
            || (s'.counter == s.counter + 1
                && exists t :: 0 <= t < |before| && after == before[t := before[t] + 1])
  {
    var before, after := Completions(c, s.work), Completions(c, s'.work);
    if MainStep(s, s') {
    } else {
      var t: nat :| WorkerStep(c, s, t, s');
      WorkerIncrements(c, s, t, s');
    }
  }

  // ----- From every reachable state the benchmark can still finish -----

  /** A worker's step without luck: no spurious wake-up, no spurious failure of an exchange. */
  ghost predicate PromptWorkerStep(c: Config, s: State, t: nat, s': State)
    requires ValidConfig(c)
  {
    && WorkerStep(c, s, t, s')
    && (LockStep(c, s, t, s') ==> Locks.Prompt(c.operation.kind, s.lock, t, s'.lock))
    && (CasFails(s, t, s') ==> s.work[t].value != s.counter)
  }

  ghost predicate PromptNext(c: Config, s: State, s': State)
    requires ValidConfig(c)
  {
    MainStep(s, s') || exists t :: PromptWorkerStep(c, s, t, s')
  }

  /** An upper bound on the steps a thread still needs when it is scheduled well. */
  function Rank(w: Work, pc: Locks.Pc, share: nat): nat {
    match w
    case Fresh => 4 + 9 * share
    case AwaitStart => 3 + 9 * share
    case Head(i) => 2 + 9 * (if i <= share then share - i else 0)
    case Locking(i) =>
      2 + 9 * (if i < share then share - i - 1 else 0)
      + (match pc case Blocked => 8 case Checking => 7 case Acquiring => 6 case _ => 5)
    case Loaded(i, _) => 2 + 9 * (if i < share then share - i - 1 else 0) + 4
    case Unlocking(i) =>
      2 + 9 * (if i < share then share - i - 1 else 0)
      + (match pc case Holding => 3 case Notifying => 2 case _ => 1)
    case Expecting(i, _) => 2 + 9 * (if i < share then share - i - 1 else 0) + 1
    case Finishing => 1
    case Done => 0
  }

  function Ranks(c: Config, s: State): seq<nat>
    requires 0 < c.threads && |s.work| <= |s.lock.pcs|
  {
    seq(|s.work|, t requires 0 <= t < |s.work| => Rank(s.work[t], s.lock.pcs[t], Operations(c, t)))
  }

  ghost function Measure(c: Config, s: State): nat
    requires Shape(c, s)
  {
    Sum(Ranks(c, s)) + match s.main case AwaitReady => 3 case Release => 2 case AwaitFinished => 1 case Passed => 0
  }

  lemma MeasureDrops(c: Config, s: State, t: nat, s': State)
    requires Shape(c, s) && Shape(c, s') && t < c.threads && s'.main == s.main
    requires Ranks(c, s')[t] < Ranks(c, s)[t]
    requires forall u :: 0 <= u < c.threads ==> Ranks(c, s')[u] <= Ranks(c, s)[u]
    ensures Measure(c, s') < Measure(c, s)
  {
    SumAtMost(Ranks(c, s'), Ranks(c, s), t);
  }

  /** Thread t can take a step that brings it closer to its end. */
  ghost predicate Runnable(s: State, t: nat) {
    && t < |s.work| && t < |s.lock.pcs|
    && match s.work[t]
       case AwaitStart => s.start == 0
       case Locking(_) =>
         s.lock.pcs[t] == Locks.Holding || (!s.lock.flag && s.lock.pcs[t] in {Locks.Acquiring, Locks.Checking})
       case Done => false
       case _ => true
  }

  /** The same thread in the same place, whatever happens to the rest of the state. */
  lemma OwnStepDrops(c: Config, s: State, t: nat, s': State)
    requires Inv(c, s) && PromptWorkerStep(c, s, t, s')
    requires forall u :: 0 <= u < c.threads && u != t ==> s'.lock.pcs[u] == s.lock.pcs[u]
    requires Rank(s'.work[t], s'.lock.pcs[t], Operations(c, t)) < Rank(s.work[t], s.lock.pcs[t], Operations(c, t))
    ensures Inv(c, s') && PromptNext(c, s, s') && Measure(c, s') < Measure(c, s)
  {
    WorkerKeepsInv(c, s, t, s');
    MeasureDrops(c, s, t, s');
  }

  lemma RunLockStep(c: Config, s: State, t: nat) returns (s': State)
    requires Inv(c, s) && c.operation.UnderLock? && t < c.threads
    requires || (s.work[t].Locking? && !s.lock.flag && s.lock.pcs[t] in {Locks.Acquiring, Locks.Checking})
             || (s.work[t].Unlocking? && s.lock.pcs[t] != Locks.Outside)
    ensures PromptNext(c, s, s') && Inv(c, s') && Measure(c, s') < Measure(c, s)
  {
    assert ThreadOk(c, s.work[t], s.lock.pcs[t], s.counter, Operations(c, t));
    var kind, lock := c.operation.kind, s.lock;
    match lock.pcs[t]
    case Acquiring =>
      s' := s.(lock := lock.Put(t, Locks.Holding).(flag := true));
      assert Locks.Exchange(lock, t, s'.lock);
      OwnLockStepDrops(c, s, t, s');
    case Checking =>
      s' := s.(lock := lock.Put(t, Locks.Acquiring));
      assert Locks.Check(kind, lock, t, s'.lock);
      OwnLockStepDrops(c, s, t, s');
    case Holding =>
      s' := s.(lock := lock.Put(t, if kind == Locks.Spin then Locks.Outside else Locks.Notifying).(flag := false));
      assert Locks.Unlock(kind, lock, t, s'.lock);
      OwnLockStepDrops(c, s, t, s');
    case Notifying =>
      s' := RunNotify(c, s, t);
  }

  lemma OwnLockStepDrops(c: Config, s: State, t: nat, s': State)
    requires Inv(c, s) && c.operation.UnderLock? && t < c.threads && (s.work[t].Locking? || s.work[t].Unlocking?)
    requires s' == s.(lock := s'.lock) && Locks.Prompt(c.operation.kind, s.lock, t, s'.lock)
    requires LockStep(c, s, t, s')
    requires forall u :: 0 <= u < c.threads && u != t ==> s'.lock.pcs[u] == s.lock.pcs[u]
    requires Rank(s.work[t], s'.lock.pcs[t], Operations(c, t)) < Rank(s.work[t], s.lock.pcs[t], Operations(c, t))
    ensures PromptNext(c, s, s') && Inv(c, s') && Measure(c, s') < Measure(c, s)
  {
    OwnStepDrops(c, s, t, s');
  }

  lemma RunNotify(c: Config, s: State, t: nat) returns (s': State)
    requires Inv(c, s) && c.operation.UnderLock? && t < c.threads
    requires s.work[t].Unlocking? && s.lock.pcs[t] == Locks.Notifying
    ensures PromptNext(c, s, s') && Inv(c, s') && Measure(c, s') < Measure(c, s)
  {
    var lock := s.lock;
    if u: nat :| lock.At(u, Locks.Blocked) {
      assert ThreadOk(c, s.work[u], lock.pcs[u], s.counter, Operations(c, u));
      s' := s.(lock := lock.Put(t, Locks.Outside).Put(u, Locks.Checking));
      assert Locks.Notify(lock, t, s'.lock) && LockStep(c, s, t, s');
      LockStepKeepsInv(c, s, t, s');
      assert PromptWorkerStep(c, s, t, s');
      MeasureDrops(c, s, t, s');
    } else {
      s' := s.(lock := lock.Put(t, Locks.Outside));
      assert Locks.Notify(lock, t, s'.lock);
      OwnLockStepDrops(c, s, t, s');
    }
  }

  lemma RunHead(c: Config, s: State, t: nat) returns (s': State)
    requires Inv(c, s) && t < c.threads && s.work[t].Head?
    ensures PromptNext(c, s, s') && Inv(c, s') && Measure(c, s') < Measure(c, s)
  {
    assert ThreadOk(c, s.work[t], s.lock.pcs[t], s.counter, Operations(c, t));
    var i := s.work[t].index;
    if i >= Operations(c, t) {
      s' := s.Put(t, Finishing);
    } else if c.operation.CasLoop? {
      s' := s.Put(t, Expecting(i, s.counter));
    } else {
      s' := s.Put(t, Locking(i)).(lock := s.lock.Put(t, Locks.Acquiring));
      assert Locks.CallLock(s.lock, t, s'.lock);
    }
    assert LoopTest(c, s, t, s');
    OwnStepDrops(c, s, t, s');
  }

  /** The latches never run below zero. */
  lemma LatchesCount(c: Config, s: State, t: nat)
    requires Inv(c, s) && t < c.threads
    ensures s.work[t].Fresh? ==> 0 < s.ready
    ensures !s.work[t].Done? ==> 0 < s.finished
  {
    if s.ready == 0 { SumIsZero(Freshes(s.work), t); assert Freshes(s.work)[t] == 0; }
    if s.finished == 0 { SumIsZero(Unfinished(s.work), t); assert Unfinished(s.work)[t] == 0; }
  }

  lemma RunOther(c: Config, s: State, t: nat) returns (s': State)
    requires Inv(c, s) && Runnable(s, t)
    requires s.work[t].Fresh? || s.work[t].AwaitStart? || s.work[t].Loaded? || s.work[t].Finishing?
             || (s.work[t].Locking? && s.lock.pcs[t] == Locks.Holding)
             || (s.work[t].Unlocking? && s.lock.pcs[t] == Locks.Outside)
    ensures PromptNext(c, s, s') && Inv(c, s') && Measure(c, s') < Measure(c, s)
  {
    assert ThreadOk(c, s.work[t], s.lock.pcs[t], s.counter, Operations(c, t));
    LatchesCount(c, s, t);
    match s.work[t]
    case Fresh =>
      s' := s.Put(t, AwaitStart).(ready := s.ready - 1);
      assert CountReady(s, t, s');
      OwnStepDrops(c, s, t, s');
    case AwaitStart =>
      s' := s.Put(t, Head(0));
      assert PassStart(s, t, s');
      OwnStepDrops(c, s, t, s');
    case Locking(i) =>
      s' := s.Put(t, Loaded(i, s.counter));
      assert Load(s, t, s');
      OwnStepDrops(c, s, t, s');
    case Loaded(i, v) =>
      s' := s.Put(t, Unlocking(i)).(counter := (v + 1) % U64);
      assert Store(s, t, s');
      OwnStepDrops(c, s, t, s');
    case Unlocking(i) =>
      s' := s.Put(t, Head(i + 1));
      assert Unlocked(s, t, s');
      OwnStepDrops(c, s, t, s');
    case Finishing =>
      s' := s.Put(t, Done).(finished := s.finished - 1);
      assert CountFinished(s, t, s');
      OwnStepDrops(c, s, t, s');
  }

  /** A thread in the compare-exchange loop reloads a stale value and then succeeds, if nobody interferes. */
  lemma RunCas(c: Config, s: State, t: nat) returns (s1: State, s2: State)
    requires Inv(c, s) && t < c.threads && s.work[t].Expecting?
    ensures (s1 == s || PromptNext(c, s, s1)) && PromptNext(c, s1, s2) && Inv(c, s2) && Measure(c, s2) < Measure(c, s)
  {
    assert ThreadOk(c, s.work[t], s.lock.pcs[t], s.counter, Operations(c, t));
    var i := s.work[t].index;
    s1 := s.Put(t, Expecting(i, s.counter));
    if s.work[t].value != s.counter {
      assert CasFails(s, t, s1) && PromptWorkerStep(c, s, t, s1);
      WorkerKeepsInv(c, s, t, s1);
      assert Ranks(c, s1) == Ranks(c, s);
    } else {
      assert s1.work == s.work;
    }
    s2 := s1.Put(t, Head(i + 1)).(counter := (s.counter + 1) % U64);
    assert CasSucceeds(s1, t, s2);
    OwnStepDrops(c, s1, t, s2);
  }

  /** When no thread is runnable, the threads are all waiting for main, or all done. */
  lemma NobodyRunnable(c: Config, s: State)
    requires Inv(c, s) && forall t :: !Runnable(s, t)
    ensures s.ready == 0
    ensures s.start == 0 ==> s.finished == 0
  {
    forall t | 0 <= t < c.threads ensures !s.work[t].Fresh? && (s.start == 0 ==> s.work[t].Done?) {
      NotRunnable(c, s, t);
    }
    SumOfConstant(Freshes(s.work), 0);
    if s.start == 0 { SumOfConstant(Unfinished(s.work), 0); }
  }

  lemma NotRunnable(c: Config, s: State, t: nat)
    requires Inv(c, s) && t < c.threads
    requires forall u :: !Runnable(s, u)
    ensures s.work[t].Done? || (s.work[t].AwaitStart? && s.start != 0)
  {
    assert !Runnable(s, t);
    if s.work[t].Locking? {
      var lock := s.lock;
      assert ThreadOk(c, s.work[t], lock.pcs[t], s.counter, Operations(c, t));
      assert lock.At(t, lock.pcs[t]);
      var u: nat :| lock.At(u, Locks.Holding) || (!lock.flag && Locks.Awake(lock, u));
      assert ThreadOk(c, s.work[u], lock.pcs[u], s.counter, Operations(c, u));
      assert Runnable(s, u);
    }
  }

  lemma GoodStep(c: Config, s: State) returns (s1: State, s2: State)
    requires Inv(c, s) && s.main != Passed
    ensures (s1 == s || PromptNext(c, s, s1)) && PromptNext(c, s1, s2) && Inv(c, s2) && Measure(c, s2) < Measure(c, s)
  {
    s1 := s;
    if t: nat :| Runnable(s, t) {
      assert ThreadOk(c, s.work[t], s.lock.pcs[t], s.counter, Operations(c, t));
      if s.work[t].Expecting? {
        s1, s2 := RunCas(c, s, t);
      } else if s.work[t].Head? {
        s2 := RunHead(c, s, t);
      } else if (s.work[t].Locking? && s.lock.pcs[t] != Locks.Holding)
                || (s.work[t].Unlocking? && s.lock.pcs[t] != Locks.Outside) {
        s2 := RunLockStep(c, s, t);
      } else {
        s2 := RunOther(c, s, t);
      }
    } else {
      NobodyRunnable(c, s);
      s2 := match s.main
            case AwaitReady => s.(main := Release)
            case Release => s.(main := AwaitFinished, start := 0)
            case _ => s.(main := Passed);
      assert MainStep(s, s2);
      assert Ranks(c, s2) == Ranks(c, s);
    }
  }

  ghost predicate Path(c: Config, path: seq<State>)
    requires ValidConfig(c)
  {
    path != [] && forall k :: 0 < k < |path| ==> PromptNext(c, path[k - 1], path[k])
  }

  lemma Prepend(c: Config, s: State, path: seq<State>) returns (longer: seq<State>)
    requires ValidConfig(c) && Path(c, path) && PromptNext(c, s, path[0])
    ensures Path(c, longer) && longer[0] == s && longer[|longer| - 1] == path[|path| - 1]
  {
    longer := [s] + path;
    forall k | 0 < k < |longer| ensures PromptNext(c, longer[k - 1], longer[k]) {
      if k > 1 { assert PromptNext(c, path[k - 2], path[k - 1]); }
    }
  }

  /** No deadlock, and no lost wake-up that matters: from every reachable state there is a continuation without
    * spurious wake-ups and spurious failures in which main passes finished.wait(), and then the counter is the
    * target. A sleeper on that way is woken by a notification.
    */
  lemma {:induction false} CanAlwaysFinish(c: Config, s: State) returns (path: seq<State>)
    requires Inv(c, s)
    ensures Path(c, path) && path[0] == s && path[|path| - 1].main == Passed
    ensures path[|path| - 1].counter == c.target
    decreases Measure(c, s)
  {
    if s.main == Passed {
      AllDone(c, s);
      path := [s];
    } else {
      var s1, s2 := GoodStep(c, s);
      var rest := CanAlwaysFinish(c, s2);
      path := Prepend(c, s1, rest);
      if s1 != s { path := Prepend(c, s, path); }
    }
  }
}
