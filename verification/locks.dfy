/** The two hand-written locks as interleaved steps of any number of threads.
  *
  * `Spin` is the test-and-test-and-set lock of pans/include/pans/mutex.h; `Wait` is the compare-exchange,
  * `atomic_wait` and `notify_one` lock of tests/test_mutex.cpp. Memory is sequentially consistent; every
  * atomic operation is one step. A thread outside the lock may call `lock` or `try_lock` at any time and a
  * holder may call `unlock` at any time.
  */
module Locks {
  datatype Kind = Spin | Wait

  /** Where a thread is inside the lock's code. */
  datatype Pc =
    | Outside     // in no lock operation, and not the holder
    | Acquiring   // in lock(), about to test_and_set, or to compare_exchange_weak
    | Checking    // in lock() after a failed exchange: the inner test loop, or atomic_wait's test of the value
    | Blocked     // asleep in atomic_wait
    | Trying      // in try_lock(), about to exchange
    | Holding     // lock() returned, or try_lock() returned true
    | Notifying   // in unlock(), has stored false and is about to notify

  datatype State = State(flag: bool, pcs: seq<Pc>) {
    ghost predicate At(t: nat, pc: Pc) { t < |pcs| && pcs[t] == pc }

    function Put(t: nat, pc: Pc): State
      requires t < |pcs|
    {
      this.(pcs := pcs[t := pc])
    }
  }

  ghost predicate Init(s: State) {
    !s.flag && forall t :: 0 <= t < |s.pcs| ==> s.pcs[t] == Outside
  }

  // ----- The steps of thread t -----

  ghost predicate CallLock(s: State, t: nat, s': State) {
    s.At(t, Outside) && s' == s.Put(t, Acquiring)
  }

  ghost predicate Exchange(s: State, t: nat, s': State) {
    s.At(t, Acquiring) && s' == if s.flag then s.Put(t, Checking) else s.Put(t, Holding).(flag := true)
  }

  /** compare_exchange_weak may fail although the flag is clear; test_and_set may not. */
  ghost predicate SpuriousFailure(kind: Kind, s: State, t: nat, s': State) {
    kind == Wait && s.At(t, Acquiring) && s' == s.Put(t, Checking)
  }

  /** The spin lock keeps testing a set flag; atomic_wait tests and falls asleep in one step. */
  ghost predicate Check(kind: Kind, s: State, t: nat, s': State) {
    && s.At(t, Checking)
    && s' == if !s.flag then s.Put(t, Acquiring) else if kind == Spin then s else s.Put(t, Blocked)
  }

  /** atomic_wait may wake without a notification; it then tests the value again. */
  ghost predicate SpuriousWake(kind: Kind, s: State, t: nat, s': State) {
    kind == Wait && s.At(t, Blocked) && s' == s.Put(t, Checking)
  }

  ghost predicate CallTryLock(s: State, t: nat, s': State) {
    s.At(t, Outside) && s' == s.Put(t, Trying)
  }

  /** try_lock: test_and_set or compare_exchange_strong, which never fails spuriously. */
  ghost predicate TryExchange(s: State, t: nat, s': State) {
    s.At(t, Trying) && s' == if s.flag then s.Put(t, Outside) else s.Put(t, Holding).(flag := true)
  }

  ghost predicate Unlock(kind: Kind, s: State, t: nat, s': State) {
    s.At(t, Holding) && s' == s.Put(t, if kind == Spin then Outside else Notifying).(flag := false)
  }

  /** notify_one wakes one blocked thread, whichever, if there is any. */
  ghost predicate Notify(s: State, t: nat, s': State) {
    && s.At(t, Notifying)
    && ((exists u :: s.At(u, Blocked) && u != t && s' == s.Put(t, Outside).Put(u, Checking))
        || ((forall u :: !s.At(u, Blocked)) && s' == s.Put(t, Outside)))
  }

  /** The steps that owe nothing to luck: exchanges fail only on a set flag, sleepers wake only when notified. */
  ghost predicate Prompt(kind: Kind, s: State, t: nat, s': State) {
    || CallLock(s, t, s') || Exchange(s, t, s') || Check(kind, s, t, s') || CallTryLock(s, t, s')
    || TryExchange(s, t, s') || Unlock(kind, s, t, s') || Notify(s, t, s')
  }

  ghost predicate Next(kind: Kind, s: State, t: nat, s': State) {
    Prompt(kind, s, t, s') || SpuriousFailure(kind, s, t, s') || SpuriousWake(kind, s, t, s')
  }

  ghost predicate Steps(kind: Kind, s: State, s': State) {
    exists t :: Next(kind, s, t, s')
  }

  /** The states of one interleaving, in order. */
  ghost predicate Run(kind: Kind, run: seq<State>) {
    && run != [] && Init(run[0])
    && forall k :: 0 < k < |run| ==> Steps(kind, run[k - 1], run[k])
  }

  // ----- What every step keeps -----

  ghost predicate Awake(s: State, t: nat) {
    s.At(t, Acquiring) || s.At(t, Checking) || s.At(t, Notifying)
  }

  ghost predicate MutualExclusion(s: State) {
    forall t, u :: s.At(t, Holding) && s.At(u, Holding) ==> t == u
  }

  /** A sleeping thread is owed a wake-up by the holder, by an unlocker that has yet to notify, or by a
    * thread that is awake inside lock() and will hold, or sleep only because another holds.
    */
  ghost predicate NoLostWakeup(s: State) {
    (exists b :: s.At(b, Blocked)) ==> s.flag || exists t :: Awake(s, t)
  }

  ghost predicate Inv(kind: Kind, s: State) {
    && MutualExclusion(s)
    && (s.flag <==> exists t :: s.At(t, Holding))
    && NoLostWakeup(s)
    && (kind == Spin ==> forall t :: !s.At(t, Blocked) && !s.At(t, Notifying))
  }

  /** How one step moves the threads: the moving thread, and at most one sleeper woken by a notification. */
  ghost predicate Moves(s: State, t: nat, s': State) {
    && t < |s.pcs| == |s'.pcs|
    && (forall u, p :: u != t && p != Blocked && s.At(u, p) ==> s'.At(u, p))
    && (forall u, p :: u != t && p != Checking && s'.At(u, p) ==> s.At(u, p))
    && (forall u :: u != t && s'.At(u, Checking) ==> s.At(u, Checking) || s.At(u, Blocked))
    && (forall u :: u != t && s.At(u, Blocked) ==> s'.At(u, Checking) || s'.At(u, Blocked))
  }

  lemma StepMoves(kind: Kind, s: State, t: nat, s': State)
    requires Next(kind, s, t, s')
    ensures Moves(s, t, s')
  {}

  lemma StepKeepsExclusion(kind: Kind, s: State, t: nat, s': State)
    requires Inv(kind, s) && Next(kind, s, t, s')
    ensures MutualExclusion(s') && (s'.flag <==> exists u :: s'.At(u, Holding))
  {
    StepMoves(kind, s, t, s');
    if Unlock(kind, s, t, s') {
      forall u ensures !s'.At(u, Holding) { assert s.At(u, Holding) ==> u == t; }
    } else if s'.At(t, Holding) {
      assert !s.flag;
    } else {
      assert s'.flag == s.flag && !s.At(t, Holding);
    }
  }

  lemma StepKeepsWakeup(kind: Kind, s: State, t: nat, s': State)
    requires Inv(kind, s) && Next(kind, s, t, s')
    ensures NoLostWakeup(s')
  {
    StepMoves(kind, s, t, s');
    if b :| s'.At(b, Blocked) {
      if Awake(s', t) || s'.flag {
      } else if s.At(t, Notifying) {
        var u :| s.At(u, Blocked) && u != t && s' == s.Put(t, Outside).Put(u, Checking);
        assert Awake(s', u);
      } else {
        assert s.At(b, Blocked) && !Awake(s, t);
        var u :| Awake(s, u);
        assert Awake(s', u);
      }
    }
  }

  lemma StepKeepsInv(kind: Kind, s: State, t: nat, s': State)
    requires Inv(kind, s) && Next(kind, s, t, s')
    ensures Inv(kind, s') && |s'.pcs| == |s.pcs|
  {
    StepMoves(kind, s, t, s');
    StepKeepsExclusion(kind, s, t, s');
    StepKeepsWakeup(kind, s, t, s');
  }

  /** Every state of every interleaving satisfies the invariant, for any number of threads. */
  lemma {:induction false} EveryReachableState(kind: Kind, run: seq<State>, k: nat)
    requires Run(kind, run) && k < |run|
    ensures Inv(kind, run[k])
  {
    if k > 0 {
      EveryReachableState(kind, run, k - 1);
      var t :| Next(kind, run[k - 1], t, run[k]);
      StepKeepsInv(kind, run[k - 1], t, run[k]);
    }
  }

  /** The lock never goes quiet over sleepers: with the flag clear and nobody awake inside lock() or
    * unlock(), no thread is blocked.
    */
  lemma NobodySleepsForever(kind: Kind, run: seq<State>, k: nat)
    requires Run(kind, run) && k < |run|
    requires !run[k].flag
    requires forall t :: !Awake(run[k], t)
    ensures forall t :: !run[k].At(t, Blocked)
  {
    EveryReachableState(kind, run, k);
  }

  /** A step of `t` alone: nobody else moves. */
  ghost predicate OthersStay(s: State, t: nat, s': State) {
    |s'.pcs| == |s.pcs| && forall u, p :: u != t ==> (s'.At(u, p) <==> s.At(u, p))
  }

  /** The exchange of try_lock ends the call at once, true or false. It returns true exactly when nobody held the
    * lock, and its caller is then the one holder; it returns false exactly when another thread holds it, and then
    * nothing has changed but that the call is over.
    */
  lemma TryLockTells(kind: Kind, run: seq<State>, k: nat, t: nat)
    requires Run(kind, run) && 0 < k < |run| && TryExchange(run[k - 1], t, run[k])
    ensures var before, after := run[k - 1], run[k];
            && (after.At(t, Holding) || after.At(t, Outside)) && OthersStay(before, t, after)
            && (after.At(t, Holding) <==> forall u :: !before.At(u, Holding))
            && (after.At(t, Outside) <==> exists u :: u != t && before.At(u, Holding))
            && (after.At(t, Holding) ==> after.flag && forall u :: after.At(u, Holding) ==> u == t)
            && (after.At(t, Outside) ==> after.flag == before.flag && exists u :: u != t && after.At(u, Holding))
  {
    EveryReachableState(kind, run, k - 1);
    EveryReachableState(kind, run, k);
  }

  /** The exchange of lock ends the call exactly when nobody held the lock; otherwise its caller goes on waiting. */
  lemma LockTakesFreeOnly(kind: Kind, run: seq<State>, k: nat, t: nat)
    requires Run(kind, run) && 0 < k < |run| && Exchange(run[k - 1], t, run[k])
    ensures var before, after := run[k - 1], run[k];
            && OthersStay(before, t, after)
            && (after.At(t, Holding) <==> forall u :: !before.At(u, Holding))
            && (!after.At(t, Holding) ==> InLock(after, t) && after.flag == before.flag)
  {
    EveryReachableState(kind, run, k - 1);
    EveryReachableState(kind, run, k);
  }

  /** unlock frees the lock with its first step. The spin lock's call is then over; the other lock's is over after
    * its notification, which wakes one sleeper if there is any.
    */
  lemma UnlockFrees(kind: Kind, run: seq<State>, k: nat, t: nat)
    requires Run(kind, run) && 0 < k < |run|
    ensures var before, after := run[k - 1], run[k];
            && (Unlock(kind, before, t, after) ==>
                  && (forall u :: !after.At(u, Holding)) && OthersStay(before, t, after)
                  && after.At(t, if kind == Spin then Outside else Notifying))
            && (Notify(before, t, after) ==>
                  && after.At(t, Outside) && after.flag == before.flag
                  && ((exists u :: before.At(u, Blocked)) ==>
                        exists u :: before.At(u, Blocked) && after.At(u, Checking)))
  {
    EveryReachableState(kind, run, k - 1);
    EveryReachableState(kind, run, k);
  }

  /** A spinning thread needs nobody: once the flag is clear, two steps of its own take the lock. */
  lemma SpinnerAcquires(s: State, t: nat) returns (s1: State, s2: State)
    requires !s.flag && (s.At(t, Acquiring) || s.At(t, Checking))
    ensures (s1 == s || Next(Spin, s, t, s1)) && Next(Spin, s1, t, s2) && s2.At(t, Holding) && s2.flag
  {
    s1 := s.Put(t, Acquiring);
    assert s.At(t, Acquiring) ==> s1 == s;
    s2 := s1.Put(t, Holding).(flag := true);
  }

  ghost predicate PromptSteps(kind: Kind, s: State, s': State) {
    exists t :: Prompt(kind, s, t, s')
  }

  /** The states of a continuation without luck. */
  ghost predicate Path(kind: Kind, path: seq<State>) {
    path != [] && forall k :: 0 < k < |path| ==> PromptSteps(kind, path[k - 1], path[k])
  }

  lemma Prepend(kind: Kind, s: State, t: nat, path: seq<State>) returns (longer: seq<State>)
    requires Path(kind, path) && Prompt(kind, s, t, path[0])
    ensures Path(kind, longer) && longer[0] == s && longer[|longer| - 1] == path[|path| - 1]
  {
    longer := [s] + path;
    forall k | 0 < k < |longer| ensures PromptSteps(kind, longer[k - 1], longer[k]) {
      if k > 1 { assert PromptSteps(kind, path[k - 2], path[k - 1]); }
    }
  }

  /** `t` is inside lock(). */
  ghost predicate InLock(s: State, t: nat) {
    s.At(t, Acquiring) || s.At(t, Checking) || s.At(t, Blocked)
  }

  /** With the flag clear and `t` awake, `t` takes the lock. */
  lemma AwakeAcquires(kind: Kind, s: State, t: nat) returns (path: seq<State>)
    requires !s.flag && (s.At(t, Acquiring) || s.At(t, Checking))
    ensures Path(kind, path) && path[0] == s && path[|path| - 1].At(t, Holding)
  {
    var ready := s.Put(t, Acquiring);
    var taken := ready.Put(t, Holding).(flag := true);
    assert Exchange(ready, t, taken);
    path := Prepend(kind, ready, t, [taken]);
    if s.At(t, Checking) {
      assert Check(kind, s, t, ready);
      path := Prepend(kind, s, t, path);
    } else {
      assert ready == s;
    }
  }

  /** With the flag clear and `u` about to notify, `t` is the sleeper it wakes. */
  lemma NotifiedAcquires(s: State, u: nat, t: nat) returns (path: seq<State>)
    requires !s.flag && s.At(u, Notifying) && s.At(t, Blocked)
    ensures Path(Wait, path) && path[0] == s && path[|path| - 1].At(t, Holding)
  {
    var woken := s.Put(u, Outside).Put(t, Checking);
    path := AwakeAcquires(Wait, woken, t);
    assert Notify(s, u, woken);
    path := Prepend(Wait, s, u, path);
  }

  /** With `h` the holder, `t` waits for its unlock and, asleep, for its notification. */
  lemma HeldAcquires(kind: Kind, s: State, h: nat, t: nat) returns (path: seq<State>)
    requires s.At(h, Holding) && InLock(s, t) && (kind == Spin ==> !s.At(t, Blocked))
    ensures Path(kind, path) && path[0] == s && path[|path| - 1].At(t, Holding)
  {
    var free := s.Put(h, if kind == Spin then Outside else Notifying).(flag := false);
    if s.At(t, Blocked) {
      path := NotifiedAcquires(free, h, t);
    } else {
      path := AwakeAcquires(kind, free, t);
    }
    assert Unlock(kind, s, h, free);
    path := Prepend(kind, s, h, path);
  }

  /** Nobody inside lock() is beyond help: from every reachable state of either lock, with any mix of lock, try_lock
    * and unlock calls, any such thread, asleep or not, can still become the holder, without spurious wake-ups and
    * spurious failures.
    */
  lemma AnyoneCanAcquire(kind: Kind, s: State, t: nat) returns (path: seq<State>)
    requires Inv(kind, s) && InLock(s, t)
    ensures Path(kind, path) && path[0] == s && path[|path| - 1].At(t, Holding)
  {
    if s.flag {
      var h: nat :| s.At(h, Holding);
      path := HeldAcquires(kind, s, h, t);
    } else if !s.At(t, Blocked) {
      path := AwakeAcquires(kind, s, t);
    } else {
      var u: nat :| Awake(s, u);
      if s.At(u, Notifying) {
        path := NotifiedAcquires(s, u, t);
      } else {
        var ready := s.Put(u, Acquiring);
        var taken := ready.Put(u, Holding).(flag := true);
        path := HeldAcquires(kind, taken, u, t);
        assert Exchange(ready, u, taken);
        path := Prepend(kind, ready, u, path);
        if s.At(u, Checking) {
          assert Check(kind, s, u, ready);
          path := Prepend(kind, s, u, path);
        } else {
          assert ready == s;
        }
      }
    }
  }

  /** While the flag is set, an acquirer can only keep waiting: no step of lock() takes a held lock. */
  lemma HeldLockIsNotTaken(kind: Kind, s: State, t: nat, s': State)
    requires Inv(kind, s) && s.flag && Next(kind, s, t, s') && !s.At(t, Holding)
    ensures s'.flag && forall u :: s'.At(u, Holding) <==> s.At(u, Holding)
  {}
}
