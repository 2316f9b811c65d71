/** An event object: a flag under a mutex, and a condition variable to sleep on.

Any number of threads wait, set and reset; every step below is one access made while the mutex is held,
or one move into or out of it. A run is any sequence of enabled steps, so waits may also return spuriously
and every library call may fail. */
module Event {
  import opened Wrappers

  /** Where a thread stands. */
  datatype Place =
    | Idle        // in none of the three functions
    | Testing(signalled: bool)   // waiting: has the mutex, about to test the flag
    | Asleep      // waiting: on the condition variable, the mutex released
    | Awake(signalled: bool)     // waiting: released by a signal or spuriously, wants the mutex back
    | Taken(signalled: bool)     // waiting: has the mutex, the loop is over
    | Setting     // setting: has the mutex, about to write the flag
    | Signalling  // setting: flag written, about to wake waiters
    | Resetting   // resetting: has the mutex, about to write the flag
    | Done(call: Call, ok: bool)   // has the mutex, about to unlock and return 0 or -1

  datatype Mechanism = Mechanism(manual: bool, state: bool, owner: Option<nat>, at: map<nat, Place>)

  /** What has happened so far: sets, sets of a set flag, resets of a set flag, waits that returned 0,
  waits that ended the loop but failed to unlock, and whether a signal or broadcast ever failed. */
  datatype History = History(sets: nat, coalesced: nat, cleared: nat, successes: nat, stuck: nat, silent: bool)

  datatype State = State(e: Mechanism, h: History)

  datatype Call = Wait | Set | Reset

  datatype Action =
    | Lock(t: nat, call: Call)
    | LockFails(t: nat, call: Call)
    | Test(t: nat)
    | CondFails(t: nat)
    | Spurious(t: nat)
    | Relock(t: nat)
    | Take(t: nat)
    | Write(t: nat)
    | Wake(t: nat, woken: set<nat>)
    | WakeFails(t: nat)
    | Unlock(t: nat, released: bool)

  function At(e: Mechanism, t: nat): Place
  {
    if t in e.at then e.at[t] else Idle
  }

  function Move(e: Mechanism, t: nat, p: Place): Mechanism
  {
    e.(at := e.at[t := p])
  }

  function Initial(manual: bool, state: bool): State
  {
    State(Mechanism(manual, state, None, map[]), History(0, 0, 0, 0, 0, false))
  }

  function Sleepers(e: Mechanism): set<nat>
  {
    set t | t in e.at && e.at[t] == Asleep
  }

  /** A broadcast wakes every sleeper, a signal at least one if there is one. */
  predicate MayWake(e: Mechanism, woken: set<nat>)
  {
    if e.manual then woken == Sleepers(e)
    else woken <= Sleepers(e) && (Sleepers(e) != {} ==> woken != {})
  }

  predicate Enabled(s: State, a: Action)
  {
    match a
    case Lock(t, _) => At(s.e, t) == Idle && s.e.owner == None
    case LockFails(t, _) => At(s.e, t) == Idle
    case Test(t) => At(s.e, t).Testing?
    case CondFails(t) => At(s.e, t).Testing? && !s.e.state
    case Spurious(t) => At(s.e, t) == Asleep
    case Relock(t) => At(s.e, t).Awake? && s.e.owner == None
    case Take(t) => At(s.e, t).Taken?
    case Write(t) => At(s.e, t) in {Setting, Resetting}
    case Wake(t, woken) => At(s.e, t) == Signalling && MayWake(s.e, woken)
    case WakeFails(t) => At(s.e, t) == Signalling
    case Unlock(t, _) => At(s.e, t).Done?
  }

  function Rouse(e: Mechanism, woken: set<nat>): Mechanism
  {
    e.(at := map t | t in e.at :: if t in woken then Awake(true) else e.at[t])
  }

  function Step(s: State, a: Action): State
    requires Enabled(s, a)
  {
    match a
    case Lock(t, call) =>
      var p := match call case Wait => Testing(false) case Set => Setting case Reset => Resetting;
      s.(e := Move(s.e, t, p).(owner := Some(t)))
    case LockFails(t, _) => s
    case Test(t) =>
      if s.e.state then s.(e := Move(s.e, t, Taken(At(s.e, t).signalled)))
      else s.(e := Move(s.e, t, Asleep).(owner := None))
    case CondFails(t) => s.(e := Move(s.e, t, Done(Call.Wait, false)))
    case Spurious(t) => s.(e := Move(s.e, t, Awake(false)))
    case Relock(t) => s.(e := Move(s.e, t, Testing(At(s.e, t).signalled)).(owner := Some(t)))
    case Take(t) => s.(e := Move(s.e, t, Done(Call.Wait, true)).(state := s.e.manual))
    case Write(t) =>
      if At(s.e, t) == Setting
      then State(Move(s.e, t, Signalling).(state := true),
                 s.h.(sets := s.h.sets + 1, coalesced := s.h.coalesced + if s.e.state then 1 else 0))
      else State(Move(s.e, t, Done(Reset, true)).(state := false),
                 s.h.(cleared := s.h.cleared + if s.e.state then 1 else 0))
    case Wake(t, woken) => s.(e := Move(Rouse(s.e, woken), t, Done(Set, true)))
    case WakeFails(t) => State(Move(s.e, t, Done(Set, false)), s.h.(silent := true))
    case Unlock(t, released) =>
      State(Move(s.e, t, Idle).(owner := if released then None else s.e.owner),
            if At(s.e, t) != Done(Call.Wait, true) then s.h
            else if released then s.h.(successes := s.h.successes + 1)
            else s.h.(stuck := s.h.stuck + 1))
  }

  function Run(s: State, run: seq<Action>): Option<State>
    decreases |run|
  {
    if run == [] then Some(s)
    else if !Enabled(s, run[0]) then None
    else Run(Step(s, run[0]), run[1..])
  }

  /** The run ends with the thread's return of 0 from the call. */
  ghost predicate Returned(s: State, run: seq<Action>, t: nat, call: Call)
  {
    && run != [] && run[|run| - 1] == Unlock(t, true)
    && Run(s, run[..|run| - 1]).Some? && At(Run(s, run[..|run| - 1]).value.e, t) == Done(call, true)
  }

  // ---------- what every step keeps ----------

  /** Between locking and unlocking, or locking and falling asleep. */
  predicate Inside(p: Place)
  {
    p.Done? || p.Testing? || p.Taken? || p in {Setting, Signalling, Resetting}
  }

  /** Only the mutex's owner is inside; a wait past its loop still sees the flag set. */
  ghost predicate Exclusive(e: Mechanism)
  {
    && (forall t: nat :: Inside(At(e, t)) ==> e.owner == Some(t))
    && (forall t: nat :: At(e, t).Taken? ==> e.state)
  }

  /** The wait that holds the mutex, past taking the flag. */
  function Returning(e: Mechanism): nat
  {
    if e.owner.Some? && At(e, e.owner.value) == Done(Call.Wait, true) then 1 else 0
  }

  /** Every set is accounted for: taken by one wait, still standing, merged into a standing one, or reset. */
  predicate SetsAccounted(s: State, init: bool)
  {
    var waits := if s.e.manual then 0 else s.h.successes + s.h.stuck + Returning(s.e);
    waits + (if s.e.state then 1 else 0) + s.h.coalesced + s.h.cleared == s.h.sets + if init then 1 else 0
  }

  predicate Signalled(p: Place)
  {
    (p.Testing? || p.Awake? || p.Taken?) && p.signalled
  }

  /** A waiter released by a signal that has not gone on yet: it will take the flag or find it gone. */
  predicate Pending(e: Mechanism, t: nat)
  {
    Signalled(At(e, t))
  }

  predicate SomeoneSignals(e: Mechanism)
  {
    e.owner.Some? && At(e, e.owner.value) == Signalling
  }

  /** With the flag set and no wake-up just about to be sent: a manual event has no sleeper,
  and an automatic one with a sleeper has a signalled waiter pending. */
  ghost predicate SleepersServed(e: Mechanism)
  {
    e.state && !SomeoneSignals(e) ==>
      forall t: nat :: At(e, t) == Asleep ==> !e.manual && exists u: nat :: Pending(e, u)
  }

  ghost predicate Good(s: State, init: bool)
  {
    Exclusive(s.e) && SetsAccounted(s, init) && (s.h.silent || SleepersServed(s.e))
  }

  lemma ExclusiveStayed(s: State, a: Action)
    requires Enabled(s, a) && Exclusive(s.e)
    ensures Exclusive(Step(s, a).e)
  {
  }

  lemma AccountStayed(s: State, a: Action, init: bool)
    requires Enabled(s, a) && Exclusive(s.e) && SetsAccounted(s, init)
    ensures SetsAccounted(Step(s, a), init)
  {
  }

  lemma ServiceStayed(s: State, a: Action)
    requires Enabled(s, a) && Exclusive(s.e) && SleepersServed(s.e)
    ensures Step(s, a).h.silent || SleepersServed(Step(s, a).e)
  {
    var r := Step(s, a);
    if !r.h.silent && r.e.state && !SomeoneSignals(r.e) {
      forall t: nat | At(r.e, t) == Asleep ensures !r.e.manual && exists u: nat :: Pending(r.e, u) {
        if a.Wake? {
          assert t in Sleepers(s.e);
          var u :| u in a.woken;
          assert Pending(r.e, u);
        } else {
          assert At(s.e, t) == Asleep;
          var u: nat :| Pending(s.e, u);
          assert Pending(r.e, u);
        }
      }
    }
  }

  // ---------- what no step does ----------

  function ThreadOf(a: Action): nat
  {
    a.t
  }

  /** A step moves its own thread; only a wake-up moves others, the sleepers it names, and no one else. A wait is
  signalled by a wake-up and by nothing else. */
  lemma StepMovesItsThread(s: State, a: Action, u: nat)
    requires Enabled(s, a) && u != ThreadOf(a)
    ensures var p, q := At(s.e, u), At(Step(s, a).e, u);
            if a.Wake? && u in a.woken then p == Asleep && q == Awake(true) else p == q
  {
    if a.Wake? && u in a.woken {
      assert u in Sleepers(s.e);
    }
  }

  lemma OnlyWakeUpsSignal(s: State, a: Action, u: nat)
    requires Enabled(s, a) && Signalled(At(Step(s, a).e, u))
    ensures Signalled(At(s.e, u)) || (a.Wake? && u in a.woken && At(s.e, u) == Asleep)
  {
    if u != ThreadOf(a) {
      StepMovesItsThread(s, a, u);
    }
  }

  /** Which threads a wake-up may name: all sleepers of a manual event; of an automatic one any of them, alone or
  with others, but not none of them. */
  lemma WakesWhom(e: Mechanism, woken: set<nat>)
    ensures e.manual ==> (MayWake(e, woken) <==> forall u :: u in woken <==> u in e.at && e.at[u] == Asleep)
    ensures !e.manual && woken != {} ==>
              (MayWake(e, woken) <==> forall u :: u in woken ==> u in e.at && e.at[u] == Asleep)
    ensures !e.manual && woken == {} ==> (MayWake(e, woken) <==> forall u :: u in e.at ==> e.at[u] != Asleep)
  {
    if e.manual && (forall u :: u in woken <==> u in e.at && e.at[u] == Asleep) {
      assert woken == Sleepers(e);
    }
    forall u ensures u in Sleepers(e) <==> u in e.at && e.at[u] == Asleep {
    }
  }

  /** An unlock that fails keeps the mutex, and the wait it ends is not one that returned 0. */
  lemma UnlockLaw(s: State, t: nat, released: bool)
    requires Enabled(s, Unlock(t, released)) && Exclusive(s.e)
    ensures var r := Step(s, Unlock(t, released));
            && At(r.e, t) == Idle && r.e.owner == (if released then None else Some(t)) && r.e.state == s.e.state
            && (r.h.successes > s.h.successes <==> released && At(s.e, t) == Done(Call.Wait, true))
  {
  }

  // ---------- every run ----------

  lemma StepStaysGood(s: State, a: Action, init: bool)
    requires Enabled(s, a) && Good(s, init)
    ensures Good(Step(s, a), init)
  {
    hide Exclusive, SetsAccounted, SleepersServed;
    ExclusiveStayed(s, a);
    AccountStayed(s, a, init);
    if !s.h.silent {
      ServiceStayed(s, a);
    }
  }

  lemma {:induction false} RunsStayGood(s: State, run: seq<Action>, init: bool)
    requires Good(s, init) && Run(s, run).Some?
    ensures Good(Run(s, run).value, init)
    ensures Run(s, run).value.e.manual == s.e.manual
    decreases |run|
  {
    hide Good;
    if run == [] {
    } else {
      StepStaysGood(s, run[0], init);
      RunsStayGood(Step(s, run[0]), run[1..], init);
    }
  }

  /** From the start, whatever the interleaving: no two threads are inside; an automatic event lets through no
  more waits than sets and the initial flag paid for, the rest of them being accounted for exactly. */
  lemma SetsPayForWaits(manual: bool, init: bool, run: seq<Action>)
    requires Run(Initial(manual, init), run).Some?
    ensures var s := Run(Initial(manual, init), run).value;
            && Exclusive(s.e) && SetsAccounted(s, init)
            && (!manual ==> s.h.successes + (if s.e.state then 1 else 0) <= s.h.sets + if init then 1 else 0)
  {
    RunsStayGood(Initial(manual, init), run, init);
  }

  /** No signal and no broadcast of the run fails. */
  predicate WakeUpsWork(run: seq<Action>)
  {
    forall i :: 0 <= i < |run| ==> !run[i].WakeFails?
  }

  lemma {:induction false} SilentByFailure(s: State, run: seq<Action>)
    requires Run(s, run).Some?
    ensures Run(s, run).value.h.silent <==> s.h.silent || !WakeUpsWork(run)
    decreases |run|
  {
    if run != [] {
      assert Step(s, run[0]).h.silent <==> s.h.silent || run[0].WakeFails?;
      hide Step, Enabled;
      SilentByFailure(Step(s, run[0]), run[1..]);
      assert WakeUpsWork(run) <==> !run[0].WakeFails? && WakeUpsWork(run[1..]) by {
        assert run == [run[0]] + run[1..];
        assert forall i :: 1 <= i < |run| ==> run[i] == run[1..][i - 1];
      }
    }
  }

  /** From the start, as long as no signal or broadcast failed and none is just about to be sent: no thread sleeps
  on a manual event that is set, and none on an automatic one without a signalled waiter pending. */
  lemma NoSleeperForgotten(manual: bool, init: bool, run: seq<Action>, t: nat)
    requires Run(Initial(manual, init), run).Some? && WakeUpsWork(run)
    requires var s := Run(Initial(manual, init), run).value;
             s.e.state && At(s.e, t) == Asleep && !SomeoneSignals(s.e)
    ensures !manual && exists u: nat :: Pending(Run(Initial(manual, init), run).value.e, u)
  {
    RunsStayGood(Initial(manual, init), run, init);
    SilentByFailure(Initial(manual, init), run);
  }

  /** And that waiter can go through: with the mutex free, relocking, testing, taking and unlocking returns 0. */
  lemma FlagCanBeTaken(s: State, init: bool, t: nat)
    requires Good(s, init) && !s.h.silent && s.e.state && At(s.e, t) == Asleep && s.e.owner == None
    ensures exists u: nat ::
              var r := Run(s, [Relock(u), Test(u), Take(u), Unlock(u, true)]);
              r.Some? && r.value.h.successes == s.h.successes + 1 && !r.value.e.state
  {
    var u: nat :| Pending(s.e, u);
    var s1 := Step(s, Relock(u));
    var s2 := Step(s1, Test(u));
    var s3 := Step(s2, Take(u));
    calc {
      Run(s, [Relock(u), Test(u), Take(u), Unlock(u, true)]);
      Run(s1, [Test(u), Take(u), Unlock(u, true)]);
      Run(s2, [Take(u), Unlock(u, true)]);
      Run(s3, [Unlock(u, true)]);
      Some(Step(s3, Unlock(u, true)));
    }
  }
}
