/** The event functions as code on the event structure. Each stretch of code that holds the mutex is a run of
the steps of the event's state machine. */
module EventObject {
  import opened Wrappers
  import opened Event

  class EventObject {
    const manualReset: bool
    var state: bool

    // the mutex and the condition variable, the other threads, and the bookkeeping
    ghost var others: Mechanism
    ghost var history: History

    ghost function View(): State
      reads this
    {
      State(others.(manual := manualReset, state := state), history)
    }

    constructor (manualReset: bool, initState: bool)
      ensures View() == Initial(manualReset, initState)
    {
      this.manualReset, state := manualReset, initState;
      others, history := Initial(manualReset, initState).e, Initial(manualReset, initState).h;
    }

    /** One more step at the end of a run. */
    static lemma Went(s: State, run: seq<Action>, t: State, a: Action)
      requires Run(s, run) == Some(t) && Enabled(t, a)
      ensures Run(s, run + [a]) == Some(Step(t, a))
      decreases |run|
    {
      hide Step, Enabled;
      if run == [] {
        assert [] + [a] == [a];
      } else {
        assert (run + [a])[0] == run[0] && (run + [a])[1..] == run[1..] + [a];
        Went(Step(s, run[0]), run[1..], t, a);
      }
    }

    /** Records a step that leaves the flag alone. */
    ghost method Record(s: State, run: seq<Action>, a: Action) returns (longer: seq<Action>)
      requires Run(s, run) == Some(View()) && Enabled(View(), a) && Step(View(), a).e.state == state
      modifies this`others, this`history
      ensures longer == run + [a] && Run(s, longer) == Some(View()) && View() == Step(old(View()), a)
    {
      Went(s, run, View(), a);
      var t := Step(View(), a);
      others, history := t.e, t.h;
      longer := run + [a];
    }

    static lemma EndsWith(s: State, run: seq<Action>, v: State, t: nat, released: bool, call: Call)
      requires Run(s, run) == Some(v)
      ensures Returned(s, run + [Unlock(t, released)], t, call) <==> released && At(v.e, t) == Done(call, true)
    {
      hide Run;
      assert (run + [Unlock(t, released)])[..|run|] == run;
    }

    static lemma NotReturned(s: State, run: seq<Action>, t: nat, call: Call)
      requires run != [] && !run[|run| - 1].Unlock?
      ensures !Returned(s, run, t, call)
    {
    }

    static lemma NobodyLeftAsleep(e: Mechanism, t: nat, p: Place)
      requires p != Asleep
      ensures e.manual ==> Sleepers(Move(Rouse(e, Sleepers(e)), t, p)) == {}
      ensures Sleepers(e) == {} ==> Sleepers(Move(e, t, p)) == {}
    {
    }

    static lemma BroadcastWakesAll(e: Mechanism, woken: set<nat>)
      requires MayWake(e, woken) && e.manual
      ensures woken == Sleepers(e)
    {
    }

    /** Broadcasts to all waiters of a manual event, signals one of an automatic one. */
    ghost method WakeWaiters(t: nat, s: State, run: seq<Action>, works: bool) returns (longer: seq<Action>)
      requires Run(s, run) == Some(View()) && At(others, t) == Signalling
      modifies this`others, this`history
      ensures Run(s, longer) == Some(View())
      ensures At(others, t) == Done(Call.Set, works) && others.owner == old(others.owner)
      ensures works && manualReset ==> Sleepers(others) == {}
    {
      hide Run;
      if works {
        var before := View().e;
        assert MayWake(before, Sleepers(before));
        var woken :| MayWake(before, woken);
        if manualReset { BroadcastWakesAll(before, woken); }
        NobodyLeftAsleep(before, t, Done(Call.Set, true));
        longer := Record(s, run, Wake(t, woken));
        assert View().e == Move(Rouse(before, woken), t, Done(Call.Set, true));
        SameSleepers(View().e, others);
      } else {
        longer := Record(s, run, WakeFails(t));
      }
    }

    static lemma SameSleepers(e: Mechanism, f: Mechanism)
      requires e.at == f.at
      ensures Sleepers(e) == Sleepers(f)
    {
    }

    /** `event_set`, called with the mutex free: the flag is written and the waiters are woken under the mutex. */
    method Set(ghost t: nat) returns (ret: int, ghost run: seq<Action>)
      requires At(others, t) == Idle && others.owner == None
      modifies this
      ensures Run(old(View()), run) == Some(View())
      ensures ret == 0 || ret == -1
      ensures ret == 0 <==> Returned(old(View()), run, t, Call.Set)
      ensures ret == 0 ==> state && At(others, t) == Idle && others.owner == None
      ensures ret == 0 && manualReset ==> Sleepers(others) == {}
    {
      hide Run, Sleepers, Returned;
      ghost var start := View();
      run := [];
      assert Run(start, []) == Some(start) by { RunNothing(start); }
      var locked: bool := *;
      if !locked {
        run := Record(start, run, LockFails(t, Call.Set));
        NotReturned(start, run, t, Call.Set);
        return -1, run;
      }
      run := Record(start, run, Lock(t, Call.Set));
      Went(start, run, View(), Write(t));
      run := run + [Write(t)];
      others, history, state := Step(View(), Write(t)).e, Step(View(), Write(t)).h, true;
      var woke: bool := *;
      run := WakeWaiters(t, start, run, woke);
      var unlocked: bool := *;
      NobodyLeftAsleep(others, t, Idle);
      ghost var before := others;
      EndsWith(start, run, View(), t, unlocked, Call.Set);
      run := Record(start, run, Unlock(t, unlocked));
      SameSleepers(Move(before, t, Idle), others);
      ret := if woke && unlocked then 0 else -1;
    }

    static lemma RunNothing(s: State)
      ensures Run(s, []) == Some(s)
    {
    }

    /** `event_reset`, called with the mutex free. */
    method Reset(ghost t: nat) returns (ret: int, ghost run: seq<Action>)
      requires At(others, t) == Idle && others.owner == None
      modifies this
      ensures Run(old(View()), run) == Some(View())
      ensures ret == 0 || ret == -1
      ensures ret == 0 <==> Returned(old(View()), run, t, Call.Reset)
      ensures ret == 0 ==> !state && At(others, t) == Idle && others.owner == None
    {
      hide Run, Returned;
      ghost var start := View();
      run := [];
      assert Run(start, []) == Some(start) by { RunNothing(start); }
      var locked: bool := *;
      if !locked {
        run := Record(start, run, LockFails(t, Call.Reset));
        NotReturned(start, run, t, Call.Reset);
        return -1, run;
      }
      run := Record(start, run, Lock(t, Call.Reset));
      Went(start, run, View(), Write(t));
      run := run + [Write(t)];
      others, history, state := Step(View(), Write(t)).e, Step(View(), Write(t)).h, false;
      var unlocked: bool := *;
      EndsWith(start, run, View(), t, unlocked, Call.Reset);
      run := Record(start, run, Unlock(t, unlocked));
      ret := if unlocked then 0 else -1;
    }

    /** `event_wait` from where it has the mutex: it returns, or falls asleep with the mutex released. */
    method Wait(ghost t: nat) returns (ret: Option<int>, ghost run: seq<Action>)
      requires At(others, t).Testing? && others.owner == Some(t)
      modifies this
      ensures Run(old(View()), run) == Some(View())
      ensures ret == None <==> At(others, t) == Asleep
      ensures ret == None ==> !state && others.owner == None
      ensures ret.Some? ==> ret.value in {0, -1} && At(others, t) == Idle
      ensures ret == Some(0) ==> old(state) && state == manualReset && others.owner == None
      ensures ret == Some(0) <==> Returned(old(View()), run, t, Call.Wait)
      ensures history.successes == old(history.successes) + if ret == Some(0) then 1 else 0
    {
      hide Run, Returned;
      ghost var start := View();
      run := [];
      assert Run(start, []) == Some(start) by { RunNothing(start); }
      if !state {
        var waits: bool := *;
        if waits {
          run := Record(start, run, Test(t));
          NotReturned(start, run, t, Call.Wait);
          return None, run;
        }
        run := Record(start, run, CondFails(t));
        var unlocked: bool := *;
        EndsWith(start, run, View(), t, unlocked, Call.Wait);
        run := Record(start, run, Unlock(t, unlocked));
        return Some(-1), run;
      }
      run := Record(start, run, Test(t));
      Went(start, run, View(), Take(t));
      run := run + [Take(t)];
      others, history := Step(View(), Take(t)).e, Step(View(), Take(t)).h;
      if !manualReset {
        state := false;
      }
      var unlocked: bool := *;
      EndsWith(start, run, View(), t, unlocked, Call.Wait);
      run := Record(start, run, Unlock(t, unlocked));
      ret := Some(if unlocked then 0 else -1);
    }
  }
}
