/** The thread that takes one day off every digital human's remaining time, once a day after 04:00. */
module DailyBalance {
  import opened Calendar
  import opened Wrappers

  /** What the database answers during one poll: the listing, and the rows it can read and write. */
  datatype Reply = Reply(ids: Option<seq<int>>, readable: set<int>, writable: set<int>)

  /** The month and day of the last trigger, and the stored balances in seconds. */
  datatype State = State(lastMonthDay: string, balances: map<int, int>)

  function Charge(remain: int): int
  {
    if remain - 86400 < 0 then 0 else remain - 86400
  }

  function ChargeOne(balances: map<int, int>, id: int, reply: Reply): map<int, int>
  {
    if id in reply.readable && id in balances && id in reply.writable
    then balances[id := Charge(balances[id])] else balances
  }

  /** The listed rows from position i on, one after the other. */
  function ChargeFrom(balances: map<int, int>, ids: seq<int>, i: nat, reply: Reply): map<int, int>
    requires i <= |ids|
    decreases |ids| - i
  {
    if i == |ids| then balances else ChargeFrom(ChargeOne(balances, ids[i], reply), ids, i + 1, reply)
  }

  /** The hour is 04 and the month and day are not those of the last trigger. */
  predicate Fires(lastMonthDay: string, text: string)
  {
    |text| == 14 && text[4..8] != lastMonthDay && text[8..10] == "04"
  }

  function AfterPoll(s: State, text: string, reply: Reply): State
  {
    if !Fires(s.lastMonthDay, text) then s
    else State(text[4..8], if reply.ids.Some? then ChargeFrom(s.balances, reply.ids.value, 0, reply) else s.balances)
  }

  class HumanRemainThread {
    var lastMonthDay: string
    var balances: map<int, int>

    ghost function View(): State
      reads this
    {
      State(lastMonthDay, balances)
    }

    constructor (balances: map<int, int>)
      ensures View() == State("", balances)
    {
      this.lastMonthDay, this.balances := "", balances;
    }

    /** One pass of the thread's loop; the clock's text and the database's answers are inputs. */
    method Check(text: string, reply: Reply)
      modifies this
      ensures View() == AfterPoll(old(View()), text, reply)
    {
      if |text| == 14 {
        var monthDay, hour := text[4..8], text[8..10];
        if monthDay != lastMonthDay && hour == "04" {
          lastMonthDay := monthDay;
          if reply.ids.Some? {
            var ids := reply.ids.value;
            var i := 0;
            while i < |ids|
              invariant i <= |ids| && lastMonthDay == monthDay
              invariant ChargeFrom(balances, ids, i, reply) == ChargeFrom(old(balances), ids, 0, reply)
            {
              if ids[i] in reply.readable && ids[i] in balances {
                var remain := balances[ids[i]] - 86400;
                if remain < 0 {
                  remain := 0;
                }
                if ids[i] in reply.writable {
                  balances := balances[ids[i] := remain];
                }
              }
              i := i + 1;
            }
          }
        }
      }
    }
  }

  // ---------- one trigger ----------

  /** Every row listed once is charged once, and no other row changes. */
  lemma {:induction false} ListedOnceChargedOnce(balances: map<int, int>, ids: seq<int>, i: nat, reply: Reply)
    requires i <= |ids| && forall j, k :: i <= j < k < |ids| ==> ids[j] != ids[k]
    ensures var after := ChargeFrom(balances, ids, i, reply);
            && after.Keys == balances.Keys
            && forall id :: id in balances ==>
                 after[id] == if id in ids[i..] && id in reply.readable && id in reply.writable
                              then Charge(balances[id]) else balances[id]
    decreases |ids| - i
  {
    if i < |ids| {
      var one := ChargeOne(balances, ids[i], reply);
      ListedOnceChargedOnce(one, ids, i + 1, reply);
      assert ids[i..] == [ids[i]] + ids[i + 1..];
      assert one.Keys == balances.Keys;
    }
  }

  /** Every balance is listed once and can be read and written. */
  ghost predicate Succeeds(reply: Reply, balances: map<int, int>)
  {
    && reply.ids.Some?
    && (forall j, k :: 0 <= j < k < |reply.ids.value| ==> reply.ids.value[j] != reply.ids.value[k])
    && forall id :: id in balances ==> id in reply.ids.value && id in reply.readable && id in reply.writable
  }

  /** A second poll with the same month and day changes nothing; so a trigger whose listing failed is not repeated. */
  lemma NoSecondChance(s: State, text: string, reply: Reply, later: string, second: Reply)
    requires Fires(s.lastMonthDay, text) && |later| == 14 && later[4..8] == text[4..8]
    ensures AfterPoll(AfterPoll(s, text, reply), later, second) == AfterPoll(s, text, reply)
    ensures reply.ids == None ==> AfterPoll(s, text, reply).balances == s.balances
  {
  }

  // ---------- which days trigger ----------

  /** The last trigger's month and day, and the days of all triggers, after polls at the given times. */
  datatype Log = Log(last: string, days: seq<nat>)

  /** What one poll does. */
  function Polled(first: Date, log: Log, time: nat): Log
    requires ValidDate(first)
  {
    var text := TimeText(first, time);
    if Fires(log.last, text) then Log(text[4..8], log.days + [time / 86400]) else log
  }

  function LogOf(first: Date, times: seq<nat>): Log
    requires ValidDate(first)
  {
    if times == [] then Log("", [])
    else Polled(first, LogOf(first, times[..|times| - 1]), times[|times| - 1])
  }

  /** The first day whose window, 04:00 to 05:00, is not over at the given time. */
  function FirstOpen(time: nat): nat
  {
    if time % 86400 < 18000 then time / 86400 else time / 86400 + 1
  }

  /** How many days' windows have begun by the given time. */
  function Begun(time: nat): nat
  {
    if time % 86400 < 14400 then time / 86400 else time / 86400 + 1
  }

  function DaysFrom(from: nat, to: nat): seq<nat>
    requires from <= to
  {
    seq(to - from, i requires 0 <= i => from + i)
  }

  ghost predicate Regular(times: seq<nat>)
  {
    times != [] && forall i :: 0 < i < |times| ==> times[i - 1] < times[i] <= times[i - 1] + 3600
  }

  ghost predicate YearsShown(first: Date, times: seq<nat>)
    requires ValidDate(first)
  {
    forall i :: 0 <= i < |times| ==> FourDigitYear(DateOf(first, times[i] / 86400))
  }

  /** From one poll to the next no window passes unseen: at most one begins, and then the later poll is in it. */
  lemma NoWindowMissed(p: nat, q: nat)
    requires p < q <= p + 3600
    ensures Begun(q) == Begun(p) || (Begun(q) == Begun(p) + 1 && q / 86400 == Begun(p) && 14400 <= q % 86400 < 18000)
    ensures 14400 <= q % 86400 ==> Begun(q) == q / 86400 + 1
  {
  }

  /** A poll fires in the window, if the month and day are not those of the last trigger. */
  lemma FiresInWindow(first: Date, last: string, time: nat)
    requires ValidDate(first)
    ensures var d := DateOf(first, time / 86400);
            var text := TimeText(first, time);
            && (Fires(last, text) ==> 14400 <= time % 86400 < 18000 && text[4..8] == MonthDay(d))
            && (FourDigitYear(d) && 14400 <= time % 86400 < 18000 && MonthDay(d) != last ==> Fires(last, text))
            && (MonthDay(d) == last ==> !Fires(last, text))
  {
    hide TimeText, DateOf, MonthDay;
    TextParts(first, time);
  }

  /** Between two triggers at the earliest: the log so far, with the last trigger on the day before `to`. */
  ghost predicate UpTo(first: Date, log: Log, from: nat, to: nat)
    requires ValidDate(first)
  {
    && from <= to
    && log.days == DaysFrom(from, to)
    && log.last == if from == to then "" else MonthDay(DateOf(first, to - 1))
  }

  lemma PollAdvances(first: Date, log: Log, from: nat, p: nat, q: nat)
    requires ValidDate(first) && FourDigitYear(DateOf(first, q / 86400)) && p < q <= p + 3600
    requires UpTo(first, log, from, Begun(p)) && from <= FirstOpen(p)
    ensures from <= FirstOpen(q)
    ensures UpTo(first, Polled(first, log, q), from, Begun(q))
  {
    hide TimeText, DateOf, MonthDay, Fires;
    FiresInWindow(first, log.last, q);
    NoWindowMissed(p, q);
    DayChanges(first, q / 86400);
    NonEmptyMonthDay(DateOf(first, q / 86400));
    if Begun(q) == Begun(p) + 1 {
      assert DaysFrom(from, Begun(q)) == DaysFrom(from, Begun(p)) + [Begun(p)];
    }
  }

  /** With polls at most 3600 seconds apart, the days that trigger are exactly those whose window was not over at
  the first poll and has begun by the last: each of them once, in order. */
  lemma {:induction false} EachDayTriggersOnce(first: Date, times: seq<nat>)
    requires ValidDate(first) && Regular(times) && YearsShown(first, times)
    ensures UpTo(first, LogOf(first, times), FirstOpen(times[0]), Begun(times[|times| - 1]))
    ensures FirstOpen(times[0]) <= FirstOpen(times[|times| - 1])
    decreases |times|
  {
    hide DateOf, TimeText, MonthDay, Fires;
    var n := |times| - 1;
    if n == 0 {
      assert LogOf(first, times[..n]) == Log("", []);
      FiresInWindow(first, "", times[0]);
      NonEmptyMonthDay(DateOf(first, times[0] / 86400));
    } else {
      assert times[..n][0] == times[0] && times[..n][n - 1] == times[n - 1];
      hide UpTo, Begun, FirstOpen;
      EachDayTriggersOnce(first, times[..n]);
      PollAdvances(first, LogOf(first, times[..n]), FirstOpen(times[0]), times[n - 1], times[n]);
    }
  }

  lemma NonEmptyMonthDay(d: Date)
    requires ValidDate(d)
    ensures MonthDay(d) != ""
  {
  }

  lemma DayChanges(first: Date, day: nat)
    requires ValidDate(first)
    ensures day > 0 ==> MonthDay(DateOf(first, day)) != MonthDay(DateOf(first, day - 1))
  {
    if day > 0 {
      ConsecutiveDaysDiffer(DateOf(first, day - 1));
    }
  }

  /** The bound is sharp: with polls 3601 seconds apart a day's window can be missed. */
  lemma LatePollMissesADay(first: Date)
    requires ValidDate(first)
    ensures LogOf(first, [14399, 18000]).days == [] && FirstOpen(14399) == 0 && Begun(18000) == 1
  {
    hide TimeText, Fires;
    FiresInWindow(first, "", 14399);
    FiresInWindow(first, "", 18000);
    var times: seq<nat> := [14399, 18000];
    assert times[..1] == [14399] && times[..1][..0] == [];
    assert LogOf(first, times[..1]) == Log("", []);
  }

  // ---------- polls at any distance ----------

  predicate InWindow(time: nat)
  {
    14400 <= time % 86400 < 18000
  }

  /** Some poll falls in the day's window. */
  ghost predicate Hit(times: seq<nat>, day: nat)
  {
    exists i :: 0 <= i < |times| && InWindow(times[i]) && times[i] / 86400 == day
  }

  ghost predicate Later(times: seq<nat>)
  {
    forall i, j :: 0 <= i < j < |times| ==> times[i] < times[j]
  }

  /** The i-th trigger is the latest before the day, on the same month and day of an earlier year. */
  predicate RepeatsAt(first: Date, days: seq<nat>, i: nat, day: nat)
    requires ValidDate(first)
  {
    && i < |days| && days[i] < day && (i + 1 < |days| ==> day <= days[i + 1])
    && MonthDay(DateOf(first, days[i])) == MonthDay(DateOf(first, day))
  }

  ghost predicate Repeats(first: Date, days: seq<nat>, day: nat)
    requires ValidDate(first)
  {
    exists i: nat :: RepeatsAt(first, days, i, day)
  }

  /** The log so far: triggers in order of days, none after the given one, the last remembered. */
  ghost predicate Ordered(first: Date, log: Log, day: nat)
    requires ValidDate(first)
  {
    && (forall i, j :: 0 <= i < j < |log.days| ==> log.days[i] < log.days[j])
    && (forall i :: 0 <= i < |log.days| ==> log.days[i] <= day)
    && log.last == if log.days == [] then "" else MonthDay(DateOf(first, log.days[|log.days| - 1]))
  }

  lemma HitOneMore(times: seq<nat>, time: nat, day: nat)
    ensures Hit(times + [time], day) <==> Hit(times, day) || (InWindow(time) && time / 86400 == day)
  {
    var all := times + [time];
    if Hit(times, day) {
      var i :| 0 <= i < |times| && InWindow(times[i]) && times[i] / 86400 == day;
      assert all[i] == times[i];
    }
    if InWindow(time) && time / 86400 == day {
      assert all[|times|] == time;
    }
  }

  /** A new trigger after all others does not matter for earlier days. */
  lemma RepeatsBefore(first: Date, days: seq<nat>, last: nat, day: nat)
    requires ValidDate(first) && day <= last
    ensures Repeats(first, days + [last], day) <==> Repeats(first, days, day)
  {
    hide DateOf, MonthDay;
    var all := days + [last];
    if Repeats(first, days, day) {
      var i: nat :| RepeatsAt(first, days, i, day);
      assert all[i] == days[i];
      assert i + 1 < |all| ==> day <= all[i + 1];
      assert RepeatsAt(first, all, i, day);
    }
    if Repeats(first, all, day) {
      var i: nat :| RepeatsAt(first, all, i, day);
      assert i < |days| && days[i] == all[i];
      assert i + 1 < |days| ==> days[i + 1] == all[i + 1];
      assert RepeatsAt(first, days, i, day);
    }
  }

  /** On a day after all triggers, only the last one can be repeated. */
  lemma RepeatsAfter(first: Date, days: seq<nat>, day: nat)
    requires ValidDate(first) && forall i :: 0 <= i < |days| ==> days[i] < day
    ensures Repeats(first, days, day) <==>
            days != [] && MonthDay(DateOf(first, days[|days| - 1])) == MonthDay(DateOf(first, day))
  {
    hide DateOf, MonthDay;
    if days != [] {
      var k := |days| - 1;
      assert RepeatsAt(first, days, k, day) <==> MonthDay(DateOf(first, days[k])) == MonthDay(DateOf(first, day));
    }
    if Repeats(first, days, day) {
      var i: nat :| RepeatsAt(first, days, i, day);
      assert !(day <= days[if i + 1 < |days| then i + 1 else i]);
    }
  }

  /** What DayTriggersExactly says of the log. */
  ghost predicate Logged(first: Date, log: Log, times: seq<nat>, last: nat, day: nat)
    requires ValidDate(first)
  {
    Ordered(first, log, last) && (day in log.days <==> Hit(times, day) && !Repeats(first, log.days, day))
  }

  lemma NothingLogged(first: Date, prior: nat, day: nat)
    requires ValidDate(first)
    ensures Logged(first, LogOf(first, []), [], prior, day) && !Hit([], day)
  {
  }

  lemma YearOfPoll(first: Date, times: seq<nat>, i: nat)
    requires ValidDate(first) && i < |times| && YearsShown(first, times)
    ensures FourDigitYear(DateOf(first, times[i] / 86400))
  {
    hide DateOf, FourDigitYear;
  }

  lemma YearsOfFewer(first: Date, times: seq<nat>, n: nat)
    requires ValidDate(first) && n <= |times| && YearsShown(first, times)
    ensures YearsShown(first, times[..n])
  {
    hide DateOf, FourDigitYear;
    forall i | 0 <= i < n ensures FourDigitYear(DateOf(first, times[..n][i] / 86400)) {
      assert times[..n][i] == times[i];
    }
  }

  lemma LaterOfFewer(times: seq<nat>)
    requires |times| > 1 && Later(times)
    ensures var n := |times| - 1;
            && Later(times[..n]) && times[..n][n - 1] == times[n - 1] < times[n] && times == times[..n] + [times[n]]
  {
  }

  lemma LogGrows(first: Date, before: seq<nat>, time: nat)
    requires ValidDate(first)
    ensures LogOf(first, before + [time]) == Polled(first, LogOf(first, before), time)
  {
    hide Polled;
    var times := before + [time];
    assert times[..|times| - 1] == before;
  }

  lemma LaterPoll(first: Date, before: seq<nat>, last: nat, time: nat, day: nat)
    requires ValidDate(first) && FourDigitYear(DateOf(first, time / 86400)) && last <= time / 86400
    requires Logged(first, LogOf(first, before), before, last, day) && (Hit(before, day) ==> day <= last)
    ensures Logged(first, LogOf(first, before + [time]), before + [time], time / 86400, day)
  {
    hide DateOf, FourDigitYear, TimeText, MonthDay, Fires, Ordered, Hit, Repeats, InWindow, LogOf, Polled;
    LogGrows(first, before, time);
    HitOneMore(before, time, day);
    OnePollMore(first, LogOf(first, before), last, time, day, Hit(before, day));
  }

  lemma DaysInOrder(p: nat, q: nat)
    requires p <= q
    ensures p / 86400 <= q / 86400
  {
  }

  lemma {:induction false} LoggedAll(first: Date, times: seq<nat>, day: nat)
    requires ValidDate(first) && times != [] && Later(times) && YearsShown(first, times)
    ensures Logged(first, LogOf(first, times), times, times[|times| - 1] / 86400, day)
    decreases |times|
  {
    hide DateOf, FourDigitYear, Logged, Hit, Later, YearsShown, LogOf;
    var n := |times| - 1;
    var before, time := times[..n], times[n];
    YearOfPoll(first, times, n);
    if n == 0 {
      assert times == [] + [time];
      NothingLogged(first, time / 86400, day);
      LaterPoll(first, [], time / 86400, time, day);
    } else {
      YearsOfFewer(first, times, n);
      LaterOfFewer(times);
      LoggedAll(first, before, day);
      DaysInOrder(times[n - 1], time);
      if Hit(before, day) {
        HitsLieBetween(before, day);
      }
      LaterPoll(first, before, times[n - 1] / 86400, time, day);
    }
  }

  /** With polls at any distance, a day triggers exactly when a poll falls in its window and the latest trigger
  before it was not on the same month and day; and no day triggers twice. */
  lemma DayTriggersExactly(first: Date, times: seq<nat>, day: nat)
    requires ValidDate(first) && times != [] && Later(times) && YearsShown(first, times)
    ensures Ordered(first, LogOf(first, times), times[|times| - 1] / 86400)
    ensures var days := LogOf(first, times).days;
            day in days <==> Hit(times, day) && !Repeats(first, days, day)
  {
    hide DateOf, FourDigitYear, Hit, Repeats, Ordered, Later, YearsShown, LogOf;
    LoggedAll(first, times, day);
  }

  /** The latest day before the given one with a poll in its window. */
  ghost predicate LatestHit(times: seq<nat>, e: nat, day: nat)
  {
    e < day && Hit(times, e) && forall d :: e < d < day ==> !Hit(times, d)
  }

  lemma {:induction false} FindLatestHit(times: seq<nat>, from: nat, day: nat) returns (e: nat)
    requires from < day && Hit(times, from)
    ensures LatestHit(times, e, day) && from <= e
    decreases day - from
  {
    hide Hit;
    e := from;
    if !LatestHit(times, from, day) {
      var d :| from < d < day && Hit(times, d);
      e := FindLatestHit(times, d, day);
    }
  }

  lemma TriggersAreHits(first: Date, times: seq<nat>, i: nat)
    requires ValidDate(first) && times != [] && Later(times) && YearsShown(first, times)
    requires i < |LogOf(first, times).days|
    ensures Hit(times, LogOf(first, times).days[i])
  {
    hide LogOf, Hit, Repeats, Ordered;
    DayTriggersExactly(first, times, LogOf(first, times).days[i]);
  }

  /** The latest trigger before a day, if it triggers again at all, and the latest day polled before it show the same
  month and day. */
  lemma RepeatsLatestHit(first: Date, times: seq<nat>, e: nat, day: nat)
    requires ValidDate(first) && times != [] && Later(times) && YearsShown(first, times)
    requires LatestHit(times, e, day)
    ensures Repeats(first, LogOf(first, times).days, day) <==>
            MonthDay(DateOf(first, e)) == MonthDay(DateOf(first, day))
  {
    hide LogOf, DateOf, MonthDay, Hit, Repeats;
    DayTriggersExactly(first, times, e);
    var days := LogOf(first, times).days;
    var i := LatestTrigger(first, times, e, day);
    LatestDecides(first, days, i, day);
  }

  /** The latest trigger up to the latest day polled. */
  lemma LatestTrigger(first: Date, times: seq<nat>, e: nat, day: nat) returns (i: nat)
    requires ValidDate(first) && times != [] && Later(times) && YearsShown(first, times)
    requires LatestHit(times, e, day)
    ensures var days := LogOf(first, times).days;
            && i < |days| && days[i] < day && (i + 1 < |days| ==> day <= days[i + 1])
            && (forall a, b :: 0 <= a < b < |days| ==> days[a] < days[b])
            && MonthDay(DateOf(first, days[i])) == MonthDay(DateOf(first, e))
  {
    hide LogOf, DateOf, MonthDay, Hit;
    DayTriggersExactly(first, times, e);
    var days := LogOf(first, times).days;
    if e in days {
      i :| 0 <= i < |days| && days[i] == e;
    } else {
      i :| RepeatsAt(first, days, i, e);
    }
    if i + 1 < |days| {
      TriggersAreHits(first, times, i + 1);
    }
  }

  lemma LatestDecides(first: Date, days: seq<nat>, i: nat, day: nat)
    requires ValidDate(first) && i < |days| && days[i] < day && (i + 1 < |days| ==> day <= days[i + 1])
    requires forall a, b :: 0 <= a < b < |days| ==> days[a] < days[b]
    ensures Repeats(first, days, day) <==> MonthDay(DateOf(first, days[i])) == MonthDay(DateOf(first, day))
  {
    hide DateOf, MonthDay;
    assert RepeatsAt(first, days, i, day) <==> MonthDay(DateOf(first, days[i])) == MonthDay(DateOf(first, day));
    if Repeats(first, days, day) {
      var j: nat :| RepeatsAt(first, days, j, day);
      assert i == j;
    }
  }

  /** In terms of the polls alone: a day triggers exactly when a poll falls in its window and the latest earlier day
  with a poll in its window, if there is one, does not show the same month and day. */
  lemma PollsDecide(first: Date, times: seq<nat>, day: nat)
    requires ValidDate(first) && times != [] && Later(times) && YearsShown(first, times)
    ensures day in LogOf(first, times).days <==>
            && Hit(times, day)
            && forall e: nat :: LatestHit(times, e, day) ==> MonthDay(DateOf(first, e)) != MonthDay(DateOf(first, day))
  {
    hide LogOf, DateOf, MonthDay, Hit, LatestHit;
    DayTriggersExactly(first, times, day);
    var days := LogOf(first, times).days;
    forall e: nat | LatestHit(times, e, day)
      ensures Repeats(first, days, day) <==> MonthDay(DateOf(first, e)) == MonthDay(DateOf(first, day))
    {
      RepeatsLatestHit(first, times, e, day);
    }
    if Repeats(first, days, day) {
      var i: nat :| RepeatsAt(first, days, i, day);
      TriggersAreHits(first, times, i);
      var e := FindLatestHit(times, days[i], day);
    }
  }

  lemma OrderedOneMore(first: Date, log: Log, prior: nat, day: nat, last: string)
    requires ValidDate(first) && Ordered(first, log, prior) && prior <= day
    requires last == MonthDay(DateOf(first, day)) && log.last != last
    ensures Ordered(first, Log(last, log.days + [day]), day)
    ensures forall i :: 0 <= i < |log.days| ==> log.days[i] < day
  {
    hide DateOf, MonthDay;
    var k := |log.days| - 1;
    assert k >= 0 ==> log.days[k] != day;
  }

  lemma OrderedLater(first: Date, log: Log, prior: nat, day: nat)
    requires ValidDate(first) && Ordered(first, log, prior) && prior <= day
    ensures Ordered(first, log, day)
    ensures day !in log.days ==> forall i :: 0 <= i < |log.days| ==> log.days[i] < day
    ensures log.last == if log.days == [] then "" else MonthDay(DateOf(first, log.days[|log.days| - 1]))
    ensures forall i :: 0 <= i < |log.days| ==> log.days[i] <= day
  {
    hide DateOf, MonthDay;
  }

  /** What one poll does to the log, seen from one day. */
  lemma OnePollMore(first: Date, log: Log, prior: nat, time: nat, day: nat, hit: bool)
    requires ValidDate(first) && FourDigitYear(DateOf(first, time / 86400)) && prior <= time / 86400
    requires Ordered(first, log, prior) && (hit ==> day <= time / 86400)
    requires day in log.days <==> hit && !Repeats(first, log.days, day)
    ensures var next := Polled(first, log, time);
            && Ordered(first, next, time / 86400)
            && (day in next.days <==>
                  (hit || (InWindow(time) && time / 86400 == day)) && !Repeats(first, next.days, day))
  {
    hide TimeText, DateOf, MonthDay, Fires, Ordered, Repeats;
    var today := time / 86400;
    FiresInWindow(first, log.last, time);
    OrderedLater(first, log, prior, today);
    NonEmptyMonthDay(DateOf(first, today));
    if Fires(log.last, TimeText(first, time)) {
      OrderedOneMore(first, log, prior, today, MonthDay(DateOf(first, today)));
      RepeatsAfter(first, log.days, today);
      if day <= today {
        RepeatsBefore(first, log.days, today, day);
      }
    } else if InWindow(time) && day == today && day !in log.days {
      RepeatsAfter(first, log.days, today);
    }
  }

  /** So as long as the polls lie within a year, the days that trigger are exactly those with a poll in their window. */
  lemma DayTriggersIfPolled(first: Date, times: seq<nat>, day: nat)
    requires ValidDate(first) && times != [] && Later(times) && YearsShown(first, times)
    requires times[|times| - 1] / 86400 < times[0] / 86400 + 365
    ensures day in LogOf(first, times).days <==> Hit(times, day)
  {
    hide DateOf, MonthDay, TimeText, LogOf, Hit;
    PollsDecide(first, times, day);
    if Hit(times, day) {
      HitsLieBetween(times, day);
      forall e: nat | LatestHit(times, e, day) ensures MonthDay(DateOf(first, e)) != MonthDay(DateOf(first, day)) {
        HitsLieBetween(times, e);
        if MonthDay(DateOf(first, e)) == MonthDay(DateOf(first, day)) {
          SameMonthDayFarApart(first, e, day);
        }
      }
    }
  }

  lemma HitsLieBetween(times: seq<nat>, day: nat)
    requires Later(times) && Hit(times, day)
    ensures times != [] && times[0] / 86400 <= day <= times[|times| - 1] / 86400
  {
    var i :| 0 <= i < |times| && InWindow(times[i]) && times[i] / 86400 == day;
    assert times[0] <= times[i] <= times[|times| - 1];
  }

  // ---------- balances ----------

  datatype Poll = Poll(time: nat, reply: Reply)

  function Times(polls: seq<Poll>): (t: seq<nat>)
    ensures |t| == |polls|
  {
    seq(|polls|, i requires 0 <= i < |polls| => polls[i].time)
  }

  function After(first: Date, polls: seq<Poll>, balances: map<int, int>): State
    requires ValidDate(first)
  {
    if polls == [] then State("", balances)
    else
      var poll := polls[|polls| - 1];
      AfterPoll(After(first, polls[..|polls| - 1], balances), TimeText(first, poll.time), poll.reply)
  }

  /** A balance after so many days with no renewal. */
  function Left(remain: int, days: nat): int
  {
    if days == 0 then remain else if remain - 86400 * days < 0 then 0 else remain - 86400 * days
  }

  /** Every trigger takes exactly one day off every balance. */
  lemma {:induction false} BalancesFollowTriggers(first: Date, polls: seq<Poll>, balances: map<int, int>)
    requires ValidDate(first) && forall i :: 0 <= i < |polls| ==> Succeeds(polls[i].reply, balances)
    ensures var s := After(first, polls, balances);
            var log := LogOf(first, Times(polls));
            && s.lastMonthDay == log.last && s.balances.Keys == balances.Keys
            && forall id :: id in balances ==> s.balances[id] == Left(balances[id], |log.days|)
    decreases |polls|
  {
    hide TimeText;
    if polls != [] {
      var n := |polls| - 1;
      var poll := polls[n];
      BalancesFollowTriggers(first, polls[..n], balances);
      assert Times(polls)[..n] == Times(polls[..n]);
      var before := After(first, polls[..n], balances);
      if Fires(before.lastMonthDay, TimeText(first, poll.time)) {
        ListedOnceChargedOnce(before.balances, poll.reply.ids.value, 0, poll.reply);
        assert poll.reply.ids.value[0..] == poll.reply.ids.value;
      }
    }
  }

  /** With polls at most 3600 seconds apart and a database that answers: after k windows begun since the start,
  a balance of r seconds or more than none is max(0, r - 86400 k). */
  lemma BalanceAfterDays(first: Date, polls: seq<Poll>, balances: map<int, int>, id: int)
    requires ValidDate(first) && Regular(Times(polls)) && YearsShown(first, Times(polls))
    requires forall i :: 0 <= i < |polls| ==> Succeeds(polls[i].reply, balances)
    requires id in balances && balances[id] >= 0
    ensures var k := Begun(polls[|polls| - 1].time) - FirstOpen(polls[0].time);
            var s := After(first, polls, balances);
            k >= 0 && id in s.balances
            && s.balances[id] == if balances[id] >= 86400 * k then balances[id] - 86400 * k else 0
  {
    hide LogOf, After, YearsShown, Succeeds, DateOf, MonthDay;
    EachDayTriggersOnce(first, Times(polls));
    BalancesFollowTriggers(first, polls, balances);
  }
}
