/** The publisher's thread object and its consumer loop as code, every stretch of which is a run of the
steps of the state machine. */
module PublisherThread {
  import opened Publisher
  import opened Wrappers

  class PublishThread {
    // shared with the senders; an entry of the list points at a copied message
    var messages: seq<Message>
    var list: seq<nat>
    var sem: nat
    const semMax: nat
    var exitFlag: bool

    // the consumer's own
    var batch: seq<Item>
    var at: nat
    var command: nat
    var connected: bool
    var conn: Option<nat>
    var exchangeMap: set<string>
    var interval: nat

    // the library
    var broker: Broker

    // bookkeeping for the statements
    ghost var place: Place
    ghost var unposted: set<nat>
    ghost var history: History

    ghost function View(): State
      reads this
    {
      State(Shared(list, sem, semMax, unposted, exitFlag),
            Local(place, batch, at, command, connected, conn, exchangeMap, interval),
            broker, history.(appended := messages))
    }

    ghost predicate Valid()
      reads this
    {
      Good(View())
    }

    constructor (semMax: nat)
      requires semMax > 0
      ensures Valid() && View() == Initial(semMax)
    {
      messages, list, sem, this.semMax, exitFlag := [], [], 0, semMax, true;
      batch, at, command, connected, conn, exchangeMap, interval := [], 0, 0, false, None, {}, 5;
      broker := Broker(0, {}, false);
      place, unposted, history := Starting, {}, Initial(semMax).hi;
      new;
      InitiallyGood(semMax);
    }

    /** One more step at the end of a run from a good state. */
    static lemma Went(s: State, run: seq<Action>, t: State, a: Action, u: State)
      requires Good(s) && Run(s, run) == Some(t) && Enabled(t, a) && Step(t, a) == u
      ensures Good(u) && Run(s, run + [a]) == Some(u)
    {
      hide Step, Enabled, Good;
      RunsCompose(s, run, [a]);
      RunsStayGood(s, run + [a]);
    }

    /** The message in hand exists: it is the first not yet deleted. */
    static lemma InHand(s: State)
      requires Good(s) && s.lo.at < |s.lo.list| && s.lo.list[s.lo.at].User?
      ensures s.lo.list[s.lo.at].n < |s.hi.appended|
    {
      assert s.lo.list[s.lo.at] == User(|s.hi.deleted| + s.lo.at - s.lo.at);
    }

    /** The list is appended to under the mutex, the semaphore posted after it. */
    method Send(data: Message, ghost sender: nat)
      requires Valid() && sender !in unposted
      modifies this
      ensures Valid()
      ensures Run(old(View()), [Push(sender, data), Post(sender)]) == Some(View())
      ensures messages == old(messages) + [data] && list == old(list) + [|old(messages)|]
    {
      hide Good, Run;
      ghost var start := View();
      assert Run(start, []) == Some(start) by { RunNothing(start); }
      messages, list := messages + [data], list + [|messages|];
      unposted := unposted + {sender};
      Went(start, [], start, Push(sender, data), View());
      ghost var pushed := View();
      PostSemaphore();
      unposted := unposted - {sender};
      Went(start, [] + [Push(sender, data)], pushed, Post(sender), View());
      assert [] + [Push(sender, data)] + [Post(sender)] == [Push(sender, data), Post(sender)];
    }

    static lemma RunNothing(s: State)
      ensures Run(s, []) == Some(s)
    {
    }

    method PostSemaphore()
      modifies this`sem
      ensures View() == old(View()).(sh := PostSem(old(View()).sh))
    {
      if sem < semMax { sem := sem + 1; }
    }

    method Stop()
      requires Valid()
      modifies this
      ensures Valid() && !exitFlag
      ensures Run(old(View()), [ClearFlag, StopPost]) == Some(View())
    {
      hide Good, Run;
      ghost var start := View();
      assert Run(start, []) == Some(start) by { RunNothing(start); }
      exitFlag := false;
      Went(start, [], start, ClearFlag, View());
      ghost var cleared := View();
      PostSemaphore();
      Went(start, [] + [ClearFlag], cleared, StopPost, View());
      assert [] + [ClearFlag] + [StopPost] == [ClearFlag, StopPost];
    }

    /** `rabbitmq_initial` and, if it succeeds, `rabbitmq_publish_initial`. */
    method Connect() returns (ghost attempt: Attempt)
      modifies this`conn, this`connected, this`broker
      ensures View() == TryConnect(old(View()), attempt)
    {
      var made: bool := *;
      if !made {
        conn := None;
        return NoConnection;
      }
      var handle := broker.next;
      broker := broker.(next := handle + 1, live := broker.live + {handle});
      var reached: bool := *;
      if !reached {
        broker := Destroy(broker, handle);
        conn := None;
        return GivenUp;
      }
      conn := Some(handle);
      broker := UseConn(broker, conn);
      var channel: bool := *;
      connected := channel;
      return if channel then Opened else NoChannel;
    }

    /** The thread's first attempt to connect, before its loop. */
    method Begin() returns (ghost attempt: Attempt)
      requires Valid() && place == Starting
      modifies this
      ensures Valid() && place == AtWait
      ensures Run(old(View()), [Action.Start(attempt)]) == Some(View())
    {
      hide Good, Run, UseConn, Destroy;
      ghost var start := View();
      RunNothing(start);
      attempt := Connect();
      place := AtWait;
      Went(start, [], start, Action.Start(attempt), View());
      assert [] + [Action.Start(attempt)] == [Action.Start(attempt)];
    }

    method Hangup()
      modifies this`conn, this`connected, this`broker
      ensures View() == Disconnect(old(View()))
    {
      broker := UseConn(broker, conn);
      if conn.Some? {
        broker := Destroy(broker, conn.value);
        conn := None;
      }
      connected := false;
    }

    method DeleteData()
      requires at < |batch|
      modifies this`at, this`command, this`place, this`history
      ensures View() == DeleteCurrent(old(View()))
    {
      match batch[at] {
        case User(n) => history := history.(deleted := history.deleted + [n]);
        case Heartbeat => history := history.(heartbeatsDeleted := history.heartbeatsDeleted + 1);
      }
      at, command, place := at + 1, 0, Dealing;
    }

    /** The first part of the loop body: gives the message up or declares its exchange. */
    method Declare(data: Message) returns (deal: bool, ghost declareOk: bool)
      requires at < |batch| && place == Dealing && data == CurrentMessage(View())
      modifies this
      ensures messages == old(messages) && batch == old(batch)
      ensures View() == Deal(old(View()), declareOk)
      ensures deal <==> place == Publishing
      ensures deal ==> at == old(at) && command == 0
      ensures !deal ==> place == Dealing && at == old(at) + 1
    {
      hide UseConn, CurrentMessage, Disconnect;
      declareOk := true;
      if !connected || data.exchange == "" {
        DeleteData();
        return false, true;
      }
      if data.exchange !in exchangeMap {
        broker := UseConn(broker, conn);
        var replied: bool := *;
        if !replied {
          Hangup();
          DeleteData();
          return false, false;
        }
        exchangeMap := exchangeMap + {data.exchange};
        history := history.(declared := history.declared + if conn.Some? then {(conn.value, data.exchange)} else {});
      }
      place, command := Publishing, 0;
      return true, true;
    }

    /** One pass of the loop over the commands of the message in hand. */
    method PublishCommand(data: Message) returns (sent: bool)
      requires at < |batch| && place == Publishing && data == CurrentMessage(View()) && command < |data.commands|
      modifies this
      ensures messages == old(messages) && batch == old(batch)
      ensures View() == Publish(old(View()), sent)
      ensures sent ==> place == Publishing && at == old(at) && command == old(command) + 1
      ensures !sent ==> place == Dealing && at == old(at) + 1
    {
      hide UseConn, CurrentMessage, Disconnect, EverDeclared;
      sent := true;
      if data.commands[command] != "" {
        history := history.(undeclared := history.undeclared || !EverDeclared(history.declared, data.exchange));
        broker := UseConn(broker, conn);
        sent := *;
        if !sent {
          Hangup();
          DeleteData();
          return;
        }
        if batch[at].User? {
          history := history.(published := history.published +
                                           [Publication(batch[at].n, command, if conn.Some? then conn.value else 0)]);
        }
      }
      command := command + 1;
    }

    /** The loop over the commands of the message in hand, and the deletion after it. */
    method PublishAll(data: Message) returns (ghost run: seq<Action>)
      requires Valid() && place == Publishing && at < |batch| && data == CurrentMessage(View())
      modifies this
      ensures Valid() && place == Dealing && at == old(at) + 1 && batch == old(batch)
      ensures Run(old(View()), run) == Some(View())
    {
      hide Good, Run, Deal, Publish, CurrentMessage;
      ghost var start := View();
      RunNothing(start);
      run := [];
      while command < |data.commands|
        invariant Good(View()) && batch == old(batch) && at == old(at) && place == Publishing
        invariant data == CurrentMessage(View())
        invariant Run(start, run) == Some(View())
      {
        ghost var here := View();
        var sent := PublishCommand(data);
        Went(start, run, here, PublishNext(sent), View());
        run := run + [PublishNext(sent)];
        if !sent {
          return;
        }
        SameInHand(here, View());
      }
      ghost var here := View();
      CommandsDone(here);
      DeleteData();
      Went(start, run, here, PublishNext(true), View());
      run := run + [PublishNext(true)];
    }

    /** The body of the loop over the list: one message, from its declare to its deletion. */
    method DealWithOne() returns (ghost run: seq<Action>)
      requires Valid() && place == Dealing && at < |batch|
      modifies this
      ensures Valid() && place == Dealing && at == old(at) + 1 && batch == old(batch)
      ensures Run(old(View()), run) == Some(View())
    {
      hide Good, Run, Deal, Publish, CurrentMessage;
      ghost var start := View();
      if batch[at].User? { InHand(start); }
      var data := match batch[at]
        case User(n) => messages[n]
        case Heartbeat => Message(HEARTBEAT_EXCHANGE, ["heartbeat.agent"]);
      Dereference(start, data);
      var deal, declareOk := Declare(data);
      RunNothing(start);
      Went(start, [], start, DealNext(declareOk), View());
      run := [] + [DealNext(declareOk)];
      if deal {
        SameInHand(start, View());
        ghost var rest := PublishAll(data);
        RunsCompose(start, run, rest);
        run := run + rest;
      }
    }

    static lemma Dereference(s: State, data: Message)
      requires s.lo.at < |s.lo.list|
      requires s.lo.list[s.lo.at].User? ==> s.lo.list[s.lo.at].n < |s.hi.appended|
      requires data == match s.lo.list[s.lo.at]
                       case User(n) => s.hi.appended[n]
                       case Heartbeat => Message(HEARTBEAT_EXCHANGE, ["heartbeat.agent"])
      ensures data == CurrentMessage(s)
    {
    }

    static lemma CommandsDone(s: State)
      requires s.lo.at < |s.lo.list| && s.lo.command >= |CurrentMessage(s).commands|
      ensures Publish(s, true) == DeleteCurrent(s)
    {
    }

    static lemma SameInHand(s: State, t: State)
      requires s.lo.list == t.lo.list && s.lo.at == t.lo.at < |s.lo.list| && s.hi.appended == t.hi.appended
      ensures CurrentMessage(s) == CurrentMessage(t)
    {
    }

    /** The loop over the list, and the clear after it. */
    method DealWithList() returns (ghost run: seq<Action>)
      requires Valid() && place == Dealing && at == 0
      modifies this
      ensures Valid() && place == AtWait && batch == []
      ensures Run(old(View()), run) == Some(View())
    {
      hide Good, Run, Deal, Publish, CurrentMessage;
      ghost var start := View();
      RunNothing(start);
      run := [];
      while at < |batch|
        invariant Good(View()) && batch == old(batch) && at <= |batch| && place == Dealing
        invariant Run(start, run) == Some(View())
      {
        ghost var one := DealWithOne();
        RunsCompose(start, run, one);
        run := run + one;
      }
      ghost var here := View();
      batch, at, place := [], 0, AtWait;
      Went(start, run, here, DealNext(true), View());
      run := run + [DealNext(true)];
    }

    /** Reconnects if that is due. */
    method Reconnect() returns (ghost run: seq<Action>)
      requires Valid() && place == Checking
      modifies this
      ensures Valid() && place == Collecting && batch == old(batch)
      ensures Run(old(View()), run) == Some(View())
    {
      hide Good, Run, UseConn, Destroy;
      ghost var start := View();
      RunNothing(start);
      var due: bool := *;
      ghost var attempt := Opened;
      if !connected && due {
        attempt := Connect();
        history := history.(failedInARow := if connected then 0 else history.failedInARow + 1);
        if connected {
          interval := 5;
        } else if interval < 60 {
          interval := interval + 5;
        } else if interval > 60 {
          interval := 60;
        }
      }
      place := Collecting;
      Went(start, [], start, Action.Reconnect(due, attempt), View());
      run := [] + [Action.Reconnect(due, attempt)];
    }

    /** Splices the shared list into the consumer's own, under the mutex; an empty one may get a heartbeat. */
    method Splice() returns (due: bool)
      modifies this
      ensures messages == old(messages)
      ensures View() == TakeOver(old(View()), due)
    {
      hide Items;
      due := *;
      var taken := Items(list) + batch;
      if taken == [] && due {
        taken := [Heartbeat];
        history := history.(heartbeats := history.heartbeats + 1);
      }
      list, batch, at, command, place := [], taken, 0, 0, Dealing;
    }

    method Collect() returns (ghost run: seq<Action>)
      requires Valid() && place == Collecting
      modifies this
      ensures Valid() && place == Dealing && at == 0
      ensures Run(old(View()), run) == Some(View())
    {
      hide Good, Run, TakeOver;
      ghost var start := View();
      RunNothing(start);
      var due := Splice();
      Went(start, [], start, Action.Collect(due), View());
      run := [] + [Action.Collect(due)];
      assert place == Dealing && at == 0 by { AtTheHead(start, due); }
    }

    static lemma AtTheHead(s: State, due: bool)
      ensures TakeOver(s, due).lo.place == Dealing && TakeOver(s, due).lo.at == 0
    {
    }

    /** The body of the thread's loop, after the wait: a run of the machine back to the wait or out of the loop. */
    method Pass() returns (again: bool, ghost run: seq<Action>)
      requires Valid() && place == Woken
      modifies this
      ensures Valid() && place == (if again then AtWait else Leaving) && again == old(exitFlag)
      ensures Run(old(View()), run) == Some(View())
    {
      hide Good, Run;
      ghost var start := View();
      RunNothing(start);
      again := exitFlag;
      place := if again then Checking else Leaving;
      Went(start, [], start, ReadExitFlag, View());
      run := [] + [ReadExitFlag];
      if !again {
        return;
      }
      ghost var reconnect := Reconnect();
      RunsCompose(start, run, reconnect);
      ghost var collect := Collect();
      RunsCompose(start, run + reconnect, collect);
      ghost var deal := DealWithList();
      RunsCompose(start, run + reconnect + collect, deal);
      run := run + reconnect + collect + deal;
    }

    /** What follows the loop: the connection is closed if there is one. */
    method Exit()
      requires Valid() && place == Leaving
      modifies this
      ensures Valid() && place == Exited && conn == None
      ensures Run(old(View()), [Leave]) == Some(View())
    {
      hide Good, Run, UseConn, Destroy;
      ghost var start := View();
      RunNothing(start);
      if conn.Some? {
        Hangup();
      }
      place := Exited;
      Went(start, [], start, Leave, View());
      assert [] + [Leave] == [Leave];
    }
  }
}
