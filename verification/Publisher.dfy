/** The message publisher: any number of senders, one consumer thread, and a broker that may fail.

Every step below is atomic: the mutex-protected sections are, and every other
step touches only what its own thread owns. A run is any sequence of enabled steps. */
module Publisher {
  import opened Wrappers

  /** What `send` copies and appends. */
  datatype Message = Message(exchange: string, commands: seq<string>)

  /** An entry of the consumer's list: the n-th message ever appended, or a heartbeat. */
  datatype Item = User(n: nat) | Heartbeat

  /** The n-th message's c-th command, accepted by the broker on a connection. */
  datatype Publication = Publication(n: nat, c: nat, conn: nat)

  /** Where the consumer thread stands. */
  datatype Place =
    | Starting      // before the first attempt to connect
    | AtWait        // at the semaphore
    | Woken         // the wait returned, the exit flag not yet read
    | Checking      // about to reconnect if that is due
    | Collecting    // about to take over the shared list
    | Dealing       // at the head of the loop over the list
    | Publishing    // in the loop over the commands of the current message
    | Leaving       // out of the loop, the connection not yet closed
    | Exited

  /** What the senders and the consumer share. */
  datatype Shared = Shared(list: seq<nat>, sem: nat, semMax: nat, unposted: set<nat>, keepRunning: bool)

  /** The consumer's own variables. */
  datatype Local = Local(place: Place, list: seq<Item>, at: nat, command: nat, connected: bool,
                         conn: Option<nat>, exchangeMap: set<string>, interval: nat)

  /** Connections handed out by the library and not yet destroyed, and whether one was ever misused. */
  datatype Broker = Broker(next: nat, live: set<nat>, misused: bool)

  /** What has happened so far. */
  datatype History = History(appended: seq<Message>, published: seq<Publication>, deleted: seq<nat>,
                             heartbeats: nat, heartbeatsDeleted: nat,
                             declared: set<(nat, string)>, undeclared: bool, failedInARow: nat)

  datatype State = State(sh: Shared, lo: Local, br: Broker, hi: History)

  /** How an attempt to connect ends. */
  datatype Attempt =
    | NoConnection    // amqp_new_connection fails
    | GivenUp         // socket, open or login fails: the new connection is destroyed
    | NoChannel       // logged in, but the channel does not open
    | Opened

  datatype Action =
    | Push(t: nat, m: Message)
    | Post(t: nat)
    | ClearFlag
    | StopPost
    | Start(first: Attempt)
    | WaitSucceeds
    | WaitTimesOut
    | WaitFails
    | ReadExitFlag
    | Reconnect(due: bool, attempt: Attempt)
    | Collect(heartbeatDue: bool)
    | DealNext(declareOk: bool)
    | PublishNext(publishOk: bool)
    | Leave

  const HEARTBEAT_EXCHANGE := "sdn.agent.heartbeat"

  function Initial(semMax: nat): State
  {
    State(Shared([], 0, semMax, {}, true),
          Local(Starting, [], 0, 0, false, None, {}, 5),
          Broker(0, {}, false),
          History([], [], [], 0, 0, {}, false, 0))
  }

  predicate Enabled(s: State, a: Action)
  {
    match a
    case Push(t, _) => t !in s.sh.unposted
    case Post(t) => t in s.sh.unposted
    case ClearFlag => true
    case StopPost => !s.sh.keepRunning
    case Start(_) => s.lo.place == Starting
    case WaitSucceeds => s.lo.place == AtWait && s.sh.sem > 0
    case WaitTimesOut => s.lo.place == AtWait
    case WaitFails => s.lo.place == AtWait
    case ReadExitFlag => s.lo.place == Woken
    case Reconnect(_, _) => s.lo.place == Checking
    case Collect(_) => s.lo.place == Collecting
    case DealNext(_) => s.lo.place == Dealing && s.lo.at <= |s.lo.list|
    case PublishNext(_) => s.lo.place == Publishing && s.lo.at < |s.lo.list|
    case Leave => s.lo.place == Leaving
  }

  /** `sem_post`: refused at the maximum. */
  function PostSem(sh: Shared): Shared
  {
    if sh.sem < sh.semMax then sh.(sem := sh.sem + 1) else sh
  }

  /** A library call on the current handle. */
  function UseConn(br: Broker, conn: Option<nat>): Broker
  {
    if conn.Some? && conn.value in br.live then br else br.(misused := true)
  }

  /** `rabbitmq_destory` on a handle that is not null. */
  function Destroy(br: Broker, conn: nat): Broker
  {
    if conn in br.live then br.(live := br.live - {conn}) else br.(misused := true)
  }

  /** `rabbitmq_initial`, then `rabbitmq_publish_initial` if that succeeds. A new handle overwrites the old one. */
  function TryConnect(s: State, attempt: Attempt): State
  {
    var c := s.br.next;
    var made := s.br.(next := c + 1, live := s.br.live + {c});
    match attempt
    case NoConnection => s.(lo := s.lo.(conn := None))
    case GivenUp => s.(lo := s.lo.(conn := None), br := Destroy(made, c))
    case NoChannel => s.(lo := s.lo.(conn := Some(c), connected := false), br := UseConn(made, Some(c)))
    case Opened => s.(lo := s.lo.(conn := Some(c), connected := true), br := UseConn(made, Some(c)))
  }

  function NextInterval(interval: nat, connected: bool): nat
  {
    if connected then 5
    else if interval < 60 then interval + 5
    else if interval > 60 then 60
    else interval
  }

  /** Closes the channel, destroys the connection and clears the connected flag. */
  function Disconnect(s: State): State
  {
    var br := UseConn(s.br, s.lo.conn);
    if s.lo.conn.Some?
    then s.(br := Destroy(br, s.lo.conn.value), lo := s.lo.(conn := None, connected := false))
    else s.(br := br, lo := s.lo.(connected := false))
  }

  /** `delete pData` and on to the next entry of the list. */
  function DeleteCurrent(s: State): State
    requires s.lo.at < |s.lo.list|
  {
    var lo := s.lo.(place := Dealing, at := s.lo.at + 1, command := 0);
    match s.lo.list[s.lo.at]
    case User(n) => s.(lo := lo, hi := s.hi.(deleted := s.hi.deleted + [n]))
    case Heartbeat => s.(lo := lo, hi := s.hi.(heartbeatsDeleted := s.hi.heartbeatsDeleted + 1))
  }

  function CurrentMessage(s: State): Message
    requires s.lo.at < |s.lo.list|
  {
    match s.lo.list[s.lo.at]
    case User(n) => if n < |s.hi.appended| then s.hi.appended[n] else Message("", [])
    case Heartbeat => Message(HEARTBEAT_EXCHANGE, ["heartbeat.agent"])
  }

  function Deal(s: State, declareOk: bool): State
    requires s.lo.at < |s.lo.list|
  {
    var m := CurrentMessage(s);
    if !s.lo.connected || m.exchange == "" then DeleteCurrent(s)
    else if m.exchange in s.lo.exchangeMap then s.(lo := s.lo.(place := Publishing, command := 0))
    else
      var used := s.(br := UseConn(s.br, s.lo.conn));
      if !declareOk then DeleteCurrent(Disconnect(used))
      else
        used.(lo := s.lo.(place := Publishing, command := 0, exchangeMap := s.lo.exchangeMap + {m.exchange}),
              hi := s.hi.(declared := s.hi.declared +
                                      if s.lo.conn.Some? then {(s.lo.conn.value, m.exchange)} else {}))
  }

  /** Whether an exchange was ever declared successfully, on whatever connection. */
  ghost predicate EverDeclared(declared: set<(nat, string)>, exchange: string)
  {
    exists c :: (c, exchange) in declared
  }

  ghost function Publish(s: State, publishOk: bool): State
    requires s.lo.at < |s.lo.list|
  {
    var m := CurrentMessage(s);
    if s.lo.command >= |m.commands| then DeleteCurrent(s)
    else if m.commands[s.lo.command] == "" then s.(lo := s.lo.(command := s.lo.command + 1))
    else
      var used := s.(br := UseConn(s.br, s.lo.conn),
                     hi := s.hi.(undeclared := s.hi.undeclared || !EverDeclared(s.hi.declared, m.exchange)));
      if !publishOk then DeleteCurrent(Disconnect(used))
      else
        var entry := match s.lo.list[s.lo.at]
          case User(n) => [Publication(n, s.lo.command, if s.lo.conn.Some? then s.lo.conn.value else 0)]
          case Heartbeat => [];
        used.(lo := s.lo.(command := s.lo.command + 1),
              hi := used.hi.(published := s.hi.published + entry))
  }

  function Items(list: seq<nat>): seq<Item>
  {
    seq(|list|, i requires 0 <= i < |list| => User(list[i]))
  }

  /** The consumer takes over the whole shared list. */
  function TakeOver(s: State, heartbeatDue: bool): State
  {
    var taken := Items(s.sh.list) + s.lo.list;
    var beat := taken == [] && heartbeatDue;
    s.(sh := s.sh.(list := []),
       lo := s.lo.(place := Dealing, at := 0, command := 0, list := if beat then [Heartbeat] else taken),
       hi := s.hi.(heartbeats := s.hi.heartbeats + if beat then 1 else 0))
  }

  ghost function Step(s: State, a: Action): State
    requires Enabled(s, a)
  {
    match a
    case Push(t, m) =>
      s.(sh := s.sh.(list := s.sh.list + [|s.hi.appended|], unposted := s.sh.unposted + {t}),
         hi := s.hi.(appended := s.hi.appended + [m]))
    case Post(t) => s.(sh := PostSem(s.sh).(unposted := s.sh.unposted - {t}))
    case ClearFlag => s.(sh := s.sh.(keepRunning := false))
    case StopPost => s.(sh := PostSem(s.sh))
    case Start(first) => var t := TryConnect(s, first); t.(lo := t.lo.(place := AtWait))
    case WaitSucceeds => s.(sh := s.sh.(sem := s.sh.sem - 1), lo := s.lo.(place := Woken))
    case WaitTimesOut => s.(lo := s.lo.(place := Woken))
    case WaitFails => s.(lo := s.lo.(place := Leaving))
    case ReadExitFlag => s.(lo := s.lo.(place := if s.sh.keepRunning then Checking else Leaving))
    case Reconnect(due, attempt) =>
      if s.lo.connected || !due then s.(lo := s.lo.(place := Collecting))
      else
        var t := TryConnect(s, attempt);
        t.(lo := t.lo.(place := Collecting, interval := NextInterval(t.lo.interval, t.lo.connected)),
           hi := t.hi.(failedInARow := if t.lo.connected then 0 else t.hi.failedInARow + 1))
    case Collect(heartbeatDue) => TakeOver(s, heartbeatDue)
    case DealNext(declareOk) =>
      if s.lo.at == |s.lo.list| then s.(lo := s.lo.(place := AtWait, list := [], at := 0))
      else Deal(s, declareOk)
    case PublishNext(publishOk) => Publish(s, publishOk)
    case Leave =>
      var t := if s.lo.conn.Some? then Disconnect(s) else s;
      t.(lo := t.lo.(place := Exited))
  }

  /** The state after a run, if every step of it is enabled. */
  ghost function Run(s: State, run: seq<Action>): (r: Option<State>)
    decreases |run|
  {
    if run == [] then Some(s)
    else if !Enabled(s, run[0]) then None
    else Run(Step(s, run[0]), run[1..])
  }

  // ---------- connection safety ----------

  /** The seconds between attempts: five more after each failed retry, up to a minute. */
  function Backoff(failedInARow: nat): nat
  {
    if failedInARow < 11 then 5 + 5 * failedInARow else 60
  }

  /** The connected flag means a live connection; handles are live or null; the broker was never
  misused; the interval follows the failed retries since the last success; what the map holds was declared. */
  ghost predicate ConnectionsSafe(s: State)
  {
    && (s.lo.connected ==> s.lo.conn.Some?)
    && (s.lo.conn.Some? ==> s.lo.conn.value in s.br.live)
    && !s.br.misused
    && (forall c :: c in s.br.live ==> c < s.br.next)
    && s.lo.interval == Backoff(s.hi.failedInARow)
    && (forall e :: e in s.lo.exchangeMap ==> EverDeclared(s.hi.declared, e))
    && !s.hi.undeclared
    && (s.lo.place == Publishing ==>
          s.lo.connected && s.lo.at < |s.lo.list| && CurrentMessage(s).exchange in s.lo.exchangeMap)
    && (s.lo.place == Starting ==> !s.lo.connected)
    && (s.lo.place == Exited ==> s.lo.conn == None)
  }

  // ---------- messages ----------

  /** The numbers from..to in order. */
  function Range(from: nat, to: nat): (r: seq<nat>)
    requires from <= to
  {
    seq(to - from, i requires 0 <= i => from + i)
  }

  /** Later in the order of sending: a later message, or a later command of the same one. */
  predicate Before(p: Publication, q: Publication)
  {
    p.n < q.n || (p.n == q.n && p.c < q.c)
  }

  ghost predicate InOrder(published: seq<Publication>)
  {
    forall i, j :: 0 <= i < j < |published| ==> Before(published[i], published[j])
  }

  ghost predicate IsPublished(published: seq<Publication>, n: nat, c: nat)
  {
    exists i :: 0 <= i < |published| && published[i].n == n && published[i].c == c
  }

  /** Every publication is of a non-empty command that exists, and every non-empty command
  of the same message before it was published too. */
  ghost predicate PrefixesOf(published: seq<Publication>, appended: seq<Message>)
  {
    forall i :: 0 <= i < |published| ==>
      var p := published[i];
      && p.n < |appended| && p.c < |appended[p.n].commands| && appended[p.n].commands[p.c] != ""
      && forall c :: 0 <= c < p.c && appended[p.n].commands[c] != "" ==> IsPublished(published, p.n, c)
  }

  /** The n of the user entries of a consumer list from position `at` on are d, d+1, ... */
  predicate ListFrom(list: seq<Item>, at: nat, d: nat)
  {
    list == [Heartbeat] || forall i :: at <= i < |list| ==> list[i] == User(d + i - at)
  }

  /** How many messages the consumer has taken over and not yet deleted. */
  function Held(lo: Local): nat
  {
    if lo.list == [Heartbeat] || lo.at > |lo.list| then 0 else |lo.list| - lo.at
  }

  ghost predicate MessagesInOrder(s: State)
  {
    var d := |s.hi.deleted|;
    && s.lo.at <= |s.lo.list|
    && d + Held(s.lo) + |s.sh.list| == |s.hi.appended|
    && s.hi.deleted == Range(0, d)
    && ListFrom(s.lo.list, s.lo.at, d)
    && s.sh.list == Range(d + Held(s.lo), |s.hi.appended|)
    && InOrder(s.hi.published)
    && PrefixesOf(s.hi.published, s.hi.appended)
    && (s.lo.place == Publishing ==> s.lo.at < |s.lo.list|)
    && (s.lo.place !in {Dealing, Publishing} ==> s.lo.list == [] && s.lo.at == 0)
    && PublishedSoFar(s)
    && s.hi.heartbeats == s.hi.heartbeatsDeleted + if s.lo.list == [Heartbeat] && s.lo.at == 0 then 1 else 0
  }

  /** Every non-empty command of message n before the given one is published. */
  ghost predicate PublishedUpTo(published: seq<Publication>, m: Message, n: nat, command: nat)
  {
    forall c :: 0 <= c < command && c < |m.commands| && m.commands[c] != "" ==> IsPublished(published, n, c)
  }

  /** Only deleted messages and the current one up to its current command have been published,
  and of the current one every non-empty command so far. */
  ghost predicate PublishedSoFar(s: State)
  {
    var d := |s.hi.deleted|;
    && (forall i :: 0 <= i < |s.hi.published| ==>
          var p := s.hi.published[i];
          p.n < d || (s.lo.place == Publishing && p.n == d && p.c < s.lo.command && s.lo.list != [Heartbeat]))
    && (s.lo.place == Publishing && s.lo.list != [Heartbeat] && d < |s.hi.appended| ==>
          PublishedUpTo(s.hi.published, s.hi.appended[d], d, s.lo.command))
  }

  // ---------- wake-ups ----------

  /** Whoever waits while the shared list is not empty can be woken, or will be. */
  predicate NoLostWakeUp(s: State)
  {
    && s.sh.semMax > 0
    && (s.lo.place in {Starting, AtWait, Dealing, Publishing} ==>
          s.sh.list == [] || s.sh.sem > 0 || s.sh.unposted != {})
  }

  // ---------- every step keeps the invariants ----------

  lemma AttemptSafe(s: State, attempt: Attempt)
    requires ConnectionsSafe(s) && !s.lo.connected && s.lo.place != Publishing
    ensures ConnectionsSafe(TryConnect(s, attempt).(lo := TryConnect(s, attempt).lo.(place := AtWait)))
    ensures TryConnect(s, attempt).lo.interval == s.lo.interval && TryConnect(s, attempt).hi == s.hi
  {
  }

  lemma DisconnectSafe(s: State)
    requires ConnectionsSafe(s) && s.lo.connected
    ensures var t := Disconnect(s); ConnectionsSafe(t.(lo := t.lo.(place := Dealing)))
  {
  }

  lemma ConnectionsStayed(s: State, a: Action)
    requires Enabled(s, a) && ConnectionsSafe(s) && MessagesInOrder(s)
    ensures ConnectionsSafe(Step(s, a))
  {
    hide MessagesInOrder, PublishedSoFar;
    match a {
      case Push(t, m) => PushKeepsCurrent(s, m);
      case Start(first) => AttemptSafe(s, first);
      case Reconnect(due, attempt) =>
        if !s.lo.connected && due {
          AttemptSafe(s, attempt);
        }
      case DealNext(declareOk) => DealSafe(s, declareOk);
      case PublishNext(publishOk) => PublishSafe(s, publishOk);
      case Leave =>
      case _ =>
    }
  }

  /** Appending a message does not change the one in hand. */
  lemma PushKeepsCurrent(s: State, m: Message)
    requires MessagesInOrder(s)
    ensures var t := s.(hi := s.hi.(appended := s.hi.appended + [m]));
            s.lo.at < |s.lo.list| ==> CurrentMessage(t) == CurrentMessage(s)
  {
    if s.lo.at < |s.lo.list| && s.lo.list[s.lo.at].User? {
      assert s.lo.list[s.lo.at] == User(|s.hi.deleted| + s.lo.at - s.lo.at);
    }
  }

  lemma DealSafe(s: State, declareOk: bool)
    requires Enabled(s, DealNext(declareOk)) && ConnectionsSafe(s)
    ensures ConnectionsSafe(Step(s, DealNext(declareOk)))
  {
    if s.lo.at < |s.lo.list| {
      var m := CurrentMessage(s);
      if s.lo.connected && m.exchange != "" && m.exchange !in s.lo.exchangeMap {
        if declareOk {
          var t := Deal(s, declareOk);
          assert (s.lo.conn.value, m.exchange) in t.hi.declared;
          forall e | EverDeclared(s.hi.declared, e) ensures EverDeclared(t.hi.declared, e) {
            var c :| (c, e) in s.hi.declared;
            assert (c, e) in t.hi.declared;
          }
        } else {
          DisconnectSafe(s);
        }
      }
    }
  }

  lemma PublishSafe(s: State, publishOk: bool)
    requires Enabled(s, PublishNext(publishOk)) && ConnectionsSafe(s)
    ensures ConnectionsSafe(Step(s, PublishNext(publishOk)))
  {
    var m := CurrentMessage(s);
    if s.lo.command < |m.commands| && m.commands[s.lo.command] != "" {
      assert EverDeclared(s.hi.declared, m.exchange);
      if !publishOk {
        DisconnectSafe(s);
      }
    }
  }

  lemma WakeUpStayed(s: State, a: Action)
    requires Enabled(s, a) && NoLostWakeUp(s)
    ensures NoLostWakeUp(Step(s, a))
  {
    match a {
      case Push(t, m) => assert t in Step(s, a).sh.unposted;
      case DealNext(_) =>
        if s.lo.at < |s.lo.list| {
          DealShares(s, a.declareOk);
        }
      case PublishNext(_) => PublishShares(s, a.publishOk);
      case _ =>
    }
  }

  lemma DealShares(s: State, ok: bool)
    requires s.lo.at < |s.lo.list|
    ensures Deal(s, ok).sh == s.sh && Deal(s, ok).lo.place in {Dealing, Publishing}
  {
  }

  lemma PublishShares(s: State, ok: bool)
    requires s.lo.at < |s.lo.list|
    ensures Publish(s, ok).sh == s.sh && (Publish(s, ok).lo.place == Dealing || Publish(s, ok).lo.place == s.lo.place)
  {
  }

  // ---------- the order of messages ----------

  /** The two states differ only in what the message invariant does not mention. */
  predicate SameMessages(s: State, t: State)
  {
    && s.sh.list == t.sh.list && s.lo.list == t.lo.list && s.lo.at == t.lo.at && s.lo.command == t.lo.command
    && s.hi.(declared := {}, undeclared := false, failedInARow := 0)
       == t.hi.(declared := {}, undeclared := false, failedInARow := 0)
    && (s.lo.place == t.lo.place || {s.lo.place, t.lo.place} !! {Dealing, Publishing})
  }

  lemma OtherFieldsDoNotMatter(s: State, t: State)
    requires MessagesInOrder(s) && SameMessages(s, t)
    ensures MessagesInOrder(t)
  {
  }

  lemma PushInOrder(s: State, t: nat, m: Message)
    requires MessagesInOrder(s)
    ensures Enabled(s, Push(t, m)) ==> MessagesInOrder(Step(s, Push(t, m)))
  {
    if Enabled(s, Push(t, m)) {
      var r := Step(s, Push(t, m));
      var from := |s.hi.deleted| + Held(s.lo);
      assert Range(from, |r.hi.appended|) == Range(from, |s.hi.appended|) + [|s.hi.appended|];
      forall i | 0 <= i < |s.hi.published|
        ensures s.hi.published[i].n < |s.hi.appended|
        ensures r.hi.appended[s.hi.published[i].n] == s.hi.appended[s.hi.published[i].n]
      {
      }
    }
  }

  lemma TakeOverInOrder(s: State, heartbeatDue: bool)
    requires MessagesInOrder(s) && s.lo.place == Collecting
    ensures MessagesInOrder(TakeOver(s, heartbeatDue))
  {
    var t := TakeOver(s, heartbeatDue);
    assert |t.lo.list| > 0 ==> t.lo.list[0] == Heartbeat || t.lo.list[0] == User(|s.hi.deleted|);
  }

  lemma DeleteInOrder(s: State)
    requires MessagesInOrder(s) && s.lo.at < |s.lo.list| && s.lo.place in {Dealing, Publishing}
    ensures MessagesInOrder(DeleteCurrent(s))
  {
    var d := |s.hi.deleted|;
    if s.lo.list[s.lo.at].User? {
      assert s.lo.list[s.lo.at] == User(d + s.lo.at - s.lo.at);
      assert Range(0, d + 1) == Range(0, d) + [d];
    }
  }

  lemma DealInOrder(s: State, declareOk: bool)
    requires MessagesInOrder(s) && s.lo.place == Dealing && s.lo.at < |s.lo.list|
    ensures MessagesInOrder(Deal(s, declareOk))
  {
    DeleteInOrder(s);
    var t := Deal(s, declareOk);
    if t.lo.place == Dealing {
      assert SameMessages(DeleteCurrent(s), t);
      OtherFieldsDoNotMatter(DeleteCurrent(s), t);
    }
  }

  /** One more publication, of a command all of whose non-empty predecessors are published. */
  lemma OneMorePublication(published: seq<Publication>, appended: seq<Message>, p: Publication)
    requires InOrder(published) && PrefixesOf(published, appended)
    requires forall i :: 0 <= i < |published| ==> Before(published[i], p)
    requires p.n < |appended| && p.c < |appended[p.n].commands| && appended[p.n].commands[p.c] != ""
    requires forall c :: 0 <= c < p.c && appended[p.n].commands[c] != "" ==> IsPublished(published, p.n, c)
    ensures InOrder(published + [p]) && PrefixesOf(published + [p], appended)
    ensures IsPublished(published + [p], p.n, p.c)
    ensures forall n, c :: IsPublished(published, n, c) ==> IsPublished(published + [p], n, c)
  {
    var all := published + [p];
    assert all[|published|] == p;
    forall n, c | IsPublished(published, n, c) ensures IsPublished(all, n, c) {
      var i :| 0 <= i < |published| && published[i].n == n && published[i].c == c;
      assert all[i] == published[i];
    }
  }

  /** The next command of the message in hand goes out. */
  lemma CommandInOrder(s: State)
    requires MessagesInOrder(s) && s.lo.place == Publishing && s.lo.command < |CurrentMessage(s).commands|
    requires CurrentMessage(s).commands[s.lo.command] != ""
    ensures MessagesInOrder(Publish(s, true))
  {
    hide InOrder, PrefixesOf, IsPublished;
    var t := Publish(s, true);
    var d := |s.hi.deleted|;
    if s.lo.list[s.lo.at].User? {
      assert s.lo.list[s.lo.at] == User(d + s.lo.at - s.lo.at);
      assert d < |s.hi.appended|;
      OneMorePublication(s.hi.published, s.hi.appended, t.hi.published[|s.hi.published|]);
    } else {
      assert t.hi.published == s.hi.published;
    }
  }

  lemma PublishInOrder(s: State, publishOk: bool)
    requires MessagesInOrder(s) && s.lo.place == Publishing
    ensures MessagesInOrder(Publish(s, publishOk))
  {
    hide InOrder, PrefixesOf, IsPublished, Range;
    DeleteInOrder(s);
    var t := Publish(s, publishOk);
    var m := CurrentMessage(s);
    if t.lo.place == Dealing {
      OtherFieldsDoNotMatter(DeleteCurrent(s), t);
    } else if m.commands[s.lo.command] == "" {
      CommandSkipped(s, publishOk);
    } else {
      CommandInOrder(s);
    }
  }

  lemma CommandSkipped(s: State, publishOk: bool)
    requires MessagesInOrder(s) && s.lo.place == Publishing && s.lo.command < |CurrentMessage(s).commands|
    requires CurrentMessage(s).commands[s.lo.command] == ""
    ensures MessagesInOrder(Publish(s, publishOk))
  {
    hide InOrder, PrefixesOf, IsPublished, Range;
    if s.lo.list[s.lo.at].User? {
      assert s.lo.list[s.lo.at] == User(|s.hi.deleted| + s.lo.at - s.lo.at);
    }
  }

  lemma ListDone(s: State)
    requires MessagesInOrder(s) && s.lo.place == Dealing && s.lo.at == |s.lo.list|
    ensures MessagesInOrder(s.(lo := s.lo.(place := AtWait, list := [], at := 0)))
  {
  }

  /** The steps that do not touch the messages. */
  lemma OtherStepsInOrder(s: State, a: Action)
    requires Enabled(s, a) && MessagesInOrder(s)
    requires !a.Push? && !a.Collect? && !a.DealNext? && !a.PublishNext?
    ensures MessagesInOrder(Step(s, a))
  {
    hide MessagesInOrder, PublishedSoFar, Deal, Publish, TakeOver, CurrentMessage;
    OtherFieldsDoNotMatter(s, Step(s, a));
  }

  lemma MessagesStayed(s: State, a: Action)
    requires Enabled(s, a) && MessagesInOrder(s)
    ensures MessagesInOrder(Step(s, a))
  {
    hide MessagesInOrder, PublishedSoFar, Deal, Publish, TakeOver;
    match a {
      case Push(t, m) => PushInOrder(s, t, m);
      case Collect(due) => TakeOverInOrder(s, due);
      case DealNext(ok) =>
        if s.lo.at < |s.lo.list| {
          DealInOrder(s, ok);
        } else {
          ListDone(s);
        }
      case PublishNext(ok) => PublishInOrder(s, ok);
      case _ => OtherStepsInOrder(s, a);
    }
  }

  // ---------- every run ----------

  ghost predicate Good(s: State)
  {
    ConnectionsSafe(s) && MessagesInOrder(s) && NoLostWakeUp(s)
  }

  /** Whatever the interleaving and whatever fails, a run keeps the three invariants. */
  lemma {:induction false} RunsStayGood(s: State, run: seq<Action>)
    requires Good(s) && Run(s, run).Some?
    ensures Good(Run(s, run).value)
    decreases |run|
  {
    hide ConnectionsSafe, MessagesInOrder, NoLostWakeUp, Step, Enabled;
    if run == [] {
    } else {
      ConnectionsStayed(s, run[0]);
      MessagesStayed(s, run[0]);
      WakeUpStayed(s, run[0]);
      RunsStayGood(Step(s, run[0]), run[1..]);
    }
  }

  lemma {:induction false} RunsCompose(s: State, a: seq<Action>, b: seq<Action>)
    ensures Run(s, a + b) == match Run(s, a) case None => None case Some(t) => Run(t, b)
    decreases |a|
  {
    hide Step, Enabled;
    if a == [] {
      assert a + b == b;
    } else {
      assert (a + b)[0] == a[0] && (a + b)[1..] == a[1..] + b;
      if Enabled(s, a[0]) {
        RunsCompose(Step(s, a[0]), a[1..], b);
      }
    }
  }

  /** The messages a run appends. */
  function Pushed(run: seq<Action>): seq<Message>
  {
    if run == [] then []
    else (if run[0].Push? then [run[0].m] else []) + Pushed(run[1..])
  }

  lemma StepAppends(s: State, a: Action)
    requires Enabled(s, a)
    ensures Step(s, a).hi.appended == s.hi.appended + if a.Push? then [a.m] else []
  {
  }

  lemma RunUnfolds(s: State, run: seq<Action>)
    requires run != [] && Run(s, run).Some?
    ensures Enabled(s, run[0]) && Run(s, run) == Run(Step(s, run[0]), run[1..])
    ensures Pushed(run) == (if run[0].Push? then [run[0].m] else []) + Pushed(run[1..])
  {
    hide Step, Enabled;
  }

  /** The numbering of messages is the order in which `send` appended them. */
  lemma {:induction false} AppendedArePushed(s: State, run: seq<Action>)
    requires Run(s, run).Some?
    ensures Run(s, run).value.hi.appended == s.hi.appended + Pushed(run)
    decreases |run|
  {
    hide Step, Enabled;
    if run == [] {
    } else {
      hide Run, Pushed;
      RunUnfolds(s, run);
      StepAppends(s, run[0]);
      AppendedArePushed(Step(s, run[0]), run[1..]);
    }
  }

  /** From the start: what reaches the broker is a subsequence of what was sent, each command at most
  once, each message up to a prefix of its non-empty commands; each message taken over is
  deleted exactly once, in order, and none is lost on the way. */
  lemma SentPublishedDeleted(semMax: nat, run: seq<Action>)
    requires semMax > 0 && Run(Initial(semMax), run).Some?
    ensures var s := Run(Initial(semMax), run).value;
            var sent := Pushed(run);
            && s.hi.appended == sent
            && InOrder(s.hi.published) && PrefixesOf(s.hi.published, sent)
            && s.hi.deleted == Range(0, |s.hi.deleted|)
            && |s.hi.deleted| + Held(s.lo) + |s.sh.list| == |sent|
            && (s.lo.place !in {Dealing, Publishing} ==> Held(s.lo) == 0 && s.hi.heartbeatsDeleted == s.hi.heartbeats)
  {
    hide ConnectionsSafe, NoLostWakeUp, InOrder, PrefixesOf, Range;
    InitiallyGood(semMax);
    RunsStayGood(Initial(semMax), run);
    AppendedArePushed(Initial(semMax), run);
  }

  lemma InitiallyGood(semMax: nat)
    requires semMax > 0
    ensures Good(Initial(semMax))
  {
  }

  /** A use or destruction of a handle that is null or was destroyed is recorded, and nothing else is. */
  lemma MisuseIsSeen(br: Broker, conn: Option<nat>, c: nat)
    ensures UseConn(br, conn).misused <==> br.misused || conn == None || conn.value !in br.live
    ensures Destroy(br, c).misused <==> br.misused || c !in br.live
    ensures Destroy(br, c).live == br.live - {c}
  {
  }

  /** At every step of every run: the handle in hand is live, and whatever declares, publishes or hangs up has one. */
  lemma HandlesAreLive(semMax: nat, run: seq<Action>, a: Action)
    requires semMax > 0 && Run(Initial(semMax), run).Some? && Enabled(Run(Initial(semMax), run).value, a)
    ensures var s := Run(Initial(semMax), run).value;
            && (s.lo.conn.Some? ==> s.lo.conn.value in s.br.live)
            && (a.PublishNext? || (a.DealNext? && s.lo.connected) ==> s.lo.conn.Some?)
  {
    hide MessagesInOrder, NoLostWakeUp;
    InitiallyGood(semMax);
    RunsStayGood(Initial(semMax), run);
  }

  /** The semaphore never counts above its maximum, and a post below the maximum counts. */
  lemma {:induction false} SemaphoreBounded(s: State, run: seq<Action>)
    requires s.sh.sem <= s.sh.semMax && Run(s, run).Some?
    ensures Run(s, run).value.sh.sem <= Run(s, run).value.sh.semMax == s.sh.semMax
    ensures PostSem(s.sh).sem > s.sh.sem <==> s.sh.sem < s.sh.semMax
    decreases |run|
  {
    if run != [] {
      var t := Step(s, run[0]);
      assert t.sh.sem <= t.sh.semMax == s.sh.semMax by { StepBounded(s, run[0]); }
      hide Step, Enabled;
      SemaphoreBounded(t, run[1..]);
    }
  }

  lemma StepBounded(s: State, a: Action)
    requires Enabled(s, a) && s.sh.sem <= s.sh.semMax
    ensures Step(s, a).sh.sem <= Step(s, a).sh.semMax == s.sh.semMax
  {
    hide Deal, Publish, TryConnect;
    match a {
      case DealNext(ok) => if s.lo.at < |s.lo.list| { DealKeepsShared(s, ok); }
      case PublishNext(ok) => PublishKeepsShared(s, ok);
      case Start(first) => AttemptKeepsShared(s, first);
      case Reconnect(_, attempt) => AttemptKeepsShared(s, attempt);
      case _ =>
    }
  }

  lemma DealKeepsShared(s: State, ok: bool)
    requires s.lo.at < |s.lo.list|
    ensures Deal(s, ok).sh == s.sh
  {
    hide CurrentMessage;
  }

  lemma PublishKeepsShared(s: State, ok: bool)
    requires s.lo.at < |s.lo.list|
    ensures Publish(s, ok).sh == s.sh
  {
    hide CurrentMessage, EverDeclared;
  }

  lemma AttemptKeepsShared(s: State, attempt: Attempt)
    ensures TryConnect(s, attempt).sh == s.sh
  {
  }

  /** From the start: no handle is used or destroyed when dead, every publish follows a declare of its
  exchange, and the retry interval grows by 5 with each failed retry in a row, from 5 up to 60. */
  lemma ConnectionsNeverMisused(semMax: nat, run: seq<Action>)
    requires semMax > 0 && Run(Initial(semMax), run).Some?
    ensures var s := Run(Initial(semMax), run).value;
            && !s.br.misused && !s.hi.undeclared
            && (s.lo.connected ==> s.lo.conn.Some? && s.lo.conn.value in s.br.live)
            && s.lo.interval == Backoff(s.hi.failedInARow) && 5 <= s.lo.interval <= 60 && s.lo.interval % 5 == 0
  {
    hide MessagesInOrder, NoLostWakeUp;
    InitiallyGood(semMax);
    RunsStayGood(Initial(semMax), run);
  }

  /** From the start: at the semaphore with messages listed, the wait can succeed, or some sender still has to post. */
  lemma WakeUpsNeverLost(semMax: nat, run: seq<Action>)
    requires semMax > 0 && Run(Initial(semMax), run).Some?
    ensures var s := Run(Initial(semMax), run).value;
            s.lo.place == AtWait && s.sh.list != [] ==>
              Enabled(s, WaitSucceeds) || exists t :: Enabled(s, Post(t))
  {
    hide MessagesInOrder, ConnectionsSafe;
    InitiallyGood(semMax);
    RunsStayGood(Initial(semMax), run);
    var s := Run(Initial(semMax), run).value;
    if s.lo.place == AtWait && s.sh.list != [] && s.sh.sem == 0 {
      var t :| t in s.sh.unposted;
      assert Enabled(s, Post(t));
    }
  }

  // ---------- nothing is dropped without a failure ----------

  /** A step at which the library reports no failure. */
  predicate Smooth(a: Action)
  {
    && (a.Start? ==> a.first == Opened)
    && (a.DealNext? ==> a.declareOk)
    && (a.PublishNext? ==> a.publishOk)
  }

  /** Once started the consumer is connected until it exits, and every message deleted so far that names
  an exchange had all its non-empty commands published. */
  ghost predicate AllPublished(s: State)
  {
    && (s.lo.place !in {Starting, Exited} ==> s.lo.connected)
    && forall n :: 0 <= n < |s.hi.deleted| && n < |s.hi.appended| && s.hi.appended[n].exchange != "" ==>
         PublishedUpTo(s.hi.published, s.hi.appended[n], n, |s.hi.appended[n].commands|)
  }

  lemma MorePublished(published: seq<Publication>, p: Publication)
    ensures forall n, c :: IsPublished(published, n, c) ==> IsPublished(published + [p], n, c)
    ensures forall m, n, command ::
              PublishedUpTo(published, m, n, command) ==> PublishedUpTo(published + [p], m, n, command)
  {
    forall n, c | IsPublished(published, n, c) ensures IsPublished(published + [p], n, c) {
      var i :| 0 <= i < |published| && published[i].n == n && published[i].c == c;
      assert (published + [p])[i] == published[i];
    }
  }

  lemma PublishLosesNothing(s: State)
    requires MessagesInOrder(s) && AllPublished(s) && s.lo.place == Publishing
    ensures AllPublished(Publish(s, true))
  {
    hide InOrder, PrefixesOf, IsPublished, Range;
    var t := Publish(s, true);
    if s.lo.list[s.lo.at].User? {
      assert s.lo.list[s.lo.at] == User(|s.hi.deleted| + s.lo.at - s.lo.at);
      assert PublishedUpTo(s.hi.published, CurrentMessage(s), |s.hi.deleted|, s.lo.command);
      if |t.hi.published| > |s.hi.published| {
        MorePublished(s.hi.published, t.hi.published[|s.hi.published|]);
      }
    } else {
      assert t.hi.published == s.hi.published;
    }
  }

  lemma DealLosesNothing(s: State)
    requires MessagesInOrder(s) && AllPublished(s) && s.lo.place == Dealing && s.lo.at < |s.lo.list|
    ensures AllPublished(Deal(s, true))
  {
    hide InOrder, PrefixesOf, IsPublished, PublishedUpTo, Range;
    if s.lo.list[s.lo.at].User? {
      assert s.lo.list[s.lo.at] == User(|s.hi.deleted| + s.lo.at - s.lo.at);
    }
  }

  lemma SmoothStepLosesNothing(s: State, a: Action)
    requires Enabled(s, a) && Smooth(a) && MessagesInOrder(s) && AllPublished(s)
    ensures AllPublished(Step(s, a))
  {
    hide PublishedUpTo, Publish, Deal, InOrder, PrefixesOf, PublishedSoFar, Range, ListFrom;
    if a.DealNext? && s.lo.at < |s.lo.list| {
      DealLosesNothing(s);
    } else if a.PublishNext? {
      PublishLosesNothing(s);
    } else {
      assert forall n :: 0 <= n < |s.hi.deleted| ==> Step(s, a).hi.appended[n] == s.hi.appended[n];
    }
  }

  /** A run of such steps keeps that. */
  lemma {:induction false} SmoothRunsLoseNothing(s: State, run: seq<Action>)
    requires Good(s) && AllPublished(s) && Run(s, run).Some?
    requires forall i :: 0 <= i < |run| ==> Smooth(run[i])
    ensures AllPublished(Run(s, run).value)
    decreases |run|
  {
    hide ConnectionsSafe, MessagesInOrder, NoLostWakeUp, AllPublished, Smooth, Step, Enabled;
    if run == [] {
    } else {
      ConnectionsStayed(s, run[0]);
      MessagesStayed(s, run[0]);
      WakeUpStayed(s, run[0]);
      SmoothStepLosesNothing(s, run[0]);
      SmoothRunsLoseNothing(Step(s, run[0]), run[1..]);
    }
  }

  /** From the start: when the library reports no failure, every message deleted that names an exchange
  has reached the broker whole. */
  lemma NothingDroppedWithoutFailure(semMax: nat, run: seq<Action>)
    requires semMax > 0 && Run(Initial(semMax), run).Some?
    requires forall i :: 0 <= i < |run| ==> Smooth(run[i])
    ensures var s := Run(Initial(semMax), run).value;
            var sent := Pushed(run);
            forall n :: 0 <= n < |s.hi.deleted| ==>
              n < |sent| && (sent[n].exchange != "" ==> PublishedUpTo(s.hi.published, sent[n], n, |sent[n].commands|))
  {
    hide Smooth, PublishedUpTo, Run, Pushed;
    InitiallyGood(semMax);
    SmoothRunsLoseNothing(Initial(semMax), run);
    SentPublishedDeleted(semMax, run);
  }

  // ---------- connections left behind ----------

  /** The step tries to connect while a handle is still held: the channel had not opened, the old
  connection is overwritten and never destroyed. */
  predicate Overwrites(s: State, a: Action)
  {
    s.lo.conn.Some? && (a.Start? || (a.Reconnect? && a.due && !s.lo.connected))
  }

  ghost function Overwritten(s: State, run: seq<Action>): nat
    requires Run(s, run).Some?
    decreases |run|
  {
    if run == [] then 0
    else (if Overwrites(s, run[0]) then 1 else 0) + Overwritten(Step(s, run[0]), run[1..])
  }

  function LeftBehind(s: State): int
  {
    |s.br.live| - if s.lo.conn.Some? then 1 else 0
  }

  lemma AttemptLeavesBehind(s: State, attempt: Attempt)
    requires ConnectionsSafe(s)
    ensures LeftBehind(TryConnect(s, attempt)) == |s.br.live|
  {
    var c := s.br.next;
    assert c !in s.br.live;
    assert s.br.live + {c} - {c} == s.br.live;
  }

  lemma DisconnectLeavesBehind(s: State)
    requires ConnectionsSafe(s)
    ensures LeftBehind(Disconnect(s)) == LeftBehind(s)
  {
  }

  lemma StepLeavesBehind(s: State, a: Action)
    requires Enabled(s, a) && ConnectionsSafe(s)
    ensures LeftBehind(Step(s, a)) == LeftBehind(s) + if Overwrites(s, a) then 1 else 0
  {
    hide CurrentMessage, EverDeclared, TryConnect, Disconnect;
    DisconnectLeavesBehind(s);
    match a {
      case Start(first) => AttemptLeavesBehind(s, first);
      case Reconnect(due, attempt) => AttemptLeavesBehind(s, attempt);
      case DealNext(ok) =>
        if s.lo.at < |s.lo.list| && s.lo.connected {
          assert UseConn(s.br, s.lo.conn) == s.br;
        }
      case PublishNext(ok) => assert UseConn(s.br, s.lo.conn) == s.br;
      case _ =>
    }
  }

  lemma {:induction false} RunLeavesBehind(s: State, run: seq<Action>)
    requires Good(s) && Run(s, run).Some?
    ensures LeftBehind(Run(s, run).value) == LeftBehind(s) + Overwritten(s, run)
    decreases |run|
  {
    hide ConnectionsSafe, MessagesInOrder, NoLostWakeUp, Step, Enabled, LeftBehind, Overwrites;
    if run == [] {
    } else {
      RunsStayGood(s, run[..1]);
      StepLeavesBehind(s, run[0]);
      RunLeavesBehind(Step(s, run[0]), run[1..]);
    }
  }

  /** From the start to the exit: every connection made has been destroyed if and only if no attempt to
  connect overwrote one, and the number left open is the number of such attempts. */
  lemma ConnectionsClosedAtExit(semMax: nat, run: seq<Action>)
    requires semMax > 0 && Run(Initial(semMax), run).Some? && Run(Initial(semMax), run).value.lo.place == Exited
    ensures var live := Run(Initial(semMax), run).value.br.live;
            |live| == Overwritten(Initial(semMax), run) && (live == {} <==> Overwritten(Initial(semMax), run) == 0)
  {
    hide MessagesInOrder, NoLostWakeUp, Run, Overwritten;
    InitiallyGood(semMax);
    RunsStayGood(Initial(semMax), run);
    RunLeavesBehind(Initial(semMax), run);
  }

  // ---------- heartbeats ----------

  /** A heartbeat is one command to an exchange of its own: connected, it is declared, published and deleted like a
  message, and is none. */
  lemma HeartbeatGoesOut(s: State)
    requires s.lo.place == Dealing && s.lo.list == [Heartbeat] && s.lo.at == 0
    requires s.lo.connected && s.lo.conn.Some? && "sdn.agent.heartbeat" !in s.lo.exchangeMap
    ensures CurrentMessage(s) == Message("sdn.agent.heartbeat", ["heartbeat.agent"])
    ensures var r := Run(s, [DealNext(true), PublishNext(true), PublishNext(true), DealNext(true)]);
            && r.Some? && r.value.lo.place == AtWait && r.value.lo.list == [] && r.value.lo.connected
            && r.value.lo.exchangeMap == s.lo.exchangeMap + {"sdn.agent.heartbeat"}
            && r.value.hi.declared == s.hi.declared + {(s.lo.conn.value, "sdn.agent.heartbeat")}
            && r.value.hi.heartbeatsDeleted == s.hi.heartbeatsDeleted + 1
            && r.value.hi.published == s.hi.published && r.value.hi.deleted == s.hi.deleted
  {
    hide EverDeclared, Run;
    var t1 := Step(s, DealNext(true));
    var t2 := Step(t1, PublishNext(true));
    var t3 := Step(t2, PublishNext(true));
    var t4 := Step(t3, DealNext(true));
    RunsFour(s, t1, t2, t3, t4);
  }

  lemma RunsFour(s: State, t1: State, t2: State, t3: State, t4: State)
    requires Enabled(s, DealNext(true)) && Step(s, DealNext(true)) == t1
    requires Enabled(t1, PublishNext(true)) && Step(t1, PublishNext(true)) == t2
    requires Enabled(t2, PublishNext(true)) && Step(t2, PublishNext(true)) == t3
    requires Enabled(t3, DealNext(true)) && Step(t3, DealNext(true)) == t4
    ensures Run(s, [DealNext(true), PublishNext(true), PublishNext(true), DealNext(true)]) == Some(t4)
  {
    hide Step, Enabled;
    var a, b := DealNext(true), PublishNext(true);
    assert [a, b, b, a][1..] == [b, b, a] && [b, b, a][1..] == [b, a] && [b, a][1..] == [a] && [a][1..] == [];
    assert Run(t3, [a]) == Some(t4);
    assert Run(t2, [b, a]) == Some(t4);
    assert Run(t1, [b, b, a]) == Some(t4);
  }
}
