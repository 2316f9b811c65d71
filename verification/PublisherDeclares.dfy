/** On which connection exchanges are declared, and messages published: the map of declared exchanges outlives
the connection it was filled on. */
module PublisherDeclares {
  import opened Publisher
  import opened Wrappers

  // ---------- the connection an exchange was declared on ----------

  /** Declared on the given connection or on an earlier one. */
  ghost predicate DeclaredBy(declared: set<(nat, string)>, exchange: string, conn: nat)
  {
    exists c :: (c, exchange) in declared && c <= conn
  }

  ghost predicate PublishedAfterDeclare(h: History)
  {
    forall i :: 0 <= i < |h.published| ==>
      var p := h.published[i]; p.n < |h.appended| && DeclaredBy(h.declared, h.appended[p.n].exchange, p.conn)
  }

  /** The handle in hand is the latest made; an exchange is declared at most once, and what was declared is in the
  map; every publication went out on the connection its exchange was declared on or on a later one. */
  ghost predicate DeclaredOnce(s: State)
  {
    && (s.lo.conn.Some? ==> s.lo.conn.value + 1 == s.br.next)
    && (forall c, e :: (c, e) in s.hi.declared ==> c < s.br.next && e in s.lo.exchangeMap)
    && (forall c, d, e :: (c, e) in s.hi.declared && (d, e) in s.hi.declared ==> c == d)
    && PublishedAfterDeclare(s.hi)
    && forall i :: 0 <= i < |s.hi.published| ==> s.hi.published[i].conn < s.br.next
  }

  /** Neither new messages nor new declarations undo it. */
  lemma DeclareLasts(h: History, k: History)
    requires PublishedAfterDeclare(h) && k.published == h.published
    requires h.appended <= k.appended && h.declared <= k.declared
    ensures PublishedAfterDeclare(k)
  {
    forall i | 0 <= i < |k.published|
      ensures var p := k.published[i]; p.n < |k.appended| && DeclaredBy(k.declared, k.appended[p.n].exchange, p.conn)
    {
      var p := h.published[i];
      assert k.appended[p.n] == h.appended[p.n];
      var c :| (c, h.appended[p.n].exchange) in h.declared && c <= p.conn;
      assert (c, k.appended[p.n].exchange) in k.declared;
    }
  }

  lemma StepKeepsHistory(s: State, a: Action)
    requires Enabled(s, a)
    ensures s.hi.appended <= Step(s, a).hi.appended && s.hi.declared <= Step(s, a).hi.declared
    ensures s.hi.published <= Step(s, a).hi.published
  {
    hide EverDeclared, CurrentMessage;
  }

  lemma PublishDeclaredOnce(s: State, publishOk: bool)
    requires MessagesInOrder(s) && ConnectionsSafe(s) && DeclaredOnce(s) && s.lo.place == Publishing
    ensures DeclaredOnce(Publish(s, publishOk))
  {
    hide InOrder, PrefixesOf, PublishedSoFar, Range, NoLostWakeUp;
    var t := Publish(s, publishOk);
    if |t.hi.published| > |s.hi.published| {
      assert s.lo.list[s.lo.at] == User(|s.hi.deleted| + s.lo.at - s.lo.at);
      var e := CurrentMessage(s).exchange;
      assert EverDeclared(s.hi.declared, e);
      var c :| (c, e) in s.hi.declared;
      assert DeclaredBy(t.hi.declared, e, s.lo.conn.value);
    } else {
      assert t.hi.published == s.hi.published;
      DeclareLasts(s.hi, t.hi);
    }
  }

  lemma DealDeclaredOnce(s: State, declareOk: bool)
    requires ConnectionsSafe(s) && DeclaredOnce(s) && s.lo.at < |s.lo.list|
    ensures DeclaredOnce(Deal(s, declareOk))
  {
    hide PublishedAfterDeclare, EverDeclared, CurrentMessage;
    DeclareLasts(s.hi, Deal(s, declareOk).hi);
  }

  lemma OtherStepsDeclaredOnce(s: State, a: Action)
    requires Enabled(s, a) && ConnectionsSafe(s) && DeclaredOnce(s) && !a.DealNext? && !a.PublishNext?
    ensures DeclaredOnce(Step(s, a))
  {
    hide PublishedAfterDeclare, EverDeclared, CurrentMessage, TakeOver, Deal, Publish;
    StepKeepsHistory(s, a);
    assert Step(s, a).hi.published == s.hi.published by { OthersPublishNothing(s, a); }
    DeclareLasts(s.hi, Step(s, a).hi);
    if a.Collect? { TakeOverDeclaredOnce(s, a.heartbeatDue); }
  }

  lemma OthersPublishNothing(s: State, a: Action)
    requires Enabled(s, a) && !a.DealNext? && !a.PublishNext?
    ensures Step(s, a).hi.published == s.hi.published && Step(s, a).hi.declared == s.hi.declared
  {
    hide Deal, Publish;
  }

  lemma TakeOverDeclaredOnce(s: State, heartbeatDue: bool)
    requires DeclaredOnce(s)
    ensures DeclaredOnce(TakeOver(s, heartbeatDue))
  {
    DeclareLasts(s.hi, TakeOver(s, heartbeatDue).hi);
  }

  lemma {:induction false} RunsDeclareOnce(s: State, run: seq<Action>)
    requires Good(s) && DeclaredOnce(s) && Run(s, run).Some?
    ensures DeclaredOnce(Run(s, run).value)
    decreases |run|
  {
    hide ConnectionsSafe, MessagesInOrder, NoLostWakeUp, DeclaredOnce, Deal, Publish;
    if run != [] {
      var a := run[0];
      ConnectionsStayed(s, a);
      MessagesStayed(s, a);
      WakeUpStayed(s, a);
      if a.PublishNext? {
        PublishDeclaredOnce(s, a.publishOk);
      } else if a.DealNext? && s.lo.at < |s.lo.list| {
        DealDeclaredOnce(s, a.declareOk);
      } else if a.DealNext? {
        ListDoneDeclaredOnce(s);
      } else {
        OtherStepsDeclaredOnce(s, a);
      }
      RunsDeclareOnce(Step(s, a), run[1..]);
    }
  }

  lemma ListDoneDeclaredOnce(s: State)
    requires DeclaredOnce(s)
    ensures DeclaredOnce(s.(lo := s.lo.(place := AtWait, list := [], at := 0)))
  {
  }

  // ---------- the steps of a run ----------

  /** The state before the j-th step of a run. */
  ghost function At(s: State, run: seq<Action>, j: nat): State
    requires Run(s, run).Some? && j <= |run|
    decreases j
  {
    if j == 0 then s else At(Step(s, run[0]), run[1..], j - 1)
  }

  /** The step makes a connection, whether or not it keeps it. */
  predicate Connects(s: State, a: Action)
  {
    || (a.Start? && a.first != NoConnection)
    || (a.Reconnect? && !s.lo.connected && a.due && a.attempt != NoConnection)
  }

  /** How many connections the steps from one to another make. */
  ghost function Connections(s: State, run: seq<Action>, from: nat, until: nat): nat
    requires Run(s, run).Some? && from <= until <= |run|
    decreases until
  {
    if from == until then 0
    else Connections(s, run, from, until - 1) + if Connects(At(s, run, until - 1), run[until - 1]) then 1 else 0
  }

  /** The step declares the exchange on the connection. */
  predicate Declares(s: State, a: Action, exchange: string, conn: nat)
  {
    && a == DealNext(true) && s.lo.at < |s.lo.list| && s.lo.connected && s.lo.conn == Some(conn)
    && CurrentMessage(s).exchange == exchange != "" && exchange !in s.lo.exchangeMap
  }

  /** The step adds the publication to those before it. */
  ghost predicate Publishes(s: State, a: Action, p: Publication)
  {
    a == PublishNext(true) && Enabled(s, a) && Step(s, a).hi.published == s.hi.published + [p]
  }

  lemma {:induction false} AtReached(s: State, run: seq<Action>, j: nat)
    requires Run(s, run).Some? && j <= |run|
    ensures Run(s, run[..j]) == Some(At(s, run, j))
    ensures j == |run| ==> At(s, run, j) == Run(s, run).value
    decreases j
  {
    hide Step, Enabled;
    if j > 0 {
      AtReached(Step(s, run[0]), run[1..], j - 1);
      assert run[..j][1..] == run[1..][..j - 1];
    }
  }

  lemma {:induction false} AtNext(s: State, run: seq<Action>, j: nat)
    requires Run(s, run).Some? && j < |run|
    ensures Enabled(At(s, run, j), run[j]) && At(s, run, j + 1) == Step(At(s, run, j), run[j])
    decreases j
  {
    hide Step, Enabled;
    if j > 0 {
      AtNext(Step(s, run[0]), run[1..], j - 1);
    }
  }

  /** All along a run from the start the invariants hold. */
  lemma AtSafe(semMax: nat, run: seq<Action>, j: nat)
    requires semMax > 0 && Run(Initial(semMax), run).Some? && j <= |run|
    ensures Good(At(Initial(semMax), run, j)) && DeclaredOnce(At(Initial(semMax), run, j))
  {
    hide Good, DeclaredOnce, At, Run;
    InitiallyGood(semMax);
    assert DeclaredOnce(Initial(semMax)) by { NothingDeclared(semMax); }
    AtReached(Initial(semMax), run, j);
    RunsStayGood(Initial(semMax), run[..j]);
    RunsDeclareOnce(Initial(semMax), run[..j]);
  }

  lemma NothingDeclared(semMax: nat)
    ensures DeclaredOnce(Initial(semMax))
  {
  }

  lemma StepCounts(s: State, a: Action)
    requires Enabled(s, a)
    ensures Step(s, a).br.next == s.br.next + if Connects(s, a) then 1 else 0
  {
    hide CurrentMessage, EverDeclared;
  }

  /** Connections are numbered as they are made. */
  lemma {:induction false} ConnectionsCounted(s: State, run: seq<Action>, from: nat, until: nat)
    requires Run(s, run).Some? && from <= until <= |run|
    ensures At(s, run, until).br.next == At(s, run, from).br.next + Connections(s, run, from, until)
    decreases until
  {
    hide At, Run, Step, Enabled, Connects;
    if from < until {
      ConnectionsCounted(s, run, from, until - 1);
      AtNext(s, run, until - 1);
      StepCounts(At(s, run, until - 1), run[until - 1]);
    }
  }

  lemma {:induction false} HistoryGrows(s: State, run: seq<Action>, from: nat, until: nat)
    requires Run(s, run).Some? && from <= until <= |run|
    ensures var h, k := At(s, run, from).hi, At(s, run, until).hi;
            h.appended <= k.appended && h.published <= k.published && h.declared <= k.declared
    decreases until
  {
    hide At, Run, Step, Enabled;
    if from < until {
      HistoryGrows(s, run, from, until - 1);
      AtNext(s, run, until - 1);
      StepKeepsHistory(At(s, run, until - 1), run[until - 1]);
    }
  }

  /** The step after which there are more than i publications. */
  lemma {:induction false} FindPublish(s: State, run: seq<Action>, i: nat, until: nat) returns (k: nat)
    requires Run(s, run).Some? && until <= |run| && |s.hi.published| <= i < |At(s, run, until).hi.published|
    ensures k < until && |At(s, run, k).hi.published| <= i < |At(s, run, k + 1).hi.published|
    decreases until
  {
    hide Run, Step, Enabled;
    k := until - 1;
    if |At(s, run, k).hi.published| > i {
      k := FindPublish(s, run, i, k);
    }
  }

  /** The step that put an exchange among the declared ones. */
  lemma {:induction false} FindDeclare(s: State, run: seq<Action>, entry: (nat, string), until: nat) returns (d: nat)
    requires Run(s, run).Some? && until <= |run| && entry !in s.hi.declared && entry in At(s, run, until).hi.declared
    ensures d < until && entry !in At(s, run, d).hi.declared && entry in At(s, run, d + 1).hi.declared
    decreases until
  {
    hide Run, Step, Enabled;
    d := until - 1;
    if entry in At(s, run, d).hi.declared {
      d := FindDeclare(s, run, entry, d);
    }
  }

  lemma StepPublishes(s: State, a: Action)
    requires Enabled(s, a) && Good(s) && DeclaredOnce(s) && |Step(s, a).hi.published| > |s.hi.published|
    ensures |Step(s, a).hi.published| == |s.hi.published| + 1
    ensures var p := Step(s, a).hi.published[|s.hi.published|];
            && Publishes(s, a, p) && !Connects(s, a) && p.conn + 1 == s.br.next
            && p.n < |s.hi.appended| && EverDeclared(s.hi.declared, s.hi.appended[p.n].exchange)
  {
    hide InOrder, PrefixesOf, PublishedSoFar, Range, NoLostWakeUp, PublishedAfterDeclare, Deal;
    if a.PublishNext? {
      assert s.lo.list[s.lo.at].User? ==> s.lo.list[s.lo.at] == User(|s.hi.deleted| + s.lo.at - s.lo.at);
    } else if a.DealNext? {
      DealPublishesNothing(s, a.declareOk);
    } else {
      OthersPublishNothing(s, a);
    }
  }

  lemma DealPublishesNothing(s: State, declareOk: bool)
    requires Enabled(s, DealNext(declareOk))
    ensures Step(s, DealNext(declareOk)).hi.published == s.hi.published
  {
    hide CurrentMessage;
  }

  lemma StepDeclares(s: State, a: Action, entry: (nat, string))
    requires Enabled(s, a) && Good(s) && DeclaredOnce(s)
    requires entry !in s.hi.declared && entry in Step(s, a).hi.declared
    ensures Declares(s, a, entry.1, entry.0) && entry.0 + 1 == s.br.next && !Connects(s, a)
  {
    hide MessagesInOrder, NoLostWakeUp, PublishedAfterDeclare, CurrentMessage, Publish;
    if a.PublishNext? {
      PublishDeclaresNothing(s, a.publishOk);
    } else if !a.DealNext? {
      OthersPublishNothing(s, a);
    }
  }

  lemma PublishDeclaresNothing(s: State, publishOk: bool)
    requires Enabled(s, PublishNext(publishOk))
    ensures Step(s, PublishNext(publishOk)).hi.declared == s.hi.declared
  {
    hide CurrentMessage, EverDeclared;
  }

  lemma DeclaringDeclares(s: State, a: Action, exchange: string, conn: nat)
    requires Enabled(s, a) && Declares(s, a, exchange, conn)
    ensures (conn, exchange) in Step(s, a).hi.declared
  {
    hide CurrentMessage;
  }

  /** Only one step ever declares an exchange. */
  lemma OnlyOneDeclares(semMax: nat, run: seq<Action>, d: nat, j: nat, entry: (nat, string), c: nat)
    requires semMax > 0 && Run(Initial(semMax), run).Some? && d < |run| && j < |run|
    requires var s0 := Initial(semMax);
             && entry !in At(s0, run, d).hi.declared && entry in At(s0, run, d + 1).hi.declared
             && Declares(At(s0, run, j), run[j], entry.1, c)
    ensures j == d
  {
    hide Run, Step, Enabled, At, Good, PublishedAfterDeclare, CurrentMessage;
    var s0 := Initial(semMax);
    AtNext(s0, run, j);
    DeclaringDeclares(At(s0, run, j), run[j], entry.1, c);
    if d < j {
      HistoryGrows(s0, run, d + 1, j);
      AtSafe(semMax, run, j);
    } else if j < d {
      HistoryGrows(s0, run, j + 1, d);
      HistoryGrows(s0, run, d, d + 1);
      AtSafe(semMax, run, d + 1);
    }
  }

  /** The step that made the i-th publication. */
  lemma PublishingStep(semMax: nat, run: seq<Action>, i: nat) returns (k: nat)
    requires semMax > 0 && Run(Initial(semMax), run).Some? && i < |Run(Initial(semMax), run).value.hi.published|
    ensures k < |run|
    ensures var s, p := At(Initial(semMax), run, k), Run(Initial(semMax), run).value.hi.published[i];
            && |s.hi.published| == i && Publishes(s, run[k], p) && p.conn + 1 == s.br.next
            && p.n < |s.hi.appended| && EverDeclared(s.hi.declared, s.hi.appended[p.n].exchange)
  {
    hide Run, Step, Enabled, At, Good, DeclaredOnce, Publishes, EverDeclared, Connects;
    var s0, n := Initial(semMax), |run|;
    AtReached(s0, run, n);
    k := FindPublish(s0, run, i, n);
    AtSafe(semMax, run, k);
    AtNext(s0, run, k);
    StepPublishes(At(s0, run, k), run[k]);
    HistoryGrows(s0, run, k + 1, n);
  }

  /** The one step that declared an exchange. */
  lemma DeclaringStep(semMax: nat, run: seq<Action>, k: nat, exchange: string) returns (conn: nat, d: nat)
    requires semMax > 0 && Run(Initial(semMax), run).Some? && k <= |run|
    requires EverDeclared(At(Initial(semMax), run, k).hi.declared, exchange)
    ensures d < k
    ensures var s0 := Initial(semMax);
            && Declares(At(s0, run, d), run[d], exchange, conn) && conn + 1 == At(s0, run, d).br.next
            && (forall j, c :: 0 <= j < |run| && Declares(At(s0, run, j), run[j], exchange, c) ==> j == d)
            && forall c :: (c, exchange) in Run(s0, run).value.hi.declared <==> c == conn
  {
    hide Run, Step, Enabled, At, Good, Declares, Connects, PublishedAfterDeclare;
    var s0, n := Initial(semMax), |run|;
    conn :| (conn, exchange) in At(s0, run, k).hi.declared;
    d := FindDeclare(s0, run, (conn, exchange), k);
    AtNext(s0, run, d);
    AtSafe(semMax, run, d);
    StepDeclares(At(s0, run, d), run[d], (conn, exchange));
    forall j, c | 0 <= j < |run| && Declares(At(s0, run, j), run[j], exchange, c) ensures j == d {
      OnlyOneDeclares(semMax, run, d, j, (conn, exchange), c);
    }
    HistoryGrows(s0, run, k, n);
    AtReached(s0, run, n);
    AtSafe(semMax, run, n);
  }

  /** From the start: the exchange of every publication was declared on exactly one connection ever, by exactly one
  step before the one that published, and the publication went out on that connection exactly when no step between
  the two made a connection. */
  lemma DeclaredOnExactlyOne(semMax: nat, run: seq<Action>, i: nat) returns (conn: nat, d: nat, k: nat)
    requires semMax > 0 && Run(Initial(semMax), run).Some? && i < |Run(Initial(semMax), run).value.hi.published|
    ensures var s0, s := Initial(semMax), Run(Initial(semMax), run).value;
            var p := s.hi.published[i];
            && p.n < |Pushed(run)|
            && var exchange := Pushed(run)[p.n].exchange;
               && conn <= p.conn < s.br.next
               && (forall c :: (c, exchange) in s.hi.declared <==> c == conn)
               && d < k < |run|
               && Declares(At(s0, run, d), run[d], exchange, conn)
               && (forall j, c :: 0 <= j < |run| && Declares(At(s0, run, j), run[j], exchange, c) ==> j == d)
               && |At(s0, run, k).hi.published| == i && Publishes(At(s0, run, k), run[k], p)
               && (p.conn == conn <==> Connections(s0, run, d, k) == 0)
  {
    hide Good, At, Run, Step, Enabled, Declares, Publishes, DeclaredOnce, Connects;
    var s0, s := Initial(semMax), Run(Initial(semMax), run).value;
    var p := s.hi.published[i];
    AppendedArePushed(s0, run);
    AtReached(s0, run, |run|);
    AtReached(s0, run, 0);
    k := PublishingStep(semMax, run, i);
    HistoryGrows(s0, run, k, |run|);
    conn, d := DeclaringStep(semMax, run, k, Pushed(run)[p.n].exchange);
    ConnectionsCounted(s0, run, d, k);
    ConnectionsCounted(s0, run, k, |run|);
  }

  // ---------- connections whose channel opened ----------

  /** The step's attempt to connect succeeds, channel and all. */
  predicate Opens(s: State, a: Action)
  {
    a == Start(Opened) || (a == Reconnect(true, Opened) && !s.lo.connected)
  }

  lemma StepConnected(s: State, a: Action)
    requires Enabled(s, a) && Step(s, a).lo.connected && (s.lo.place == Starting ==> !s.lo.connected)
    ensures (Opens(s, a) && Step(s, a).lo.conn == Some(s.br.next))
            || (s.lo.connected && Step(s, a).lo.conn == s.lo.conn)
  {
    hide CurrentMessage, EverDeclared;
  }

  /** While connected, the handle in hand is the one made by a step whose attempt succeeded. */
  lemma {:induction false} ConnectedWasOpened(semMax: nat, run: seq<Action>, j: nat) returns (k: nat)
    requires semMax > 0 && Run(Initial(semMax), run).Some? && j <= |run| && At(Initial(semMax), run, j).lo.connected
    ensures var s := Initial(semMax);
            k < j && Opens(At(s, run, k), run[k]) && At(s, run, j).lo.conn == Some(At(s, run, k).br.next)
    decreases j
  {
    hide Run, Step, Enabled, Opens, MessagesInOrder, NoLostWakeUp, DeclaredOnce;
    var s := Initial(semMax);
    assert At(s, run, 0) == s;
    k := j - 1;
    AtNext(s, run, k);
    AtSafe(semMax, run, k);
    StepConnected(At(s, run, k), run[k]);
    if !(Opens(At(s, run, k), run[k]) && At(s, run, j).lo.conn == Some(At(s, run, k).br.next)) {
      k := ConnectedWasOpened(semMax, run, k);
    }
  }

  /** From the start: every publication went out on a connection that an earlier step made, its channel open. */
  lemma PublishedOnOpened(semMax: nat, run: seq<Action>, i: nat) returns (j: nat, k: nat)
    requires semMax > 0 && Run(Initial(semMax), run).Some? && i < |Run(Initial(semMax), run).value.hi.published|
    ensures var s0, p := Initial(semMax), Run(Initial(semMax), run).value.hi.published[i];
            && j < k < |run| && Publishes(At(s0, run, k), run[k], p)
            && Opens(At(s0, run, j), run[j]) && At(s0, run, j).br.next == p.conn
  {
    hide At, Run, Step, MessagesInOrder, NoLostWakeUp, Publishes, Opens;
    var s0 := Initial(semMax);
    k := PublishingStep(semMax, run, i);
    AtSafe(semMax, run, k);
    AtNext(s0, run, k);
    assert At(s0, run, k).lo.place == Publishing by { PublishesWhere(s0, run, k, Run(s0, run).value.hi.published[i]); }
    j := ConnectedWasOpened(semMax, run, k);
  }

  lemma PublishesWhere(s: State, run: seq<Action>, k: nat, p: Publication)
    requires Run(s, run).Some? && k < |run| && Publishes(At(s, run, k), run[k], p)
    ensures At(s, run, k).lo.place == Publishing
  {
    hide Step;
  }

  // ---------- the end of the thread ----------

  predicate StoppedBy(run: seq<Action>, k: nat)
    requires k <= |run|
  {
    exists j :: 0 <= j < k && run[j] == ClearFlag
  }

  lemma {:induction false} FlagFollowsStop(s: State, run: seq<Action>, k: nat)
    requires Run(s, run).Some? && k <= |run|
    ensures At(s, run, k).sh.keepRunning <==> s.sh.keepRunning && !StoppedBy(run, k)
    decreases k
  {
    hide Run, Step, Enabled;
    if k > 0 {
      FlagFollowsStop(s, run, k - 1);
      AtNext(s, run, k - 1);
      StepFlag(At(s, run, k - 1), run[k - 1]);
    }
  }

  lemma StepFlag(s: State, a: Action)
    requires Enabled(s, a)
    ensures Step(s, a).sh.keepRunning <==> s.sh.keepRunning && a != ClearFlag
    ensures a == ReadExitFlag ==> Step(s, a).lo.place == if s.sh.keepRunning then Checking else Leaving
  {
    hide CurrentMessage, EverDeclared;
  }

  /** From the start: when the thread reads the flag after a wait, it leaves its loop if and only if it has been told to
  stop by then, and goes on otherwise. */
  lemma StopEndsThread(semMax: nat, run: seq<Action>, k: nat)
    requires Run(Initial(semMax), run).Some? && k < |run| && run[k] == ReadExitFlag
    ensures At(Initial(semMax), run, k + 1).lo.place == if StoppedBy(run, k) then Leaving else Checking
  {
    hide At, Run, Step, Enabled, StoppedBy;
    AtNext(Initial(semMax), run, k);
    FlagFollowsStop(Initial(semMax), run, k);
    StepFlag(At(Initial(semMax), run, k), run[k]);
  }

  // ---------- a publication on a connection its exchange was not declared on ----------

  const FIRST := Message("e", ["x"])

  /** A message is sent and wakes the consumer. */
  const WAKE := [Push(0, FIRST), Post(0), WaitSucceeds, ReadExitFlag]

  /** It is taken over, its exchange is declared, then the publish fails. */
  const FAIL := [Reconnect(false, NoConnection), Collect(false), DealNext(true), PublishNext(false), DealNext(true)]

  /** After a reconnect the map still holds the exchange, so the message is published undeclared. */
  const SUCCEED := [Reconnect(true, Opened), Collect(false), DealNext(true), PublishNext(true)]

  /** The run passes through the given states. */
  ghost predicate Through(states: seq<State>, run: seq<Action>)
  {
    && |states| == |run| + 1
    && forall i :: 0 <= i < |run| ==> Enabled(states[i], run[i]) && Step(states[i], run[i]) == states[i + 1]
  }

  lemma {:induction false} ThroughRuns(states: seq<State>, run: seq<Action>)
    requires Through(states, run)
    ensures Run(states[0], run) == Some(states[|run|])
    decreases |run|
  {
    hide Step, Enabled;
    if run != [] {
      ThroughRuns(states[1..], run[1..]);
    }
  }

  const QUIET := Shared([], 0, 1, {}, true)

  /** Just connected for the first time. */
  function Fresh(): State
  {
    State(QUIET, Local(AtWait, [], 0, 0, true, Some(0), {}, 5), Broker(1, {0}, false),
          History([], [], [], 0, 0, {}, false, 0))
  }

  /** The first message lost with its connection, the exchange still in the map. */
  function Lost(): State
  {
    State(QUIET, Local(AtWait, [], 0, 0, false, None, {"e"}, 5), Broker(1, {}, false),
          History([FIRST], [], [0], 0, 0, {(0, "e")}, false, 0))
  }

  /** The second one published on the second connection. */
  function Stale(): State
  {
    State(QUIET, Local(Publishing, [User(1)], 0, 1, true, Some(1), {"e"}, 5), Broker(2, {1}, false),
          History([FIRST, FIRST], [Publication(1, 0, 1)], [0], 0, 0, {(0, "e")}, false, 0))
  }

  function Awakened(s: State): State
  {
    s.(sh := s.sh.(list := [|s.hi.appended|]), lo := s.lo.(place := Checking),
       hi := s.hi.(appended := s.hi.appended + [FIRST]))
  }

  lemma StartRuns()
    ensures Run(Initial(1), [Start(Opened)]) == Some(Fresh())
  {
    assert {} + {0} == {0};
    var t := Step(Initial(1), Start(Opened));
    assert Through([Initial(1), t], [Start(Opened)]);
    ThroughRuns([Initial(1), t], [Start(Opened)]);
  }

  lemma WakeRuns(s: State)
    requires s.sh == QUIET && s.lo.place == AtWait
    ensures Run(s, WAKE) == Some(Awakened(s))
  {
    hide Deal, Publish, TryConnect, EverDeclared, TakeOver;
    var t1 := Step(s, WAKE[0]);
    var t2 := Step(t1, WAKE[1]);
    assert t2.sh == Shared([|s.hi.appended|], 1, 1, {}, true);
    var t3 := Step(t2, WAKE[2]);
    var states := [s, t1, t2, t3, Awakened(s)];
    assert Through(states, WAKE);
    ThroughRuns(states, WAKE);
  }

  lemma FailRuns()
    ensures Run(Awakened(Fresh()), FAIL) == Some(Lost())
  {
    var t0 := Awakened(Fresh());
    var t1 := Step(t0, FAIL[0]);
    var t2 := Step(t1, FAIL[1]);
    assert Items([0]) + [] == [User(0)];
    assert t2.lo == Local(Dealing, [User(0)], 0, 0, true, Some(0), {}, 5);
    FailDeals(t2);
    var states := [t0, t1, t2];
    assert Through(states, FAIL[..2]);
    ThroughRuns(states, FAIL[..2]);
    RunsCompose(t0, FAIL[..2], FAIL[2..]);
    assert FAIL[..2] + FAIL[2..] == FAIL;
  }

  lemma FailDeals(t: State)
    requires t.sh == QUIET && t.br == Broker(1, {0}, false)
    requires t.lo == Local(Dealing, [User(0)], 0, 0, true, Some(0), {}, 5)
    requires t.hi == History([FIRST], [], [], 0, 0, {}, false, 0)
    ensures Run(t, FAIL[2..]) == Some(Lost())
  {
    var t3 := Step(t, FAIL[2]);
    assert t3.lo == Local(Publishing, [User(0)], 0, 0, true, Some(0), {"e"}, 5);
    assert t3.hi == t.hi.(declared := {(0, "e")});
    assert (0, "e") in t3.hi.declared;
    var t4 := Step(t3, FAIL[3]);
    assert t4.br == Broker(1, {}, false);
    assert Step(t4, FAIL[4]) == Lost();
    var states := [t, t3, t4, Lost()];
    assert Through(states, FAIL[2..]);
    ThroughRuns(states, FAIL[2..]);
  }

  lemma SucceedRuns()
    ensures Run(Awakened(Lost()), SUCCEED) == Some(Stale())
  {
    var t0 := Awakened(Lost());
    var t1 := Step(t0, SUCCEED[0]);
    assert t1.br == Broker(2, {1}, false);
    var t2 := Step(t1, SUCCEED[1]);
    assert Items([1]) + [] == [User(1)];
    assert t2.lo == Local(Dealing, [User(1)], 0, 0, true, Some(1), {"e"}, 5);
    SucceedDeals(t2);
    var states := [t0, t1, t2];
    assert Through(states, SUCCEED[..2]);
    ThroughRuns(states, SUCCEED[..2]);
    RunsCompose(t0, SUCCEED[..2], SUCCEED[2..]);
    assert SUCCEED[..2] + SUCCEED[2..] == SUCCEED;
  }

  lemma SucceedDeals(t: State)
    requires t.sh == QUIET && t.br == Broker(2, {1}, false)
    requires t.lo == Local(Dealing, [User(1)], 0, 0, true, Some(1), {"e"}, 5)
    requires t.hi == History([FIRST, FIRST], [], [0], 0, 0, {(0, "e")}, false, 0)
    ensures Run(t, SUCCEED[2..]) == Some(Stale())
  {
    var t3 := Step(t, SUCCEED[2]);
    assert t3 == t.(lo := t.lo.(place := Publishing));
    assert (0, "e") in t3.hi.declared;
    assert Step(t3, SUCCEED[3]) == Stale();
    var states := [t, t3, Stale()];
    assert Through(states, SUCCEED[2..]);
    ThroughRuns(states, SUCCEED[2..]);
  }

  /** The map outlives the connection: there is a run in which a message goes out on a connection its exchange
  was not declared on. */
  lemma PublishedUndeclaredAfterReconnect()
    ensures exists run :: Run(Initial(1), run).Some? &&
              var s := Run(Initial(1), run).value;
              s.hi.published == [Publication(1, 0, 1)] && s.hi.appended == [FIRST, FIRST]
              && (1, FIRST.exchange) !in s.hi.declared && (0, FIRST.exchange) in s.hi.declared
  {
    hide Run, Step, Enabled;
    StartRuns();
    WakeRuns(Fresh());
    FailRuns();
    WakeRuns(Lost());
    SucceedRuns();
    var r1 := [Start(Opened)];
    RunsCompose(Initial(1), r1, WAKE);
    RunsCompose(Initial(1), r1 + WAKE, FAIL);
    RunsCompose(Initial(1), r1 + WAKE + FAIL, WAKE);
    RunsCompose(Initial(1), r1 + WAKE + FAIL + WAKE, SUCCEED);
    assert Run(Initial(1), r1 + WAKE + FAIL + WAKE + SUCCEED) == Some(Stale());
  }
}
