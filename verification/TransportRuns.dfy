/** What holds in every run of the in-memory transport, and what can always be reached. */
module TransportRuns {
  import opened Results
  import opened MemTransport
  import opened Sequences

  // Every run

  lemma {:induction false} RunKeepsInv(states: seq<State>, actions: seq<Action>, n: nat)
    requires IsRun(states, actions) && n <= |actions|
    ensures Inv(states[n])
  {
    hide Inv, Enabled, Perform;
    if n > 0 {
      RunKeepsInv(states, actions, n - 1);
      assert StepAt(states, actions, n - 1);
      StepKeepsInv(states[n - 1], actions[n - 1]);
    } else {
      StartHolds();
    }
  }

  lemma StartHolds()
    ensures Inv(START)
  {
  }

  lemma ReachableInv(s: State)
    requires Reachable(s)
    ensures Inv(s)
  {
    var states, actions :| IsRun(states, actions) && states[|actions|] == s;
    RunKeepsInv(states, actions, |actions|);
  }

  /** The rpc whose request a log line answers. */
  ghost predicate LogsRpc(s: State, k: nat, r: nat) {
    k < |s.log| && s.log[k].task < |s.tasks| && s.tasks[s.log[k].task].msg.rpc == r
  }

  /** An rpc that succeeded returned what the handler answered to its own request bytes. */
  lemma SuccessIsOwnAnswer(s: State, r: nat)
    requires Reachable(s) && r < |s.rpcs| && s.rpcs[r].pc.Succeeded?
    ensures exists k: nat :: LogsRpc(s, k, r) && s.log[k].data == s.rpcs[r].data && s.log[k].answer == s.rpcs[r].pc.answer
  {
    ReachableInv(s);
    assert RpcOk(s, r);
    var k := s.rpcs[r].pc.entry;
    var t := s.log[k].task;
    assert LogOk(s, k) && TaskOk(s, t);
    assert LogsRpc(s, k, r);
  }

  // What later steps leave as it is

  /** The same entities, each with the fields it was made with, and the same log lines. */
  ghost predicate Keeps(s: State, u: State) {
    KeepsListening(s, u) && KeepsTraffic(s, u)
  }

  ghost predicate KeepsListening(s: State, u: State) {
    && |s.calls| <= |u.calls| && |s.servers| <= |u.servers| && s.log <= u.log
    && (forall c :: 0 <= c < |s.calls| ==> u.calls[c].server == s.calls[c].server && u.calls[c].handler == s.calls[c].handler)
    && (forall sv :: 0 <= sv < |s.servers| ==> u.servers[sv].port == s.servers[sv].port)
  }

  ghost predicate KeepsTraffic(s: State, u: State) {
    && |s.rpcs| <= |u.rpcs| && |s.tasks| <= |u.tasks|
    && (forall r :: 0 <= r < |s.rpcs| ==> u.rpcs[r].data == s.rpcs[r].data && u.rpcs[r].target == s.rpcs[r].target)
    && (forall t :: 0 <= t < |s.tasks| ==> u.tasks[t].call == s.tasks[t].call && u.tasks[t].msg == s.tasks[t].msg)
  }

  lemma StepKeepsListening(s: State, a: Action)
    requires Enabled(s, a)
    ensures KeepsListening(s, Perform(s, a))
  {
    hide Highest, DropMessages, DropIncoming, AllFinished;
  }

  lemma StepKeepsSent(s: State, a: Action)
    requires Enabled(s, a)
    ensures KeepsTraffic(s, Perform(s, a))
  {
    hide Highest, InMessages, InIncoming, AllFinished;
  }

  lemma StepKeeps(s: State, a: Action)
    requires Enabled(s, a)
    ensures Keeps(s, Perform(s, a))
  {
    hide Enabled, Perform;
    StepKeepsListening(s, a);
    StepKeepsSent(s, a);
  }

  /** An rpc that failed without having sent anything. */
  predicate FailedUnsent(s: State, r: nat) {
    r < |s.rpcs| && s.rpcs[r].pc == Failed && s.rpcs[r].place == NotSent
  }

  lemma FailedStaysUnsent(s: State, a: Action, r: nat)
    requires Inv(s) && Enabled(s, a) && FailedUnsent(s, r)
    ensures FailedUnsent(Perform(s, a), r)
  {
    hide Lifecycle, TaskOk, HandlerOk, Highest, InMessages, InIncoming, AllFinished, DropMessages, DropIncoming;
    Focus(s, a);
    if a.DropReceiver? {
      DroppedMessages(s, s.calls[a.call].server);
    }
  }

  lemma {:induction false} RunKeeps(states: seq<State>, actions: seq<Action>, n: nat, m: nat)
    requires IsRun(states, actions) && n <= m <= |actions|
    ensures Keeps(states[n], states[m])
    ensures forall r: nat :: FailedUnsent(states[n], r) ==> FailedUnsent(states[m], r)
    decreases m
  {
    hide Inv, Enabled, Perform;
    if n < m {
      RunKeeps(states, actions, n, m - 1);
      assert StepAt(states, actions, m - 1);
      RunKeepsInv(states, actions, m - 1);
      StepKeeps(states[m - 1], actions[m - 1]);
      forall r: nat | FailedUnsent(states[n], r) ensures FailedUnsent(states[m], r) {
        FailedStaysUnsent(states[m - 1], actions[m - 1], r);
      }
    }
  }

  /** Step n of a run calls rpc with these arguments and creates rpc r. */
  predicate CallsRpc(states: seq<State>, actions: seq<Action>, n: nat, port: nat, data: Data, r: nat) {
    n < |actions| && n < |states| && actions[n] == CallRpc(port, data) && r == |states[n].rpcs|
  }

  /** A log line whose request was accepted by a call of listen on this server. */
  predicate ServedBy(s: State, k: nat, sv: nat) {
    && k < |s.log| && s.log[k].task < |s.tasks| && s.tasks[s.log[k].task].call < |s.calls|
    && s.calls[s.tasks[s.log[k].task].call].server == sv
  }

  lemma LineIsServedByTarget(s: State, k: nat, r: nat)
    requires Inv(s) && LogsRpc(s, k, r)
    ensures r < |s.rpcs| && s.rpcs[r].place != NotSent
    ensures s.log[k].data == s.rpcs[r].data && ServedBy(s, k, s.rpcs[r].target)
  {
    assert LogOk(s, k) && TaskOk(s, s.log[k].task);
    assert RpcOk(s, r);
  }

  /**
   * An rpc addressed to a port is answered by the server that held the port when rpc was called, and that is bound
   * to it; when nobody held the port it fails.
   */
  lemma RpcReachesItsPort(states: seq<State>, actions: seq<Action>, n: nat, port: nat, data: Data, r: nat, m: nat)
    requires IsRun(states, actions) && CallsRpc(states, actions, n, port, data, r) && n < m <= |actions|
    ensures r < |states[m].rpcs|
    ensures port !in states[n].registry ==> states[m].rpcs[r].pc == Failed
    ensures states[m].rpcs[r].pc.Succeeded? ==> port in states[n].registry
    ensures forall k: nat :: LogsRpc(states[m], k, r) ==>
              && port in states[n].registry && ServedBy(states[m], k, states[n].registry[port])
              && states[n].registry[port] < |states[m].servers| && states[m].servers[states[n].registry[port]].port == port
              && states[m].log[k].data == data
  {
    var (s, u) := (states[n], states[m]);
    assert StepAt(states, actions, n);
    RunKeepsInv(states, actions, n);
    RunKeepsInv(states, actions, m);
    RunKeeps(states, actions, n, m);
    RunKeeps(states, actions, n + 1, m);
    assert if port in s.registry then PortOk(s, port) else FailedUnsent(states[n + 1], r);
    assert u.rpcs[r].pc.Succeeded? ==> RpcOk(u, r) && LogsRpc(u, u.rpcs[r].pc.entry, r);
    hide Inv, Enabled, Perform;
    forall k: nat | LogsRpc(u, k, r)
      ensures port in s.registry && ServedBy(u, k, s.registry[port]) && u.log[k].data == data
    {
      LineIsServedByTarget(u, k, r);
    }
  }

  /** Step i of a run is a handler's answer, logged in line k. */
  predicate GivesAnswer(states: seq<State>, actions: seq<Action>, i: nat, h: nat, answer: Data, k: nat) {
    i < |actions| && i < |states| && actions[i] == HandlerReply(h, answer) && |states[i].log| == k
  }

  lemma AnswerIsLogged(s: State, a: Action)
    requires Inv(s) && Enabled(s, a) && a.HandlerReply?
    ensures |Perform(s, a).log| == |s.log| + 1
    ensures var line := Perform(s, a).log[|s.log|];
            && line.answer == a.answer && line.task < |s.tasks| && s.tasks[line.task].call < |s.calls|
            && s.tasks[line.task].msg.rpc < |s.rpcs| && s.calls[s.tasks[line.task].call].handler == a.handler
  {
    Focus(s, a);
    assert TaskOk(s, s.handlers[a.handler].running.value.task);
  }

  lemma {:induction false} LineOrigin(states: seq<State>, actions: seq<Action>, m: nat, k: nat) returns (i: nat, h: nat, answer: Data)
    requires IsRun(states, actions) && m <= |actions| && k < |states[m].log|
    ensures i < m && GivesAnswer(states, actions, i, h, answer, k)
    decreases m
  {
    hide Inv, Enabled, Perform;
    assert m > 0;
    assert StepAt(states, actions, m - 1);
    if k < |states[m - 1].log| {
      i, h, answer := LineOrigin(states, actions, m - 1, k);
    } else {
      OnlyRepliesAreLogged(states[m - 1], actions[m - 1]);
      i, h, answer := m - 1, actions[m - 1].handler, actions[m - 1].answer;
    }
  }

  lemma OnlyRepliesAreLogged(s: State, a: Action)
    requires Enabled(s, a)
    ensures |Perform(s, a).log| == |s.log| + if a.HandlerReply? then 1 else 0
  {
    hide Highest;
  }

  lemma OnlyListenCalls(s: State, a: Action)
    requires Enabled(s, a)
    ensures |Perform(s, a).calls| == |s.calls| + if a.CallListen? then 1 else 0
    ensures a.CallListen? ==> Perform(s, a).calls[|s.calls|] == Call(a.server, a.handler, false, Checking)
  {
    hide Highest;
  }

  /** Every call of listen comes from a step that passed its handler. */
  lemma {:induction false} CallOrigin(states: seq<State>, actions: seq<Action>, m: nat, c: nat) returns (l: nat)
    requires IsRun(states, actions) && m <= |actions| && c < |states[m].calls|
    ensures l < m && actions[l] == CallListen(states[m].calls[c].server, states[m].calls[c].handler)
    decreases m
  {
    hide Inv, Enabled, Perform;
    assert m > 0;
    assert StepAt(states, actions, m - 1);
    OnlyListenCalls(states[m - 1], actions[m - 1]);
    StepKeeps(states[m - 1], actions[m - 1]);
    if c < |states[m - 1].calls| {
      l := CallOrigin(states, actions, m - 1, c);
    } else {
      l := m - 1;
    }
  }

  /** What an rpc returned was answered, after it was called, by a handler some listen had attached to the port's server. */
  lemma SuccessComesFromListener(states: seq<State>, actions: seq<Action>, n: nat, port: nat, data: Data, r: nat, m: nat)
      returns (l: nat, i: nat, h: nat)
    requires IsRun(states, actions) && CallsRpc(states, actions, n, port, data, r) && n < m <= |actions|
    requires r < |states[m].rpcs| && states[m].rpcs[r].pc.Succeeded?
    ensures port in states[n].registry && l < i && n < i < m
    ensures actions[l] == CallListen(states[n].registry[port], h)
    ensures actions[i] == HandlerReply(h, states[m].rpcs[r].pc.answer)
  {
    RunKeepsInv(states, actions, m);
    assert RpcOk(states[m], r);
    var k := states[m].rpcs[r].pc.entry;
    RpcReachesItsPort(states, actions, n, port, data, r, m);
    assert LogsRpc(states[m], k, r);
    var answer;
    i, h, answer := LineOrigin(states, actions, m, k);
    assert StepAt(states, actions, i);
    RunKeepsInv(states, actions, i);
    AnswerIsLogged(states[i], actions[i]);
    RunKeeps(states, actions, i, m);
    RunKeeps(states, actions, i + 1, m);
    hide Inv, Enabled, Perform;
    if i <= n {
      RunKeeps(states, actions, i, n);
    }
    l := CallOrigin(states, actions, i, states[i].tasks[states[m].log[k].task].call);
  }

  /** The three ways an rpc fails: nobody held the port, the server's receiver was gone, or the channel closed unanswered. */
  predicate Fails(s: State, a: Action, r: nat) {
    match a
    case CallRpc(port, _) => r == |s.rpcs| && port !in s.registry
    case Send(q) => q == r && r < |s.rpcs| && s.rpcs[r].target < |s.servers| && !s.servers[s.rpcs[r].target].open
    case Collect(q) => q == r && r < |s.rpcs| && s.rpcs[r].inbox == Closed
    case _ => false
  }

  lemma FailingStep(s: State, a: Action, r: nat)
    requires Enabled(s, a) && r < |Perform(s, a).rpcs| && Perform(s, a).rpcs[r].pc == Failed
    ensures Fails(s, a, r) || (r < |s.rpcs| && s.rpcs[r].pc == Failed)
  {
    hide Highest, InMessages, DropIncoming, AllFinished;
  }

  /** An rpc never fails for any other reason; a caller that gave up has not failed. */
  lemma {:induction false} FailureHasCause(states: seq<State>, actions: seq<Action>, m: nat, r: nat) returns (i: nat)
    requires IsRun(states, actions) && m <= |actions| && r < |states[m].rpcs| && states[m].rpcs[r].pc == Failed
    ensures i < m && Fails(states[i], actions[i], r)
    decreases m
  {
    hide Enabled, Perform, Fails;
    assert m > 0;
    assert StepAt(states, actions, m - 1);
    FailingStep(states[m - 1], actions[m - 1], r);
    i := m - 1;
    if !Fails(states[m - 1], actions[m - 1], r) {
      i := FailureHasCause(states, actions, m - 1, r);
    }
  }

  /** No request is answered twice, and each rpc is handed to at most one task. */
  lemma AnsweredAtMostOnce(s: State, r: nat, j: nat, k: nat)
    requires Reachable(s) && LogsRpc(s, j, r) && LogsRpc(s, k, r)
    ensures j == k && r < |s.rpcs| && s.log[k].data == s.rpcs[r].data
  {
    ReachableInv(s);
    assert LogOk(s, j) && LogOk(s, k);
    assert TaskOk(s, s.log[j].task) && TaskOk(s, s.log[k].task);
    assert RpcOk(s, r);
  }

  /** Every registered port belongs to the server bound to it, which has not shut down; port 0 never is. */
  lemma RegistryIsSound(s: State, p: nat)
    requires Reachable(s) && p in s.registry
    ensures 1 <= p <= MAX_PORT && s.registry[p] < |s.servers|
    ensures s.servers[s.registry[p]].port == p && s.servers[s.registry[p]].state != Shutdown
  {
    ReachableInv(s);
    assert PortOk(s, p);
    assert ServerOk(s, s.registry[p]);
  }

  lemma FreshPort(registry: map<nat, nat>)
    requires forall p :: p in registry ==> 1 <= p <= MAX_PORT
    ensures var bound := BoundPort(registry, 0); bound !in registry && 1 <= bound <= MAX_PORT + 1
    ensures BoundPort(registry, 0) <= MAX_PORT <==> MAX_PORT !in registry
  {
    var ports := registry.Keys;
    if ports != {} {
      assert Highest(ports) in registry;
    }
    assert forall p :: p in registry ==> p in ports;
  }

  /** A request for port 0 gets a port nobody has; u16 addition reaches it exactly while 65535 is free. */
  lemma PortZeroIsFresh(s: State)
    requires Reachable(s)
    ensures BoundPort(s.registry, 0) !in s.registry
    ensures (Highest(s.registry.Keys) + 1) % 65536 == BoundPort(s.registry, 0) <==> MAX_PORT !in s.registry
    ensures Enabled(s, CreateServer(0)) <==> MAX_PORT !in s.registry
  {
    hide Reachable;
    forall p | p in s.registry ensures 1 <= p <= MAX_PORT {
      RegistryIsSound(s, p);
    }
    FreshPort(s.registry);
  }

  /** What creating a server binds: the port asked for, or for port 0 the one after the highest, and nothing else changes. */
  lemma CreationBinds(s: State, port: nat)
    requires Reachable(s)
    ensures Enabled(s, CreateServer(port)) <==> port <= 65535 && port !in s.registry && (port == 0 ==> 65535 !in s.registry)
    ensures Enabled(s, CreateServer(port)) ==>
              var (u, sv) := (Perform(s, CreateServer(port)), |s.servers|);
              && |u.servers| == sv + 1
              && var bound := u.servers[sv].port;
                 && u.registry == s.registry[bound := sv] && bound !in s.registry && (port != 0 ==> bound == port)
                 && (port == 0 ==> (forall p :: p in s.registry ==> p < bound) && (bound == 1 || bound - 1 in s.registry))
  {
    hide Reachable;
    PortZeroIsFresh(s);
    if port == 0 && 65535 !in s.registry {
      assert s.registry.Keys != {} ==> Highest(s.registry.Keys) in s.registry;
      assert forall p :: p in s.registry ==> p in s.registry.Keys;
    }
  }

  lemma Continue(s: State, a: Action)
    requires Reachable(s) && Enabled(s, a)
    ensures Reachable(Perform(s, a))
  {
    hide Enabled, Perform;
    var states, actions :| IsRun(states, actions) && states[|actions|] == s;
    var longer, all := states + [Perform(s, a)], actions + [a];
    forall i | 0 <= i < |all| ensures StepAt(longer, all, i) {
      assert i < |actions| ==> StepAt(states, actions, i);
    }
    assert IsRun(longer, all) && longer[|all|] == Perform(s, a);
  }

  function Rank(x: ServerState): nat {
    match x case Created => 0 case Listening => 1 case Shutdown => 2
  }

  lemma AdvancesOnce(s: State, a: Action, sv: nat)
    requires Lifecycle(s) && Enabled(s, a) && sv < |s.servers|
    ensures sv < |Perform(s, a).servers| && Perform(s, a).servers[sv].port == s.servers[sv].port
    ensures Rank(s.servers[sv].state) <= Rank(Perform(s, a).servers[sv].state) <= Rank(s.servers[sv].state) + 1
  {
    hide Highest, DropMessages, DropIncoming;
    if TouchesLifecycle(a) {
      assert ServerOk(s, sv);
      if CallOf(a).Some? {
        assert CallOk(s, CallOf(a).value);
      }
    } else {
      OtherSteps(s, a);
    }
  }

  /** A server only moves from Created to Listening to Shutdown, one state at a time. */
  lemma LifecycleOnlyAdvances(s: State, a: Action, sv: nat)
    requires Reachable(s) && Enabled(s, a) && sv < |s.servers|
    ensures sv < |Perform(s, a).servers| && Perform(s, a).servers[sv].port == s.servers[sv].port
    ensures Rank(s.servers[sv].state) <= Rank(Perform(s, a).servers[sv].state) <= Rank(s.servers[sv].state) + 1
  {
    hide Reachable;
    ReachableInv(s);
    AdvancesOnce(s, a, sv);
  }

  /**
   * After shutdown every accepted request is finished and no port leads here; nothing is queued once the
   * receiver is dropped, which is the step that ends listen after the state has been set.
   */
  lemma ShutdownIsClean(s: State, sv: nat)
    requires Reachable(s) && sv < |s.servers| && s.servers[sv].state == Shutdown
    ensures forall t :: 0 <= t < |s.tasks| && s.tasks[t].call < |s.calls| && s.calls[s.tasks[t].call].server == sv ==>
              s.tasks[t].pc == Finished
    ensures forall p :: p in s.registry ==> s.registry[p] != sv
    ensures !s.servers[sv].open ==> s.servers[sv].queue == []
    ensures s.servers[sv].open <==> exists c: nat :: CallAt(s, c, Closing) && s.calls[c].server == sv
  {
    ReachableInv(s);
    assert ServerOk(s, sv);
    var c := s.servers[sv].listener.value;
    assert s.servers[sv].open ==> CallAt(s, c, Closing);
    forall d: nat | CallAt(s, d, Closing) && s.calls[d].server == sv ensures s.servers[sv].open {
      assert CallOk(s, d);
    }
    forall t | 0 <= t < |s.tasks| && s.tasks[t].call < |s.calls| && s.calls[s.tasks[t].call].server == sv
      ensures s.tasks[t].pc == Finished
    {
      assert TaskOk(s, t);
      assert CallOk(s, s.tasks[t].call);
    }
    forall p | p in s.registry ensures s.registry[p] != sv {
      RegistryIsSound(s, p);
    }
  }

  /** Whatever calls of listen overlap, one of them gets the receiver and none finds it missing. */
  lemma ReceiverIsNeverMissing(s: State, c: nat, d: nat)
    requires Reachable(s) && c < |s.calls| && d < |s.calls|
    ensures s.calls[c].pc != NoReceiver
    ensures HoldsServer(s.calls[c].pc) && HoldsServer(s.calls[d].pc) && s.calls[c].server == s.calls[d].server ==> c == d
  {
    ReachableInv(s);
    assert CallOk(s, c) && CallOk(s, d);
  }

  /** No rpc is left waiting on a server whose receiver is dropped: its channel holds an answer or is closed. */
  lemma NoRpcHangs(s: State, r: nat)
    requires Reachable(s) && r < |s.rpcs| && s.rpcs[r].pc == Waiting
    requires s.rpcs[r].target < |s.servers| && !s.servers[s.rpcs[r].target].open
    ensures Enabled(s, Collect(r))
  {
    hide Reachable, Highest, DropMessages, DropIncoming;
    ReachableInv(s);
    var x := s.rpcs[r];
    assert RpcOk(s, r);
    assert ServerOk(s, x.target);
    if x.place.InTask? {
      assert TaskOk(s, x.place.task);
      assert CallOk(s, s.tasks[x.place.task].call);
    }
  }

  /** An accepted request is never lost: while it waits it is queued at a receiving handler or being answered. */
  lemma AcceptedIsNeverLost(s: State, t: nat)
    requires Reachable(s) && t < |s.tasks| && s.tasks[t].pc == Awaiting && s.tasks[t].reply == Empty
    ensures AtHandler(s, t)
  {
    hide Reachable;
    ReachableInv(s);
    assert TaskOk(s, t);
  }

  // ---------------------------------------------------------------------------------------------
  // Queues: nothing is reordered, repeated or dropped while its receiver is open

  function Select<T>(items: seq<Option<T>>): (r: seq<T>)
    ensures (forall i :: 0 <= i < |items| ==> items[i] == None) ==> r == []
  {
    if items == [] then [] else
      Select(items[..|items| - 1]) + match items[|items| - 1] case None => [] case Some(x) => [x]
  }

  lemma SelectPush<T>(items: seq<Option<T>>, x: Option<T>)
    ensures Select(items + [x]) == if x.Some? then Select(items) + [x.value] else Select(items)
  {
    assert (items + [x])[..|items|] == items;
  }

  function AcceptedAs(s: State, t: nat, sv: nat): Option<Message>
    requires t < |s.tasks|
  {
    if s.tasks[t].call < |s.calls| && s.calls[s.tasks[t].call].server == sv then Some(s.tasks[t].msg) else None
  }

  /** The messages for which tasks were spawned by listening on a server, in the order of the tasks. */
  function Accepted(s: State, sv: nat): seq<Message> {
    Select(seq(|s.tasks|, t requires 0 <= t < |s.tasks| => AcceptedAs(s, t, sv)))
  }

  /** The messages sent to a server while its receiver was open, in the order of the sends among the first m steps. */
  ghost function SentTo(states: seq<State>, actions: seq<Action>, m: nat, sv: nat): seq<Message>
    requires m <= |actions| && m < |states|
  {
    if m == 0 then [] else
      var (s, a) := (states[m - 1], actions[m - 1]);
      var sent := SentTo(states, actions, m - 1, sv);
      if SendsTo(s, a, sv) then sent + [Message(a.rpc, s.rpcs[a.rpc].data)] else sent
  }

  predicate SendsTo(s: State, a: Action, sv: nat) {
    a.Send? && a.rpc < |s.rpcs| && s.rpcs[a.rpc].target == sv && sv < |s.servers| && s.servers[sv].open
  }

  predicate ByListen(s: State, a: Action, sv: nat) {
    (a.Receive? || a.DropReceiver?) && a.call < |s.calls| && s.calls[a.call].server == sv
  }

  lemma AcceptedFrame(s: State, u: State, sv: nat)
    requires Inv(s) && Keeps(s, u) && |u.tasks| == |s.tasks|
    ensures Accepted(u, sv) == Accepted(s, sv)
  {
    forall t | 0 <= t < |s.tasks| ensures AcceptedAs(u, t, sv) == AcceptedAs(s, t, sv) {
      assert TaskOk(s, t);
    }
    hide Inv, Keeps, Select;
    assert seq(|u.tasks|, t requires 0 <= t < |u.tasks| => AcceptedAs(u, t, sv))
        == seq(|s.tasks|, t requires 0 <= t < |s.tasks| => AcceptedAs(s, t, sv));
  }

  lemma AcceptedByReceive(s: State, c: nat, sv: nat)
    requires Inv(s) && Enabled(s, Receive(c))
    ensures var (u, q) := (Perform(s, Receive(c)), s.servers[s.calls[c].server].queue);
            Accepted(u, sv) == if s.calls[c].server == sv then Accepted(s, sv) + [q[0]] else Accepted(s, sv)
  {
    hide Highest, Select;
    var u := Perform(s, Receive(c));
    assert forall t :: 0 <= t < |s.tasks| ==> TaskOk(s, t);
    var before := seq(|s.tasks|, t requires 0 <= t < |s.tasks| => AcceptedAs(s, t, sv));
    SelectPush(before, AcceptedAs(u, |s.tasks|, sv));
    assert seq(|u.tasks|, t requires 0 <= t < |u.tasks| => AcceptedAs(u, t, sv)) == before + [AcceptedAs(u, |s.tasks|, sv)];
  }

  lemma AcceptedStep(s: State, a: Action, sv: nat)
    requires Inv(s) && Enabled(s, a)
    ensures Accepted(Perform(s, a), sv) ==
              if a.Receive? && ByListen(s, a, sv) then Accepted(s, sv) + [s.servers[sv].queue[0]] else Accepted(s, sv)
  {
    if a.Receive? {
      AcceptedByReceive(s, a.call, sv);
    } else {
      StepKeeps(s, a);
      assert |Perform(s, a).tasks| == |s.tasks| by {
        hide Highest;
      }
      hide Perform, Enabled, Keeps, Inv;
      AcceptedFrame(s, Perform(s, a), sv);
    }
  }

  lemma QueueStep(s: State, a: Action, sv: nat)
    requires Enabled(s, a) && sv < |s.servers|
    ensures var (x, y) := (s.servers[sv], Perform(s, a).servers[sv]);
            if SendsTo(s, a, sv) then y.open && y.queue == x.queue + [Message(a.rpc, s.rpcs[a.rpc].data)] && |x.queue| < 256
            else if a.Receive? && ByListen(s, a, sv) then y.open == x.open && y.queue == x.queue[1..] && x.queue != []
            else if a.DropReceiver? && ByListen(s, a, sv) then !y.open && y.queue == []
            else y.open == x.open && y.queue == x.queue
  {
    hide Highest, DropMessages, DropIncoming, AllFinished;
  }

  lemma NewServer(s: State, a: Action, sv: nat)
    requires Enabled(s, a) && |s.servers| <= sv < |Perform(s, a).servers|
    ensures Perform(s, a).servers[sv].open && Perform(s, a).servers[sv].queue == []
  {
    hide Highest;
  }

  /** Before a server exists nothing is sent to it or accepted for it. */
  lemma {:induction false} NothingForNobody(states: seq<State>, actions: seq<Action>, m: nat, sv: nat)
    requires IsRun(states, actions) && m <= |actions| && |states[m].servers| <= sv
    ensures SentTo(states, actions, m, sv) == [] && Accepted(states[m], sv) == []
  {
    hide Enabled, Perform;
    RunKeepsInv(states, actions, m);
    forall t | 0 <= t < |states[m].tasks| ensures AcceptedAs(states[m], t, sv) == None {
      assert TaskOk(states[m], t) && CallOk(states[m], states[m].tasks[t].call);
    }
    if m > 0 {
      RunKeeps(states, actions, m - 1, m);
      NothingForNobody(states, actions, m - 1, sv);
    }
  }

  /**
   * While a server's receiver is open, the requests accepted there followed by those still queued are exactly the
   * requests sent to it, in order; once it is dropped, the accepted ones are the first of those sent.
   */
  lemma {:induction false} RequestsKeepTheirOrder(states: seq<State>, actions: seq<Action>, m: nat, sv: nat)
    requires IsRun(states, actions) && m <= |actions| && sv < |states[m].servers|
    ensures states[m].servers[sv].open ==>
              Accepted(states[m], sv) + states[m].servers[sv].queue == SentTo(states, actions, m, sv)
    ensures Accepted(states[m], sv) <= SentTo(states, actions, m, sv)
    ensures |states[m].servers[sv].queue| <= 256
  {
    hide Enabled, Perform, Inv, Accepted;
    assert m > 0;
    var (s, a) := (states[m - 1], actions[m - 1]);
    assert StepAt(states, actions, m - 1);
    RunKeepsInv(states, actions, m - 1);
    AcceptedStep(s, a, sv);
    if sv < |s.servers| {
      RequestsKeepTheirOrder(states, actions, m - 1, sv);
      QueueStep(s, a, sv);
      ClosedIsEmpty(s, sv);
      var (before, x) := (Accepted(s, sv), s.servers[sv]);
      if SendsTo(s, a, sv) {
        Associate(before, x.queue, [Message(a.rpc, s.rpcs[a.rpc].data)]);
      } else if a.Receive? && ByListen(s, a, sv) {
        assert x.queue == [x.queue[0]] + x.queue[1..];
        Associate(before, [x.queue[0]], x.queue[1..]);
      }
    } else {
      NothingForNobody(states, actions, m - 1, sv);
      NewServer(s, a, sv);
      if a.Receive? {
        OldServersReceive(s, a);
      }
    }
  }

  /** Sending waits exactly while an open server has 256 requests queued. */
  lemma SendWaitsWhileFull(s: State, r: nat)
    requires Reachable(s) && r < |s.rpcs| && s.rpcs[r].pc == Connecting
    ensures s.rpcs[r].target < |s.servers|
    ensures !Enabled(s, Send(r)) <==> s.servers[s.rpcs[r].target].open && |s.servers[s.rpcs[r].target].queue| == 256
  {
    ReachableInv(s);
    assert RpcOk(s, r);
    var states, actions :| IsRun(states, actions) && states[|actions|] == s;
    RequestsKeepTheirOrder(states, actions, |actions|, s.rpcs[r].target);
  }

  lemma ClosedIsEmpty(s: State, sv: nat)
    requires Inv(s) && sv < |s.servers|
    ensures !s.servers[sv].open ==> s.servers[sv].queue == []
  {
    assert ServerOk(s, sv);
  }

  lemma OldServersReceive(s: State, a: Action)
    requires Enabled(s, a) && a.Receive?
    ensures s.calls[a.call].server < |s.servers|
  {
  }

  function LineOf(s: State, k: nat, h: nat): Option<Incoming>
    requires k < |s.log|
  {
    var t := s.log[k].task;
    if t < |s.tasks| && s.tasks[t].call < |s.calls| && s.calls[s.tasks[t].call].handler == h
    then Some(Incoming(t, s.log[k].data)) else None
  }

  /** The requests a handler has answered, in the order of the log. */
  function Answered(s: State, h: nat): seq<Incoming> {
    Select(seq(|s.log|, k requires 0 <= k < |s.log| => LineOf(s, k, h)))
  }

  predicate ForwardsTo(s: State, a: Action, h: nat) {
    && a.Forward? && a.task < |s.tasks| && s.tasks[a.task].call < |s.calls|
    && s.calls[s.tasks[a.task].call].handler == h && h < |s.handlers| && s.handlers[h].open
  }

  /** The requests that tasks forwarded to a handler while it was receiving, among the first m steps. */
  ghost function ForwardedTo(states: seq<State>, actions: seq<Action>, m: nat, h: nat): seq<Incoming>
    requires m <= |actions| && m < |states|
  {
    if m == 0 then [] else
      var (s, a) := (states[m - 1], actions[m - 1]);
      var forwarded := ForwardedTo(states, actions, m - 1, h);
      if ForwardsTo(s, a, h) then forwarded + [Incoming(a.task, s.tasks[a.task].msg.data)] else forwarded
  }

  predicate ByItself(s: State, a: Action, h: nat) {
    (a.HandlerTake? || a.HandlerReply? || a.HandlerStop?) && a.handler == h
  }

  function Busy(x: Handler): seq<Incoming> {
    if x.running.Some? then [x.running.value] else []
  }

  lemma AnsweredFrame(s: State, u: State, h: nat)
    requires Inv(s) && Keeps(s, u)
    ensures forall k :: 0 <= k < |s.log| ==> LineOf(u, k, h) == LineOf(s, k, h)
    ensures |u.log| == |s.log| ==> Answered(u, h) == Answered(s, h)
    ensures |u.log| == |s.log| + 1 ==>
              var line := LineOf(u, |s.log|, h);
              Answered(u, h) == if line.Some? then Answered(s, h) + [line.value] else Answered(s, h)
  {
    forall k | 0 <= k < |s.log| ensures LineOf(u, k, h) == LineOf(s, k, h) {
      assert LogOk(s, k) && TaskOk(s, s.log[k].task);
    }
    hide Inv, Keeps, Select;
    var before := seq(|s.log|, k requires 0 <= k < |s.log| => LineOf(s, k, h));
    var after := seq(|u.log|, k requires 0 <= k < |u.log| => LineOf(u, k, h));
    if |u.log| == |s.log| {
      assert after == before;
    } else if |u.log| == |s.log| + 1 {
      assert after == before + [LineOf(u, |s.log|, h)];
      SelectPush(before, LineOf(u, |s.log|, h));
    }
  }

  lemma ReplyLine(s: State, a: Action, h: nat)
    requires Inv(s) && Enabled(s, a) && a.HandlerReply?
    ensures |Perform(s, a).log| == |s.log| + 1
    ensures LineOf(Perform(s, a), |s.log|, h) == if a.handler == h then s.handlers[h].running else None
  {
    Focus(s, a);
    assert TaskOk(s, s.handlers[a.handler].running.value.task);
  }

  lemma AnsweredStep(s: State, a: Action, h: nat)
    requires Inv(s) && Enabled(s, a)
    ensures Answered(Perform(s, a), h) ==
              if a.HandlerReply? && ByItself(s, a, h) then Answered(s, h) + Busy(s.handlers[h]) else Answered(s, h)
  {
    StepKeeps(s, a);
    OnlyRepliesAreLogged(s, a);
    if a.HandlerReply? {
      ReplyLine(s, a, h);
    }
    hide Inv, Keeps, Perform, LineOf, Answered;
    AnsweredFrame(s, Perform(s, a), h);
  }

  lemma HandlerStep(s: State, a: Action, h: nat)
    requires Enabled(s, a) && h < |s.handlers|
    ensures var (x, y) := (s.handlers[h], Perform(s, a).handlers[h]);
            if ForwardsTo(s, a, h) then y == x.(queue := x.queue + [Incoming(a.task, s.tasks[a.task].msg.data)])
            else if a.HandlerTake? && ByItself(s, a, h) then x.queue != [] && Busy(x) == [] && y == Handler(true, x.queue[1..], Some(x.queue[0]))
            else if a.HandlerReply? && ByItself(s, a, h) then y == x.(running := None)
            else if a.HandlerStop? && ByItself(s, a, h) then Busy(x) == [] && y == Handler(false, [], None)
            else y == x
  {
    hide Highest, DropMessages, DropIncoming, AllFinished;
  }

  lemma NewHandlerIsIdle(s: State, a: Action, h: nat)
    requires Enabled(s, a) && |s.handlers| <= h < |Perform(s, a).handlers|
    ensures a == NewHandler && Perform(s, a).handlers[h] == Handler(true, [], None)
  {
    hide Highest;
  }

  lemma {:induction false} HandlersOnlyGrow(s: State, a: Action)
    requires Enabled(s, a)
    ensures |s.handlers| <= |Perform(s, a).handlers|
  {
    hide Highest;
  }

  /** Before a handler exists nothing is forwarded to it or answered by it. */
  lemma {:induction false} NobodyAnswersNothing(states: seq<State>, actions: seq<Action>, m: nat, h: nat)
    requires IsRun(states, actions) && m <= |actions| && |states[m].handlers| <= h
    ensures ForwardedTo(states, actions, m, h) == [] && Answered(states[m], h) == []
  {
    hide Enabled, Perform;
    RunKeepsInv(states, actions, m);
    forall k | 0 <= k < |states[m].log| ensures LineOf(states[m], k, h) == None {
      assert LogOk(states[m], k) && TaskOk(states[m], states[m].log[k].task);
      assert CallOk(states[m], states[m].tasks[states[m].log[k].task].call);
    }
    if m > 0 {
      assert StepAt(states, actions, m - 1);
      HandlersOnlyGrow(states[m - 1], actions[m - 1]);
      NobodyAnswersNothing(states, actions, m - 1, h);
    }
  }

  /**
   * What a handler has answered, is answering and has queued is exactly what was forwarded to it, in order; once it
   * has stopped receiving, it has answered the first of those.
   */
  lemma {:induction false} HandlersKeepTheOrder(states: seq<State>, actions: seq<Action>, m: nat, h: nat)
    requires IsRun(states, actions) && m <= |actions| && h < |states[m].handlers|
    ensures var x := states[m].handlers[h];
            && (x.open ==> Answered(states[m], h) + Busy(x) + x.queue == ForwardedTo(states, actions, m, h))
            && Answered(states[m], h) + Busy(x) <= ForwardedTo(states, actions, m, h)
            && (!x.open ==> x.queue == [] && Busy(x) == [])
  {
    hide Enabled, Perform, Inv, Answered;
    assert m > 0;
    var (s, a) := (states[m - 1], actions[m - 1]);
    assert StepAt(states, actions, m - 1);
    RunKeepsInv(states, actions, m - 1);
    AnsweredStep(s, a, h);
    if h < |s.handlers| {
      HandlersKeepTheOrder(states, actions, m - 1, h);
      HandlerStep(s, a, h);
      var (before, x) := (Answered(s, h), s.handlers[h]);
      if ForwardsTo(s, a, h) {
        Associate(before + Busy(x), x.queue, [Incoming(a.task, s.tasks[a.task].msg.data)]);
      } else if a.HandlerTake? && ByItself(s, a, h) {
        assert x.queue == [x.queue[0]] + x.queue[1..];
        assert before + [] == before;
        Associate(before, [x.queue[0]], x.queue[1..]);
      }
    } else {
      NobodyAnswersNothing(states, actions, m - 1, h);
      NewHandlerIsIdle(s, a, h);
    }
  }

  // ---------------------------------------------------------------------------------------------
  // A cancelled listen can always be driven to its end

  /** What tasks and handlers do on their own once a message has been received. */
  predicate IsWork(a: Action) {
    a.Admit? || a.Forward? || a.Resume? || a.HandlerTake? || a.HandlerReply?
  }

  predicate IsAnswering(s: State, h: nat) {
    h < |s.handlers| && s.handlers[h].running.Some?
  }

  /** The work step that brings an unfinished task, or what stands before it, one step on. */
  function NextWork(s: State, t: nat): Action
    requires t < |s.tasks| && s.tasks[t].pc != Finished
  {
    var x := s.tasks[t];
    match x.pc
    case Starting => Admit(t)
    case Sending => Forward(t)
    case _ =>
      if x.reply != Empty then Resume(t)
      else match x.spot
        case InHandler(h) =>
          if IsAnswering(s, h) then HandlerReply(h, []) else HandlerTake(h)
        case Running(h) => HandlerReply(h, [])
        case _ => Resume(t)
  }

  lemma WorkGoesOn(s: State, t: nat)
    requires Inv(s) && t < |s.tasks| && s.tasks[t].pc != Finished
    ensures IsWork(NextWork(s, t)) && Enabled(s, NextWork(s, t))
  {
    assert TaskOk(s, t) && CallOk(s, s.tasks[t].call);
    hide Lifecycle, RpcOk, QueueOk, LogOk, ServerOk;
    if s.tasks[t].pc == Awaiting && s.tasks[t].reply == Empty {
      match s.tasks[t].spot {
        case InHandler(h) => assert HandlerOk(s, h);
        case Running(h) => assert HandlerOk(s, h);
        case _ =>
      }
    }
  }

  function TaskWeight(t: Task): nat {
    match t.pc case Starting => 5 case Sending => 4 case Awaiting => 1 case Finished => 0
  }

  function HandlerWeight(h: Handler): nat {
    2 * |h.queue| + if h.running.Some? then 1 else 0
  }

  function Sum(weights: seq<nat>): nat {
    if weights == [] then 0 else weights[0] + Sum(weights[1..])
  }

  lemma {:induction false} SumUpdate(weights: seq<nat>, i: nat, w: nat)
    requires i < |weights|
    ensures Sum(weights[i := w]) + weights[i] == Sum(weights) + w
  {
    if i > 0 {
      SumUpdate(weights[1..], i - 1, w);
      assert weights[i := w][1..] == weights[1..][i - 1 := w];
    } else {
      assert weights[0 := w][1..] == weights[1..];
    }
  }

  function TaskWeights(tasks: seq<Task>): (w: seq<nat>)
    ensures |w| == |tasks|
  {
    seq(|tasks|, t requires 0 <= t < |tasks| => TaskWeight(tasks[t]))
  }

  function HandlerWeights(handlers: seq<Handler>): (w: seq<nat>)
    ensures |w| == |handlers|
  {
    seq(|handlers|, h requires 0 <= h < |handlers| => HandlerWeight(handlers[h]))
  }

  /** How many work steps there can still be at most. */
  function Work(s: State): nat {
    Sum(TaskWeights(s.tasks)) + Sum(HandlerWeights(s.handlers))
  }

  /** Nothing but one task and one handler differ in weight. */
  lemma WorkOfTwo(s: State, u: State, t: nat, h: nat)
    requires |u.tasks| == |s.tasks| && t < |s.tasks| && u.tasks == s.tasks[t := u.tasks[t]]
    requires |u.handlers| == |s.handlers| && h < |s.handlers| && u.handlers == s.handlers[h := u.handlers[h]]
    ensures Work(u) + TaskWeight(s.tasks[t]) + HandlerWeight(s.handlers[h])
         == Work(s) + TaskWeight(u.tasks[t]) + HandlerWeight(u.handlers[h])
  {
    SumUpdate(TaskWeights(s.tasks), t, TaskWeight(u.tasks[t]));
    SumUpdate(HandlerWeights(s.handlers), h, HandlerWeight(u.handlers[h]));
    assert TaskWeights(u.tasks) == TaskWeights(s.tasks)[t := TaskWeight(u.tasks[t])];
    assert HandlerWeights(u.handlers) == HandlerWeights(s.handlers)[h := HandlerWeight(u.handlers[h])];
  }

  /** The listening side and the callers' side are as they were; only inboxes and histories may differ. */
  ghost predicate SameOutside(s: State, u: State) {
    && u.calls == s.calls && u.servers == s.servers && u.registry == s.registry && |u.rpcs| == |s.rpcs|
    && forall r :: 0 <= r < |s.rpcs| ==> u.rpcs[r].pc == s.rpcs[r].pc && u.rpcs[r].target == s.rpcs[r].target
  }

  lemma WorkShrinks(s: State, a: Action)
    requires Enabled(s, a) && IsWork(a)
    ensures Work(Perform(s, a)) < Work(s) && SameOutside(s, Perform(s, a))
  {
    hide Work, Highest, DropMessages, DropIncoming, InMessages, InIncoming;
    var t := if TaskOf(a).Some? then TaskOf(a).value
             else if a.HandlerTake? then s.handlers[a.handler].queue[0].task else s.handlers[a.handler].running.value.task;
    var h := if TaskOf(a).Some? then s.calls[s.tasks[t].call].handler else a.handler;
    WorkOfTwo(s, Perform(s, a), t, h);
  }

  ghost predicate Drained(s: State, u: State) {
    Reachable(u) && SameOutside(s, u) && forall t :: 0 <= t < |u.tasks| ==> u.tasks[t].pc == Finished
  }

  lemma {:induction false} CanDrain(s: State) returns (u: State)
    requires Reachable(s)
    ensures Drained(s, u)
    decreases Work(s)
  {
    hide Reachable, Inv, Enabled, Perform, Work, IsWork, NextWork;
    u := s;
    if t :| 0 <= t < |s.tasks| && s.tasks[t].pc != Finished {
      ReachableInv(s);
      WorkGoesOn(s, t);
      var a := NextWork(s, t);
      WorkShrinks(s, a);
      Continue(s, a);
      u := CanDrain(Perform(s, a));
    }
  }

  /** No rpc has moved. */
  ghost predicate SameFronts(s: State, u: State) {
    && |u.servers| == |s.servers| && |u.rpcs| == |s.rpcs|
    && forall r :: 0 <= r < |s.rpcs| ==> u.rpcs[r].pc == s.rpcs[r].pc && u.rpcs[r].target == s.rpcs[r].target
  }

  /** One call of listen has ended. */
  ghost predicate Ended(s: State, u: State, c: nat) {
    && Reachable(u) && SameFronts(s, u) && c < |s.calls| && c < |u.calls|
    && u.calls[c].pc == Done && u.calls[c].server == s.calls[c].server
  }

  /** The step of listen that a cancelled call takes next, once the tasks it waits for have finished. */
  function NextEnd(s: State, c: nat): Action
    requires c < |s.calls|
  {
    match s.calls[c].pc
    case Taking => TakeReceiver(c)
    case Looping => Break(c)
    case Stopped => Remove(c)
    case Draining => Finish(c)
    case _ => DropReceiver(c)
  }

  function StepsToEnd(pc: ListenPc): nat {
    match pc
    case Taking => 5 case Looping => 4 case Stopped => 3 case Draining => 2 case Closing => 1 case _ => 0
  }

  lemma EndGoesOn(s: State, c: nat)
    requires Inv(s) && c < |s.calls| && HoldsServer(s.calls[c].pc) && s.calls[c].cancelled && s.calls[c].pc != Done
    requires s.calls[c].pc == Draining ==> AllFinished(s, c)
    ensures Enabled(s, NextEnd(s, c)) && c < |Perform(s, NextEnd(s, c)).calls|
    ensures var (u, a) := (Perform(s, NextEnd(s, c)), s.calls[c]);
            && u.calls[c] == a.(pc := u.calls[c].pc) && StepsToEnd(u.calls[c].pc) == StepsToEnd(a.pc) - 1
            && HoldsServer(u.calls[c].pc) && SameFronts(s, u)
  {
    hide Traffic, Highest, DropIncoming, InMessages;
    assert CallOk(s, c) && ServerOk(s, s.calls[c].server);
  }

  /** From every reachable state, a cancelled listen that holds its server can be driven to its end. */
  lemma CancelledListenCanEnd(s: State, c: nat) returns (u: State)
    requires Reachable(s) && c < |s.calls| && HoldsServer(s.calls[c].pc) && s.calls[c].cancelled
    ensures Ended(s, u, c)
    decreases StepsToEnd(s.calls[c].pc)
  {
    hide Reachable, Inv, Enabled, Perform, NextEnd;
    u := s;
    if s.calls[c].pc != Done {
      if s.calls[c].pc == Draining {
        u := CanDrain(s);
      }
      ReachableInv(u);
      EndGoesOn(u, c);
      Continue(u, NextEnd(u, c));
      u := CancelledListenCanEnd(Perform(u, NextEnd(u, c)), c);
    }
  }

  /** From every reachable state, cancelling a listen that holds its server lets it come to its end. */
  lemma ListenCanBeEnded(s: State, c: nat) returns (u: State)
    requires Reachable(s) && c < |s.calls| && HoldsServer(s.calls[c].pc)
    ensures Ended(s, u, c)
  {
    hide Reachable;
    Continue(s, Cancel(c));
    u := CancelledListenCanEnd(Perform(s, Cancel(c)), c);
  }

  /** So no rpc needs to wait forever: whenever a listen holds its server, it can return. */
  lemma RpcCanSettle(s: State, r: nat, c: nat)
    requires Reachable(s) && r < |s.rpcs| && s.rpcs[r].pc == Waiting
    requires c < |s.calls| && HoldsServer(s.calls[c].pc) && s.calls[c].server == s.rpcs[r].target
    ensures exists u :: Reachable(u) && r < |u.rpcs| && (u.rpcs[r].pc.Succeeded? || u.rpcs[r].pc == Failed)
  {
    hide Reachable;
    var ended := ListenCanBeEnded(s, c);
    assert !ended.servers[ended.rpcs[r].target].open by {
      ReachableInv(ended);
      assert CallOk(ended, c) && ServerOk(ended, ended.calls[c].server);
    }
    NoRpcHangs(ended, r);
    Continue(ended, Collect(r));
    assert Reachable(Perform(ended, Collect(r)));
  }

  /** A call of listen that has left its loop, or is about to. */
  predicate IsEnding(x: Call) {
    x.cancelled || x.pc == Stopped || x.pc == Draining || HasShutDown(x.pc)
  }

  lemma OnlyCancelStartsEnding(s: State, a: Action, c: nat)
    requires Enabled(s, a) && c < |Perform(s, a).calls| && IsEnding(Perform(s, a).calls[c])
    ensures a == Cancel(c) || (c < |s.calls| && IsEnding(s.calls[c]))
  {
    hide Highest, DropMessages, DropIncoming, AllFinished;
  }

  /** A listen never ends by itself: whenever one is on its way out, its token has been cancelled before. */
  lemma {:induction false} OnlyCancelledListenEnds(states: seq<State>, actions: seq<Action>, m: nat, c: nat) returns (i: nat)
    requires IsRun(states, actions) && m <= |actions| && c < |states[m].calls|
    requires states[m].calls[c].pc in {Stopped, Draining, Closing, Done}
    ensures i < m && actions[i] == Cancel(c)
  {
    i := FirstCancel(states, actions, m, c);
  }

  lemma {:induction false} FirstCancel(states: seq<State>, actions: seq<Action>, m: nat, c: nat) returns (i: nat)
    requires IsRun(states, actions) && m <= |actions| && c < |states[m].calls| && IsEnding(states[m].calls[c])
    ensures i < m && actions[i] == Cancel(c)
    decreases m
  {
    hide Enabled, Perform, IsEnding;
    assert m > 0;
    assert StepAt(states, actions, m - 1);
    OnlyCancelStartsEnding(states[m - 1], actions[m - 1], c);
    i := m - 1;
    if actions[m - 1] != Cancel(c) {
      i := FirstCancel(states, actions, m - 1, c);
    }
  }

  // ---------------------------------------------------------------------------------------------
  // Success is within reach

  /** A server that is listening, with an idle handler behind it and nothing queued at either. */
  predicate Idle(s: State, c: nat) {
    && CallAt(s, c, Looping) && s.servers[s.calls[c].server].open && s.servers[s.calls[c].server].queue == []
    && s.calls[c].handler < |s.handlers| && s.handlers[s.calls[c].handler] == Handler(true, [], None)
  }

  /** Only this task's request is queued at the handler, and the rpc waits for it. */
  predicate Delivered(s: State, r: nat, t: nat, h: nat) {
    && TaskAt(s, t, Awaiting) && s.tasks[t].msg.rpc == r && r < |s.rpcs| && s.rpcs[r].pc == Waiting
    && h < |s.handlers| && s.handlers[h].open && s.handlers[h].running == None
    && |s.handlers[h].queue| == 1 && s.handlers[h].queue[0].task == t
  }

  /** The handler has given the task this answer, and the rpc waits for it. */
  predicate Replied(s: State, r: nat, t: nat, answer: Data, k: nat) {
    && TaskAt(s, t, Awaiting) && s.tasks[t].msg.rpc == r && r < |s.rpcs| && s.rpcs[r].pc == Waiting
    && s.tasks[t].reply == Full(answer, k)
  }

  /** A task is spawned for the rpc's request, and its handler is idle. */
  predicate Spawned(s: State, r: nat, t: nat, h: nat) {
    && TaskAt(s, t, Starting) && s.tasks[t].msg.rpc == r && r < |s.rpcs| && s.rpcs[r].pc == Waiting
    && s.calls[s.tasks[t].call].handler == h && s.handlers[h] == Handler(true, [], None)
  }

  /** A server nobody has listened on yet can be made to listen, for any handler. */
  lemma CanListen(s: State, sv: nat, h: nat)
    requires Reachable(s) && sv < |s.servers| && s.servers[sv].state == Created && h < |s.handlers|
    ensures exists u :: Reachable(u) && CallAt(u, |s.calls|, Looping) && u.calls[|s.calls|] == Call(sv, h, false, Looping)
                        && u.servers[sv].queue == s.servers[sv].queue && u.registry == s.registry
  {
    hide Reachable, DropMessages, DropIncoming, Highest, AllFinished;
    var c := |s.calls|;
    ReachableInv(s);
    assert ServerOk(s, sv);
    hide Inv;
    var called := Perform(s, CallListen(sv, h));
    var checked := Perform(called, CheckState(c));
    Continue(s, CallListen(sv, h));
    Continue(called, CheckState(c));
    Continue(checked, TakeReceiver(c));
    assert Reachable(Perform(checked, TakeReceiver(c)));
  }

  lemma CanSpawn(s: State, r: nat, c: nat)
    requires Reachable(s) && r < |s.rpcs| && s.rpcs[r].pc == Connecting
    requires Idle(s, c) && s.calls[c].server == s.rpcs[r].target
    ensures exists u :: Reachable(u) && Spawned(u, r, |s.tasks|, s.calls[c].handler) && u.log == s.log
  {
    hide Reachable, DropMessages, DropIncoming, Highest;
    var sent := Perform(s, Send(r));
    Continue(s, Send(r));
    Continue(sent, Receive(c));
    assert Spawned(Perform(sent, Receive(c)), r, |s.tasks|, s.calls[c].handler);
  }

  lemma CanDeliver(s: State, r: nat, t: nat, h: nat)
    requires Reachable(s) && Spawned(s, r, t, h)
    ensures exists u :: Reachable(u) && Delivered(u, r, t, h) && u.log == s.log
  {
    hide Reachable, DropMessages, DropIncoming, Highest;
    var admitted := Perform(s, Admit(t));
    Continue(s, Admit(t));
    Continue(admitted, Forward(t));
    assert Delivered(Perform(admitted, Forward(t)), r, t, h);
  }

  lemma CanReply(s: State, r: nat, t: nat, h: nat, answer: Data)
    requires Reachable(s) && Delivered(s, r, t, h)
    ensures exists u :: Reachable(u) && Replied(u, r, t, answer, |s.log|)
  {
    hide Reachable, DropMessages, DropIncoming, Highest;
    var taken := Perform(s, HandlerTake(h));
    Continue(s, HandlerTake(h));
    Continue(taken, HandlerReply(h, answer));
    assert Replied(Perform(taken, HandlerReply(h, answer)), r, t, answer, |s.log|);
  }

  lemma CanCollect(s: State, r: nat, t: nat, answer: Data, k: nat)
    requires Reachable(s) && Replied(s, r, t, answer, k)
    ensures exists u :: Reachable(u) && r < |u.rpcs| && u.rpcs[r].pc == Succeeded(answer, k)
  {
    hide Reachable, DropMessages, DropIncoming, Highest;
    var resumed := Perform(s, Resume(t));
    Continue(s, Resume(t));
    Continue(resumed, Collect(r));
    assert Reachable(Perform(resumed, Collect(r)));
  }

  lemma ConnectedCanSucceed(s: State, r: nat, c: nat, answer: Data)
    requires Reachable(s) && r < |s.rpcs| && s.rpcs[r].pc == Connecting
    requires Idle(s, c) && s.calls[c].server == s.rpcs[r].target
    ensures exists u :: Reachable(u) && r < |u.rpcs| && u.rpcs[r].pc == Succeeded(answer, |s.log|)
  {
    hide Reachable, Spawned, Delivered, Replied, DropMessages, DropIncoming, Highest;
    var t, h := |s.tasks|, s.calls[c].handler;
    CanSpawn(s, r, c);
    var spawned :| Reachable(spawned) && Spawned(spawned, r, t, h) && spawned.log == s.log;
    CanDeliver(spawned, r, t, h);
    var delivered :| Reachable(delivered) && Delivered(delivered, r, t, h) && delivered.log == s.log;
    CanReply(delivered, r, t, h, answer);
    var replied :| Reachable(replied) && Replied(replied, r, t, answer, |s.log|);
    CanCollect(replied, r, t, answer, |s.log|);
  }
  /** Success is within reach: calling rpc on a port whose server listens idly can return any answer of its handler. */
  lemma RpcCanSucceed(s: State, port: nat, data: Data, c: nat, answer: Data)
    requires Reachable(s) && port in s.registry && Idle(s, c) && s.calls[c].server == s.registry[port]
    ensures exists u :: Reachable(u) && |s.rpcs| < |u.rpcs| && u.rpcs[|s.rpcs|].pc == Succeeded(answer, |s.log|)
  {
    hide Reachable, Highest;
    var called := Perform(s, CallRpc(port, data));
    Continue(s, CallRpc(port, data));
    ConnectedCanSucceed(called, |s.rpcs|, c, answer);
  }
}
