/**
 * The in-memory transport as a system of steps (mem_transport.rs, transport.rs).  A step is the code one
 * task runs between two awaits or under one lock; any order of steps is a run.
 */
module MemTransport {
  import opened Results

  type Data = seq<nat>

  const QUEUE_CAPACITY := 256
  const MAX_PORT := 65535

  // ---------------------------------------------------------------------------------------------
  // State.  Fields called place, spot, listener and entry only record history; target is the server entry an rpc holds.

  datatype Message = Message(rpc: nat, data: Data)

  datatype Incoming = Incoming(task: nat, data: Data)

  /** A oneshot channel as its receiver sees it; entry is the log line the answer came from. */
  datatype Oneshot = Empty | Full(answer: Data, entry: nat) | Closed

  datatype ServerState = Created | Listening | Shutdown

  datatype Server = Server(port: nat, state: ServerState, hasReceiver: bool, open: bool, queue: seq<Message>,
                           listener: Option<nat>)

  /** Where a call of listen stands. */
  datatype ListenPc = Checking | Taking | Looping | Stopped | Draining | Closing | Done | Refused | NoReceiver

  datatype Call = Call(server: nat, handler: nat, cancelled: bool, pc: ListenPc)

  /** Where a spawned process_connection stands. */
  datatype TaskPc = Starting | Sending | Awaiting | Finished

  datatype Spot = NotForwarded | InHandler(handler: nat) | Running(handler: nat) | Handled(entry: nat) | Unhandled

  datatype Task = Task(call: nat, msg: Message, pc: TaskPc, reply: Oneshot, spot: Spot)

  datatype Handler = Handler(open: bool, queue: seq<Incoming>, running: Option<Incoming>)

  datatype RpcPc = Connecting | Waiting | Succeeded(answer: Data, entry: nat) | Failed | Abandoned

  datatype Place = NotSent | InQueue | InTask(task: nat) | Lost

  datatype Rpc = Rpc(data: Data, target: nat, pc: RpcPc, inbox: Oneshot, place: Place)

  /** A line of the handler's log: which task's request it answered, with what. */
  datatype Answer = Answer(task: nat, data: Data, answer: Data)

  datatype State = State(
    registry: map<nat, nat>, servers: seq<Server>, calls: seq<Call>, tasks: seq<Task>,
    handlers: seq<Handler>, rpcs: seq<Rpc>, log: seq<Answer>)

  const START := State(map[], [], [], [], [], [], [])

  // ---------------------------------------------------------------------------------------------
  // Steps

  datatype Action =
    | CreateServer(port: nat)
    | CallListen(server: nat, handler: nat) | CheckState(call: nat) | TakeReceiver(call: nat)
    | Cancel(call: nat) | Receive(call: nat) | Break(call: nat) | Remove(call: nat)
    | Finish(call: nat) | DropReceiver(call: nat)
    | Admit(task: nat) | Refuse(task: nat) | Forward(task: nat) | Resume(task: nat)
    | NewHandler | HandlerTake(handler: nat) | HandlerReply(handler: nat, answer: Data) | HandlerStop(handler: nat)
    | CallRpc(port: nat, data: Data) | Send(rpc: nat) | Collect(rpc: nat) | Abandon(rpc: nat)

  lemma {:induction false} HighestExists(ports: set<nat>)
    requires ports != {}
    ensures exists p :: p in ports && forall q :: q in ports ==> q <= p
    decreases ports
  {
    var x :| x in ports;
    if y :| y in ports && y > x {
      var rest := ports - {x};
      assert y in rest;
      HighestExists(rest);
      var p :| p in rest && forall q :: q in rest ==> q <= p;
      assert y <= p;
      forall q | q in ports ensures q <= p {
        assert q == x || q in rest;
      }
    }
  }

  /** `keys().max().unwrap_or(&0)`. */
  function Highest(ports: set<nat>): (top: nat)
    ensures forall p :: p in ports ==> p <= top
    ensures ports != {} ==> top in ports
  {
    if ports == {} then 0
    else
      HighestExists(ports);
      var p :| p in ports && forall q :: q in ports ==> q <= p;
      p
  }

  /** The port a server is bound to: the requested one, or one above the highest in use. */
  function BoundPort(registry: map<nat, nat>, port: nat): nat {
    if port == 0 then Highest(registry.Keys) + 1 else port
  }

  predicate CallAt(s: State, c: nat, pc: ListenPc) {
    c < |s.calls| && s.calls[c].pc == pc && s.calls[c].server < |s.servers|
  }

  predicate TaskAt(s: State, t: nat, pc: TaskPc) {
    && t < |s.tasks| && s.tasks[t].pc == pc && s.tasks[t].msg.rpc < |s.rpcs|
    && s.tasks[t].call < |s.calls| && s.calls[s.tasks[t].call].handler < |s.handlers|
  }

  predicate AllFinished(s: State, c: nat) {
    forall t :: 0 <= t < |s.tasks| && s.tasks[t].call == c ==> s.tasks[t].pc == Finished
  }

  predicate Enabled(s: State, a: Action) {
    match a
    case CreateServer(port) => port <= MAX_PORT && port !in s.registry && BoundPort(s.registry, port) <= MAX_PORT
    case CallListen(sv, h) => sv < |s.servers| && h < |s.handlers|
    case CheckState(c) => CallAt(s, c, Checking)
    case TakeReceiver(c) => CallAt(s, c, Taking)
    case Cancel(c) => c < |s.calls|
    case Receive(c) => CallAt(s, c, Looping) && s.servers[s.calls[c].server].queue != []
                       && s.servers[s.calls[c].server].queue[0].rpc < |s.rpcs|
    case Break(c) => CallAt(s, c, Looping) && s.calls[c].cancelled
    case Remove(c) => CallAt(s, c, Stopped)
    case Finish(c) => CallAt(s, c, Draining) && AllFinished(s, c)
    case DropReceiver(c) => CallAt(s, c, Closing)
    case Admit(t) => TaskAt(s, t, Starting)
    case Refuse(t) => TaskAt(s, t, Starting)
    case Forward(t) => TaskAt(s, t, Sending)
    case Resume(t) => TaskAt(s, t, Awaiting) && s.tasks[t].reply != Empty
    case NewHandler => true
    case HandlerTake(h) => h < |s.handlers| && s.handlers[h].open && s.handlers[h].running == None
                           && s.handlers[h].queue != [] && s.handlers[h].queue[0].task < |s.tasks|
    case HandlerReply(h, _) => h < |s.handlers| && s.handlers[h].running.Some?
                               && s.handlers[h].running.value.task < |s.tasks|
    case HandlerStop(h) => h < |s.handlers| && s.handlers[h].open && s.handlers[h].running == None
    case CallRpc(_, _) => true
    case Send(r) => r < |s.rpcs| && s.rpcs[r].pc == Connecting && s.rpcs[r].target < |s.servers|
                    && (s.servers[s.rpcs[r].target].open ==> |s.servers[s.rpcs[r].target].queue| < QUEUE_CAPACITY)
    case Collect(r) => r < |s.rpcs| && s.rpcs[r].pc == Waiting && s.rpcs[r].inbox != Empty
    case Abandon(r) => r < |s.rpcs| && (s.rpcs[r].pc == Connecting || s.rpcs[r].pc == Waiting)
  }

  function SetServer(s: State, sv: nat, server: Server): State
    requires sv < |s.servers|
  {
    s.(servers := s.servers[sv := server])
  }

  function SetPc(s: State, c: nat, pc: ListenPc): State
    requires c < |s.calls|
  {
    s.(calls := s.calls[c := s.calls[c].(pc := pc)])
  }

  function SetTask(s: State, t: nat, task: Task): State
    requires t < |s.tasks|
  {
    s.(tasks := s.tasks[t := task])
  }

  function SetRpc(s: State, r: nat, rpc: Rpc): State
    requires r < |s.rpcs|
  {
    s.(rpcs := s.rpcs[r := rpc])
  }

  /** A task ends; its response channel is filled, or dropped empty. */
  function EndTask(s: State, t: nat, inbox: Oneshot): (u: State)
    requires t < |s.tasks| && s.tasks[t].msg.rpc < |s.rpcs|
    ensures |u.rpcs| == |s.rpcs| && u.handlers == s.handlers
  {
    var r := s.tasks[t].msg.rpc;
    SetRpc(SetTask(s, t, s.tasks[t].(pc := Finished)), r, s.rpcs[r].(inbox := inbox))
  }

  predicate InMessages(queue: seq<Message>, r: nat) {
    exists i :: 0 <= i < |queue| && queue[i].rpc == r
  }

  predicate InIncoming(queue: seq<Incoming>, t: nat) {
    exists i :: 0 <= i < |queue| && queue[i].task == t
  }

  /** The response channels of queued messages close when the queue is dropped. */
  function DropMessages(rpcs: seq<Rpc>, queue: seq<Message>): (d: seq<Rpc>)
    ensures |d| == |rpcs|
  {
    seq(|rpcs|, r requires 0 <= r < |rpcs| =>
      if InMessages(queue, r) then rpcs[r].(inbox := Closed, place := Lost) else rpcs[r])
  }

  function DropIncoming(tasks: seq<Task>, queue: seq<Incoming>): (d: seq<Task>)
    ensures |d| == |tasks|
  {
    seq(|tasks|, t requires 0 <= t < |tasks| =>
      if InIncoming(queue, t) then tasks[t].(reply := Closed, spot := Unhandled) else tasks[t])
  }

  function Perform(s: State, a: Action): State
    requires Enabled(s, a)
  {
    match a
    case CreateServer(port) =>
      var bound := BoundPort(s.registry, port);
      s.(registry := s.registry[bound := |s.servers|],
         servers := s.servers + [Server(bound, Created, true, true, [], None)])
    case CallListen(sv, h) => s.(calls := s.calls + [Call(sv, h, false, Checking)])
    case CheckState(c) =>
      var sv := s.calls[c].server;
      if s.servers[sv].state == Created
      then SetPc(SetServer(s, sv, s.servers[sv].(state := Listening, listener := Some(c))), c, Taking)
      else SetPc(s, c, Refused)
    case TakeReceiver(c) =>
      var sv := s.calls[c].server;
      if s.servers[sv].hasReceiver then SetPc(SetServer(s, sv, s.servers[sv].(hasReceiver := false)), c, Looping)
      else SetPc(s, c, NoReceiver)
    case Cancel(c) => s.(calls := s.calls[c := s.calls[c].(cancelled := true)])
    case Receive(c) =>
      var sv := s.calls[c].server;
      var m := s.servers[sv].queue[0];
      SetRpc(SetServer(s, sv, s.servers[sv].(queue := s.servers[sv].queue[1..])),
             m.rpc, s.rpcs[m.rpc].(place := InTask(|s.tasks|)))
      .(tasks := s.tasks + [Task(c, m, Starting, Empty, NotForwarded)])
    case Break(c) => SetPc(s, c, Stopped)
    case Remove(c) => SetPc(s.(registry := s.registry - {s.servers[s.calls[c].server].port}), c, Draining)
    case Finish(c) =>
      var sv := s.calls[c].server;
      SetPc(SetServer(s, sv, s.servers[sv].(state := Shutdown)), c, Closing)
    case DropReceiver(c) =>
      var sv := s.calls[c].server;
      SetPc(SetServer(s, sv, s.servers[sv].(open := false, queue := [])), c, Done)
      .(rpcs := DropMessages(s.rpcs, s.servers[sv].queue))
    case Admit(t) => SetTask(s, t, s.tasks[t].(pc := Sending))
    case Refuse(t) => EndTask(s, t, Closed)
    case Forward(t) =>
      var h := s.calls[s.tasks[t].call].handler;
      if s.handlers[h].open
      then SetTask(s, t, s.tasks[t].(pc := Awaiting, spot := InHandler(h)))
           .(handlers := s.handlers[h := s.handlers[h].(queue := s.handlers[h].queue + [Incoming(t, s.tasks[t].msg.data)])])
      else EndTask(s, t, Closed)
    case Resume(t) => EndTask(s, t, s.tasks[t].reply)
    case NewHandler => s.(handlers := s.handlers + [Handler(true, [], None)])
    case HandlerTake(h) =>
      var inc := s.handlers[h].queue[0];
      SetTask(s, inc.task, s.tasks[inc.task].(spot := Running(h)))
      .(handlers := s.handlers[h := Handler(true, s.handlers[h].queue[1..], Some(inc))])
    case HandlerReply(h, answer) =>
      var inc := s.handlers[h].running.value;
      SetTask(s, inc.task, s.tasks[inc.task].(spot := Handled(|s.log|), reply := Full(answer, |s.log|)))
      .(handlers := s.handlers[h := s.handlers[h].(running := None)], log := s.log + [Answer(inc.task, inc.data, answer)])
    case HandlerStop(h) =>
      s.(handlers := s.handlers[h := Handler(false, [], None)], tasks := DropIncoming(s.tasks, s.handlers[h].queue))
    case CallRpc(port, data) =>
      s.(rpcs := s.rpcs + [if port in s.registry then Rpc(data, s.registry[port], Connecting, Empty, NotSent)
                           else Rpc(data, 0, Failed, Empty, NotSent)])
    case Send(r) =>
      var sv := s.rpcs[r].target;
      var server := s.servers[sv];
      if server.open
      then SetRpc(SetServer(s, sv, server.(queue := server.queue + [Message(r, s.rpcs[r].data)])),
                  r, s.rpcs[r].(pc := Waiting, place := InQueue))
      else SetRpc(s, r, s.rpcs[r].(pc := Failed))
    case Collect(r) =>
      SetRpc(s, r, s.rpcs[r].(pc := if s.rpcs[r].inbox == Closed then Failed
                                    else Succeeded(s.rpcs[r].inbox.answer, s.rpcs[r].inbox.entry)))
    case Abandon(r) => SetRpc(s, r, s.rpcs[r].(pc := Abandoned))
  }

  /** Step i of a run: an action enabled in one state, leading to the next. */
  predicate StepAt(states: seq<State>, actions: seq<Action>, i: nat) {
    i < |actions| && i + 1 < |states| && Enabled(states[i], actions[i]) && states[i + 1] == Perform(states[i], actions[i])
  }

  ghost predicate IsRun(states: seq<State>, actions: seq<Action>) {
    |states| == |actions| + 1 && states[0] == START && forall i :: 0 <= i < |actions| ==> StepAt(states, actions, i)
  }

  /** The state at the end of some run. */
  ghost predicate Reachable(s: State) {
    exists states, actions :: IsRun(states, actions) && states[|actions|] == s
  }

  /** How an attempt to create a server ends; Overflows is the 16-bit sum that finds no port above the highest. */
  datatype Binding = Bound(port: nat) | NotLocal | PortTaken | Overflows

  /** The shared registry, updated in place under its lock. */
  class ServerManager {
    var servers: map<nat, nat>

    constructor ()
      ensures servers == START.registry
    {
      servers := map[];
    }

    /** Binds the next server of the run exactly when that step is enabled, and otherwise says why not. */
    method CreateServer(port: nat, forceLocalNetwork: bool, server: nat, ghost s: State) returns (r: Binding)
      requires port <= MAX_PORT && servers == s.registry && server == |s.servers|
      modifies this
      ensures r.Bound? <==> forceLocalNetwork && Enabled(s, Action.CreateServer(port))
      ensures r.Bound? ==> servers == Perform(s, Action.CreateServer(port)).registry
      ensures r.Bound? ==> Perform(s, Action.CreateServer(port)).servers[|s.servers|].port == r.port
      ensures !r.Bound? ==> servers == old(servers)
      ensures r == NotLocal <==> !forceLocalNetwork
      ensures r == PortTaken <==> forceLocalNetwork && port in s.registry
      ensures r == Overflows <==> forceLocalNetwork && port == 0 && 0 !in s.registry && Highest(s.registry.Keys) >= MAX_PORT
    {
      if !forceLocalNetwork {
        return NotLocal;
      }
      if port in servers {
        return PortTaken;
      }
      var bound := port;
      if port == 0 {
        bound := Highest(servers.Keys) + 1;
      }
      if bound > MAX_PORT {
        return Overflows;
      }
      servers := servers[bound := server];
      r := Bound(bound);
    }

    method RemoveServer(port: nat)
      modifies this
      ensures servers == old(servers) - {port}
    {
      servers := servers - {port};
    }
  }

  // ---------------------------------------------------------------------------------------------
  // What every step keeps: lifecycle and registry

  predicate HasShutDown(pc: ListenPc) {
    pc == Closing || pc == Done
  }

  predicate HoldsServer(pc: ListenPc) {
    pc == Taking || pc == Looping || pc == Stopped || pc == Draining || HasShutDown(pc)
  }

  /** A server that no listener has taken out of the registry yet. */
  predicate Registered(s: State, sv: nat) {
    sv < |s.servers| &&
    match s.servers[sv].listener
    case None => true
    case Some(c) => c < |s.calls| && (s.calls[c].pc == Taking || s.calls[c].pc == Looping || s.calls[c].pc == Stopped)
  }

  predicate ServerOk(s: State, sv: nat)
    requires sv < |s.servers|
  {
    var x := s.servers[sv];
    && 1 <= x.port <= MAX_PORT
    && (Registered(s, sv) ==> x.port in s.registry && s.registry[x.port] == sv)
    && (x.listener == None <==> x.state == Created)
    && (x.state == Created ==> x.hasReceiver)
    && (!x.open ==> x.queue == [])
    && match x.listener
       case None => x.open
       case Some(c) =>
         && c < |s.calls| && s.calls[c].server == sv && HoldsServer(s.calls[c].pc)
         && (x.state == Shutdown <==> HasShutDown(s.calls[c].pc)) && (x.open <==> s.calls[c].pc != Done)
         && (x.hasReceiver <==> s.calls[c].pc == Taking)
  }

  predicate CallOk(s: State, c: nat)
    requires c < |s.calls|
  {
    var x := s.calls[c];
    && x.server < |s.servers| && x.handler < |s.handlers| && x.pc != NoReceiver
    && (HoldsServer(x.pc) ==> s.servers[x.server].listener == Some(c))
  }

  predicate PortOk(s: State, p: nat)
    requires p in s.registry
  {
    s.registry[p] < |s.servers| && s.servers[s.registry[p]].port == p && Registered(s, s.registry[p])
  }

  ghost predicate Lifecycle(s: State) {
    && (forall sv :: 0 <= sv < |s.servers| ==> ServerOk(s, sv))
    && (forall c :: 0 <= c < |s.calls| ==> CallOk(s, c))
    && (forall p :: p in s.registry ==> PortOk(s, p))
  }

  /** The call an action of listen advances. */
  function CallOf(a: Action): Option<nat> {
    match a
    case CheckState(c) => Some(c) case TakeReceiver(c) => Some(c) case Cancel(c) => Some(c)
    case Receive(c) => Some(c) case Break(c) => Some(c) case Remove(c) => Some(c)
    case Finish(c) => Some(c) case DropReceiver(c) => Some(c)
    case _ => None
  }

  predicate TouchesLifecycle(a: Action) {
    CallOf(a).Some? || a.CreateServer? || a.CallListen?
  }

  /** The same servers, calls and registry; queues may differ, but only those still open. */
  ghost predicate SameButQueues(s: State, t: State) {
    && t.registry == s.registry && t.calls == s.calls && |t.servers| == |s.servers| && |t.handlers| >= |s.handlers|
    && forall sv :: 0 <= sv < |s.servers| ==>
         && t.servers[sv] == s.servers[sv].(queue := t.servers[sv].queue)
         && (s.servers[sv].open || t.servers[sv].queue == s.servers[sv].queue)
  }

  lemma OtherSteps(s: State, a: Action)
    requires Enabled(s, a) && !TouchesLifecycle(a)
    ensures SameButQueues(s, Perform(s, a))
  {
    hide DropIncoming;
  }

  lemma FrameLifecycle(s: State, t: State)
    requires Lifecycle(s) && SameButQueues(s, t)
    ensures Lifecycle(t)
  {
    forall sv | 0 <= sv < |t.servers| ensures ServerOk(t, sv) {
      assert ServerOk(s, sv);
    }
    forall c | 0 <= c < |t.calls| ensures CallOk(t, c) {
      assert CallOk(s, c);
    }
    forall p | p in t.registry ensures PortOk(t, p) {
      assert PortOk(s, p);
    }
  }

  predicate StartsListening(a: Action) {
    a.CreateServer? || a.CallListen? || a.CheckState? || a.TakeReceiver? || a.Cancel?
  }

  lemma StartKeepsServer(s: State, a: Action, sv: nat)
    requires Lifecycle(s) && Enabled(s, a) && StartsListening(a) && sv < |Perform(s, a).servers|
    ensures ServerOk(Perform(s, a), sv)
  {
    hide Highest, DropMessages, DropIncoming, PortOk, AllFinished;
    if sv < |s.servers| {
      assert ServerOk(s, sv);
    }
    if CallOf(a).Some? {
      assert CallOk(s, CallOf(a).value);
    }
  }

  lemma LoopKeepsServer(s: State, a: Action, sv: nat)
    requires Lifecycle(s) && Enabled(s, a) && CallOf(a).Some? && !StartsListening(a) && sv < |Perform(s, a).servers|
    ensures ServerOk(Perform(s, a), sv)
  {
    hide Highest, DropMessages, DropIncoming, PortOk;
    assert ServerOk(s, sv);
    assert CallOk(s, CallOf(a).value);
    assert ServerOk(s, s.calls[CallOf(a).value].server);
  }

  lemma StartKeepsCall(s: State, a: Action, c: nat)
    requires Lifecycle(s) && Enabled(s, a) && StartsListening(a) && c < |Perform(s, a).calls|
    ensures CallOk(Perform(s, a), c)
  {
    hide Highest, DropMessages, DropIncoming, PortOk, Registered;
    if c < |s.calls| {
      assert CallOk(s, c);
      assert ServerOk(s, s.calls[c].server);
    }
    if CallOf(a).Some? {
      assert CallOk(s, CallOf(a).value);
      assert ServerOk(s, s.calls[CallOf(a).value].server);
    }
  }

  lemma LoopKeepsCall(s: State, a: Action, c: nat)
    requires Lifecycle(s) && Enabled(s, a) && CallOf(a).Some? && !StartsListening(a) && c < |Perform(s, a).calls|
    ensures CallOk(Perform(s, a), c)
  {
    hide Highest, DropMessages, DropIncoming, PortOk, Registered, ServerOk;
    assert CallOk(s, c) && CallOk(s, CallOf(a).value);
  }

  lemma StartKeepsPort(s: State, a: Action, p: nat)
    requires Lifecycle(s) && Enabled(s, a) && StartsListening(a) && p in Perform(s, a).registry
    ensures PortOk(Perform(s, a), p)
  {
    hide Highest, DropMessages, DropIncoming;
    if p in s.registry {
      assert PortOk(s, p);
      assert ServerOk(s, s.registry[p]);
    }
    if CallOf(a).Some? {
      assert CallOk(s, CallOf(a).value);
      assert ServerOk(s, s.calls[CallOf(a).value].server);
    }
  }

  lemma LoopKeepsPort(s: State, a: Action, p: nat)
    requires Lifecycle(s) && Enabled(s, a) && CallOf(a).Some? && !StartsListening(a) && p in Perform(s, a).registry
    ensures PortOk(Perform(s, a), p)
  {
    hide Highest, DropMessages, DropIncoming;
    assert PortOk(s, p) && ServerOk(s, s.registry[p]);
    assert CallOk(s, CallOf(a).value) && ServerOk(s, s.calls[CallOf(a).value].server);
  }

  lemma StepKeepsLifecycle(s: State, a: Action)
    requires Lifecycle(s) && Enabled(s, a)
    ensures Lifecycle(Perform(s, a))
  {
    hide Enabled, Perform, ServerOk, CallOk, PortOk;
    var t := Perform(s, a);
    if TouchesLifecycle(a) {
      forall sv | 0 <= sv < |t.servers| ensures ServerOk(t, sv) {
        if StartsListening(a) {
          StartKeepsServer(s, a, sv);
        } else {
          LoopKeepsServer(s, a, sv);
        }
      }
      forall c | 0 <= c < |t.calls| ensures CallOk(t, c) {
        if StartsListening(a) {
          StartKeepsCall(s, a, c);
        } else {
          LoopKeepsCall(s, a, c);
        }
      }
      forall p | p in t.registry ensures PortOk(t, p) {
        if StartsListening(a) {
          StartKeepsPort(s, a, p);
        } else {
          LoopKeepsPort(s, a, p);
        }
      }
    } else {
      OtherSteps(s, a);
      FrameLifecycle(s, t);
    }
  }

  // ---------------------------------------------------------------------------------------------
  // What every step keeps: messages, tasks, handlers and the log

  /** An answer that was logged for a task of this rpc. */
  predicate Answers(s: State, r: nat, answer: Data, k: nat) {
    k < |s.log| && s.log[k].answer == answer && s.log[k].task < |s.tasks| && s.tasks[s.log[k].task].msg.rpc == r
  }

  predicate RpcOk(s: State, r: nat)
    requires r < |s.rpcs|
  {
    var x := s.rpcs[r];
    && (x.place == InQueue ==> x.target < |s.servers| && InMessages(s.servers[x.target].queue, r))
    && (x.place.InTask? ==> RpcInTask(s, r, x.place.task))
    && (x.place == Lost ==> x.inbox != Empty)
    && (x.pc == Connecting ==> x.place == NotSent && x.target < |s.servers|)
    && (x.pc == Waiting ==> x.place != NotSent)
    && (x.inbox.Full? ==> Answers(s, r, x.inbox.answer, x.inbox.entry))
    && (x.pc.Succeeded? ==> Answers(s, r, x.pc.answer, x.pc.entry))
  }

  predicate RpcInTask(s: State, r: nat, t: nat)
    requires r < |s.rpcs|
  {
    && t < |s.tasks| && s.tasks[t].msg == Message(r, s.rpcs[r].data)
    && s.tasks[t].call < |s.calls| && s.calls[s.tasks[t].call].server == s.rpcs[r].target
    && (s.tasks[t].pc == Finished ==> s.rpcs[r].inbox != Empty)
  }

  predicate MessageOk(s: State, sv: nat, m: Message) {
    m.rpc < |s.rpcs| && s.rpcs[m.rpc].place == InQueue && s.rpcs[m.rpc].target == sv && s.rpcs[m.rpc].data == m.data
  }

  ghost predicate QueueOk(s: State, sv: nat)
    requires sv < |s.servers|
  {
    var q := s.servers[sv].queue;
    && (forall i :: 0 <= i < |q| ==> MessageOk(s, sv, q[i]))
    && (forall i, j :: 0 <= i < j < |q| ==> q[i].rpc != q[j].rpc)
  }

  /** Queued at a handler that is still receiving, or being answered by one. */
  predicate AtHandler(s: State, t: nat)
    requires t < |s.tasks|
  {
    match s.tasks[t].spot
    case InHandler(h) => h < |s.handlers| && s.handlers[h].open && InIncoming(s.handlers[h].queue, t)
    case Running(h) => h < |s.handlers| && s.handlers[h].running.Some? && s.handlers[h].running.value.task == t
    case _ => false
  }

  predicate TaskOk(s: State, t: nat)
    requires t < |s.tasks|
  {
    var x := s.tasks[t];
    && x.call < |s.calls| && HoldsServer(s.calls[x.call].pc) && s.calls[x.call].pc != Taking
    && (HasShutDown(s.calls[x.call].pc) ==> x.pc == Finished)
    && x.msg.rpc < |s.rpcs| && s.rpcs[x.msg.rpc].place == InTask(t)
    && (x.pc == Starting || x.pc == Sending ==> x.spot == NotForwarded)
    && (x.spot.InHandler? || x.spot.Running? ==> x.spot.handler == s.calls[x.call].handler)
    && (x.pc == Awaiting && x.reply == Empty ==> AtHandler(s, t))
    && (x.reply.Full? ==> x.spot == Handled(x.reply.entry) && Answers(s, x.msg.rpc, x.reply.answer, x.reply.entry))
  }

  predicate IncomingOk(s: State, inc: Incoming, spot: Spot) {
    inc.task < |s.tasks| && s.tasks[inc.task].spot == spot && s.tasks[inc.task].msg.data == inc.data
  }

  ghost predicate HandlerOk(s: State, h: nat)
    requires h < |s.handlers|
  {
    var x := s.handlers[h];
    && (forall i :: 0 <= i < |x.queue| ==> IncomingOk(s, x.queue[i], InHandler(h)))
    && (forall i, j :: 0 <= i < j < |x.queue| ==> x.queue[i].task != x.queue[j].task)
    && (x.running.Some? ==> x.open && IncomingOk(s, x.running.value, Running(h)))
  }

  predicate LogOk(s: State, k: nat)
    requires k < |s.log|
  {
    IncomingOk(s, Incoming(s.log[k].task, s.log[k].data), Handled(k))
  }

  ghost predicate Traffic(s: State) {
    && (forall r :: 0 <= r < |s.rpcs| ==> RpcOk(s, r))
    && (forall sv :: 0 <= sv < |s.servers| ==> QueueOk(s, sv))
    && (forall t :: 0 <= t < |s.tasks| ==> TaskOk(s, t))
    && (forall h :: 0 <= h < |s.handlers| ==> HandlerOk(s, h))
    && (forall k :: 0 <= k < |s.log| ==> LogOk(s, k))
  }

  ghost predicate Inv(s: State) {
    Lifecycle(s) && Traffic(s)
  }

  /** The invariants of what an action works on. */
  lemma Focus(s: State, a: Action)
    requires Inv(s) && Enabled(s, a)
    ensures CallOf(a).Some? ==> CallOk(s, CallOf(a).value)
    ensures a.Receive? || a.DropReceiver? ==> QueueOk(s, s.calls[CallOf(a).value].server)
    ensures a.CallRpc? && a.port in s.registry ==> PortOk(s, a.port)
    ensures TaskOf(a).Some? ==> TaskOk(s, TaskOf(a).value) && RpcOk(s, s.tasks[TaskOf(a).value].msg.rpc)
    ensures RpcOf(a).Some? ==> RpcOk(s, RpcOf(a).value)
    ensures a.HandlerTake? || a.HandlerReply? || a.HandlerStop? ==> HandlerOk(s, a.handler)
  {
  }

  function TaskOf(a: Action): Option<nat> {
    match a
    case Admit(t) => Some(t) case Refuse(t) => Some(t) case Forward(t) => Some(t) case Resume(t) => Some(t)
    case _ => None
  }

  function RpcOf(a: Action): Option<nat> {
    match a
    case Send(r) => Some(r) case Collect(r) => Some(r) case Abandon(r) => Some(r)
    case _ => None
  }

  /** Steps of listening and creation that touch no message, task, answer or queue. */
  predicate IsQuiet(a: Action) {
    a.NewHandler? || (TouchesLifecycle(a) && !a.Receive? && !a.DropReceiver?)
  }

  ghost predicate SameTraffic(s: State, t: State) {
    && t.rpcs == s.rpcs && t.tasks == s.tasks && t.log == s.log
    && |t.servers| >= |s.servers| && |t.calls| >= |s.calls| && |t.handlers| >= |s.handlers|
    && (forall sv :: 0 <= sv < |t.servers| ==>
          t.servers[sv].queue == if sv < |s.servers| then s.servers[sv].queue else [])
    && (forall h :: 0 <= h < |t.handlers| ==> t.handlers[h] == if h < |s.handlers| then s.handlers[h] else Handler(true, [], None))
    && (forall c :: 0 <= c < |s.calls| ==> t.calls[c].server == s.calls[c].server && CallMoves(s, t, c))
  }

  /** A call that has spawned tasks stays in its loop or moves on to draining, not to its end. */
  predicate SamePc(p: ListenPc, q: ListenPc) {
    p == q || p == Checking || p == Taking || (q != Taking && HoldsServer(q) && !HasShutDown(q))
  }

  predicate CallMoves(s: State, t: State, c: nat) {
    && c < |s.calls| && c < |t.calls|
    && t.calls[c].handler == s.calls[c].handler
    && (SamePc(s.calls[c].pc, t.calls[c].pc) || (t.calls[c].pc == Closing && AllFinished(s, c)))
  }

  lemma QuietSteps(s: State, a: Action)
    requires Inv(s) && Enabled(s, a) && IsQuiet(a)
    ensures SameTraffic(s, Perform(s, a))
  {
    hide Traffic, Highest, DropMessages, DropIncoming;
  }

  lemma FrameTraffic(s: State, t: State)
    requires Traffic(s) && SameTraffic(s, t)
    ensures Traffic(t)
  {
    forall r | 0 <= r < |t.rpcs| ensures RpcOk(t, r) {
      assert RpcOk(s, r);
    }
    forall sv | 0 <= sv < |t.servers| ensures QueueOk(t, sv) {
      assert sv < |s.servers| ==> QueueOk(s, sv);
    }
    forall k | 0 <= k < |t.tasks| ensures TaskOk(t, k) {
      assert TaskOk(s, k);
    }
    forall h | 0 <= h < |t.handlers| ensures HandlerOk(t, h) {
      assert h < |s.handlers| ==> HandlerOk(s, h);
    }
    forall k | 0 <= k < |t.log| ensures LogOk(t, k) {
      assert LogOk(s, k);
    }
  }

  lemma PushMessage(queue: seq<Message>, m: Message)
    ensures forall r :: InMessages(queue + [m], r) <==> InMessages(queue, r) || r == m.rpc
  {
    forall r ensures InMessages(queue + [m], r) <==> InMessages(queue, r) || r == m.rpc {
      if InMessages(queue, r) {
        var i :| 0 <= i < |queue| && queue[i].rpc == r;
        assert (queue + [m])[i].rpc == r;
      }
      assert (queue + [m])[|queue|] == m;
    }
  }

  lemma PopMessage(queue: seq<Message>)
    requires queue != []
    ensures forall r :: InMessages(queue, r) ==> r == queue[0].rpc || InMessages(queue[1..], r)
  {
    forall r | InMessages(queue, r) ensures r == queue[0].rpc || InMessages(queue[1..], r) {
      var i :| 0 <= i < |queue| && queue[i].rpc == r;
      assert i > 0 ==> queue[1..][i - 1].rpc == r;
    }
  }

  lemma PushIncoming(queue: seq<Incoming>, inc: Incoming)
    ensures forall t :: InIncoming(queue + [inc], t) <==> InIncoming(queue, t) || t == inc.task
  {
    forall t ensures InIncoming(queue + [inc], t) <==> InIncoming(queue, t) || t == inc.task {
      if InIncoming(queue, t) {
        var i :| 0 <= i < |queue| && queue[i].task == t;
        assert (queue + [inc])[i].task == t;
      }
      assert (queue + [inc])[|queue|] == inc;
    }
  }

  lemma PopIncoming(queue: seq<Incoming>)
    requires queue != []
    ensures forall t :: InIncoming(queue, t) ==> t == queue[0].task || InIncoming(queue[1..], t)
  {
    forall t | InIncoming(queue, t) ensures t == queue[0].task || InIncoming(queue[1..], t) {
      var i :| 0 <= i < |queue| && queue[i].task == t;
      assert i > 0 ==> queue[1..][i - 1].task == t;
    }
  }

  lemma DroppedMessages(s: State, sv: nat)
    requires sv < |s.servers| && QueueOk(s, sv)
    ensures forall r: nat | r < |s.rpcs| ::
              var queued := InMessages(s.servers[sv].queue, r);
              && (queued ==> s.rpcs[r].place == InQueue && s.rpcs[r].target == sv)
              && DropMessages(s.rpcs, s.servers[sv].queue)[r]
                 == if queued then s.rpcs[r].(inbox := Closed, place := Lost) else s.rpcs[r]
  {
  }

  lemma DroppedIncoming(s: State, h: nat)
    requires h < |s.handlers| && HandlerOk(s, h)
    ensures forall t: nat | t < |s.tasks| ::
              var queued := InIncoming(s.handlers[h].queue, t);
              && (queued ==> s.tasks[t].spot == InHandler(h))
              && DropIncoming(s.tasks, s.handlers[h].queue)[t]
                 == if queued then s.tasks[t].(reply := Closed, spot := Unhandled) else s.tasks[t]
  {
  }

  predicate ByServer(a: Action) {
    a.Receive? || a.DropReceiver?
  }

  predicate ByHandler(a: Action) {
    a.HandlerTake? || a.HandlerReply? || a.HandlerStop?
  }

  predicate ByRpc(a: Action) {
    a.CallRpc? || RpcOf(a).Some?
  }

  lemma ServerKeepsRpc(s: State, a: Action, r: nat)
    requires Inv(s) && Enabled(s, a) && ByServer(a) && r < |s.rpcs|
    ensures RpcOk(Perform(s, a), r)
  {
    hide Lifecycle, Highest, DropIncoming, DropMessages, InMessages, TaskOk, HandlerOk;
    Focus(s, a);
    assert RpcOk(s, r);
    var sv := s.calls[a.call].server;
    if a.Receive? {
      PopMessage(s.servers[sv].queue);
    } else {
      DroppedMessages(s, sv);
    }
  }

  /** Ending a task fills or closes its rpc's response channel, with an answer logged for that rpc if any. */
  lemma EndTaskKeepsRpc(s: State, t: nat, inbox: Oneshot, r: nat)
    requires Inv(s) && t < |s.tasks| && s.tasks[t].msg.rpc < |s.rpcs| && r < |s.rpcs|
    requires inbox != Empty && (inbox.Full? ==> Answers(s, s.tasks[t].msg.rpc, inbox.answer, inbox.entry))
    ensures RpcOk(EndTask(s, t, inbox), r)
  {
    hide Lifecycle, InMessages;
    assert RpcOk(s, r) && TaskOk(s, t);
  }

  lemma TaskKeepsRpc(s: State, a: Action, r: nat)
    requires Inv(s) && Enabled(s, a) && TaskOf(a).Some? && r < |s.rpcs|
    ensures RpcOk(Perform(s, a), r)
  {
    hide Lifecycle, Highest, DropMessages, DropIncoming, InMessages, InIncoming, QueueOk, HandlerOk, AtHandler, EndTask;
    assert TaskOk(s, a.task) && RpcOk(s, r);
    EndTaskKeepsRpc(s, a.task, if a.Resume? then s.tasks[a.task].reply else Closed, r);
  }

  lemma HandlerKeepsRpc(s: State, a: Action, r: nat)
    requires Inv(s) && Enabled(s, a) && ByHandler(a) && r < |s.rpcs|
    ensures RpcOk(Perform(s, a), r)
  {
    hide Lifecycle, Highest, DropMessages, DropIncoming, InMessages, InIncoming, QueueOk;
    Focus(s, a);
    assert RpcOk(s, r);
    DroppedIncoming(s, a.handler);
  }

  lemma SendKeepsRpc(s: State, a: Action, r: nat)
    requires Inv(s) && Enabled(s, a) && a.Send? && r < |s.rpcs|
    ensures RpcOk(Perform(s, a), r)
  {
    hide Lifecycle, Highest, DropMessages, DropIncoming, InMessages, InIncoming, QueueOk, HandlerOk, TaskOk;
    PushMessage(s.servers[s.rpcs[a.rpc].target].queue, Message(a.rpc, s.rpcs[a.rpc].data));
    assert RpcOk(s, r) && RpcOk(s, a.rpc);
  }

  lemma RpcKeepsRpc(s: State, a: Action, r: nat)
    requires Inv(s) && Enabled(s, a) && ByRpc(a) && !a.Send? && r < |Perform(s, a).rpcs|
    ensures RpcOk(Perform(s, a), r)
  {
    hide Lifecycle, Highest, DropMessages, DropIncoming, InMessages, InIncoming, QueueOk, HandlerOk, TaskOk;
    Focus(s, a);
    if r < |s.rpcs| {
      assert RpcOk(s, r);
    }
  }

  lemma ServerKeepsQueue(s: State, a: Action, sv: nat)
    requires Inv(s) && Enabled(s, a) && ByServer(a) && sv < |s.servers|
    ensures QueueOk(Perform(s, a), sv)
  {
    hide Lifecycle, Highest, DropMessages, DropIncoming, InMessages, InIncoming, HandlerOk, TaskOk, RpcOk;
    Focus(s, a);
    assert QueueOk(s, sv);
    if a.DropReceiver? {
      DroppedMessages(s, s.calls[a.call].server);
    }
  }

  lemma OthersKeepQueue(s: State, a: Action, sv: nat)
    requires Inv(s) && Enabled(s, a) && !IsQuiet(a) && !ByServer(a) && sv < |s.servers|
    ensures QueueOk(Perform(s, a), sv)
  {
    hide Lifecycle, Highest, DropMessages, DropIncoming, InMessages, InIncoming, HandlerOk, TaskOk;
    Focus(s, a);
    assert QueueOk(s, sv);
  }

  lemma TakingKeepsTask(s: State, a: Action, t: nat)
    requires Inv(s) && Enabled(s, a) && a.HandlerTake? && t < |s.tasks|
    ensures TaskOk(Perform(s, a), t)
  {
    hide Lifecycle, Highest, DropMessages, DropIncoming, InMessages, InIncoming, QueueOk, RpcOk;
    Focus(s, a);
    assert TaskOk(s, t);
    PopIncoming(s.handlers[a.handler].queue);
  }

  lemma HandlerKeepsTask(s: State, a: Action, t: nat)
    requires Inv(s) && Enabled(s, a) && (a.HandlerReply? || a.HandlerStop?) && t < |s.tasks|
    ensures TaskOk(Perform(s, a), t)
  {
    hide Lifecycle, Highest, DropMessages, DropIncoming, InMessages, InIncoming, QueueOk, RpcOk;
    Focus(s, a);
    assert TaskOk(s, t);
    DroppedIncoming(s, a.handler);
  }

  lemma ServerKeepsTask(s: State, a: Action, t: nat)
    requires Inv(s) && Enabled(s, a) && ByServer(a) && t < |Perform(s, a).tasks|
    ensures TaskOk(Perform(s, a), t)
  {
    hide Lifecycle, Highest, DropMessages, DropIncoming, InMessages, InIncoming, HandlerOk, RpcOk;
    Focus(s, a);
    if t < |s.tasks| {
      assert TaskOk(s, t);
    }
    if a.DropReceiver? {
      DroppedMessages(s, s.calls[a.call].server);
    }
  }

  lemma TaskKeepsTask(s: State, a: Action, t: nat)
    requires Inv(s) && Enabled(s, a) && TaskOf(a).Some? && t < |s.tasks|
    ensures TaskOk(Perform(s, a), t)
  {
    hide Lifecycle, Highest, DropMessages, DropIncoming, InMessages, InIncoming, HandlerOk, QueueOk, RpcOk;
    Focus(s, a);
    assert TaskOk(s, t);
    if a.Forward? {
      var h := s.calls[s.tasks[a.task].call].handler;
      PushIncoming(s.handlers[h].queue, Incoming(a.task, s.tasks[a.task].msg.data));
    }
  }

  lemma RpcKeepsTask(s: State, a: Action, t: nat)
    requires Inv(s) && Enabled(s, a) && ByRpc(a) && t < |s.tasks|
    ensures TaskOk(Perform(s, a), t)
  {
    hide Lifecycle, Highest, DropMessages, DropIncoming, InMessages, InIncoming, HandlerOk, QueueOk;
    Focus(s, a);
    assert TaskOk(s, t);
  }

  lemma HandlerKeepsHandler(s: State, a: Action, h: nat)
    requires Inv(s) && Enabled(s, a) && ByHandler(a) && h < |s.handlers|
    ensures HandlerOk(Perform(s, a), h)
  {
    hide Lifecycle, Highest, DropMessages, DropIncoming, InMessages, QueueOk, RpcOk, TaskOk;
    Focus(s, a);
    assert HandlerOk(s, h);
    DroppedIncoming(s, a.handler);
  }

  lemma ForwardKeepsHandler(s: State, a: Action, h: nat)
    requires Inv(s) && Enabled(s, a) && a.Forward? && h < |s.handlers|
    ensures HandlerOk(Perform(s, a), h)
  {
    hide Lifecycle, Highest, DropMessages, DropIncoming, InMessages, InIncoming, QueueOk, RpcOk, AtHandler;
    Focus(s, a);
    assert HandlerOk(s, h);
  }

  lemma OthersKeepHandler(s: State, a: Action, h: nat)
    requires Inv(s) && Enabled(s, a) && !IsQuiet(a) && !ByHandler(a) && !a.Forward? && h < |s.handlers|
    ensures HandlerOk(Perform(s, a), h)
  {
    hide Lifecycle, Traffic, Highest, DropMessages, DropIncoming, InMessages, InIncoming;
    var u := Perform(s, a);
    assert u.handlers == s.handlers;
    assert forall t :: 0 <= t < |s.tasks| ==>
        t < |u.tasks| && u.tasks[t].spot == s.tasks[t].spot && u.tasks[t].msg == s.tasks[t].msg;
    assert HandlerOk(s, h) by {
      HandlerHolds(s, h);
    }
    hide Perform, Enabled;
  }

  lemma HandlerHolds(s: State, h: nat)
    requires Traffic(s) && h < |s.handlers|
    ensures HandlerOk(s, h)
  {
  }

  lemma HandlerKeepsLog(s: State, a: Action, k: nat)
    requires Inv(s) && Enabled(s, a) && ByHandler(a) && k < |Perform(s, a).log|
    ensures LogOk(Perform(s, a), k)
  {
    hide Lifecycle, Highest, DropMessages, DropIncoming, InMessages, InIncoming, QueueOk, RpcOk, TaskOk;
    Focus(s, a);
    if k < |s.log| {
      assert LogOk(s, k);
    }
    DroppedIncoming(s, a.handler);
  }

  lemma OthersKeepLog(s: State, a: Action, k: nat)
    requires Inv(s) && Enabled(s, a) && !IsQuiet(a) && !ByHandler(a) && k < |s.log|
    ensures LogOk(Perform(s, a), k)
  {
    hide Lifecycle, Highest, DropMessages, DropIncoming, InMessages, InIncoming, QueueOk, RpcOk, HandlerOk, AtHandler;
    Focus(s, a);
    assert LogOk(s, k);
  }

  /** What steps add: a call an rpc, receiving a task, answering a log line. */
  lemma StepSizes(s: State, a: Action)
    requires Enabled(s, a) && !IsQuiet(a)
    ensures var u := Perform(s, a);
            && |u.servers| == |s.servers| && |u.handlers| == |s.handlers|
            && (!a.CallRpc? ==> |u.rpcs| == |s.rpcs|)
            && (!a.Receive? ==> |u.tasks| == |s.tasks|)
            && (!a.HandlerReply? ==> |u.log| == |s.log|)
  {
    hide Highest;
  }

  lemma StepKeepsInv(s: State, a: Action)
    requires Inv(s) && Enabled(s, a)
    ensures Inv(Perform(s, a))
  {
    hide Lifecycle, Traffic;
    StepKeepsLifecycle(s, a);
    StepKeepsTraffic(s, a);
  }

  lemma StepKeepsTraffic(s: State, a: Action)
    requires Inv(s) && Enabled(s, a)
    ensures Traffic(Perform(s, a))
  {
    hide Enabled, Perform, Lifecycle, RpcOk, QueueOk, TaskOk, HandlerOk, LogOk;
    var u := Perform(s, a);
    if IsQuiet(a) {
      QuietSteps(s, a);
      FrameTraffic(s, u);
    } else {
      StepSizes(s, a);
      forall r | 0 <= r < |u.rpcs| ensures RpcOk(u, r) {
        if ByServer(a) {
          ServerKeepsRpc(s, a, r);
        } else if ByHandler(a) {
          HandlerKeepsRpc(s, a, r);
        } else if a.Send? {
          SendKeepsRpc(s, a, r);
        } else if ByRpc(a) {
          RpcKeepsRpc(s, a, r);
        } else {
          TaskKeepsRpc(s, a, r);
        }
      }
      forall sv | 0 <= sv < |u.servers| ensures QueueOk(u, sv) {
        if ByServer(a) {
          ServerKeepsQueue(s, a, sv);
        } else {
          OthersKeepQueue(s, a, sv);
        }
      }
      forall t | 0 <= t < |u.tasks| ensures TaskOk(u, t) {
        if a.HandlerTake? {
          TakingKeepsTask(s, a, t);
        } else if ByHandler(a) {
          HandlerKeepsTask(s, a, t);
        } else if ByServer(a) {
          ServerKeepsTask(s, a, t);
        } else if ByRpc(a) {
          RpcKeepsTask(s, a, t);
        } else {
          TaskKeepsTask(s, a, t);
        }
      }
      forall h | 0 <= h < |u.handlers| ensures HandlerOk(u, h) {
        if ByHandler(a) {
          HandlerKeepsHandler(s, a, h);
        } else if a.Forward? {
          ForwardKeepsHandler(s, a, h);
        } else {
          OthersKeepHandler(s, a, h);
        }
      }
      forall k | 0 <= k < |u.log| ensures LogOk(u, k) {
        if ByHandler(a) {
          HandlerKeepsLog(s, a, k);
        } else {
          OthersKeepLog(s, a, k);
        }
      }
    }
  }
}
