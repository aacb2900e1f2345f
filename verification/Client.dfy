/**
 Concurrent calls on the client's side: tasks call rpc_call on a bridge and its clones, which share one
 RpcSocket and so one lock (rpc_bridge.py, rpc_socket.py). Tasks, the server and the network take
 their steps in any order.
 */
module Client {
  import opened Bytes
  import opened RpcMessages
  import Session

  /** Where a task is in rpc_msg_send_recv. */
  datatype Progress =
    | Waiting // for the lock
    | Locked
    | Sent
    | Returned(origin: nat, reply: RpcMessage) // `origin` is the task whose request was answered
    | Raised

  datatype Task = Task(bridge: nat, request: RpcMessage, progress: Progress)

  datatype Asked = Asked(origin: nat, request: RpcMessage)
  datatype Answer = Answer(origin: nat, reply: RpcMessage)

  /** An RpcSocket: its lock, and the messages on their way in both directions. */
  datatype Connection = Connection(lock: Option<nat>, toServer: seq<Asked>, toClient: seq<Answer>)

  /** `bridges[b]` is the connection whose socket bridge `b` has. */
  datatype State = State(bridges: seq<nat>, connections: seq<Connection>, tasks: seq<Task>)

  const START := State([], [], [])

  datatype Step =
    | Connect
    | Clone(bridge: nat)
    | Call(bridge: nat, request: RpcMessage)
    | Acquire(task: nat)
    | Send(task: nat)
    | Serve(connection: nat, reply: RpcMessage)
    | Receive(task: nat)
    | Raise(task: nat)

  predicate Wired(s: State) {
    && (forall b :: 0 <= b < |s.bridges| ==> s.bridges[b] < |s.connections|)
    && (forall t :: 0 <= t < |s.tasks| ==> s.tasks[t].bridge < |s.bridges|)
  }

  /** The connection that a task uses. */
  function ConnectionOf(s: State, t: nat): (c: nat)
    requires Wired(s) && t < |s.tasks|
    ensures c < |s.connections|
  {
    s.bridges[s.tasks[t].bridge]
  }

  /** May the server have sent this reply to this request? */
  ghost predicate Answers(request: RpcMessage, reply: RpcMessage) {
    exists outcome :: Session.ReplyIs(request, outcome, reply)
  }

  ghost predicate Enabled(s: State, step: Step)
    requires Wired(s)
  {
    match step
    case Connect => true
    case Clone(b) => b < |s.bridges|
    case Call(b, _) => b < |s.bridges|
    case Acquire(t) => t < |s.tasks| && s.tasks[t].progress == Waiting && s.connections[ConnectionOf(s, t)].lock == None
    case Send(t) => t < |s.tasks| && s.tasks[t].progress == Locked
    case Serve(c, reply) =>
      c < |s.connections| && s.connections[c].toServer != [] && Answers(s.connections[c].toServer[0].request, reply)
    case Receive(t) => t < |s.tasks| && s.tasks[t].progress == Sent && s.connections[ConnectionOf(s, t)].toClient != []
    case Raise(t) => t < |s.tasks| && s.tasks[t].progress in {Locked, Sent}
  }

  function WithTask(s: State, t: nat, p: Progress): (s': State)
    requires t < |s.tasks|
    ensures Wired(s) ==> Wired(s')
  {
    s.(tasks := s.tasks[t := s.tasks[t].(progress := p)])
  }

  function WithConnection(s: State, c: nat, conn: Connection): (s': State)
    requires c < |s.connections|
    ensures Wired(s) ==> Wired(s')
  {
    s.(connections := s.connections[c := conn])
  }

  function Next(s: State, step: Step): (s': State)
    requires Wired(s) && Enabled(s, step)
    ensures Wired(s')
  {
    match step
    case Connect =>
      State(s.bridges + [|s.connections|], s.connections + [Connection(None, [], [])], s.tasks)
    case Clone(b) =>
      s.(bridges := s.bridges + [s.bridges[b]])
    case Call(b, request) =>
      s.(tasks := s.tasks + [Task(b, request, Waiting)])
    case Acquire(t) =>
      var c := ConnectionOf(s, t);
      WithTask(WithConnection(s, c, s.connections[c].(lock := Some(t))), t, Locked)
    case Send(t) =>
      var c := ConnectionOf(s, t);
      var conn := s.connections[c];
      WithTask(WithConnection(s, c, conn.(toServer := conn.toServer + [Asked(t, s.tasks[t].request)])), t, Sent)
    case Serve(c, reply) =>
      // the server answers one request after the other
      var conn := s.connections[c];
      WithConnection(s, c, conn.(toServer := conn.toServer[1..], toClient := conn.toClient + [Answer(conn.toServer[0].origin, reply)]))
    case Receive(t) =>
      var c := ConnectionOf(s, t);
      var conn := s.connections[c];
      var a := conn.toClient[0];
      WithTask(WithConnection(s, c, conn.(toClient := conn.toClient[1..], lock := None)), t, Returned(a.origin, a.reply))
    case Raise(t) =>
      // leaving the block releases the lock, and what is on its way stays there
      var c := ConnectionOf(s, t);
      WithTask(WithConnection(s, c, s.connections[c].(lock := None)), t, Raised)
  }

  /** The steps can be taken one after the other. */
  ghost predicate IsRun(s: State, steps: seq<Step>)
    requires Wired(s)
    decreases |steps|
  {
    steps == [] || (Enabled(s, steps[0]) && IsRun(Next(s, steps[0]), steps[1..]))
  }

  ghost function End(s: State, steps: seq<Step>): (s': State)
    requires Wired(s) && IsRun(s, steps)
    ensures Wired(s')
    decreases |steps|
  {
    if steps == [] then s else End(Next(s, steps[0]), steps[1..])
  }

  /** How often a task on connection `c` raises in the run after it has sent its request. */
  ghost function Orphans(s: State, steps: seq<Step>, c: nat): nat
    requires Wired(s) && IsRun(s, steps)
    decreases |steps|
  {
    if steps == [] then 0
    else (if Orphaned(s, steps[0], c) then 1 else 0) + Orphans(Next(s, steps[0]), steps[1..], c)
  }

  /** Does the step leave a request on connection `c` whose reply nobody waits for? */
  ghost predicate Orphaned(s: State, step: Step, c: nat)
    requires Wired(s) && Enabled(s, step)
  {
    step.Raise? && s.tasks[step.task].progress == Sent && ConnectionOf(s, step.task) == c
  }

  // ---- The invariant --------------------------------------------------------------------------

  predicate Busy(p: Progress) { p == Locked || p == Sent }

  /** The tasks whose request or reply is on its way, the first to be received first. */
  function InFlight(conn: Connection): (r: seq<nat>)
    ensures |r| == |conn.toClient| + |conn.toServer|
  {
    seq(|conn.toClient|, i requires 0 <= i < |conn.toClient| => conn.toClient[i].origin)
    + seq(|conn.toServer|, i requires 0 <= i < |conn.toServer| => conn.toServer[i].origin)
  }

  /** Only the task that holds the lock is busy, and a reply from the task's own request answers it. */
  ghost predicate TaskOk(s: State, t: nat)
    requires Wired(s) && t < |s.tasks|
  {
    && (Busy(s.tasks[t].progress) ==> s.connections[ConnectionOf(s, t)].lock == Some(t))
    && (s.tasks[t].progress.Returned? && s.tasks[t].progress.origin == t ==> Answers(s.tasks[t].request, s.tasks[t].progress.reply))
  }

  /** A message on its way comes from a task that has sent, and a reply answers its request. */
  ghost predicate MessagesOk(s: State, conn: Connection) {
    && (forall k :: 0 <= k < |conn.toServer| ==> AskedOk(s, conn.toServer[k]))
    && (forall k :: 0 <= k < |conn.toClient| ==> AnswerOk(s, conn.toClient[k]))
  }

  ghost predicate HasSent(s: State, t: nat) {
    t < |s.tasks| && s.tasks[t].progress != Waiting && s.tasks[t].progress != Locked
  }

  ghost predicate AskedOk(s: State, a: Asked) {
    HasSent(s, a.origin) && a.request == s.tasks[a.origin].request
  }

  ghost predicate AnswerOk(s: State, a: Answer) {
    HasSent(s, a.origin) && Answers(s.tasks[a.origin].request, a.reply)
  }

  ghost predicate Distinct(ts: seq<nat>) {
    forall i, j :: 0 <= i < j < |ts| ==> ts[i] != ts[j]
  }

  /** Is the connection waiting for the reply to the request of the task that holds the lock? */
  ghost predicate Waits(s: State, conn: Connection) {
    conn.lock.Some? && conn.lock.value < |s.tasks| && s.tasks[conn.lock.value].progress == Sent
  }

  /**
   The messages on their way are those of `orphans` earlier tasks and, last, that of the task that
   has sent and holds the lock.
   */
  ghost predicate ConnectionOk(s: State, c: nat, orphans: nat)
    requires Wired(s) && c < |s.connections|
  {
    var conn := s.connections[c];
    && MessagesOk(s, conn)
    && Distinct(InFlight(conn))
    && |InFlight(conn)| == orphans + (if Waits(s, conn) then 1 else 0)
    && (Waits(s, conn) ==> InFlight(conn)[orphans] == conn.lock.value)
    && (conn.lock.Some? ==>
          var t := conn.lock.value;
          t < |s.tasks| && ConnectionOf(s, t) == c && Busy(s.tasks[t].progress))
  }

  ghost predicate Inv(s: State, orphans: seq<nat>) {
    && Wired(s)
    && |orphans| == |s.connections|
    && (forall t :: 0 <= t < |s.tasks| ==> TaskOk(s, t))
    && (forall c :: 0 <= c < |s.connections| ==> ConnectionOk(s, c, orphans[c]))
  }

  /** The numbers of orphans after a step. */
  ghost function Counted(s: State, orphans: seq<nat>, step: Step): (r: seq<nat>)
    requires Wired(s) && Enabled(s, step) && |orphans| == |s.connections|
    ensures |r| == |Next(s, step).connections|
    ensures forall c :: 0 <= c < |orphans| ==> r[c] == orphans[c] + if Orphaned(s, step, c) then 1 else 0
  {
    seq(|Next(s, step).connections|, c requires 0 <= c < |Next(s, step).connections| =>
      if c < |orphans| then orphans[c] + (if Orphaned(s, step, c) then 1 else 0) else 0)
  }

  /** The task that takes a step, if a task does. */
  function Actor(step: Step): Option<nat> {
    match step
    case Acquire(t) => Some(t)
    case Send(t) => Some(t)
    case Receive(t) => Some(t)
    case Raise(t) => Some(t)
    case _ => None
  }

  lemma TaskKept(s: State, step: Step, t: nat, orphans: nat)
    requires Wired(s) && Enabled(s, step) && t < |s.tasks| && TaskOk(s, t) && ConnectionOk(s, ConnectionOf(s, t), orphans)
    requires Actor(step).Some? ==> TaskOk(s, Actor(step).value)
    ensures TaskOk(Next(s, step), t)
  {
    hide Answers, Distinct;
    assert ConnectionOf(Next(s, step), t) == ConnectionOf(s, t);
    if step == Receive(t) {
      var conn := s.connections[ConnectionOf(s, t)];
      assert AnswerOk(s, conn.toClient[0]);
    }
  }

  /** Is the step one on connection `c`? */
  ghost predicate Concerns(s: State, step: Step, c: nat)
    requires Wired(s) && Enabled(s, step)
  {
    (Actor(step).Some? && ConnectionOf(s, Actor(step).value) == c) || (step.Serve? && step.connection == c)
  }

  /** A task that has sent has sent in every later state, and its request is the same. */
  lemma SentStays(s: State, step: Step, t: nat)
    requires Wired(s) && Enabled(s, step) && HasSent(s, t)
    ensures HasSent(Next(s, step), t) && Next(s, step).tasks[t].request == s.tasks[t].request
  {}

  lemma MessagesStay(s: State, step: Step, conn: Connection)
    requires Wired(s) && Enabled(s, step) && MessagesOk(s, conn)
    ensures MessagesOk(Next(s, step), conn)
  {
    hide Answers, Next, HasSent;
    forall k | 0 <= k < |conn.toServer|
      ensures AskedOk(Next(s, step), conn.toServer[k])
    {
      SentStays(s, step, conn.toServer[k].origin);
    }
    forall k | 0 <= k < |conn.toClient|
      ensures AnswerOk(Next(s, step), conn.toClient[k])
    {
      SentStays(s, step, conn.toClient[k].origin);
    }
  }

  lemma ElsewhereKept(s: State, step: Step, c: nat, orphans: nat)
    requires Wired(s) && Enabled(s, step) && c < |s.connections| && ConnectionOk(s, c, orphans) && !Concerns(s, step, c)
    ensures ConnectionOk(Next(s, step), c, orphans)
  {
    MessagesStay(s, step, s.connections[c]);
    hide MessagesOk, Distinct, InFlight;
    var s' := Next(s, step);
    assert s'.connections[c] == s.connections[c];
    if s.connections[c].lock.Some? {
      var t := s.connections[c].lock.value;
      assert ConnectionOf(s', t) == c && s'.tasks[t] == s.tasks[t];
    }
  }

  /** Acquiring, and raising, change the lock and nothing that is on its way. */
  lemma LockKept(s: State, step: Step, c: nat, orphans: nat)
    requires Wired(s) && Enabled(s, step) && c < |s.connections| && ConnectionOk(s, c, orphans) && Concerns(s, step, c)
    requires step.Acquire? || step.Raise?
    requires TaskOk(s, Actor(step).value)
    ensures ConnectionOk(Next(s, step), c, orphans + if Orphaned(s, step, c) then 1 else 0)
  {
    var conn := s.connections[c];
    var conn' := Next(s, step).connections[c];
    MessagesStay(s, step, conn);
    assert InFlight(conn') == InFlight(conn);
    hide Distinct, InFlight, AskedOk, AnswerOk;
    assert ConnectionOf(Next(s, step), Actor(step).value) == c;
  }

  lemma SendKept(s: State, t: nat, c: nat, orphans: nat)
    requires Wired(s) && Enabled(s, Send(t)) && c < |s.connections| && ConnectionOk(s, c, orphans) && ConnectionOf(s, t) == c
    requires TaskOk(s, t)
    ensures ConnectionOk(Next(s, Send(t)), c, orphans)
  {
    var step := Send(t);
    var conn := s.connections[c];
    var s' := Next(s, step);
    var conn' := s'.connections[c];
    MessagesStay(s, step, conn);
    NotInFlight(s, conn, t);
    hide Answers;
    assert InFlight(conn') == InFlight(conn) + [t];
    assert AskedOk(s', Asked(t, s.tasks[t].request));
    assert conn'.toServer == conn.toServer + [Asked(t, s.tasks[t].request)];
    assert MessagesOk(s', conn');
    assert ConnectionOf(s', t) == c;
    hide MessagesOk, InFlight;
  }

  /** A task that has not sent yet has nothing on its way. */
  lemma NotInFlight(s: State, conn: Connection, t: nat)
    requires MessagesOk(s, conn) && !HasSent(s, t)
    ensures t !in InFlight(conn)
  {
    forall k | 0 <= k < |InFlight(conn)|
      ensures HasSent(s, InFlight(conn)[k])
    {
      if k < |conn.toClient| { assert AnswerOk(s, conn.toClient[k]); } else { assert AskedOk(s, conn.toServer[k - |conn.toClient|]); }
    }
  }

  lemma ServeKept(s: State, c: nat, reply: RpcMessage, orphans: nat)
    requires Wired(s) && Enabled(s, Serve(c, reply)) && ConnectionOk(s, c, orphans)
    ensures ConnectionOk(Next(s, Serve(c, reply)), c, orphans)
  {
    var s' := Next(s, Serve(c, reply));
    var conn, conn' := s.connections[c], s'.connections[c];
    hide Answers;
    assert AskedOk(s, conn.toServer[0]);
    assert InFlight(conn') == InFlight(conn);
    assert forall t :: 0 <= t < |s.tasks| ==> ConnectionOf(s', t) == ConnectionOf(s, t);
    assert MessagesOk(s', conn');
    hide MessagesOk, InFlight, Distinct;
  }

  lemma ReceiveKept(s: State, t: nat, c: nat, orphans: nat)
    requires Wired(s) && Enabled(s, Receive(t)) && c < |s.connections| && ConnectionOk(s, c, orphans) && ConnectionOf(s, t) == c
    requires TaskOk(s, t)
    ensures ConnectionOk(Next(s, Receive(t)), c, orphans)
  {
    var step := Receive(t);
    var s' := Next(s, step);
    var conn, conn' := s.connections[c], s'.connections[c];
    MessagesStay(s, step, conn);
    hide Answers;
    assert InFlight(conn') == InFlight(conn)[1..];
    assert MessagesOk(s', conn');
    hide MessagesOk, InFlight;
  }

  /** Every step of a task, of the server and of the network keeps the invariant. */
  lemma StepKeeps(s: State, step: Step, orphans: seq<nat>)
    requires Inv(s, orphans) && Enabled(s, step)
    ensures Inv(Next(s, step), Counted(s, orphans, step))
  {
    hide TaskOk, ConnectionOk;
    var s' := Next(s, step);
    var after := Counted(s, orphans, step);
    forall t | 0 <= t < |s'.tasks|
      ensures TaskOk(s', t)
    {
      if t < |s.tasks| { TaskKept(s, step, t, orphans[ConnectionOf(s, t)]); } else { NewTask(s, step); }
    }
    forall c | 0 <= c < |s'.connections|
      ensures ConnectionOk(s', c, after[c])
    {
      if c >= |s.connections| {
        NewConnection(s);
      } else if !Concerns(s, step, c) {
        ElsewhereKept(s, step, c, orphans[c]);
      } else {
        match step
        case Acquire(_) => LockKept(s, step, c, orphans[c]);
        case Raise(_) => LockKept(s, step, c, orphans[c]);
        case Send(t) => SendKept(s, t, c, orphans[c]);
        case Serve(_, reply) => ServeKept(s, c, reply, orphans[c]);
        case Receive(t) => ReceiveKept(s, t, c, orphans[c]);
      }
    }
  }

  lemma NewTask(s: State, step: Step)
    requires Wired(s) && step.Call? && Enabled(s, step)
    ensures TaskOk(Next(s, step), |s.tasks|)
  {}

  lemma NewConnection(s: State)
    requires Wired(s)
    ensures ConnectionOk(Next(s, Connect), |s.connections|, 0)
  {}

  /** After any run the number of orphans on a connection is the number of tasks that have raised after sending. */
  lemma {:induction false} RunKeeps(s: State, steps: seq<Step>, orphans: seq<nat>) returns (after: seq<nat>)
    requires Inv(s, orphans) && IsRun(s, steps)
    ensures Inv(End(s, steps), after)
    ensures |orphans| <= |after| && forall c :: 0 <= c < |orphans| ==> after[c] == orphans[c] + Orphans(s, steps, c)
    ensures forall c :: |orphans| <= c < |after| ==> after[c] == Orphans(s, steps, c)
    decreases |steps|
  {
    hide Inv, Next, Enabled;
    InvIsWired(s, orphans);
    if steps == [] {
      after := orphans;
    } else {
      StepKeeps(s, steps[0], orphans);
      var counted := Counted(s, orphans, steps[0]);
      after := RunKeeps(Next(s, steps[0]), steps[1..], counted);
      forall c | |orphans| <= c
        ensures !Orphaned(s, steps[0], c)
      {
        NotThereYet(s, steps[0], orphans, c);
      }
      NoneOnNew(s, steps[0], orphans);
    }
  }

  lemma InvIsWired(s: State, orphans: seq<nat>)
    requires Inv(s, orphans)
    ensures Wired(s) && |orphans| == |s.connections|
  {}

  lemma NotThereYet(s: State, step: Step, orphans: seq<nat>, c: nat)
    requires Wired(s) && Enabled(s, step) && |orphans| == |s.connections| <= c
    ensures !Orphaned(s, step, c)
  {}

  lemma NoneOnNew(s: State, step: Step, orphans: seq<nat>)
    requires Wired(s) && Enabled(s, step) && |orphans| == |s.connections|
    ensures |orphans| <= |Counted(s, orphans, step)|
    ensures forall c :: |orphans| <= c < |Counted(s, orphans, step)| ==> Counted(s, orphans, step)[c] == 0
  {}

  /** The invariant after a run from the start. */
  lemma ReachedOk(steps: seq<Step>, c: nat)
    requires IsRun(START, steps) && c < |End(START, steps).connections|
    ensures ConnectionOk(End(START, steps), c, Orphans(START, steps, c))
    ensures forall t :: 0 <= t < |End(START, steps).tasks| ==> TaskOk(End(START, steps), t)
  {
    hide ConnectionOk, TaskOk, IsRun, End, Orphans;
    var after := RunKeeps(START, steps, []);
  }

  // ---- The guarantees -------------------------------------------------------------------------

  /**
   In every interleaving of any number of tasks on any number of bridges and clones, the messages on
   their way on a connection are those of the tasks that have raised after sending, and that of the
   task that now waits for its reply.
   */
  lemma MessagesInFlight(steps: seq<Step>, c: nat)
    requires IsRun(START, steps) && c < |End(START, steps).connections|
    ensures var s := End(START, steps); var conn := s.connections[c];
            |conn.toServer| + |conn.toClient| == Orphans(START, steps, c) + if Waits(s, conn) then 1 else 0
  {
    ReachedOk(steps, c);
  }

  /** No two tasks on a connection are between acquiring its lock and leaving it. */
  lemma MutualExclusion(steps: seq<Step>, t: nat, u: nat)
    requires IsRun(START, steps) && t < |End(START, steps).tasks| && u < |End(START, steps).tasks|
    requires var s := End(START, steps);
             ConnectionOf(s, t) == ConnectionOf(s, u) && Busy(s.tasks[t].progress) && Busy(s.tasks[u].progress)
    ensures t == u
  {
    hide IsRun, End;
    ReachedOk(steps, ConnectionOf(End(START, steps), t));
    assert TaskOk(End(START, steps), t) && TaskOk(End(START, steps), u);
  }

  /**
   In every run, a task that receives a reply receives that to its own request if and only if no task
   on its connection has raised before between sending its request and receiving the reply.
   */
  lemma OwnReply(before: seq<Step>, t: nat)
    requires IsRun(START, before) && Enabled(End(START, before), Receive(t))
    ensures var s := End(START, before);
            var task := Next(s, Receive(t)).tasks[t];
            && task.progress.Returned?
            && (task.progress.origin == t <==> Orphans(START, before, ConnectionOf(s, t)) == 0)
            && (task.progress.origin == t ==> Answers(task.request, task.progress.reply))
  {
    hide IsRun, End, Orphans;
    var s := End(START, before);
    var c := ConnectionOf(s, t);
    ReachedOk(before, c);
    FirstInFlight(s, t, c, Orphans(START, before, c));
  }

  lemma FirstInFlight(s: State, t: nat, c: nat, orphans: nat)
    requires Wired(s) && Enabled(s, Receive(t)) && ConnectionOf(s, t) == c && ConnectionOk(s, c, orphans) && TaskOk(s, t)
    ensures s.connections[c].toClient[0].origin == t <==> orphans == 0
    ensures s.connections[c].toClient[0].origin == t ==> Answers(s.tasks[t].request, s.connections[c].toClient[0].reply)
  {
    var conn := s.connections[c];
    assert InFlight(conn)[0] == conn.toClient[0].origin;
    assert InFlight(conn)[orphans] == t;
    assert AnswerOk(s, conn.toClient[0]);
  }

  /** What a task has returned stays, so that the same holds in every later state. */
  lemma {:induction false} ReturnedStays(s: State, steps: seq<Step>, t: nat)
    requires Wired(s) && IsRun(s, steps) && t < |s.tasks| && s.tasks[t].progress.Returned?
    ensures t < |End(s, steps).tasks| && End(s, steps).tasks[t] == s.tasks[t]
    decreases |steps|
  {
    if steps != [] {
      assert Next(s, steps[0]).tasks[t] == s.tasks[t];
      ReturnedStays(Next(s, steps[0]), steps[1..], t);
    }
  }

  // ---- Clones ---------------------------------------------------------------------------------

  /** For every bridge, the bridge made by connecting that it is a clone of, or is itself. */
  ghost function Roots(s: State, steps: seq<Step>, roots: seq<nat>): seq<nat>
    requires Wired(s) && IsRun(s, steps) && |roots| == |s.bridges|
    decreases |steps|
  {
    if steps == [] then roots else Roots(Next(s, steps[0]), steps[1..], RootsAfter(s, steps[0], roots))
  }

  ghost function RootsAfter(s: State, step: Step, roots: seq<nat>): (r: seq<nat>)
    requires Wired(s) && Enabled(s, step) && |roots| == |s.bridges|
    ensures |r| == |Next(s, step).bridges|
  {
    match step
    case Connect => roots + [|roots|]
    case Clone(b) => roots + [roots[b]]
    case _ => roots
  }

  /** Bridges share a connection exactly if they have the same root. */
  ghost predicate RootsOk(s: State, roots: seq<nat>) {
    && Wired(s) && |roots| == |s.bridges|
    && (forall b :: 0 <= b < |roots| ==> roots[b] < |roots|)
    && forall b, d :: 0 <= b < |roots| && 0 <= d < |roots| ==> (s.bridges[b] == s.bridges[d] <==> roots[b] == roots[d])
  }

  lemma {:induction false} RootsKept(s: State, steps: seq<Step>, roots: seq<nat>)
    requires RootsOk(s, roots) && IsRun(s, steps)
    ensures RootsOk(End(s, steps), Roots(s, steps, roots))
    decreases |steps|
  {
    if steps != [] {
      assert RootsOk(Next(s, steps[0]), RootsAfter(s, steps[0], roots));
      RootsKept(Next(s, steps[0]), steps[1..], RootsAfter(s, steps[0], roots));
    }
  }

  /**
   In every run, two bridges use the same socket and lock exactly if they are clones of the same bridge,
   through however many clones; so no two tasks on such bridges are ever between send and receive.
   */
  lemma ClonesShare(steps: seq<Step>, b: nat, d: nat)
    requires IsRun(START, steps) && b < |End(START, steps).bridges| && d < |End(START, steps).bridges|
    ensures var roots := Roots(START, steps, []); var s := End(START, steps);
            && |roots| == |s.bridges|
            && (s.bridges[b] == s.bridges[d] <==> roots[b] == roots[d])
    ensures var roots := Roots(START, steps, []); var s := End(START, steps);
            roots[b] == roots[d] ==>
              forall t, u :: (0 <= t < |s.tasks| && 0 <= u < |s.tasks| && s.tasks[t].bridge == b && s.tasks[u].bridge == d
                              && Busy(s.tasks[t].progress) && Busy(s.tasks[u].progress)) ==> t == u
  {
    hide IsRun, End, Roots;
    RootsKept(START, steps, []);
    var s := End(START, steps);
    if Roots(START, steps, [])[b] == Roots(START, steps, [])[d] {
      forall t, u | 0 <= t < |s.tasks| && 0 <= u < |s.tasks| && s.tasks[t].bridge == b && s.tasks[u].bridge == d
                    && Busy(s.tasks[t].progress) && Busy(s.tasks[u].progress)
        ensures t == u
      {
        MutualExclusion(steps, t, u);
      }
    }
  }

  // ---- A run in which pairing ends ------------------------------------------------------------

  /**
   Such a run exists: the lock is released by a task that raises after sending, and the next task on the
   connection receives the reply that was meant for it.
   */
  lemma PairingEndsWhenATaskRaises(first: RpcMessage, second: RpcMessage, reply: RpcMessage)
    requires Answers(first, reply)
    ensures var steps := [Connect, Call(0, first), Call(0, second), Acquire(0), Send(0), Raise(0), Serve(0, reply),
                          Acquire(1), Send(1), Receive(1)];
            IsRun(START, steps) && |End(START, steps).tasks| == 2 && End(START, steps).tasks[1].progress == Returned(0, reply)
  {
    hide Answers, IsRun, End;
    var s3 := State([0], [Connection(None, [], [])], [Task(0, first, Waiting), Task(0, second, Waiting)]);
    FirstPart(first, second);
    MiddlePart(first, second);
    LastPart(first, second, reply);
    var a, b, c := [Connect, Call(0, first), Call(0, second)], [Acquire(0), Send(0), Raise(0)],
                   [Serve(0, reply), Acquire(1), Send(1), Receive(1)];
    RunsJoin(s3, b, c);
    RunsJoin(START, a, b + c);
    assert a + (b + c) == [Connect, Call(0, first), Call(0, second), Acquire(0), Send(0), Raise(0), Serve(0, reply),
                           Acquire(1), Send(1), Receive(1)];
  }

  lemma FirstPart(first: RpcMessage, second: RpcMessage)
    ensures var steps := [Connect, Call(0, first), Call(0, second)];
            IsRun(START, steps)
            && End(START, steps) == State([0], [Connection(None, [], [])], [Task(0, first, Waiting), Task(0, second, Waiting)])
  {
    var s1 := Next(START, Connect);
    var s2 := Next(s1, Call(0, first));
    hide IsRun, End;
    RunOfOne(s2, Call(0, second));
    RunBefore(s1, Call(0, first), [Call(0, second)]);
    RunBefore(START, Connect, [Call(0, first), Call(0, second)]);
  }

  lemma MiddlePart(first: RpcMessage, second: RpcMessage)
    ensures var s := State([0], [Connection(None, [], [])], [Task(0, first, Waiting), Task(0, second, Waiting)]);
            var steps := [Acquire(0), Send(0), Raise(0)];
            IsRun(s, steps)
            && End(s, steps) == State([0], [Connection(None, [Asked(0, first)], [])],
                                      [Task(0, first, Raised), Task(0, second, Waiting)])
  {
    var s := State([0], [Connection(None, [], [])], [Task(0, first, Waiting), Task(0, second, Waiting)]);
    hide IsRun, End;
    var s4 := Next(s, Acquire(0));
    assert s4 == State([0], [Connection(Some(0), [], [])], [Task(0, first, Locked), Task(0, second, Waiting)]);
    var s5 := Next(s4, Send(0));
    assert [] + [Asked(0, first)] == [Asked(0, first)];
    assert s5 == State([0], [Connection(Some(0), [Asked(0, first)], [])], [Task(0, first, Sent), Task(0, second, Waiting)]);
    RunOfOne(s5, Raise(0));
    RunBefore(s4, Send(0), [Raise(0)]);
    RunBefore(s, Acquire(0), [Send(0), Raise(0)]);
  }

  lemma LastPart(first: RpcMessage, second: RpcMessage, reply: RpcMessage)
    requires Answers(first, reply)
    ensures var s := State([0], [Connection(None, [Asked(0, first)], [])], [Task(0, first, Raised), Task(0, second, Waiting)]);
            var steps := [Serve(0, reply), Acquire(1), Send(1), Receive(1)];
            IsRun(s, steps)
            && End(s, steps) == State([0], [Connection(None, [Asked(1, second)], [])],
                                      [Task(0, first, Raised), Task(0, second, Returned(0, reply))])
  {
    hide Answers;
    var s := State([0], [Connection(None, [Asked(0, first)], [])], [Task(0, first, Raised), Task(0, second, Waiting)]);
    var s7 := State([0], [Connection(None, [], [Answer(0, reply)])], [Task(0, first, Raised), Task(0, second, Waiting)]);
    assert [Asked(0, first)][1..] == [] && [] + [Answer(0, reply)] == [Answer(0, reply)];
    assert Next(s, Serve(0, reply)) == s7;
    LatePart(first, second, reply);
    hide IsRun, End, Next;
    RunBefore(s, Serve(0, reply), [Acquire(1), Send(1), Receive(1)]);
  }

  lemma LatePart(first: RpcMessage, second: RpcMessage, reply: RpcMessage)
    ensures var s := State([0], [Connection(None, [], [Answer(0, reply)])], [Task(0, first, Raised), Task(0, second, Waiting)]);
            var steps := [Acquire(1), Send(1), Receive(1)];
            IsRun(s, steps)
            && End(s, steps) == State([0], [Connection(None, [Asked(1, second)], [])],
                                      [Task(0, first, Raised), Task(0, second, Returned(0, reply))])
  {
    hide IsRun, End;
    var s7 := State([0], [Connection(None, [], [Answer(0, reply)])], [Task(0, first, Raised), Task(0, second, Waiting)]);
    var s8 := State([0], [Connection(Some(1), [], [Answer(0, reply)])], [Task(0, first, Raised), Task(0, second, Locked)]);
    var s9 := State([0], [Connection(Some(1), [Asked(1, second)], [Answer(0, reply)])],
                    [Task(0, first, Raised), Task(0, second, Sent)]);
    assert Next(s7, Acquire(1)) == s8;
    assert [] + [Asked(1, second)] == [Asked(1, second)] && [Answer(0, reply)][1..] == [];
    assert Next(s8, Send(1)) == s9;
    assert Next(s9, Receive(1)) == State([0], [Connection(None, [Asked(1, second)], [])],
                                         [Task(0, first, Raised), Task(0, second, Returned(0, reply))]);
    hide Next;
    RunOfOne(s9, Receive(1));
    RunBefore(s8, Send(1), [Receive(1)]);
    assert [Send(1)] + [Receive(1)] == [Send(1), Receive(1)];
    RunBefore(s7, Acquire(1), [Send(1), Receive(1)]);
    assert [Acquire(1)] + [Send(1), Receive(1)] == [Acquire(1), Send(1), Receive(1)];
  }

  lemma {:induction false} RunsJoin(s: State, a: seq<Step>, b: seq<Step>)
    requires Wired(s) && IsRun(s, a) && IsRun(End(s, a), b)
    ensures IsRun(s, a + b) && End(s, a + b) == End(End(s, a), b)
    decreases |a|
  {
    hide Next, Enabled;
    if a == [] {
      assert a + b == b;
    } else {
      assert (a + b)[0] == a[0] && (a + b)[1..] == a[1..] + b;
      RunsJoin(Next(s, a[0]), a[1..], b);
    }
  }

  lemma RunOfOne(s: State, step: Step)
    requires Wired(s) && Enabled(s, step)
    ensures IsRun(s, [step]) && End(s, [step]) == Next(s, step)
  {
    assert [step][1..] == [];
  }

  lemma RunBefore(s: State, step: Step, steps: seq<Step>)
    requires Wired(s) && Enabled(s, step) && IsRun(Next(s, step), steps)
    ensures IsRun(s, [step] + steps) && End(s, [step] + steps) == End(Next(s, step), steps)
  {
    assert ([step] + steps)[1..] == steps;
  }
}
