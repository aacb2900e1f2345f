/**
 The server's side of a session: handle_client and enter_pty_mode (rpcserver.c), rpc_dispatch,
 routine_lookup and routine_exec (routines.c), on top of framing. What other routines and processes
 do is left open.
 */
module Session {
  import opened Bytes
  import opened Varints
  import opened Framing
  import opened RpcMessages
  import Schema

  // ---- What a session looks like --------------------------------------------------------------

  datatype Status = ServerError | ProtocolError | Success(reply: seq<byte>)

  datatype Outcome = OutOfBounds | NoRoutine | Unreadable | Returned(status: Status)

  /**
   The routines that the server has: for which ids there is one, whether a payload unpacks as the
   request of an id, what an EXEC request asks for: a number of arguments, and whether the process is to
   run in the background; and the text with which a request is refused.
   */
  datatype Routines = Routines(
    configured: set<u32>,
    readable: (u32, seq<byte>) -> bool,
    argc: seq<byte> -> nat,
    background: seq<byte> -> bool,
    text: (Outcome, u32) -> seq<byte>)

  /**
   What is known of a process when its terminal is left: the pieces of output that were read, its input,
   its exit status, whether its output is at its end, and whether input was reported that was not taken.
   */
  datatype Process = Process(
    read: seq<seq<byte>>,
    received: seq<byte>,
    status: u32,
    faults: nat,
    ended: bool,
    waiting: bool)

  /** A routine that was called. */
  datatype Call = Call(request: RpcMessage, status: Status)

  /** How terminal mode ends: with the exit code sent, or with a message or some input lost. */
  datatype PtyEnd = Exited | OutputLost | ExitLost | WriteFailed

  /** Terminal mode: the process, the raw input that was taken from the socket, and the part of a frame sent last. */
  datatype PtyRun = PtyRun(process: Process, end: PtyEnd, typed: seq<byte>, cut: seq<byte>)

  /** One turn: a request, its reply, and what follows when a process runs in the foreground. */
  datatype Exchange = Exchange(
    packedRequest: seq<byte>,
    request: RpcMessage,
    outcome: Outcome,
    reply: RpcMessage,
    pty: Option<PtyRun>)

  /** What the dispatcher may find out about a request. */
  ghost predicate OutcomeIs(routines: Routines, request: RpcMessage, outcome: Outcome) {
    var id := request.msgId;
    if id == 0 || id >= RPC_MAX_REQ_MSG_ID then outcome == OutOfBounds
    else if id !in routines.configured then outcome == NoRoutine
    else if !routines.readable(id, request.payload) then outcome == Unreadable
    else outcome.Returned?
  }

  /** The reply to a request, by its outcome. */
  ghost predicate ReplyIs(request: RpcMessage, outcome: Outcome, reply: RpcMessage) {
    && reply.magic == MESSAGE_MAGIC
    && reply.clientId == 0
    && match outcome
       case OutOfBounds => reply.msgId == REP_ERROR
       case NoRoutine => reply.msgId == REP_ERROR
       case Unreadable => reply.msgId == 0 && reply.payload == []
       case Returned(Success(packed)) =>
         // the payload is empty when there is no memory for it
         reply.msgId == request.msgId + RPC_MAX_REQ_MSG_ID && (reply.payload == packed || reply.payload == [])
       case Returned(_) => reply.msgId == REP_ERROR
  }

  /** reply_error formats its text into a buffer of this size. */
  const MAX_ERROR_MSG_LEN := 256

  /** A refusal on the wire: its text in the only field of ReplyError. */
  function ErrorPayload(text: seq<byte>): seq<byte> {
    var s := Schema.CString(if |text| < MAX_ERROR_MSG_LEN then text else text[..MAX_ERROR_MSG_LEN - 1]);
    if s == [] then [] else [10] + Varint(|s|) + s
  }

  /** The payload that a reply has when there is memory for it. */
  function FullPayload(routines: Routines, request: RpcMessage, outcome: Outcome): seq<byte> {
    match outcome
    case Unreadable => []
    case Returned(Success(packed)) => packed
    case _ => ErrorPayload(routines.text(outcome, request.msgId))
  }

  /** How often the payload of a reply was left out. */
  function Withheld(routines: Routines, request: RpcMessage, outcome: Outcome, reply: RpcMessage): nat {
    if reply.payload == FullPayload(routines, request, outcome) then 0 else 1
  }

  /** The routine is called once for a request that unpacks, and for no other. */
  function CallOf(request: RpcMessage, outcome: Outcome): seq<Call> {
    if outcome.Returned? then [Call(request, outcome.status)] else []
  }

  /** Has the request started a process in the foreground? */
  ghost predicate Foreground(routines: Routines, request: RpcMessage, outcome: Outcome) {
    && request.msgId == REQ_EXEC
    && outcome.Returned? && outcome.status.Success?
    && !routines.background(request.payload)
  }

  function Outputs(read: seq<seq<byte>>): (r: seq<PtyMessage>)
    ensures |r| == |read|
  {
    seq(|read|, i requires 0 <= i < |read| => PtyBuffer(read[i]))
  }

  /** The messages that were sent in full: every piece of output as it was read, then the exit code. */
  function Sent(r: PtyRun): seq<PtyMessage> {
    match r.end
    case Exited => Outputs(r.process.read) + [PtyExitCode(r.process.status)]
    case OutputLost => if r.process.read == [] then [] else Outputs(r.process.read[..|r.process.read| - 1])
    case ExitLost => Outputs(r.process.read)
    case WriteFailed => Outputs(r.process.read)
  }

  /** The output was read in pieces that fill the buffer at most. */
  ghost predicate InPieces(read: seq<seq<byte>>) {
    forall k :: 0 <= k < |read| ==> 1 <= |read[k]| <= RPC_PTY_BUFFER_SIZE
  }

  /** The process was given all input, unless a write has failed; only the message that was lost is cut. */
  ghost predicate PtyIs(r: PtyRun) {
    && InPieces(r.process.read)
    // all input that was reported was taken, unless the mode ended first
    && (r.process.waiting ==> r.end == OutputLost || ((r.end == Exited || r.end == ExitLost) && r.process.ended))
    && match r.end
    case Exited => r.cut == [] && r.process.received == r.typed
    case OutputLost =>
      && r.process.read != [] && r.process.received == r.typed
      && IsCutOf(r.cut, PackPty(PtyBuffer(r.process.read[|r.process.read| - 1])))
    case ExitLost => r.process.received == r.typed && IsCutOf(r.cut, PackPty(PtyExitCode(r.process.status)))
    case WriteFailed => r.cut == [] && r.process.faults > 0 && r.process.received < r.typed
  }

  function PackAllPty(pty: seq<PtyMessage>): (r: seq<seq<byte>>)
    ensures |r| == |pty|
  {
    seq(|pty|, i requires 0 <= i < |pty| => PackPty(pty[i]))
  }

  ghost predicate Sized(e: Exchange) {
    && |e.packedRequest| < TWO_TO_THE_64
    && |Pack(e.reply)| < TWO_TO_THE_64
    && (e.pty.Some? ==> Sendable(PackAllPty(Sent(e.pty.value))))
  }

  ghost predicate ExchangeIs(routines: Routines, e: Exchange) {
    && Sized(e)
    && Unpack(e.packedRequest) == Some(e.request)
    && e.request.magic == MESSAGE_MAGIC
    && OutcomeIs(routines, e.request, e.outcome)
    && ReplyIs(e.request, e.outcome, e.reply)
    && (e.reply.payload == FullPayload(routines, e.request, e.outcome) || e.reply.payload == [])
    && (e.pty.Some? <==> Foreground(routines, e.request, e.outcome))
    && (e.pty.Some? ==> PtyIs(e.pty.value))
  }

  /** The bytes that the server sends in terminal mode. */
  ghost function PtyBytes(r: PtyRun): seq<byte>
    requires Sendable(PackAllPty(Sent(r)))
  {
    Frames(PackAllPty(Sent(r))) + r.cut
  }

  /** The bytes that the server sends in one turn. */
  ghost function OutBytes(e: Exchange): seq<byte>
    requires Sized(e)
  {
    Frame(Pack(e.reply)) + (if e.pty.Some? then PtyBytes(e.pty.value) else [])
  }

  /** The bytes that the server takes in one turn. */
  ghost function InBytes(e: Exchange): seq<byte>
    requires Sized(e)
  {
    Frame(e.packedRequest) + (if e.pty.Some? then e.pty.value.typed else [])
  }

  ghost predicate AllAre(routines: Routines, es: seq<Exchange>) {
    forall k :: 0 <= k < |es| ==> ExchangeIs(routines, es[k])
  }

  ghost function AllOut(routines: Routines, es: seq<Exchange>): seq<byte>
    requires AllAre(routines, es)
  {
    if es == [] then [] else AllOut(routines, es[..|es| - 1]) + OutBytes(es[|es| - 1])
  }

  ghost function AllIn(routines: Routines, es: seq<Exchange>): seq<byte>
    requires AllAre(routines, es)
  {
    if es == [] then [] else AllIn(routines, es[..|es| - 1]) + InBytes(es[|es| - 1])
  }

  /** How often a message was lost on the socket in terminal mode. */
  function Losses(es: seq<Exchange>): nat {
    if es == [] then 0 else Losses(es[..|es| - 1]) + LossOf(es[|es| - 1])
  }

  function LossOf(e: Exchange): nat {
    if e.pty.Some? && (e.pty.value.end == OutputLost || e.pty.value.end == ExitLost) then 1 else 0
  }

  /** The routines that were called, in order. */
  ghost function AllCalls(es: seq<Exchange>): seq<Call> {
    if es == [] then [] else AllCalls(es[..|es| - 1]) + CallOf(es[|es| - 1].request, es[|es| - 1].outcome)
  }

  /** How often a payload was left out for want of memory. */
  ghost function AllWithheld(routines: Routines, es: seq<Exchange>): nat {
    if es == [] then 0
    else
      var e := es[|es| - 1];
      AllWithheld(routines, es[..|es| - 1]) + Withheld(routines, e.request, e.outcome, e.reply)
  }

  /** Why a session is over. */
  datatype Ending =
    | HandshakeLost
    | Closed
    | ReplyLost(packed: seq<byte>, request: RpcMessage, outcome: Outcome, reply: RpcMessage)
    | BadMagic(packed: seq<byte>, request: RpcMessage)
    | NotAMessage(packed: seq<byte>)
    | ReceiveFailed

  /**
   A whole session: the completed turns, why there are no more, and what was taken (`part`) and sent
   (`cut`) after them.
   */
  datatype Run = Run(exchanges: seq<Exchange>, ending: Ending, part: seq<byte>, cut: seq<byte>)

  ghost predicate EndingIs(routines: Routines, handshake: seq<byte>, run: Run) {
    match run.ending
    case HandshakeLost => run.exchanges == [] && run.part == [] && IsCutOf(run.cut, handshake)
    case Closed => run.exchanges != [] && run.part == [] && run.cut == []
    case ReplyLost(packed, request, outcome, reply) =>
      && |packed| < TWO_TO_THE_64 && run.part == Frame(packed)
      && Unpack(packed) == Some(request) && request.magic == MESSAGE_MAGIC
      && OutcomeIs(routines, request, outcome) && ReplyIs(request, outcome, reply)
      && (reply.payload == FullPayload(routines, request, outcome) || reply.payload == [])
      && IsCutOf(run.cut, Pack(reply))
    case BadMagic(packed, request) =>
      && |packed| < TWO_TO_THE_64 && run.part == Frame(packed)
      && Unpack(packed) == Some(request) && request.magic != MESSAGE_MAGIC && run.cut == []
    case NotAMessage(packed) =>
      |packed| < TWO_TO_THE_64 && run.part == Frame(packed) && Unpack(packed) == None && run.cut == []
    case ReceiveFailed => IsUnfinished(run.part) && run.cut == []
  }

  /** A request to close is answered, and the session ends with it and for no other request. */
  ghost predicate ClosesLast(run: Run) {
    forall k :: 0 <= k < |run.exchanges| ==>
      (run.exchanges[k].request.msgId == REQ_CLOSE_CLIENT <==> run.ending == Closed && k == |run.exchanges| - 1)
  }

  ghost predicate RunIs(routines: Routines, handshake: seq<byte>, run: Run) {
    AllAre(routines, run.exchanges) && EndingIs(routines, handshake, run) && ClosesLast(run)
  }

  /** No request to close yet. */
  ghost predicate GoesOn(es: seq<Exchange>) {
    forall k :: 0 <= k < |es| ==> es[k].request.msgId != REQ_CLOSE_CLIENT
  }

  lemma StopsAt(routines: Routines, handshake: seq<byte>, run: Run)
    requires AllAre(routines, run.exchanges) && GoesOn(run.exchanges)
    requires !run.ending.Closed? && EndingIs(routines, handshake, run)
    ensures RunIs(routines, handshake, run)
  {}

  lemma NothingYet(routines: Routines)
    ensures AllAre(routines, []) && GoesOn([]) && Losses([]) == 0 && AllCalls([]) == [] && AllWithheld(routines, []) == 0
  {}

  lemma StillGoesOn(es: seq<Exchange>, e: Exchange)
    requires GoesOn(es) && e.request.msgId != REQ_CLOSE_CLIENT
    ensures GoesOn(es + [e])
  {}

  lemma ClosesAt(routines: Routines, handshake: seq<byte>, es: seq<Exchange>, e: Exchange)
    requires AllAre(routines, es + [e]) && GoesOn(es) && e.request.msgId == REQ_CLOSE_CLIENT
    ensures RunIs(routines, handshake, Run(es + [e], Closed, [], []))
  {
    hide AllAre;
  }

  /** The faults without which the session would have gone on. */
  function FaultsNeeded(run: Run): nat {
    Losses(run.exchanges) + (if run.ending.HandshakeLost? || run.ending.ReplyLost? || run.ending.ReceiveFailed? then 1 else 0)
  }

  /** The routines that a session has called, with that of a request whose reply was lost. */
  ghost function CallsMade(run: Run): seq<Call> {
    AllCalls(run.exchanges) + if run.ending.ReplyLost? then CallOf(run.ending.request, run.ending.outcome) else []
  }

  /** The refused requests for memory without which every reply would have its payload. */
  ghost function RefusalsNeeded(routines: Routines, run: Run): nat {
    AllWithheld(routines, run.exchanges)
    + if run.ending.ReplyLost? then Withheld(routines, run.ending.request, run.ending.outcome, run.ending.reply) else 0
  }

  lemma TurnAdded(routines: Routines, es: seq<Exchange>, e: Exchange)
    requires AllAre(routines, es) && ExchangeIs(routines, e)
    ensures AllAre(routines, es + [e])
    ensures AllOut(routines, es + [e]) == AllOut(routines, es) + OutBytes(e)
    ensures AllIn(routines, es + [e]) == AllIn(routines, es) + InBytes(e)
    ensures Losses(es + [e]) == Losses(es) + LossOf(e)
    ensures AllCalls(es + [e]) == AllCalls(es) + CallOf(e.request, e.outcome)
    ensures AllWithheld(routines, es + [e]) == AllWithheld(routines, es) + Withheld(routines, e.request, e.outcome, e.reply)
  {
    hide ExchangeIs, OutBytes, InBytes, LossOf, CallOf, Withheld;
    assert (es + [e])[..|es|] == es;
  }

  // ---- The terminal of a process --------------------------------------------------------------

  /**
   The master side of a pseudo-terminal and the process behind it. `patience` bounds how often select
   may still return and a write take nothing.
   */
  class Terminal {
    ghost var read: seq<seq<byte>>
    ghost var received: seq<byte>
    ghost var faults: nat
    /** select has failed, or the output is at its end. */
    ghost var ended: bool
    /** select has reported output, and input on the socket, that was not read since. */
    ghost var outputReported: bool
    ghost var inputReported: bool
    var patience: nat
    const status: u32

    constructor (status: u32, patience: nat)
      ensures this.status == status && Fresh()
    {
      this.status := status;
      this.patience := patience;
      read, received, faults, ended := [], [], 0, false;
      outputReported, inputReported := false, false;
    }

    /** Nothing has happened yet. */
    ghost predicate Fresh()
      reads this
    {
      read == [] && received == [] && faults == 0 && !ended && !outputReported && !inputReported
    }

    ghost function AsProcess(): Process
      reads this
    {
      Process(read, received, status, faults, ended, inputReported)
    }

    /** select on the terminal and the socket, when all that was reported before has been read. */
    method Select() returns (ok: bool, masterReady: bool, sockReady: bool)
      requires !outputReported && !inputReported
      modifies this`patience, this`ended, this`outputReported, this`inputReported
      ensures ok ==> patience < old(patience) && ended == old(ended)
      ensures !ok ==> ended
      ensures outputReported == (ok && masterReady) && inputReported == (ok && sockReady)
    {
      ok := *;
      masterReady, sockReady := *, *;
      if patience == 0 || !ok {
        ended := true;
        return false, false, false;
      }
      patience := patience - 1;
      outputReported, inputReported := masterReady, sockReady;
    }

    /** read: a piece of the output; nothing at its end. */
    method Read(max: nat) returns (bytes: seq<byte>)
      requires max > 0
      modifies this`read, this`ended, this`outputReported
      ensures !outputReported
      ensures bytes == [] ==> ended && read == old(read)
      ensures bytes != [] ==> |bytes| <= max && read == old(read) + [bytes] && ended == old(ended)
    {
      var n: nat :| n <= max;
      var all: seq<byte> := *;
      bytes := if |all| < n then all else all[..n];
      outputReported := false;
      if bytes == [] {
        ended := true;
      } else {
        read := read + [bytes];
      }
    }

    /** write: any part of the buffer, or an error. */
    method Write(buf: seq<byte>) returns (n: Option<nat>)
      requires buf != []
      modifies this`received, this`faults, this`patience
      ensures n.Some? ==> n.value <= |buf| && received == old(received) + buf[..n.value] && faults == old(faults)
      ensures n.Some? && n.value == 0 ==> patience < old(patience)
      ensures n.None? ==> received == old(received) && faults == old(faults) + 1
      ensures patience <= old(patience)
    {
      var broken: bool := *;
      if broken {
        faults := faults + 1;
        return None;
      }
      assert |buf| > 0;
      var k: nat :| k <= |buf| && (k > 0 || patience > 0);
      if k == 0 {
        patience := patience - 1;
      }
      received := received + buf[..k];
      n := Some(k);
    }
  }

  /** writeall */
  method WriteAll(term: Terminal, buf: seq<byte>) returns (ok: bool)
    modifies term`received, term`faults, term`patience
    ensures ok ==> term.received == old(term.received) + buf && term.faults == old(term.faults)
    ensures !ok ==> term.faults > old(term.faults) && old(term.received) <= term.received < old(term.received) + buf
    ensures term.patience <= old(term.patience)
  {
    var total := 0;
    assert term.received == old(term.received) + buf[..0];
    while total < |buf|
      invariant total <= |buf| && term.received == old(term.received) + buf[..total]
      invariant term.faults == old(term.faults) && term.patience <= old(term.patience)
      decreases |buf| - total, term.patience
    {
      var n := term.Write(buf[total..]);
      if n.None? {
        assert buf[..total] < buf;
        return false;
      }
      assert buf[..total] + buf[total..][..n.value] == buf[..total + n.value];
      total := total + n.value;
    }
    assert buf[..total] == buf;
    ok := true;
  }

  // ---- The server -----------------------------------------------------------------------------

  class Server {
    const routines: Routines
    const sock: Socket
    /** g_pending_pty: the terminal that waits, if there is one. */
    var pending: Terminal?
    /** The routines that were called, the requests for memory that were refused, and the processes that did not start. */
    ghost var calls: seq<Call>
    ghost var refusals: nat
    ghost var failedSpawns: nat

    constructor (sock: Socket, routines: Routines)
      ensures this.sock == sock && this.routines == routines && pending == null && calls == []
    {
      this.sock := sock;
      this.routines := routines;
      pending := null;
      calls, refusals, failedSpawns := [], 0, 0;
    }

    /** malloc */
    method Alloc() returns (ok: bool)
      modifies this`refusals
      ensures refusals == old(refusals) + if ok then 0 else 1
    {
      ok := *;
      refusals := refusals + if ok then 0 else 1;
    }

    /** routine_lookup */
    function RoutineLookup(msgId: u32): Option<Outcome> {
      if msgId <= 0 || msgId >= RPC_MAX_REQ_MSG_ID then Some(OutOfBounds)
      else if msgId !in routines.configured then Some(NoRoutine)
      else None
    }

    /** reply_error: a text, or nothing when there is no memory for it. */
    method ReplyError(request: RpcMessage, outcome: Outcome) returns (reply: RpcMessage)
      modifies this`refusals
      ensures reply.magic == MESSAGE_MAGIC && reply.clientId == 0 && reply.msgId == REP_ERROR && |reply.payload| <= MAX_PAYLOAD
      ensures var full := ErrorPayload(routines.text(outcome, request.msgId));
              reply.payload == full || (reply.payload == [] && refusals > old(refusals))
      ensures refusals >= old(refusals)
    {
      reply := RpcMessage(MESSAGE_MAGIC, 0, REP_ERROR, []);
      var text := routines.text(outcome, request.msgId);
      ErrorIsShort(text);
      var ok := Alloc();
      if ok {
        reply := reply.(payload := ErrorPayload(text));
      }
    }

    /** A packed message of a size that the model covers. */
    method AnyPayload() returns (packed: seq<byte>)
      ensures |packed| <= MAX_PAYLOAD
    {
      var none: seq<byte> := [];
      assert |none| <= MAX_PAYLOAD;
      packed :| |packed| <= MAX_PAYLOAD;
    }

    /** Any routine but EXEC. */
    method OtherRoutine(request: RpcMessage) returns (status: Status)
      ensures status.Success? ==> |status.reply| <= MAX_PAYLOAD
    {
      status := *;
      if status.Success? {
        var packed := AnyPayload();
        status := Success(packed);
      }
    }

    /** internal_spawn: a process and, for the foreground, its terminal. */
    method InternalSpawn(background: bool) returns (pid: Option<u32>, master: Terminal?)
      modifies this`failedSpawns
      ensures failedSpawns == old(failedSpawns) + if pid.Some? then 0 else 1
      ensures pid.None? ==> master == null
      ensures pid.Some? && !background ==> master != null && fresh(master) && master.Fresh()
    {
      pid := *;
      master := null;
      failedSpawns := failedSpawns + if pid.Some? then 0 else 1;
      if pid.Some? && !background {
        var status: u32, patience: nat := *, *;
        master := new Terminal(status, patience);
      }
    }

    /**
     routine_exec: it succeeds exactly if there is something to run, memory, and a process; a terminal
     waits afterwards exactly if one was started for the foreground.
     */
    method RoutineExec(request: RpcMessage) returns (status: Status)
      requires pending == null
      modifies this`pending, this`refusals, this`failedSpawns
      ensures status.Success? ==> |status.reply| <= MAX_PAYLOAD
      ensures refusals >= old(refusals) && failedSpawns >= old(failedSpawns)
      ensures status.Success?
         <==> routines.argc(request.payload) > 0 && refusals == old(refusals) && failedSpawns == old(failedSpawns)
      ensures pending != null <==> status.Success? && !routines.background(request.payload)
      ensures pending != null ==> fresh(pending) && pending.Fresh()
    {
      var ok := Alloc(); // for the reply
      if !ok {
        return ProtocolError;
      }
      if routines.argc(request.payload) == 0 {
        return ProtocolError;
      }
      ok := Alloc(); // for the arguments
      if !ok {
        return ProtocolError;
      }
      ok := Alloc(); // for the environment
      if !ok {
        return ProtocolError;
      }
      var background := routines.background(request.payload);
      var pid, master := InternalSpawn(background);
      if pid.None? {
        return ProtocolError;
      }
      if !background {
        pending := master;
      }
      // a thread that cannot be started to wait for a background process makes no difference
      var packed := AnyPayload();
      status := Success(packed);
    }

    /** The routine of a request is called. */
    method Invoke(request: RpcMessage) returns (status: Status)
      requires pending == null
      modifies this`pending, this`refusals, this`failedSpawns, this`calls
      ensures calls == old(calls) + [Call(request, status)] && refusals >= old(refusals)
      ensures status.Success? ==> |status.reply| <= MAX_PAYLOAD
      ensures pending != null <==> request.msgId == REQ_EXEC && status.Success? && !routines.background(request.payload)
      ensures pending != null ==> fresh(pending) && pending.Fresh()
    {
      if request.msgId == REQ_EXEC {
        status := RoutineExec(request);
      } else {
        status := OtherRoutine(request);
      }
      calls := calls + [Call(request, status)];
    }

    /** rpc_dispatch */
    method RpcDispatch(request: RpcMessage) returns (reply: RpcMessage, ghost outcome: Outcome)
      requires pending == null
      modifies this
      ensures OutcomeIs(routines, request, outcome) && ReplyIs(request, outcome, reply) && |reply.payload| <= MAX_PAYLOAD
      ensures reply.payload == FullPayload(routines, request, outcome) || reply.payload == []
      ensures refusals >= old(refusals) + Withheld(routines, request, outcome, reply)
      ensures calls == old(calls) + CallOf(request, outcome)
      ensures pending != null <==> Foreground(routines, request, outcome)
      ensures pending != null ==> fresh(pending) && pending.Fresh()
    {
      reply := RpcMessage(MESSAGE_MAGIC, 0, 0, []);
      var found := RoutineLookup(request.msgId);
      if found.Some? {
        reply := ReplyError(request, found.value);
        outcome := found.value;
        return;
      }
      if !routines.readable(request.msgId, request.payload) {
        outcome := Unreadable;
        return;
      }
      var status := Invoke(request);
      outcome := Returned(status);
      match status
      case ServerError => reply := ReplyError(request, Returned(status));
      case ProtocolError => reply := ReplyError(request, Returned(status));
      case Success(packed) =>
        reply := reply.(msgId := request.msgId + RPC_MAX_REQ_MSG_ID);
        var ok := Alloc();
        if ok {
          reply := reply.(payload := packed);
        }
    }

    /** Sending a message of a running process, after those of `pty`. */
    method SendPty(p: PtyMessage, ghost out: seq<byte>, ghost pty: seq<PtyMessage>) returns (ok: bool, ghost cut: seq<byte>)
      requires p.PtyBuffer? ==> |p.bytes| <= RPC_PTY_BUFFER_SIZE
      requires Emitted(out, sock.outbox, pty, [])
      modifies sock
      ensures sock.inbox == old(sock.inbox)
      ensures Emitted(out, sock.outbox, if ok then pty + [p] else pty, cut)
      ensures if ok then cut == [] else IsCutOf(cut, PackPty(p))
      ensures sock.faults == old(sock.faults) + (if ok then 0 else 1) && sock.idle >= old(sock.idle)
    {
      hide Emitted, PackPty, Frame, IsCutOf;
      PackPtyIsShort(p);
      ghost var before := sock.outbox;
      ghost var sent;
      ok, sent := ProtoMsgSend(sock, PackPty(p));
      if ok {
        cut := [];
        EmittedMore(out, before, sock.outbox, pty, p);
      } else {
        cut := sent;
        EmittedCut(out, before, sock.outbox, pty, cut);
      }
    }

    /** recv on the socket in terminal mode: the input that select has reported is taken. */
    method Recv(master: Terminal, buf: array<byte>) returns (nbytes: int)
      requires buf.Length > 0
      modifies sock, buf, master`inputReported
      ensures !master.inputReported && nbytes <= buf.Length
      ensures sock.outbox == old(sock.outbox) && sock.faults >= old(sock.faults)
      ensures nbytes > 0 ==>
                nbytes <= |old(sock.inbox)| && sock.inbox == old(sock.inbox)[nbytes..] && sock.idle == old(sock.idle)
                && buf[..] == old(buf[..0]) + old(sock.inbox)[..nbytes] + old(buf[nbytes..])
      ensures nbytes <= 0 ==> sock.inbox == old(sock.inbox) && sock.idle > old(sock.idle)
    {
      var errno;
      nbytes, errno := sock.Io(buf, 0, buf.Length, true);
      master.inputReported := false;
    }

    /**
     The loop of enter_pty_mode. It ends with the output, with a select that fails or a recv that
     brings nothing, or when something is lost.
     */
    method PtyLoop(master: Terminal) returns (end: PtyEnd, ghost typed: seq<byte>, ghost cut: seq<byte>)
      requires master.Fresh()
      modifies sock, master
      ensures !master.outputReported
      ensures end in {Exited, OutputLost, WriteFailed}
      ensures PtyIs(PtyRun(master.AsProcess(), end, typed, cut))
      ensures Emitted(old(sock.outbox), sock.outbox, if end == OutputLost then Outputs(AllButLast(master.read)) else Outputs(master.read), cut)
      ensures old(sock.inbox) == typed + sock.inbox
      ensures sock.faults >= old(sock.faults) + if end == OutputLost then 1 else 0
      ensures end == Exited ==> master.ended || sock.idle > old(sock.idle)
    {
      hide Emitted, IsCutOf, Outputs, InPieces;
      ghost var out, inn := sock.outbox, sock.inbox;
      typed, cut, end := [], [], Exited;
      EmittedNothing(out);
      NoPieces();
      var buf := new byte[RPC_PTY_BUFFER_SIZE];
      while true
        invariant cut == [] && end == Exited
        invariant master.received == typed && master.faults == 0 && !master.outputReported && !master.inputReported
        invariant InPieces(master.read)
        invariant Emitted(out, sock.outbox, Outputs(master.read), [])
        invariant inn == typed + sock.inbox && sock.faults >= old(sock.faults) && sock.idle >= old(sock.idle)
        decreases master.patience
      {
        var ok, masterReady, sockReady := master.Select();
        if !ok {
          return;
        }
        if masterReady {
          ghost var before := master.read;
          var bytes := master.Read(RPC_PTY_BUFFER_SIZE);
          if bytes == [] {
            return; // end of the output
          }
          OutputsSnoc(before, bytes);
          PiecesSnoc(before, bytes);
          ok, cut := SendPty(PtyBuffer(bytes), out, Outputs(before));
          if !ok {
            end := OutputLost;
            return;
          }
        }
        if sockReady {
          ghost var before := sock.inbox;
          var nbytes := Recv(master, buf);
          if nbytes <= 0 {
            return;
          }
          InputTaken(inn, typed, before, nbytes, buf[..]);
          typed := typed + before[..nbytes];
          ok := WriteAll(master, buf[..nbytes]);
          if !ok {
            end := WriteFailed;
            return;
          }
        }
      }
    }

    /** enter_pty_mode */
    method EnterPtyMode() returns (ghost r: PtyRun)
      requires pending != null
      requires pending.Fresh()
      modifies this`pending, sock, pending
      ensures pending == null
      ensures PtyIs(r) && Sendable(PackAllPty(Sent(r))) && sock.outbox == old(sock.outbox) + PtyBytes(r)
      ensures r.process == old(pending).AsProcess() && old(sock.inbox) == r.typed + sock.inbox
      ensures sock.faults >= old(sock.faults) + if r.end == OutputLost || r.end == ExitLost then 1 else 0
      ensures r.end == Exited || r.end == ExitLost ==> old(pending).ended || sock.idle > old(sock.idle)
    {
      hide Emitted, IsCutOf, Outputs, PtyIs;
      var master := pending;
      pending := null;
      ghost var out := sock.outbox;
      ghost var typed, cut;
      var end;
      end, typed, cut := PtyLoop(master);
      if end == Exited {
        ExitNothingLost(master.AsProcess(), typed, cut);
        var ok;
        ok, cut := SendPty(PtyExitCode(master.status), out, Outputs(master.read));
        end := if ok then Exited else ExitLost;
        ExitIs(master.AsProcess(), typed, cut, ok);
      }
      r := PtyRun(master.AsProcess(), end, typed, cut);
      pending := null;
      EmittedIsSent(out, sock.outbox, r);
    }

    /**
     handle_client: the handshake, then for the requests, in order, one reply each and what a process
     that was started in the foreground sends. Every byte of the input is accounted for: it belongs to
     a completed turn, or to the one reason for which there are no more.
     */
    method HandleClient(handshake: seq<byte>) returns (ghost run: Run)
      requires |handshake| < TWO_TO_THE_64 && pending == null
      modifies this, sock
      ensures RunIs(routines, handshake, run)
      ensures old(sock.inbox) == AllIn(routines, run.exchanges) + (run.part + sock.inbox)
      ensures sock.outbox == old(sock.outbox) +
                ((if run.ending.HandshakeLost? then [] else Frame(handshake) + AllOut(routines, run.exchanges)) + run.cut)
      ensures FaultsNeeded(run) <= sock.faults - old(sock.faults)
      ensures calls == old(calls) + CallsMade(run)
      ensures RefusalsNeeded(routines, run) <= refusals - old(refusals)
      ensures pending != null <==> run.ending.ReplyLost? && Foreground(routines, run.ending.request, run.ending.outcome)
    {
      hide ExchangeIs, IsCutOf, Frame, Unpack, IsUnfinished, OutcomeIs, ReplyIs, Foreground, Losses, AllAre, GoesOn, RunIs,
        AllCalls, AllWithheld, CallOf, Withheld, Progress, EndingIs, FullPayload;
      ghost var es: seq<Exchange> := [];
      ghost var start := Books();
      ghost var sent;
      var ok;
      ok, sent := ProtoMsgSend(sock, handshake);
      NothingYet(routines);
      if !ok {
        run := Run(es, HandshakeLost, [], sent);
        NotGreeted(routines, handshake, start, Books(), run);
        return;
      }
      Greeted(routines, handshake, start, Books());
      while true
        invariant pending == null // no process is waiting when a request is read
        invariant GoesOn(es) && Progress(routines, handshake, start, Books(), es)
        decreases |sock.inbox|
      {
        ghost var before := Books();
        ghost var packed, part;
        var request;
        request, packed, part := ProtoMsgRecv(sock, Unpack);
        if request.None? {
          run := Run(es, if packed.Some? then NotAMessage(packed.value) else ReceiveFailed, part, []);
          ReceivedNothing(routines, handshake, run, Unpack);
          EndsWith(routines, handshake, start, before, Books(), run);
          return;
        }
        if request.value.magic != MESSAGE_MAGIC {
          run := Run(es, BadMagic(packed.value, request.value), part, []);
          ReceivedNothing(routines, handshake, run, Unpack);
          EndsWith(routines, handshake, start, before, Books(), run);
          return;
        }
        ghost var e;
        var lost;
        lost, e, sent := Serve(request.value, packed.value);
        if lost {
          run := Run(es, ReplyLost(packed.value, request.value, e.outcome, e.reply), part, sent);
          LostIs(routines, handshake, run);
          EndsWith(routines, handshake, start, before, Books(), run);
          return;
        }
        ProgressMore(routines, handshake, start, before, Books(), es, e);
        // the id is read before the request is freed
        if request.value.msgId == REQ_CLOSE_CLIENT {
          run := Run(es + [e], Closed, [], []);
          EndsClosed(routines, handshake, start, Books(), es, e);
          return;
        }
        StillGoesOn(es, e);
        es := es + [e];
      }
    }

    /** What the server has taken and sent, and what it has called and missed. */
    ghost function Books(): Accounts
      reads this, sock
    {
      Accounts(sock.outbox, sock.inbox, sock.faults, calls, refusals)
    }

    /** The loop body after a request has been received. */
    method Serve(request: RpcMessage, ghost packed: seq<byte>) returns (lost: bool, ghost e: Exchange, ghost sent: seq<byte>)
      requires pending == null && |packed| < TWO_TO_THE_64 && Unpack(packed) == Some(request) && request.magic == MESSAGE_MAGIC
      modifies this, sock
      ensures e.packedRequest == packed && e.request == request
      ensures calls == old(calls) + CallOf(request, e.outcome)
      ensures refusals >= old(refusals) + Withheld(routines, request, e.outcome, e.reply)
      ensures lost ==> e.reply.payload == FullPayload(routines, request, e.outcome) || e.reply.payload == []
      ensures lost ==> IsCutOf(sent, Pack(e.reply)) && OutcomeIs(routines, request, e.outcome) && ReplyIs(request, e.outcome, e.reply)
      ensures lost ==> sock.outbox == old(sock.outbox) + sent && sock.inbox == old(sock.inbox) && sock.faults > old(sock.faults)
      ensures lost ==> (pending != null <==> Foreground(routines, request, e.outcome))
      ensures !lost ==> ExchangeIs(routines, e) && pending == null && sock.faults >= old(sock.faults) + LossOf(e)
      ensures !lost ==> sock.outbox == old(sock.outbox) + OutBytes(e)
      ensures !lost ==> old(sock.inbox) == (if e.pty.Some? then e.pty.value.typed else []) + sock.inbox
    {
      hide IsCutOf, Pack, Unpack, Frame, Frames, OutcomeIs, ReplyIs, PtyIs, Foreground, PtyBytes, Sent, CallOf, Withheld, FullPayload;
      ghost var outcome;
      var reply;
      reply, outcome := RpcDispatch(request);
      PackIsShort(reply);
      ghost var out, inn := sock.outbox, sock.inbox;
      var ok;
      ok, sent := ProtoMsgSend(sock, Pack(reply));
      e := Exchange(packed, request, outcome, reply, None);
      if !ok {
        return true, e, sent;
      }
      if pending != null {
        ghost var r := EnterPtyMode();
        e := Exchange(packed, request, outcome, reply, Some(r));
        Associate(out, Frame(Pack(reply)), PtyBytes(r));
      } else {
        assert Frame(Pack(reply)) + [] == Frame(Pack(reply)) && [] + inn == inn;
      }
      lost := false;
    }
  }

  lemma CallsFollow(a: seq<Call>, b: seq<Call>, c: seq<Call>)
    ensures (a + b) + c == a + (b + c)
    ensures b + [] == b
  {}

  lemma ErrorIsShort(text: seq<byte>)
    ensures |ErrorPayload(text)| <= MAX_PAYLOAD
  {
    hide Varint;
    var s := if |text| < MAX_ERROR_MSG_LEN then text else text[..MAX_ERROR_MSG_LEN - 1];
    VarintAtMostFive(|Schema.CString(s)|);
  }

  lemma Associate(a: seq<byte>, b: seq<byte>, c: seq<byte>)
    ensures (a + b) + c == a + (b + c)
  {}

  // ---- Terminal mode, message by message ------------------------------------------------------

  /** The socket has received the frames of `pty` and then `cut`. */
  ghost predicate Emitted(out: seq<byte>, outbox: seq<byte>, pty: seq<PtyMessage>, cut: seq<byte>) {
    Sendable(PackAllPty(pty)) && outbox == out + (Frames(PackAllPty(pty)) + cut)
  }

  function AllButLast(read: seq<seq<byte>>): seq<seq<byte>> {
    if read == [] then [] else read[..|read| - 1]
  }

  lemma EmittedNothing(out: seq<byte>)
    ensures Emitted(out, out, Outputs([]), [])
  {
    assert PackAllPty(Outputs([])) == [];
    NoFrames();
  }

  lemma EmittedMore(out: seq<byte>, before: seq<byte>, after: seq<byte>, pty: seq<PtyMessage>, p: PtyMessage)
    requires Emitted(out, before, pty, []) && |PackPty(p)| < TWO_TO_THE_64 && after == before + Frame(PackPty(p))
    ensures Emitted(out, after, pty + [p], [])
  {
    hide PackPty, Frame;
    assert PackAllPty(pty + [p]) == PackAllPty(pty) + [PackPty(p)];
    OneFrame(PackPty(p));
    FramesConcat(PackAllPty(pty), [PackPty(p)]);
  }

  lemma EmittedCut(out: seq<byte>, before: seq<byte>, after: seq<byte>, pty: seq<PtyMessage>, cut: seq<byte>)
    requires Emitted(out, before, pty, []) && after == before + cut
    ensures Emitted(out, after, pty, cut)
  {
    hide PackPty, Frame, Frames;
  }

  lemma NoPieces()
    ensures InPieces([])
  {}

  lemma PiecesSnoc(read: seq<seq<byte>>, bytes: seq<byte>)
    requires InPieces(read) && 1 <= |bytes| <= RPC_PTY_BUFFER_SIZE
    ensures InPieces(read + [bytes])
  {}

  lemma OutputsSnoc(read: seq<seq<byte>>, bytes: seq<byte>)
    ensures Outputs(read + [bytes]) == Outputs(read) + [PtyBuffer(bytes)]
    ensures AllButLast(read + [bytes]) == read
  {}

  lemma InputTaken(inn: seq<byte>, typed: seq<byte>, before: seq<byte>, n: nat, buf: seq<byte>)
    requires inn == typed + before && n <= |before| && n <= |buf| && buf == buf[..0] + before[..n] + buf[n..]
    ensures inn == (typed + before[..n]) + before[n..] && buf[..n] == before[..n]
  {}

  lemma ExitNothingLost(p: Process, typed: seq<byte>, cut: seq<byte>)
    requires PtyIs(PtyRun(p, Exited, typed, cut))
    ensures cut == [] && p.received == typed && (p.waiting ==> p.ended)
    ensures InPieces(p.read)
  {}

  lemma ExitIs(p: Process, typed: seq<byte>, cut: seq<byte>, ok: bool)
    requires p.received == typed && (p.waiting ==> p.ended)
    requires InPieces(p.read)
    requires if ok then cut == [] else IsCutOf(cut, PackPty(PtyExitCode(p.status)))
    ensures PtyIs(PtyRun(p, if ok then Exited else ExitLost, typed, cut))
  {}

  lemma EmittedIsSent(out: seq<byte>, outbox: seq<byte>, r: PtyRun)
    requires Emitted(out, outbox, match r.end
                                  case Exited => Outputs(r.process.read) + [PtyExitCode(r.process.status)]
                                  case OutputLost => Outputs(AllButLast(r.process.read))
                                  case ExitLost => Outputs(r.process.read)
                                  case WriteFailed => Outputs(r.process.read), r.cut)
    ensures Sendable(PackAllPty(Sent(r))) && outbox == out + PtyBytes(r)
  {
    hide PackAllPty, Frames;
  }

  // ---- Turn by turn ---------------------------------------------------------------------------

  datatype Accounts = Accounts(outbox: seq<byte>, inbox: seq<byte>, faults: nat, calls: seq<Call>, refusals: nat)

  /** What a session has come to after the turns `es`. */
  ghost predicate Progress(routines: Routines, handshake: seq<byte>, start: Accounts, now: Accounts, es: seq<Exchange>) {
    && |handshake| < TWO_TO_THE_64 && AllAre(routines, es)
    && now.outbox == start.outbox + (Frame(handshake) + AllOut(routines, es))
    && start.inbox == AllIn(routines, es) + now.inbox
    && Losses(es) <= now.faults - start.faults
    && now.calls == start.calls + AllCalls(es)
    && AllWithheld(routines, es) <= now.refusals - start.refusals
  }

  /** What handle_client promises of a run. */
  ghost predicate Settled(routines: Routines, handshake: seq<byte>, start: Accounts, now: Accounts, run: Run) {
    && |handshake| < TWO_TO_THE_64
    && RunIs(routines, handshake, run)
    && start.inbox == AllIn(routines, run.exchanges) + (run.part + now.inbox)
    && now.outbox == start.outbox +
         ((if run.ending.HandshakeLost? then [] else Frame(handshake) + AllOut(routines, run.exchanges)) + run.cut)
    && FaultsNeeded(run) <= now.faults - start.faults
    && now.calls == start.calls + CallsMade(run)
    && RefusalsNeeded(routines, run) <= now.refusals - start.refusals
  }

  lemma NotGreeted(routines: Routines, handshake: seq<byte>, start: Accounts, now: Accounts, run: Run)
    requires |handshake| < TWO_TO_THE_64 && run == Run([], HandshakeLost, [], run.cut) && IsCutOf(run.cut, handshake)
    requires now == start.(outbox := start.outbox + run.cut, faults := now.faults) && now.faults == start.faults + 1
    ensures Settled(routines, handshake, start, now, run)
  {
    hide IsCutOf;
    assert [] + run.cut == run.cut && [] + (run.part + now.inbox) == now.inbox && start.calls + [] == start.calls;
  }

  lemma Greeted(routines: Routines, handshake: seq<byte>, start: Accounts, now: Accounts)
    requires |handshake| < TWO_TO_THE_64
    requires now == start.(outbox := start.outbox + Frame(handshake), faults := now.faults) && now.faults >= start.faults
    ensures Progress(routines, handshake, start, now, [])
  {
    assert Frame(handshake) + [] == Frame(handshake) && [] + now.inbox == now.inbox && start.calls + [] == start.calls;
  }

  lemma ReceivedNothing(routines: Routines, handshake: seq<byte>, run: Run, decode: seq<byte> -> Option<RpcMessage>)
    requires decode == Unpack && run.cut == []
    requires match run.ending
             case NotAMessage(packed) => |packed| < TWO_TO_THE_64 && run.part == Frame(packed) && decode(packed) == None
             case BadMagic(packed, request) =>
               |packed| < TWO_TO_THE_64 && run.part == Frame(packed) && decode(packed) == Some(request) && request.magic != MESSAGE_MAGIC
             case ReceiveFailed => IsUnfinished(run.part)
             case _ => false
    ensures EndingIs(routines, handshake, run)
  {
    hide Frame, Unpack, IsUnfinished;
  }

  lemma LostIs(routines: Routines, handshake: seq<byte>, run: Run)
    requires run.ending.ReplyLost? && |run.ending.packed| < TWO_TO_THE_64 && run.part == Frame(run.ending.packed)
    requires Unpack(run.ending.packed) == Some(run.ending.request) && run.ending.request.magic == MESSAGE_MAGIC
    requires OutcomeIs(routines, run.ending.request, run.ending.outcome)
    requires ReplyIs(run.ending.request, run.ending.outcome, run.ending.reply)
    requires run.ending.reply.payload == FullPayload(routines, run.ending.request, run.ending.outcome)
             || run.ending.reply.payload == []
    requires IsCutOf(run.cut, Pack(run.ending.reply))
    ensures EndingIs(routines, handshake, run)
  {
    hide Frame, Unpack, Pack, IsCutOf, OutcomeIs, ReplyIs, FullPayload;
  }

  /** A session that ends after whole turns, with what it has still taken and sent. */
  lemma EndsWith(routines: Routines, handshake: seq<byte>, start: Accounts, mid: Accounts, now: Accounts, run: Run)
    requires Progress(routines, handshake, start, mid, run.exchanges) && GoesOn(run.exchanges)
    requires EndingIs(routines, handshake, run) && !run.ending.Closed? && !run.ending.HandshakeLost?
    requires now.outbox == mid.outbox + run.cut && mid.inbox == run.part + now.inbox
    requires now.faults >= mid.faults + if run.ending.ReplyLost? || run.ending.ReceiveFailed? then 1 else 0
    requires now.calls == mid.calls + if run.ending.ReplyLost? then CallOf(run.ending.request, run.ending.outcome) else []
    requires now.refusals >= mid.refusals +
               if run.ending.ReplyLost? then Withheld(routines, run.ending.request, run.ending.outcome, run.ending.reply) else 0
    ensures Settled(routines, handshake, start, now, run)
  {
    hide Frame, AllOut, AllIn, AllAre, GoesOn, EndingIs, RunIs, Losses, AllCalls, AllWithheld, CallOf, Withheld;
    StopsAt(routines, handshake, run);
  }

  /** One more turn. */
  lemma ProgressMore(routines: Routines, handshake: seq<byte>, start: Accounts, mid: Accounts, now: Accounts,
                     es: seq<Exchange>, e: Exchange)
    requires Progress(routines, handshake, start, mid, es) && ExchangeIs(routines, e)
    requires now.outbox == mid.outbox + OutBytes(e)
    requires exists rest :: mid.inbox == Frame(e.packedRequest) + rest && rest == (if e.pty.Some? then e.pty.value.typed else []) + now.inbox
    requires now.faults >= mid.faults + LossOf(e)
    requires now.calls == mid.calls + CallOf(e.request, e.outcome)
    requires now.refusals >= mid.refusals + Withheld(routines, e.request, e.outcome, e.reply)
    ensures Progress(routines, handshake, start, now, es + [e]) && |now.inbox| < |mid.inbox|
  {
    ReceivedIsSized(routines, e);
    var typed := if e.pty.Some? then e.pty.value.typed else [];
    assert mid.inbox == Frame(e.packedRequest) + (typed + now.inbox);
    assert InBytes(e) == Frame(e.packedRequest) + typed;
    hide Frame, AllOut, AllIn, AllAre, OutBytes, InBytes, ExchangeIs, Losses, LossOf, AllCalls, AllWithheld, CallOf, Withheld;
    TurnAdded(routines, es, e);
    Join(start.outbox, Frame(handshake), AllOut(routines, es), OutBytes(e));
    Associate(AllIn(routines, es), Frame(e.packedRequest) + typed, now.inbox);
    Associate(Frame(e.packedRequest), typed, now.inbox);
    CallsFollow(start.calls, AllCalls(es), CallOf(e.request, e.outcome));
  }

  lemma EndsClosed(routines: Routines, handshake: seq<byte>, start: Accounts, now: Accounts, es: seq<Exchange>, e: Exchange)
    requires Progress(routines, handshake, start, now, es + [e]) && GoesOn(es) && e.request.msgId == REQ_CLOSE_CLIENT
    ensures Settled(routines, handshake, start, now, Run(es + [e], Closed, [], []))
  {
    hide Frame, AllOut, AllIn, AllAre, GoesOn, RunIs, Losses, AllCalls, AllWithheld;
    ClosesAt(routines, handshake, es, e);
    var out := Frame(handshake) + AllOut(routines, es + [e]);
    assert out + [] == out && [] + now.inbox == now.inbox && AllCalls(es + [e]) + [] == AllCalls(es + [e]);
  }

  lemma Join(out: seq<byte>, a: seq<byte>, b: seq<byte>, c: seq<byte>)
    ensures out + (a + b) + c == out + (a + (b + c))
  {}

  lemma ReceivedIsSized(routines: Routines, e: Exchange)
    requires ExchangeIs(routines, e)
    ensures Sized(e) && |e.packedRequest| < TWO_TO_THE_64
  {}

  // ---- What the client can rely on ------------------------------------------------------------

  /**
   Without a fault on the socket every reply and every message of a process is sent in full, and
   without a refusal every reply has its payload.
   */
  lemma FaultlessSession(routines: Routines, handshake: seq<byte>, run: Run)
    requires RunIs(routines, handshake, run) && FaultsNeeded(run) == 0
    ensures run.ending.Closed? || run.ending.BadMagic? || run.ending.NotAMessage?
    ensures run.cut == [] && NothingCut(run.exchanges)
    ensures RefusalsNeeded(routines, run) == 0 ==>
              forall k :: 0 <= k < |run.exchanges| ==>
                run.exchanges[k].reply.payload == FullPayload(routines, run.exchanges[k].request, run.exchanges[k].outcome)
  {
    NoLosses(run.exchanges);
    forall k | 0 <= k < |run.exchanges| && run.exchanges[k].pty.Some?
      ensures run.exchanges[k].pty.value.cut == []
    {
      assert ExchangeIs(routines, run.exchanges[k]);
      assert LossOf(run.exchanges[k]) == 0;
    }
    if RefusalsNeeded(routines, run) == 0 { NothingWithheld(routines, run.exchanges); }
  }

  lemma {:induction false} NothingWithheld(routines: Routines, es: seq<Exchange>)
    requires AllWithheld(routines, es) == 0
    ensures forall k :: 0 <= k < |es| ==> es[k].reply.payload == FullPayload(routines, es[k].request, es[k].outcome)
  {
    hide FullPayload;
    if es != [] { NothingWithheld(routines, es[..|es| - 1]); }
  }

  lemma {:induction false} NoLosses(es: seq<Exchange>)
    requires Losses(es) == 0
    ensures forall k :: 0 <= k < |es| ==> LossOf(es[k]) == 0
  {
    if es != [] { NoLosses(es[..|es| - 1]); }
  }

  ghost predicate NothingCut(es: seq<Exchange>) {
    forall k :: 0 <= k < |es| && es[k].pty.Some? ==> es[k].pty.value.cut == []
  }

  function SentAfterReply(e: Exchange): seq<PtyMessage> {
    if e.pty.Some? then Sent(e.pty.value) else []
  }

  /** The messages that follow the handshake. */
  ghost function Messages(es: seq<Exchange>): seq<seq<byte>> {
    if es == [] then []
    else Messages(es[..|es| - 1]) + ([Pack(es[|es| - 1].reply)] + PackAllPty(SentAfterReply(es[|es| - 1])))
  }

  lemma TurnMessages(routines: Routines, e: Exchange)
    requires ExchangeIs(routines, e) && NothingCut([e])
    ensures Sendable([Pack(e.reply)] + PackAllPty(SentAfterReply(e))) && Sized(e)
    ensures OutBytes(e) == Frames([Pack(e.reply)] + PackAllPty(SentAfterReply(e)))
  {
    var r, p := Pack(e.reply), PackAllPty(SentAfterReply(e));
    assert [e][0] == e;
    assert ([r] + p)[0] == r && ([r] + p)[1..] == p;
    assert Frames(p) + [] == Frames(p);
    hide Pack, PackPty, Frame;
    NoFrames();
  }

  /** A session in which nothing is cut is a sequence of whole frames. */
  lemma {:induction false} SessionIsFramed(routines: Routines, es: seq<Exchange>)
    requires AllAre(routines, es) && NothingCut(es)
    ensures Sendable(Messages(es)) && AllOut(routines, es) == Frames(Messages(es))
  {
    hide ExchangeIs, OutBytes, Frames, Pack, PackAllPty, SentAfterReply;
    if es == [] {
      NoFrames();
    } else {
      var n := |es| - 1;
      SessionIsFramed(routines, es[..n]);
      assert NothingCut([es[n]]);
      TurnMessages(routines, es[n]);
      FramesConcat(Messages(es[..n]), [Pack(es[n].reply)] + PackAllPty(SentAfterReply(es[n])));
    }
  }

  /**
   However the stream is cut up on its way, the messages that a client has received are, in order, the
   handshake and the messages of the turns.
   */
  lemma ClientReceives(routines: Routines, handshake: seq<byte>, es: seq<Exchange>, received: seq<seq<byte>>, rest: seq<byte>)
    requires AllAre(routines, es) && NothingCut(es) && |handshake| < TWO_TO_THE_64 && Sendable(received)
    requires Frames(received) + rest <= Frame(handshake) + AllOut(routines, es)
    ensures received <= [handshake] + Messages(es)
  {
    hide Frames, Frame, Pack;
    SessionIsFramed(routines, es);
    OneFrame(handshake);
    FramesConcat([handshake], Messages(es));
    ReceivedArePrefix(received, rest, [handshake] + Messages(es));
  }

  /** Without processes in the foreground, the replies correspond to the requests one by one. */
  lemma {:induction false} OneReplyEach(routines: Routines, es: seq<Exchange>)
    requires AllAre(routines, es)
    requires forall k :: 0 <= k < |es| ==> !Foreground(routines, es[k].request, es[k].outcome)
    ensures |Messages(es)| == |es|
    ensures forall k :: 0 <= k < |es| ==> Messages(es)[k] == Pack(es[k].reply)
  {
    hide Foreground, Pack, ExchangeIs, PackAllPty, SentAfterReply;
    if es != [] {
      var n := |es| - 1;
      OneReplyEach(routines, es[..n]);
      JustTheReply(routines, es[n]);
    }
  }

  lemma JustTheReply(routines: Routines, e: Exchange)
    requires ExchangeIs(routines, e) && !Foreground(routines, e.request, e.outcome)
    ensures [Pack(e.reply)] + PackAllPty(SentAfterReply(e)) == [Pack(e.reply)]
  {
    hide Pack;
    assert PackAllPty([]) == [];
  }

  /**
   The id of a reply is that of its request plus the maximum exactly when the request has succeeded; the
   one id for which it is not so is out of bounds by as much as makes an error look like a success.
   */
  lemma ReplyIdentifies(routines: Routines, e: Exchange)
    requires ExchangeIs(routines, e) && Sendable32(Pack(e.reply))
    ensures Unpack(Pack(e.reply)) == Some(e.reply)
    ensures (e.outcome.Returned? && e.outcome.status.Success? <==> e.reply.msgId == e.request.msgId + RPC_MAX_REQ_MSG_ID)
       <==> e.request.msgId != REP_ERROR - RPC_MAX_REQ_MSG_ID
    ensures e.reply.msgId == 0 <==> e.outcome == Unreadable
    ensures e.reply.msgId in {0, REP_ERROR, e.request.msgId + RPC_MAX_REQ_MSG_ID}
  {
    hide Unpack, Pack;
    RpcRoundTrip(e.reply);
  }

  /** That id: every request with it is refused with the id of a success. */
  lemma AmbiguousReply(routines: Routines, request: RpcMessage, outcome: Outcome, reply: RpcMessage)
    requires request.msgId == 0xF00 && OutcomeIs(routines, request, outcome) && ReplyIs(request, outcome, reply)
    ensures outcome == OutOfBounds && reply.msgId == request.msgId + RPC_MAX_REQ_MSG_ID
  {}
}
