/**
 Messages on a stream socket: each is preceded by its size in eight bytes, and a transfer may move any
 part of what was asked for, be interrupted or be told to try again (common.c, rpc_socket.py).
 */
module Framing {
  import opened Bytes
  import opened Varints

  /** A message with the size_t that precedes it, in the byte order of the machines concerned. */
  function Frame(m: seq<byte>): (r: seq<byte>)
    requires |m| < TWO_TO_THE_64
    ensures |r| == 8 + |m|
  {
    Fixed64(|m|) + m
  }

  ghost predicate Sendable(ms: seq<seq<byte>>) {
    forall k :: 0 <= k < |ms| ==> |ms[k]| < TWO_TO_THE_64
  }

  function Frames(ms: seq<seq<byte>>): seq<byte>
    requires Sendable(ms)
  {
    if ms == [] then [] else Frame(ms[0]) + Frames(ms[1..])
  }

  lemma {:induction false} FramesConcat(a: seq<seq<byte>>, b: seq<seq<byte>>)
    requires Sendable(a) && Sendable(b)
    ensures Sendable(a + b) && Frames(a + b) == Frames(a) + Frames(b)
  {
    hide Frame;
    if a == [] {
      assert a + b == b;
    } else {
      assert (a + b)[0] == a[0] && (a + b)[1..] == a[1..] + b;
      FramesConcat(a[1..], b);
      assert Frame(a[0]) + (Frames(a[1..]) + Frames(b)) == (Frame(a[0]) + Frames(a[1..])) + Frames(b);
    }
  }

  lemma SizeRoundTrip(n: u64, rest: seq<byte>)
    ensures ParseFixed64((Fixed64(n) + rest)[..8]) == n
  {
    assert (Fixed64(n) + rest)[..8] == Fixed64(n) + [];
    Fixed64RoundTrip(n, []);
  }

  /** The bytes of a stream determine its first message, if they hold all of it. */
  lemma FrameIsUnique(m: seq<byte>, rest: seq<byte>, m': seq<byte>, rest': seq<byte>)
    requires |m| < TWO_TO_THE_64 && |m'| < TWO_TO_THE_64
    requires Frame(m) + rest <= Frame(m') + rest'
    ensures m == m' && rest <= rest'
  {
    var a, b := Frame(m) + rest, Frame(m') + rest';
    assert a == Fixed64(|m|) + (m + rest) && b == Fixed64(|m'|) + (m' + rest');
    SizeRoundTrip(|m|, m + rest);
    SizeRoundTrip(|m'|, m' + rest');
    assert a[..8] == b[..8];
    var n := 8 + |m|;
    assert a[8..n] == m && b[8..n] == m';
    assert a[n..] == rest && b[n..] == rest';
  }

  /** Whatever part of the stream has arrived, the messages read from it are the first that were sent. */
  lemma {:induction false} ReceivedArePrefix(received: seq<seq<byte>>, rest: seq<byte>, sent: seq<seq<byte>>)
    requires Sendable(received) && Sendable(sent) && Frames(received) + rest <= Frames(sent)
    ensures received <= sent && rest <= Frames(sent[|received|..])
  {
    hide Frame;
    if received == [] {
      assert [] + rest == rest;
    } else {
      var r, s := received[0], if sent == [] then [] else sent[0];
      assert Frames(received) + rest == Frame(r) + (Frames(received[1..]) + rest);
      assert sent != [];
      FrameIsUnique(r, Frames(received[1..]) + rest, s, Frames(sent[1..]));
      ReceivedArePrefix(received[1..], rest, sent[1..]);
      assert received == [r] + received[1..] && sent == [s] + sent[1..];
    }
  }

  // ---- Sockets --------------------------------------------------------------------------------

  datatype Errno = EINTR | EAGAIN | EWOULDBLOCK | OtherError

  /**
   A connected socket: the bytes that the peer will have sent and that are not yet read, and those
   sent to the peer. `patience` bounds how often a transfer may still end without moving anything;
   it can be any number, so that runs in which it never ends are left out. `faults` counts what has
   gone wrong outside of the program: the end of the stream, an error, or a buffer that could not be had;
   `idle` counts the transfers that moved nothing.
   */
  class Socket {
    var inbox: seq<byte>
    var outbox: seq<byte>
    var patience: nat
    ghost var faults: nat
    ghost var idle: nat

    constructor (inbox: seq<byte>, patience: nat)
      ensures this.inbox == inbox && this.outbox == [] && this.patience == patience && faults == 0
    {
      this.inbox := inbox;
      this.outbox := [];
      this.patience := patience;
      faults, idle := 0, 0;
    }

    /** malloc of a buffer for a message. */
    method AllocBuffer() returns (ok: bool)
      modifies this`faults
      ensures faults == old(faults) + if ok then 0 else 1
    {
      ok := *;
      faults := faults + if ok then 0 else 1;
    }

    /** recv and send: some bytes are moved, or none. */
    method Io(buffer: array<byte>, at: nat, len: nat, reading: bool) returns (rc: int, errno: Errno)
      requires at + len <= buffer.Length && len > 0
      modifies this, buffer
      ensures rc <= len
      ensures reading ==> outbox == old(outbox)
      ensures !reading ==> inbox == old(inbox) && buffer[..] == old(buffer[..])
      ensures rc > 0 && reading ==>
                rc <= |old(inbox)| && inbox == old(inbox)[rc..] && patience == old(patience)
                && buffer[..] == old(buffer[..at]) + old(inbox)[..rc] + old(buffer[at + rc..])
      ensures rc > 0 && !reading ==> outbox == old(outbox) + buffer[at..at + rc] && patience == old(patience)
      ensures rc <= 0 ==> inbox == old(inbox) && outbox == old(outbox) && buffer[..] == old(buffer[..])
      ensures rc == 0 && reading ==> inbox == []
      ensures (rc == 0 && !reading) || (rc < 0 && errno != OtherError) ==> patience < old(patience)
      ensures faults == old(faults) + if (rc == 0 && reading) || (rc < 0 && errno == OtherError) then 1 else 0
      ensures idle == old(idle) + if rc <= 0 then 1 else 0
    {
      idle := idle + 1; // taken back below if something is moved
      errno := OtherError;
      if reading && inbox == [] {
        if * { // the peer has closed
          faults := faults + 1;
          return 0, errno;
        }
      }
      if patience > 0 {
        if * {
          patience := patience - 1;
          errno := EINTR;
          if * { errno := EAGAIN; }
          if !reading {
            if * { return 0, errno; }
          }
          return -1, errno;
        }
      }
      var broken: bool := *;
      if broken || (reading && inbox == []) {
        faults := faults + 1;
        return -1, OtherError;
      }
      var n :| 1 <= n <= len && (reading ==> n <= |inbox|);
      rc, idle := n, idle - 1;
      if reading {
        ghost var was := buffer[..];
        for i := 0 to n
          invariant inbox == old(inbox) && outbox == old(outbox) && patience == old(patience)
          invariant faults == old(faults) && idle == old(idle)
          invariant i <= |inbox| && buffer[..] == was[..at] + inbox[..i] + was[at + i..]
        {
          buffer[at + i] := inbox[i];
        }
        inbox := inbox[n..];
      } else {
        outbox := outbox + buffer[at..at + n];
      }
    }
  }

  /**
   sock_io_all: it moves everything or fails. The peer's end of file makes a read fail, while a write
   that moves nothing is tried again.
   */
  method SockIoAll(sock: Socket, buffer: array<byte>, totalLen: nat, reading: bool) returns (ok: bool, ghost moved: nat)
    requires totalLen <= buffer.Length
    modifies sock, buffer
    ensures moved <= totalLen && (ok <==> moved == totalLen)
    ensures sock.faults == old(sock.faults) + if ok then 0 else 1
    ensures sock.idle >= old(sock.idle)
    ensures reading ==> moved <= |old(sock.inbox)| && sock.inbox == old(sock.inbox)[moved..] && sock.outbox == old(sock.outbox)
    ensures reading ==> buffer[..moved] == old(sock.inbox)[..moved]
    ensures !reading ==> sock.outbox == old(sock.outbox) + buffer[..moved] && sock.inbox == old(sock.inbox)
    ensures !reading ==> buffer[..] == old(buffer[..])
  {
    var transferred := 0;
    while transferred < totalLen
      invariant transferred <= totalLen && sock.faults == old(sock.faults) && sock.idle >= old(sock.idle)
      invariant reading ==> transferred <= |old(sock.inbox)| && sock.inbox == old(sock.inbox)[transferred..]
      invariant reading ==> sock.outbox == old(sock.outbox) && buffer[..transferred] == old(sock.inbox)[..transferred]
      invariant !reading ==> sock.outbox == old(sock.outbox) + buffer[..transferred] && sock.inbox == old(sock.inbox)
      invariant !reading ==> buffer[..] == old(buffer[..])
      decreases totalLen - transferred, sock.patience
    {
      ghost var was := buffer[..];
      ghost var out, inn := sock.outbox, sock.inbox;
      var rc, errno := sock.Io(buffer, transferred, totalLen - transferred, reading);
      if rc > 0 {
        if reading {
          assert buffer[..transferred + rc] == was[..transferred] + inn[..rc];
        } else {
          assert buffer[..transferred] + buffer[transferred..transferred + rc] == buffer[..transferred + rc];
          assert sock.outbox == old(sock.outbox) + (buffer[..transferred] + buffer[transferred..transferred + rc]);
        }
        transferred := transferred + rc;
        continue;
      }
      assert buffer[..transferred] == was[..transferred];
      if rc == 0 {
        if reading {
          return false, transferred;
        }
        continue;
      }
      if errno == EINTR {
        continue;
      }
      if errno == EAGAIN || errno == EWOULDBLOCK {
        continue;
      }
      return false, transferred;
    }
    return true, transferred;
  }

  // ---- Messages -------------------------------------------------------------------------------

  method RecvAll(sock: Socket, len: nat) returns (buffer: Option<seq<byte>>, ghost got: seq<byte>)
    modifies sock
    ensures sock.outbox == old(sock.outbox) && old(sock.inbox) == got + sock.inbox
    ensures buffer.Some? ==> got == buffer.value && |got| == len
    ensures buffer.None? ==> |got| < len
    ensures sock.faults == old(sock.faults) + if buffer.Some? then 0 else 1
  {
    var bytes := new byte[len];
    ghost var moved;
    var ok;
    ok, moved := SockIoAll(sock, bytes, len, true);
    got := old(sock.inbox)[..moved];
    if !ok {
      return None, got;
    }
    assert bytes[..len] == bytes[..];
    return Some(bytes[..]), got;
  }

  method SendAll(sock: Socket, data: seq<byte>) returns (ok: bool, ghost sent: seq<byte>)
    modifies sock
    ensures sock.inbox == old(sock.inbox) && sock.outbox == old(sock.outbox) + sent
    ensures sent <= data && (ok <==> sent == data)
    ensures sock.faults == old(sock.faults) + (if ok then 0 else 1) && sock.idle >= old(sock.idle)
  {
    var bytes := new byte[|data|](i requires 0 <= i < |data| => data[i]);
    assert bytes[..] == data;
    ghost var moved;
    ok, moved := SockIoAll(sock, bytes, |data|, false);
    sent := data[..moved];
    assert bytes[..moved] == data[..moved];
    assert ok ==> data[..moved] == data;
  }

  /** Less than all of a message's frame. */
  ghost predicate IsCutOf(cut: seq<byte>, m: seq<byte>) {
    |m| < TWO_TO_THE_64 && cut <= Frame(m) && cut != Frame(m)
  }

  /** proto_msg_send of a message that packs to `packed`: its frame, or less than all of it. */
  method ProtoMsgSend(sock: Socket, packed: seq<byte>) returns (ok: bool, ghost sent: seq<byte>)
    requires |packed| < TWO_TO_THE_64
    modifies sock
    ensures sock.inbox == old(sock.inbox) && sock.outbox == old(sock.outbox) + sent
    ensures if ok then sent == Frame(packed) else IsCutOf(sent, packed)
    ensures sock.faults == old(sock.faults) + (if ok then 0 else 1) && sock.idle >= old(sock.idle)
  {
    ok := sock.AllocBuffer();
    if !ok {
      sent := [];
      assert sent != Frame(packed);
      return;
    }
    ghost var header, body;
    ok, header := SendAll(sock, Fixed64(|packed|));
    if !ok {
      HeaderIsShort(packed, header);
      return false, header;
    }
    ok, body := SendAll(sock, packed);
    sent := Fixed64(|packed|) + body;
    BodyIsShort(packed, body);
  }

  lemma HeaderIsShort(packed: seq<byte>, header: seq<byte>)
    requires |packed| < TWO_TO_THE_64 && header <= Fixed64(|packed|) && header != Fixed64(|packed|)
    ensures IsCutOf(header, packed)
  {}

  lemma BodyIsShort(packed: seq<byte>, body: seq<byte>)
    requires |packed| < TWO_TO_THE_64 && body <= packed
    ensures Fixed64(|packed|) + body <= Frame(packed)
    ensures Fixed64(|packed|) + body == Frame(packed) <==> body == packed
  {
    if body != packed { assert |Fixed64(|packed|) + body| < |Frame(packed)|; }
  }

  /** What a receive may have read when it fails: a part of a header, or a header and what follows it. */
  ghost predicate IsUnfinished(part: seq<byte>) {
    |part| <= 8 || |part| < 8 + ParseFixed64(part)
  }

  /**
   proto_msg_recv: exactly one frame is consumed, and its message is the one decoded. It fails for a
   frame that does not decode, or, after less than a frame, for a fault.
   */
  method ProtoMsgRecv<T>(sock: Socket, decode: seq<byte> -> Option<T>) returns (msg: Option<T>, ghost packed: Option<seq<byte>>, ghost part: seq<byte>)
    modifies sock
    ensures sock.outbox == old(sock.outbox) && |sock.inbox| <= |old(sock.inbox)| && old(sock.inbox) == part + sock.inbox
    ensures packed.Some? ==> |packed.value| < TWO_TO_THE_64 && part == Frame(packed.value) && decode(packed.value) == msg
    ensures packed.None? ==> msg.None? && IsUnfinished(part)
    ensures sock.faults == old(sock.faults) + if packed.Some? then 0 else 1
    ensures msg.Some? ==> |sock.inbox| < |old(sock.inbox)|
  {
    ghost var body;
    var header;
    header, part := RecvAll(sock, 8);
    if header.None? {
      return None, None, part;
    }
    var size := ParseFixed64(header.value);
    var ok := sock.AllocBuffer();
    if !ok {
      return None, None, part;
    }
    var buffer;
    buffer, body := RecvAll(sock, size);
    assert old(sock.inbox) == (part + body) + sock.inbox;
    if buffer.None? {
      SizeOfPart(part, body);
      part := part + body;
      return None, None, part;
    }
    HeaderIsSize(header.value);
    part := part + body;
    packed := Some(body);
    msg := decode(buffer.value);
  }

  lemma SizeOfPart(header: seq<byte>, body: seq<byte>)
    requires |header| == 8
    ensures ParseFixed64(header + body) == ParseFixed64(header)
  {}

  /** Eight bytes are the header of the size that is read from them. */
  lemma HeaderIsSize(s: seq<byte>)
    requires |s| == 8
    ensures Fixed64(ParseFixed64(s)) == s
  {
    var lo, hi := ParseFixed32(s), ParseFixed32(s[4..]);
    assert ParseFixed64(s) % TWO_TO_THE_32 == lo && ParseFixed64(s) / TWO_TO_THE_32 == hi;
    Fixed32IsWord(s[..4]);
    Fixed32IsWord(s[4..]);
    assert ParseFixed32(s[..4]) == lo;
    assert s == s[..4] + s[4..];
  }

  lemma Fixed32IsWord(s: seq<byte>)
    requires |s| == 4
    ensures Fixed32(ParseFixed32(s)) == s
  {
    var b0: int, b1: int, b2: int, b3: int := s[0], s[1], s[2], s[3];
    var w := ParseFixed32(s);
    assert w == b0 + 256 * (b1 + 256 * (b2 + 256 * b3));
    assert w % 256 == b0 && w / 256 == b1 + 256 * (b2 + 256 * b3);
  }

  /**
   Any number of receives after each other: the messages are the first that the peer has sent, and
   without a fault none is missing.
   */
  method ReceiveMessages(sock: Socket, n: nat, ghost sent: seq<seq<byte>>) returns (received: seq<seq<byte>>, ghost part: seq<byte>)
    requires Sendable(sent) && sock.inbox <= Frames(sent)
    modifies sock
    ensures |received| <= n && received <= sent && Sendable(received)
    ensures old(sock.inbox) == Frames(received) + (part + sock.inbox)
    ensures |received| < n ==> sock.faults > old(sock.faults) && IsUnfinished(part)
    ensures |received| == n ==> part == []
  {
    hide Frames, Frame, IsUnfinished;
    received, part := [], [];
    NoFrames();
    for i := 0 to n
      invariant |received| == i && Sendable(received) && old(sock.inbox) == Frames(received) + sock.inbox && part == []
      invariant sock.faults >= old(sock.faults)
    {
      ghost var stream := sock.inbox;
      ghost var packed;
      var msg;
      msg, packed, part := ProtoMsgRecv(sock, bytes => Some(bytes));
      if msg.None? {
        ReceivedArePrefix(received, stream, sent);
        return;
      }
      OneMoreFrame(received, packed.value, stream, sock.inbox);
      received := received + [msg.value];
      part := [];
    }
    ReceivedArePrefix(received, sock.inbox, sent);
    assert [] + sock.inbox == sock.inbox;
  }

  lemma OneMoreFrame(received: seq<seq<byte>>, m: seq<byte>, stream: seq<byte>, rest: seq<byte>)
    requires Sendable(received) && |m| < TWO_TO_THE_64 && stream == Frame(m) + rest
    ensures Sendable(received + [m]) && Frames(received + [m]) + rest == Frames(received) + stream
  {
    hide Frames, Frame;
    FramesConcat(received, [m]);
    OneFrame(m);
    assert Frames(received) + (Frame(m) + rest) == (Frames(received) + Frame(m)) + rest;
  }

  lemma NoFrames()
    ensures Sendable([]) && Frames([]) == []
    ensures forall s: seq<byte> :: s + [] == s && [] + s == s
  {}

  lemma OneFrame(m: seq<byte>)
    requires |m| < TWO_TO_THE_64
    ensures Sendable([m]) && Frames([m]) == Frame(m)
  {
    assert [m][1..] == [];
    assert Frame(m) + [] == Frame(m);
  }

  // ---- The client (rpc_socket.py) -------------------------------------------------------------

  datatype Received = Payload(bytes: seq<byte>) | ConnectionError | ServerDiedError

  /** The client's side of a connection, whose socket does not block. */
  class RpcSocket {
    var rawSocket: Socket

    constructor (sock: Socket)
      ensures rawSocket == sock
    {
      rawSocket := sock;
    }

    /** _recv: a single recv, which returns nothing only when the peer has closed. */
    method Recv(size: nat) returns (chunk: seq<byte>)
      modifies rawSocket
      ensures |chunk| <= size && chunk <= old(rawSocket.inbox) && rawSocket.inbox == old(rawSocket.inbox)[|chunk|..]
      ensures rawSocket.outbox == old(rawSocket.outbox)
      ensures chunk == [] && size > 0 ==> rawSocket.inbox == []
    {
      if size == 0 || rawSocket.inbox == [] {
        return [];
      }
      var n :| 1 <= n <= size && n <= |rawSocket.inbox|;
      chunk := rawSocket.inbox[..n];
      rawSocket.inbox := rawSocket.inbox[n..];
    }

    /** _recvall */
    method RecvAllOrRaise(total: nat) returns (buf: Option<seq<byte>>)
      modifies rawSocket
      ensures rawSocket.outbox == old(rawSocket.outbox)
      ensures buf.Some? <==> total <= |old(rawSocket.inbox)|
      ensures buf.Some? ==> buf.value == old(rawSocket.inbox)[..total] && rawSocket.inbox == old(rawSocket.inbox)[total..]
      ensures buf.None? ==> rawSocket.inbox == []
    {
      var size := total;
      var got: seq<byte> := [];
      while size > 0
        invariant 0 <= size && size + |got| == total
        invariant got + rawSocket.inbox == old(rawSocket.inbox) && rawSocket.outbox == old(rawSocket.outbox)
        decreases size
      {
        ghost var before := rawSocket.inbox;
        var chunk := Recv(size);
        if chunk == [] {
          return None;
        }
        assert before == chunk + rawSocket.inbox;
        size := size - |chunk|;
        got := got + chunk;
      }
      assert (got + rawSocket.inbox)[..total] == got && (got + rawSocket.inbox)[total..] == rawSocket.inbox;
      return Some(got);
    }

    /** _msg_recv: the header is read by one recv, and a short one raises. */
    method MsgRecv() returns (r: Received)
      modifies rawSocket
      ensures rawSocket.outbox == old(rawSocket.outbox)
      ensures r.Payload? ==> |r.bytes| < TWO_TO_THE_64 && old(rawSocket.inbox) == Frame(r.bytes) + rawSocket.inbox
      ensures r.ServerDiedError? ==> rawSocket.inbox == []
      ensures r.ConnectionError? ==> exists k :: 0 <= k < 8 && k <= |old(rawSocket.inbox)| && rawSocket.inbox == old(rawSocket.inbox)[k..]
    {
      var header := Recv(8);
      if |header| != 8 {
        return ConnectionError; // struct.error
      }
      var size := ParseFixed64(header);
      var buff := RecvAllOrRaise(size);
      if buff.None? {
        return ServerDiedError;
      }
      HeaderIsSize(header);
      assert old(rawSocket.inbox) == header + (buff.value + rawSocket.inbox);
      assert Frame(buff.value) + rawSocket.inbox == Fixed64(|buff.value|) + (buff.value + rawSocket.inbox);
      return Payload(buff.value);
    }
  }
}

/** The messages of a session (rpc.proto) in the codec: what one side packs, the other side unpacks. */
module RpcMessages {
  import opened Bytes
  import opened Varints
  import opened Schema
  import opened Wire
  import opened Parsing
  import opened Canonical
  import opened RoundTrip
  import Reencode

  const MESSAGE_MAGIC: u32 := 0x123_4569
  const REP_ERROR: u32 := 0x1000
  const RPC_MAX_REQ_MSG_ID: u32 := 0x100
  const RPC_PTY_BUFFER_SIZE: nat := 0x1_0000
  const REQ_EXEC: u32 := 6
  const REQ_CLOSE_CLIENT: u32 := 8

  datatype RpcMessage = RpcMessage(magic: u32, clientId: u32, msgId: u32, payload: seq<byte>)

  /** What the server sends while a process runs in the foreground. */
  datatype PtyMessage = PtyBuffer(bytes: seq<byte>) | PtyExitCode(code: u32)

  function PlainField(id: u32, ty: FieldType, oneof: Option<nat>): FieldDescriptor {
    FieldDescriptor(id, NONE, ty, false, oneof, 0, false, 0, [])
  }

  const RPC_MESSAGE := Descriptor(
    [PlainField(1, UINT32, None), PlainField(2, UINT32, None), PlainField(3, UINT32, None), PlainField(4, BYTES, None)], 0)
  const RPC_PTY_MESSAGE := Descriptor([PlainField(1, BYTES, Some(0)), PlainField(2, UINT32, Some(0))], 1)

  const RPC: Schema := [RPC_MESSAGE, RPC_PTY_MESSAGE]

  lemma RpcIsValid()
    ensures ValidSchema(RPC)
  {
    assert RPC_PTY_MESSAGE.fields[0].oneof == Some(0);
    assert HasOneofField(RPC_PTY_MESSAGE.fields, 0);
  }

  function BytesPtr(s: seq<byte>): Ptr { if s == [] then Null else Own(s) }

  function ToMessage(r: RpcMessage): Message {
    Message(0, [Single(false, Word(r.magic)), Single(false, Word(r.clientId)), Single(false, Word(r.msgId)),
                Single(false, Blob(BytesPtr(r.payload)))], [], [])
  }

  function PtyToMessage(p: PtyMessage): Message {
    Message(1, [Shared, Shared],
            [match p case PtyBuffer(s) => Chosen(1, Blob(BytesPtr(s))) case PtyExitCode(c) => Chosen(2, Word(c))], [])
  }

  /** The member of a slot that holds a 32-bit word. */
  function WordAt(m: Message, i: nat): u32 {
    if SlotOf(m, i).Single? && SlotOf(m, i).v.Word? then Low32(SlotOf(m, i).v.w) else 0
  }

  function BytesAt(m: Message, i: nat): seq<byte> {
    if SlotOf(m, i).Single? && SlotOf(m, i).v.Blob? && SlotOf(m, i).v.b.Own? then SlotOf(m, i).v.b.bytes else []
  }

  function FromMessage(m: Message): RpcMessage {
    RpcMessage(WordAt(m, 0), WordAt(m, 1), WordAt(m, 2), BytesAt(m, 3))
  }

  function PtyFromMessage(m: Message): Option<PtyMessage> {
    match OneofOf(m, 0)
    case Chosen(id, Blob(p)) => Some(PtyBuffer(if p.Own? then p.bytes else []))
    case Chosen(id, Word(w)) => Some(PtyExitCode(Low32(w)))
    case _ => None
  }

  function Pack(r: RpcMessage): seq<byte> { Encode(RPC, ToMessage(r)) }
  function PackPty(p: PtyMessage): seq<byte> { Encode(RPC, PtyToMessage(p)) }

  /** rpc_msg_recv and ParseFromString, for the two kinds of message. */
  function Unpack(s: seq<byte>): Option<RpcMessage> {
    match Parse(RPC, 0, s) case None => None case Some(m) => Some(FromMessage(m))
  }

  function UnpackPty(s: seq<byte>): Option<PtyMessage> {
    match Parse(RPC, 1, s) case None => None case Some(m) => PtyFromMessage(m)
  }

  lemma MessageIsWellFormed(r: RpcMessage)
    ensures WellFormed(RPC, ToMessage(r))
  {
    var m := ToMessage(r);
    forall i | 0 <= i < |m.slots|
      ensures WellFormedSlot(RPC, RPC_MESSAGE.fields[i], m.slots[i])
    {}
  }

  lemma PtyIsWellFormed(p: PtyMessage)
    ensures WellFormed(RPC, PtyToMessage(p))
  {
    var m := PtyToMessage(p);
    forall i | 0 <= i < |m.slots|
      ensures WellFormedSlot(RPC, RPC_PTY_MESSAGE.fields[i], m.slots[i])
    {}
    assert FindField(RPC_PTY_MESSAGE.fields, 1) == 0 && FindField(RPC_PTY_MESSAGE.fields, 2) == 1;
    assert WellFormedOneof(RPC, RPC_PTY_MESSAGE, 0, m.oneofs[0]);
  }

  /** A message that is not too long for the codec. */
  predicate Sendable32(packed: seq<byte>) { |packed| <= INT_MAX }

  lemma FewMembers(m: Message, n: nat)
    requires m.desc < |RPC| && n <= |RPC[m.desc].fields| && forall i :: 0 <= i < |RPC[m.desc].fields| ==> RPC[m.desc].fields[i].rule == NONE
    ensures |MembersTo(RPC, m, n)| <= n
    decreases n
  {
    hide FieldMembers;
    if n > 0 {
      FewMembers(m, n - 1);
      OneMember(m, n - 1);
    }
  }

  lemma OneMember(m: Message, i: nat)
    requires m.desc < |RPC| && i < |RPC[m.desc].fields| && RPC[m.desc].fields[i].rule == NONE
    ensures |FieldMembers(RPC, m, i)| <= 1
  {
    hide EncodeValue;
  }

  lemma FlatFits(m: Message, n: nat)
    requires WellShaped(RPC, m) && n <= |m.slots|
    requires forall i :: 0 <= i < |m.slots| ==> m.slots[i].Shared? || (m.slots[i].Single? && !m.slots[i].v.Msg?)
    requires forall g :: 0 <= g < |m.oneofs| ==> m.oneofs[g].Chosen? ==> !m.oneofs[g].v.Msg?
    ensures FitsTo(RPC, m, n)
    decreases n
  {
    if n > 0 { FlatFits(m, n - 1); }
  }

  /** Packing a session message and unpacking it gives it back. */
  lemma RpcRoundTrip(r: RpcMessage)
    requires Sendable32(Pack(r))
    ensures Unpack(Pack(r)) == Some(r)
  {
    var m := ToMessage(r);
    RpcIsValid();
    MessageIsWellFormed(r);
    RoundTrips(RPC, m);
    FewMembers(m, 4);
    FlatFits(m, 4);
    assert Fits(RPC, m);
    RpcNormal(r);
  }

  lemma RpcNormal(r: RpcMessage)
    ensures FromMessage(Normalize(RPC, ToMessage(r))) == r
  {
    hide Normalize, NormSlot;
    var m := ToMessage(r);
    Reencode.NormalizedSlot(RPC, m, 0);
    Reencode.NormalizedSlot(RPC, m, 1);
    Reencode.NormalizedSlot(RPC, m, 2);
    Reencode.NormalizedSlot(RPC, m, 3);
    PlainWordNormal(1, r.magic);
    PlainWordNormal(2, r.clientId);
    PlainWordNormal(3, r.msgId);
    PlainBytesNormal(4, r.payload);
  }

  lemma PlainWordNormal(id: u32, w: u32)
    ensures NormSlot(RPC, PlainField(id, UINT32, None), Single(false, Word(w))) == Single(false, Word(w))
  {}

  lemma PlainBytesNormal(id: u32, s: seq<byte>)
    ensures NormSlot(RPC, PlainField(id, BYTES, None), Single(false, Blob(BytesPtr(s)))) == Single(false, Blob(BytesPtr(s)))
  {}

  lemma PtyRoundTrip(p: PtyMessage)
    requires Sendable32(PackPty(p))
    ensures UnpackPty(PackPty(p)) == Some(p)
  {
    var m := PtyToMessage(p);
    RpcIsValid();
    PtyIsWellFormed(p);
    RoundTrips(RPC, m);
    FewMembers(m, 2);
    FlatFits(m, 2);
    assert Fits(RPC, m);
    PtyNormal(p);
  }

  lemma PtyNormal(p: PtyMessage)
    ensures PtyFromMessage(Normalize(RPC, PtyToMessage(p))) == Some(p)
  {
    var m := PtyToMessage(p);
    assert FindField(RPC_PTY_MESSAGE.fields, 1) == 0 && FindField(RPC_PTY_MESSAGE.fields, 2) == 1;
    hide Normalize;
    Reencode.NormalizedOneof(RPC, m, 0);
  }

  // ---- How long the messages are --------------------------------------------------------------

  /** Messages of 2 GiB and above are left out, with room for the fields around the payload. */
  const MAX_PAYLOAD: nat := INT_MAX - 64

  function ValueLength(v: Value): nat {
    if v.Blob? && v.b.Own? then |v.b.bytes| else 0
  }

  lemma ValueIsShort(id: u32, ty: FieldType, oneof: Option<nat>, v: Value)
    requires id <= 4 && ((ty == UINT32 && v.Word?) || (ty == BYTES && v.Blob?)) && ValueLength(v) <= MAX_PAYLOAD
    ensures |Serialize(ValueMember(RPC, PlainField(id, ty, oneof), v))| <= 6 + ValueLength(v)
  {
    if ty == UINT32 {
      VarintAtMostFive(Low32(v.w));
    } else {
      VarintAtMostFive(ValueLength(v));
    }
  }

  lemma OneSerialized(mem: Member)
    ensures SerializeAll([mem]) == Serialize(mem) && SerializeAll([]) == []
  {
    assert [mem][..0] == [];
    assert [] + Serialize(mem) == Serialize(mem);
  }

  lemma FieldIsShort(m: Message, i: nat, id: u32, ty: FieldType, oneof: Option<nat>, v: Value)
    requires m.desc < |RPC| && i < |RPC[m.desc].fields| && i < |m.slots| && RPC[m.desc].fields[i] == PlainField(id, ty, oneof)
    requires if oneof == Some(0) then |m.oneofs| == 1 && (m.oneofs[0].Chosen? && m.oneofs[0].id == id ==> m.oneofs[0].v == v)
             else oneof == None && m.slots[i] == Single(false, v)
    requires id <= 4 && ValueLength(v) <= MAX_PAYLOAD
    requires (ty == UINT32 && v.Word?) || (ty == BYTES && v.Blob?)
    ensures |SerializeAll(FieldMembers(RPC, m, i))| <= 6 + ValueLength(v)
  {
    ValueIsShort(id, ty, oneof, v);
    hide Serialize, EncodeValue, SerializeAll;
    OneSerialized(ValueMember(RPC, PlainField(id, ty, oneof), v));
  }

  lemma MembersSize(m: Message, n: nat)
    requires m.desc < |RPC| && n < |RPC[m.desc].fields|
    ensures |SerializeAll(MembersTo(RPC, m, n + 1))| == |SerializeAll(MembersTo(RPC, m, n))| + |SerializeAll(FieldMembers(RPC, m, n))|
    ensures MembersTo(RPC, m, 0) == []
  {
    SerializeAllConcat(MembersTo(RPC, m, n), FieldMembers(RPC, m, n));
  }

  lemma PackIsShort(r: RpcMessage)
    requires |r.payload| <= MAX_PAYLOAD
    ensures |Pack(r)| <= |r.payload| + 24
  {
    var m := ToMessage(r);
    hide FieldMembers, SerializeAll;
    FieldIsShort(m, 0, 1, UINT32, None, Word(r.magic));
    FieldIsShort(m, 1, 2, UINT32, None, Word(r.clientId));
    FieldIsShort(m, 2, 3, UINT32, None, Word(r.msgId));
    FieldIsShort(m, 3, 4, BYTES, None, Blob(BytesPtr(r.payload)));
    MembersSize(m, 0);
    MembersSize(m, 1);
    MembersSize(m, 2);
    MembersSize(m, 3);
    OneSerialized(Member(1, 0, []));
    assert Members(RPC, m) == MembersTo(RPC, m, 4);
  }

  lemma PackPtyIsShort(p: PtyMessage)
    requires p.PtyBuffer? ==> |p.bytes| <= RPC_PTY_BUFFER_SIZE
    ensures |PackPty(p)| <= RPC_PTY_BUFFER_SIZE + 12
  {
    var m := PtyToMessage(p);
    hide FieldMembers, SerializeAll;
    FieldIsShort(m, 0, 1, BYTES, Some(0), if p.PtyBuffer? then Blob(BytesPtr(p.bytes)) else Blob(Null));
    FieldIsShort(m, 1, 2, UINT32, Some(0), if p.PtyBuffer? then Word(0) else Word(p.code));
    MembersSize(m, 0);
    MembersSize(m, 1);
    OneSerialized(Member(1, 0, []));
    assert Members(RPC, m) == MembersTo(RPC, m, 2);
  }
}
