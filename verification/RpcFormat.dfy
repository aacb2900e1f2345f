/**
 The session protocol in numbers (rpc.proto): the bytes of a frame and of every message, and the ids,
 the magic number and the command numbers that requests and replies carry.
 */
module RpcFormat {
  import opened Bytes
  import opened Varints
  import opened Schema
  import opened Wire
  import opened Parsing
  import opened Canonical
  import opened Framing
  import opened RpcMessages
  import opened Session
  import Format

  /** A frame: eight bytes of length, least significant first, and the message. */
  lemma FrameInBytes(m: seq<byte>)
    requires |m| < 0x1_0000_0000_0000_0000
    ensures Frame(m) == Format.Little(|m|, 8) + m
    ensures Format.LittleEndian(Frame(m)[..8]) == |m| && Frame(m)[8..] == m
  {
    hide Fixed64, ParseFixed64, Format.Little, Format.LittleEndian;
    Format.Fixed64IsLittle(|m|);
    SizeIsRead(|m|);
    assert Frame(m)[..8] == Fixed64(|m|);
  }

  lemma SizeIsRead(n: u64)
    ensures Format.LittleEndian(Fixed64(n)) == n
  {
    hide Fixed64, ParseFixed64, Format.LittleEndian;
    Fixed64RoundTrip(n, []);
    assert Fixed64(n) + [] == Fixed64(n);
    Format.ParseFixed64IsSum(Fixed64(n));
  }

  /** A field that is left out when it is zero. */
  function NumberField(key: byte, w: u32): seq<byte> {
    if w == 0 then [] else [key] + Varint(w)
  }

  function BytesField(key: byte, s: seq<byte>): seq<byte> {
    if s == [] then [] else [key] + (Varint(|s|) + s)
  }

  lemma SmallVarint(v: nat)
    requires v < 128
    ensures Varint(v) == [v]
  {}

  lemma BytesValue(sch: Schema, f: FieldDescriptor, s: seq<byte>)
    requires f.ty == BYTES && f.id < 16
    ensures Format.ValueText(sch, f, Blob(BytesPtr(s))) == [8 * f.id + 2] + (Varint(|s|) + s)
  {
    hide Varint, Format.ValueText;
    SmallVarint(8 * f.id + 2);
    Format.BytesText(sch, f, BytesPtr(s));
  }

  lemma NumberValue(sch: Schema, f: FieldDescriptor, w: u32)
    requires f.ty == UINT32 && f.id < 16
    ensures Format.ValueText(sch, f, Word(w)) == [8 * f.id] + Varint(w)
  {
    hide Varint, Format.ValueText;
    SmallVarint(8 * f.id);
    Format.NumberText(sch, f, w);
  }

  /** The text of an unlabelled number, and of unlabelled bytes. */
  lemma NumberText(sch: Schema, m: Message, i: nat, w: u32)
    requires i < |DescriptorOf(sch, m.desc).fields| && i < 4 && SlotOf(m, i) == Single(false, Word(w))
    requires DescriptorOf(sch, m.desc).fields[i] == PlainField(i + 1, UINT32, None)
    ensures Format.FieldText(sch, m, i) == NumberField(8 * (i + 1), w)
  {
    hide Varint, Format.ValueText;
    NumberValue(sch, PlainField(i + 1, UINT32, None), w);
  }

  lemma PayloadText(sch: Schema, m: Message, s: seq<byte>)
    requires |DescriptorOf(sch, m.desc).fields| == 4 && SlotOf(m, 3) == Single(false, Blob(BytesPtr(s)))
    requires DescriptorOf(sch, m.desc).fields[3] == PlainField(4, BYTES, None)
    ensures Format.FieldText(sch, m, 3) == BytesField(0x22, s)
  {
    hide Varint, Format.ValueText;
    BytesValue(sch, PlainField(4, BYTES, None), s);
  }

  lemma FourFields(sch: Schema, m: Message)
    requires |DescriptorOf(sch, m.desc).fields| == 4
    ensures Format.FieldsText(sch, m, 4)
         == Format.FieldText(sch, m, 0) + Format.FieldText(sch, m, 1) + Format.FieldText(sch, m, 2) + Format.FieldText(sch, m, 3)
  {
    hide Format.FieldText;
    assert Format.FieldsText(sch, m, 1) == [] + Format.FieldText(sch, m, 0) == Format.FieldText(sch, m, 0);
    assert Format.FieldsText(sch, m, 2) == Format.FieldsText(sch, m, 1) + Format.FieldText(sch, m, 1);
    assert Format.FieldsText(sch, m, 3) == Format.FieldsText(sch, m, 2) + Format.FieldText(sch, m, 2);
  }

  /** Encoding, field by field, without unknown fields. */
  lemma EncodedAsFields(sch: Schema, m: Message)
    requires ValidSchema(sch) && WellFormed(sch, m) && m.unknown == []
    ensures m.desc < |sch| && |m.slots| == |sch[m.desc].fields|
    ensures Encode(sch, m) == Format.FieldsText(sch, m, |m.slots|)
  {
    hide Format.FieldsText, Encode, WellFormed;
    Format.EncodedAsText(sch, m);
    assert Format.UnknownText([]) == [];
    assert Format.FieldsText(sch, m, |m.slots|) + [] == Format.FieldsText(sch, m, |m.slots|);
  }

  /** A request or a reply: magic number, client, command and payload as the fields 1 to 4. */
  lemma MessageInBytes(r: RpcMessage)
    ensures Pack(r) == NumberField(0x08, r.magic) + NumberField(0x10, r.clientId) + NumberField(0x18, r.msgId)
                       + BytesField(0x22, r.payload)
  {
    hide Format.FieldText, Format.FieldsText, NumberField, BytesField, WellFormed, Encode;
    var m := ToMessage(r);
    RpcIsValid();
    MessageIsWellFormed(r);
    EncodedAsFields(RPC, m);
    FourFields(RPC, m);
    NumberText(RPC, m, 0, r.magic);
    NumberText(RPC, m, 1, r.clientId);
    NumberText(RPC, m, 2, r.msgId);
    PayloadText(RPC, m, r.payload);
  }

  lemma TwoFields(sch: Schema, m: Message)
    requires |DescriptorOf(sch, m.desc).fields| == 2
    ensures Format.FieldsText(sch, m, 2) == Format.FieldText(sch, m, 0) + Format.FieldText(sch, m, 1)
  {
    hide Format.FieldText;
    assert Format.FieldsText(sch, m, 1) == [] + Format.FieldText(sch, m, 0) == Format.FieldText(sch, m, 0);
  }

  ghost predicate OutputOrCode(sch: Schema, m: Message) {
    && |DescriptorOf(sch, m.desc).fields| == 2
    && DescriptorOf(sch, m.desc).fields[0] == PlainField(1, BYTES, Some(0))
    && DescriptorOf(sch, m.desc).fields[1] == PlainField(2, UINT32, Some(0))
  }

  lemma OutputText(sch: Schema, m: Message, s: seq<byte>)
    requires OutputOrCode(sch, m) && OneofOf(m, 0) == Chosen(1, Blob(BytesPtr(s)))
    ensures Format.FieldText(sch, m, 0) == [0x0A] + (Varint(|s|) + s) && Format.FieldText(sch, m, 1) == []
  {
    hide Varint, Format.ValueText;
    BytesValue(sch, PlainField(1, BYTES, Some(0)), s);
  }

  lemma CodeText(sch: Schema, m: Message, c: u32)
    requires OutputOrCode(sch, m) && OneofOf(m, 0) == Chosen(2, Word(c))
    ensures Format.FieldText(sch, m, 0) == [] && Format.FieldText(sch, m, 1) == [0x10] + Varint(c)
  {
    hide Varint, Format.ValueText;
    NumberValue(sch, PlainField(2, UINT32, Some(0)), c);
  }

  function PtyText(p: PtyMessage): seq<byte> {
    match p
    case PtyBuffer(s) => [0x0A] + (Varint(|s|) + s)
    case PtyExitCode(c) => [0x10] + Varint(c)
  }

  /** A message of a running process: a piece of output as field 1, or an exit code as field 2. */
  lemma PtyMessageInBytes(p: PtyMessage)
    ensures PackPty(p) == PtyText(p)
  {
    hide Format.FieldText, Format.FieldsText, Varint, WellFormed, Encode;
    var m := PtyToMessage(p);
    RpcIsValid();
    PtyIsWellFormed(p);
    EncodedAsFields(RPC, m);
    TwoFields(RPC, m);
    match p
    case PtyBuffer(s) => OutputText(RPC, m, s);
    case PtyExitCode(c) => CodeText(RPC, m, c);
  }

  /** The text of a refusal: at most 255 bytes of it, up to its NUL, as field 1 of a message. */
  lemma RefusalInBytes(text: seq<byte>)
    ensures var s := Format.UpToNul(if |text| <= 255 then text else text[..255]);
            ErrorPayload(text) == BytesField(0x0A, s)
  {
    hide Varint, Format.UpToNul, CString;
    var t := if |text| <= 255 then text else text[..255];
    Format.UpToNulIsCString(t);
  }

  /** What a session is, with its numbers: who is answered how, what starts a process, and what ends it. */
  lemma SessionInNumbers(routines: Routines, handshake: seq<byte>, run: Run, k: nat)
    requires RunIs(routines, handshake, run) && k < |run.exchanges|
    ensures var e := run.exchanges[k];
            && e.request.magic == 0x123_4569 && e.reply.magic == 0x123_4569 && e.reply.clientId == 0
            && (e.request.msgId == 0 || e.request.msgId >= 0x100 ==> e.reply.msgId == 0x1000 && e.outcome == OutOfBounds)
            && (0 < e.request.msgId < 0x100 && e.request.msgId !in routines.configured ==>
                  e.reply.msgId == 0x1000 && e.outcome == NoRoutine)
            && (e.outcome.Returned? && e.outcome.status.Success? ==> e.reply.msgId == e.request.msgId + 0x100)
            && (e.outcome.Returned? && !e.outcome.status.Success? ==> e.reply.msgId == 0x1000)
            && (e.pty.Some? <==> e.request.msgId == 6 && e.outcome.Returned? && e.outcome.status.Success?
                                 && !routines.background(e.request.payload))
            && (e.pty.Some? ==> forall j :: 0 <= j < |e.pty.value.process.read| ==> 1 <= |e.pty.value.process.read[j]| <= 0x1_0000)
            && (e.request.msgId == 8 <==> run.ending == Closed && k == |run.exchanges| - 1)
    ensures run.ending.BadMagic? ==> run.ending.request.magic != 0x123_4569
  {
    assert ExchangeIs(routines, run.exchanges[k]);
  }
}
