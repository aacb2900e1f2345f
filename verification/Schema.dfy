/**
 Descriptors and messages (protobuf-c.h), with every C pointer, offset and union replaced by the
 value it leads to. A schema is a table of descriptors, so that a message type may contain itself.
 */
module Schema {
  import opened Bytes

  datatype FieldType =
    | INT32 | SINT32 | SFIXED32 | INT64 | SINT64 | SFIXED64 | UINT32 | FIXED32 | UINT64 | FIXED64
    | FLOAT | DOUBLE | BOOL | ENUM | STRING | BYTES | MESSAGE

  datatype Label = REQUIRED | OPTIONAL | REPEATED | NONE

  /**
   One field of a message type. `oneof` names the oneof that contains the field; `sub` is the index
   of the descriptor of a MESSAGE field; `initWord` is what message_init stores in a scalar field;
   `hasDefault` says whether `default_value` is set, and `defaultBytes` is the text or the bytes it
   points to.
   */
  datatype FieldDescriptor = FieldDescriptor(
    id: u32,
    rule: Label,
    ty: FieldType,
    packed: bool,
    oneof: Option<nat>,
    sub: nat,
    hasDefault: bool,
    initWord: u64,
    defaultBytes: seq<byte>)

  datatype Descriptor = Descriptor(fields: seq<FieldDescriptor>, nOneofs: nat)

  type Schema = seq<Descriptor>

  const NO_DESCRIPTOR := Descriptor([], 0)

  function DescriptorOf(sch: Schema, d: nat): Descriptor {
    if d < |sch| then sch[d] else NO_DESCRIPTOR
  }

  predicate IsWord32(t: FieldType) {
    t in {INT32, SINT32, SFIXED32, UINT32, FIXED32, FLOAT, ENUM}
  }

  predicate IsFixed32(t: FieldType) { t == SFIXED32 || t == FIXED32 || t == FLOAT }
  predicate IsFixed64(t: FieldType) { t == SFIXED64 || t == FIXED64 || t == DOUBLE }

  /** is_packable_type */
  predicate IsPackable(t: FieldType) { t != STRING && t != BYTES && t != MESSAGE }

  /** Fields whose presence is recorded in a has-member of the message. */
  predicate HasBit(f: FieldDescriptor) {
    f.rule == OPTIONAL && f.oneof.None? && f.ty != STRING && f.ty != MESSAGE
  }

  /** What a string or bytes member points to: nothing, the field's default value, or its own block. */
  datatype Ptr = Null | Default | Own(bytes: seq<byte>)

  datatype Value =
    | Word(w: u64)
    | Text(t: Ptr)
    | Blob(b: Ptr)
    | NoMsg
    | Msg(m: Message)

  /** The storage of one field: a single member with its has-bit, an array, or a share of a oneof. */
  datatype Slot = Single(has: bool, v: Value) | Many(vs: seq<Value>) | Shared

  datatype OneofState = Unset | Chosen(id: u32, v: Value)

  /** A tagged piece of a message on the wire; also an unknown field that is passed through. */
  datatype Member = Member(tag: u32, wireType: nat, data: seq<byte>)

  datatype Message = Message(desc: nat, slots: seq<Slot>, oneofs: seq<OneofState>, unknown: seq<Member>)

  /** The bytes that a string or bytes member leads to. */
  function Content(f: FieldDescriptor, p: Ptr): seq<byte> {
    match p
    case Null => []
    case Default => f.defaultBytes
    case Own(bytes) => bytes
  }

  /** The bytes of a C string: up to the first NUL. */
  function CString(s: seq<byte>): (r: seq<byte>)
    ensures |r| <= |s|
    ensures 0 !in r
  {
    if s == [] || s[0] == 0 then [] else [s[0]] + CString(s[1..])
  }

  lemma {:induction false} CStringIdempotent(s: seq<byte>)
    ensures CString(CString(s)) == CString(s)
  {
    if s != [] && s[0] != 0 {
      CStringIdempotent(s[1..]);
      assert CString(s)[1..] == CString(s[1..]);
    }
  }

  function SlotOf(m: Message, i: nat): Slot {
    if i < |m.slots| then m.slots[i] else Shared
  }

  function OneofOf(m: Message, g: nat): OneofState {
    if g < |m.oneofs| then m.oneofs[g] else Unset
  }

  function Elements(s: Slot): seq<Value> { if s.Many? then s.vs else [] }

  function Held(s: Slot): Value { if s.Single? then s.v else NoMsg }

  // ---- message_init ---------------------------------------------------------------------------

  function InitValue(f: FieldDescriptor): Value {
    if f.ty == MESSAGE then NoMsg
    else if f.ty == STRING then Text(if f.hasDefault then Default else Null)
    else if f.ty == BYTES then Blob(if f.hasDefault then Default else Null)
    else Word(f.initWord)
  }

  function InitSlot(f: FieldDescriptor): Slot {
    if f.rule == REPEATED then Many([])
    else if f.oneof.Some? then Shared
    else Single(false, InitValue(f))
  }

  function Init(sch: Schema, d: nat): Message {
    var desc := DescriptorOf(sch, d);
    Message(d, seq(|desc.fields|, i requires 0 <= i < |desc.fields| => InitSlot(desc.fields[i])),
            seq(desc.nOneofs, _ => Unset), [])
  }

  // ---- Field lookup, specified as a linear search ---------------------------------------------

  /** The index of the field with number `tag`, or -1. */
  function FindField(fields: seq<FieldDescriptor>, tag: u32): (i: int)
    ensures -1 <= i < |fields|
    ensures i >= 0 ==> fields[i].id == tag
    ensures i < 0 ==> forall k :: 0 <= k < |fields| ==> fields[k].id != tag
  {
    if fields == [] then -1
    else if fields[|fields| - 1].id == tag then |fields| - 1
    else FindField(fields[..|fields| - 1], tag)
  }

  predicate StrictlyIncreasing(fields: seq<FieldDescriptor>) {
    forall i, j :: 0 <= i < j < |fields| ==> fields[i].id < fields[j].id
  }

  // ---- Well-formed schemas and messages -------------------------------------------------------

  predicate ValidField(sch: Schema, desc: Descriptor, f: FieldDescriptor) {
    && 1 <= f.id < INT_MAX
    && (f.ty == MESSAGE ==> f.sub < |sch| && !f.hasDefault)
    && (f.packed ==> f.rule == REPEATED && IsPackable(f.ty))
    && (f.oneof.Some? ==> f.oneof.value < desc.nOneofs && (f.rule == OPTIONAL || f.rule == NONE))
    && (f.rule == NONE ==> f.initWord == 0 && f.defaultBytes == [])
  }

  /** A oneof has at least one field. */
  predicate HasOneofField(fields: seq<FieldDescriptor>, g: nat) {
    exists i :: 0 <= i < |fields| && fields[i].oneof == Some(g)
  }

  predicate ValidDescriptor(sch: Schema, desc: Descriptor) {
    && StrictlyIncreasing(desc.fields)
    && (forall g :: 0 <= g < desc.nOneofs ==> HasOneofField(desc.fields, g))
    && forall i :: 0 <= i < |desc.fields| ==> ValidField(sch, desc, desc.fields[i])
  }

  predicate ValidSchema(sch: Schema) {
    forall d :: 0 <= d < |sch| ==> ValidDescriptor(sch, sch[d])
  }

  lemma FieldIsFound(sch: Schema, d: nat, i: nat)
    requires ValidSchema(sch) && d < |sch| && i < |sch[d].fields|
    ensures FindField(sch[d].fields, sch[d].fields[i].id) == i
  {}
}
