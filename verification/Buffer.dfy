/** protobuf_c_message_get_packed_size: the serializer that only counts. */
module Sizes {
  import opened Bytes
  import opened Varints
  import opened Schema
  import opened Wire
  import opened Canonical
  import opened Scalars
  import opened Pack

  /** The size of one scalar, by the branches of required_field_get_packed_size. */
  function ScalarSize(t: FieldType, w: u64): nat {
    match t
    case SINT32 => Uint32Size(ZigZag32(Low32(w)))
    case INT32 | ENUM => Int32Size(Low32(w))
    case UINT32 => Uint32Size(Low32(w))
    case SINT64 => Uint64Size(ZigZag64(w))
    case INT64 | UINT64 => Uint64Size(w)
    case SFIXED32 | FIXED32 | FLOAT => 4
    case SFIXED64 | FIXED64 | DOUBLE => 8
    case BOOL => 1
    case STRING | BYTES | MESSAGE => 0
  }

  lemma ScalarSizeIsLength(t: FieldType, w: u64)
    ensures ScalarSize(t, w) == |EncodeScalar(t, w)|
  {
    hide Varint, Uint32Size, Uint64Size, Int32Size;
    match t
    case SINT32 => Uint32SizeIsLength(ZigZag32(Low32(w)));
    case INT32 | ENUM => Int32SizeIsLength(Low32(w));
    case UINT32 => Uint32SizeIsLength(Low32(w));
    case SINT64 => Uint64SizeIsLength(ZigZag64(w));
    case INT64 | UINT64 => Uint64SizeIsLength(w);
    case _ =>
  }

  method ValueSize(sch: Schema, f: FieldDescriptor, v: Value) returns (rv: nat)
    requires ValidSchema(sch) && WellFormedValue(sch, f, v) && |EncodeValue(sch, f, v)| <= INT_MAX
    ensures rv == |EncodeValue(sch, f, v)|
    decreases v, 0
  {
    hide EncodeScalar, Varint, Uint32Size, Encode, WellFormed;
    var len := 0;
    match v {
      case Word(w) =>
        ScalarSizeIsLength(f.ty, w);
        return ScalarSize(f.ty, w);
      case Text(p) => len := |CString(Content(f, p))|;
      case Blob(p) => len := |Content(f, p)|;
      case NoMsg => len := 0;
      case Msg(m) => len := MessageSize(sch, m);
    }
    Uint32SizeIsLength(len);
    rv := Uint32Size(len) + len;
  }

  method RequiredFieldSize(sch: Schema, f: FieldDescriptor, v: Value) returns (rv: nat)
    requires ValidSchema(sch) && WellFormedValue(sch, f, v) && |EncodeValue(sch, f, v)| <= INT_MAX
    ensures rv == |Serialize(ValueMember(sch, f, v))|
    decreases v, 1
  {
    hide EncodeValue, Varint, TagSize;
    TagSizeIsLength(f.id, WireTypeOf(f.ty));
    var n := ValueSize(sch, f, v);
    rv := TagSize(f.id) + n;
  }

  method PayloadSize(t: FieldType, vs: seq<Value>) returns (rv: nat)
    requires AllWords(vs)
    ensures rv == |PackedPayload(t, vs)|
  {
    hide EncodeScalar, ScalarSize;
    rv := 0;
    for i := 0 to |vs|
      invariant rv == |PackedPayload(t, vs[..i])|
    {
      PayloadPrefix(t, vs, i);
      ScalarSizeIsLength(t, vs[i].w);
      rv := rv + ScalarSize(t, vs[i].w);
    }
    assert vs[..|vs|] == vs;
  }

  /** The bodies of the members in a list. */
  function BodyBytes(ms: seq<Member>): nat {
    if ms == [] then 0 else BodyBytes(ms[..|ms| - 1]) + |ms[|ms| - 1].data|
  }

  /** Members with one key take its size as often as there are members. */
  lemma {:induction false} CommonKey(ms: seq<Member>, id: u32, wireType: nat)
    requires wireType < 8 && forall k :: 0 <= k < |ms| ==> ms[k].tag == id && ms[k].wireType == wireType
    ensures |SerializeAll(ms)| == TagSize(id) * |ms| + BodyBytes(ms)
  {
    hide TagSize, Varint;
    if ms != [] {
      var n := |ms| - 1;
      CommonKey(ms[..n], id, wireType);
      TagSizeIsLength(id, wireType);
      assert TagSize(id) * |ms| == TagSize(id) * n + TagSize(id);
    }
  }

  lemma {:induction false} ElementKeys(sch: Schema, f: FieldDescriptor, vs: seq<Value>)
    ensures forall k :: 0 <= k < |vs| ==>
              ElementMembers(sch, f, vs)[k].tag == f.id && ElementMembers(sch, f, vs)[k].wireType == WireTypeOf(f.ty)
  {
    if vs != [] { ElementKeys(sch, f, vs[..|vs| - 1]); }
  }

  /** The other branch of repeated_field_get_packed_size: the size of the key counts once an element. */
  method UnpackedFieldSize(sch: Schema, f: FieldDescriptor, vs: seq<Value>) returns (rv: nat)
    requires ValidSchema(sch) && forall i :: 0 <= i < |vs| ==> WellFormedValue(sch, f, vs[i])
    requires |SerializeAll(ElementMembers(sch, f, vs))| <= INT_MAX
    ensures rv == |SerializeAll(ElementMembers(sch, f, vs))|
    decreases vs, 2
  {
    hide SerializeAll, WellFormedValue, EncodeValue, Key, TagSize;
    ghost var ms := ElementMembers(sch, f, vs);
    var headerSize := TagSize(f.id) * |vs|;
    rv := 0;
    for i := 0 to |vs|
      invariant rv == BodyBytes(ms[..i])
    {
      ElementPrefix(sch, f, vs, i);
      MemberWithin(ms, i);
      var n := ValueSize(sch, f, vs[i]);
      assert ms[..i + 1][..i] == ms[..i];
      rv := rv + n;
    }
    assert ms[..|vs|] == ms;
    ElementKeys(sch, f, vs);
    CommonKey(ms, f.id, WireTypeOf(f.ty));
    rv := headerSize + rv;
  }

  method RepeatedFieldSize(sch: Schema, f: FieldDescriptor, s: Slot) returns (rv: nat)
    requires ValidSchema(sch) && f.rule == REPEATED && WellFormedSlot(sch, f, s) && (f.packed ==> IsPackable(f.ty))
    requires |SerializeAll(SlotMembers(sch, f, s))| <= INT_MAX
    ensures rv == |SerializeAll(SlotMembers(sch, f, s))|
    decreases s, 3
  {
    hide SerializeAll, WellFormedValue, EncodeValue, PackedPayload, Varint, TagSize, Uint32Size;
    if |s.vs| == 0 {
      SerializeNone();
      rv := 0;
    } else if f.packed {
      PackedAreWords(sch, f, s.vs);
      SerializeOne(Member(f.id, WIRE_PREFIXED, Prefixed(PackedPayload(f.ty, s.vs))));
      var n := PayloadSize(f.ty, s.vs);
      TagSizeIsLength(f.id, WIRE_PREFIXED);
      Uint32SizeIsLength(n);
      rv := TagSize(f.id) + Uint32Size(n) + n;
    } else {
      rv := UnpackedFieldSize(sch, f, s.vs);
    }
  }

  method FieldSize(sch: Schema, m: Message, i: nat) returns (rv: nat)
    requires ValidSchema(sch) && WellFormed(sch, m) && i < |m.slots|
    requires |SerializeAll(FieldMembers(sch, m, i))| <= INT_MAX
    ensures rv == |SerializeAll(FieldMembers(sch, m, i))|
    decreases m, 4
  {
    hide SerializeAll, Serialize, WellFormedValue, EncodeValue;
    var f := sch[m.desc].fields[i];
    assert ValidField(sch, sch[m.desc], f);
    assert WellFormedSlot(sch, f, m.slots[i]);
    if (f.rule == OPTIONAL || f.rule == NONE) && f.oneof.Some? {
      SelectedIsWellFormed(sch, m, i);
      var o := m.oneofs[f.oneof.value];
      if IsSelected(f, o) {
        SerializeOne(ValueMember(sch, f, o.v));
        rv := RequiredFieldSize(sch, f, o.v);
      } else {
        SerializeNone();
        rv := 0;
      }
    } else if f.rule == REPEATED {
      rv := RepeatedFieldSize(sch, f, m.slots[i]);
    } else if IsPresent(f, m.slots[i]) {
      SerializeOne(ValueMember(sch, f, m.slots[i].v));
      rv := RequiredFieldSize(sch, f, m.slots[i].v);
    } else {
      SerializeNone();
      rv := 0;
    }
  }

  method UnknownFieldsSize(ms: seq<Member>) returns (rv: nat)
    requires forall k :: 0 <= k < |ms| ==> ms[k].wireType < 8
    ensures rv == |SerializeAll(ms)|
  {
    hide TagSize, Varint;
    rv := 0;
    for i := 0 to |ms|
      invariant rv == |SerializeAll(ms[..i])|
    {
      MemberWithin(ms, i);
      TagSizeIsLength(ms[i].tag, ms[i].wireType);
      rv := rv + (TagSize(ms[i].tag) + |ms[i].data|);
    }
    assert ms[..|ms|] == ms;
  }

  /** The size is the number of bytes that protobuf_c_message_pack stores. */
  method MessageSize(sch: Schema, m: Message) returns (rv: nat)
    requires ValidSchema(sch) && WellFormed(sch, m) && |Encode(sch, m)| <= INT_MAX
    ensures rv == |Encode(sch, m)|
    decreases m, 8
  {
    hide SerializeAll, MembersTo, FieldMembers;
    SerializeAllConcat(KnownMembers(sch, m), m.unknown);
    NoFields(sch, m);
    rv := 0;
    for i := 0 to |m.slots|
      invariant rv == |SerializeAll(MembersTo(sch, m, i))|
    {
      FieldWithin(sch, m, i, |m.slots|);
      var n := FieldSize(sch, m, i);
      rv := rv + n;
    }
    assert forall k :: 0 <= k < |m.unknown| ==> WellFormedUnknown(sch[m.desc], m.unknown[k]);
    var n := UnknownFieldsSize(m.unknown);
    rv := rv + n;
  }
}

/**
 protobuf_c_message_pack_to_buffer through ProtobufCBufferSimple: the serializer that appends to a
 buffer growing by doubling.
 */
module Buffer {
  import opened Bytes
  import opened Varints
  import opened VarintPack
  import opened Schema
  import opened Wire
  import opened Canonical
  import opened Scalars
  import opened Pack
  import opened Sizes

  /** A buffer at some time: its contents and capacity, the requests that were refused and the bytes that growth has copied. */
  datatype Snapshot = Snapshot(contents: seq<byte>, capacity: nat, refusals: nat, copied: nat)

  /**
   A buffer that was `b` and has been given `s` is `a`. Nothing is missing unless a request was refused,
   and none is made while there is room; all growth together copies no more than the capacity that it
   adds, and the capacity is less than twice what is needed.
   */
  ghost predicate After(b: Snapshot, a: Snapshot, s: seq<byte>) {
    && a.refusals >= b.refusals
    && (a.refusals == b.refusals ==> a.contents == b.contents + s)
    && |b.contents| <= |a.contents| <= |b.contents| + |s|
    && (|b.contents| + |s| <= b.capacity ==> a.refusals == b.refusals && a.capacity == b.capacity)
    && b.capacity <= a.capacity && b.copied <= a.copied
    && a.copied - b.copied <= a.capacity - b.capacity
    && (a.capacity == b.capacity || a.capacity < 2 * (|b.contents| + |s|))
  }

  lemma AfterNothing(b: Snapshot)
    ensures After(b, b, [])
  {}

  lemma AfterBoth(b: Snapshot, m: Snapshot, a: Snapshot, s: seq<byte>, t: seq<byte>)
    requires After(b, m, s) && After(m, a, t)
    ensures After(b, a, s + t)
  {
    assert (b.contents + s) + t == b.contents + (s + t);
  }

  class BufferSimple {
    var data: array<byte>
    var len: nat
    ghost var refusals: nat
    ghost var copied: nat // bytes copied by all growth so far

    ghost predicate Valid()
      reads this
    {
      0 < data.Length && len <= data.Length && copied <= data.Length
    }

    ghost function Contents(): seq<byte>
      reads this, data
      requires Valid()
    {
      data[..len]
    }

    ghost function Snap(): Snapshot
      reads this, data
      requires Valid()
    {
      Snapshot(Contents(), data.Length, refusals, copied)
    }

    constructor (capacity: nat)
      requires capacity > 0
      ensures Valid() && fresh(data) && Snap() == Snapshot([], capacity, 0, 0)
    {
      data := new byte[capacity];
      len := 0;
      copied := 0;
      refusals := 0;
    }

    /** The allocator: it may refuse. */
    method TryAlloc(n: nat) returns (a: array?<byte>)
      modifies this`refusals
      ensures a != null ==> fresh(a) && a.Length == n && refusals == old(refusals)
      ensures a == null ==> refusals == old(refusals) + 1
    {
      if * {
        a := null;
        refusals := refusals + 1;
      } else {
        a := new byte[n];
      }
    }

    /** The doubling loop of protobuf_c_buffer_simple_append. */
    static method GrownCapacity(alloced: nat, newLen: nat) returns (c: nat)
      requires 0 < alloced
      ensures c >= newLen && c >= 2 * alloced
      ensures newLen > alloced ==> c < 2 * newLen
    {
      c := alloced * 2;
      while c < newLen
        invariant c >= 2 * alloced && (c < 2 * newLen || c == 2 * alloced)
        decreases newLen - c
      {
        c := c + c;
      }
    }

    /**
     protobuf_c_buffer_simple_append: the buffer holds `s` too, unless it had to grow and could not,
     which the caller is not told; then it is as it was. Growth copies the contents once.
     */
    method Append(s: seq<byte>)
      requires Valid()
      modifies this, data
      ensures Valid() && (data == old(data) || fresh(data))
      ensures After(old(Snap()), Snap(), s)
      ensures old(len) + |s| <= old(data.Length) ==> refusals == old(refusals) && data == old(data)
      ensures refusals == old(refusals) + (if data == old(data) && old(len) + |s| > old(data.Length) then 1 else 0)
      ensures copied == old(copied) + (if data == old(data) then 0 else old(len))
      ensures refusals != old(refusals) ==> Contents() == old(Contents())
      ensures data != old(data) ==> old(len) + |s| <= data.Length < 2 * (old(len) + |s|)
    {
      var newLen := len + |s|;
      if newLen > data.Length {
        var newAlloced := GrownCapacity(data.Length, newLen);
        var newData := TryAlloc(newAlloced);
        if newData == null {
          return;
        }
        ghost var was := data[..len];
        StoreBytes(data[..len], newData, 0);
        assert newData[..len] == was;
        copied := copied + len;
        data := newData;
      }
      ghost var was := data[..len];
      StoreBytes(s, data, len);
      assert data[..newLen] == was + s;
      len := newLen;
    }
  }

  // ---- required_field_pack_to_buffer ----------------------------------------------------------

  lemma KeyAtMostFive(id: u32, wireType: nat)
    requires wireType < 8
    ensures |Key(id, wireType)| <= 5
  {
    TagSizeIsLength(id, wireType);
  }

  /** A key and a length, put together in the scratch array. */
  method HeaderToBuffer(id: u32, n: u32, buf: BufferSimple) returns (rv: nat)
    requires buf.Valid()
    modifies buf, buf.data
    ensures buf.Valid() && (buf.data == old(buf.data) || fresh(buf.data))
    ensures rv == |Key(id, WIRE_PREFIXED)| + |Varint(n)|
    ensures After(old(buf.Snap()), buf.Snap(), Key(id, WIRE_PREFIXED) + Varint(n))
  {
    hide Varint, Key;
    var scratch := new byte[20];
    ghost var s0 := scratch[..];
    KeyAtMostFive(id, WIRE_PREFIXED);
    VarintAtMostFive(n);
    rv := KeyPack(id, WIRE_PREFIXED, scratch, 0);
    ghost var s1 := scratch[..];
    var len := Uint32Pack(n, scratch, rv);
    WroteThen(s0, s1, scratch[..], 0, Key(id, WIRE_PREFIXED), Varint(n));
    rv := rv + len;
    assert scratch[..rv] == Key(id, WIRE_PREFIXED) + Varint(n);
    buf.Append(scratch[..rv]);
  }

  method ScalarToBuffer(f: FieldDescriptor, w: u64, buf: BufferSimple) returns (rv: nat)
    requires buf.Valid() && IsPackable(f.ty)
    modifies buf, buf.data
    ensures buf.Valid() && (buf.data == old(buf.data) || fresh(buf.data))
    ensures rv == |Key(f.id, WireTypeOf(f.ty)) + EncodeScalar(f.ty, w)|
    ensures After(old(buf.Snap()), buf.Snap(), Key(f.id, WireTypeOf(f.ty)) + EncodeScalar(f.ty, w))
  {
    hide Varint, Key, EncodeScalar;
    var scratch := new byte[20];
    ghost var s0 := scratch[..];
    KeyAtMostFive(f.id, WireTypeOf(f.ty));
    ScalarAtMostTen(f.ty, w);
    rv := KeyPack(f.id, WireTypeOf(f.ty), scratch, 0);
    ghost var s1 := scratch[..];
    var len := ScalarPack(f.ty, w, scratch, rv);
    WroteThen(s0, s1, scratch[..], 0, Key(f.id, WireTypeOf(f.ty)), EncodeScalar(f.ty, w));
    rv := rv + len;
    assert scratch[..rv] == Key(f.id, WireTypeOf(f.ty)) + EncodeScalar(f.ty, w);
    buf.Append(scratch[..rv]);
  }

  lemma ScalarAtMostTen(t: FieldType, w: u64)
    requires IsPackable(t)
    ensures |EncodeScalar(t, w)| <= 10
  {
    hide Varint;
    match t
    case SINT32 => VarintAtMostTen(ZigZag32(Low32(w)));
    case INT32 | ENUM => VarintAtMostTen(SignExtend(Low32(w)));
    case UINT32 => VarintAtMostTen(Low32(w));
    case SINT64 => VarintAtMostTen(ZigZag64(w));
    case INT64 | UINT64 => VarintAtMostTen(w);
    case _ =>
  }

  /** Header and contents of a string or bytes member, in two appends. */
  method RecordToBuffer(id: u32, s: seq<byte>, buf: BufferSimple) returns (rv: nat)
    requires buf.Valid() && |s| <= INT_MAX
    modifies buf, buf.data
    ensures buf.Valid() && (buf.data == old(buf.data) || fresh(buf.data))
    ensures rv == |Key(id, WIRE_PREFIXED) + Prefixed(s)|
    ensures After(old(buf.Snap()), buf.Snap(), Key(id, WIRE_PREFIXED) + Prefixed(s))
  {
    hide Varint, Key;
    rv := HeaderToBuffer(id, |s|, buf);
    ghost var mid := buf.Snap();
    buf.Append(s);
    AfterBoth(old(buf.Snap()), mid, buf.Snap(), Key(id, WIRE_PREFIXED) + Varint(|s|), s);
    Associate(Key(id, WIRE_PREFIXED), Varint(|s|), s);
    rv := rv + |s|;
  }

  lemma Associate(a: seq<byte>, b: seq<byte>, c: seq<byte>)
    ensures (a + b) + c == a + (b + c)
  {}

  method RequiredFieldToBuffer(sch: Schema, f: FieldDescriptor, v: Value, buf: BufferSimple) returns (rv: nat)
    requires buf.Valid() && ValidSchema(sch) && WellFormedValue(sch, f, v) && |EncodeValue(sch, f, v)| <= INT_MAX
    modifies buf, buf.data
    ensures buf.Valid() && (buf.data == old(buf.data) || fresh(buf.data))
    ensures rv == |Serialize(ValueMember(sch, f, v))|
    ensures After(old(buf.Snap()), buf.Snap(), Serialize(ValueMember(sch, f, v)))
    decreases v, 1
  {
    hide Varint, Key, EncodeScalar, Encode, WellFormed;
    match v
    case Word(w) => rv := ScalarToBuffer(f, w, buf);
    case Text(p) => rv := RecordToBuffer(f.id, CString(Content(f, p)), buf);
    case Blob(p) => rv := RecordToBuffer(f.id, Content(f, p), buf);
    case NoMsg => rv := RecordToBuffer(f.id, [], buf);
    case Msg(m) =>
      var sublen := MessageSize(sch, m);
      rv := HeaderToBuffer(f.id, sublen, buf);
      ghost var mid := buf.Snap();
      var n := MessageToBuffer(sch, m, buf);
      AfterBoth(old(buf.Snap()), mid, buf.Snap(), Key(f.id, WIRE_PREFIXED) + Varint(sublen), Encode(sch, m));
      Associate(Key(f.id, WIRE_PREFIXED), Varint(sublen), Encode(sch, m));
      rv := rv + sublen;
  }

  lemma {:induction false} FixedPayload(t: FieldType, vs: seq<Value>)
    requires (IsFixed32(t) || IsFixed64(t)) && AllWords(vs)
    ensures |PackedPayload(t, vs)| == MinSize(t) * |vs|
  {
    hide Fixed32, Fixed64, Low32;
    if vs != [] {
      FixedPayload(t, vs[..|vs| - 1]);
      assert MinSize(t) * |vs| == MinSize(t) * (|vs| - 1) + MinSize(t);
    }
  }

  /** Fixed-width elements lie in memory as they are sent, and are appended at once. */
  method ImageToBuffer(t: FieldType, vs: seq<Value>, buf: BufferSimple) returns (rv: nat)
    requires buf.Valid() && (IsFixed32(t) || IsFixed64(t)) && AllWords(vs)
    modifies buf, buf.data
    ensures buf.Valid() && (buf.data == old(buf.data) || fresh(buf.data))
    ensures rv == |PackedPayload(t, vs)|
    ensures After(old(buf.Snap()), buf.Snap(), PackedPayload(t, vs))
  {
    FixedPayload(t, vs);
    hide PackedPayload, MinSize;
    var image := new byte[MinSize(t) * |vs|];
    rv := PayloadPack(t, vs, image, 0);
    assert image[..] == PackedPayload(t, vs);
    buf.Append(image[..]);
  }

  lemma NoPayload(t: FieldType, vs: seq<Value>)
    ensures PackedPayload(t, vs[..0]) == []
  {}

  /** pack_buffer_packed_payload */
  method PayloadToBuffer(t: FieldType, vs: seq<Value>, buf: BufferSimple) returns (rv: nat)
    requires buf.Valid() && IsPackable(t) && AllWords(vs)
    modifies buf, buf.data
    ensures buf.Valid() && (buf.data == old(buf.data) || fresh(buf.data))
    ensures rv == |PackedPayload(t, vs)|
    ensures After(old(buf.Snap()), buf.Snap(), PackedPayload(t, vs))
  {
    hide EncodeScalar;
    if IsFixed32(t) || IsFixed64(t) {
      rv := ImageToBuffer(t, vs, buf);
      return;
    }
    var scratch := new byte[16];
    rv := 0;
    NoPayload(t, vs);
    AfterNothing(buf.Snap());
    hide PackedPayload, After;
    for i := 0 to |vs|
      invariant buf.Valid() && (buf.data == old(buf.data) || fresh(buf.data)) && buf.data != scratch
      invariant rv == |PackedPayload(t, vs[..i])|
      invariant After(old(buf.Snap()), buf.Snap(), PackedPayload(t, vs[..i]))
    {
      ScalarAtMostTen(t, vs[i].w);
      PayloadPrefix(t, vs, i);
      var len := ScalarPack(t, vs[i].w, scratch, 0);
      assert scratch[..len] == EncodeScalar(t, vs[i].w);
      ghost var mid := buf.Snap();
      buf.Append(scratch[..len]);
      AfterBoth(old(buf.Snap()), mid, buf.Snap(), PackedPayload(t, vs[..i]), EncodeScalar(t, vs[i].w));
      rv := rv + len;
    }
    assert vs[..|vs|] == vs;
  }

  // ---- repeated_field_pack_to_buffer ----------------------------------------------------------

  method PackedFieldToBuffer(f: FieldDescriptor, vs: seq<Value>, buf: BufferSimple) returns (rv: nat)
    requires buf.Valid() && IsPackable(f.ty) && AllWords(vs) && |PackedPayload(f.ty, vs)| <= INT_MAX
    modifies buf, buf.data
    ensures buf.Valid() && (buf.data == old(buf.data) || fresh(buf.data))
    ensures rv == |Serialize(Member(f.id, WIRE_PREFIXED, Prefixed(PackedPayload(f.ty, vs))))|
    ensures After(old(buf.Snap()), buf.Snap(), Serialize(Member(f.id, WIRE_PREFIXED, Prefixed(PackedPayload(f.ty, vs)))))
  {
    hide Varint, Key, PackedPayload;
    var payloadLen := PayloadSize(f.ty, vs);
    rv := HeaderToBuffer(f.id, payloadLen, buf);
    ghost var mid := buf.Snap();
    var tmp := PayloadToBuffer(f.ty, vs, buf);
    assert tmp == payloadLen; // asserted by the source too
    AfterBoth(old(buf.Snap()), mid, buf.Snap(), Key(f.id, WIRE_PREFIXED) + Varint(payloadLen), PackedPayload(f.ty, vs));
    Associate(Key(f.id, WIRE_PREFIXED), Varint(payloadLen), PackedPayload(f.ty, vs));
    rv := rv + payloadLen;
  }

  method UnpackedFieldToBuffer(sch: Schema, f: FieldDescriptor, vs: seq<Value>, buf: BufferSimple) returns (rv: nat)
    requires buf.Valid() && ValidSchema(sch) && forall i :: 0 <= i < |vs| ==> WellFormedValue(sch, f, vs[i])
    requires |SerializeAll(ElementMembers(sch, f, vs))| <= INT_MAX
    modifies buf, buf.data
    ensures buf.Valid() && (buf.data == old(buf.data) || fresh(buf.data))
    ensures rv == |SerializeAll(ElementMembers(sch, f, vs))|
    ensures After(old(buf.Snap()), buf.Snap(), SerializeAll(ElementMembers(sch, f, vs)))
    decreases vs, 2
  {
    hide Serialize, SerializeAll, WellFormedValue, EncodeValue;
    ghost var ms := ElementMembers(sch, f, vs);
    rv := 0;
    NoMembers(ms);
    AfterNothing(buf.Snap());
    hide After;
    for i := 0 to |vs|
      invariant buf.Valid() && (buf.data == old(buf.data) || fresh(buf.data))
      invariant rv == |SerializeAll(ms[..i])|
      invariant After(old(buf.Snap()), buf.Snap(), SerializeAll(ms[..i]))
    {
      ElementPrefix(sch, f, vs, i);
      MemberWithin(ms, i);
      ghost var mid := buf.Snap();
      var n := RequiredFieldToBuffer(sch, f, vs[i], buf);
      AfterBoth(old(buf.Snap()), mid, buf.Snap(), SerializeAll(ms[..i]), Serialize(ms[i]));
      rv := rv + n;
    }
    assert ms[..|vs|] == ms;
  }

  method RepeatedFieldToBuffer(sch: Schema, f: FieldDescriptor, s: Slot, buf: BufferSimple) returns (rv: nat)
    requires buf.Valid() && ValidSchema(sch)
    requires f.rule == REPEATED && WellFormedSlot(sch, f, s) && (f.packed ==> IsPackable(f.ty))
    requires |SerializeAll(SlotMembers(sch, f, s))| <= INT_MAX
    modifies buf, buf.data
    ensures buf.Valid() && (buf.data == old(buf.data) || fresh(buf.data))
    ensures rv == |SerializeAll(SlotMembers(sch, f, s))|
    ensures After(old(buf.Snap()), buf.Snap(), SerializeAll(SlotMembers(sch, f, s)))
    decreases s, 3
  {
    hide Serialize, SerializeAll, WellFormedValue, EncodeValue, PackedPayload, Prefixed;
    if |s.vs| == 0 {
      SerializeNone();
      AfterNothing(buf.Snap());
      rv := 0;
    } else if f.packed {
      PackedAreWords(sch, f, s.vs);
      ghost var payload := PackedPayload(f.ty, s.vs);
      SerializeOne(Member(f.id, WIRE_PREFIXED, Prefixed(payload)));
      rv := PackedFieldToBuffer(f, s.vs, buf);
    } else {
      rv := UnpackedFieldToBuffer(sch, f, s.vs, buf);
    }
  }

  // ---- protobuf_c_message_pack_to_buffer ------------------------------------------------------

  method FieldToBuffer(sch: Schema, m: Message, i: nat, buf: BufferSimple) returns (rv: nat)
    requires buf.Valid() && ValidSchema(sch) && WellFormed(sch, m) && i < |m.slots|
    requires |SerializeAll(FieldMembers(sch, m, i))| <= INT_MAX
    modifies buf, buf.data
    ensures buf.Valid() && (buf.data == old(buf.data) || fresh(buf.data))
    ensures rv == |SerializeAll(FieldMembers(sch, m, i))|
    ensures After(old(buf.Snap()), buf.Snap(), SerializeAll(FieldMembers(sch, m, i)))
    decreases m, 4
  {
    hide SerializeAll, Serialize, WellFormedValue, EncodeValue;
    var f := sch[m.desc].fields[i];
    assert ValidField(sch, sch[m.desc], f);
    assert WellFormedSlot(sch, f, m.slots[i]);
    AfterNothing(buf.Snap());
    if (f.rule == OPTIONAL || f.rule == NONE) && f.oneof.Some? {
      SelectedIsWellFormed(sch, m, i);
      var o := m.oneofs[f.oneof.value];
      if IsSelected(f, o) {
        SerializeOne(ValueMember(sch, f, o.v));
        rv := RequiredFieldToBuffer(sch, f, o.v, buf);
      } else {
        SerializeNone();
        rv := 0;
      }
    } else if f.rule == REPEATED {
      rv := RepeatedFieldToBuffer(sch, f, m.slots[i], buf);
    } else if IsPresent(f, m.slots[i]) {
      SerializeOne(ValueMember(sch, f, m.slots[i].v));
      rv := RequiredFieldToBuffer(sch, f, m.slots[i].v, buf);
    } else {
      SerializeNone();
      rv := 0;
    }
  }

  method UnknownFieldToBuffer(mem: Member, buf: BufferSimple) returns (rv: nat)
    requires buf.Valid() && mem.wireType < 8
    modifies buf, buf.data
    ensures buf.Valid() && (buf.data == old(buf.data) || fresh(buf.data))
    ensures rv == |Serialize(mem)|
    ensures After(old(buf.Snap()), buf.Snap(), Serialize(mem))
  {
    hide Key;
    var header := new byte[10];
    KeyAtMostFive(mem.tag, mem.wireType);
    rv := KeyPack(mem.tag, mem.wireType, header, 0);
    assert header[..rv] == Key(mem.tag, mem.wireType);
    buf.Append(header[..rv]);
    ghost var mid := buf.Snap();
    buf.Append(mem.data);
    AfterBoth(old(buf.Snap()), mid, buf.Snap(), Key(mem.tag, mem.wireType), mem.data);
    rv := rv + |mem.data|;
  }

  method KnownFieldsToBuffer(sch: Schema, m: Message, buf: BufferSimple) returns (rv: nat)
    requires buf.Valid() && ValidSchema(sch) && WellFormed(sch, m) && |SerializeAll(KnownMembers(sch, m))| <= INT_MAX
    modifies buf, buf.data
    ensures buf.Valid() && (buf.data == old(buf.data) || fresh(buf.data))
    ensures rv == |SerializeAll(KnownMembers(sch, m))|
    ensures After(old(buf.Snap()), buf.Snap(), SerializeAll(KnownMembers(sch, m)))
    decreases m, 6
  {
    hide SerializeAll, MembersTo, FieldMembers;
    rv := 0;
    NoFields(sch, m);
    AfterNothing(buf.Snap());
    hide After;
    for i := 0 to |m.slots|
      invariant buf.Valid() && (buf.data == old(buf.data) || fresh(buf.data))
      invariant rv == |SerializeAll(MembersTo(sch, m, i))|
      invariant After(old(buf.Snap()), buf.Snap(), SerializeAll(MembersTo(sch, m, i)))
    {
      FieldWithin(sch, m, i, |m.slots|);
      ghost var mid := buf.Snap();
      var n := FieldToBuffer(sch, m, i, buf);
      AfterBoth(old(buf.Snap()), mid, buf.Snap(), SerializeAll(MembersTo(sch, m, i)), SerializeAll(FieldMembers(sch, m, i)));
      rv := rv + n;
    }
  }

  method UnknownFieldsToBuffer(ms: seq<Member>, buf: BufferSimple) returns (rv: nat)
    requires buf.Valid() && forall k :: 0 <= k < |ms| ==> ms[k].wireType < 8
    modifies buf, buf.data
    ensures buf.Valid() && (buf.data == old(buf.data) || fresh(buf.data))
    ensures rv == |SerializeAll(ms)|
    ensures After(old(buf.Snap()), buf.Snap(), SerializeAll(ms))
  {
    hide SerializeAll, Serialize;
    rv := 0;
    NoMembers(ms);
    AfterNothing(buf.Snap());
    hide After;
    for i := 0 to |ms|
      invariant buf.Valid() && (buf.data == old(buf.data) || fresh(buf.data))
      invariant rv == |SerializeAll(ms[..i])|
      invariant After(old(buf.Snap()), buf.Snap(), SerializeAll(ms[..i]))
    {
      MemberWithin(ms, i);
      ghost var mid := buf.Snap();
      var n := UnknownFieldToBuffer(ms[i], buf);
      AfterBoth(old(buf.Snap()), mid, buf.Snap(), SerializeAll(ms[..i]), Serialize(ms[i]));
      rv := rv + n;
    }
    assert ms[..|ms|] == ms;
  }

  /**
   The buffer receives the bytes that protobuf_c_message_pack stores, unless a request is refused; with
   capacity for them there is none.
   */
  method MessageToBuffer(sch: Schema, m: Message, buf: BufferSimple) returns (rv: nat)
    requires buf.Valid() && ValidSchema(sch) && WellFormed(sch, m) && |Encode(sch, m)| <= INT_MAX
    modifies buf, buf.data
    ensures buf.Valid() && (buf.data == old(buf.data) || fresh(buf.data))
    ensures rv == |Encode(sch, m)|
    ensures After(old(buf.Snap()), buf.Snap(), Encode(sch, m))
    ensures buf.refusals == old(buf.refusals) ==> buf.Contents() == old(buf.Contents()) + Encode(sch, m)
    ensures old(buf.len) + |Encode(sch, m)| <= old(buf.data.Length) ==> buf.refusals == old(buf.refusals)
    decreases m, 8
  {
    hide SerializeAll, KnownMembers, After;
    SerializeAllConcat(KnownMembers(sch, m), m.unknown);
    rv := KnownFieldsToBuffer(sch, m, buf);
    ghost var mid := buf.Snap();
    assert forall k :: 0 <= k < |m.unknown| ==> WellFormedUnknown(sch[m.desc], m.unknown[k]);
    var n := UnknownFieldsToBuffer(m.unknown, buf);
    AfterBoth(old(buf.Snap()), mid, buf.Snap(), SerializeAll(KnownMembers(sch, m)), SerializeAll(m.unknown));
    rv := rv + n;
  }
}
