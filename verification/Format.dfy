/**
 The wire format in numbers (sections "Base 128 Varints", "Message Structure", "More Integer Types",
 "Non-varint Numbers", "Length-Delimited Records" and "Packed Repeated Fields" of the Protocol Buffers
 Encoding specification): a second description of the encoding, in literals only, and what each kind of
 record sets its field to. Serializers and parser are proved to agree with it, not only with each other.
 */
module Format {
  import opened Bytes
  import opened Varints
  import opened Schema
  import opened Wire
  import opened Scan
  import opened Parsing
  import opened Canonical
  import opened Scalars
  import opened RoundTrip
  import opened MergeLaw
  import opened ByField
  import Reencode

  // ---- Numbers --------------------------------------------------------------------------------

  /** The `n` low bytes of a number, least significant first. */
  function Little(w: nat, n: nat): seq<byte> {
    if n == 0 then [] else [w % 256] + Little(w / 256, n - 1)
  }

  /** The sum of s[i] * 256^i. */
  function LittleEndian(s: seq<byte>): nat {
    if s == [] then 0 else s[0] + 256 * LittleEndian(s[1..])
  }

  /** The integers of 32 and of 64 bits that a word stands for. */
  function Signed32(w: nat): int {
    var low := w % 0x1_0000_0000;
    if low < 0x8000_0000 then low else low - 0x1_0000_0000
  }

  function Signed64(w: nat): int {
    var low := w % 0x1_0000_0000_0000_0000;
    if low < 0x8000_0000_0000_0000 then low else low - 0x1_0000_0000_0000_0000
  }

  /** 0, -1, 1, -2, 2, ... numbered from 0. */
  function ZigZag(v: int): nat { if v >= 0 then 2 * v else -2 * v - 1 }

  /** The number that a value of a varint type is sent as. */
  function Number(t: FieldType, w: nat): nat {
    match t
    case INT32 | ENUM => if Signed32(w) >= 0 then Signed32(w) else Signed32(w) + 0x1_0000_0000_0000_0000
    case UINT32 => w % 0x1_0000_0000
    case SINT32 => ZigZag(Signed32(w))
    case SINT64 => ZigZag(Signed64(w))
    case BOOL => if w % 0x1_0000_0000 == 0 then 0 else 1
    case _ => w
  }

  // ---- One value ------------------------------------------------------------------------------

  /** A scalar on the wire, without its key. */
  function ScalarText(t: FieldType, w: nat): seq<byte> {
    match t
    case SFIXED64 | FIXED64 | DOUBLE => Little(w, 8)
    case SFIXED32 | FIXED32 | FLOAT => Little(w, 4)
    case _ => Varint(Number(t, w))
  }

  /** The wire type of a value, as its number. */
  function KindOf(t: FieldType): nat {
    match t
    case SFIXED64 | FIXED64 | DOUBLE => 1
    case STRING | BYTES | MESSAGE => 2
    case SFIXED32 | FIXED32 | FLOAT => 5
    case _ => 0
  }

  /** The bytes before the first NUL. */
  function UpToNul(s: seq<byte>): seq<byte> {
    if s == [] || s[0] == 0 then [] else [s[0]] + UpToNul(s[1..])
  }

  /** What a string or bytes field points to. */
  function Target(f: FieldDescriptor, p: Ptr): seq<byte> {
    if p.Own? then p.bytes else if p.Default? then f.defaultBytes else []
  }

  function Delimited(s: seq<byte>): seq<byte> { Varint(|s|) + s }

  /** A value on the wire, without its key. */
  function BodyText(sch: Schema, f: FieldDescriptor, v: Value): seq<byte> {
    match v
    case Word(w) => ScalarText(f.ty, w)
    case Text(p) => Delimited(UpToNul(Target(f, p)))
    case Blob(p) => Delimited(Target(f, p))
    case NoMsg => Delimited([])
    case Msg(m) => Delimited(Encode(sch, m))
  }

  /** A value on the wire: the key 8n + k, and the body. */
  function ValueText(sch: Schema, f: FieldDescriptor, v: Value): seq<byte> {
    Varint(8 * f.id + KindOf(f.ty)) + BodyText(sch, f, v)
  }

  lemma BytesText(sch: Schema, f: FieldDescriptor, p: Ptr)
    requires f.ty == BYTES
    ensures ValueText(sch, f, Blob(p)) == Varint(8 * f.id + 2) + Delimited(Target(f, p))
  {
    hide Varint, ScalarText, Encode, UpToNul;
  }

  lemma NumberText(sch: Schema, f: FieldDescriptor, w: u32)
    requires f.ty == UINT32
    ensures ValueText(sch, f, Word(w)) == Varint(8 * f.id) + Varint(w)
  {
    hide Varint, Little, Number, Encode, UpToNul;
    NumberOfWord(w);
  }

  lemma NumberOfWord(w: u32)
    ensures Number(UINT32, w) == w
  {}

  // ---- The fixed-width words are little-endian ------------------------------------------------

  lemma LittleStep(w: nat, n: nat)
    requires n > 0
    ensures Little(w, n) == [w % 256] + Little(w / 256, n - 1)
  {}

  lemma Fixed32IsLittle(w: u32)
    ensures Fixed32(w) == Little(w, 4)
  {
    var a, b, c := w / 256, w / 256 / 256, w / 256 / 256 / 256;
    LittleStep(w, 4);
    LittleStep(a, 3);
    LittleStep(b, 2);
    LittleStep(c, 1);
    assert Little(c / 256, 0) == [];
    assert c % 256 == c;
  }

  function Pow256(k: nat): nat {
    if k == 0 then 1 else 256 * Pow256(k - 1)
  }

  lemma OneByte(low: nat, p: nat, high: nat)
    ensures (low + 256 * p * high) % 256 == low % 256
    ensures (low + 256 * p * high) / 256 == low / 256 + p * high
  {
    var q := p * high;
    assert 256 * p * high == 256 * q;
    assert (low + 256 * q) % 256 == low % 256 && (low + 256 * q) / 256 == low / 256 + q;
  }

  /** `k` low bytes, and then those of the rest. */
  lemma {:induction false} LittleJoin(low: nat, high: nat, k: nat, n: nat)
    requires low < Pow256(k)
    ensures Little(low + Pow256(k) * high, k + n) == Little(low, k) + Little(high, n)
  {
    if k == 0 {
      assert Little(low, 0) == [] && [] + Little(high, n) == Little(high, n);
    } else {
      OneByte(low, Pow256(k - 1), high);
      LittleJoin(low / 256, high, k - 1, n);
      assert [low % 256] + (Little(low / 256, k - 1) + Little(high, n)) == ([low % 256] + Little(low / 256, k - 1)) + Little(high, n);
    }
  }

  lemma FourBytes()
    ensures Pow256(4) == 0x1_0000_0000
  {
    assert Pow256(1) == 256 * Pow256(0);
    assert Pow256(2) == 256 * Pow256(1);
    assert Pow256(3) == 256 * Pow256(2);
    assert Pow256(4) == 256 * Pow256(3);
  }

  lemma Fixed64IsLittle(w: u64)
    ensures Fixed64(w) == Little(w, 8)
  {
    FourBytes();
    hide Fixed32, Little, Pow256;
    var low, high := w % 0x1_0000_0000, w / 0x1_0000_0000;
    Fixed32IsLittle(low);
    Fixed32IsLittle(high);
    LittleJoin(low, high, 4, 4);
  }

  lemma ParseFixed32IsSum(s: seq<byte>)
    requires |s| == 4
    ensures ParseFixed32(s) == LittleEndian(s)
  {
    assert LittleEndian(s[3..]) == s[3] by { assert s[3..][1..] == []; }
    assert s[2..][1..] == s[3..] && s[1..][1..] == s[2..];
    assert LittleEndian(s[2..]) == s[2] + 256 * LittleEndian(s[3..]);
    assert LittleEndian(s[1..]) == s[1] + 256 * LittleEndian(s[2..]);
  }

  lemma SumOfBoth(a: seq<byte>, b: seq<byte>)
    requires |a| == 4
    ensures LittleEndian(a + b) == LittleEndian(a) + 0x1_0000_0000 * LittleEndian(b)
  {
    var s := a + b;
    assert s[1..] == a[1..] + b && s[1..][1..] == a[2..] + b && s[1..][1..][1..] == a[3..] + b && s[1..][1..][1..][1..] == b;
    ParseFixed32IsSum(a);
    hide LittleEndian;
    assert LittleEndian(s) == s[0] + 256 * (s[1] + 256 * (s[2] + 256 * (s[3] + 256 * LittleEndian(b)))) by { FourOff(s); }
  }

  lemma FourOff(s: seq<byte>)
    requires |s| >= 4
    ensures LittleEndian(s) == s[0] + 256 * (s[1] + 256 * (s[2] + 256 * (s[3] + 256 * LittleEndian(s[4..]))))
  {
    assert s[1..][1..] == s[2..] && s[2..][1..] == s[3..] && s[3..][1..] == s[4..];
    assert LittleEndian(s[3..]) == s[3] + 256 * LittleEndian(s[4..]);
    assert LittleEndian(s[2..]) == s[2] + 256 * LittleEndian(s[3..]);
    assert LittleEndian(s[1..]) == s[1] + 256 * LittleEndian(s[2..]);
  }

  lemma ParseFixed64IsSum(s: seq<byte>)
    requires |s| == 8
    ensures ParseFixed64(s) == LittleEndian(s)
  {
    hide LittleEndian;
    assert s == s[..4] + s[4..];
    ParseFixed32IsSum(s[..4]);
    ParseFixed32IsSum(s[4..]);
    SumOfBoth(s[..4], s[4..]);
  }

  // ---- Scalars ----------------------------------------------------------------------------------

  lemma SignExtendIsNumber(w: u32)
    ensures SignExtend(w) == if Signed32(w) >= 0 then Signed32(w) else Signed32(w) + 0x1_0000_0000_0000_0000
  {}

  lemma ZigZagIsNumber(w: u64)
    ensures ZigZag32(w % 0x1_0000_0000) == ZigZag(Signed32(w))
    ensures ZigZag64(w) == ZigZag(Signed64(w))
  {
    hide ZigZag32, ZigZag64;
    ZigZag32Correct(w % 0x1_0000_0000);
    ZigZag64Correct(w);
  }

  lemma NumberIsText(t: FieldType, w: u64)
    requires IsPackable(t) && !IsFixed32(t) && !IsFixed64(t)
    ensures EncodeScalar(t, w) == Varint(Number(t, w))
  {
    hide Varint, Fixed32, Fixed64, ZigZag32, ZigZag64, ZigZag, SignExtend, Signed32, Signed64;
    var low := w % 0x1_0000_0000;
    assert Low32(w) == low;
    ZigZagIsNumber(w);
    SignExtendIsNumber(low);
    SameSign(w);
    OneByteNumber();
  }

  lemma SameSign(w: u64)
    ensures Signed32(w % 0x1_0000_0000) == Signed32(w)
  {}

  /** Every scalar is written as the format has it. */
  lemma ScalarIsText(t: FieldType, w: u64)
    requires IsPackable(t)
    ensures EncodeScalar(t, w) == ScalarText(t, w)
  {
    hide Varint, Fixed32, Fixed64, Little, Number;
    if IsFixed32(t) {
      Fixed32IsLittle(w % 0x1_0000_0000);
      LittleOfLow(w);
    } else if IsFixed64(t) {
      Fixed64IsLittle(w);
    } else {
      NumberIsText(t, w);
    }
  }

  lemma OneByteNumber()
    ensures Varint(0) == [0] && Varint(1) == [1]
  {}

  /** Four bytes are those of the low half. */
  lemma LittleOfLow(w: u64)
    ensures Little(w % 0x1_0000_0000, 4) == Little(w, 4)
  {
    FourBytes();
    hide Pow256;
    LittleJoin(w % 0x1_0000_0000, w / 0x1_0000_0000, 4, 0);
    assert Little(w / 0x1_0000_0000, 0) == [];
  }

  // ---- Values -----------------------------------------------------------------------------------

  lemma {:induction false} UpToNulIsCString(s: seq<byte>)
    ensures CString(s) == UpToNul(s)
  {
    if s != [] && s[0] != 0 { UpToNulIsCString(s[1..]); }
  }

  lemma ValueIsText(sch: Schema, f: FieldDescriptor, v: Value)
    requires ValueOfType(f, v)
    ensures Serialize(ValueMember(sch, f, v)) == ValueText(sch, f, v)
  {
    hide EncodeScalar, ScalarText, Varint, Encode;
    assert WireTypeOf(f.ty) == KindOf(f.ty);
    match v
    case Word(w) => ScalarIsText(f.ty, w);
    case Text(p) => UpToNulIsCString(Content(f, p));
    case Blob(p) =>
    case NoMsg =>
    case Msg(m) =>
  }

  // ---- What is written ----------------------------------------------------------------------------

  /** The values that an unlabelled field does not send: zero, of either sign, and nothing. */
  predicate IsNothing(f: FieldDescriptor, v: Value) {
    match v
    case Word(w) =>
      (match f.ty
       case DOUBLE => w == 0 || w == 0x8000_0000_0000_0000
       case INT64 | SINT64 | UINT64 | FIXED64 | SFIXED64 => w == 0
       case FLOAT => w % 0x1_0000_0000 == 0 || w % 0x1_0000_0000 == 0x8000_0000
       case _ => w % 0x1_0000_0000 == 0)
    case Text(p) => UpToNul(Target(f, p)) == []
    case Blob(p) => Target(f, p) == []
    case NoMsg => true
    case Msg(_) => false
  }

  /** Does a single field outside the oneofs send its value? */
  predicate Sends(f: FieldDescriptor, s: Slot) {
    s.Single? &&
    match f.rule
    case REQUIRED => true
    case NONE => !IsNothing(f, s.v)
    case OPTIONAL =>
      (match s.v
       case Text(p) => p.Own?
       case Msg(_) => true
       case NoMsg => false
       case _ => s.has)
    case REPEATED => false
  }

  /** Does a field of a oneof? */
  predicate OneofSends(f: FieldDescriptor, o: OneofState) {
    o.Chosen? && o.id == f.id && o.v != NoMsg && (o.v.Text? ==> o.v.t.Own?)
  }

  function PackedText(t: FieldType, vs: seq<Value>): seq<byte> {
    if vs == [] then []
    else PackedText(t, vs[..|vs| - 1]) + (if vs[|vs| - 1].Word? then ScalarText(t, vs[|vs| - 1].w) else [])
  }

  function ElementsText(sch: Schema, f: FieldDescriptor, vs: seq<Value>): seq<byte> {
    if vs == [] then []
    else ElementsText(sch, f, vs[..|vs| - 1]) + ValueText(sch, f, vs[|vs| - 1])
  }

  function SlotText(sch: Schema, f: FieldDescriptor, s: Slot): seq<byte> {
    match s
    case Many(vs) =>
      if !f.packed then ElementsText(sch, f, vs)
      else if vs == [] then []
      else Varint(8 * f.id + 2) + Delimited(PackedText(f.ty, vs))
    case Single(has, v) => if Sends(f, s) then ValueText(sch, f, v) else []
    case Shared => []
  }

  /** What field `i` sends. */
  function FieldText(sch: Schema, m: Message, i: nat): seq<byte>
    requires i < |DescriptorOf(sch, m.desc).fields|
  {
    var f := DescriptorOf(sch, m.desc).fields[i];
    if f.oneof.Some? then
      if OneofSends(f, OneofOf(m, f.oneof.value)) then ValueText(sch, f, OneofOf(m, f.oneof.value).v) else []
    else SlotText(sch, f, SlotOf(m, i))
  }

  function FieldsText(sch: Schema, m: Message, n: nat): seq<byte>
    requires n <= |DescriptorOf(sch, m.desc).fields|
  {
    if n == 0 then [] else FieldsText(sch, m, n - 1) + FieldText(sch, m, n - 1)
  }

  function UnknownText(ms: seq<Member>): seq<byte> {
    if ms == [] then []
    else UnknownText(ms[..|ms| - 1]) + Varint(8 * ms[|ms| - 1].tag + ms[|ms| - 1].wireType) + ms[|ms| - 1].data
  }

  lemma {:induction false} PackedIsText(t: FieldType, vs: seq<Value>)
    requires IsPackable(t)
    ensures PackedPayload(t, vs) == PackedText(t, vs)
  {
    hide EncodeScalar, ScalarText;
    if vs != [] {
      PackedIsText(t, vs[..|vs| - 1]);
      if vs[|vs| - 1].Word? { ScalarIsText(t, vs[|vs| - 1].w); }
    }
  }

  lemma {:induction false} ElementsAreText(sch: Schema, f: FieldDescriptor, vs: seq<Value>)
    requires forall i :: 0 <= i < |vs| ==> ValueOfType(f, vs[i])
    ensures SerializeAll(ElementMembers(sch, f, vs)) == ElementsText(sch, f, vs)
  {
    hide ValueOfType, ValueText, Serialize, ValueMember;
    if vs != [] {
      var n := |vs| - 1;
      var ms := ElementMembers(sch, f, vs);
      ElementsAreText(sch, f, vs[..n]);
      ValueIsText(sch, f, vs[n]);
      assert ms[..|ms| - 1] == ElementMembers(sch, f, vs[..n]) && ms[|ms| - 1] == ValueMember(sch, f, vs[n]);
    }
  }

  lemma SendsIsPresent(f: FieldDescriptor, s: Slot)
    requires f.oneof.None? && s.Single? && ValueOfType(f, s.v)
    ensures IsPresent(f, s) <==> Sends(f, s)
  {
    if s.v.Text? { UpToNulIsCString(Content(f, s.v.t)); }
  }

  lemma OneofIsText(sch: Schema, f: FieldDescriptor, o: OneofState)
    requires IsSelected(f, o) ==> ValueOfType(f, o.v)
    ensures SerializeAll(OneofMembers(sch, f, o)) == if OneofSends(f, o) then ValueText(sch, f, o.v) else []
  {
    hide ValueText, Serialize, ValueMember;
    assert SerializeAll([]) == [];
    if IsSelected(f, o) {
      SerializeOne(ValueMember(sch, f, o.v));
      ValueIsText(sch, f, o.v);
    }
  }

  lemma SlotIsText(sch: Schema, f: FieldDescriptor, s: Slot)
    requires SlotOfType(f, s) && f.oneof.None? && (f.packed ==> IsPackable(f.ty))
    ensures SerializeAll(SlotMembers(sch, f, s))
         == SlotText(sch, f, s)
  {
    hide ValueText, Serialize, ValueMember, Sends, IsPresent, Varint, PackedText, PackedPayload, ElementsText;
    assert SerializeAll([]) == [];
    match s
    case Many(vs) =>
      if f.packed {
        PackedIsText(f.ty, vs);
        SerializeOne(Member(f.id, WIRE_PREFIXED, Prefixed(PackedPayload(f.ty, vs))));
        PackedKey(f.id, PackedPayload(f.ty, vs));
      } else {
        ElementsAreText(sch, f, vs);
      }
    case Single(has, v) =>
      SendsIsPresent(f, s);
      if IsPresent(f, s) {
        SerializeOne(ValueMember(sch, f, v));
        ValueIsText(sch, f, v);
      }
  }

  lemma FieldIsText(sch: Schema, m: Message, i: nat)
    requires ValidSchema(sch) && OfTypes(sch, m) && i < |m.slots|
    ensures SerializeAll(FieldMembers(sch, m, i)) == FieldText(sch, m, i)
  {
    hide ValueText, Serialize, Sends, SlotMembers, OneofMembers, SlotText, OneofSends;
    var f := sch[m.desc].fields[i];
    FieldIsValid(sch, m.desc, i);
    FieldIsFound(sch, m.desc, i);
    hide ValidSchema;
    if f.oneof.Some? {
      assert OneofOfType(sch[m.desc], f.oneof.value, m.oneofs[f.oneof.value]);
      OneofIsText(sch, f, m.oneofs[f.oneof.value]);
    } else {
      assert SlotOfType(f, m.slots[i]);
      SlotIsText(sch, f, m.slots[i]);
      assert FieldMembers(sch, m, i) == SlotMembers(sch, f, m.slots[i]);
    }
  }

  lemma PackedKey(id: u32, payload: seq<byte>)
    ensures Serialize(Member(id, WIRE_PREFIXED, Prefixed(payload))) == Varint(8 * id + 2) + Delimited(payload)
  {}

  lemma {:induction false} FieldsAreText(sch: Schema, m: Message, n: nat)
    requires ValidSchema(sch) && OfTypes(sch, m) && n <= |m.slots|
    ensures SerializeAll(MembersTo(sch, m, n)) == FieldsText(sch, m, n)
    decreases n
  {
    hide FieldMembers, FieldText, OfTypes;
    TypedShape(sch, m);
    if n == 0 {
      assert SerializeAll([]) == [];
    } else {
      FieldsAreText(sch, m, n - 1);
      FieldIsText(sch, m, n - 1);
      SerializeAllConcat(MembersTo(sch, m, n - 1), FieldMembers(sch, m, n - 1));
    }
  }

  lemma TypedShape(sch: Schema, m: Message)
    requires OfTypes(sch, m)
    ensures WellShaped(sch, m)
  {}

  lemma {:induction false} UnknownIsText(ms: seq<Member>)
    ensures SerializeAll(ms) == UnknownText(ms)
  {
    if ms != [] { UnknownIsText(ms[..|ms| - 1]); }
  }

  /**
   A message is encoded as the format has it: the fields in the order of their numbers, each with its
   values as keys and bodies, and then the unknown fields.
   */
  lemma EncodedAsText(sch: Schema, m: Message)
    requires ValidSchema(sch) && WellFormed(sch, m)
    ensures m.desc < |sch| && |m.slots| == |sch[m.desc].fields|
    ensures Encode(sch, m) == FieldsText(sch, m, |m.slots|) + UnknownText(m.unknown)
  {
    hide MembersTo, SerializeAll, FieldsText, UnknownText, WellFormed, OfTypes;
    WellFormedOfTypes(sch, m);
    TypedShape(sch, m);
    FieldsAreText(sch, m, |m.slots|);
    UnknownIsText(m.unknown);
    SerializeAllConcat(KnownMembers(sch, m), m.unknown);
  }

  // ---- What a record sets its field to ------------------------------------------------------------

  /** The message with `v` as the new value of field `i`, or as a further element. */
  function Put(m: Message, f: FieldDescriptor, i: nat, v: Value): Message
    requires i < |m.slots| && (f.oneof.Some? ==> f.oneof.value < |m.oneofs|)
  {
    if f.rule == REPEATED then m.(slots := m.slots[i := Many(Elements(m.slots[i]) + [v])])
    else if f.oneof.Some? then m.(oneofs := m.oneofs[f.oneof.value := Chosen(f.id, v)])
    else
      var has := (f.rule == OPTIONAL && f.ty != STRING && f.ty != MESSAGE) || (m.slots[i].Single? && m.slots[i].has);
      m.(slots := m.slots[i := Single(has, v)])
  }

  ghost predicate FieldAt(sch: Schema, m: Message, i: nat, f: FieldDescriptor) {
    ValidSchema(sch) && InShape(sch, m) && i < |m.slots| && f == sch[m.desc].fields[i]
  }

  lemma OneofIsThere(sch: Schema, m: Message, i: nat, f: FieldDescriptor)
    requires FieldAt(sch, m, i, f)
    ensures f.oneof.Some? ==> f.oneof.value < |m.oneofs|
    ensures 1 <= f.id < 0x7FFF_FFFF
  {
    FieldIsValid(sch, m.desc, i);
  }

  lemma RecordIsRead(sch: Schema, m: Message, i: nat, f: FieldDescriptor, mem: Member, v: Value, rest: seq<byte>)
    requires FieldAt(sch, m, i, f) && mem.tag == f.id && IsMember(mem) && !IsPackedRun(f, mem)
    requires f.ty != MESSAGE && ParseValue(sch, f, mem, NoMsg) == Some(v)
    ensures f.oneof.Some? ==> f.oneof.value < |m.oneofs|
    ensures ParseFrom(sch, Serialize(mem) + rest, m) == ParseFrom(sch, rest, Put(m, f, i, v))
  {
    OneofIsThere(sch, m, i, f);
    RecordApplies(sch, m, i, f, mem, v);
    hide Apply, Serialize, ScanMember;
    ScanSerialized(mem, rest);
    NotEmpty(mem, rest);
  }

  lemma NotEmpty(mem: Member, rest: seq<byte>)
    ensures Serialize(mem) + rest != []
  {}

  lemma RecordApplies(sch: Schema, m: Message, i: nat, f: FieldDescriptor, mem: Member, v: Value)
    requires FieldAt(sch, m, i, f) && mem.tag == f.id && !IsPackedRun(f, mem)
    requires f.ty != MESSAGE && ParseValue(sch, f, mem, NoMsg) == Some(v)
    ensures f.oneof.Some? ==> f.oneof.value < |m.oneofs|
    ensures Apply(sch, mem, m) == Some(Put(m, f, i, v))
  {
    hide ParseValue;
    OneofIsThere(sch, m, i, f);
    FieldIsFound(sch, m.desc, i);
    FieldIsValid(sch, m.desc, i);
    HeldIsForgotten(sch, f, mem, NoMsg, Held(m.slots[i]));
    assert !IsPackedRun(f, mem) ==> f.rule == REPEATED ==> ParseElements(sch, f, mem) == Some([v]);
  }

  /** A record of eight bytes: key 8n + 1. */
  lemma SixtyFourBitsAreRead(sch: Schema, m: Message, i: nat, f: FieldDescriptor, s: seq<byte>, rest: seq<byte>)
    requires FieldAt(sch, m, i, f) && f.ty in {SFIXED64, FIXED64, DOUBLE} && |s| == 8
    ensures f.oneof.Some? ==> f.oneof.value < |m.oneofs|
    ensures LittleEndian(s) < 0x1_0000_0000_0000_0000
    ensures ParseFrom(sch, Varint(8 * f.id + 1) + s + rest, m) == ParseFrom(sch, rest, Put(m, f, i, Word(LittleEndian(s))))
  {
    hide ParseFixed64, LittleEndian, Varint, ParseFrom, FieldAt;
    OneofIsThere(sch, m, i, f);
    ParseFixed64IsSum(s);
    var mem := Member(f.id, 1, s);
    RecordIsRead(sch, m, i, f, mem, Word(LittleEndian(s)), rest);
  }

  /** A record of four bytes: key 8n + 5. */
  lemma ThirtyTwoBitsAreRead(sch: Schema, m: Message, i: nat, f: FieldDescriptor, s: seq<byte>, rest: seq<byte>)
    requires FieldAt(sch, m, i, f) && f.ty in {SFIXED32, FIXED32, FLOAT} && |s| == 4
    ensures f.oneof.Some? ==> f.oneof.value < |m.oneofs|
    ensures LittleEndian(s) < 0x1_0000_0000
    ensures ParseFrom(sch, Varint(8 * f.id + 5) + s + rest, m) == ParseFrom(sch, rest, Put(m, f, i, Word(LittleEndian(s))))
  {
    hide ParseFixed32, LittleEndian, Varint, ParseFrom, FieldAt;
    OneofIsThere(sch, m, i, f);
    ParseFixed32IsSum(s);
    var mem := Member(f.id, 5, s);
    RecordIsRead(sch, m, i, f, mem, Word(LittleEndian(s)), rest);
  }

  /** The word that a number stands for in a field of a varint type. */
  function Meaning(t: FieldType, g: nat): u64 {
    match t
    case INT32 | UINT32 | ENUM => g % 0x1_0000_0000
    case SINT32 =>
      var n := g % 0x1_0000_0000;
      if n % 2 == 0 then n / 2 else 0x1_0000_0000 - (n + 1) / 2
    case SINT64 =>
      var n := g % 0x1_0000_0000_0000_0000;
      if n % 2 == 0 then n / 2 else 0x1_0000_0000_0000_0000 - (n + 1) / 2
    case BOOL => if g == 0 then 0 else 1
    case _ => g % 0x1_0000_0000_0000_0000
  }

  predicate IsVarintType(t: FieldType) {
    t in {INT32, SINT32, UINT32, ENUM, INT64, SINT64, UINT64, BOOL}
  }

  lemma MeaningIsRead(t: FieldType, s: seq<byte>)
    requires IsVarintType(t) && IsVarint(s)
    ensures ParseScalar(t, 0, s) == Some(Meaning(t, Groups(s)))
  {
    hide ParseUint32, Groups, ParseBoolean;
    ParseUint32IsGroups(s);
    ParseBooleanIsNonZero(s);
  }

  lemma VarintIsScanned(s: seq<byte>)
    requires IsVarint(s) && |s| <= 10
    ensures ScanBody(0, s) == Some(|s|)
  {
    PrefixLenIs(s, |s|);
  }

  /** A record of a number: key 8n. Numbers of more than 64 bits, or of leading zeros, are read too. */
  lemma NumberIsRead(sch: Schema, m: Message, i: nat, f: FieldDescriptor, s: seq<byte>, rest: seq<byte>)
    requires FieldAt(sch, m, i, f) && IsVarintType(f.ty) && IsVarint(s) && |s| <= 10
    ensures f.oneof.Some? ==> f.oneof.value < |m.oneofs|
    ensures ParseFrom(sch, Varint(8 * f.id) + s + rest, m) == ParseFrom(sch, rest, Put(m, f, i, Word(Meaning(f.ty, Groups(s)))))
  {
    hide Varint, ParseFrom, FieldAt, ParseScalar, ScanBody, Meaning, Groups, IsVarint;
    OneofIsThere(sch, m, i, f);
    MeaningIsRead(f.ty, s);
    VarintIsScanned(s);
    var mem := Member(f.id, 0, s);
    RecordIsRead(sch, m, i, f, mem, Word(Meaning(f.ty, Groups(s))), rest);
  }

  /** A record of text or bytes: key 8n + 2, then the length. */
  lemma BytesAreRead(sch: Schema, m: Message, i: nat, f: FieldDescriptor, s: seq<byte>, rest: seq<byte>)
    requires FieldAt(sch, m, i, f) && f.ty in {STRING, BYTES} && |s| <= 0x7FFF_FFFF
    ensures f.oneof.Some? ==> f.oneof.value < |m.oneofs|
    ensures var v := if f.ty == STRING then Text(Own(s)) else if s == [] then Blob(Null) else Blob(Own(s));
            ParseFrom(sch, Varint(8 * f.id + 2) + (Varint(|s|) + s) + rest, m) == ParseFrom(sch, rest, Put(m, f, i, v))
  {
    hide Varint, ParseFrom, ScanBody, Payload;
    OneofIsThere(sch, m, i, f);
    FieldIsValid(sch, m.desc, i);
    hide FieldAt, ValidSchema;
    PrefixedIsBody(f.id, s);
    var mem := Member(f.id, 2, Varint(|s|) + s);
    RecordIsRead(sch, m, i, f, mem, if f.ty == STRING then Text(Own(s)) else if s == [] then Blob(Null) else Blob(Own(s)), rest);
  }

  /** A record of a message: key 8n + 2, then the length; it is merged into the one that a single field has. */
  lemma MessageIsRead(sch: Schema, m: Message, i: nat, f: FieldDescriptor, s: seq<byte>, rest: seq<byte>)
    requires FieldAt(sch, m, i, f) && f.ty == MESSAGE && |s| <= 0x7FFF_FFFF
    ensures f.oneof.Some? ==> f.oneof.value < |m.oneofs|
    ensures var held := if f.rule == REPEATED || f.oneof.Some? then NoMsg else Held(m.slots[i]);
            var sub := Parse(sch, f.sub, s);
            var all := if sub.Some? && held.Msg? then Merge(sch, held.m, sub.value) else sub;
            ParseFrom(sch, Varint(8 * f.id + 2) + (Varint(|s|) + s) + rest, m)
            == if all.Some? then ParseFrom(sch, rest, Put(m, f, i, Msg(all.value))) else None
  {
    hide Varint, ScanBody, Payload, Parse, Merge, Apply, Serialize, ScanMember;
    OneofIsThere(sch, m, i, f);
    PrefixedIsBody(f.id, s);
    var mem := Member(f.id, 2, Varint(|s|) + s);
    MessageApplies(sch, m, i, f, mem, s);
    ScanSerialized(mem, rest);
    NotEmpty(mem, rest);
    SerializedIs(mem);
  }

  lemma SerializedIs(mem: Member)
    ensures Serialize(mem) == Varint(8 * mem.tag + mem.wireType) + mem.data
  {}

  lemma MessageApplies(sch: Schema, m: Message, i: nat, f: FieldDescriptor, mem: Member, s: seq<byte>)
    requires FieldAt(sch, m, i, f) && f.ty == MESSAGE && mem.tag == f.id && mem.wireType == 2 && mem.data != [] && Payload(mem) == s
    ensures f.oneof.Some? ==> f.oneof.value < |m.oneofs|
    ensures var held := if f.rule == REPEATED || f.oneof.Some? then NoMsg else Held(m.slots[i]);
            var sub := Parse(sch, f.sub, s);
            var all := if sub.Some? && held.Msg? then Merge(sch, held.m, sub.value) else sub;
            Apply(sch, mem, m) == if all.Some? then Some(Put(m, f, i, Msg(all.value))) else None
  {
    hide Parse, Merge;
    OneofIsThere(sch, m, i, f);
    FieldIsFound(sch, m.desc, i);
    FieldIsValid(sch, m.desc, i);
    var held := if f.rule == REPEATED || f.oneof.Some? then NoMsg else Held(m.slots[i]);
    var sub := Parse(sch, f.sub, s);
    var all := if sub.Some? && held.Msg? then Merge(sch, held.m, sub.value) else sub;
    assert ParseValue(sch, f, mem, held) == if all.Some? then Some(Msg(all.value)) else None;
    assert ParseElements(sch, f, mem) == match ParseValue(sch, f, mem, NoMsg) case None => None case Some(v) => Some([v]);
  }

  // ---- Records that are refused -------------------------------------------------------------------

  /** Groups, and the kinds that the format does not have, end the reading. */
  lemma OtherKindsAreRefused(sch: Schema, m: Message, n: u32, k: nat, rest: seq<byte>)
    requires 1 <= n && k in {3, 4, 6, 7}
    ensures ParseFrom(sch, Varint(8 * n + k) + rest, m).None?
  {
    ScanKeyInvertsKey(n, k, rest);
    assert Key(n, k) == Varint(8 * n + k);
  }

  /** A length above 2^31 - 1 does, too. */
  lemma LongRecordsAreRefused(sch: Schema, m: Message, n: u32, len: nat, rest: seq<byte>)
    requires 1 <= n && len > 0x7FFF_FFFF
    ensures ParseFrom(sch, Varint(8 * n + 2) + (Varint(len) + rest), m).None?
  {
    var s := Varint(len) + rest;
    hide Varint;
    ScanKeyInvertsKey(n, 2, s);
    assert Key(n, 2) == Varint(8 * n + 2);
    assert (Varint(8 * n + 2) + s)[|Varint(8 * n + 2)|..] == s;
    PrefixLenVarint(len, rest);
    GroupsVarint(len);
  }

  /** A record of another kind than that of a single field is refused, except for a truth value. */
  lemma WrongKindIsRefused(sch: Schema, m: Message, i: nat, f: FieldDescriptor, k: nat, body: seq<byte>, rest: seq<byte>)
    requires FieldAt(sch, m, i, f) && f.rule != REPEATED && f.ty != BOOL && k != KindOf(f.ty)
    requires IsMember(Member(f.id, k, body))
    ensures ParseFrom(sch, Varint(8 * f.id + k) + body + rest, m).None?
  {
    hide ScanMember, Serialize, Varint, IsMember, Apply;
    var mem := Member(f.id, k, body);
    OneofIsThere(sch, m, i, f);
    WrongKindFails(sch, m, i, f, mem);
    ScanSerialized(mem, rest);
    NotEmpty(mem, rest);
    SerializedIs(mem);
  }

  lemma WrongKindFails(sch: Schema, m: Message, i: nat, f: FieldDescriptor, mem: Member)
    requires FieldAt(sch, m, i, f) && f.rule != REPEATED && f.ty != BOOL && mem.tag == f.id && mem.wireType != KindOf(f.ty)
    ensures Apply(sch, mem, m).None?
  {
    hide ParseValue;
    FieldIsFound(sch, m.desc, i);
    forall held: Value
      ensures ParseValue(sch, f, mem, held).None?
    {
      WrongKindIsNoValue(sch, f, mem, held);
    }
  }

  lemma WrongKindIsNoValue(sch: Schema, f: FieldDescriptor, mem: Member, held: Value)
    requires f.ty != BOOL && mem.wireType != KindOf(f.ty)
    ensures ParseValue(sch, f, mem, held).None?
  {}

  // ---- Packed runs --------------------------------------------------------------------------------

  /** The word that a scalar comes back as. */
  function Cut(t: FieldType, w: nat): u64 {
    match t
    case BOOL => if w % 0x1_0000_0000 == 0 then 0 else 1
    case INT64 | SINT64 | UINT64 | FIXED64 | SFIXED64 | DOUBLE => w % 0x1_0000_0000_0000_0000
    case _ => w % 0x1_0000_0000
  }

  function Cuts(t: FieldType, ws: seq<u64>): (r: seq<Value>)
    ensures |r| == |ws|
  {
    seq(|ws|, k requires 0 <= k < |ws| => Word(Cut(t, ws[k])))
  }

  lemma CutIsNorm(t: FieldType, w: u64)
    requires IsPackable(t)
    ensures NormWord(t, w) == Cut(t, w)
  {}

  /** A run of elements: key 8n + 2, the length, and the elements back to back, declared packed or not. */
  lemma RunIsRead(sch: Schema, m: Message, i: nat, f: FieldDescriptor, ws: seq<u64>, rest: seq<byte>)
    requires FieldAt(sch, m, i, f) && f.rule == REPEATED && IsPackable(f.ty) && |PackedText(f.ty, Words(ws))| <= 0x7FFF_FFFF
    ensures var s := PackedText(f.ty, Words(ws));
            ParseFrom(sch, Varint(8 * f.id + 2) + (Varint(|s|) + s) + rest, m)
            == ParseFrom(sch, rest, m.(slots := m.slots[i := Many(Elements(m.slots[i]) + Cuts(f.ty, ws))]))
  {
    hide Varint, ScanMember, Serialize, PackedText, Apply, IsMember;
    var s := PackedText(f.ty, Words(ws));
    OneofIsThere(sch, m, i, f);
    PrefixedIsBody(f.id, s);
    var mem := Member(f.id, 2, Varint(|s|) + s);
    RunApplies(sch, m, i, f, mem, ws);
    ScanSerialized(mem, rest);
    NotEmpty(mem, rest);
    SerializedIs(mem);
  }

  lemma RunApplies(sch: Schema, m: Message, i: nat, f: FieldDescriptor, mem: Member, ws: seq<u64>)
    requires FieldAt(sch, m, i, f) && f.rule == REPEATED && IsPackable(f.ty)
    requires mem.tag == f.id && mem.wireType == 2 && Payload(mem) == PackedText(f.ty, Words(ws))
    ensures Apply(sch, mem, m)
         == Some(m.(slots := m.slots[i := Many(Elements(m.slots[i]) + Cuts(f.ty, ws))]))
  {
    hide PackedText, ParsePacked, ParseValue, Cut, NormWord;
    FieldIsFound(sch, m.desc, i);
    PackedIsText(f.ty, Words(ws));
    PackedRoundTrip(f.ty, Words(ws));
    var read := ParsePacked(f.ty, Payload(mem)).value;
    forall k | 0 <= k < |ws|
      ensures read[k] == Cut(f.ty, ws[k])
    {
      CutIsNorm(f.ty, ws[k]);
    }
    assert Words(read) == Cuts(f.ty, ws);
  }

  // ---- Which values arrive ------------------------------------------------------------------------

  /**
   In the bytes of a message, the number of a field outside the oneofs stands exactly if the field sends
   its value: an unlabelled one, if that is neither a zero nor empty.
   */
  lemma SentExactly(sch: Schema, m: Message, i: nat)
    requires ValidSchema(sch) && WellFormed(sch, m) && |Encode(sch, m)| <= 0x7FFF_FFFF
    requires i < |m.slots| && sch[m.desc].fields[i].oneof.None? && sch[m.desc].fields[i].rule != REPEATED
    ensures ScanAll(Encode(sch, m)).Some?
    ensures HasMember(ScanAll(Encode(sch, m)).value, sch[m.desc].fields[i].id) <==> Sends(sch[m.desc].fields[i], m.slots[i])
  {
    hide IsMember, FieldMembers, MembersTo, Sends, IsPresent, WellFormedValue;
    var f := sch[m.desc].fields[i];
    AllAreMembers(sch, m);
    ScanInvertsSerialize(Members(sch, m));
    assert WellFormedSlot(sch, f, m.slots[i]);
    SlotHasType(sch, f, m.slots[i]);
    SendsIsPresent(f, m.slots[i]);
    OwnMembers(sch, m, i);
    KnownHas(sch, m, i, |m.slots|);
    NotUnknown(sch, m, i);
    HasInBoth(KnownMembers(sch, m), m.unknown, f.id);
  }

  lemma SlotHasType(sch: Schema, f: FieldDescriptor, s: Slot)
    requires WellFormedSlot(sch, f, s) && f.rule != REPEATED && f.oneof.None?
    ensures s.Single? && ValueOfType(f, s.v)
  {}

  /** Field `i` writes its number exactly if its value is present. */
  lemma OwnMembers(sch: Schema, m: Message, i: nat)
    requires i < |m.slots| && m.desc < |sch| && i < |sch[m.desc].fields|
    requires sch[m.desc].fields[i].oneof.None? && sch[m.desc].fields[i].rule != REPEATED
    ensures HasMember(FieldMembers(sch, m, i), sch[m.desc].fields[i].id) <==> IsPresent(sch[m.desc].fields[i], m.slots[i])
  {
    hide IsPresent, EncodeValue;
    var f := sch[m.desc].fields[i];
    assert FieldMembers(sch, m, i) == SlotMembers(sch, f, m.slots[i]);
    if IsPresent(f, m.slots[i]) {
      assert FieldMembers(sch, m, i)[0].tag == f.id;
    }
  }

  lemma NotUnknown(sch: Schema, m: Message, i: nat)
    requires ValidSchema(sch) && WellFormed(sch, m) && i < |m.slots|
    ensures forall k :: 0 <= k < |m.unknown| ==> m.unknown[k].tag != sch[m.desc].fields[i].id
  {
    forall k | 0 <= k < |m.unknown|
      ensures m.unknown[k].tag != sch[m.desc].fields[i].id
    {
      assert WellFormedUnknown(sch[m.desc], m.unknown[k]);
    }
  }

  lemma {:induction false} OtherField(sch: Schema, m: Message, j: nat)
    requires j < |DescriptorOf(sch, m.desc).fields|
    ensures forall k :: 0 <= k < |FieldMembers(sch, m, j)| ==> FieldMembers(sch, m, j)[k].tag == DescriptorOf(sch, m.desc).fields[j].id
  {
    hide EncodeValue, PackedPayload;
    hide SlotMembers, EncodeValue, IsSelected;
    var f := DescriptorOf(sch, m.desc).fields[j];
    if (f.rule == OPTIONAL || f.rule == NONE) && f.oneof.Some? {
      if f.oneof.value < |m.oneofs| {
        assert FieldMembers(sch, m, j) == OneofMembers(sch, f, m.oneofs[f.oneof.value]);
        OneofTags(sch, f, m.oneofs[f.oneof.value]);
      }
    } else if j < |m.slots| {
      assert FieldMembers(sch, m, j) == SlotMembers(sch, f, m.slots[j]);
      SlotTags(sch, f, m.slots[j]);
    }
  }

  lemma OneofTags(sch: Schema, f: FieldDescriptor, o: OneofState)
    ensures forall k :: 0 <= k < |OneofMembers(sch, f, o)| ==> OneofMembers(sch, f, o)[k].tag == f.id
  {
    hide EncodeValue;
  }

  lemma SlotTags(sch: Schema, f: FieldDescriptor, s: Slot)
    ensures forall k :: 0 <= k < |SlotMembers(sch, f, s)| ==> SlotMembers(sch, f, s)[k].tag == f.id
  {
    hide EncodeValue, PackedPayload, IsPresent;
    if s.Many? { ElementTags(sch, f, s.vs); }
  }

  lemma {:induction false} ElementTags(sch: Schema, f: FieldDescriptor, vs: seq<Value>)
    ensures forall k :: 0 <= k < |vs| ==> ElementMembers(sch, f, vs)[k].tag == f.id
  {
    hide EncodeValue;
    if vs != [] { ElementTags(sch, f, vs[..|vs| - 1]); }
  }

  /** The number of field `i` is written by field `i`. */
  lemma {:induction false} KnownHas(sch: Schema, m: Message, i: nat, n: nat)
    requires ValidSchema(sch) && m.desc < |sch| && i < |sch[m.desc].fields| && n <= |sch[m.desc].fields|
    ensures HasMember(MembersTo(sch, m, n), sch[m.desc].fields[i].id)
       <==> i < n && HasMember(FieldMembers(sch, m, i), sch[m.desc].fields[i].id)
    decreases n
  {
    hide FieldMembers;
    if n > 0 {
      var a, b, id := MembersTo(sch, m, n - 1), FieldMembers(sch, m, n - 1), sch[m.desc].fields[i].id;
      KnownHas(sch, m, i, n - 1);
      OtherField(sch, m, n - 1);
      HasInBoth(a, b, id);
      if n - 1 != i { FieldIsFound(sch, m.desc, i); FieldIsFound(sch, m.desc, n - 1); }
    }
  }

  lemma HasInBoth(a: seq<Member>, b: seq<Member>, id: u32)
    ensures HasMember(a + b, id) <==> HasMember(a, id) || HasMember(b, id)
  {
    if HasMember(a, id) {
      var k :| 0 <= k < |a| && a[k].tag == id;
      assert (a + b)[k].tag == id;
    }
    if HasMember(b, id) {
      var k :| 0 <= k < |b| && b[k].tag == id;
      assert (a + b)[|a| + k].tag == id;
    }
    if HasMember(a + b, id) {
      var k :| 0 <= k < |a + b| && (a + b)[k].tag == id;
      if k < |a| { assert a[k].tag == id; } else { assert b[k - |a|].tag == id; }
    }
  }

  /** What a single field outside the oneofs arrives as. */
  lemma ValueArrives(sch: Schema, m: Message, i: nat)
    requires ValidSchema(sch) && WellFormed(sch, m) && |Encode(sch, m)| <= 0x7FFF_FFFF
    requires Parse(sch, m.desc, Encode(sch, m)).Some? && i < |m.slots|
    requires sch[m.desc].fields[i].oneof.None? && sch[m.desc].fields[i].rule != REPEATED && sch[m.desc].fields[i].ty != MESSAGE
    ensures var f, s := sch[m.desc].fields[i], m.slots[i];
            var r := Parse(sch, m.desc, Encode(sch, m)).value;
            && i < |r.slots| && r.slots[i].Single? && s.Single?
            && match s.v
               case Word(w) => r.slots[i].v == Word(if Sends(f, s) then Cut(f.ty, w) else f.initWord)
               case Text(p) => Sends(f, s) ==> r.slots[i].v == Text(Own(UpToNul(Target(f, p))))
               case Blob(p) =>
                 Sends(f, s) ==> r.slots[i].v == Blob(if Target(f, p) == [] then Null else Own(Target(f, p)))
               case _ => false
  {
    hide Parse, Encode, Normalize, Sends, IsPresent, Fits;
    var f, s := sch[m.desc].fields[i], m.slots[i];
    RoundTrips(sch, m);
    SlotAt(sch, m, i);
    SlotHasType(sch, f, s);
    SendsIsPresent(f, s);
    Reencode.NormalizedSlot(sch, m, i);
    match s.v
    case Word(w) => CutIsNorm(f.ty, w);
    case Text(p) => UpToNulIsCString(Content(f, p));
    case Blob(p) =>
  }

  lemma SlotAt(sch: Schema, m: Message, i: nat)
    requires WellFormed(sch, m) && i < |m.slots|
    ensures m.desc < |sch| && WellShaped(sch, m) && WellFormedSlot(sch, sch[m.desc].fields[i], m.slots[i])
  {}

  /** Every 64-bit integer arrives, labelled or not. */
  lemma SixtyFourBitsArrive(sch: Schema, m: Message, i: nat, w: u64)
    requires ValidSchema(sch) && WellFormed(sch, m) && |Encode(sch, m)| <= 0x7FFF_FFFF
    requires Parse(sch, m.desc, Encode(sch, m)).Some? && i < |m.slots|
    requires var f := sch[m.desc].fields[i];
             && f.oneof.None? && f.ty in {INT64, SINT64, UINT64, FIXED64, SFIXED64}
             && (f.rule == REQUIRED || f.rule == NONE || (f.rule == OPTIONAL && m.slots[i].Single? && m.slots[i].has))
    requires m.slots[i].Single? && m.slots[i].v == Word(w)
    ensures var r := Parse(sch, m.desc, Encode(sch, m)).value;
            i < |r.slots| && r.slots[i].Single? && r.slots[i].v == Word(w)
  {
    hide Parse, Encode, WellFormed;
    ValueArrives(sch, m, i);
    SlotAt(sch, m, i);
    FieldIsValid(sch, m.desc, i);
  }
}
