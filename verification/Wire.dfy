/**
 The encoding of a message, defined as the tagged members it consists of. The three serializers of
 protobuf-c.c are proved against `Encode`.
 */
module Wire {
  import opened Bytes
  import opened Varints
  import opened Schema

  const WIRE_VARINT := 0
  const WIRE_64BIT := 1
  const WIRE_PREFIXED := 2
  const WIRE_32BIT := 5

  /** The 4-byte members are read from the low half of their storage. */
  function Low32(w: u64): u32 { w % TWO_TO_THE_32 }

  function WireTypeOf(t: FieldType): nat {
    if !IsPackable(t) then WIRE_PREFIXED
    else if IsFixed32(t) then WIRE_32BIT
    else if IsFixed64(t) then WIRE_64BIT
    else WIRE_VARINT
  }

  /** The bytes of one scalar, without a tag. */
  function EncodeScalar(t: FieldType, w: u64): seq<byte> {
    match t
    case SINT32 => Varint(ZigZag32(Low32(w)))
    case INT32 | ENUM => Varint(SignExtend(Low32(w)))
    case UINT32 => Varint(Low32(w))
    case SINT64 => Varint(ZigZag64(w))
    case INT64 | UINT64 => Varint(w)
    case SFIXED32 | FIXED32 | FLOAT => Fixed32(Low32(w))
    case SFIXED64 | FIXED64 | DOUBLE => Fixed64(w)
    case BOOL => [if Low32(w) != 0 then 1 else 0]
    case STRING | BYTES | MESSAGE => []
  }

  /** A length-delimited record. */
  function Prefixed(s: seq<byte>): (r: seq<byte>)
    ensures |r| > |s|
  {
    Varint(|s|) + s
  }

  function Key(tag: u32, wireType: nat): (r: seq<byte>)
    ensures |r| >= 1
  {
    Varint(tag * 8 + wireType)
  }

  function Serialize(mem: Member): (r: seq<byte>)
    ensures |r| > |mem.data|
  {
    Key(mem.tag, mem.wireType) + mem.data
  }

  function SerializeAll(ms: seq<Member>): seq<byte> {
    if ms == [] then [] else SerializeAll(ms[..|ms| - 1]) + Serialize(ms[|ms| - 1])
  }

  lemma SerializeOne(mem: Member)
    ensures SerializeAll([mem]) == Serialize(mem)
  {
    hide Serialize;
    assert [mem][..0] == [];
    assert [] + Serialize(mem) == Serialize(mem);
  }

  lemma {:induction false} SerializeAllConcat(a: seq<Member>, b: seq<Member>)
    ensures SerializeAll(a + b) == SerializeAll(a) + SerializeAll(b)
  {
    hide Serialize;
    if b == [] {
      assert a + b == a;
    } else {
      assert (a + b)[..|a + b| - 1] == a + b[..|b| - 1];
      SerializeAllConcat(a, b[..|b| - 1]);
    }
  }

  /** What the first members take, and the next one, is within what all of them take. */
  lemma {:induction false} MemberWithin(ms: seq<Member>, k: nat)
    requires k < |ms|
    ensures SerializeAll(ms[..k + 1]) == SerializeAll(ms[..k]) + Serialize(ms[k])
    ensures |SerializeAll(ms[..k])| + |Serialize(ms[k])| <= |SerializeAll(ms)|
  {
    hide Serialize;
    assert ms[..k + 1][..k] == ms[..k];
    if k < |ms| - 1 {
      MemberWithin(ms[..|ms| - 1], k);
      assert ms[..|ms| - 1][..k] == ms[..k];
    } else {
      assert ms[..k + 1] == ms;
    }
  }

  // ---- Which members are written --------------------------------------------------------------

  /** field_is_zeroish: both zeros of a floating point number count as zero. */
  predicate IsZeroish(f: FieldDescriptor, v: Value) {
    match v
    case Word(w) =>
      if f.ty == FLOAT then Low32(w) % 0x8000_0000 == 0
      else if f.ty == DOUBLE then w % 0x8000_0000_0000_0000 == 0
      else if f.ty == BOOL || IsWord32(f.ty) then Low32(w) == 0
      else w == 0
    case Text(p) => p == Null || CString(Content(f, p)) == []
    case Blob(p) => Content(f, p) == []
    case NoMsg => true
    case Msg(_) => false
  }

  /** Pointers that a oneof or optional field does not write. */
  predicate IsAbsentPointer(v: Value) {
    v == NoMsg || (v.Text? && !v.t.Own?)
  }

  /** Does a field outside every oneof write its single member? */
  predicate IsPresent(f: FieldDescriptor, s: Slot) {
    && s.Single?
    && (match f.rule
        case REQUIRED => true
        case OPTIONAL => if f.ty == MESSAGE || f.ty == STRING then !IsAbsentPointer(s.v) else s.has
        case NONE => !IsZeroish(f, s.v)
        case REPEATED => false)
  }

  /** Does a field of a oneof write its member? */
  predicate IsSelected(f: FieldDescriptor, o: OneofState) {
    o.Chosen? && o.id == f.id && !IsAbsentPointer(o.v)
  }

  // ---- The encoding ---------------------------------------------------------------------------

  function EncodeValue(sch: Schema, f: FieldDescriptor, v: Value): seq<byte>
    decreases v, 0
  {
    match v
    case Word(w) => EncodeScalar(f.ty, w)
    case Text(p) => Prefixed(CString(Content(f, p)))
    case Blob(p) => Prefixed(Content(f, p))
    case NoMsg => Prefixed([])
    case Msg(m) => Prefixed(Encode(sch, m))
  }

  function ValueMember(sch: Schema, f: FieldDescriptor, v: Value): Member
    decreases v, 1
  {
    Member(f.id, WireTypeOf(f.ty), EncodeValue(sch, f, v))
  }

  /** The elements of an unpacked repeated field, one member each. */
  function ElementMembers(sch: Schema, f: FieldDescriptor, vs: seq<Value>): (r: seq<Member>)
    ensures |r| == |vs|
    decreases vs, 2
  {
    if vs == [] then []
    else ElementMembers(sch, f, vs[..|vs| - 1]) + [ValueMember(sch, f, vs[|vs| - 1])]
  }

  /** The elements of a packed repeated field, back to back. */
  function PackedPayload(t: FieldType, vs: seq<Value>): seq<byte> {
    if vs == [] then []
    else PackedPayload(t, vs[..|vs| - 1]) + (if vs[|vs| - 1].Word? then EncodeScalar(t, vs[|vs| - 1].w) else [])
  }

  function SlotMembers(sch: Schema, f: FieldDescriptor, s: Slot): seq<Member>
    decreases s, 3
  {
    if f.rule == REPEATED then
      if f.packed then
        if Elements(s) == [] then []
        else [Member(f.id, WIRE_PREFIXED, Prefixed(PackedPayload(f.ty, Elements(s))))]
      else if s.Many? then ElementMembers(sch, f, s.vs) else []
    else if IsPresent(f, s) then [ValueMember(sch, f, s.v)]
    else []
  }

  function OneofMembers(sch: Schema, f: FieldDescriptor, o: OneofState): seq<Member>
    decreases o, 3
  {
    if IsSelected(f, o) then [ValueMember(sch, f, o.v)] else []
  }

  /** The members that field `i` of `m` writes. */
  function FieldMembers(sch: Schema, m: Message, i: nat): seq<Member>
    requires i < |DescriptorOf(sch, m.desc).fields|
    decreases m, 4
  {
    var f := DescriptorOf(sch, m.desc).fields[i];
    if (f.rule == OPTIONAL || f.rule == NONE) && f.oneof.Some? then
      if f.oneof.value < |m.oneofs| then OneofMembers(sch, f, m.oneofs[f.oneof.value]) else []
    else
      if i < |m.slots| then SlotMembers(sch, f, m.slots[i]) else []
  }

  /** The members written by the first `n` fields. */
  function MembersTo(sch: Schema, m: Message, n: nat): seq<Member>
    requires n <= |DescriptorOf(sch, m.desc).fields|
    decreases m, 5, n
  {
    if n == 0 then [] else MembersTo(sch, m, n - 1) + FieldMembers(sch, m, n - 1)
  }

  function KnownMembers(sch: Schema, m: Message): seq<Member>
    decreases m, 6
  {
    MembersTo(sch, m, |DescriptorOf(sch, m.desc).fields|)
  }

  /** Known fields in descriptor order, then the unknown fields. */
  function Members(sch: Schema, m: Message): seq<Member>
    decreases m, 7
  {
    KnownMembers(sch, m) + m.unknown
  }

  function Encode(sch: Schema, m: Message): seq<byte>
    decreases m, 8
  {
    SerializeAll(Members(sch, m))
  }
}

/**
 Splitting bytes into members, as a function: the specification of the first pass of
 protobuf_c_message_unpack, of parse_tag_and_wiretype and of scan_length_prefixed_data.
 */
module Scan {
  import opened Bytes
  import opened Varints
  import opened Schema
  import opened Wire

  /** The number of bytes up to and including the first one whose top bit is clear. */
  function PrefixLen(s: seq<byte>): (p: nat)
    ensures p <= |s|
    ensures s != [] ==> p >= 1
    ensures forall i :: 0 <= i < p - 1 ==> s[i] >= 128
  {
    if s == [] then 0 else if s[0] < 128 then 1 else 1 + PrefixLen(s[1..])
  }

  /** Does `s` start with a varint of at most `max` bytes? */
  predicate StartsVarint(s: seq<byte>, max: nat) {
    var p := PrefixLen(s);
    1 <= p <= max && s[p - 1] < 128
  }

  lemma {:induction false} PrefixLenIs(s: seq<byte>, p: nat)
    requires 1 <= p <= |s| && s[p - 1] < 128 && forall i :: 0 <= i < p - 1 ==> s[i] >= 128
    ensures PrefixLen(s) == p
  {
    if s[0] >= 128 { PrefixLenIs(s[1..], p - 1); }
  }

  /** No byte of `s` ends a varint. */
  lemma {:induction false} PrefixLenUnterminated(s: seq<byte>)
    requires forall i :: 0 <= i < |s| ==> s[i] >= 128
    ensures PrefixLen(s) == |s|
  {
    if s != [] { PrefixLenUnterminated(s[1..]); }
  }

  /** A varint read from the front of `v + rest` is `v`. */
  lemma PrefixLenVarint(v: nat, rest: seq<byte>)
    ensures PrefixLen(Varint(v) + rest) == |Varint(v)|
    ensures StartsVarint(Varint(v) + rest, |Varint(v)|)
    ensures (Varint(v) + rest)[..|Varint(v)|] == Varint(v)
    ensures (Varint(v) + rest)[|Varint(v)|..] == rest
  {
    VarintIsVarint(v);
    PrefixLenIs(Varint(v) + rest, |Varint(v)|);
  }

  /** More bytes at the end do not change a terminated prefix. */
  lemma PrefixLenExtend(s: seq<byte>, rest: seq<byte>, max: nat)
    requires StartsVarint(s, max)
    ensures PrefixLen(s + rest) == PrefixLen(s)
    ensures StartsVarint(s + rest, max)
    ensures (s + rest)[..PrefixLen(s)] == s[..PrefixLen(s)]
  {
    PrefixLenIs(s + rest, PrefixLen(s));
  }

  datatype Header = Header(tag: u32, wireType: nat, used: nat)

  lemma {:induction false} GroupsBound(s: seq<byte>)
    ensures Groups(s) < Pow128(|s|)
  {
    if s != [] { GroupsBound(s[1..]); }
  }

  lemma GroupsFive(s: seq<byte>)
    requires |s| <= 5
    ensures Groups(s) < 0x8_0000_0000
  {
    GroupsBound(s);
    Pow128Values();
  }

  /** parse_tag_and_wiretype: a key of at most five bytes whose first byte is not below 8. */
  function ScanKey(s: seq<byte>): (h: Option<Header>)
    ensures h.Some? ==> 1 <= h.value.used <= |s| && h.value.wireType < 8
  {
    if s == [] || s[0] < 8 || !StartsVarint(s, 5) then None
    else
      var p := PrefixLen(s);
      GroupsFive(s[..p]);
      var key := Groups(s[..p]);
      Some(Header(key / 8, key % 8, p))
  }

  /** The length of the body that follows a key of wire type `wireType`, if it is all there. */
  function ScanBody(wireType: nat, s: seq<byte>): (n: Option<nat>)
    ensures n.Some? ==> 1 <= n.value <= |s|
  {
    if wireType == WIRE_VARINT then
      if StartsVarint(s, 10) then Some(PrefixLen(s)) else None
    else if wireType == WIRE_64BIT then
      if |s| >= 8 then Some(8) else None
    else if wireType == WIRE_PREFIXED then
      ScanPrefixed(s)
    else if wireType == WIRE_32BIT then
      if |s| >= 4 then Some(4) else None
    else None
  }

  /** scan_length_prefixed_data: a length of at most five bytes and at most INT_MAX. */
  function ScanPrefixed(s: seq<byte>): (n: Option<nat>)
    ensures n.Some? ==> 1 <= PrefixLen(s) <= n.value <= |s|
  {
    if !StartsVarint(s, 5) then None
    else
      var p := PrefixLen(s);
      var len := Groups(s[..p]);
      if len > INT_MAX || p + len > |s| then None else Some(p + len)
  }

  datatype Scanned = Scanned(mem: Member, used: nat)

  /** The first member of `s` and the number of bytes it takes. */
  function ScanMember(s: seq<byte>): (r: Option<Scanned>)
    ensures r.Some? ==> |r.value.mem.data| < r.value.used <= |s| && r.value.mem.wireType < 8
  {
    var h :- ScanKey(s);
    var n :- ScanBody(h.wireType, s[h.used..]);
    Some(Scanned(Member(h.tag, h.wireType, s[h.used..][..n]), h.used + n))
  }

  /** All members of `s`, in order. */
  function ScanAll(s: seq<byte>): (r: Option<seq<Member>>)
    decreases |s|
  {
    if s == [] then Some([])
    else
      var first :- ScanMember(s);
      var rest :- ScanAll(s[first.used..]);
      Some([first.mem] + rest)
  }

  /** The payload of a length-delimited member. */
  function Payload(mem: Member): (r: seq<byte>)
    ensures mem.data != [] ==> |r| < |mem.data|
  {
    mem.data[PrefixLen(mem.data)..]
  }

  /** A member that a parser can have produced. */
  predicate IsMember(mem: Member) {
    && 1 <= mem.tag
    && mem.wireType < 8
    && ScanBody(mem.wireType, mem.data) == Some(|mem.data|)
  }

  lemma BodyExtend(wireType: nat, s: seq<byte>, rest: seq<byte>)
    requires ScanBody(wireType, s).Some?
    ensures ScanBody(wireType, s + rest) == ScanBody(wireType, s)
    ensures (s + rest)[..ScanBody(wireType, s).value] == s[..ScanBody(wireType, s).value]
  {
    if wireType == WIRE_VARINT { PrefixLenExtend(s, rest, 10); }
    if wireType == WIRE_PREFIXED { PrefixLenExtend(s, rest, 5); }
  }

  /** A body is one also when nothing follows it. */
  lemma BodyAlone(wireType: nat, s: seq<byte>)
    requires ScanBody(wireType, s).Some?
    ensures ScanBody(wireType, s[..ScanBody(wireType, s).value]) == ScanBody(wireType, s)
    ensures wireType == WIRE_PREFIXED ==> PrefixLen(s[..ScanBody(wireType, s).value]) == PrefixLen(s)
  {
    var n := ScanBody(wireType, s).value;
    if wireType == WIRE_VARINT || wireType == WIRE_PREFIXED {
      var p := PrefixLen(s);
      PrefixLenIs(s[..n], p);
      assert s[..n][..p] == s[..p];
    }
  }

  lemma KeyExtend(s: seq<byte>, rest: seq<byte>)
    requires ScanKey(s).Some?
    ensures ScanKey(s + rest) == ScanKey(s)
  {
    PrefixLenExtend(s, rest, 5);
  }

  /** Scanning a member does not look past its end. */
  lemma ScanMemberExtend(s: seq<byte>, rest: seq<byte>)
    requires ScanMember(s).Some?
    ensures ScanMember(s + rest) == ScanMember(s)
    ensures (s + rest)[ScanMember(s).value.used..] == s[ScanMember(s).value.used..] + rest
  {
    hide ScanBody, ScanKey;
    KeyExtend(s, rest);
    var h := ScanKey(s).value;
    assert (s + rest)[h.used..] == s[h.used..] + rest;
    BodyExtend(h.wireType, s[h.used..], rest);
  }

  /** The members of a concatenation are those of the first part followed by those of the second. */
  lemma {:induction false} ScanAllConcat(a: seq<byte>, b: seq<byte>)
    requires ScanAll(a).Some?
    ensures ScanAll(b).Some? ==> ScanAll(a + b) == Some(ScanAll(a).value + ScanAll(b).value)
    ensures ScanAll(b).None? ==> ScanAll(a + b).None?
    decreases |a|
  {
    hide ScanMember;
    if a == [] {
      assert a + b == b;
      if ScanAll(b).Some? { assert [] + ScanAll(b).value == ScanAll(b).value; }
    } else {
      ScanMemberExtend(a, b);
      var first := ScanMember(a).value;
      ScanAllConcat(a[first.used..], b);
      if ScanAll(b).Some? {
        assert [first.mem] + (ScanAll(a[first.used..]).value + ScanAll(b).value)
            == ScanAll(a).value + ScanAll(b).value;
      }
    }
  }

  /** parse_tag_and_wiretype inverts tag_pack with the wire type or-ed in, for every tag. */
  lemma ScanKeyInvertsKey(tag: u32, wireType: nat, rest: seq<byte>)
    requires 1 <= tag && wireType < 8
    ensures ScanKey(Key(tag, wireType) + rest) == Some(Header(tag, wireType, |Key(tag, wireType)|))
  {
    var v := tag * 8 + wireType;
    PrefixLenVarint(v, rest);
    GroupsVarint(v);
    Pow128Values();
    VarintLength(v, 5);
    assert Varint(v)[0] >= 8;
  }

  lemma ScanSerialized(mem: Member, rest: seq<byte>)
    requires IsMember(mem)
    ensures ScanMember(Serialize(mem) + rest) == Some(Scanned(mem, |Serialize(mem)|))
    ensures (Serialize(mem) + rest)[|Serialize(mem)|..] == rest
  {
    hide Key, ScanKey, ScanBody;
    var k := Key(mem.tag, mem.wireType);
    assert Serialize(mem) + rest == k + (mem.data + rest);
    ScanKeyInvertsKey(mem.tag, mem.wireType, mem.data + rest);
    BodyExtend(mem.wireType, mem.data, rest);
    assert (k + (mem.data + rest))[|k|..] == mem.data + rest;
  }

  /** Scanning inverts serializing. */
  lemma {:induction false} ScanInvertsSerialize(ms: seq<Member>)
    requires forall i :: 0 <= i < |ms| ==> IsMember(ms[i])
    ensures ScanAll(SerializeAll(ms)) == Some(ms)
  {
    hide ScanMember, Serialize;
    if ms != [] {
      var last := ms[|ms| - 1];
      ScanInvertsSerialize(ms[..|ms| - 1]);
      ScanSerialized(last, []);
      assert Serialize(last) + [] == Serialize(last);
      assert ScanMember(Serialize(last)) == Some(Scanned(last, |Serialize(last)|));
      assert [last] + [] == [last];
      assert ScanAll(Serialize(last)) == Some([last]);
      ScanAllConcat(SerializeAll(ms[..|ms| - 1]), Serialize(last));
      assert ms[..|ms| - 1] + [last] == ms;
    }
  }

  /** A length-delimited record is a body, and its payload is what was delimited. */
  lemma PrefixedIsBody(tag: u32, s: seq<byte>)
    requires |s| <= INT_MAX && 1 <= tag
    ensures IsMember(Member(tag, WIRE_PREFIXED, Prefixed(s)))
    ensures Payload(Member(tag, WIRE_PREFIXED, Prefixed(s))) == s
  {
    PrefixLenVarint(|s|, s);
    GroupsVarint(|s|);
    VarintAtMostFive(|s|);
  }
}
