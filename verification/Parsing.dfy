/**
 What unpacking means: one pass over the members of the input, each applied to the message so far.
 protobuf_c_message_unpack makes two passes over preallocated storage; it is proved against `Parse`.
 */
module Parsing {
  import opened Bytes
  import opened Varints
  import opened Schema
  import opened Wire
  import opened Scan

  // ---- Scalars (parse_required_member) --------------------------------------------------------

  function ParseScalar(t: FieldType, wireType: nat, data: seq<byte>): Option<u64> {
    match t
    case INT32 | ENUM | UINT32 =>
      if wireType == WIRE_VARINT && data != [] then Some(ParseUint32(data)) else None
    case SINT32 =>
      if wireType == WIRE_VARINT && data != [] then Some(UnZigZag32(ParseUint32(data))) else None
    case INT64 | UINT64 =>
      if wireType == WIRE_VARINT && data != [] then Some(ParseUint64(data)) else None
    case SINT64 =>
      if wireType == WIRE_VARINT && data != [] then Some(UnZigZag64(ParseUint64(data))) else None
    case SFIXED32 | FIXED32 | FLOAT =>
      if wireType == WIRE_32BIT && |data| >= 4 then Some(ParseFixed32(data)) else None
    case SFIXED64 | FIXED64 | DOUBLE =>
      if wireType == WIRE_64BIT && |data| >= 8 then Some(ParseFixed64(data)) else None
    case BOOL => Some(if ParseBoolean(data) then 1 else 0) // the wire type is not looked at
    case STRING | BYTES | MESSAGE => None
  }

  /** The word that a scalar comes back as. */
  function NormWord(t: FieldType, w: u64): u64 {
    if t == BOOL then (if Low32(w) != 0 then 1 else 0)
    else if IsWord32(t) then Low32(w)
    else w
  }

  // ---- merge_messages -------------------------------------------------------------------------

  /** Does the earlier string or bytes member replace the later one? */
  predicate EarlierTextWins(f: FieldDescriptor, e: Ptr, l: Ptr) {
    var def := if f.hasDefault then Default else Null;
    e != def && l == def
  }

  predicate EarlierBlobWins(e: Ptr, l: Ptr) {
    e.Own? && e.bytes != [] && !(l.Own? && l.bytes != [])
  }

  function MergeSlot(sch: Schema, f: FieldDescriptor, e: Slot, l: Slot): Option<Slot>
    decreases e, 1
  {
    if f.rule == REPEATED then
      Some(Many(Elements(e) + Elements(l)))
    else if f.rule == REQUIRED || f.oneof.Some? || !e.Single? || !l.Single? then
      Some(l)
    else
      match (e.v, l.v)
      case (Msg(em), Msg(lm)) =>
        var m :- Merge(sch, em, lm);
        Some(Single(l.has, Msg(m)))
      case (Msg(em), _) => Some(Single(l.has, e.v))
      case (NoMsg, _) => Some(l)
      case (Blob(ep), Blob(lp)) =>
        if EarlierBlobWins(ep, lp) then Some(Single(if HasBit(f) then e.has else l.has, e.v)) else Some(l)
      case (Text(ep), Text(lp)) =>
        if EarlierTextWins(f, ep, lp) then Some(Single(l.has, e.v)) else Some(l)
      case (_, _) =>
        // an unlabelled scalar has no quantifier, and never yields to the earlier value
        if HasBit(f) && e.has && !l.has then Some(Single(true, e.v)) else Some(l)
  }

  /** A oneof that is unset in both messages makes the merge fail. */
  function MergeOneof(desc: Descriptor, e: OneofState, l: OneofState): Option<OneofState> {
    if l.Chosen? then Some(l)
    else if e.Unset? then None
    else
      var i := FindField(desc.fields, e.id);
      if i < 0 then None
      else
        match e.v
        case NoMsg => Some(l)
        case Msg(_) => Some(e)
        case Blob(p) => Some(if EarlierBlobWins(p, Null) then e else l)
        case Text(p) => Some(if EarlierTextWins(desc.fields[i], p, Null) then e else l)
        case Word(_) => Some(e)
  }

  function MergeSlots(sch: Schema, fields: seq<FieldDescriptor>, e: seq<Slot>, l: seq<Slot>): (r: Option<seq<Slot>>)
    ensures r.Some? ==> |r.value| == |l|
    decreases e, 2
  {
    if l == [] then Some([])
    else if |fields| != |l| || |e| != |l| then Some(l)
    else
      var n := |l| - 1;
      var rest :- MergeSlots(sch, fields[..n], e[..n], l[..n]);
      var s :- MergeSlot(sch, fields[n], e[n], l[n]);
      Some(rest + [s])
  }

  function MergeOneofs(desc: Descriptor, e: seq<OneofState>, l: seq<OneofState>): (r: Option<seq<OneofState>>)
    ensures r.Some? ==> |r.value| == |l|
  {
    if l == [] then Some([])
    else if |e| != |l| then Some(l)
    else
      var n := |l| - 1;
      var rest :- MergeOneofs(desc, e[..n], l[..n]);
      var o :- MergeOneof(desc, e[n], l[n]);
      Some(rest + [o])
  }

  /** merge_messages: the later message, completed from the earlier one. */
  function Merge(sch: Schema, e: Message, l: Message): (r: Option<Message>)
    ensures r.Some? ==> r.value.desc == l.desc && |r.value.slots| == |l.slots| && |r.value.oneofs| == |l.oneofs|
                        && r.value.unknown == l.unknown
    decreases e, 3
  {
    var desc := DescriptorOf(sch, l.desc);
    var slots :- MergeSlots(sch, desc.fields, e.slots, l.slots);
    var oneofs :- MergeOneofs(desc, e.oneofs, l.oneofs);
    Some(Message(l.desc, slots, oneofs, l.unknown))
  }

  // ---- Packed repeated fields -----------------------------------------------------------------

  /** The elements of a packed payload (parse_packed_repeated_member). */
  function ParsePacked(t: FieldType, s: seq<byte>): Option<seq<u64>> {
    if IsFixed32(t) then ParsePackedFixed(t, 4, s)
    else if IsFixed64(t) then ParsePackedFixed(t, 8, s)
    else if IsPackable(t) then ParsePackedVarints(t, s)
    else None
  }

  function ParsePackedFixed(t: FieldType, size: nat, s: seq<byte>): Option<seq<u64>>
    requires size == (if IsFixed32(t) then 4 else 8)
  {
    if s == [] then Some([])
    else if |s| < size then None
    else
      var rest :- ParsePackedFixed(t, size, s[size..]);
      var w :- ParseScalar(t, WireTypeOf(t), s[..size]);
      Some([w] + rest)
  }

  function ParsePackedVarints(t: FieldType, s: seq<byte>): Option<seq<u64>> {
    if s == [] then Some([])
    else if !StartsVarint(s, 10) then None
    else
      var p := PrefixLen(s);
      var w :- ParseScalar(t, WIRE_VARINT, s[..p]);
      var rest :- ParsePackedVarints(t, s[p..]);
      Some([w] + rest)
  }

  function Words(ws: seq<u64>): (r: seq<Value>)
    ensures |r| == |ws|
  {
    seq(|ws|, i requires 0 <= i < |ws| => Word(ws[i]))
  }

  // ---- Messages -------------------------------------------------------------------------------

  /** parse_required_member: the new value of a field that has `held`. */
  function ParseValue(sch: Schema, f: FieldDescriptor, mem: Member, held: Value): Option<Value>
    decreases |mem.data|, 0
  {
    if IsPackable(f.ty) then
      var w :- ParseScalar(f.ty, mem.wireType, mem.data);
      Some(Word(w))
    else if mem.wireType != WIRE_PREFIXED || mem.data == [] then None
    else if f.ty == STRING then Some(Text(Own(Payload(mem))))
    else if f.ty == BYTES then Some(Blob(if Payload(mem) == [] then Null else Own(Payload(mem))))
    else
      var sub :- Parse(sch, f.sub, Payload(mem));
      if held.Msg? then
        var m :- Merge(sch, held.m, sub);
        Some(Msg(m))
      else Some(Msg(sub))
  }

  /** Is the member read as a packed run of elements? */
  predicate IsPackedRun(f: FieldDescriptor, mem: Member) {
    mem.wireType == WIRE_PREFIXED && (f.packed || IsPackable(f.ty))
  }

  /** parse_member for a repeated field: the elements that the member adds. */
  function ParseElements(sch: Schema, f: FieldDescriptor, mem: Member): Option<seq<Value>>
    decreases |mem.data|, 1
  {
    if IsPackedRun(f, mem) then
      var ws :- ParsePacked(f.ty, Payload(mem));
      Some(Words(ws))
    else
      var v :- ParseValue(sch, f, mem, NoMsg);
      Some([v])
  }

  /** parse_member */
  function Apply(sch: Schema, mem: Member, m: Message): Option<Message>
    decreases |mem.data|, 2
  {
    var fields := DescriptorOf(sch, m.desc).fields;
    var i := FindField(fields, mem.tag);
    if i < 0 then Some(m.(unknown := m.unknown + [mem]))
    else if i >= |m.slots| then None
    else
      var f := fields[i];
      if f.rule == REPEATED then
        var vs :- ParseElements(sch, f, mem);
        Some(m.(slots := m.slots[i := Many(Elements(m.slots[i]) + vs)]))
      else if f.rule != REQUIRED && f.oneof.Some? then
        if f.oneof.value >= |m.oneofs| then None
        else
          var v :- ParseValue(sch, f, mem, NoMsg);
          Some(m.(oneofs := m.oneofs[f.oneof.value := Chosen(mem.tag, v)]))
      else
        var v :- ParseValue(sch, f, mem, Held(m.slots[i]));
        var has := HasBit(f) || (m.slots[i].Single? && m.slots[i].has);
        Some(m.(slots := m.slots[i := Single(has, v)]))
  }

  /** Reads members off the front of `s` and applies them to `m`. */
  function ParseFrom(sch: Schema, s: seq<byte>, m: Message): Option<Message>
    decreases |s|, 0
  {
    if s == [] then Some(m)
    else
      var first :- ScanMember(s);
      var m' :- Apply(sch, first.mem, m);
      ParseFrom(sch, s[first.used..], m')
  }

  /** The member slabs hold 16, 32, ... entries, and there are 23 of them. */
  const MAX_MEMBERS := 16 * (0x80_0000 - 1)

  predicate HasMember(ms: seq<Member>, tag: u32) {
    exists k :: 0 <= k < |ms| && ms[k].tag == tag
  }

  /** Every required field without a default value is among the members. */
  predicate RequiredPresent(desc: Descriptor, ms: seq<Member>) {
    forall i :: 0 <= i < |desc.fields| && desc.fields[i].rule == REQUIRED && !desc.fields[i].hasDefault
      ==> HasMember(ms, desc.fields[i].id)
  }

  /** The members of `s`, when there are not too many and no required one is missing. */
  function ScanChecked(desc: Descriptor, s: seq<byte>): Option<seq<Member>> {
    var ms :- ScanAll(s);
    if |ms| > MAX_MEMBERS || !RequiredPresent(desc, ms) then None else Some(ms)
  }

  /** protobuf_c_message_unpack, as a function of the bytes. */
  function Parse(sch: Schema, d: nat, s: seq<byte>): Option<Message>
    decreases |s|, 1
  {
    var ms :- ScanChecked(DescriptorOf(sch, d), s);
    ParseFrom(sch, s, Init(sch, d))
  }

  // ---- The same meaning, member by member -----------------------------------------------------

  /** Applies members one after the other. */
  function Fold(sch: Schema, ms: seq<Member>, m: Message): Option<Message> {
    if ms == [] then Some(m)
    else
      var m' :- Apply(sch, ms[0], m);
      Fold(sch, ms[1..], m')
  }

  lemma {:induction false} ParseFromIsFold(sch: Schema, s: seq<byte>, m: Message)
    requires ScanAll(s).Some?
    ensures ParseFrom(sch, s, m) == Fold(sch, ScanAll(s).value, m)
    decreases |s|
  {
    hide ScanMember, Apply;
    if s != [] {
      var first := ScanMember(s).value;
      var rest := s[first.used..];
      assert ScanAll(s).value[1..] == ScanAll(rest).value;
      if Apply(sch, first.mem, m).Some? {
        ParseFromIsFold(sch, rest, Apply(sch, first.mem, m).value);
      }
    }
  }

  lemma {:induction false} FoldConcat(sch: Schema, a: seq<Member>, b: seq<Member>, m: Message)
    ensures Fold(sch, a, m).None? ==> Fold(sch, a + b, m).None?
    ensures Fold(sch, a, m).Some? ==> Fold(sch, a + b, m) == Fold(sch, b, Fold(sch, a, m).value)
  {
    hide Apply;
    if a == [] {
      assert a + b == b;
    } else {
      assert (a + b)[0] == a[0] && (a + b)[1..] == a[1..] + b;
      if Apply(sch, a[0], m).Some? {
        FoldConcat(sch, a[1..], b, Apply(sch, a[0], m).value);
      }
    }
  }

  lemma FoldOne(sch: Schema, mem: Member, m: Message)
    ensures Fold(sch, [mem], m) == Apply(sch, mem, m)
  {
    hide Apply;
    assert [mem][1..] == [];
    if Apply(sch, mem, m).Some? {
      assert Fold(sch, [], Apply(sch, mem, m).value) == Apply(sch, mem, m);
    }
  }

  // ---- Applying a member, slot by slot ---------------------------------------------------------

  /** What Apply does to the slot of a field that is not in a oneof. */
  ghost function ApplySlot(sch: Schema, f: FieldDescriptor, mem: Member, s: Slot): Option<Slot> {
    if f.rule == REPEATED then
      match ParseElements(sch, f, mem) case None => None case Some(vs) => Some(Many(Elements(s) + vs))
    else
      match ParseValue(sch, f, mem, Held(s)) case None => None case Some(v) => Some(Single(HasBit(f) || (s.Single? && s.has), v))
  }

  /** Apply, for a field that is not in a oneof. */
  lemma ApplyIsSlot(sch: Schema, mem: Member, m: Message, i: nat)
    requires m.desc < |sch| && |m.slots| == |sch[m.desc].fields| && FindField(sch[m.desc].fields, mem.tag) == i
    requires sch[m.desc].fields[i].oneof.None?
    ensures Apply(sch, mem, m)
            == match ApplySlot(sch, sch[m.desc].fields[i], mem, m.slots[i])
               case None => None
               case Some(s) => Some(m.(slots := m.slots[i := s]))
  {
    hide ParseElements, ParseValue;
  }

  lemma ApplyIsOneof(sch: Schema, mem: Member, m: Message, i: nat, g: nat)
    requires m.desc < |sch| && |m.slots| == |sch[m.desc].fields| && FindField(sch[m.desc].fields, mem.tag) == i
    requires var f := sch[m.desc].fields[i]; f.oneof == Some(g) && (f.rule == OPTIONAL || f.rule == NONE) && g < |m.oneofs|
    ensures Apply(sch, mem, m)
            == match ParseValue(sch, sch[m.desc].fields[i], mem, NoMsg)
               case None => None
               case Some(v) => Some(m.(oneofs := m.oneofs[g := Chosen(mem.tag, v)]))
  {
    hide ParseElements, ParseValue;
  }

  lemma OtherSlotStays(sch: Schema, mem: Member, m: Message, f: nat)
    requires f < |m.slots| && FindField(DescriptorOf(sch, m.desc).fields, mem.tag) != f && Apply(sch, mem, m).Some?
    ensures |Apply(sch, mem, m).value.slots| == |m.slots| && Apply(sch, mem, m).value.slots[f] == m.slots[f]
  {
    hide ParseElements, ParseValue;
  }
}

/**
 The messages that may be packed, the form that unpacking builds messages in, and the one limit that
 the parser puts on a message: the number of its members.
 */
module Canonical {
  import opened Bytes
  import opened Schema
  import opened Wire
  import opened Scan
  import opened Parsing

  // ---- Messages that may be packed ------------------------------------------------------------

  /** The value has the shape that its field's type prescribes. */
  ghost predicate WellFormedValue(sch: Schema, f: FieldDescriptor, v: Value)
    decreases v, 0
  {
    match f.ty
    case MESSAGE => v.NoMsg? || (v.Msg? && v.m.desc == f.sub && WellFormed(sch, v.m))
    case STRING => v.Text?
    case BYTES => v.Blob?
    case _ => v.Word?
  }

  /** Shape, and what protobuf_c_message_check asks of a field. */
  ghost predicate WellFormedSlot(sch: Schema, f: FieldDescriptor, s: Slot)
    decreases s, 1
  {
    if f.rule == REPEATED then
      && s.Many?
      && forall i :: 0 <= i < |s.vs| ==>
           && WellFormedValue(sch, f, s.vs[i])
           && s.vs[i] != NoMsg
           && s.vs[i] != Text(Null)
    else if f.oneof.Some? then s.Shared?
    else
      && s.Single?
      && WellFormedValue(sch, f, s.v)
      && (s.has ==> HasBit(f))
      && (f.rule == REQUIRED ==> s.v != NoMsg && s.v != Text(Null))
  }

  ghost predicate WellFormedOneof(sch: Schema, desc: Descriptor, g: nat, o: OneofState)
    decreases o, 1
  {
    o.Chosen? ==>
      var i := FindField(desc.fields, o.id);
      i >= 0 && desc.fields[i].oneof == Some(g) ==> WellFormedValue(sch, desc.fields[i], o.v)
  }

  ghost predicate WellFormedUnknown(desc: Descriptor, mem: Member) {
    IsMember(mem) && FindField(desc.fields, mem.tag) < 0
  }

  ghost predicate WellFormed(sch: Schema, m: Message)
    decreases m, 2
  {
    && m.desc < |sch|
    && |m.slots| == |sch[m.desc].fields|
    && |m.oneofs| == sch[m.desc].nOneofs
    && (forall i :: 0 <= i < |m.slots| ==> WellFormedSlot(sch, sch[m.desc].fields[i], m.slots[i]))
    && (forall g :: 0 <= g < |m.oneofs| ==> WellFormedOneof(sch, sch[m.desc], g, m.oneofs[g]))
    && (forall k :: 0 <= k < |m.unknown| ==> WellFormedUnknown(sch[m.desc], m.unknown[k]))
  }

  // ---- The form that unpacking gives ----------------------------------------------------------

  function NormValue(sch: Schema, f: FieldDescriptor, v: Value): Value
    decreases v, 0
  {
    match v
    case Word(w) => Word(NormWord(f.ty, w))
    case Text(p) => Text(Own(CString(Content(f, p))))
    case Blob(p) => Blob(if Content(f, p) == [] then Null else Own(Content(f, p)))
    case NoMsg => NoMsg
    case Msg(m) => Msg(Normalize(sch, m))
  }

  function NormElements(sch: Schema, f: FieldDescriptor, vs: seq<Value>): (r: seq<Value>)
    ensures |r| == |vs|
    decreases vs, 1
  {
    if vs == [] then []
    else NormElements(sch, f, vs[..|vs| - 1]) + [NormValue(sch, f, vs[|vs| - 1])]
  }

  function NormSlot(sch: Schema, f: FieldDescriptor, s: Slot): Slot
    decreases s, 2
  {
    if f.rule == REPEATED && s.Many? then Many(NormElements(sch, f, s.vs))
    else if f.oneof.None? && IsPresent(f, s) then Single(HasBit(f), NormValue(sch, f, s.v))
    else InitSlot(f)
  }

  /** The index of the field that a oneof writes, or -1. */
  function WrittenBy(desc: Descriptor, g: nat, o: OneofState): (i: int)
    ensures i < |desc.fields|
  {
    if o.Unset? then -1
    else
      var i := FindField(desc.fields, o.id);
      if i >= 0 && desc.fields[i].oneof == Some(g) && IsSelected(desc.fields[i], o) then i else -1
  }

  function NormOneof(sch: Schema, desc: Descriptor, g: nat, o: OneofState): OneofState
    decreases o, 2
  {
    var i := WrittenBy(desc, g, o);
    if i < 0 || !o.Chosen? then Unset else Chosen(o.id, NormValue(sch, desc.fields[i], o.v))
  }

  /** The first `n` fields as unpacking gives them, the others as message_init leaves them. */
  function NormTo(sch: Schema, m: Message, n: nat): Message
    requires WellShaped(sch, m)
    decreases m, 3
  {
    var desc := sch[m.desc];
    Message(m.desc,
            seq(|m.slots|, i requires 0 <= i < |m.slots| =>
              if i < n then NormSlot(sch, desc.fields[i], m.slots[i]) else InitSlot(desc.fields[i])),
            seq(|m.oneofs|, g requires 0 <= g < |m.oneofs| =>
              if WrittenBy(desc, g, m.oneofs[g]) < n then NormOneof(sch, desc, g, m.oneofs[g]) else Unset),
            [])
  }

  predicate WellShaped(sch: Schema, m: Message) {
    m.desc < |sch| && |m.slots| == |sch[m.desc].fields| && |m.oneofs| == sch[m.desc].nOneofs
  }

  /**
   The message that unpacking builds: words cut to their width, truth values 0 or 1, strings up to
   their NUL in a block of their own, absent fields as message_init leaves them.
   */
  function Normalize(sch: Schema, m: Message): (r: Message)
    ensures r.desc == m.desc && r.unknown == m.unknown
    decreases m, 4
  {
    if WellShaped(sch, m) then NormTo(sch, m, |m.slots|).(unknown := m.unknown) else m
  }

  // ---- The member limit -----------------------------------------------------------------------

  predicate FitsValue(sch: Schema, v: Value)
    decreases v, 0
  {
    v.Msg? ==> Fits(sch, v.m)
  }

  predicate FitsElements(sch: Schema, vs: seq<Value>)
    decreases vs, 1
  {
    vs == [] || (FitsElements(sch, vs[..|vs| - 1]) && FitsValue(sch, vs[|vs| - 1]))
  }

  predicate FitsField(sch: Schema, m: Message, i: nat)
    requires WellShaped(sch, m) && i < |m.slots|
    decreases m, 2
  {
    var f := sch[m.desc].fields[i];
    if f.rule == REPEATED then m.slots[i].Many? ==> FitsElements(sch, m.slots[i].vs)
    else if f.rule != REQUIRED && f.oneof.Some? then
      (f.oneof.value < |m.oneofs| && IsSelected(f, m.oneofs[f.oneof.value])
       ==> FitsValue(sch, m.oneofs[f.oneof.value].v))
    else IsPresent(f, m.slots[i]) ==> FitsValue(sch, m.slots[i].v)
  }

  predicate FitsTo(sch: Schema, m: Message, n: nat)
    requires WellShaped(sch, m) && n <= |m.slots|
    decreases m, 3, n
  {
    n == 0 || (FitsTo(sch, m, n - 1) && FitsField(sch, m, n - 1))
  }

  /** Neither the message nor any message in it is written as more members than the slabs hold. */
  predicate Fits(sch: Schema, m: Message)
    decreases m, 4
  {
    WellShaped(sch, m) && |Members(sch, m)| <= MAX_MEMBERS && FitsTo(sch, m, |m.slots|)
  }

  // ---- What well-formedness gives the serializers ---------------------------------------------

  ghost predicate AllWords(vs: seq<Value>) {
    forall i :: 0 <= i < |vs| ==> vs[i].Word?
  }

  lemma PackedAreWords(sch: Schema, f: FieldDescriptor, vs: seq<Value>)
    requires IsPackable(f.ty) && forall i :: 0 <= i < |vs| ==> WellFormedValue(sch, f, vs[i])
    ensures AllWords(vs)
  {}

  lemma SelectedIsWellFormed(sch: Schema, m: Message, i: nat)
    requires ValidSchema(sch) && WellFormed(sch, m) && i < |m.slots| && sch[m.desc].fields[i].oneof.Some?
    ensures var f := sch[m.desc].fields[i];
            && f.oneof.value < |m.oneofs|
            && (IsSelected(f, m.oneofs[f.oneof.value]) ==> WellFormedValue(sch, f, m.oneofs[f.oneof.value].v))
  {
    hide WellFormedValue;
    var f := sch[m.desc].fields[i];
    assert ValidField(sch, sch[m.desc], f);
    assert WellFormedOneof(sch, sch[m.desc], f.oneof.value, m.oneofs[f.oneof.value]);
    FieldIsFound(sch, m.desc, i);
  }
}
