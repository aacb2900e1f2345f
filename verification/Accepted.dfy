/**
 What unpacking accepts can be packed again, and unpacks to its normal form, with one exception:
 parse_tag_and_wiretype lets an overlong key of field number 0 pass, which tag_pack cannot write.
 */
module Accepted {
  import opened Bytes
  import opened Varints
  import opened Schema
  import opened Wire
  import opened Scan
  import opened Parsing
  import opened Canonical
  import opened RoundTrip
  import opened PackedLaw
  import opened MergeLaw
  import opened ByField

  // ---- The messages that unpacking builds -------------------------------------------------------

  ghost predicate AcceptedValue(sch: Schema, f: FieldDescriptor, v: Value)
    decreases v, 0
  {
    match f.ty
    case MESSAGE => v.NoMsg? || (v.Msg? && v.m.desc == f.sub && AcceptedMessage(sch, v.m))
    case STRING => v.Text?
    case BYTES => v.Blob?
    case _ => v.Word?
  }

  ghost predicate AcceptedSlot(sch: Schema, f: FieldDescriptor, s: Slot)
    decreases s, 1
  {
    if f.rule == REPEATED then
      s.Many? && forall i :: 0 <= i < |s.vs| ==> AcceptedValue(sch, f, s.vs[i]) && s.vs[i] != NoMsg && s.vs[i] != Text(Null)
    else if f.oneof.Some? then s.Shared?
    else s.Single? && AcceptedValue(sch, f, s.v) && (s.has ==> HasBit(f))
  }

  ghost predicate AcceptedOneof(sch: Schema, desc: Descriptor, g: nat, o: OneofState)
    decreases o, 1
  {
    o.Chosen? ==>
      var i := FindField(desc.fields, o.id);
      i >= 0 && desc.fields[i].oneof == Some(g) && AcceptedValue(sch, desc.fields[i], o.v)
  }

  predicate AcceptedUnknown(desc: Descriptor, mem: Member) {
    IsBody(mem) && FindField(desc.fields, mem.tag) < 0
  }

  predicate IsBody(mem: Member) {
    mem.wireType < 8 && ScanBody(mem.wireType, mem.data) == Some(|mem.data|)
  }

  /** A message while its members are being applied: required fields may be missing. */
  ghost predicate InProgress(sch: Schema, m: Message)
    decreases m, 2
  {
    && InShape(sch, m)
    && (forall i :: 0 <= i < |m.slots| ==> AcceptedSlot(sch, sch[m.desc].fields[i], m.slots[i]))
    && (forall g :: 0 <= g < |m.oneofs| ==> AcceptedOneof(sch, sch[m.desc], g, m.oneofs[g]))
    && (forall k :: 0 <= k < |m.unknown| ==> AcceptedUnknown(sch[m.desc], m.unknown[k]))
  }

  predicate RequiredSet(desc: Descriptor, slots: seq<Slot>) {
    |slots| == |desc.fields| && forall i :: 0 <= i < |slots| && desc.fields[i].rule == REQUIRED ==> IsSet(slots[i])
  }

  predicate IsSet(s: Slot) {
    s.Single? && s.v != NoMsg && s.v != Text(Null)
  }

  ghost predicate AcceptedMessage(sch: Schema, m: Message)
    decreases m, 3
  {
    InProgress(sch, m) && RequiredSet(sch[m.desc], m.slots)
  }

  // ---- merge_messages keeps them ------------------------------------------------------------------

  lemma {:induction false} MergeSlotAccepted(sch: Schema, f: FieldDescriptor, e: Slot, l: Slot)
    requires AcceptedSlot(sch, f, e) && AcceptedSlot(sch, f, l) && MergeSlot(sch, f, e, l).Some?
    ensures AcceptedSlot(sch, f, MergeSlot(sch, f, e, l).value)
    ensures f.rule == REQUIRED ==> MergeSlot(sch, f, e, l).value == l
    decreases e, 1
  {
    hide Merge, AcceptedMessage;
    if f.rule != REPEATED && f.rule != REQUIRED && f.oneof.None? && e.v.Msg? && l.v.Msg? {
      MergeAccepted(sch, e.v.m, l.v.m);
    }
  }

  lemma MergeOneofAccepted(sch: Schema, desc: Descriptor, g: nat, e: OneofState, l: OneofState)
    requires AcceptedOneof(sch, desc, g, e) && AcceptedOneof(sch, desc, g, l) && MergeOneof(desc, e, l).Some?
    ensures AcceptedOneof(sch, desc, g, MergeOneof(desc, e, l).value)
  {
    hide AcceptedValue;
  }

  lemma {:induction false} MergeAccepted(sch: Schema, e: Message, l: Message)
    requires AcceptedMessage(sch, e) && AcceptedMessage(sch, l) && e.desc == l.desc && Merge(sch, e, l).Some?
    ensures AcceptedMessage(sch, Merge(sch, e, l).value)
    decreases e, 2
  {
    hide AcceptedSlot, AcceptedOneof, AcceptedUnknown, MergeSlot, MergeSlots, MergeOneof, MergeOneofs, IsSet;
    var r, desc := Merge(sch, e, l).value, sch[l.desc];
    assert InShape(sch, r);
    assert Merge(sch, e, l) == Some(r.(unknown := l.unknown)) by { assert r.(unknown := l.unknown) == r; }
    MergeIs(sch, e, l, r);
    forall i | 0 <= i < |r.slots|
      ensures AcceptedSlot(sch, desc.fields[i], r.slots[i])
      ensures desc.fields[i].rule == REQUIRED ==> IsSet(r.slots[i])
    {
      MergeSlotAccepted(sch, desc.fields[i], e.slots[i], l.slots[i]);
    }
    forall g | 0 <= g < |r.oneofs|
      ensures AcceptedOneof(sch, desc, g, r.oneofs[g])
    {
      MergeOneofAccepted(sch, desc, g, e.oneofs[g], l.oneofs[g]);
    }
  }

  // ---- Applying a member keeps them ---------------------------------------------------------------

  lemma {:induction false} ParseValueAccepted(sch: Schema, f: FieldDescriptor, mem: Member, held: Value)
    requires ValidSchema(sch) && (f.ty == MESSAGE ==> f.sub < |sch|)
    requires AcceptedValue(sch, f, held) || held == NoMsg
    requires ParseValue(sch, f, mem, held).Some?
    ensures AcceptedValue(sch, f, ParseValue(sch, f, mem, held).value)
    ensures ParseValue(sch, f, mem, held).value != NoMsg && ParseValue(sch, f, mem, held).value != Text(Null)
    decreases |mem.data|, 0
  {
    hide Parse, Merge, AcceptedMessage, ParseScalar, ValidSchema;
    if f.ty == MESSAGE {
      ParseAccepted(sch, f.sub, Payload(mem));
      if held.Msg? { MergeAccepted(sch, held.m, Parse(sch, f.sub, Payload(mem)).value); }
    }
  }

  lemma {:induction false} ParseElementsAccepted(sch: Schema, f: FieldDescriptor, mem: Member)
    requires ValidSchema(sch) && (f.ty == MESSAGE ==> f.sub < |sch|) && (f.packed ==> IsPackable(f.ty))
    requires ParseElements(sch, f, mem).Some?
    ensures var vs := ParseElements(sch, f, mem).value;
            forall i :: 0 <= i < |vs| ==> AcceptedValue(sch, f, vs[i]) && vs[i] != NoMsg && vs[i] != Text(Null)
    decreases |mem.data|, 1
  {
    hide ParseValue, ParsePacked, AcceptedMessage, ValidSchema;
    if !IsPackedRun(f, mem) {
      ParseValueAccepted(sch, f, mem, NoMsg);
    }
  }

  lemma {:induction false} ApplySlotAccepted(sch: Schema, f: FieldDescriptor, mem: Member, s: Slot)
    requires ValidSchema(sch) && (f.ty == MESSAGE ==> f.sub < |sch|) && (f.packed ==> IsPackable(f.ty))
    requires f.oneof.None? && AcceptedSlot(sch, f, s) && ApplySlot(sch, f, mem, s).Some?
    ensures AcceptedSlot(sch, f, ApplySlot(sch, f, mem, s).value)
    decreases |mem.data|, 2
  {
    hide ParseValue, ParseElements, AcceptedValue, ValidSchema;
    if f.rule == REPEATED {
      ParseElementsAccepted(sch, f, mem);
    } else {
      ParseValueAccepted(sch, f, mem, s.v);
    }
  }

  lemma {:induction false} ApplyAccepted(sch: Schema, mem: Member, m: Message)
    requires ValidSchema(sch) && InProgress(sch, m) && IsBody(mem) && Apply(sch, mem, m).Some?
    ensures InProgress(sch, Apply(sch, mem, m).value) && Apply(sch, mem, m).value.desc == m.desc
    decreases |mem.data|, 3
  {
    hide ParseValue, ParseElements, AcceptedSlot, AcceptedValue, ApplySlot, Apply, ValidSchema;
    ApplyKeepsShape(sch, mem, m);
    var fields := sch[m.desc].fields;
    var i := FindField(fields, mem.tag);
    if i < 0 {
      UnmatchedIsKept(sch, mem, m);
    } else {
      FieldIsValid(sch, m.desc, i);
      if fields[i].oneof.None? {
        ApplyIsSlot(sch, mem, m, i);
        ApplySlotAccepted(sch, fields[i], mem, m.slots[i]);
      } else {
        ApplyIsOneof(sch, mem, m, i, fields[i].oneof.value);
        ParseValueAccepted(sch, fields[i], mem, NoMsg);
      }
    }
  }

  lemma UnmatchedIsKept(sch: Schema, mem: Member, m: Message)
    requires FindField(DescriptorOf(sch, m.desc).fields, mem.tag) < 0
    ensures Apply(sch, mem, m) == Some(m.(unknown := m.unknown + [mem]))
  {}

  lemma {:induction false} FoldAccepted(sch: Schema, ms: seq<Member>, m: Message, limit: nat)
    requires ValidSchema(sch) && InProgress(sch, m) && Fold(sch, ms, m).Some?
    requires forall k :: 0 <= k < |ms| ==> IsBody(ms[k]) && |ms[k].data| < limit
    ensures InProgress(sch, Fold(sch, ms, m).value)
    decreases limit, 4, |ms|
  {
    hide Apply, InProgress, IsBody, ValidSchema;
    if ms != [] {
      ApplyAccepted(sch, ms[0], m);
      FoldAccepted(sch, ms[1..], Apply(sch, ms[0], m).value, limit);
    }
  }

  lemma {:induction false} ScannedAreBodies(s: seq<byte>)
    requires ScanAll(s).Some?
    ensures forall k :: 0 <= k < |ScanAll(s).value| ==> IsBody(ScanAll(s).value[k]) && |ScanAll(s).value[k].data| < |s|
    decreases |s|
  {
    hide IsBody, ScanMember;
    if s != [] {
      ScannedIsBody(s);
      ScannedAreBodies(s[ScanMember(s).value.used..]);
    }
  }

  lemma ScannedIsBody(s: seq<byte>)
    requires ScanMember(s).Some?
    ensures IsBody(ScanMember(s).value.mem)
  {
    hide ScanKey, ScanBody;
    var h := ScanKey(s).value;
    BodyAlone(h.wireType, s[h.used..]);
  }

  lemma InitInProgress(sch: Schema, d: nat)
    requires ValidSchema(sch) && d < |sch|
    ensures InProgress(sch, Init(sch, d))
  {
    hide AcceptedSlot, InitSlot, ValidSchema, ValidField;
    forall i | 0 <= i < |sch[d].fields|
      ensures AcceptedSlot(sch, sch[d].fields[i], InitSlot(sch[d].fields[i]))
    {
      FieldIsValid(sch, d, i);
      InitSlotAccepted(sch, sch[d], sch[d].fields[i]);
    }
  }

  lemma InitSlotAccepted(sch: Schema, desc: Descriptor, f: FieldDescriptor)
    requires ValidField(sch, desc, f)
    ensures AcceptedSlot(sch, f, InitSlot(f))
  {}

  /** A required field has been sent, or has a default value. */
  lemma RequiredIsSet(sch: Schema, d: nat, ms: seq<Member>, i: nat)
    requires ValidSchema(sch) && d < |sch| && i < |sch[d].fields| && sch[d].fields[i].rule == REQUIRED
    requires RequiredPresent(sch[d], ms) && Fold(sch, ms, Init(sch, d)).Some?
    ensures i < |Fold(sch, ms, Init(sch, d)).value.slots| && IsSet(Fold(sch, ms, Init(sch, d)).value.slots[i])
  {
    hide Fold, OfField, FoldSlot, HasMember;
    var f, init := sch[d].fields[i], Init(sch, d);
    FieldIsValid(sch, d, i);
    assert f.oneof.None? && init.slots[i] == InitSlot(f);
    SlotFolds(sch, ms, init, i);
    FoldSlotUnpacked(sch, f, OfField(ms, f.id), InitSlot(f), false);
    WrittenHasMembers(ms, f.id);
  }

  lemma {:induction false} ParseAccepted(sch: Schema, d: nat, s: seq<byte>)
    requires ValidSchema(sch) && d < |sch| && Parse(sch, d, s).Some?
    ensures AcceptedMessage(sch, Parse(sch, d, s).value) && Parse(sch, d, s).value.desc == d
    decreases |s|, 5
  {
    hide ParseFrom, Fold, InProgress, IsBody, IsSet, ValidSchema, RequiredPresent, Init;
    var ms := ScanAll(s).value;
    ScannedAreBodies(s);
    InitInProgress(sch, d);
    ParseFromIsFold(sch, s, Init(sch, d));
    FoldAccepted(sch, ms, Init(sch, d), |s|);
    InitHasShape(sch, d);
    FoldKeepsShape(sch, ms, Init(sch, d));
    forall i | 0 <= i < |sch[d].fields| && sch[d].fields[i].rule == REQUIRED
      ensures IsSet(Parse(sch, d, s).value.slots[i])
    {
      RequiredIsSet(sch, d, ms, i);
    }
  }

  lemma InitHasShape(sch: Schema, d: nat)
    requires d < |sch|
    ensures InShape(sch, Init(sch, d)) && Init(sch, d).desc == d
  {}

  // ---- The exception ------------------------------------------------------------------------------

  ghost predicate NumberedValue(v: Value)
    decreases v, 0
  {
    v.Msg? ==> Numbered(v.m)
  }

  /** No unknown field has number 0, in the message or in any message in it. */
  ghost predicate Numbered(m: Message)
    decreases m, 1
  {
    && (forall k :: 0 <= k < |m.unknown| ==> m.unknown[k].tag >= 1)
    && (forall i :: 0 <= i < |m.slots| && m.slots[i].Single? ==> NumberedValue(m.slots[i].v))
    && (forall i, j :: 0 <= i < |m.slots| && m.slots[i].Many? && 0 <= j < |m.slots[i].vs| ==> NumberedValue(m.slots[i].vs[j]))
    && (forall g :: 0 <= g < |m.oneofs| && m.oneofs[g].Chosen? ==> NumberedValue(m.oneofs[g].v))
  }

  lemma {:induction false} ValueIsWellFormedExactly(sch: Schema, f: FieldDescriptor, v: Value)
    requires ValidSchema(sch) && AcceptedValue(sch, f, v)
    ensures WellFormedValue(sch, f, v) <==> NumberedValue(v)
    decreases v, 0
  {
    hide AcceptedMessage, WellFormed, Numbered, ValidSchema;
    if v.Msg? { MessageIsWellFormedExactly(sch, v.m); }
  }

  ghost predicate NumberedSlot(s: Slot) {
    && (s.Single? ==> NumberedValue(s.v))
    && (s.Many? ==> forall j :: 0 <= j < |s.vs| ==> NumberedValue(s.vs[j]))
  }

  lemma {:induction false} SlotIsWellFormedExactly(sch: Schema, f: FieldDescriptor, s: Slot)
    requires ValidSchema(sch) && AcceptedSlot(sch, f, s) && (f.rule == REQUIRED ==> IsSet(s))
    ensures WellFormedSlot(sch, f, s) <==> NumberedSlot(s)
    decreases s, 1
  {
    hide AcceptedValue, WellFormedValue, NumberedValue, ValidSchema;
    if s.Single? {
      if f.rule != REPEATED && f.oneof.None? { ValueIsWellFormedExactly(sch, f, s.v); }
    } else if s.Many? {
      forall j | 0 <= j < |s.vs|
        ensures WellFormedValue(sch, f, s.vs[j]) <==> NumberedValue(s.vs[j])
      {
        ValueIsWellFormedExactly(sch, f, s.vs[j]);
      }
    }
  }

  lemma {:induction false} OneofIsWellFormedExactly(sch: Schema, desc: Descriptor, g: nat, o: OneofState)
    requires ValidSchema(sch) && AcceptedOneof(sch, desc, g, o)
    ensures WellFormedOneof(sch, desc, g, o) <==> (o.Chosen? ==> NumberedValue(o.v))
    decreases o, 1
  {
    hide AcceptedValue, WellFormedValue, NumberedValue, ValidSchema;
    if o.Chosen? { ValueIsWellFormedExactly(sch, desc.fields[FindField(desc.fields, o.id)], o.v); }
  }

  lemma {:induction false} MessageIsWellFormedExactly(sch: Schema, m: Message)
    requires ValidSchema(sch) && AcceptedMessage(sch, m)
    ensures WellFormed(sch, m) <==> Numbered(m)
    decreases m, 2
  {
    hide AcceptedSlot, WellFormedSlot, NumberedValue, AcceptedOneof, WellFormedOneof, ValidSchema, IsSet, FindField, ScanBody;
    forall i | 0 <= i < |m.slots|
      ensures WellFormedSlot(sch, sch[m.desc].fields[i], m.slots[i]) <==> NumberedSlot(m.slots[i])
    {
      SlotIsWellFormedExactly(sch, sch[m.desc].fields[i], m.slots[i]);
    }
    forall g | 0 <= g < |m.oneofs|
      ensures WellFormedOneof(sch, sch[m.desc], g, m.oneofs[g]) <==> (m.oneofs[g].Chosen? ==> NumberedValue(m.oneofs[g].v))
    {
      OneofIsWellFormedExactly(sch, sch[m.desc], g, m.oneofs[g]);
    }
    assert forall k :: 0 <= k < |m.unknown| ==> AcceptedUnknown(sch[m.desc], m.unknown[k]);
  }

  /** Unpacked bytes are a message that may be packed exactly if no unknown field has number 0. */
  lemma UnpackedIsWellFormedExactly(sch: Schema, d: nat, s: seq<byte>)
    requires ValidSchema(sch) && d < |sch| && Parse(sch, d, s).Some?
    ensures WellFormed(sch, Parse(sch, d, s).value) <==> Numbered(Parse(sch, d, s).value)
  {
    hide Parse, WellFormed, Numbered, AcceptedMessage;
    ParseAccepted(sch, d, s);
    MessageIsWellFormedExactly(sch, Parse(sch, d, s).value);
  }

  // ---- Packing the exception ----------------------------------------------------------------------

  lemma OneofHasItsType(sch: Schema, desc: Descriptor, g: nat, o: OneofState)
    requires AcceptedOneof(sch, desc, g, o)
    ensures OneofOfType(desc, g, o)
  {}

  lemma AcceptedOfTypes(sch: Schema, m: Message)
    requires InProgress(sch, m)
    ensures OfTypes(sch, m)
  {
    hide OneofOfType, AcceptedOneof;
    forall i | 0 <= i < |m.slots|
      ensures SlotOfType(sch[m.desc].fields[i], m.slots[i])
    {
      assert AcceptedSlot(sch, sch[m.desc].fields[i], m.slots[i]);
    }
    forall g | 0 <= g < |m.oneofs|
      ensures OneofOfType(sch[m.desc], g, m.oneofs[g])
    {
      OneofHasItsType(sch, sch[m.desc], g, m.oneofs[g]);
    }
  }

  /** The members that are written for the fields can be scanned. */
  lemma KnownAreMembers(sch: Schema, m: Message)
    requires ValidSchema(sch) && InProgress(sch, m) && |Encode(sch, m)| <= INT_MAX
    ensures AllMembers(KnownMembers(sch, m))
  {
    hide IsMember, InProgress, OfTypes;
    var known := KnownMembers(sch, m);
    AcceptedOfTypes(sch, m);
    MembersAreSmall(Members(sch, m));
    assert forall k :: 0 <= k < |known| ==> Members(sch, m)[k] == known[k];
    assert |m.slots| == |sch[m.desc].fields| by { assert OfTypes(sch, m); SlotsOfTypes(sch, m); }
    FieldsAreMembers(sch, m, |m.slots|);
  }

  lemma SlotsOfTypes(sch: Schema, m: Message)
    requires OfTypes(sch, m)
    ensures WellShaped(sch, m)
  {}

  lemma NumberZeroIsRefused(mem: Member, rest: seq<byte>)
    requires mem.tag == 0 && mem.wireType < 8
    ensures Serialize(mem) + rest != [] && ScanAll(Serialize(mem) + rest).None?
  {
    assert Key(0, mem.wireType) == [mem.wireType];
    assert (Serialize(mem) + rest)[0] == mem.wireType;
  }

  /** Members that can be scanned, and then one with number 0. */
  lemma ScanStopsAtZero(ms: seq<Member>, k: nat)
    requires k < |ms| && AllMembers(ms[..k]) && ms[k].tag == 0 && ms[k].wireType < 8
    ensures ScanAll(SerializeAll(ms)).None?
  {
    hide Serialize, SerializeAll, IsMember, ScanAll;
    var rest := ms[k + 1..];
    assert ms == ms[..k] + ([ms[k]] + rest);
    SerializeAllConcat(ms[..k], [ms[k]] + rest);
    SerializeAllConcat([ms[k]], rest);
    SerializeOne(ms[k]);
    ScanInvertsSerialize(ms[..k]);
    NumberZeroIsRefused(ms[k], SerializeAll(rest));
    ScanAllConcat(SerializeAll(ms[..k]), SerializeAll([ms[k]] + rest));
  }

  lemma {:induction false} FirstZero(ms: seq<Member>, n: nat) returns (k: nat)
    requires n < |ms| && ms[n].tag == 0
    requires forall j :: 0 <= j < |ms| ==> ms[j].tag == 0 || IsMember(ms[j])
    ensures k <= n && ms[k].tag == 0 && AllMembers(ms[..k])
  {
    hide IsMember;
    if j :| 0 <= j < n && ms[j].tag == 0 {
      k := FirstZero(ms, j);
    } else {
      k := n;
    }
  }

  /** An unknown field with number 0 makes the bytes unreadable. */
  lemma NumberZeroFails(sch: Schema, m: Message, n: nat)
    requires ValidSchema(sch) && InProgress(sch, m) && |Encode(sch, m)| <= INT_MAX
    requires n < |m.unknown| && m.unknown[n].tag == 0
    ensures Parse(sch, m.desc, Encode(sch, m)).None?
  {
    hide ValidSchema, ScanAll, ScanBody, FindField, SerializeAll, MembersTo, AcceptedSlot, AcceptedOneof;
    KnownAreMembers(sch, m);
    var known, ms := KnownMembers(sch, m), Members(sch, m);
    assert ms[|known| + n] == m.unknown[n];
    forall j | 0 <= j < |ms|
      ensures ms[j].wireType < 8 && (ms[j].tag == 0 || IsMember(ms[j]))
    {
      if j >= |known| { assert AcceptedUnknown(sch[m.desc], m.unknown[j - |known|]); }
    }
    var k := FirstZero(ms, |known| + n);
    ScanStopsAtZero(ms, k);
  }

  /** A submessage that does not unpack makes its member fail, whatever came before. */
  lemma BadValueFails(sch: Schema, f: FieldDescriptor, v: Value, st: Message, i: nat)
    requires ValidSchema(sch) && InShape(sch, st) && i < |st.slots| && f == sch[st.desc].fields[i]
    requires f.ty == MESSAGE && v.Msg? && v.m.desc == f.sub && |Encode(sch, v.m)| <= INT_MAX
    requires Parse(sch, f.sub, Encode(sch, v.m)).None?
    ensures Apply(sch, ValueMember(sch, f, v), st).None?
  {
    hide Parse, Encode, Merge, Prefixed, ParseValue, ValueMember;
    FieldIsFound(sch, st.desc, i);
    FieldIsValid(sch, st.desc, i);
    PrefixedIsBody(f.id, Encode(sch, v.m));
    var mem := ValueMember(sch, f, v);
    MessageMember(sch, f, v);
    forall held: Value
      ensures ParseValue(sch, f, mem, held).None?
    {
      BadPayloadFails(sch, f, mem, held);
    }
    assert ParseElements(sch, f, mem).None?;
  }

  lemma MessageMember(sch: Schema, f: FieldDescriptor, v: Value)
    requires f.ty == MESSAGE && v.Msg?
    ensures ValueMember(sch, f, v) == Member(f.id, WIRE_PREFIXED, Prefixed(Encode(sch, v.m)))
  {}

  lemma BadPayloadFails(sch: Schema, f: FieldDescriptor, mem: Member, held: Value)
    requires f.ty == MESSAGE && Parse(sch, f.sub, Payload(mem)).None?
    ensures ParseValue(sch, f, mem, held).None?
  {
    hide Parse, Merge;
  }

  lemma {:induction false} FoldFailsAt(sch: Schema, ms: seq<Member>, k: nat, m: Message, i: nat, v: Value)
    requires ValidSchema(sch) && InShape(sch, m) && i < |m.slots| && k < |ms|
    requires var f := sch[m.desc].fields[i];
             && f.ty == MESSAGE && v.Msg? && v.m.desc == f.sub && |Encode(sch, v.m)| <= INT_MAX
             && Parse(sch, f.sub, Encode(sch, v.m)).None? && ms[k] == ValueMember(sch, f, v)
    ensures Fold(sch, ms, m).None?
    decreases k
  {
    hide Apply, Parse, Encode, ValueMember, ValidSchema;
    if k == 0 {
      BadValueFails(sch, sch[m.desc].fields[i], v, m, i);
    } else if Apply(sch, ms[0], m).Some? {
      ApplyKeepsShape(sch, ms[0], m);
      FoldFailsAt(sch, ms[1..], k - 1, Apply(sch, ms[0], m).value, i, v);
    }
  }

  lemma {:induction false} FieldIsWritten(sch: Schema, m: Message, i: nat, j: nat, n: nat) returns (k: nat)
    requires i < n <= |DescriptorOf(sch, m.desc).fields| && j < |FieldMembers(sch, m, i)|
    ensures k < |MembersTo(sch, m, n)| && MembersTo(sch, m, n)[k] == FieldMembers(sch, m, i)[j]
    decreases n
  {
    hide FieldMembers;
    if i == n - 1 {
      k := |MembersTo(sch, m, n - 1)| + j;
    } else {
      k := FieldIsWritten(sch, m, i, j, n - 1);
    }
  }

  lemma KnownComeFirst(sch: Schema, m: Message, k: nat)
    requires k < |MembersTo(sch, m, |DescriptorOf(sch, m.desc).fields|)|
    ensures k < |KnownMembers(sch, m)| && k < |Members(sch, m)|
    ensures Members(sch, m)[k] == KnownMembers(sch, m)[k] == MembersTo(sch, m, |DescriptorOf(sch, m.desc).fields|)[k]
  {
    hide MembersTo;
    var known := KnownMembers(sch, m);
    assert Members(sch, m) == known + m.unknown;
  }

  /** Field `i` writes the submessage `v` as its member number `j`. */
  ghost predicate Writes(sch: Schema, m: Message, i: nat, j: nat, v: Value) {
    && i < |DescriptorOf(sch, m.desc).fields| && j < |FieldMembers(sch, m, i)|
    && var f := DescriptorOf(sch, m.desc).fields[i];
       f.ty == MESSAGE && v.Msg? && v.m.desc == f.sub && FieldMembers(sch, m, i)[j] == ValueMember(sch, f, v)
  }

  lemma PartIsSmall(sch: Schema, m: Message, i: nat, j: nat, v: Value)
    requires Writes(sch, m, i, j, v) && |Encode(sch, m)| <= INT_MAX
    ensures |Encode(sch, v.m)| <= INT_MAX
  {
    hide FieldMembers, SerializeAll, ValueMember, MembersTo;
    var f := DescriptorOf(sch, m.desc).fields[i];
    MembersAreSmall(Members(sch, m));
    var k := FieldIsWritten(sch, m, i, j, |DescriptorOf(sch, m.desc).fields|);
    MessageMember(sch, f, v);
    KnownComeFirst(sch, m, k);
    assert Members(sch, m)[k].data == Prefixed(Encode(sch, v.m));
    assert Encode(sch, m) == SerializeAll(Members(sch, m));
  }

  /** A message that writes a submessage which does not unpack does not unpack. */
  lemma BadPartFails(sch: Schema, m: Message, i: nat, j: nat, v: Value)
    requires ValidSchema(sch) && InProgress(sch, m) && Writes(sch, m, i, j, v) && |Encode(sch, m)| <= INT_MAX
    requires forall n :: 0 <= n < |m.unknown| ==> m.unknown[n].tag >= 1
    requires Parse(sch, v.m.desc, Encode(sch, v.m)).None?
    ensures Parse(sch, m.desc, Encode(sch, m)).None?
  {
    hide FieldMembers, SerializeAll, ValueMember, MembersTo, Parse, Fold, ValidSchema, RequiredPresent, AcceptedSlot, AcceptedOneof, FindField, ScanBody;
    var ms := Members(sch, m);
    KnownAreMembers(sch, m);
    PartIsSmall(sch, m, i, j, v);
    assert forall n :: 0 <= n < |m.unknown| ==> AcceptedUnknown(sch[m.desc], m.unknown[n]);
    assert AllMembers(ms);
    var k := FieldIsWritten(sch, m, i, j, |sch[m.desc].fields|);
    KnownComeFirst(sch, m, k);
    InitHasShape(sch, m.desc);
    FoldFailsAt(sch, ms, k, Init(sch, m.desc), i, v);
    ParseSerialized(sch, m.desc, ms);
  }

  lemma SingleIsWritten(sch: Schema, m: Message, i: nat)
    requires ValidSchema(sch) && InProgress(sch, m) && i < |m.slots| && m.slots[i].Single? && m.slots[i].v.Msg?
    ensures Writes(sch, m, i, 0, m.slots[i].v) && AcceptedMessage(sch, m.slots[i].v.m)
  {
    hide AcceptedMessage, ValueMember;
    FieldIsValid(sch, m.desc, i);
    var f, s := sch[m.desc].fields[i], m.slots[i];
    assert AcceptedSlot(sch, f, s);
    assert AcceptedValue(sch, f, s.v);
    assert FieldMembers(sch, m, i) == SlotMembers(sch, f, s) && IsPresent(f, s);
    assert SlotMembers(sch, f, s) == [ValueMember(sch, f, s.v)];
  }

  lemma ElementIsWritten(sch: Schema, m: Message, i: nat, j: nat)
    requires ValidSchema(sch) && InProgress(sch, m) && i < |m.slots| && m.slots[i].Many?
    requires j < |m.slots[i].vs| && m.slots[i].vs[j].Msg?
    ensures Writes(sch, m, i, j, m.slots[i].vs[j]) && AcceptedMessage(sch, m.slots[i].vs[j].m)
  {
    hide AcceptedMessage, ValueMember;
    FieldIsValid(sch, m.desc, i);
    var f := sch[m.desc].fields[i];
    assert AcceptedSlot(sch, f, m.slots[i]);
    assert AcceptedValue(sch, f, m.slots[i].vs[j]);
    ElementAt(sch, f, m.slots[i].vs, j);
    assert FieldMembers(sch, m, i) == SlotMembers(sch, f, m.slots[i]) == ElementMembers(sch, f, m.slots[i].vs);
  }

  lemma {:induction false} ElementAt(sch: Schema, f: FieldDescriptor, vs: seq<Value>, j: nat)
    requires j < |vs|
    ensures ElementMembers(sch, f, vs)[j] == ValueMember(sch, f, vs[j])
  {
    hide ValueMember;
    if j < |vs| - 1 { ElementAt(sch, f, vs[..|vs| - 1], j); }
  }

  lemma OneofIsWritten(sch: Schema, m: Message, g: nat) returns (i: nat)
    requires ValidSchema(sch) && InProgress(sch, m) && g < |m.oneofs| && m.oneofs[g].Chosen? && m.oneofs[g].v.Msg?
    ensures Writes(sch, m, i, 0, m.oneofs[g].v) && AcceptedMessage(sch, m.oneofs[g].v.m)
  {
    hide AcceptedMessage, ValueMember;
    assert AcceptedOneof(sch, sch[m.desc], g, m.oneofs[g]);
    i := FindField(sch[m.desc].fields, m.oneofs[g].id);
    FieldIsValid(sch, m.desc, i);
    var f, o := sch[m.desc].fields[i], m.oneofs[g];
    assert AcceptedValue(sch, f, o.v);
    assert FieldMembers(sch, m, i) == OneofMembers(sch, f, o) && IsSelected(f, o);
    assert OneofMembers(sch, f, o) == [ValueMember(sch, f, o.v)];
  }

  /** Packing a message with a field number 0 in it gives bytes that cannot be unpacked. */
  lemma {:induction false} UnnumberedFails(sch: Schema, m: Message)
    requires ValidSchema(sch) && AcceptedMessage(sch, m) && !Numbered(m) && |Encode(sch, m)| <= INT_MAX
    ensures Parse(sch, m.desc, Encode(sch, m)).None?
    decreases m
  {
    hide ValidSchema, InProgress, Parse, Encode, RequiredSet, Writes;
    if n :| 0 <= n < |m.unknown| && m.unknown[n].tag == 0 {
      NumberZeroFails(sch, m, n);
    } else if i :| 0 <= i < |m.slots| && m.slots[i].Single? && !NumberedValue(m.slots[i].v) {
      SingleIsWritten(sch, m, i);
      PartIsSmall(sch, m, i, 0, m.slots[i].v);
      UnnumberedFails(sch, m.slots[i].v.m);
      BadPartFails(sch, m, i, 0, m.slots[i].v);
    } else if i, j :| 0 <= i < |m.slots| && m.slots[i].Many? && 0 <= j < |m.slots[i].vs| && !NumberedValue(m.slots[i].vs[j]) {
      ElementIsWritten(sch, m, i, j);
      PartIsSmall(sch, m, i, j, m.slots[i].vs[j]);
      UnnumberedFails(sch, m.slots[i].vs[j].m);
      BadPartFails(sch, m, i, j, m.slots[i].vs[j]);
    } else {
      var g :| 0 <= g < |m.oneofs| && m.oneofs[g].Chosen? && !NumberedValue(m.oneofs[g].v);
      var i := OneofIsWritten(sch, m, g);
      PartIsSmall(sch, m, i, 0, m.oneofs[g].v);
      UnnumberedFails(sch, m.oneofs[g].v.m);
      BadPartFails(sch, m, i, 0, m.oneofs[g].v);
    }
  }

  /**
   Whatever was unpacked, packing and unpacking it again gives its normal form exactly if no unknown
   field has number 0 and the message does not have too many members.
   */
  lemma RepacksExactly(sch: Schema, d: nat, s: seq<byte>)
    requires ValidSchema(sch) && d < |sch| && Parse(sch, d, s).Some?
    requires |Encode(sch, Parse(sch, d, s).value)| <= INT_MAX
    ensures var m := Parse(sch, d, s).value;
            && m.desc == d
            && Parse(sch, d, Encode(sch, m)) == if Numbered(m) && Fits(sch, m) then Some(Normalize(sch, m)) else None
  {
    hide Parse, WellFormed, Numbered, AcceptedMessage, Encode, Normalize, Fits;
    var m := Parse(sch, d, s).value;
    ParseAccepted(sch, d, s);
    UnpackedIsWellFormedExactly(sch, d, s);
    if Numbered(m) { RoundTrips(sch, m); } else { UnnumberedFails(sch, m); }
  }

  const NAMELESS := Member(0, WIRE_VARINT, [5])
  const NO_FIELDS: Schema := [Descriptor([], 0)]

  lemma NamelessScans()
    ensures ScanAll([0x80, 0, 5]) == Some([NAMELESS])
  {
    var s: seq<byte> := [0x80, 0, 5];
    assert s[1..] == [0, 5] && s[..2] == [0x80, 0];
    assert Groups([0x80, 0]) == 0 by { assert [0x80, 0][1..] == [0]; assert [0][1..] == []; }
    assert ScanKey(s) == Some(Header(0, 0, 2));
    assert s[2..] == [5];
    assert ScanMember(s) == Some(Scanned(NAMELESS, 3)) by { assert [5][..1] == [5]; }
    assert s[3..] == [];
    assert ScanAll([]) == Some([]);
    assert [NAMELESS] + [] == [NAMELESS];
  }

  /** An unknown field with an overlong key of number 0 is unpacked, and cannot be packed. */
  lemma NamelessIsNotRepacked()
    ensures ValidSchema(NO_FIELDS)
    ensures Parse(NO_FIELDS, 0, [0x80, 0, 5]) == Some(Message(0, [], [], [NAMELESS]))
    ensures Parse(NO_FIELDS, 0, Encode(NO_FIELDS, Message(0, [], [], [NAMELESS]))).None?
  {
    hide ScanAll, Parse, Encode;
    var s: seq<byte> := [0x80, 0, 5];
    NamelessScans();
    NamelessParses(s);
    var m := Message(0, [], [], [NAMELESS]);
    assert !Numbered(m) by { assert m.unknown[0].tag == 0; }
    NamelessIsShort(m);
    RepacksExactly(NO_FIELDS, 0, s);
  }

  lemma NamelessParses(s: seq<byte>)
    requires ScanAll(s) == Some([NAMELESS])
    ensures Parse(NO_FIELDS, 0, s) == Some(Message(0, [], [], [NAMELESS]))
  {
    hide ScanAll, ParseFrom, Apply;
    var init := Init(NO_FIELDS, 0);
    ParseFromIsFold(NO_FIELDS, s, init);
    FoldOne(NO_FIELDS, NAMELESS, init);
    UnmatchedIsKept(NO_FIELDS, NAMELESS, init);
    assert init == Message(0, [], [], []);
    assert [] + [NAMELESS] == [NAMELESS];
  }

  lemma NamelessIsShort(m: Message)
    requires m == Message(0, [], [], [NAMELESS])
    ensures |Encode(NO_FIELDS, m)| == 2
  {
    hide Serialize;
    SerializeOne(NAMELESS);
    assert KnownMembers(NO_FIELDS, m) == [] && [] + [NAMELESS] == [NAMELESS];
    assert Members(NO_FIELDS, m) == [NAMELESS];
    ShortMember();
  }

  lemma ShortMember()
    ensures Serialize(NAMELESS) == [0, 5]
  {}
}
