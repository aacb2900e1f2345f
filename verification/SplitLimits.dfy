/**
 Inputs for what Concatenation.dfy says can go wrong: one for each kind of field that does not agree,
 one for merging that cannot be regrouped, and one for a concatenation that does not unpack.
 */
module SplitLimits {
  import opened Bytes
  import opened Varints
  import opened Schema
  import opened Wire
  import opened Scan
  import opened Parsing
  import opened PackedLaw
  import opened RoundTrip
  import opened MergeLaw
  import opened MergeLimits
  import opened ByField
  import opened Accepted
  import opened Regrouping
  import opened Concatenation

  const WRAPPER := FieldDescriptor(1, OPTIONAL, MESSAGE, false, None, 1, false, 0, [])
  const COUNT := FieldDescriptor(1, NONE, UINT32, false, None, 0, false, 0, [])
  const DATA := FieldDescriptor(1, OPTIONAL, BYTES, false, None, 0, false, 0, [])
  const NEEDED := FieldDescriptor(1, REQUIRED, MESSAGE, false, None, 2, false, 0, [])
  const AMOUNT := FieldDescriptor(1, OPTIONAL, UINT32, false, None, 0, false, 0, [])

  /** A message with one submessage, whose only field is `f`; the third type is for a field of message type. */
  function Holding(f: FieldDescriptor): Schema {
    [Descriptor([WRAPPER], 0), Descriptor([f], 0), Descriptor([AMOUNT], 0)]
  }

  lemma HoldingIsValid(f: FieldDescriptor)
    requires f == COUNT || f == DATA || f == NEEDED
    ensures OneofFree(Holding(f))
  {
    var sch := Holding(f);
    assert ValidField(sch, sch[0], WRAPPER) && ValidField(sch, sch[1], f) && ValidField(sch, sch[2], AMOUNT);
  }

  lemma OneIsPresent(desc: Descriptor, mem: Member)
    requires |desc.fields| == 1 && mem.tag == desc.fields[0].id
    ensures RequiredPresent(desc, [mem])
  {
    assert [mem][0].tag == mem.tag;
  }

  /** A message of one member, whose type has one field. */
  lemma OneMember(sch: Schema, d: nat, mem: Member)
    requires d < |sch| && |sch[d].fields| == 1 && mem.tag == sch[d].fields[0].id && IsMember(mem)
    ensures ScanAll(Serialize(mem)) == Some([mem])
    ensures Parse(sch, d, Serialize(mem)) == Apply(sch, mem, Init(sch, d))
  {
    hide Parse, Apply, Serialize, SerializeAll, ScanAll, IsMember, Init, RequiredPresent, Fold;
    SerializeOne(mem);
    OneIsPresent(sch[d], mem);
    ScanInvertsSerialize([mem]);
    ParseSerialized(sch, d, [mem]);
    FoldOne(sch, mem, Init(sch, d));
  }

  lemma NoMember(sch: Schema, d: nat)
    requires d < |sch| && forall i :: 0 <= i < |sch[d].fields| ==> sch[d].fields[i].rule != REQUIRED
    ensures ScanAll([]) == Some([])
    ensures Parse(sch, d, []) == Some(Init(sch, d))
  {
    hide Init;
    assert ScanAll([]) == Some([]);
  }

  /** Two parts of a submessage that unpack, but do not agree on its field, must not be sent apart. */
  lemma MustNotSplit(f: FieldDescriptor, a: seq<byte>, ma: seq<Member>, b: seq<byte>, mb: seq<Member>)
    requires f == COUNT || f == DATA || f == NEEDED
    requires ScanAll(a) == Some(ma) && ScanAll(b) == Some(mb) && |ma| + |mb| <= 2 && |a + b| <= 100
    requires var sch := Holding(f);
             && Parse(sch, 1, a).Some? && Parse(sch, 1, b).Some?
             && InShape(sch, Parse(sch, 1, a).value) && InShape(sch, Parse(sch, 1, b).value)
             && Parse(sch, 1, a).value.desc == Parse(sch, 1, b).value.desc == 1
             && !Agrees(sch, f, Parse(sch, 1, a).value.slots[0], Parse(sch, 1, b).value.slots[0], HasMember(mb, 1), SentBy(sch, f, mb))
    ensures Parse(Holding(f), 0, SerializeAll([Sub(WRAPPER, a), Sub(WRAPPER, b)]))
         != Parse(Holding(f), 0, SerializeAll([Sub(WRAPPER, a + b)]))
  {
    hide Parse, Agrees, HasMember, Sub, SentBy, ScanAll, InitSlot;
    var sch := Holding(f);
    HoldingIsValid(f);
    ConcatenationUnpacksWithoutOneofs(sch, 1, a, b);
    SplitSubmessageExactly(sch, 0, 0, a, b);
  }

  // The messages of one member that are sent below.
  const FIVE := Member(1, WIRE_VARINT, [5])
  const SEVEN := Member(1, WIRE_PREFIXED, [1, 7])
  const EMPTY := Member(1, WIRE_PREFIXED, [0])

  lemma FiveIsMember()
    ensures IsMember(FIVE) && Serialize(FIVE) == [8, 5] && FIVE.tag == 1
  {}

  lemma FiveApplies(sch: Schema, d: nat, f: FieldDescriptor)
    requires d < |sch| && sch[d].fields == [f] && sch[d].nOneofs == 0 && (f == COUNT || f == AMOUNT)
    ensures Apply(sch, FIVE, Init(sch, d)) == Some(Message(d, [Single(f == AMOUNT, Word(5))], [], []))
  {
    hide ParseUint32, FindField;
    assert ParseScalar(UINT32, WIRE_VARINT, [5]) == Some(5) by { assert ParseUint32([5]) == 5 by { FiveIsFive(); } }
    assert ParseValue(sch, f, FIVE, Word(0)) == Some(Word(5));
    assert FindField(sch[d].fields, 1) == 0 by { FirstIsFound(f); }
    assert Init(sch, d).slots == [Single(false, Word(0))];
    assert Init(sch, d).slots[0 := Single(f == AMOUNT, Word(5))] == [Single(f == AMOUNT, Word(5))];
  }

  lemma FiveIsFive()
    ensures ParseUint32([5]) == 5
  {}

  lemma FirstIsFound(f: FieldDescriptor)
    ensures FindField([f], f.id) == 0
  {}

  lemma FiveScans(sch: Schema, d: nat, f: FieldDescriptor)
    requires d < |sch| && sch[d].fields == [f] && f.id == 1
    ensures ScanAll([8, 5]) == Some([FIVE])
    ensures Parse(sch, d, [8, 5]) == Apply(sch, FIVE, Init(sch, d))
  {
    hide Parse, Apply, Serialize, IsMember, Init, ScanAll;
    FiveIsMember();
    OneMember(sch, d, FIVE);
  }

  /** An unlabelled scalar that the second part does not send is lost. */
  lemma UnlabelledIsLost()
    ensures Parse(Holding(COUNT), 0, SerializeAll([Sub(WRAPPER, [8, 5]), Sub(WRAPPER, [])]))
         != Parse(Holding(COUNT), 0, SerializeAll([Sub(WRAPPER, [8, 5] + [])]))
  {
    hide Parse, ScanAll, SerializeAll, Sub, Apply;
    var sch := Holding(COUNT);
    FiveScans(sch, 1, COUNT);
    FiveApplies(sch, 1, COUNT);
    NoMember(sch, 1);
    MustNotSplit(COUNT, [8, 5], [FIVE], [], []);
  }

  lemma BytesApply(mem: Member, bytes: seq<byte>)
    requires mem.tag == 1 && mem.wireType == WIRE_PREFIXED && mem.data != [] && Payload(mem) == bytes
    ensures Apply(Holding(DATA), mem, Init(Holding(DATA), 1))
         == Some(Message(1, [Single(true, Blob(if bytes == [] then Null else Own(bytes)))], [], []))
  {
    hide FindField;
    var sch, init := Holding(DATA), Init(Holding(DATA), 1);
    assert FindField(sch[1].fields, 1) == 0 by { FirstIsFound(DATA); }
    var v := Blob(if bytes == [] then Null else Own(bytes));
    assert ParseValue(sch, DATA, mem, Blob(Null)) == Some(v);
    assert init.slots == [Single(false, Blob(Null))];
    assert init.slots[0 := Single(true, v)] == [Single(true, v)];
  }

  lemma SevenIsMember()
    ensures IsMember(SEVEN) && Serialize(SEVEN) == [10, 1, 7] && Payload(SEVEN) == [7]
  {
    assert Groups([1]) == 1 by { assert [1][1..] == []; }
    assert [1, 7][..1] == [1];
  }

  lemma EmptyIsMember()
    ensures IsMember(EMPTY) && Serialize(EMPTY) == [10, 0] && Payload(EMPTY) == []
  {
    assert Groups([0]) == 0 by { assert [0][1..] == []; }
    assert [0][..1] == [0];
  }

  /** Empty bytes in the second part do not replace those of the first. */
  lemma EmptyBytesAreLost()
    ensures Parse(Holding(DATA), 0, SerializeAll([Sub(WRAPPER, [10, 1, 7]), Sub(WRAPPER, [10, 0])]))
         != Parse(Holding(DATA), 0, SerializeAll([Sub(WRAPPER, [10, 1, 7] + [10, 0])]))
  {
    hide Parse, ScanAll, SerializeAll, Sub, Apply, Serialize, IsMember, Init, Payload;
    var sch := Holding(DATA);
    SevenIsMember();
    EmptyIsMember();
    BytesApply(SEVEN, [7]);
    BytesApply(EMPTY, []);
    OneMember(sch, 1, SEVEN);
    OneMember(sch, 1, EMPTY);
    assert HasMember([EMPTY], 1) by { assert [EMPTY][0].tag == 1; }
    MustNotSplit(DATA, [10, 1, 7], [SEVEN], [10, 0], [EMPTY]);
  }

  const FIVE_INSIDE := Member(1, WIRE_PREFIXED, [2, 8, 5])

  lemma FiveInsideIsMember()
    ensures IsMember(FIVE_INSIDE) && Serialize(FIVE_INSIDE) == [10, 2, 8, 5] && Payload(FIVE_INSIDE) == [8, 5]
  {
    assert Groups([2]) == 2 by { assert [2][1..] == []; }
    assert [2, 8, 5][..1] == [2];
  }

  lemma NeededApplies(mem: Member, payload: seq<byte>, m: Message)
    requires mem.tag == 1 && mem.wireType == WIRE_PREFIXED && mem.data != [] && Payload(mem) == payload
    requires Parse(Holding(NEEDED), 2, payload) == Some(m)
    ensures Apply(Holding(NEEDED), mem, Init(Holding(NEEDED), 1)) == Some(Message(1, [Single(false, Msg(m))], [], []))
  {
    hide FindField, Parse;
    var sch, init := Holding(NEEDED), Init(Holding(NEEDED), 1);
    assert FindField(sch[1].fields, 1) == 0 by { FirstIsFound(NEEDED); }
    assert ParseValue(sch, NEEDED, mem, NoMsg) == Some(Msg(m));
    assert init.slots == [Single(false, NoMsg)];
    assert init.slots[0 := Single(false, Msg(m))] == [Single(false, Msg(m))];
  }

  /** A required submessage of the second part replaces that of the first; it is not completed from it. */
  lemma RequiredIsReplaced()
    ensures Parse(Holding(NEEDED), 0, SerializeAll([Sub(WRAPPER, [10, 2, 8, 5]), Sub(WRAPPER, [10, 0])]))
         != Parse(Holding(NEEDED), 0, SerializeAll([Sub(WRAPPER, [10, 2, 8, 5] + [10, 0])]))
  {
    hide Parse, ScanAll, SerializeAll, Sub, Apply, Serialize, IsMember, Payload, AddsNothing, SentBy;
    var sch := Holding(NEEDED);
    FiveInsideIsMember();
    EmptyIsMember();
    FiveScans(sch, 2, AMOUNT);
    FiveApplies(sch, 2, AMOUNT);
    NoMember(sch, 2);
    var five, none := Message(2, [Single(true, Word(5))], [], []), Init(sch, 2);
    NeededApplies(FIVE_INSIDE, [8, 5], five);
    NeededApplies(EMPTY, [], none);
    OneMember(sch, 1, FIVE_INSIDE);
    OneMember(sch, 1, EMPTY);
    FiveIsKept(sch, SentBy(sch, NEEDED, [EMPTY]));
    assert HasMember([EMPTY], 1) by { assert [EMPTY][0].tag == 1; }
    MustNotSplit(NEEDED, [10, 2, 8, 5], [FIVE_INSIDE], [10, 0], [EMPTY]);
  }

  lemma FiveIsKept(sch: Schema, sent: seq<Message>)
    requires |sch| == 3 && sch[2] == Descriptor([AMOUNT], 0)
    ensures !AddsNothing(sch, Message(2, [Single(true, Word(5))], [], []), Init(sch, 2), sent)
  {
    var e, l := Message(2, [Single(true, Word(5))], [], []), Init(sch, 2);
    assert !SlotAddsNothing(sch, AMOUNT, e.slots[0], SlotOf(l, 0), SubsOf(SlotsAt(sent, 0)));
  }

  // ---- Merging cannot be regrouped when there are oneofs ----------------------------------------

  const EITHER: Schema := [Descriptor([FieldDescriptor(1, OPTIONAL, BYTES, false, Some(0), 0, false, 0, [])], 1)]

  function Holds(o: OneofState): Message { Message(0, [Shared], [o], []) }

  lemma HoldsMerge(e: OneofState, l: OneofState)
    ensures Merge(EITHER, Holds(e), Holds(l))
         == match MergeOneof(EITHER[0], e, l) case None => None case Some(o) => Some(Holds(o))
  {
    hide MergeOneof, MergeSlots, MergeOneofs;
    var desc := EITHER[0];
    MergeSlotsAre(EITHER, desc.fields, [Shared], [Shared], [Shared]);
    assert MergeSlot(EITHER, desc.fields[0], Shared, Shared) == Some(Shared);
    if MergeOneofs(desc, [e], [l]).Some? {
      var r := MergeOneofs(desc, [e], [l]).value;
      MergeOneofsAre(desc, [e], [l], r);
      assert MergeOneof(desc, [e][0], [l][0]) == Some(r[0]) && r == [r[0]];
    } else if MergeOneof(desc, e, l).Some? {
      MergeOneofsAre(desc, [e], [l], [MergeOneof(desc, e, l).value]);
    }
  }

  lemma HoldsIsAccepted(o: OneofState)
    requires o.Unset? || (o.id == 1 && o.v.Blob?)
    ensures AcceptedMessage(EITHER, Holds(o))
  {
    assert FindField(EITHER[0].fields, 1) == 0;
    assert AcceptedOneof(EITHER, EITHER[0], 0, o);
    assert AcceptedSlot(EITHER, EITHER[0].fields[0], Shared);
    assert InProgress(EITHER, Holds(o));
  }

  /** Bytes, then empty bytes, then nothing: these do not regroup, and it matters which two are merged first. */
  lemma MergeNotAssociative()
    ensures var x, y, z := Holds(Chosen(1, Blob(Own([7])))), Holds(Chosen(1, Blob(Null))), Holds(Unset);
            && ValidSchema(EITHER)
            && !Regroups(EITHER, x, [y, z])
            && Merge(EITHER, x, y).Some? && Merge(EITHER, y, z).Some?
            && Merge(EITHER, Merge(EITHER, x, y).value, z) != Merge(EITHER, x, Merge(EITHER, y, z).value)
  {
    hide Merge, AcceptedMessage, Regroups, ValidSchema, MergeOneof, Holds;
    var a, b := Chosen(1, Blob(Own([7]))), Chosen(1, Blob(Null));
    EitherIsValid();
    HoldsIsAccepted(a);
    HoldsIsAccepted(b);
    HoldsIsAccepted(Unset);
    HoldsMerge(a, b);
    HoldsMerge(b, Unset);
    MergedOneofs(a, b);
    NotRegrouped(a, b);
    SameType(a, b);
    MergeAssociativeExactly(EITHER, Holds(a), Holds(b), Holds(Unset));
  }

  lemma EitherIsValid()
    ensures ValidSchema(EITHER)
  {
    assert HasOneofField(EITHER[0].fields, 0) by { assert EITHER[0].fields[0].oneof == Some(0); }
  }

  lemma SameType(a: OneofState, b: OneofState)
    ensures Holds(a).desc == Holds(b).desc == Holds(Unset).desc
  {}

  lemma MergedOneofs(a: OneofState, b: OneofState)
    requires a == Chosen(1, Blob(Own([7]))) && b == Chosen(1, Blob(Null))
    ensures MergeOneof(EITHER[0], a, b) == Some(b) && MergeOneof(EITHER[0], b, Unset) == Some(Unset)
  {
    assert FindField(EITHER[0].fields, 1) == 0;
  }

  lemma NotRegrouped(a: OneofState, b: OneofState)
    requires a == Chosen(1, Blob(Own([7]))) && b == Chosen(1, Blob(Null))
    ensures !Regroups(EITHER, Holds(a), [Holds(b), Holds(Unset)])
  {
    assert FindField(EITHER[0].fields, 1) == 0;
    assert !OneofRegroups(EITHER[0], a, b, Unset);
    assert OneofOf([Holds(b), Holds(Unset)][0], 0) == b && OneofOf([Holds(b), Holds(Unset)][1], 0) == Unset;
    assert Holds(a).oneofs[0] == a;
  }

  // ---- Two inputs that unpack, but not together ---------------------------------------------------

  const CHOICE := FieldDescriptor(1, OPTIONAL, INT32, false, Some(0), 0, false, 0, [])
  const WRAPPED: Schema := [Descriptor([WRAPPER], 0), Descriptor([CHOICE], 1)]

  lemma WrappedIsValid()
    ensures ValidSchema(WRAPPED)
  {
    assert HasOneofField(WRAPPED[1].fields, 0) by { assert WRAPPED[1].fields[0].oneof == Some(0); }
  }

  lemma EmptyApplies()
    requires Payload(EMPTY) == []
    ensures Apply(WRAPPED, EMPTY, Init(WRAPPED, 0)) == Some(Message(0, [Single(false, Msg(Init(WRAPPED, 1)))], [], []))
    ensures SentBy(WRAPPED, WRAPPER, [EMPTY]) == [Init(WRAPPED, 1)]
  {
    hide FindField, Parse;
    var init, m := Init(WRAPPED, 0), Init(WRAPPED, 1);
    NoMember(WRAPPED, 1);
    assert FindField(WRAPPED[0].fields, 1) == 0 by { FirstIsFound(WRAPPER); }
    assert ParseValue(WRAPPED, WRAPPER, EMPTY, NoMsg) == Some(Msg(m));
    assert init.slots == [Single(false, NoMsg)];
    assert init.slots[0 := Single(false, Msg(m))] == [Single(false, Msg(m))];
    assert OfField([EMPTY], 1) == [EMPTY] by { assert [EMPTY][1..] == [] && OfField([], 1) == []; }
    assert [EMPTY][1..] == [] && Sent(WRAPPED, WRAPPER, []) == [];
    assert [m] + [] == [m];
  }

  lemma UnsetIsNotCovered()
    ensures !ListCovered(WRAPPED, Init(WRAPPED, 1), [Init(WRAPPED, 1)])
  {
    assert Init(WRAPPED, 1).oneofs[0] == Unset;
  }

  /**
   A submessage with a oneof, sent empty twice: each message unpacks, their concatenation does not,
   although the schema has neither required fields nor unlabelled ones.
   */
  lemma EmptyTwiceFails()
    ensures ValidSchema(WRAPPED)
    ensures Parse(WRAPPED, 0, [0x0A, 0]).Some?
    ensures Parse(WRAPPED, 0, [0x0A, 0] + [0x0A, 0]).None?
  {
    hide Apply, Parse, ScanAll, Serialize, Payload, IsMember, ListCovered, SentBy, Init, ValidSchema;
    WrappedIsValid();
    EmptyIsMember();
    EmptyApplies();
    OneMember(WRAPPED, 0, EMPTY);
    UnsetIsNotCovered();
    ConcatenationUnpacks(WRAPPED, 0, [0x0A, 0], [0x0A, 0]);
  }
}
