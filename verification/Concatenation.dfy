/**
 Unpacking a concatenation, for any schema: when it succeeds, which fields of the outcome are those of
 merge_messages, and where the two differ.
 */
module Concatenation {
  import opened Bytes
  import opened Schema
  import opened Wire
  import opened Scan
  import opened Parsing
  import opened PackedLaw
  import opened RoundTrip
  import opened MergeLaw
  import MergeLimits
  import opened ByField
  import opened Accepted
  import opened Regrouping

  // ---- The submessages of one field ---------------------------------------------------------------

  predicate IsSubmessage(f: FieldDescriptor) {
    f.rule != REPEATED && f.oneof.None? && f.ty == MESSAGE
  }

  /** The submessages that the members of a field send. */
  function Sent(sch: Schema, f: FieldDescriptor, own: seq<Member>): seq<Message> {
    if own == [] then []
    else
      (match Parse(sch, f.sub, Payload(own[0])) case None => [] case Some(m) => [m]) + Sent(sch, f, own[1..])
  }

  /** The submessages that the members `ms` send in field `f`, if it is one for submessages. */
  function SentBy(sch: Schema, f: FieldDescriptor, ms: seq<Member>): seq<Message> {
    if IsSubmessage(f) then Sent(sch, f, OfField(ms, f.id)) else []
  }

  predicate Reads(sch: Schema, f: FieldDescriptor, mem: Member) {
    mem.wireType == WIRE_PREFIXED && mem.data != [] && Parse(sch, f.sub, Payload(mem)).Some?
  }

  ghost predicate AllRead(sch: Schema, f: FieldDescriptor, own: seq<Member>) {
    forall k :: 0 <= k < |own| ==> Reads(sch, f, own[k])
  }

  lemma SubReads(sch: Schema, f: FieldDescriptor, mem: Member, s: Slot)
    requires IsSubmessage(f) && NestedSlot(s)
    ensures !Reads(sch, f, mem) ==> ApplySlot(sch, f, mem, s).None?
    ensures Reads(sch, f, mem) ==>
              var q := Parse(sch, f.sub, Payload(mem)).value;
              ApplySlot(sch, f, mem, s) == SubResult(sch, s, [q])
  {
    hide Parse, Merge;
    if Reads(sch, f, mem) {
      var q := Parse(sch, f.sub, Payload(mem)).value;
      assert [q][1..] == [] && MergeList(sch, q, []) == Some(q);
      if HoldsMsg(s) { MergeOne(sch, s.v.m, q); }
    }
  }

  /** Members of a submessage field are merged one after the other into what the slot holds. */
  lemma {:induction false} SubFolds(sch: Schema, f: FieldDescriptor, own: seq<Member>, s: Slot)
    requires IsSubmessage(f) && NestedSlot(s)
    ensures FoldSlot(sch, f, own, s) == if AllRead(sch, f, own) then SubResult(sch, s, Sent(sch, f, own)) else None
    decreases |own|
  {
    hide Merge, ApplySlot, Reads, SubResult;
    if own == [] {
      NoSubs(sch, s);
    } else {
      SubReads(sch, f, own[0], s);
      if Reads(sch, f, own[0]) {
        ReadsIs(sch, f, own[0]);
        var q, rest := Parse(sch, f.sub, Payload(own[0])).value, Sent(sch, f, own[1..]);
        assert Sent(sch, f, own) == [q] + rest;
        SubResultStep(sch, s, q, rest);
        if SubResult(sch, s, [q]).Some? {
          SubFolds(sch, f, own[1..], SubResult(sch, s, [q]).value);
        }
      }
    }
  }

  lemma ReadsIs(sch: Schema, f: FieldDescriptor, mem: Member)
    requires Reads(sch, f, mem)
    ensures Parse(sch, f.sub, Payload(mem)).Some?
  {}

  lemma NoSubs(sch: Schema, s: Slot)
    ensures SubResult(sch, s, []) == Some(s)
  {}

  lemma SubResultStep(sch: Schema, s: Slot, q: Message, rest: seq<Message>)
    requires NestedSlot(s)
    ensures SubResult(sch, s, [q]).None? ==> SubResult(sch, s, [q] + rest).None?
    ensures SubResult(sch, s, [q]).Some? ==>
              && NestedSlot(SubResult(sch, s, [q]).value)
              && SubResult(sch, s, [q] + rest) == SubResult(sch, SubResult(sch, s, [q]).value, rest)
  {
    hide Merge;
    assert ([q] + rest)[1..] == rest && [q][1..] == [];
    if HoldsMsg(s) {
      MergeOne(sch, s.v.m, q);
      if Merge(sch, s.v.m, q).Some? && rest == [] {
        assert MergeList(sch, Merge(sch, s.v.m, q).value, rest) == Merge(sch, s.v.m, q);
      }
    } else {
      assert MergeList(sch, q, []) == Some(q);
    }
  }

  lemma {:induction false} SentAccepted(sch: Schema, f: FieldDescriptor, own: seq<Member>)
    requires ValidSchema(sch) && f.sub < |sch|
    ensures AllAccepted(sch, f.sub, Sent(sch, f, own))
    decreases |own|
  {
    hide Parse, AcceptedMessage, ValidSchema;
    if own != [] {
      SentAccepted(sch, f, own[1..]);
      if Parse(sch, f.sub, Payload(own[0])).Some? { ParseAccepted(sch, f.sub, Payload(own[0])); }
    }
  }

  lemma {:induction false} AllAreSent(sch: Schema, f: FieldDescriptor, own: seq<Member>)
    requires AllRead(sch, f, own)
    ensures |Sent(sch, f, own)| == |own|
  {
    hide Parse;
    if own != [] {
      assert Reads(sch, f, own[0]);
      AllAreSent(sch, f, own[1..]);
    }
  }

  /** What the later members make of a slot that the earlier ones have made. */
  lemma SubmessagesFold(sch: Schema, f: FieldDescriptor, ownA: seq<Member>, ownB: seq<Member>)
    requires ValidSchema(sch) && IsSubmessage(f) && f.sub < |sch|
    requires FoldSlot(sch, f, ownA, NO_SUB).Some? && FoldSlot(sch, f, ownB, NO_SUB).Some?
    ensures var e, l := FoldSlot(sch, f, ownA, NO_SUB).value, FoldSlot(sch, f, ownB, NO_SUB).value;
            var z, sent := FoldSlot(sch, f, ownB, e), Sent(sch, f, ownB);
            && NestedSlot(e) && NestedSlot(l) && (HoldsMsg(l) <==> ownB != [])
            && (z.Some? <==> (HoldsMsg(e) ==> ListCovered(sch, e.v.m, sent)))
            && (z.Some? && f.rule != REQUIRED ==>
                  (MergeSlot(sch, f, e, l) == z <==> (HoldsMsg(e) ==> Regroups(sch, e.v.m, sent))))
            && (ownB != [] && HoldsMsg(e) ==> (z == Some(l) <==> AddsNothing(sch, e.v.m, l.v.m, sent)))
            && (ownB != [] && !HoldsMsg(e) ==> z == Some(l))
            && (ownB == [] ==> z == Some(e) && l == NO_SUB)
  {
    hide Merge, FoldSlot, AcceptedMessage, ListCovered, Regroups, AddsNothing, Reads, Sent, MergeList;
    SubFolds(sch, f, ownA, NO_SUB);
    SubFolds(sch, f, ownB, NO_SUB);
    var e, sent := FoldSlot(sch, f, ownA, NO_SUB).value, Sent(sch, f, ownB);
    SubFolds(sch, f, ownB, e);
    AllAreSent(sch, f, ownB);
    if HoldsMsg(e) {
      if sent == [] {
        NoPart(sch, e.v.m);
      } else {
        HeldIsAccepted(sch, f, ownA);
        SentAccepted(sch, f, ownB);
        ListExactly(sch, e.v.m, sent);
      }
    }
  }

  lemma HeldIsAccepted(sch: Schema, f: FieldDescriptor, own: seq<Member>)
    requires ValidSchema(sch) && IsSubmessage(f) && f.sub < |sch|
    requires FoldSlot(sch, f, own, NO_SUB).Some? && HoldsMsg(FoldSlot(sch, f, own, NO_SUB).value)
    ensures AcceptedMessage(sch, FoldSlot(sch, f, own, NO_SUB).value.v.m) && FoldSlot(sch, f, own, NO_SUB).value.v.m.desc == f.sub
  {
    hide Merge, FoldSlot, AcceptedMessage, Reads, Sent, MergeList;
    SubFolds(sch, f, own, NO_SUB);
    SentAccepted(sch, f, own);
    var sent := Sent(sch, f, own);
    ListAccepted(sch, sent[0], sent[1..]);
  }

  lemma {:induction false} ListAccepted(sch: Schema, x: Message, qs: seq<Message>)
    requires AcceptedMessage(sch, x) && AllAccepted(sch, x.desc, qs) && MergeList(sch, x, qs).Some?
    ensures AcceptedMessage(sch, MergeList(sch, x, qs).value) && MergeList(sch, x, qs).value.desc == x.desc
    decreases |qs|
  {
    hide Merge, AcceptedMessage;
    if qs != [] {
      MergeAccepted(sch, x, qs[0]);
      ListAccepted(sch, Merge(sch, x, qs[0]).value, qs[1..]);
    }
  }

  // ---- One field of a concatenation -------------------------------------------------------------

  /**
   When merging `e` and `l` gives what applying the members of the later message to `e` gives. `written`
   says whether the later message has a member of the field, and `sent` are the submessages it sends in
   it. Where the two can differ, the field is required, or unlabelled, or holds bytes, or a submessage
   that is sent more than once.
   */
  ghost predicate Agrees(sch: Schema, f: FieldDescriptor, e: Slot, l: Slot, written: bool, sent: seq<Message>) {
    if f.rule == REPEATED then true
    else if f.rule == REQUIRED then
      if !written then e == InitSlot(f)
      else HoldsMsg(e) && HoldsMsg(l) ==> AddsNothing(sch, e.v.m, l.v.m, sent)
    else if f.ty == MESSAGE then HoldsMsg(e) ==> Regroups(sch, e.v.m, sent)
    else if f.ty == BYTES then
      if !written then e == InitSlot(f) || (e.Single? && IsFilled(e.v))
      else e.Single? && IsFilled(e.v) ==> l.Single? && IsFilled(l.v)
    else f.rule == NONE && IsPackable(f.ty) ==> written || e == InitSlot(f)
  }

  lemma InitSlotRightExactly(sch: Schema, f: FieldDescriptor, s: Slot)
    requires f.oneof.None? && ShapedSlot(sch, f, s)
    ensures MergeSlot(sch, f, s, InitSlot(f)) == Some(s) <==> Agrees(sch, f, s, InitSlot(f), false, [])
  {
    hide Merge, Shaped;
    if f.rule == REPEATED { assert s.vs + [] == s.vs; }
  }

  /** The initial message is a unit on the right exactly when each field agrees; unknown fields are lost. */
  lemma MergeInitRight(sch: Schema, m: Message)
    requires OneofFree(sch) && Shaped(sch, m)
    ensures Merge(sch, m, Init(sch, m.desc)) == Some(m.(unknown := []))
       <==> forall i :: 0 <= i < |m.slots| && i < |sch[m.desc].fields|
              ==> Agrees(sch, sch[m.desc].fields[i], m.slots[i], InitSlot(sch[m.desc].fields[i]), false, [])
  {
    hide MergeSlots, MergeSlot, Shaped, ShapedSlot, InitSlot, Agrees;
    var init := Init(sch, m.desc);
    ShapedSize(sch, m);
    InitIsShaped(sch, m.desc);
    MergeTotal(sch, m, init);
    var r := Merge(sch, m, init).value;
    ShapedSize(sch, r);
    forall i | 0 <= i < |m.slots|
      ensures r.slots[i] == m.slots[i]
         <==> Agrees(sch, sch[m.desc].fields[i], m.slots[i], InitSlot(sch[m.desc].fields[i]), false, [])
    {
      ShapedAt(sch, m, i);
      InitSlotRightExactly(sch, sch[m.desc].fields[i], m.slots[i]);
    }
    assert r.slots == m.slots <==> forall i :: 0 <= i < |m.slots| ==> r.slots[i] == m.slots[i];
  }

  /** The slot that both parts make is the merge of those that each makes exactly if the two agree. */
  lemma SlotMergesExactly(sch: Schema, f: FieldDescriptor, ownA: seq<Member>, ownB: seq<Member>)
    requires ValidSchema(sch) && f.oneof.None? && (f.ty == MESSAGE ==> f.sub < |sch| && !f.hasDefault)
    requires FoldSlot(sch, f, ownA, InitSlot(f)).Some? && FoldSlot(sch, f, ownB, InitSlot(f)).Some?
    requires FoldSlot(sch, f, ownB, FoldSlot(sch, f, ownA, InitSlot(f)).value).Some?
    ensures var e, l := FoldSlot(sch, f, ownA, InitSlot(f)).value, FoldSlot(sch, f, ownB, InitSlot(f)).value;
            && (MergeSlot(sch, f, e, l) == FoldSlot(sch, f, ownB, e)
                <==> Agrees(sch, f, e, l, ownB != [], if IsSubmessage(f) then Sent(sch, f, ownB) else []))
  {
    hide FoldSlot, Merge, Sent, Regroups, AddsNothing, ListCovered;
    FoldSlotUnpacked(sch, f, ownA, InitSlot(f), false);
    FoldSlotUnpacked(sch, f, ownB, InitSlot(f), false);
    var e := FoldSlot(sch, f, ownA, InitSlot(f)).value;
    if f.rule == REPEATED {
      RepeatedFolds(sch, f, ownB, e.vs);
    } else if f.ty == MESSAGE {
      SubmessagesFold(sch, f, ownA, ownB);
    } else if ownB == [] {
      assert FoldSlot(sch, f, ownB, e) == Some(e) && FoldSlot(sch, f, ownB, InitSlot(f)) == Some(InitSlot(f)) by {
        NothingApplied(sch, f, e);
        NothingApplied(sch, f, InitSlot(f));
      }
    } else {
      LastMemberWins(sch, f, ownB, e, InitSlot(f));
    }
  }

  /**
   The later message has set the oneof, or the earlier one has, to something that merge_messages
   takes over: not to empty bytes, and not to a string whose field has a default value.
   */
  predicate OneofAgrees(desc: Descriptor, e: OneofState, l: OneofState) {
    || l.Chosen?
    || (e.Chosen? && FindField(desc.fields, e.id) >= 0
        && e.v != Blob(Null) && !(e.v.Text? && desc.fields[FindField(desc.fields, e.id)].hasDefault))
  }

  lemma OneofMergesLikeBytes(desc: Descriptor, e: OneofState, l: OneofState)
    requires UnpackedOneof(desc, e)
    ensures MergeOneof(desc, e, l) == Some(if l.Chosen? then l else e) <==> OneofAgrees(desc, e, l)
  {}

  // ---- Whole messages ---------------------------------------------------------------------------

  /** All fields and all oneofs of the two messages agree; `later` are the members of the later one. */
  ghost predicate AllAgree(sch: Schema, x: Message, y: Message, later: seq<Member>)
    requires InShape(sch, x) && InShape(sch, y) && x.desc == y.desc
  {
    var desc := sch[x.desc];
    && (forall i :: 0 <= i < |desc.fields| && desc.fields[i].oneof.None?
          ==> Agrees(sch, desc.fields[i], x.slots[i], y.slots[i], HasMember(later, desc.fields[i].id),
                    SentBy(sch, desc.fields[i], later)))
    && (forall g :: 0 <= g < desc.nOneofs ==> OneofAgrees(desc, x.oneofs[g], y.oneofs[g]))
  }

  /** The members of the three inputs, and what becomes of them. */
  lemma ConcatenationFolds(sch: Schema, d: nat, a: seq<byte>, b: seq<byte>)
    requires ValidSchema(sch) && d < |sch| && Parse(sch, d, a).Some? && Parse(sch, d, b).Some?
    ensures ScanAll(a).Some? && ScanAll(b).Some?
    ensures Parse(sch, d, a) == Fold(sch, ScanAll(a).value, Init(sch, d))
    ensures Parse(sch, d, b) == Fold(sch, ScanAll(b).value, Init(sch, d))
    ensures InShape(sch, Init(sch, d)) && InShape(sch, Parse(sch, d, a).value) && InShape(sch, Parse(sch, d, b).value)
    ensures Parse(sch, d, a).value.desc == Parse(sch, d, b).value.desc == d
    ensures Parse(sch, d, a + b)
         == if |ScanAll(a).value| + |ScanAll(b).value| <= MAX_MEMBERS
            then Fold(sch, ScanAll(b).value, Parse(sch, d, a).value) else None
  {
    hide Fold, RequiredPresent, ValidSchema;
    var ma, mb := ScanAll(a).value, ScanAll(b).value;
    var init := Init(sch, d);
    ScanAllConcat(a, b);
    ParseFromIsFold(sch, a, init);
    ParseFromIsFold(sch, b, init);
    ParseFromIsFold(sch, a + b, init);
    FoldConcat(sch, ma, mb, init);
    FoldKeepsShape(sch, ma, init);
    FoldKeepsShape(sch, mb, init);
    RequiredStay(sch[d], ma, mb);
  }

  lemma RequiredStay(desc: Descriptor, a: seq<Member>, b: seq<Member>)
    requires RequiredPresent(desc, a)
    ensures RequiredPresent(desc, a + b)
  {
    forall i | 0 <= i < |desc.fields| && desc.fields[i].rule == REQUIRED && !desc.fields[i].hasDefault
      ensures HasMember(a + b, desc.fields[i].id)
    {
      var k :| 0 <= k < |a| && a[k].tag == desc.fields[i].id;
      assert (a + b)[k].tag == desc.fields[i].id;
    }
  }

  /**
   For any schema: a field outside the oneofs comes out of a concatenation as merge_messages would
   have it exactly if the two messages agree on the field.
   */
  lemma FieldMergesExactly(sch: Schema, d: nat, a: seq<byte>, b: seq<byte>, i: nat)
    requires ValidSchema(sch) && d < |sch| && i < |sch[d].fields| && sch[d].fields[i].oneof.None?
    requires Parse(sch, d, a).Some? && Parse(sch, d, b).Some? && Parse(sch, d, a + b).Some?
    ensures var x, y, z := Parse(sch, d, a).value, Parse(sch, d, b).value, Parse(sch, d, a + b).value;
            && i < |x.slots| && i < |y.slots| && i < |z.slots|
            && (MergeSlot(sch, sch[d].fields[i], x.slots[i], y.slots[i]) == Some(z.slots[i])
                <==> Agrees(sch, sch[d].fields[i], x.slots[i], y.slots[i],
                            HasMember(ScanAll(b).value, sch[d].fields[i].id), SentBy(sch, sch[d].fields[i], ScanAll(b).value)))
  {
    hide Parse, Fold, FoldSlot, Agrees, MergeSlot, OfField, HasMember;
    var f := sch[d].fields[i];
    ConcatenationFolds(sch, d, a, b);
    var ma, mb := ScanAll(a).value, ScanAll(b).value;
    var init := Init(sch, d);
    SlotFolds(sch, ma, init, i);
    SlotFolds(sch, mb, init, i);
    SlotFolds(sch, mb, Parse(sch, d, a).value, i);
    assert ValidField(sch, sch[d], f);
    SlotMergesExactly(sch, f, OfField(ma, f.id), OfField(mb, f.id));
    WrittenHasMembers(mb, f.id);
  }

  /**
   A single field that holds no submessage comes out of a concatenation as the later message has it,
   if that one sends it. So the last one wins in merge_messages, too, exactly if the two agree.
   */
  lemma FieldIsLast(sch: Schema, d: nat, a: seq<byte>, b: seq<byte>, i: nat)
    requires ValidSchema(sch) && d < |sch| && i < |sch[d].fields| && sch[d].fields[i].oneof.None?
    requires sch[d].fields[i].rule != REPEATED && sch[d].fields[i].ty != MESSAGE
    requires Parse(sch, d, a).Some? && Parse(sch, d, b).Some? && Parse(sch, d, a + b).Some?
    ensures var x, y, z := Parse(sch, d, a).value, Parse(sch, d, b).value, Parse(sch, d, a + b).value;
            var f, written := sch[d].fields[i], HasMember(ScanAll(b).value, sch[d].fields[i].id);
            && i < |x.slots| && i < |y.slots| && i < |z.slots|
            && z.slots[i] == (if written then y.slots[i] else x.slots[i])
            && (MergeSlot(sch, f, x.slots[i], y.slots[i]) == Some(if written then y.slots[i] else x.slots[i])
                <==> Agrees(sch, f, x.slots[i], y.slots[i], written, []))
  {
    hide Parse, Fold, FoldSlot, Agrees, MergeSlot, OfField, HasMember;
    var f := sch[d].fields[i];
    ConcatenationFolds(sch, d, a, b);
    var ma, mb := ScanAll(a).value, ScanAll(b).value;
    var init := Init(sch, d);
    SlotFolds(sch, ma, init, i);
    SlotFolds(sch, mb, init, i);
    SlotFolds(sch, mb, Parse(sch, d, a).value, i);
    WrittenHasMembers(mb, f.id);
    FoldSlotUnpacked(sch, f, OfField(ma, f.id), init.slots[i], false);
    if HasMember(mb, f.id) {
      LastMemberWins(sch, f, OfField(mb, f.id), Parse(sch, d, a).value.slots[i], init.slots[i]);
    } else {
      NothingApplied(sch, f, Parse(sch, d, a).value.slots[i]);
    }
    FieldMergesExactly(sch, d, a, b, i);
  }

  /** A oneof comes out of a concatenation as the later message has it, if set there: it is not merged. */
  lemma OneofMergesExactly(sch: Schema, d: nat, a: seq<byte>, b: seq<byte>, g: nat)
    requires ValidSchema(sch) && d < |sch| && g < sch[d].nOneofs
    requires Parse(sch, d, a).Some? && Parse(sch, d, b).Some? && Parse(sch, d, a + b).Some?
    ensures var x, y, z := Parse(sch, d, a).value, Parse(sch, d, b).value, Parse(sch, d, a + b).value;
            && g < |x.oneofs| && g < |y.oneofs| && g < |z.oneofs|
            && z.oneofs[g] == (if y.oneofs[g].Chosen? then y.oneofs[g] else x.oneofs[g])
            && (MergeOneof(sch[d], x.oneofs[g], y.oneofs[g]) == Some(z.oneofs[g])
                <==> OneofAgrees(sch[d], x.oneofs[g], y.oneofs[g]))
  {
    hide Parse, Fold, OneofAgrees, MergeOneof;
    ConcatenationFolds(sch, d, a, b);
    var ma, mb := ScanAll(a).value, ScanAll(b).value;
    var init := Init(sch, d);
    var x := Parse(sch, d, a).value;
    FoldOneofUnpacked(sch, ma, init, g);
    OneofFolds(sch, mb, x, init, g);
    OneofMergesLikeBytes(sch[d], x.oneofs[g], Parse(sch, d, b).value.oneofs[g]);
  }

  lemma SharedStays(sch: Schema, d: nat, a: seq<byte>, b: seq<byte>, i: nat)
    requires ValidSchema(sch) && d < |sch| && i < |sch[d].fields| && sch[d].fields[i].oneof.Some?
    requires Parse(sch, d, a).Some? && Parse(sch, d, b).Some? && Parse(sch, d, a + b).Some?
    ensures var x, y, z := Parse(sch, d, a).value, Parse(sch, d, b).value, Parse(sch, d, a + b).value;
            && i < |x.slots| && i < |y.slots| && i < |z.slots|
            && MergeSlot(sch, sch[d].fields[i], x.slots[i], y.slots[i]) == Some(z.slots[i])
  {
    hide Parse, Fold;
    ConcatenationFolds(sch, d, a, b);
    var init := Init(sch, d);
    assert ValidField(sch, sch[d], sch[d].fields[i]);
    OneofSlotStays(sch, ScanAll(a).value, init, i);
    OneofSlotStays(sch, ScanAll(b).value, init, i);
    OneofSlotStays(sch, ScanAll(b).value, Parse(sch, d, a).value, i);
  }

  /** Unknown fields are all kept, in order. */
  lemma ConcatenationKeepsUnknown(sch: Schema, d: nat, a: seq<byte>, b: seq<byte>)
    requires ValidSchema(sch) && d < |sch|
    requires Parse(sch, d, a).Some? && Parse(sch, d, b).Some? && Parse(sch, d, a + b).Some?
    ensures Parse(sch, d, a + b).value.unknown == Parse(sch, d, a).value.unknown + Parse(sch, d, b).value.unknown
    ensures InShape(sch, Parse(sch, d, a + b).value) && Parse(sch, d, a + b).value.desc == d
  {
    hide Parse, Fold, ValidSchema, Unmatched;
    ConcatenationFolds(sch, d, a, b);
    var x, mb := Parse(sch, d, a).value, ScanAll(b).value;
    FoldKeepsShape(sch, mb, x);
    FoldUnknown(sch, mb, x);
    FoldUnknown(sch, mb, Init(sch, d));
    assert [] + Unmatched(sch[d].fields, mb) == Unmatched(sch[d].fields, mb);
  }

  /**
   Unpacking a concatenation is merging exactly if all fields and all oneofs agree, for any schema.
   The unknown fields of both messages are kept.
   */
  lemma ConcatenationMergesExactly(sch: Schema, d: nat, a: seq<byte>, b: seq<byte>)
    requires ValidSchema(sch) && d < |sch|
    requires Parse(sch, d, a).Some? && Parse(sch, d, b).Some? && Parse(sch, d, a + b).Some?
    ensures var x, y, z := Parse(sch, d, a).value, Parse(sch, d, b).value, Parse(sch, d, a + b).value;
            && z.unknown == x.unknown + y.unknown
            && InShape(sch, x) && InShape(sch, y) && x.desc == y.desc == d
            && (Merge(sch, x, y) == Some(z.(unknown := y.unknown)) <==> AllAgree(sch, x, y, ScanAll(b).value))
  {
    hide Parse, Merge, MergeSlot, MergeOneof, Agrees, OneofAgrees, HasMember, ValidSchema, OfField;
    ConcatenationFolds(sch, d, a, b);
    ConcatenationKeepsUnknown(sch, d, a, b);
    var x, y, z := Parse(sch, d, a).value, Parse(sch, d, b).value, Parse(sch, d, a + b).value;
    var fields, mb := sch[d].fields, ScanAll(b).value;
    MergeIs(sch, x, y, z);
    forall g | 0 <= g < sch[d].nOneofs
      ensures MergeOneof(sch[d], x.oneofs[g], y.oneofs[g]) == Some(z.oneofs[g])
         <==> OneofAgrees(sch[d], x.oneofs[g], y.oneofs[g])
    {
      OneofMergesExactly(sch, d, a, b, g);
    }
    forall i | 0 <= i < |fields|
      ensures MergeSlot(sch, fields[i], x.slots[i], y.slots[i]) == Some(z.slots[i])
         <==> (fields[i].oneof.None? ==> Agrees(sch, fields[i], x.slots[i], y.slots[i], HasMember(mb, fields[i].id), SentBy(sch, fields[i], mb)))
    {
      if fields[i].oneof.None? {
        FieldMergesExactly(sch, d, a, b, i);
      } else {
        SharedStays(sch, d, a, b, i);
      }
    }
  }

  // ---- When a concatenation unpacks ---------------------------------------------------------------

  /** Apart from submessages, whether a member can be applied does not depend on the message. */
  lemma AppliesAlike(sch: Schema, mem: Member, m: Message, m': Message)
    requires ValidSchema(sch) && InShape(sch, m) && InShape(sch, m') && m.desc == m'.desc
    requires var i := FindField(sch[m.desc].fields, mem.tag); i < 0 || !IsSubmessage(sch[m.desc].fields[i])
    ensures Apply(sch, mem, m).Some? <==> Apply(sch, mem, m').Some?
  {
    hide ParseElements, ParseValue;
    var i := FindField(sch[m.desc].fields, mem.tag);
    if i >= 0 && sch[m.desc].fields[i].ty != MESSAGE {
      HeldIsForgotten(sch, sch[m.desc].fields[i], mem, Held(m.slots[i]), Held(m'.slots[i]));
    }
  }

  /** Members that can be applied to one message can be applied to another if the submessages can be merged. */
  lemma {:induction false} FoldsExactly(sch: Schema, ms: seq<Member>, m: Message, m': Message)
    requires ValidSchema(sch) && InShape(sch, m) && InShape(sch, m') && m.desc == m'.desc && Fold(sch, ms, m').Some?
    ensures Fold(sch, ms, m).Some? <==> AllFold(sch, ms, m)
    decreases |ms|
  {
    hide Apply, ApplySlot, FindField, OfField, FoldSlot, ValidSchema;
    if ms == [] {
      NothingToFold(sch, m);
    } else {
      var mem, fields := ms[0], sch[m.desc].fields;
      var j := FindField(fields, mem.tag);
      ApplyKeepsShape(sch, mem, m');
      if j < 0 || !IsSubmessage(fields[j]) {
        AppliesAlike(sch, mem, m, m');
      } else {
        ApplyIsSlot(sch, mem, m, j);
      }
      if Apply(sch, mem, m).Some? {
        ApplyKeepsShape(sch, mem, m);
        FoldsExactly(sch, ms[1..], Apply(sch, mem, m).value, Apply(sch, mem, m').value);
        AllFoldStep(sch, ms, m);
      } else {
        NotAllFold(sch, ms, m, j);
      }
    }
  }

  ghost predicate AllFold(sch: Schema, ms: seq<Member>, m: Message)
    requires InShape(sch, m)
  {
    forall i :: 0 <= i < |m.slots| && IsSubmessage(sch[m.desc].fields[i]) ==> FieldFolds(sch, ms, m, i)
  }

  ghost predicate FieldFolds(sch: Schema, ms: seq<Member>, m: Message, i: nat)
    requires InShape(sch, m) && i < |m.slots|
  {
    FoldSlot(sch, sch[m.desc].fields[i], OfField(ms, sch[m.desc].fields[i].id), m.slots[i]).Some?
  }

  lemma NothingToFold(sch: Schema, m: Message)
    requires InShape(sch, m)
    ensures AllFold(sch, [], m)
  {}

  lemma AllFoldStep(sch: Schema, ms: seq<Member>, m: Message)
    requires ValidSchema(sch) && InShape(sch, m) && ms != [] && Apply(sch, ms[0], m).Some?
    requires InShape(sch, Apply(sch, ms[0], m).value) && Apply(sch, ms[0], m).value.desc == m.desc
    ensures AllFold(sch, ms, m) <==> AllFold(sch, ms[1..], Apply(sch, ms[0], m).value)
  {
    hide Apply, ApplySlot, FindField, ValidSchema;
    var m' := Apply(sch, ms[0], m).value;
    forall i | 0 <= i < |m.slots| && IsSubmessage(sch[m.desc].fields[i])
      ensures FieldFolds(sch, ms, m, i) <==> FieldFolds(sch, ms[1..], m', i)
    {
      var f := sch[m.desc].fields[i];
      FieldIsFound(sch, m.desc, i);
      if ms[0].tag == f.id {
        ApplyIsSlot(sch, ms[0], m, i);
        var own := OfField(ms, f.id);
        assert own[0] == ms[0] && own[1..] == OfField(ms[1..], f.id);
      } else {
        assert FindField(sch[m.desc].fields, ms[0].tag) != i by { FoundHasTag(sch[m.desc].fields, ms[0].tag); }
        OtherSlotStays(sch, ms[0], m, i);
      }
    }
  }

  lemma FoundHasTag(fields: seq<FieldDescriptor>, tag: u32)
    ensures FindField(fields, tag) >= 0 ==> fields[FindField(fields, tag)].id == tag
  {}

  lemma NotAllFold(sch: Schema, ms: seq<Member>, m: Message, j: int)
    requires ValidSchema(sch) && InShape(sch, m) && ms != [] && 0 <= j == FindField(sch[m.desc].fields, ms[0].tag)
    requires IsSubmessage(sch[m.desc].fields[j]) && ApplySlot(sch, sch[m.desc].fields[j], ms[0], m.slots[j]).None?
    ensures !AllFold(sch, ms, m)
  {
    hide ApplySlot, ValidSchema;
    FoundHasTag(sch[m.desc].fields, ms[0].tag);
    assert OfField(ms, sch[m.desc].fields[j].id)[0] == ms[0];
    assert !FieldFolds(sch, ms, m, j);
  }

  /** Every submessage that both inputs send can be merged: each oneof in it is covered. */
  ghost predicate AllCovered(sch: Schema, x: Message, later: seq<Member>)
    requires InShape(sch, x)
  {
    forall i :: 0 <= i < |x.slots| && IsSubmessage(sch[x.desc].fields[i]) && HoldsMsg(x.slots[i])
      ==> ListCovered(sch, x.slots[i].v.m, SentBy(sch, sch[x.desc].fields[i], later))
  }

  /**
   Two inputs that unpack can be unpacked together exactly if they do not have too many members and
   every oneof is covered, in the submessages that the earlier one has.
   */
  lemma ConcatenationUnpacks(sch: Schema, d: nat, a: seq<byte>, b: seq<byte>)
    requires ValidSchema(sch) && d < |sch| && Parse(sch, d, a).Some? && Parse(sch, d, b).Some?
    ensures ScanAll(a).Some? && ScanAll(b).Some? && InShape(sch, Parse(sch, d, a).value)
    ensures Parse(sch, d, a + b).Some?
       <==> |ScanAll(a).value| + |ScanAll(b).value| <= MAX_MEMBERS && AllCovered(sch, Parse(sch, d, a).value, ScanAll(b).value)
  {
    hide Parse, Fold, InShape, ValidSchema, FoldSlot, OfField, ListCovered, MAX_MEMBERS;
    ConcatenationFolds(sch, d, a, b);
    var x, ma, mb, init := Parse(sch, d, a).value, ScanAll(a).value, ScanAll(b).value, Init(sch, d);
    FoldsExactly(sch, mb, x, init);
    ShapeOf(sch, x);
    forall i | 0 <= i < |x.slots| && IsSubmessage(sch[d].fields[i])
      ensures FieldFolds(sch, mb, x, i)
         <==> (HoldsMsg(x.slots[i]) ==> ListCovered(sch, x.slots[i].v.m, SentBy(sch, sch[d].fields[i], mb)))
    {
      SubmessageCovered(sch, d, ma, mb, i);
    }
  }

  lemma SubmessageCovered(sch: Schema, d: nat, ma: seq<Member>, mb: seq<Member>, i: nat)
    requires ValidSchema(sch) && d < |sch| && i < |sch[d].fields| && IsSubmessage(sch[d].fields[i])
    requires Fold(sch, ma, Init(sch, d)).Some? && Fold(sch, mb, Init(sch, d)).Some?
    ensures var x, f := Fold(sch, ma, Init(sch, d)).value, sch[d].fields[i];
            && i < |x.slots|
            && (FoldSlot(sch, f, OfField(mb, f.id), x.slots[i]).Some?
                <==> (HoldsMsg(x.slots[i]) ==> ListCovered(sch, x.slots[i].v.m, SentBy(sch, f, mb))))
  {
    hide Fold, FoldSlot, OfField, ListCovered;
    var f, init := sch[d].fields[i], Init(sch, d);
    FieldIsValid(sch, d, i);
    assert init.slots[i] == NO_SUB;
    SlotFolds(sch, ma, init, i);
    SlotFolds(sch, mb, init, i);
    SubmessagesFold(sch, f, OfField(ma, f.id), OfField(mb, f.id));
  }

  /** When no submessage field is sent twice by the later input: the oneofs of the two submessages are covered. */
  lemma ConcatenationUnpacksOnce(sch: Schema, d: nat, a: seq<byte>, b: seq<byte>)
    requires ValidSchema(sch) && d < |sch| && Parse(sch, d, a).Some? && Parse(sch, d, b).Some?
    requires ScanAll(b).Some?
    requires forall i :: 0 <= i < |sch[d].fields| && IsSubmessage(sch[d].fields[i])
               ==> |OfField(ScanAll(b).value, sch[d].fields[i].id)| <= 1
    ensures ScanAll(a).Some? && InShape(sch, Parse(sch, d, a).value) && InShape(sch, Parse(sch, d, b).value)
    ensures var x, y := Parse(sch, d, a).value, Parse(sch, d, b).value;
            Parse(sch, d, a + b).Some?
            <==> && |ScanAll(a).value| + |ScanAll(b).value| <= MAX_MEMBERS
                 && forall i :: 0 <= i < |sch[d].fields| && i < |x.slots| && i < |y.slots| && IsSubmessage(sch[d].fields[i])
                                && HoldsMsg(x.slots[i]) && HoldsMsg(y.slots[i])
                      ==> MergeLimits.Covered(sch, x.slots[i].v.m, y.slots[i].v.m)
  {
    hide Parse, Fold, InShape, ValidSchema, FoldSlot, OfField, ListCovered, MergeLimits.Covered, MAX_MEMBERS;
    ConcatenationUnpacks(sch, d, a, b);
    ConcatenationFolds(sch, d, a, b);
    var x, y, ma, mb := Parse(sch, d, a).value, Parse(sch, d, b).value, ScanAll(a).value, ScanAll(b).value;
    ShapeOf(sch, x);
    ShapeOf(sch, y);
    forall i | 0 <= i < |x.slots| && IsSubmessage(sch[d].fields[i]) && HoldsMsg(x.slots[i])
      ensures ListCovered(sch, x.slots[i].v.m, SentBy(sch, sch[d].fields[i], mb))
         <==> (HoldsMsg(y.slots[i]) ==> MergeLimits.Covered(sch, x.slots[i].v.m, y.slots[i].v.m))
    {
      SentAtMostOnce(sch, d, ma, mb, i);
    }
  }

  lemma SentAtMostOnce(sch: Schema, d: nat, ma: seq<Member>, mb: seq<Member>, i: nat)
    requires ValidSchema(sch) && d < |sch| && i < |sch[d].fields| && IsSubmessage(sch[d].fields[i])
    requires Fold(sch, ma, Init(sch, d)).Some? && Fold(sch, mb, Init(sch, d)).Some?
    requires |OfField(mb, sch[d].fields[i].id)| <= 1
    ensures var x, y := Fold(sch, ma, Init(sch, d)).value, Fold(sch, mb, Init(sch, d)).value;
            && i < |x.slots| && i < |y.slots|
            && (HoldsMsg(x.slots[i]) ==>
                  (ListCovered(sch, x.slots[i].v.m, SentBy(sch, sch[d].fields[i], mb))
                   <==> (HoldsMsg(y.slots[i]) ==> MergeLimits.Covered(sch, x.slots[i].v.m, y.slots[i].v.m))))
  {
    hide Fold, FoldSlot, OfField, ListCovered, MergeLimits.Covered, AcceptedMessage, Sent;
    var f, init := sch[d].fields[i], Init(sch, d);
    FieldIsValid(sch, d, i);
    assert init.slots[i] == NO_SUB;
    SlotFolds(sch, ma, init, i);
    SlotFolds(sch, mb, init, i);
    var own := OfField(mb, f.id);
    var x, sent := Fold(sch, ma, init).value, Sent(sch, f, own);
    SubFolds(sch, f, own, NO_SUB);
    AllAreSent(sch, f, own);
    if HoldsMsg(x.slots[i]) {
      HeldIsAccepted(sch, f, OfField(ma, f.id));
      if own == [] {
        NoPart(sch, x.slots[i].v.m);
      } else {
        SentAccepted(sch, f, own);
        assert sent[1..] == [] && sent == [sent[0]];
        MergeOne(sch, sent[0], sent[0]);
        CoveredOnce(sch, x.slots[i].v.m, sent[0]);
      }
    }
  }

  /** Without oneofs, only the number of members can stand in the way, and everything regroups. */
  lemma ConcatenationUnpacksWithoutOneofs(sch: Schema, d: nat, a: seq<byte>, b: seq<byte>)
    requires OneofFree(sch) && d < |sch| && Parse(sch, d, a).Some? && Parse(sch, d, b).Some?
    ensures ScanAll(a).Some? && ScanAll(b).Some?
    ensures Parse(sch, d, a + b).Some? <==> |ScanAll(a).value| + |ScanAll(b).value| <= MAX_MEMBERS
  {
    hide Parse, AcceptedMessage, ListCovered, ValidSchema, SentBy, AcceptedSlot, MAX_MEMBERS;
    ConcatenationUnpacks(sch, d, a, b);
    ParseAccepted(sch, d, a);
    var x := Parse(sch, d, a).value;
    ShapeOfAccepted(sch, x);
    forall i | 0 <= i < |x.slots| && IsSubmessage(sch[d].fields[i]) && HoldsMsg(x.slots[i])
      ensures ListCovered(sch, x.slots[i].v.m, SentBy(sch, sch[d].fields[i], ScanAll(b).value))
    {
      HoldsAccepted(sch, sch[d].fields[i], x.slots[i]);
      NoOneofs(sch, x.slots[i].v.m, SentBy(sch, sch[d].fields[i], ScanAll(b).value));
    }
  }

  lemma HoldsAccepted(sch: Schema, f: FieldDescriptor, s: Slot)
    requires IsSubmessage(f) && AcceptedSlot(sch, f, s) && HoldsMsg(s)
    ensures AcceptedMessage(sch, s.v.m)
  {}

  // ---- A submessage sent in two parts -------------------------------------------------------------

  /** The member that sends `payload` as the value of field `f`. */
  function Sub(f: FieldDescriptor, payload: seq<byte>): Member {
    Member(f.id, WIRE_PREFIXED, Prefixed(payload))
  }

  lemma SubApplies(sch: Schema, m: Message, i: nat, payload: seq<byte>)
    requires ValidSchema(sch) && InShape(sch, m) && i < |m.slots| && IsSubmessage(sch[m.desc].fields[i])
    requires m.slots[i].Single? && !m.slots[i].has && |payload| <= INT_MAX
    ensures IsMember(Sub(sch[m.desc].fields[i], payload))
    ensures Apply(sch, Sub(sch[m.desc].fields[i], payload), m)
         == match Parse(sch, sch[m.desc].fields[i].sub, payload)
            case None => None
            case Some(s) =>
              var all := if m.slots[i].v.Msg? then Merge(sch, m.slots[i].v.m, s) else Some(s);
              match all case None => None case Some(r) => Some(m.(slots := m.slots[i := Single(false, Msg(r))]))
  {
    hide Parse, Merge, Prefixed;
    var f := sch[m.desc].fields[i];
    FieldIsValid(sch, m.desc, i);
    FieldIsFound(sch, m.desc, i);
    PrefixedIsBody(f.id, payload);
  }

  /** A submessage sent in two members is the merge of the two. */
  lemma SentTwice(sch: Schema, d: nat, i: nat, a: seq<byte>, b: seq<byte>)
    requires ValidSchema(sch) && d < |sch| && i < |sch[d].fields| && IsSubmessage(sch[d].fields[i])
    requires |a| <= INT_MAX && |b| <= INT_MAX && RequiredPresent(sch[d], [Sub(sch[d].fields[i], a)])
    requires Parse(sch, sch[d].fields[i].sub, a).Some? && Parse(sch, sch[d].fields[i].sub, b).Some?
    ensures var f, init := sch[d].fields[i], Init(sch, d);
            && i < |init.slots|
            && Parse(sch, d, SerializeAll([Sub(f, a), Sub(f, b)]))
               == match Merge(sch, Parse(sch, f.sub, a).value, Parse(sch, f.sub, b).value)
                  case None => None
                  case Some(r) => Some(init.(slots := init.slots[i := Single(false, Msg(r))]))
  {
    hide Parse, Merge, Apply, Fold, Prefixed, RequiredPresent, IsMember, ValidSchema;
    var f, init := sch[d].fields[i], Init(sch, d);
    var ma, mb := Sub(f, a), Sub(f, b);
    assert init.slots[i] == NO_SUB by { FieldIsValid(sch, d, i); }
    SubApplies(sch, init, i, a);
    var once := Apply(sch, ma, init).value;
    SubApplies(sch, once, i, b);
    if Merge(sch, Parse(sch, f.sub, a).value, Parse(sch, f.sub, b).value).Some? {
      var last := Single(false, Msg(Merge(sch, Parse(sch, f.sub, a).value, Parse(sch, f.sub, b).value).value));
      assert once.slots[i := last] == init.slots[i := last];
    }
    assert [ma, mb] == [ma] + [mb];
    RequiredStay(sch[d], [ma], [mb]);
    ParseSerialized(sch, d, [ma, mb]);
    FoldConcat(sch, [ma], [mb], init);
    FoldOne(sch, ma, init);
    FoldOne(sch, mb, once);
  }

  lemma SentOnce(sch: Schema, d: nat, i: nat, a: seq<byte>)
    requires ValidSchema(sch) && d < |sch| && i < |sch[d].fields| && IsSubmessage(sch[d].fields[i])
    requires |a| <= INT_MAX && RequiredPresent(sch[d], [Sub(sch[d].fields[i], a)])
    ensures var f, init := sch[d].fields[i], Init(sch, d);
            && i < |init.slots|
            && Parse(sch, d, SerializeAll([Sub(f, a)]))
               == match Parse(sch, f.sub, a)
                  case None => None
                  case Some(m) => Some(init.(slots := init.slots[i := Single(false, Msg(m))]))
  {
    hide Parse, Apply, Fold, Prefixed, RequiredPresent, IsMember, ValidSchema;
    var f, init := sch[d].fields[i], Init(sch, d);
    assert init.slots[i] == NO_SUB by { FieldIsValid(sch, d, i); }
    SubApplies(sch, init, i, a);
    ParseSerialized(sch, d, [Sub(f, a)]);
    FoldOne(sch, Sub(f, a), init);
  }

  /**
   A submessage may be sent in two parts instead of in one exactly if the parts agree on every field
   and every oneof, and the first has no unknown fields, which merge_messages does not take over; or if
   neither way unpacks.
   */
  lemma SplitSubmessageExactly(sch: Schema, d: nat, i: nat, a: seq<byte>, b: seq<byte>)
    requires ValidSchema(sch) && d < |sch| && i < |sch[d].fields| && IsSubmessage(sch[d].fields[i])
    requires |a + b| <= INT_MAX && RequiredPresent(sch[d], [Sub(sch[d].fields[i], a)])
    requires var s := sch[d].fields[i].sub; s < |sch| && Parse(sch, s, a).Some? && Parse(sch, s, b).Some?
    ensures var f := sch[d].fields[i];
            var x, y := Parse(sch, f.sub, a).value, Parse(sch, f.sub, b).value;
            && ScanAll(b).Some? && InShape(sch, x) && InShape(sch, y) && x.desc == y.desc
            && (Parse(sch, d, SerializeAll([Sub(f, a), Sub(f, b)])) == Parse(sch, d, SerializeAll([Sub(f, a + b)]))
                <==> if Parse(sch, f.sub, a + b).Some? then AllAgree(sch, x, y, ScanAll(b).value) && x.unknown == []
                     else !MergeLimits.Covered(sch, x, y))
  {
    hide Parse, Merge, AllAgree, ValidSchema, Prefixed, HasMember, InShape, MergeLimits.Covered, SerializeAll, Fold;
    var f := sch[d].fields[i];
    var x, y := Parse(sch, f.sub, a).value, Parse(sch, f.sub, b).value;
    assert RequiredPresent(sch[d], [Sub(f, a + b)]) by { SameNumber(sch[d], Sub(f, a), Sub(f, a + b)); }
    SentTwice(sch, d, i, a, b);
    SentOnce(sch, d, i, a + b);
    ConcatenationFolds(sch, f.sub, a, b);
    if Parse(sch, f.sub, a + b).Some? {
      var z := Parse(sch, f.sub, a + b).value;
      ConcatenationMergesExactly(sch, f.sub, a, b);
      if x.unknown == [] { assert x.unknown + y.unknown == y.unknown; }
      if z.unknown == y.unknown { assert |x.unknown| == 0; }
      assert Init(sch, d).slots[i := Single(false, Msg(z))][i] == Single(false, Msg(z));
    } else {
      MergeLimits.MergesExactly(sch, x, y);
    }
  }

  lemma SameNumber(desc: Descriptor, mem: Member, mem': Member)
    requires mem.tag == mem'.tag && RequiredPresent(desc, [mem])
    ensures RequiredPresent(desc, [mem'])
  {
    forall i | 0 <= i < |desc.fields| && desc.fields[i].rule == REQUIRED && !desc.fields[i].hasDefault
      ensures HasMember([mem'], desc.fields[i].id)
    {
      assert [mem'][0].tag == desc.fields[i].id;
    }
  }
}
