/**
 What the members of an input make of a message, field by field: each slot and each oneof depends on
 its own members only.
 */
module ByField {
  import opened Bytes
  import opened Schema
  import opened Wire
  import opened Scan
  import opened Parsing
  import opened PackedLaw
  import opened MergeLaw

  // ---- Each slot depends on the members of its field only --------------------------------------

  /** What the members `own` of field `f` make of its slot. */
  ghost function FoldSlot(sch: Schema, f: FieldDescriptor, own: seq<Member>, s: Slot): Option<Slot> {
    if own == [] then Some(s)
    else
      match ApplySlot(sch, f, own[0], s)
      case None => None
      case Some(s') => FoldSlot(sch, f, own[1..], s')
  }

  ghost predicate InShape(sch: Schema, m: Message) {
    m.desc < |sch| && |m.slots| == |sch[m.desc].fields| && |m.oneofs| == sch[m.desc].nOneofs
  }

  lemma FieldIsValid(sch: Schema, d: nat, i: nat)
    requires ValidSchema(sch) && d < |sch| && i < |sch[d].fields|
    ensures ValidField(sch, sch[d], sch[d].fields[i])
  {}

  lemma ApplyKeepsShape(sch: Schema, mem: Member, m: Message)
    requires InShape(sch, m) && Apply(sch, mem, m).Some?
    ensures InShape(sch, Apply(sch, mem, m).value) && Apply(sch, mem, m).value.desc == m.desc
  {
    hide ParseElements, ParseValue;
  }

  lemma {:induction false} FoldKeepsShape(sch: Schema, ms: seq<Member>, m: Message)
    requires InShape(sch, m) && Fold(sch, ms, m).Some?
    ensures InShape(sch, Fold(sch, ms, m).value) && Fold(sch, ms, m).value.desc == m.desc
  {
    hide Apply, InShape;
    if ms != [] {
      ApplyKeepsShape(sch, ms[0], m);
      FoldKeepsShape(sch, ms[1..], Apply(sch, ms[0], m).value);
    }
  }

  lemma {:induction false} SlotFolds(sch: Schema, ms: seq<Member>, m: Message, i: nat)
    requires ValidSchema(sch) && InShape(sch, m) && i < |m.slots| && sch[m.desc].fields[i].oneof.None?
    requires Fold(sch, ms, m).Some?
    ensures i < |Fold(sch, ms, m).value.slots|
    ensures FoldSlot(sch, sch[m.desc].fields[i], OfField(ms, sch[m.desc].fields[i].id), m.slots[i])
         == Some(Fold(sch, ms, m).value.slots[i])
    decreases |ms|
  {
    hide Apply, ApplySlot, FindField;
    if ms != [] {
      var f := sch[m.desc].fields[i];
      var m' := Apply(sch, ms[0], m).value;
      ApplyKeepsShape(sch, ms[0], m);
      SlotFolds(sch, ms[1..], m', i);
      FieldIsFound(sch, m.desc, i);
      if ms[0].tag == f.id {
        ApplyIsSlot(sch, ms[0], m, i);
        var own := OfField(ms, f.id);
        assert own[0] == ms[0] && own[1..] == OfField(ms[1..], f.id);
      } else {
        assert FindField(sch[m.desc].fields, ms[0].tag) != i;
        OtherSlotStays(sch, ms[0], m, i);
      }
    }
  }

  lemma {:induction false} WrittenHasMembers(ms: seq<Member>, tag: u32)
    ensures HasMember(ms, tag) <==> OfField(ms, tag) != []
  {
    if ms != [] {
      WrittenHasMembers(ms[1..], tag);
      if HasMember(ms, tag) && ms[0].tag != tag {
        var k :| 0 <= k < |ms| && ms[k].tag == tag;
        assert ms[1..][k - 1].tag == tag;
      }
      if HasMember(ms[1..], tag) {
        var k :| 0 <= k < |ms[1..]| && ms[1..][k].tag == tag;
        assert ms[k + 1].tag == tag;
      }
      if ms[0].tag == tag { assert HasMember(ms, tag); }
    }
  }

  /** The share of a oneof in the slots is never written. */
  lemma {:induction false} OneofSlotStays(sch: Schema, ms: seq<Member>, m: Message, i: nat)
    requires ValidSchema(sch) && InShape(sch, m) && i < |m.slots| && sch[m.desc].fields[i].oneof.Some?
    requires m.slots[i] == Shared && Fold(sch, ms, m).Some?
    ensures i < |Fold(sch, ms, m).value.slots| && Fold(sch, ms, m).value.slots[i] == Shared
    decreases |ms|
  {
    hide Apply;
    if ms != [] {
      ApplyKeepsShape(sch, ms[0], m);
      OneofSlotApplies(sch, ms[0], m, i);
      OneofSlotStays(sch, ms[1..], Apply(sch, ms[0], m).value, i);
    }
  }

  lemma OneofSlotApplies(sch: Schema, mem: Member, m: Message, i: nat)
    requires ValidSchema(sch) && InShape(sch, m) && i < |m.slots| && sch[m.desc].fields[i].oneof.Some?
    requires Apply(sch, mem, m).Some?
    ensures i < |Apply(sch, mem, m).value.slots| && Apply(sch, mem, m).value.slots[i] == m.slots[i]
  {
    hide ParseElements, ParseValue;
  }

  // ---- What unpacking leaves in a slot ----------------------------------------------------------

  predicate UnpackedValue(f: FieldDescriptor, v: Value) {
    match f.ty
    case MESSAGE => v.Msg?
    case STRING => v.Text? && v.t.Own?
    case BYTES => v == Blob(Null) || IsFilled(v)
    case _ => v.Word?
  }

  /** A slot that has been written is a value of the field's type; one that has not is as it was at first. */
  predicate UnpackedSlot(f: FieldDescriptor, written: bool, s: Slot) {
    if f.rule == REPEATED then s.Many? && (!written ==> s == Many([]))
    else if written then s.Single? && s.has == HasBit(f) && UnpackedValue(f, s.v)
    else s == InitSlot(f)
  }

  lemma ApplySlotUnpacked(sch: Schema, f: FieldDescriptor, mem: Member, s: Slot, written: bool)
    requires f.oneof.None? && UnpackedSlot(f, written, s) && ApplySlot(sch, f, mem, s).Some?
    ensures UnpackedSlot(f, true, ApplySlot(sch, f, mem, s).value)
  {
    hide Parse, Merge, ParseElements, ParseScalar;
  }

  lemma {:induction false} FoldSlotUnpacked(sch: Schema, f: FieldDescriptor, own: seq<Member>, s: Slot, written: bool)
    requires f.oneof.None? && UnpackedSlot(f, written, s) && FoldSlot(sch, f, own, s).Some?
    ensures UnpackedSlot(f, written || own != [], FoldSlot(sch, f, own, s).value)
    decreases |own|
  {
    hide ApplySlot, UnpackedSlot;
    if own != [] {
      ApplySlotUnpacked(sch, f, own[0], s, written);
      FoldSlotUnpacked(sch, f, own[1..], ApplySlot(sch, f, own[0], s).value, true);
    }
  }

  // ---- From a used slot, and from a fresh one ---------------------------------------------------

  lemma NothingApplied(sch: Schema, f: FieldDescriptor, s: Slot)
    ensures FoldSlot(sch, f, [], s) == Some(s)
  {}

  /** Elements are appended. */
  lemma {:induction false} RepeatedFolds(sch: Schema, f: FieldDescriptor, own: seq<Member>, vs: seq<Value>)
    requires f.rule == REPEATED
    ensures FoldSlot(sch, f, own, Many(vs)).Some? <==> FoldSlot(sch, f, own, Many([])).Some?
    ensures FoldSlot(sch, f, own, Many(vs)).Some? ==>
              && FoldSlot(sch, f, own, Many([])).value.Many?
              && FoldSlot(sch, f, own, Many(vs)).value == Many(vs + FoldSlot(sch, f, own, Many([])).value.vs)
    decreases |own|
  {
    hide ParseElements;
    if own == [] {
      assert vs + [] == vs;
    } else if ParseElements(sch, f, own[0]).Some? {
      var more := ParseElements(sch, f, own[0]).value;
      assert [] + more == more;
      RepeatedFolds(sch, f, own[1..], more);
      RepeatedFolds(sch, f, own[1..], vs + more);
      if FoldSlot(sch, f, own[1..], Many([])).Some? {
        var rest := FoldSlot(sch, f, own[1..], Many([])).value.vs;
        assert (vs + more) + rest == vs + (more + rest);
      }
    }
  }

  /** Apart from submessages, what the slot held is forgotten. */
  lemma {:induction false} LastMemberWins(sch: Schema, f: FieldDescriptor, own: seq<Member>, s: Slot, s': Slot)
    requires f.rule != REPEATED && f.ty != MESSAGE && own != []
    requires s.Single? && s'.Single? && (HasBit(f) || s.has == s'.has)
    ensures FoldSlot(sch, f, own, s) == FoldSlot(sch, f, own, s')
  {
    hide ParseValue, HasBit;
    assert ParseValue(sch, f, own[0], s.v) == ParseValue(sch, f, own[0], s'.v) by { HeldIsForgotten(sch, f, own[0], s.v, s'.v); }
  }

  lemma HeldIsForgotten(sch: Schema, f: FieldDescriptor, mem: Member, v: Value, v': Value)
    requires f.ty != MESSAGE
    ensures ParseValue(sch, f, mem, v) == ParseValue(sch, f, mem, v')
  {}

  // ---- One oneof at a time --------------------------------------------------------------------

  /** A oneof that the later members write is what they write; otherwise it stays. */
  lemma {:induction false} OneofFolds(sch: Schema, ms: seq<Member>, m: Message, m': Message, g: nat)
    requires ValidSchema(sch) && InShape(sch, m) && InShape(sch, m') && m.desc == m'.desc && g < |m.oneofs|
    requires m'.oneofs[g].Unset? || m'.oneofs[g] == m.oneofs[g]
    requires Fold(sch, ms, m).Some? && Fold(sch, ms, m').Some?
    ensures g < |Fold(sch, ms, m).value.oneofs| && g < |Fold(sch, ms, m').value.oneofs|
    ensures var o := Fold(sch, ms, m').value.oneofs[g];
            Fold(sch, ms, m).value.oneofs[g] == if o.Chosen? then o else m.oneofs[g]
    ensures m'.oneofs[g].Chosen? ==> Fold(sch, ms, m').value.oneofs[g].Chosen?
    decreases |ms|
  {
    hide Apply, ParseValue, FindField;
    if ms != [] {
      var n, n' := Apply(sch, ms[0], m).value, Apply(sch, ms[0], m').value;
      ApplyKeepsShape(sch, ms[0], m);
      ApplyKeepsShape(sch, ms[0], m');
      OneofApplies(sch, ms[0], m, m', g);
      OneofFolds(sch, ms[1..], n, n', g);
    }
  }

  /** What a member makes of oneof `g`, which does not depend on what it was. */
  ghost function Choice(sch: Schema, d: nat, mem: Member, g: nat): Option<OneofState> {
    var fields := DescriptorOf(sch, d).fields;
    var i := FindField(fields, mem.tag);
    if i < 0 || fields[i].oneof != Some(g) || fields[i].rule == REPEATED || fields[i].rule == REQUIRED then None
    else match ParseValue(sch, fields[i], mem, NoMsg) case None => None case Some(v) => Some(Chosen(mem.tag, v))
  }

  lemma ChoiceIsMade(sch: Schema, mem: Member, m: Message, g: nat)
    requires g < |m.oneofs| && Apply(sch, mem, m).Some?
    ensures g < |Apply(sch, mem, m).value.oneofs|
    ensures Apply(sch, mem, m).value.oneofs[g]
         == match Choice(sch, m.desc, mem, g) case None => m.oneofs[g] case Some(o) => o
  {
    hide ParseValue, ParseElements, FindField;
  }

  lemma OneofApplies(sch: Schema, mem: Member, m: Message, m': Message, g: nat)
    requires m.desc == m'.desc && g < |m.oneofs| && g < |m'.oneofs|
    requires Apply(sch, mem, m).Some? && Apply(sch, mem, m').Some?
    ensures var o, o' := Apply(sch, mem, m).value.oneofs, Apply(sch, mem, m').value.oneofs;
            && g < |o| && g < |o'|
            && ((o[g] == o'[g] && o[g].Chosen?) || (o[g] == m.oneofs[g] && o'[g] == m'.oneofs[g]))
  {
    hide Apply, ParseValue;
    ChoiceIsMade(sch, mem, m, g);
    ChoiceIsMade(sch, mem, m', g);
  }

  /** A oneof as unpacking leaves it. */
  predicate UnpackedOneof(desc: Descriptor, o: OneofState) {
    o.Chosen? ==> FindField(desc.fields, o.id) >= 0 && UnpackedValue(desc.fields[FindField(desc.fields, o.id)], o.v)
  }

  lemma {:induction false} FoldOneofUnpacked(sch: Schema, ms: seq<Member>, m: Message, g: nat)
    requires ValidSchema(sch) && InShape(sch, m) && g < |m.oneofs| && UnpackedOneof(sch[m.desc], m.oneofs[g])
    requires Fold(sch, ms, m).Some?
    ensures g < |Fold(sch, ms, m).value.oneofs| && UnpackedOneof(sch[m.desc], Fold(sch, ms, m).value.oneofs[g])
  {
    hide Apply, UnpackedOneof;
    if ms != [] {
      ApplyKeepsShape(sch, ms[0], m);
      ApplyOneofUnpacked(sch, ms[0], m, g);
      FoldOneofUnpacked(sch, ms[1..], Apply(sch, ms[0], m).value, g);
    }
  }

  lemma ApplyOneofUnpacked(sch: Schema, mem: Member, m: Message, g: nat)
    requires ValidSchema(sch) && InShape(sch, m) && g < |m.oneofs| && UnpackedOneof(sch[m.desc], m.oneofs[g])
    requires Apply(sch, mem, m).Some?
    ensures g < |Apply(sch, mem, m).value.oneofs| && UnpackedOneof(sch[m.desc], Apply(sch, mem, m).value.oneofs[g])
  {
    hide ParseElements, Parse, Merge, ParseScalar;
  }

  // ---- Whole messages ---------------------------------------------------------------------------

  /** The members whose number no field has. */
  function Unmatched(fields: seq<FieldDescriptor>, ms: seq<Member>): seq<Member> {
    if ms == [] then []
    else (if FindField(fields, ms[0].tag) < 0 then [ms[0]] else []) + Unmatched(fields, ms[1..])
  }

  lemma {:induction false} FoldUnknown(sch: Schema, ms: seq<Member>, m: Message)
    requires InShape(sch, m) && Fold(sch, ms, m).Some?
    ensures Fold(sch, ms, m).value.unknown == m.unknown + Unmatched(sch[m.desc].fields, ms)
    decreases |ms|
  {
    hide Apply, FindField;
    if ms != [] {
      ApplyKeepsShape(sch, ms[0], m);
      ApplyUnknown(sch, ms[0], m);
      FoldUnknown(sch, ms[1..], Apply(sch, ms[0], m).value);
    }
  }

  lemma ApplyUnknown(sch: Schema, mem: Member, m: Message)
    requires InShape(sch, m) && Apply(sch, mem, m).Some?
    ensures Apply(sch, mem, m).value.unknown
         == m.unknown + if FindField(sch[m.desc].fields, mem.tag) < 0 then [mem] else []
  {
    hide ParseElements, ParseValue;
  }

  lemma {:induction false} MergeSlotsAre(sch: Schema, fields: seq<FieldDescriptor>, e: seq<Slot>, l: seq<Slot>, r: seq<Slot>)
    requires |fields| == |e| == |l| == |r|
    ensures MergeSlots(sch, fields, e, l) == Some(r)
       <==> forall i :: 0 <= i < |l| ==> MergeSlot(sch, fields[i], e[i], l[i]) == Some(r[i])
    decreases |l|
  {
    hide MergeSlot;
    if l != [] {
      var n := |l| - 1;
      MergeSlotsAre(sch, fields[..n], e[..n], l[..n], r[..n]);
      assert r == r[..n] + [r[n]];
    }
  }

  lemma {:induction false} MergeOneofsAre(desc: Descriptor, e: seq<OneofState>, l: seq<OneofState>, r: seq<OneofState>)
    requires |e| == |l| == |r|
    ensures MergeOneofs(desc, e, l) == Some(r)
       <==> forall g :: 0 <= g < |l| ==> MergeOneof(desc, e[g], l[g]) == Some(r[g])
    decreases |l|
  {
    hide MergeOneof;
    if l != [] {
      var n := |l| - 1;
      MergeOneofsAre(desc, e[..n], l[..n], r[..n]);
      assert r == r[..n] + [r[n]];
    }
  }

  lemma MergeIs(sch: Schema, x: Message, y: Message, z: Message)
    requires InShape(sch, x) && InShape(sch, y) && InShape(sch, z) && x.desc == y.desc == z.desc
    ensures Merge(sch, x, y) == Some(z.(unknown := y.unknown))
       <==> && (forall i :: 0 <= i < |x.slots| ==>
                  MergeSlot(sch, sch[x.desc].fields[i], x.slots[i], y.slots[i]) == Some(z.slots[i]))
            && (forall g :: 0 <= g < |x.oneofs| ==> MergeOneof(sch[x.desc], x.oneofs[g], y.oneofs[g]) == Some(z.oneofs[g]))
  {
    hide MergeSlots, MergeOneofs, MergeSlot, MergeOneof;
    MergeSlotsAre(sch, sch[x.desc].fields, x.slots, y.slots, z.slots);
    MergeOneofsAre(sch[x.desc], x.oneofs, y.oneofs, z.oneofs);
  }
}
