/**
 merge_messages on messages with heap blocks: what it computes, and that every block stays owned by
 exactly one of the two messages, also when an allocation fails half-way.
 */
module HeapMerge {
  import opened Bytes
  import opened Schema
  import opened Parsing
  import opened IntRanges
  import opened FieldTables
  import opened Heap

  ghost predicate DoneSlot(sch: Schema, f: FieldDescriptor, s: HSlot) {
    TypedSlot(sch, f, s) && FullSlot(f, s)
  }

  /** A repeated field: the elements of both, the earlier ones first. */
  method MergeRepeated(sch: Schema, f: FieldDescriptor, e: HSlot, l: HSlot, alloc: Allocator, ghost rest: multiset<Block>)
    returns (ok: bool, e': HSlot, l': HSlot)
    requires alloc.Valid() && f.rule == REPEATED && DoneSlot(sch, f, e) && DoneSlot(sch, f, l)
    requires alloc.live == rest + (OwnedSlot(e) + OwnedSlot(l))
    modifies alloc
    ensures alloc.Valid() && alloc.live == rest + (OwnedSlot(e') + OwnedSlot(l'))
    ensures DoneSlot(sch, f, e') && DoneSlot(sch, f, l')
    ensures ok ==> MergeSlot(sch, f, EraseSlot(e), EraseSlot(l)) == Some(EraseSlot(l'))
    ensures alloc.refusals == old(alloc.refusals) + if ok then 0 else 1
  {
    hide TypedValue, EraseValues, OwnedValues;
    EraseValuesConcat(e.vs, l.vs);
    OwnedValuesConcat(e.vs, l.vs);
    NoValues();
    if |e.vs| == 0 {
      return true, e, l;
    }
    e' := HMany(None, 0, []);
    if |l.vs| == 0 {
      // take the array of the earlier message over
      assert OwnedSlot(e) + multiset{} == multiset{} + OwnedSlot(e);
      return true, e', e;
    }
    // concatenate the repeated field
    var field := alloc.Alloc();
    if field.None? {
      return false, e, l;
    }
    FreeArrays(e.arr.value, l.arr.value, field.value, alloc, rest, OwnedValues(e.vs), OwnedValues(l.vs));
    ok, l' := true, HMany(field, |e.vs| + |l.vs|, e.vs + l.vs);
    assert OwnedSlot(e') + OwnedSlot(l') == OwnedSlot(l');
  }

  /** The two arrays go when their elements are in the new one. */
  method FreeArrays(e: Block, l: Block, field: Block, alloc: Allocator, ghost rest: multiset<Block>,
                    ghost es: multiset<Block>, ghost ls: multiset<Block>)
    requires alloc.Valid() && alloc.live == rest + ((multiset{e} + es) + (multiset{l} + ls)) + multiset{field}
    modifies alloc
    ensures alloc.Valid() && alloc.refusals == old(alloc.refusals)
    ensures alloc.live == rest + (multiset{field} + (es + ls))
  {
    ghost var all := rest + (multiset{field} + (es + ls));
    assert alloc.live == (all + multiset{e}) + multiset{l};
    alloc.Free(l);
    assert alloc.live == all + multiset{e};
    alloc.Free(e);
  }

  lemma NoValues()
    ensures OwnedValues([]) == multiset{} && EraseValues([]) == []
    ensures forall a: seq<Value> :: a + [] == a && [] + a == a
  {}

  /** One field that is not in a oneof. */
  method MergeMember(sch: Schema, tables: seq<FieldTable>, f: FieldDescriptor, e: HSlot, l: HSlot,
                     alloc: Allocator, ghost rest: multiset<Block>)
    returns (ok: bool, e': HSlot, l': HSlot)
    requires alloc.Valid() && ValidSchema(sch) && TablesFor(tables, sch)
    requires DoneSlot(sch, f, e) && DoneSlot(sch, f, l) && f.oneof.None?
    requires alloc.live == rest + (OwnedSlot(e) + OwnedSlot(l))
    modifies alloc
    ensures alloc.Valid() && alloc.live == rest + (OwnedSlot(e') + OwnedSlot(l'))
    ensures DoneSlot(sch, f, e') && DoneSlot(sch, f, l')
    ensures ok ==> MergeSlot(sch, f, EraseSlot(e), EraseSlot(l)) == Some(EraseSlot(l'))
    ensures !ok ==> MergeSlot(sch, f, EraseSlot(e), EraseSlot(l)).None? || alloc.refusals > old(alloc.refusals)
    ensures alloc.refusals >= old(alloc.refusals)
    decreases e, 1
  {
    hide TypedSlot, TypedValue, Owned, Erase, Merge, ValidSchema, TablesFor, EraseValues, OwnedValues;
    ok, e', l' := true, e, l;
    if f.rule == REPEATED {
      hide FullSlot, OwnedSlot, EraseSlot;
      ok, e', l' := MergeRepeated(sch, f, e, l, alloc, rest);
    } else if f.rule == OPTIONAL || f.rule == NONE {
      TypedSingle(sch, f, e);
      TypedSingle(sch, f, l);
      if f.ty == MESSAGE && e.v.HMsg? && l.v.HMsg? {
        hide OwnedSlot, EraseSlot, FullSlot, MergeSlot;
        ok, e', l' := MergeSubmessages(sch, tables, f, e, l, alloc, rest);
      } else {
        e', l' := MergeSimple(sch, f, e, l);
      }
    } else {
      TypedSingle(sch, f, e);
      TypedSingle(sch, f, l);
    }
  }

  /** Both messages have the submessage: it is merged in place. */
  method MergeSubmessages(sch: Schema, tables: seq<FieldTable>, f: FieldDescriptor, e: HSlot, l: HSlot,
                          alloc: Allocator, ghost rest: multiset<Block>)
    returns (ok: bool, e': HSlot, l': HSlot)
    requires alloc.Valid() && ValidSchema(sch) && TablesFor(tables, sch)
    requires DoneSlot(sch, f, e) && DoneSlot(sch, f, l) && f.oneof.None? && (f.rule == OPTIONAL || f.rule == NONE)
    requires e.HSingle? && e.v.HMsg? && l.HSingle? && l.v.HMsg? && f.ty == MESSAGE
    requires alloc.live == rest + (OwnedSlot(e) + OwnedSlot(l))
    modifies alloc
    ensures alloc.Valid() && alloc.live == rest + (OwnedSlot(e') + OwnedSlot(l'))
    ensures DoneSlot(sch, f, e') && DoneSlot(sch, f, l')
    ensures ok ==> MergeSlot(sch, f, EraseSlot(e), EraseSlot(l)) == Some(EraseSlot(l'))
    ensures !ok ==> MergeSlot(sch, f, EraseSlot(e), EraseSlot(l)).None? || alloc.refusals > old(alloc.refusals)
    ensures alloc.refusals >= old(alloc.refusals)
    decreases e, 0
  {
    hide TypedSlot, Complete, Owned, Erase, Merge, ValidSchema, TablesFor;
    TypedSingle(sch, f, e);
    TypedSingle(sch, f, l);
    var em, lm;
    ok, em, lm := MergeMessages(sch, tables, e.v.m, l.v.m, alloc, rest);
    e', l' := HSingle(e.has, HMsg(em)), HSingle(l.has, HMsg(lm));
    SingleTyped(sch, f, e');
    SingleTyped(sch, f, l');
  }

  /** A member that is not a submessage in both. */
  method MergeSimple(sch: Schema, f: FieldDescriptor, e: HSlot, l: HSlot) returns (e': HSlot, l': HSlot)
    requires DoneSlot(sch, f, e) && DoneSlot(sch, f, l) && f.oneof.None? && (f.rule == OPTIONAL || f.rule == NONE)
    requires e.HSingle? && l.HSingle? && !(f.ty == MESSAGE && e.v.HMsg? && l.v.HMsg?)
    ensures OwnedSlot(e') + OwnedSlot(l') == OwnedSlot(e) + OwnedSlot(l)
    ensures DoneSlot(sch, f, e') && DoneSlot(sch, f, l')
    ensures MergeSlot(sch, f, EraseSlot(e), EraseSlot(l)) == Some(EraseSlot(l'))
  {
    hide TypedSlot, Complete, Owned, Erase, Merge;
    TypedSingle(sch, f, e);
    TypedSingle(sch, f, l);
    e', l' := e, l;
    if NeedToMerge(f, e, l) {
      hide MergeSlot, EraseValue, OwnedSlot;
      NothingToLose(sch, f, e, l);
      MergeTakes(sch, f, e, l);
      e', l' := MoveMember(f, e, l);
      SingleTyped(sch, f, e');
      SingleTyped(sch, f, l');
    } else {
      hide MergeSlot;
      MergeKeeps(sch, f, e, l);
    }
  }

  lemma MergeTakes(sch: Schema, f: FieldDescriptor, e: HSlot, l: HSlot)
    requires f.oneof.None? && (f.rule == OPTIONAL || f.rule == NONE) && e.HSingle? && l.HSingle?
    requires TypedValue(sch, f, e.v) && TypedValue(sch, f, l.v) && NeedToMerge(f, e, l)
    requires l.has ==> HasBit(f)
    ensures MergeSlot(sch, f, EraseSlot(e), EraseSlot(l)) == Some(Single(if HasBit(f) then e.has else l.has, EraseValue(e.v)))
  {
    hide Complete, Erase, Merge;
  }

  lemma MergeKeeps(sch: Schema, f: FieldDescriptor, e: HSlot, l: HSlot)
    requires f.oneof.None? && (f.rule == OPTIONAL || f.rule == NONE) && e.HSingle? && l.HSingle?
    requires TypedValue(sch, f, e.v) && TypedValue(sch, f, l.v) && !NeedToMerge(f, e, l)
    requires !(f.ty == MESSAGE && e.v.HMsg? && l.v.HMsg?)
    ensures MergeSlot(sch, f, EraseSlot(e), EraseSlot(l)) == Some(EraseSlot(l))
  {
    hide Complete, Erase, Merge;
  }

  /** Whether the later message takes the member of the earlier one over; by type. */
  predicate NeedToMerge(f: FieldDescriptor, e: HSlot, l: HSlot)
    requires e.HSingle? && l.HSingle? && (f.ty == STRING ==> e.v.HText? && l.v.HText?) && (f.ty == BYTES ==> e.v.HBlob? && l.v.HBlob?)
  {
    if f.ty == MESSAGE then e.v.HMsg? && !l.v.HMsg?
    else if f.ty == BYTES then e.v.b.HOwn? && !l.v.b.HOwn?
    else if f.ty == STRING then var def := if f.hasDefault then HDefault else HNull; e.v.t != def && l.v.t == def
    else HasBit(f) && e.has && !l.has
  }

  /** What is overwritten owns no block. */
  lemma NothingToLose(sch: Schema, f: FieldDescriptor, e: HSlot, l: HSlot)
    requires e.HSingle? && l.HSingle? && TypedValue(sch, f, e.v) && TypedValue(sch, f, l.v) && NeedToMerge(f, e, l)
    ensures OwnedValue(l.v) == multiset{}
  {}

  /** The copy at the end of the loop body; the earlier member is reset so that it is freed once only. */
  method MoveMember(f: FieldDescriptor, e: HSlot, l: HSlot) returns (e': HSlot, l': HSlot)
    requires e.HSingle? && l.HSingle? && OwnedValue(l.v) == multiset{}
    ensures l' == HSingle(if HasBit(f) then e.has else l.has, e.v)
    ensures e' == HSingle(e.has && !HasBit(f), Zeroed(f))
    ensures OwnedSlot(e') + OwnedSlot(l') == OwnedSlot(e) + OwnedSlot(l)
  {
    var v := e.v;
    if HasBit(f) {
      l' := HSingle(e.has, v);
      e' := HSingle(false, Zeroed(f));
    } else {
      l' := HSingle(l.has, v);
      e' := HSingle(e.has, Zeroed(f));
    }
    assert multiset{} + OwnedValue(v) == OwnedValue(v) + multiset{};
  }

  /** A member that memset has cleared. */
  function Zeroed(f: FieldDescriptor): (v: HValue)
    ensures OwnedValue(v) == multiset{}
  {
    match f.ty
    case MESSAGE => HNoMsg
    case STRING => HText(HNull)
    case BYTES => HBlob(HNull)
    case _ => HWord(0)
  }

  // ---- Oneofs ---------------------------------------------------------------------------------

  /** The number of the selected field; 0 when none is. */
  function OneofCase(o: HOneof): u32 {
    if o.HChosen? then o.id else 0
  }

  /** A oneof that is unset in the later message. */
  method MergeOneofMember(sch: Schema, tables: seq<FieldTable>, d: nat, g: nat, e: HOneof, l: HOneof)
    returns (ok: bool, e': HOneof, l': HOneof)
    requires ValidSchema(sch) && TablesFor(tables, sch) && d < |sch|
    requires TypedOneof(sch, sch[d], g, e) && l.HUnset?
    ensures OwnedOneof(e') + OwnedOneof(l') == OwnedOneof(e) + OwnedOneof(l)
    ensures TypedOneof(sch, sch[d], g, e') && TypedOneof(sch, sch[d], g, l')
    ensures MergeOneof(sch[d], EraseOneof(e), EraseOneof(l)) == if ok then Some(EraseOneof(l')) else None
    ensures l'.HUnset? ==> e' == e
  {
    hide Complete, Owned, Erase, TablesFor;
    var index := FieldIndex(sch, tables, d, OneofCase(e));
    if index < 0 {
      return false, e, l;
    }
    var f := sch[d].fields[index];
    assert ValidField(sch, sch[d], f);
    hide ValidSchema;
    var needToMerge :=
      if f.ty == MESSAGE then e.v.HMsg?
      else if f.ty == BYTES then e.v.b.HOwn?
      else if f.ty == STRING then var def := if f.hasDefault then HDefault else HNull; e.v.t != def && def == HNull
      else OneofCase(e) != 0;
    ok, e', l' := true, e, l;
    if needToMerge {
      e', l' := HUnset, e;
    }
  }

  lemma {:induction false} MergeOneofsAll(desc: Descriptor, e: seq<OneofState>, l: seq<OneofState>, r: seq<OneofState>)
    requires |e| == |l| == |r|
    requires forall g :: 0 <= g < |l| ==> MergeOneof(desc, e[g], l[g]) == Some(r[g])
    ensures MergeOneofs(desc, e, l) == Some(r)
  {
    hide MergeOneof;
    if l != [] {
      var n := |l| - 1;
      MergeOneofsAll(desc, e[..n], l[..n], r[..n]);
      assert r[..n] + [r[n]] == r;
    }
  }

  lemma {:induction false} MergeOneofsFails(desc: Descriptor, e: seq<OneofState>, l: seq<OneofState>, g: nat)
    requires |e| == |l| && g < |l| && MergeOneof(desc, e[g], l[g]).None?
    ensures MergeOneofs(desc, e, l).None?
  {
    hide MergeOneof;
    var n := |l| - 1;
    if g < n { MergeOneofsFails(desc, e[..n], l[..n], g); }
  }

  lemma MergeSlotsStep(sch: Schema, fields: seq<FieldDescriptor>, e: seq<Slot>, l: seq<Slot>, i: nat)
    requires |fields| == |e| == |l| && i < |l| && MergeSlots(sch, fields[..i], e[..i], l[..i]).Some?
    ensures MergeSlots(sch, fields[..i + 1], e[..i + 1], l[..i + 1])
            == match MergeSlot(sch, fields[i], e[i], l[i])
               case None => None
               case Some(s) => Some(MergeSlots(sch, fields[..i], e[..i], l[..i]).value + [s])
  {
    hide MergeSlot;
    assert fields[..i + 1][..i] == fields[..i] && e[..i + 1][..i] == e[..i] && l[..i + 1][..i] == l[..i];
  }

  lemma {:induction false} MergeSlotsFails(sch: Schema, fields: seq<FieldDescriptor>, e: seq<Slot>, l: seq<Slot>, i: nat)
    requires |fields| == |e| == |l| && i < |l| && MergeSlot(sch, fields[i], e[i], l[i]).None?
    ensures MergeSlots(sch, fields, e, l).None?
  {
    hide MergeSlot;
    var n := |l| - 1;
    if i < n { MergeSlotsFails(sch, fields[..n], e[..n], l[..n], i); }
  }

  // ---- Messages -------------------------------------------------------------------------------

  /** Oneof `g` after the fields before `i`: merged or as it was, and merged if one of them is its own. */
  ghost predicate OneofIsAt(desc: Descriptor, i: nat, g: nat, e0: HOneof, l0: HOneof, e: HOneof, l: HOneof)
    requires i <= |desc.fields|
  {
    var merged := MergeOneof(desc, EraseOneof(e0), EraseOneof(l0)) == Some(EraseOneof(l));
    && ((e == e0 && l == l0) || merged)
    && (l.HUnset? ==> e == e0 && l == l0)
    && ((exists k :: 0 <= k < i && desc.fields[k].oneof == Some(g)) ==> merged)
  }

  /** The slots before `i` are merged, the others are as they were. */
  ghost predicate SlotsMergedTo(sch: Schema, fields: seq<FieldDescriptor>, e0: seq<HSlot>, l0: seq<HSlot>,
                                e: seq<HSlot>, l: seq<HSlot>, i: nat)
  {
    && i <= |fields| == |e0| == |l0| == |e| == |l|
    && (forall k :: i <= k < |e| ==> e[k] == e0[k] && l[k] == l0[k])
    && MergeSlots(sch, fields[..i], EraseSlots(e0)[..i], EraseSlots(l0)[..i]) == Some(EraseSlots(l)[..i])
  }

  ghost predicate OneofsMergedTo(desc: Descriptor, e0: seq<HOneof>, l0: seq<HOneof>, e: seq<HOneof>, l: seq<HOneof>, i: nat) {
    && |e0| == |l0| == |e| == |l|
    && i <= |desc.fields|
    && forall g :: 0 <= g < |e| ==> OneofIsAt(desc, i, g, e0[g], l0[g], e[g], l[g])
  }

  /** How far the merge of `e0` into `l0` has come when the fields before `i` are done. */
  ghost predicate MergedTo(sch: Schema, e0: HMessage, l0: HMessage, e: HMessage, l: HMessage, i: nat) {
    && Complete(sch, e) && Complete(sch, l) && Complete(sch, e0) && Complete(sch, l0)
    && e0.desc == l0.desc && e == e0.(slots := e.slots, oneofs := e.oneofs) && l == l0.(slots := l.slots, oneofs := l.oneofs)
    && SlotsMergedTo(sch, sch[e0.desc].fields, e0.slots, l0.slots, e.slots, l.slots, i)
    && OneofsMergedTo(sch[e0.desc], e0.oneofs, l0.oneofs, e.oneofs, l.oneofs, i)
  }

  lemma SlotsMergedStep(sch: Schema, fields: seq<FieldDescriptor>, e0: seq<HSlot>, l0: seq<HSlot>,
                        e: seq<HSlot>, l: seq<HSlot>, i: nat, es: HSlot, ls: HSlot)
    requires SlotsMergedTo(sch, fields, e0, l0, e, l, i) && i < |fields|
    requires MergeSlot(sch, fields[i], EraseSlot(e0[i]), EraseSlot(l0[i])) == Some(EraseSlot(ls))
    ensures SlotsMergedTo(sch, fields, e0, l0, e[i := es], l[i := ls], i + 1)
  {
    hide MergeSlot, MergeSlots, EraseSlot;
    MergeSlotsStep(sch, fields, EraseSlots(e0), EraseSlots(l0), i);
    assert EraseSlots(l[i := ls])[..i + 1] == EraseSlots(l)[..i] + [EraseSlot(ls)];
  }

  /** Field `i` is of no oneof, or of one that `eo` and `lo` have merged. */
  lemma OneofsMergedStep(desc: Descriptor, e0: seq<HOneof>, l0: seq<HOneof>, e: seq<HOneof>, l: seq<HOneof>, i: nat,
                         g: nat, eo: HOneof, lo: HOneof)
    requires OneofsMergedTo(desc, e0, l0, e, l, i) && i < |desc.fields| && g < |e| && desc.fields[i].oneof == Some(g)
    requires lo.HUnset? ==> eo == e0[g] && lo == l0[g]
    requires MergeOneof(desc, EraseOneof(e0[g]), EraseOneof(l0[g])) == Some(EraseOneof(lo))
    ensures OneofsMergedTo(desc, e0, l0, e[g := eo], l[g := lo], i + 1)
  {
    hide MergeOneof, EraseOneof;
    forall h | 0 <= h < |e|
      ensures OneofIsAt(desc, i + 1, h, e0[h], l0[h], e[g := eo][h], l[g := lo][h])
    {
      assert OneofIsAt(desc, i, h, e0[h], l0[h], e[h], l[h]);
    }
  }

  lemma OneofsMergedSkip(desc: Descriptor, e0: seq<HOneof>, l0: seq<HOneof>, e: seq<HOneof>, l: seq<HOneof>, i: nat)
    requires OneofsMergedTo(desc, e0, l0, e, l, i) && i < |desc.fields| && desc.fields[i].oneof.None?
    ensures OneofsMergedTo(desc, e0, l0, e, l, i + 1)
  {
    hide MergeOneof, EraseOneof;
    forall h | 0 <= h < |e|
      ensures OneofIsAt(desc, i + 1, h, e0[h], l0[h], e[h], l[h])
    {
      assert OneofIsAt(desc, i, h, e0[h], l0[h], e[h], l[h]);
    }
  }

  lemma MergedToStart(sch: Schema, e0: HMessage, l0: HMessage)
    requires Complete(sch, e0) && Complete(sch, l0) && e0.desc == l0.desc
    ensures MergedTo(sch, e0, l0, e0, l0, 0)
  {
    assert EraseSlots(l0.slots)[..0] == [] && EraseSlots(e0.slots)[..0] == [];
  }

  lemma MergedToEnd(sch: Schema, e0: HMessage, l0: HMessage, e: HMessage, l: HMessage)
    requires ValidSchema(sch) && MergedTo(sch, e0, l0, e, l, |e.slots|)
    ensures Merge(sch, Erase(e0), Erase(l0)) == Some(Erase(l))
  {
    hide MergeOneof, MergeSlot, MergeSlots, MergeOneofs, EraseSlot, Complete;
    var n := |e.slots|;
    var desc := sch[e0.desc];
    assert desc.fields[..n] == desc.fields && EraseSlots(e0.slots)[..n] == EraseSlots(e0.slots)
        && EraseSlots(l0.slots)[..n] == EraseSlots(l0.slots) && EraseSlots(l.slots)[..n] == EraseSlots(l.slots);
    assert ValidDescriptor(sch, desc);
    OneofsMergedToEnd(desc, e0.oneofs, l0.oneofs, e.oneofs, l.oneofs);
  }

  lemma OneofsMergedToEnd(desc: Descriptor, e0: seq<HOneof>, l0: seq<HOneof>, e: seq<HOneof>, l: seq<HOneof>)
    requires OneofsMergedTo(desc, e0, l0, e, l, |desc.fields|)
    requires forall g :: 0 <= g < |e| ==> HasOneofField(desc.fields, g)
    ensures MergeOneofs(desc, EraseOneofs(e0), EraseOneofs(l0)) == Some(EraseOneofs(l))
  {
    hide MergeOneof, EraseOneof;
    forall g | 0 <= g < |e|
      ensures MergeOneof(desc, EraseOneofs(e0)[g], EraseOneofs(l0)[g]) == Some(EraseOneofs(l)[g])
    {
      assert HasOneofField(desc.fields, g);
      assert OneofIsAt(desc, |desc.fields|, g, e0[g], l0[g], e[g], l[g]);
    }
    MergeOneofsAll(desc, EraseOneofs(e0), EraseOneofs(l0), EraseOneofs(l));
  }

  lemma MergeFailsAtSlot(sch: Schema, e: HMessage, l: HMessage, i: nat)
    requires Complete(sch, e) && Complete(sch, l) && e.desc == l.desc && i < |l.slots|
    requires MergeSlot(sch, sch[e.desc].fields[i], EraseSlot(e.slots[i]), EraseSlot(l.slots[i])).None?
    ensures Merge(sch, Erase(e), Erase(l)).None?
  {
    hide MergeSlot;
    MergeSlotsFails(sch, sch[e.desc].fields, EraseSlots(e.slots), EraseSlots(l.slots), i);
  }

  lemma MergeFailsAtOneof(sch: Schema, e: HMessage, l: HMessage, g: nat)
    requires Complete(sch, e) && Complete(sch, l) && e.desc == l.desc && g < |l.oneofs|
    requires MergeOneof(sch[e.desc], EraseOneof(e.oneofs[g]), EraseOneof(l.oneofs[g])).None?
    ensures Merge(sch, Erase(e), Erase(l)).None?
  {
    hide MergeOneof;
    MergeOneofsFails(sch[e.desc], EraseOneofs(e.oneofs), EraseOneofs(l.oneofs), g);
  }

  /** The field before `i + 1` is a member of its own. */
  lemma MergedToSlot(sch: Schema, e0: HMessage, l0: HMessage, e: HMessage, l: HMessage, i: nat, es: HSlot, ls: HSlot)
    requires MergedTo(sch, e0, l0, e, l, i) && i < |e.slots| && sch[e.desc].fields[i].oneof.None?
    requires DoneSlot(sch, sch[e.desc].fields[i], es) && DoneSlot(sch, sch[e.desc].fields[i], ls)
    requires MergeSlot(sch, sch[e.desc].fields[i], EraseSlot(e0.slots[i]), EraseSlot(l0.slots[i])) == Some(EraseSlot(ls))
    ensures MergedTo(sch, e0, l0, e.(slots := e.slots[i := es]), l.(slots := l.slots[i := ls]), i + 1)
  {
    hide Complete, DoneSlot, MergeSlot, EraseSlot, SlotsMergedTo, OneofsMergedTo;
    SlotsMergedStep(sch, sch[e.desc].fields, e0.slots, l0.slots, e.slots, l.slots, i, es, ls);
    OneofsMergedSkip(sch[e.desc], e0.oneofs, l0.oneofs, e.oneofs, l.oneofs, i);
    SlotReplacedIsComplete(sch, e, i, es);
    SlotReplacedIsComplete(sch, l, i, ls);
  }

  lemma SlotReplacedIsComplete(sch: Schema, m: HMessage, i: nat, s: HSlot)
    requires Complete(sch, m) && i < |m.slots| && DoneSlot(sch, sch[m.desc].fields[i], s)
    ensures Complete(sch, m.(slots := m.slots[i := s]))
  {
    hide TypedSlot, TypedOneof, FullSlot;
  }

  lemma OneofReplacedIsComplete(sch: Schema, m: HMessage, g: nat, o: HOneof)
    requires Complete(sch, m) && g < |m.oneofs| && TypedOneof(sch, sch[m.desc], g, o)
    ensures Complete(sch, m.(oneofs := m.oneofs[g := o]))
  {
    hide TypedSlot, TypedOneof, FullSlot;
  }

  /** The field before `i + 1` belongs to a oneof, which is merged by now. */
  lemma MergedToOneof(sch: Schema, e0: HMessage, l0: HMessage, e: HMessage, l: HMessage, i: nat, g: nat, eo: HOneof, lo: HOneof)
    requires MergedTo(sch, e0, l0, e, l, i) && i < |e.slots| && g < |e.oneofs|
    requires ValidSchema(sch) && sch[e.desc].fields[i].oneof == Some(g)
    requires TypedOneof(sch, sch[e.desc], g, eo) && TypedOneof(sch, sch[e.desc], g, lo)
    requires lo.HUnset? ==> eo == e0.oneofs[g] && lo == l0.oneofs[g]
    requires MergeOneof(sch[e.desc], EraseOneof(e0.oneofs[g]), EraseOneof(l0.oneofs[g])) == Some(EraseOneof(lo))
    ensures MergedTo(sch, e0, l0, e.(oneofs := e.oneofs[g := eo]), l.(oneofs := l.oneofs[g := lo]), i + 1)
  {
    hide Complete, MergeOneof, MergeSlot, TypedOneof, EraseSlot, EraseOneof, OneofsMergedTo;
    OneofFieldIsShared(sch, e0, l0, i);
    assert e.slots[i := e.slots[i]] == e.slots && l.slots[i := l.slots[i]] == l.slots;
    SlotsMergedStep(sch, sch[e.desc].fields, e0.slots, l0.slots, e.slots, l.slots, i, e.slots[i], l.slots[i]);
    hide SlotsMergedTo;
    OneofsMergedStep(sch[e.desc], e0.oneofs, l0.oneofs, e.oneofs, l.oneofs, i, g, eo, lo);
    OneofReplacedIsComplete(sch, e, g, eo);
    OneofReplacedIsComplete(sch, l, g, lo);
  }

  lemma OneofFieldIsShared(sch: Schema, e: HMessage, l: HMessage, i: nat)
    requires ValidSchema(sch) && Complete(sch, e) && Complete(sch, l) && e.desc == l.desc && i < |l.slots|
    requires sch[e.desc].fields[i].oneof.Some?
    ensures MergeSlot(sch, sch[e.desc].fields[i], EraseSlot(e.slots[i]), EraseSlot(l.slots[i])) == Some(EraseSlot(l.slots[i]))
  {
    assert ValidField(sch, sch[e.desc], sch[e.desc].fields[i]);
    TypedAt(sch, e, i);
    TypedAt(sch, l, i);
  }

  lemma MergedToFacts(sch: Schema, e0: HMessage, l0: HMessage, e: HMessage, l: HMessage, i: nat)
    requires MergedTo(sch, e0, l0, e, l, i)
    ensures Complete(sch, e) && Complete(sch, l) && e.desc == e0.desc && l.desc == l0.desc == e.desc
    ensures i <= |e.slots| == |l.slots| == |e0.slots| == |l0.slots|
    ensures |e.oneofs| == |l.oneofs| == |e0.oneofs| == |l0.oneofs|
    ensures i < |e.slots| ==> e.slots[i] == e0.slots[i] && l.slots[i] == l0.slots[i]
  {
    hide TypedSlot, TypedOneof, FullSlot, MergeSlot, MergeOneof;
  }

  lemma OneofOfField(sch: Schema, d: nat, i: nat)
    requires ValidSchema(sch) && d < |sch| && i < |sch[d].fields| && sch[d].fields[i].oneof.Some?
    ensures sch[d].fields[i].oneof.value < sch[d].nOneofs
  {
    assert ValidField(sch, sch[d], sch[d].fields[i]);
  }

  lemma SlotsAreDone(sch: Schema, m: HMessage, i: nat)
    requires Complete(sch, m) && i < |m.slots|
    ensures DoneSlot(sch, sch[m.desc].fields[i], m.slots[i])
  {}

  /** Setting the same slot in both messages. */
  lemma BothReplaced(e: HMessage, l: HMessage, i: nat, es: HSlot, ls: HSlot, rest: multiset<Block>)
    requires i < |e.slots| && i < |l.slots|
    ensures var besides := rest + (BesideSlot(e, i) + BesideSlot(l, i));
            && rest + (Owned(e) + Owned(l)) == besides + (OwnedSlot(e.slots[i]) + OwnedSlot(l.slots[i]))
            && rest + (Owned(e.(slots := e.slots[i := es])) + Owned(l.(slots := l.slots[i := ls])))
               == besides + (OwnedSlot(es) + OwnedSlot(ls))
  {
    hide OwnedSlot, BesideSlot, Owned;
    SlotReplaced(e, i, es);
    SlotReplaced(l, i, ls);
  }

  /** merge_messages: both messages stay complete, and together they own what they owned. */
  method MergeMessages(sch: Schema, tables: seq<FieldTable>, e: HMessage, l: HMessage,
                       alloc: Allocator, ghost rest: multiset<Block>)
    returns (ok: bool, e': HMessage, l': HMessage)
    requires alloc.Valid() && ValidSchema(sch) && TablesFor(tables, sch)
    requires Complete(sch, e) && Complete(sch, l) && e.desc == l.desc
    requires alloc.live == rest + (Owned(e) + Owned(l))
    modifies alloc
    ensures alloc.Valid() && alloc.live == rest + (Owned(e') + Owned(l'))
    ensures Complete(sch, e') && Complete(sch, l') && e'.desc == e.desc && l'.desc == l.desc
    ensures ok ==> Merge(sch, Erase(e), Erase(l)) == Some(Erase(l'))
    ensures !ok ==> Merge(sch, Erase(e), Erase(l)).None? || alloc.refusals > old(alloc.refusals)
    ensures alloc.refusals >= old(alloc.refusals)
    decreases e, 2
  {
    hide MergedTo, Complete, Owned, Erase, Merge, MergeSlot, MergeOneof, DoneSlot, EraseSlot, EraseOneof, OwnedSlot, OwnedOneof;
    MergedToStart(sch, e, l);
    e', l' := e, l;
    for i := 0 to |sch[e.desc].fields|
      invariant alloc.Valid() && alloc.live == rest + (Owned(e') + Owned(l')) && alloc.refusals >= old(alloc.refusals)
      invariant MergedTo(sch, e, l, e', l', i)
    {
      MergedToFacts(sch, e, l, e', l', i);
      var f := sch[e.desc].fields[i];
      if f.oneof.Some? {
        OneofOfField(sch, e.desc, i);
        ok, e', l' := MergeSharedField(sch, tables, e, l, e', l', i, f.oneof.value);
      } else {
        SlotsAreDone(sch, e', i);
        SlotsAreDone(sch, l', i);
        ghost var besides := rest + (BesideSlot(e', i) + BesideSlot(l', i));
        BothReplaced(e', l', i, e'.slots[i], l'.slots[i], rest);
        var es, ls;
        ok, es, ls := MergeMember(sch, tables, f, e.slots[i], l.slots[i], alloc, besides);
        BothReplaced(e', l', i, es, ls, rest);
        if !ok && MergeSlot(sch, f, EraseSlot(e.slots[i]), EraseSlot(l.slots[i])).None? {
          MergeFailsAtSlot(sch, e, l, i);
        }
        SlotReplacedIsComplete(sch, e', i, es);
        SlotReplacedIsComplete(sch, l', i, ls);
        if ok {
          MergedToSlot(sch, e, l, e', l', i, es, ls);
        }
        e', l' := e'.(slots := e'.slots[i := es]), l'.(slots := l'.slots[i := ls]);
      }
      if !ok {
        return;
      }
    }
    MergedToFacts(sch, e, l, e', l', |sch[e.desc].fields|);
    MergedToEnd(sch, e, l, e', l');
    ok := true;
  }

  /** A field of oneof `g`: nothing to do when the later message, or an earlier field, has set it. */
  method MergeSharedField(sch: Schema, tables: seq<FieldTable>, ghost e0: HMessage, ghost l0: HMessage,
                          e: HMessage, l: HMessage, i: nat, g: nat)
    returns (ok: bool, e': HMessage, l': HMessage)
    requires ValidSchema(sch) && TablesFor(tables, sch) && MergedTo(sch, e0, l0, e, l, i)
    requires i < |e.slots| && g < |e.oneofs| && sch[e.desc].fields[i].oneof == Some(g)
    ensures Owned(e') + Owned(l') == Owned(e) + Owned(l)
    ensures ok ==> MergedTo(sch, e0, l0, e', l', i + 1)
    ensures !ok ==> Merge(sch, Erase(e0), Erase(l0)).None?
    ensures Complete(sch, e') && Complete(sch, l') && e'.desc == e0.desc && l'.desc == l0.desc
  {
    hide MergedTo, Complete, Erase, Owned, EraseOneof, OwnedOneof, Merge, MergeOneof, TypedOneof, ValidSchema, TablesFor;
    MergedToFacts(sch, e0, l0, e, l, i);
    MergedToOneofFacts(sch, e0, l0, e, l, i, g);
    ok := true;
    var eo, lo := e.oneofs[g], l.oneofs[g];
    if lo.HUnset? {
      ok, eo, lo := MergeOneofMember(sch, tables, e.desc, g, eo, lo);
    }
    if ok {
      MergedToOneof(sch, e0, l0, e, l, i, g, eo, lo);
    } else {
      MergeFailsAtOneof(sch, e0, l0, g);
    }
    BothOneofsReplaced(e, l, g, eo, lo);
    OneofReplacedIsComplete(sch, e, g, eo);
    OneofReplacedIsComplete(sch, l, g, lo);
    e', l' := e.(oneofs := e.oneofs[g := eo]), l.(oneofs := l.oneofs[g := lo]);
  }

  lemma MergedToOneofFacts(sch: Schema, e0: HMessage, l0: HMessage, e: HMessage, l: HMessage, i: nat, g: nat)
    requires MergedTo(sch, e0, l0, e, l, i) && g < |e.oneofs|
    ensures Complete(sch, e0) && Complete(sch, l0)
    ensures TypedOneof(sch, sch[e.desc], g, e.oneofs[g]) && TypedOneof(sch, sch[e.desc], g, l.oneofs[g])
    ensures l.oneofs[g].HUnset? ==> e.oneofs[g] == e0.oneofs[g] && l.oneofs[g] == l0.oneofs[g]
    ensures l.oneofs[g].HChosen? ==>
              MergeOneof(sch[e.desc], EraseOneof(e0.oneofs[g]), EraseOneof(l0.oneofs[g])) == Some(EraseOneof(l.oneofs[g]))
  {
    hide TypedSlot, FullSlot, TypedOneof;
    assert OneofIsAt(sch[e0.desc], i, g, e0.oneofs[g], l0.oneofs[g], e.oneofs[g], l.oneofs[g]);
    TypedOneofAt(sch, e, g);
    TypedOneofAt(sch, l, g);
  }

  /** Setting the same oneof in both messages. */
  lemma BothOneofsReplaced(e: HMessage, l: HMessage, g: nat, eo: HOneof, lo: HOneof)
    requires g < |e.oneofs| && g < |l.oneofs|
    requires OwnedOneof(eo) + OwnedOneof(lo) == OwnedOneof(e.oneofs[g]) + OwnedOneof(l.oneofs[g])
    ensures Owned(e.(oneofs := e.oneofs[g := eo])) + Owned(l.(oneofs := l.oneofs[g := lo])) == Owned(e) + Owned(l)
  {
    hide OwnedOneof, BesideOneof, Owned;
    OneofReplaced(e, g, eo);
    OneofReplaced(l, g, lo);
    var x, y := OwnedOneof(e.oneofs[g]), OwnedOneof(l.oneofs[g]);
    var bes := BesideOneof(e, g) + BesideOneof(l, g);
    assert Owned(e) + Owned(l) == bes + (x + y);
    assert Owned(e.(oneofs := e.oneofs[g := eo])) + Owned(l.(oneofs := l.oneofs[g := lo])) == bes + (OwnedOneof(eo) + OwnedOneof(lo));
  }
}
