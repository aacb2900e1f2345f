/**
 protobuf_c_message_unpack: scan, reserve, parse. It computes what `Parse` says, however many slabs
 the members take, and whatever fails, no block is lost or given back twice.
 */
module Unpacking {
  import opened Bytes
  import opened Varints
  import opened Schema
  import opened Wire
  import opened Scan
  import opened Parsing
  import opened MemberScan
  import opened FieldTables
  import opened Heap
  import opened Slabs
  import opened Bitmap
  import opened Free
  import opened HeapMerge
  import opened FirstPass
  import opened MemberParse
  import opened Filling

  /** parse_required_member: with `maybeClear`, what the member held before is merged or given back. */
  method ParseRequiredMember(sch: Schema, tables: seq<FieldTable>, d: nat, data: seq<byte>, sm: ScannedMember, ghost mem: Member,
                             held: HValue, maybeClear: bool, alloc: Allocator, ghost rest: multiset<Block>)
    returns (ok: bool, v: HValue)
    requires ValidSchema(sch) && TablesFor(tables, sch) && d < |sch|
    requires Denotes(sch[d].fields, data, sm, mem) && sm.field >= 0
    requires TypedValue(sch, sch[d].fields[sm.field], held) && (!maybeClear ==> OwnedValue(held) == multiset{})
    requires alloc.Valid() && alloc.live == rest + OwnedValue(held)
    modifies alloc
    ensures alloc.Valid() && alloc.live == rest + OwnedValue(v) && alloc.refusals >= old(alloc.refusals)
    ensures ValueResult(sch, sch[d].fields[sm.field], mem, held, ok, v, alloc.refusals > old(alloc.refusals))
    decreases sm.len, 0
  {
    hide ValueResult, ValidSchema, TablesFor, Complete, Owned, ScanBody;
    var f := sch[d].fields[sm.field];
    if IsPackable(f.ty) {
      ScalarResult(sch, f, mem, held);
      var w := ReadScalar(f.ty, sm.wireType, data[sm.at..sm.at + sm.len]);
      if w.None? {
        return false, held;
      }
      assert OwnedValue(HWord(w.value)) == multiset{};
      return true, HWord(w.value);
    }
    if sm.wireType != WIRE_PREFIXED {
      WrongWireType(sch, f, mem, held);
      return false, held;
    }
    PayloadOf(sch[d].fields, data, sm, mem);
    var payload := data[sm.at + sm.prefixLen..sm.at + sm.len];
    if f.ty == MESSAGE {
      SubmessageField(sch, d, sm.field);
      ok, v := ParseSubmessage(sch, tables, f, payload, mem, held, maybeClear, alloc, rest);
    } else {
      ok, v := ParseTextOrBytes(sch, f, payload, mem, held, maybeClear, alloc, rest);
    }
  }

  /** A submessage: unpacked, then completed from the one held before, which is freed in any case. */
  method ParseSubmessage(sch: Schema, tables: seq<FieldTable>, f: FieldDescriptor, payload: seq<byte>, ghost mem: Member,
                         held: HValue, maybeClear: bool, alloc: Allocator, ghost rest: multiset<Block>)
    returns (ok: bool, v: HValue)
    requires ValidSchema(sch) && TablesFor(tables, sch) && f.ty == MESSAGE && f.sub < |sch|
    requires mem.wireType == WIRE_PREFIXED && mem.data != [] && payload == Payload(mem)
    requires TypedValue(sch, f, held) && (!maybeClear ==> OwnedValue(held) == multiset{})
    requires alloc.Valid() && alloc.live == rest + OwnedValue(held)
    modifies alloc
    ensures alloc.Valid() && alloc.live == rest + OwnedValue(v) && alloc.refusals >= old(alloc.refusals)
    ensures ValueResult(sch, f, mem, held, ok, v, alloc.refusals > old(alloc.refusals))
    decreases |payload|, 5
  {
    hide ValueResult, ValidSchema, TablesFor, Complete, Owned, Parse, Merge, Erase, Typed;
    var subm := Unpack(sch, tables, f.sub, payload, alloc, alloc.live);
    if maybeClear && held.HMsg? {
      if subm.None? {
        CompleteIsTyped(sch, held.m);
        FreeUnpacked(sch, held.m, alloc, rest);
        SubmessageFails(sch, f, mem, held, HNoMsg, alloc.refusals > old(alloc.refusals));
        assert rest + multiset{} == rest;
        return false, HNoMsg;
      }
      assert alloc.live == rest + (Owned(held.m) + Owned(subm.value));
      var e, l;
      ok, e, l := MergeMessages(sch, tables, held.m, subm.value, alloc, rest);
      SubmessageMerged(sch, f, mem, held.m, subm.value, ok, l, alloc.refusals > old(alloc.refusals));
      // delete the previous message
      assert alloc.live == (rest + Owned(l)) + Owned(e);
      CompleteIsTyped(sch, e);
      FreeUnpacked(sch, e, alloc, rest + Owned(l));
      return ok, HMsg(l);
    }
    NothingHeld(sch, f, held, maybeClear);
    assert rest + multiset{} == rest;
    if subm.None? {
      SubmessageFails(sch, f, mem, held, HNoMsg, alloc.refusals > old(alloc.refusals));
      return false, HNoMsg;
    }
    SubmessageParsed(sch, f, mem, held, subm.value);
    return true, HMsg(subm.value);
  }

  /** parse_repeated_member: the element is counted in only when it was parsed. */
  method ParseRepeatedMember(sch: Schema, tables: seq<FieldTable>, d: nat, data: seq<byte>, sm: ScannedMember, ghost mem: Member,
                             s: HSlot, alloc: Allocator, ghost rest: multiset<Block>)
    returns (ok: bool, s': HSlot)
    requires ValidSchema(sch) && TablesFor(tables, sch) && d < |sch|
    requires Denotes(sch[d].fields, data, sm, mem) && sm.field >= 0
    requires var f := sch[d].fields[sm.field]; f.rule == REPEATED && !IsPackedRun(f, mem) && TypedSlot(sch, f, s)
    requires s.HMany? && |s.vs| < s.cap
    requires alloc.Valid() && alloc.live == rest + OwnedSlot(s)
    modifies alloc
    ensures alloc.Valid() && alloc.live == rest + OwnedSlot(s') && alloc.refusals >= old(alloc.refusals)
    ensures SlotResult(sch, sch[d].fields[sm.field], mem, s, ok, s', alloc.refusals > old(alloc.refusals))
    decreases sm.len, 1
  {
    hide ValueResult, SlotResult, ValidSchema, TablesFor, OwnedSlot, TypedSlot, TypedValue, OwnedValue, Denotes, Zeroed;
    DenotedFieldIs(sch[d].fields, data, sm, mem);
    var f := sch[d].fields[sm.field];
    ZeroedIsTyped(sch, f);
    var v;
    ok, v := ParseRequiredMember(sch, tables, d, data, sm, mem, Zeroed(f), false, alloc, rest + OwnedSlot(s));
    ElementAdded(sch, f, mem, s, ok, v, alloc.refusals > old(alloc.refusals));
    if ok {
      s' := StoreElement(s, v);
    } else {
      FailureOwnsNothing(sch, f, mem, Zeroed(f), v, alloc.refusals > old(alloc.refusals));
      s' := s;
    }
  }

  /** parse_required_member and parse_optional_member, on the member of a field. */
  method ParseSingleMember(sch: Schema, tables: seq<FieldTable>, d: nat, data: seq<byte>, sm: ScannedMember, ghost mem: Member,
                           s: HSlot, alloc: Allocator, ghost rest: multiset<Block>)
    returns (ok: bool, s': HSlot)
    requires ValidSchema(sch) && TablesFor(tables, sch) && d < |sch|
    requires Denotes(sch[d].fields, data, sm, mem) && sm.field >= 0
    requires var f := sch[d].fields[sm.field]; f.rule != REPEATED && f.oneof.None? && TypedSlot(sch, f, s)
    requires alloc.Valid() && alloc.live == rest + OwnedSlot(s)
    modifies alloc
    ensures alloc.Valid() && alloc.live == rest + OwnedSlot(s') && alloc.refusals >= old(alloc.refusals)
    ensures SlotResult(sch, sch[d].fields[sm.field], mem, s, ok, s', alloc.refusals > old(alloc.refusals))
    decreases sm.len, 1
  {
    hide ValueResult, SlotResult, ValidSchema, TablesFor, TypedSlot, TypedValue, OwnedValue, Denotes;
    DenotedFieldIs(sch[d].fields, data, sm, mem);
    var f := sch[d].fields[sm.field];
    TypedSingle(sch, f, s);
    var v;
    ok, v := ParseRequiredMember(sch, tables, d, data, sm, mem, s.v, true, alloc, rest);
    SingleParsed(sch, f, mem, s, ok, v, alloc.refusals > old(alloc.refusals));
    s' := HSingle(s.has || (ok && HasBit(f)), v);
  }

  /** parse_member for a field that is not in a oneof. */
  method ParseSlot(sch: Schema, tables: seq<FieldTable>, d: nat, data: seq<byte>, sm: ScannedMember, ghost mem: Member,
                   s: HSlot, alloc: Allocator, ghost rest: multiset<Block>)
    returns (ok: bool, s': HSlot)
    requires ValidSchema(sch) && TablesFor(tables, sch) && d < |sch|
    requires Denotes(sch[d].fields, data, sm, mem) && sm.field >= 0
    requires var f := sch[d].fields[sm.field]; f.oneof.None? && TypedSlot(sch, f, s)
    requires Countable(sch[d].fields, mem) && (s.HMany? ==> |s.vs| + Room(sch[d].fields, sm.field, mem) <= s.cap)
    requires alloc.Valid() && alloc.live == rest + OwnedSlot(s)
    modifies alloc
    ensures alloc.Valid() && alloc.live == rest + OwnedSlot(s') && alloc.refusals >= old(alloc.refusals)
    ensures SlotResult(sch, sch[d].fields[sm.field], mem, s, ok, s', alloc.refusals > old(alloc.refusals))
    decreases sm.len, 2
  {
    hide SlotResult, ValidSchema, TablesFor, TypedSlot, OwnedSlot, Denotes, PackedCount;
    DenotedFieldIs(sch[d].fields, data, sm, mem);
    var f := sch[d].fields[sm.field];
    PackedIsPackable(sch, d, sm.field);
    if f.rule == REPEATED {
      RepeatedIsMany(sch, f, s);
      if sm.wireType == WIRE_PREFIXED && (f.packed || IsPackable(f.ty)) {
        PayloadOf(sch[d].fields, data, sm, mem);
        ok, s' := ParsePackedMember(sch, f, data[sm.at + sm.prefixLen..sm.at + sm.len], mem, s);
      } else {
        ok, s' := ParseRepeatedMember(sch, tables, d, data, sm, mem, s, alloc, rest);
      }
    } else {
      ok, s' := ParseSingleMember(sch, tables, d, data, sm, mem, s, alloc, rest);
    }
  }

  /** parse_oneof_member: a member that was parsed before is freed first. */
  method ParseOneofMember(sch: Schema, tables: seq<FieldTable>, d: nat, data: seq<byte>, sm: ScannedMember, ghost mem: Member,
                          g: nat, o: HOneof, alloc: Allocator, ghost rest: multiset<Block>)
    returns (ok: bool, o': HOneof)
    requires ValidSchema(sch) && TablesFor(tables, sch) && d < |sch|
    requires Denotes(sch[d].fields, data, sm, mem) && sm.field >= 0 && sch[d].fields[sm.field].oneof == Some(g)
    requires TypedOneof(sch, sch[d], g, o)
    requires alloc.Valid() && alloc.live == rest + OwnedOneof(o)
    modifies alloc
    ensures alloc.Valid() && alloc.live == rest + OwnedOneof(o') && alloc.refusals >= old(alloc.refusals)
    ensures OneofResult(sch, d, g, sch[d].fields[sm.field], mem, ok, o', alloc.refusals > old(alloc.refusals))
    decreases sm.len, 1
  {
    hide ValueResult, OneofResult, ValidSchema, TablesFor, TypedOneof, TypedValue, OwnedOneof, OwnedValue, Denotes, Zeroed;
    DenotedFieldIs(sch[d].fields, data, sm, mem);
    var kept := o;
    if o.HChosen? {
      var index := FieldIndex(sch, tables, d, o.id);
      KeptCase(sch, d, g, o, index);
      FreeValue(sch, sch[d].fields[index], o.v, alloc, rest);
      kept := HChosen(o.id, Zeroed(sch[d].fields[index]));
    } else {
      UnsetOwnsNothing(o);
      assert rest + multiset{} == rest;
    }
    var f := sch[d].fields[sm.field];
    ZeroedIsTyped(sch, f);
    assert rest + multiset{} == rest;
    var v;
    ok, v := ParseRequiredMember(sch, tables, d, data, sm, mem, Zeroed(f), true, alloc, rest);
    OneofParsed(sch, d, g, sm.field, mem, ok, v, kept, alloc.refusals > old(alloc.refusals));
    o' := if ok then HChosen(sm.tag, v) else kept;
  }

  /** A member without a field: its record is there even when its data could not be copied. */
  method ParseUnknown(sch: Schema, data: seq<byte>, sm: ScannedMember, ghost mem: Member, m: HMessage,
                      alloc: Allocator, ghost rest: multiset<Block>)
    returns (ok: bool, m': HMessage)
    requires Typed(sch, m) && Denotes(sch[m.desc].fields, data, sm, mem) && sm.field < 0 && |m.unknown| < m.unknownCap
    requires alloc.Valid() && alloc.live == rest + Owned(m)
    modifies alloc
    ensures alloc.Valid() && alloc.live == rest + Owned(m') && alloc.refusals >= old(alloc.refusals)
    ensures MemberResult(sch, mem, m, ok, m', alloc.refusals > old(alloc.refusals)) && |m'.unknown| == |m.unknown| + 1
  {
    hide Typed, Denotes, MemberResult, Owned;
    DenotedFieldIs(sch[m.desc].fields, data, sm, mem);
    DenotedDataIs(sch[m.desc].fields, data, sm, mem);
    var block := alloc.Alloc();
    var record := HUnknown(Member(sm.tag, sm.wireType, data[sm.at..sm.at + sm.len]), block);
    UnknownAdded(sch, mem, m, block, alloc.refusals > old(alloc.refusals));
    m' := m.(unknown := m.unknown + [record]);
    ok := block.Some?;
    assert ok ==> rest + Owned(m) + multiset{block.value} == rest + (Owned(m) + multiset{block.value});
  }

  /** parse_member */
  method ParseMember(sch: Schema, tables: seq<FieldTable>, data: seq<byte>, sm: ScannedMember, ghost mem: Member, m: HMessage,
                     alloc: Allocator, ghost rest: multiset<Block>)
    returns (ok: bool, m': HMessage)
    requires ValidSchema(sch) && TablesFor(tables, sch) && Typed(sch, m)
    requires Denotes(sch[m.desc].fields, data, sm, mem)
    requires Countable(sch[m.desc].fields, mem) && HasRoom(sch[m.desc].fields, m, mem)
    requires alloc.Valid() && alloc.live == rest + Owned(m)
    modifies alloc
    ensures alloc.Valid() && alloc.live == rest + Owned(m') && alloc.refusals >= old(alloc.refusals)
    ensures MemberResult(sch, mem, m, ok, m', alloc.refusals > old(alloc.refusals))
    ensures |m'.unknown| == |m.unknown| + if FindField(sch[m.desc].fields, mem.tag) < 0 then 1 else 0
    decreases sm.len, 3
  {
    hide MemberResult, SlotResult, OneofResult, ValidSchema, TablesFor, Typed, TypedSlot, TypedOneof, Owned, OwnedSlot, OwnedOneof,
         Denotes, Countable, Room, BesideSlot, BesideOneof;
    DenotedFieldIs(sch[m.desc].fields, data, sm, mem);
    if sm.field < 0 {
      ok, m' := ParseUnknown(sch, data, sm, mem, m, alloc, rest);
      return;
    }
    var i := sm.field;
    PackedIsPackable(sch, m.desc, i);
    if sch[m.desc].fields[i].oneof.Some? {
      var g := sch[m.desc].fields[i].oneof.value;
      TypedOneofAt(sch, m, g);
      OneofReplaced(m, g, m.oneofs[g]);
      var o;
      ok, o := ParseOneofMember(sch, tables, m.desc, data, sm, mem, g, m.oneofs[g], alloc, rest + BesideOneof(m, g));
      OneofReplaced(m, g, o);
      OneofMember(sch, mem, m, i, g, ok, o, alloc.refusals > old(alloc.refusals));
      m' := m.(oneofs := m.oneofs[g := o]);
    } else {
      TypedAt(sch, m, i);
      SlotReplaced(m, i, m.slots[i]);
      var s;
      ok, s := ParseSlot(sch, tables, m.desc, data, sm, mem, m.slots[i], alloc, rest + BesideSlot(m, i));
      SlotReplaced(m, i, s);
      SlotMember(sch, mem, m, i, ok, s, alloc.refusals > old(alloc.refusals));
      m' := m.(slots := m.slots[i := s]);
    }
  }

  // ---- Reserving ------------------------------------------------------------------------------

  /** The required fields before `i` that have no default value are there. */
  ghost predicate RequiredTo(desc: Descriptor, ms: seq<Member>, i: nat) {
    forall k :: 0 <= k < |desc.fields| && k < i && desc.fields[k].rule == REQUIRED && !desc.fields[k].hasDefault
      ==> HasMember(ms, desc.fields[k].id)
  }

  /** The loop between the passes: arrays for repeated fields, and the check for required ones. */
  method ReserveArrays(sch: Schema, d: nat, counts: array<nat>, bitmap: array<bv8>, ghost ms: seq<Member>, ghost nUnknown: nat,
                       m: HMessage, alloc: Allocator, ghost rest: multiset<Block>)
    returns (ok: bool, m': HMessage)
    requires d < |sch| && Tallied(sch[d].fields, ms, counts[..], bitmap[..], nUnknown)
    requires m == HInit(sch, d, m.block)
    requires alloc.Valid() && alloc.live == rest + Owned(m)
    modifies alloc
    ensures alloc.Valid() && alloc.live == rest + Owned(m') && alloc.refusals >= old(alloc.refusals)
    ensures Typed(sch, m') && m'.desc == d && m'.unknown == [] && m'.unknownArray == None
    ensures ok ==> ReservedTo(sch, d, counts[..], |counts[..]|, m') && RequiredPresent(sch[d], ms)
    ensures !ok ==> !RequiredPresent(sch[d], ms) || alloc.refusals > old(alloc.refusals)
  {
    hide Owned, Typed, Tallied, ReservedTo, HasMember, HInit, BesideSlot, OwnedSlot;
    var fields := sch[d].fields;
    TalliedSize(fields, ms, counts[..], bitmap[..], nUnknown);
    ReservedAtFirst(sch, d, counts[..], m.block);
    m' := m;
    for f := 0 to |fields|
      invariant alloc.Valid() && alloc.live == rest + Owned(m') && alloc.refusals >= old(alloc.refusals)
      invariant ReservedTo(sch, d, counts[..], f, m') && RequiredTo(sch[d], ms, f)
    {
      ReservedFacts(sch, d, counts[..], f, m');
      var s := m'.slots[f];
      assert m'.slots[f := s] == m'.slots;
      if fields[f].rule == REPEATED {
        if counts[f] != 0 {
          var a := alloc.Alloc();
          if a.None? {
            return false, m';
          }
          s := HMany(a, counts[f], []);
          SlotReplaced(m', f, s);
          ArrayOwns(fields[f], a.value, counts[f]);
          assert rest + Owned(m') + multiset{a.value} == rest + Owned(m'.(slots := m'.slots[f := s]));
        }
      } else if fields[f].rule == REQUIRED {
        MarkIs(fields, ms, counts[..], bitmap[..], nUnknown, f);
        if !fields[f].hasDefault && !IsSet(bitmap[..], f) {
          return false, m';
        }
      }
      ReserveStep(sch, d, counts[..], f, m', s);
      m' := m'.(slots := m'.slots[f := s]);
    }
    ReservedFacts(sch, d, counts[..], |fields|, m');
    ok := true;
  }

  lemma ArrayOwns(f: FieldDescriptor, a: Block, count: nat)
    requires f.rule == REPEATED
    ensures OwnedSlot(HInitSlot(f)) == multiset{} && OwnedSlot(HMany(Some(a), count, [])) == multiset{a}
  {}

  lemma TalliedSize(fields: seq<FieldDescriptor>, ms: seq<Member>, counts: seq<nat>, bitmap: seq<bv8>, nUnknown: nat)
    requires Tallied(fields, ms, counts, bitmap, nUnknown)
    ensures |counts| == |fields| <= 8 * |bitmap| && nUnknown == Unknowns(fields, ms)
    ensures forall f :: 0 <= f < |fields| ==> counts[f] == Reserved(fields, f, ms)
  {}

  lemma MarkIs(fields: seq<FieldDescriptor>, ms: seq<Member>, counts: seq<nat>, bitmap: seq<bv8>, nUnknown: nat, f: nat)
    requires Tallied(fields, ms, counts, bitmap, nUnknown) && f < |fields|
    ensures IsSet(bitmap, f) <==> fields[f].rule == REQUIRED && HasMember(ms, fields[f].id)
  {}

  lemma ReservedFacts(sch: Schema, d: nat, counts: seq<nat>, i: nat, m: HMessage)
    requires ReservedTo(sch, d, counts, i, m)
    ensures |m.slots| == |sch[d].fields| == |counts| && Typed(sch, m) && m.desc == d && m.unknown == [] && m.unknownArray == None
    ensures forall f :: i <= f < |m.slots| ==> m.slots[f] == HInitSlot(sch[d].fields[f])
    ensures forall f :: 0 <= f < |m.slots| ==> SlotReserved(sch[d].fields[f], counts[f], f < i, m.slots[f])
  {
    ReservedIsInit(sch, d, counts, i, m);
  }

  /** All that happens between the two passes. */
  method Reserve(sch: Schema, d: nat, counts: array<nat>, bitmap: array<bv8>, ghost ms: seq<Member>, nUnknown: nat,
                 m: HMessage, alloc: Allocator, ghost rest: multiset<Block>)
    returns (ok: bool, m': HMessage)
    requires d < |sch| && Tallied(sch[d].fields, ms, counts[..], bitmap[..], nUnknown)
    requires m == HInit(sch, d, m.block)
    requires alloc.Valid() && alloc.live == rest + Owned(m)
    modifies alloc
    ensures alloc.Valid() && alloc.live == rest + Owned(m') && alloc.refusals >= old(alloc.refusals)
    ensures Typed(sch, m') && m'.desc == d
    ensures ok ==> FilledTo(sch, d, ms, 0, m') && RequiredPresent(sch[d], ms)
    ensures !ok ==> !RequiredPresent(sch[d], ms) || alloc.refusals > old(alloc.refusals)
  {
    hide Owned, Typed, Tallied, ReservedTo, RequiredPresent, FilledTo, HInit;
    ok, m' := ReserveArrays(sch, d, counts, bitmap, ms, nUnknown, m, alloc, rest);
    if !ok {
      return;
    }
    ghost var reserved := m';
    TalliedSize(sch[d].fields, ms, counts[..], bitmap[..], nUnknown);
    ReservedFacts(sch, d, counts[..], |counts[..]|, m');
    // allocate space for unknown fields
    if nUnknown != 0 {
      var a := alloc.Alloc();
      if a.None? {
        return false, m';
      }
      UnknownArrayOwned(sch, m', a.value, nUnknown);
      m' := m'.(unknownArray := a, unknownCap := nUnknown);
      assert rest + Owned(reserved) + multiset{a.value} == rest + Owned(m');
    } else {
      InitHasNoUnknowns(sch, d, counts[..], m');
    }
    FillStarts(sch, d, counts[..], ms, reserved, m');
  }

  lemma InitHasNoUnknowns(sch: Schema, d: nat, counts: seq<nat>, m: HMessage)
    requires ReservedTo(sch, d, counts, |counts|, m)
    ensures m == m.(unknownArray := m.unknownArray, unknownCap := 0)
  {}

  lemma UnknownArrayOwned(sch: Schema, m: HMessage, a: Block, n: nat)
    requires Typed(sch, m) && m.unknownArray == None
    ensures Owned(m.(unknownArray := Some(a), unknownCap := n)) == Owned(m) + multiset{a}
    ensures Typed(sch, m.(unknownArray := Some(a), unknownCap := n))
  {
    hide OwnedSlots, OwnedOneofs, OwnedUnknown, TypedSlot, TypedOneof;
  }

  // ---- The second pass ------------------------------------------------------------------------

  /** The inner loop: the members of one slab, which are those from position `from` on. */
  method ParseSlab(sch: Schema, tables: seq<FieldTable>, d: nat, data: seq<byte>, slabs: MemberSlabs, k: nat, ghost ms: seq<Member>,
                   m: HMessage, alloc: Allocator, ghost rest: multiset<Block>)
    returns (ok: bool, m': HMessage)
    requires ValidSchema(sch) && TablesFor(tables, sch) && d < |sch|
    requires slabs.Valid() && k < |slabs.slabs| && ScanAll(data) == Some(ms)
    requires AllDenote(sch[d].fields, data, slabs.members, ms) && AllCountable(sch[d].fields, ms)
    requires FilledTo(sch, d, ms, Before(k), m)
    requires alloc.Valid() && alloc.live == rest + Owned(m)
    modifies alloc
    ensures alloc.Valid() && alloc.live == rest + Owned(m') && alloc.refusals >= old(alloc.refusals)
    ensures Typed(sch, m') && m'.desc == d
    ensures ok ==> FilledTo(sch, d, ms, Before(k) + slabs.Used(k), m')
    ensures !ok ==> Parse(sch, d, data).None? || alloc.refusals > old(alloc.refusals)
    decreases |data|, 0
  {
    hide ValidSchema, TablesFor, Owned, Typed, FilledTo, MemberResult, Countable, HasRoom, Denotes, ScanAll, Parse, Before, SlabSize;
    assert slabs.Holds(k);
    m' := m;
    for j := 0 to slabs.Used(k)
      invariant alloc.Valid() && alloc.live == rest + Owned(m') && alloc.refusals >= old(alloc.refusals)
      invariant FilledTo(sch, d, ms, Before(k) + j, m')
    {
      ghost var n := Before(k) + j;
      ghost var before := m';
      ghost var refusals := alloc.refusals;
      var sm := slabs.slabs[k][j];
      assert Denotes(sch[d].fields, data, sm, ms[n]);
      DenotedFieldIs(sch[d].fields, data, sm, ms[n]);
      FilledFacts(sch, d, ms, n, m');
      RoomForNext(sch, d, ms, n, m');
      ok, m' := ParseMember(sch, tables, data, sm, ms[n], m', alloc, rest);
      MemberResultFacts(sch, ms[n], before, ok, m', alloc.refusals > refusals);
      if !ok {
        if Apply(sch, ms[n], Erase(before)).None? {
          FillFails(sch, d, data, ms, n, before);
        }
        return;
      }
      FillStep(sch, d, ms, n, before, m', alloc.refusals > refusals);
    }
    FilledFacts(sch, d, ms, Before(k) + slabs.Used(k), m');
    ok := true;
  }

  lemma FilledFacts(sch: Schema, d: nat, ms: seq<Member>, n: nat, m: HMessage)
    requires FilledTo(sch, d, ms, n, m)
    ensures Typed(sch, m) && m.desc == d
  {}

  lemma MemberResultFacts(sch: Schema, mem: Member, m: HMessage, ok: bool, m': HMessage, refused: bool)
    requires MemberResult(sch, mem, m, ok, m', refused)
    ensures Typed(sch, m') && m'.desc == m.desc
    ensures !ok ==> Apply(sch, mem, Erase(m)).None? || refused
  {}

  /** The loops over slabs and members: every member that was scanned is parsed, in wire order. */
  method ParseMembers(sch: Schema, tables: seq<FieldTable>, d: nat, data: seq<byte>, slabs: MemberSlabs, ghost ms: seq<Member>,
                      m: HMessage, alloc: Allocator, ghost rest: multiset<Block>)
    returns (ok: bool, m': HMessage)
    requires ValidSchema(sch) && TablesFor(tables, sch) && d < |sch|
    requires slabs.Valid() && ScanAll(data) == Some(ms)
    requires AllDenote(sch[d].fields, data, slabs.members, ms) && AllCountable(sch[d].fields, ms)
    requires FilledTo(sch, d, ms, 0, m)
    requires alloc.Valid() && alloc.live == rest + Owned(m)
    modifies alloc
    ensures alloc.Valid() && alloc.live == rest + Owned(m') && alloc.refusals >= old(alloc.refusals)
    ensures Typed(sch, m') && m'.desc == d
    ensures ok ==> FilledTo(sch, d, ms, |ms|, m')
    ensures !ok ==> Parse(sch, d, data).None? || alloc.refusals > old(alloc.refusals)
    decreases |data|, 1
  {
    hide ValidSchema, TablesFor, Owned, Typed, FilledTo, Countable, Denotes, ScanAll, Parse, Before, SlabSize;
    FilledFacts(sch, d, ms, 0, m);
    m' := m;
    ghost var n := 0;
    NoneBefore();
    for i := 0 to |slabs.slabs|
      invariant alloc.Valid() && alloc.live == rest + Owned(m') && alloc.refusals >= old(alloc.refusals)
      invariant n == if i < |slabs.slabs| then Before(i) else |ms|
      invariant FilledTo(sch, d, ms, n, m') && Typed(sch, m') && m'.desc == d
    {
      BeforeNext(i);
      ok, m' := ParseSlab(sch, tables, d, data, slabs, i, ms, m', alloc, rest);
      if !ok {
        return;
      }
      n := Before(i) + slabs.Used(i);
    }
    ok := true;
  }

  lemma NoneBefore()
    ensures Before(0) == 0
  {}

  // ---- protobuf_c_message_unpack --------------------------------------------------------------

  /** Everything after the first pass; the slabs stay with the caller. */
  method UnpackScanned(sch: Schema, tables: seq<FieldTable>, d: nat, data: seq<byte>, block: Block, counts: array<nat>, bitmap: array<bv8>,
                       slabs: MemberSlabs, ghost ms: seq<Member>, nUnknown: nat, alloc: Allocator, ghost rest: multiset<Block>)
    returns (rv: Option<HMessage>)
    requires ValidSchema(sch) && TablesFor(tables, sch) && d < |sch|
    requires Tallied(sch[d].fields, ms, counts[..], bitmap[..], nUnknown)
    requires slabs.Valid() && ScanAll(data) == Some(ms) && |ms| <= MAX_MEMBERS
    requires AllDenote(sch[d].fields, data, slabs.members, ms) && AllCountable(sch[d].fields, ms)
    requires alloc.Valid() && alloc.live == rest + multiset{block}
    modifies alloc
    ensures alloc.Valid() && alloc.refusals >= old(alloc.refusals)
    ensures rv.Some? ==> alloc.live == rest + Owned(rv.value) && Complete(sch, rv.value) && rv.value.desc == d
    ensures rv.Some? ==> Parse(sch, d, data) == Some(Erase(rv.value))
    ensures rv.None? ==> alloc.live == rest && (Parse(sch, d, data).None? || alloc.refusals > old(alloc.refusals))
    decreases |data|, 2
  {
    hide ValidSchema, TablesFor, Owned, Typed, Complete, Tallied, FilledTo, AllDenote, AllCountable, ScanAll, Parse, RequiredPresent, HInit,
         Allocator.Valid, MemberSlabs.Valid, Erase;
    var m := HInit(sch, d, block);
    InitIs(sch, d, block);
    InitBlock(sch, d, block);
    var ok;
    ok, m := Reserve(sch, d, counts, bitmap, ms, nUnknown, m, alloc, rest);
    if ok {
      ok, m := ParseMembers(sch, tables, d, data, slabs, ms, m, alloc, rest);
    } else if !RequiredPresent(sch[d], ms) {
      RequiredMissing(sch, d, data, ms);
    }
    if !ok {
      FreeUnpacked(sch, m, alloc, rest);
      return None;
    }
    FilledIsParsed(sch, d, data, ms, m);
    return Some(m);
  }

  lemma InOtherOrder(a: multiset<Block>, b: multiset<Block>, c: multiset<Block>)
    ensures a + b + c == (a + c) + b
  {}

  /** Unpacking after the message itself and the bitmap have been allocated. */
  method UnpackInto(sch: Schema, tables: seq<FieldTable>, d: nat, data: seq<byte>, block: Block, counts: array<nat>, bitmap: array<bv8>,
                    alloc: Allocator, ghost rest: multiset<Block>)
    returns (rv: Option<HMessage>)
    requires ValidSchema(sch) && TablesFor(tables, sch) && d < |sch| && counts as object != bitmap as object
    requires Tallied(sch[d].fields, [], counts[..], bitmap[..], 0)
    requires alloc.Valid() && alloc.live == rest + multiset{block}
    modifies alloc, counts, bitmap
    ensures alloc.Valid() && alloc.refusals >= old(alloc.refusals)
    ensures rv.Some? ==> alloc.live == rest + Owned(rv.value) && Complete(sch, rv.value) && rv.value.desc == d
    ensures rv.Some? ==> Parse(sch, d, data) == Some(Erase(rv.value))
    ensures rv.None? ==> alloc.live == rest && (Parse(sch, d, data).None? || alloc.refusals > old(alloc.refusals))
    decreases |data|, 3
  {
    hide ValidSchema, TablesFor, Owned, Typed, Complete, Tallied, AllDenote, AllCountable, ScanAll, Parse, HInit,
         Allocator.Valid, MemberSlabs.Valid, Erase, Shaped;
    var ok, slabs, nUnknown;
    ghost var ms;
    ok, slabs, nUnknown, ms := ScanMembers(sch, tables, d, data, counts, bitmap, alloc, rest + multiset{block});
    ghost var held := multiset(slabs.blocks);
    InOtherOrder(rest, multiset{block}, held);
    if !ok {
      FreeBlock(Some(block), alloc, rest + held);
      slabs.Release(alloc, rest);
      return None;
    }
    rv := UnpackScanned(sch, tables, d, data, block, counts, bitmap, slabs, ms, nUnknown, alloc, rest + held);
    if rv.Some? {
      InOtherOrder(rest, held, Owned(rv.value));
      slabs.Release(alloc, rest + Owned(rv.value));
    } else {
      slabs.Release(alloc, rest);
    }
  }

  lemma InitBlock(sch: Schema, d: nat, block: Block)
    requires d < |sch|
    ensures HInit(sch, d, block).block == block
  {}

  lemma RequiredMissing(sch: Schema, d: nat, data: seq<byte>, ms: seq<Member>)
    requires d < |sch| && ScanAll(data) == Some(ms) && !RequiredPresent(sch[d], ms)
    ensures Parse(sch, d, data).None?
  {}

  lemma NothingTallied(fields: seq<FieldDescriptor>, counts: seq<nat>, bitmap: seq<bv8>)
    requires |counts| == |fields| <= 8 * |bitmap|
    requires forall f :: 0 <= f < |counts| ==> counts[f] == 0
    requires forall k :: 0 <= k < |bitmap| ==> bitmap[k] == 0
    ensures Tallied(fields, [], counts, bitmap, 0)
  {}

  /**
   protobuf_c_message_unpack: a message comes back exactly when the bytes mean one, unless an
   allocation was refused, and the blocks that it owns are all that was allocated and not freed.
   */
  method Unpack(sch: Schema, tables: seq<FieldTable>, d: nat, data: seq<byte>, alloc: Allocator, ghost rest: multiset<Block>)
    returns (rv: Option<HMessage>)
    requires ValidSchema(sch) && TablesFor(tables, sch) && d < |sch|
    requires alloc.Valid() && alloc.live == rest
    modifies alloc
    ensures alloc.Valid() && alloc.refusals >= old(alloc.refusals)
    ensures rv.Some? ==> alloc.live == rest + Owned(rv.value) && Complete(sch, rv.value) && rv.value.desc == d
    ensures rv.Some? ==> Parse(sch, d, data) == Some(Erase(rv.value))
    ensures rv.None? ==> alloc.live == rest && (Parse(sch, d, data).None? || alloc.refusals > old(alloc.refusals))
    decreases |data|, 4
  {
    hide ValidSchema, TablesFor, Owned, Complete, Parse, Tallied, Erase, Allocator.Valid, Shaped, OwnedBlock;
    var block := alloc.Alloc();
    if block.None? {
      return None;
    }
    var ok, bitmap, bitmapBlock := AllocBitmap(|sch[d].fields|, alloc, rest + multiset{block.value});
    if !ok {
      OneBlock(block.value);
      FreeBlock(block, alloc, rest);
      return None;
    }
    var counts := new nat[|sch[d].fields|](_ => 0);
    NothingTallied(sch[d].fields, counts[..], bitmap[..]);
    InOtherOrder(rest, multiset{block.value}, OwnedBlock(bitmapBlock));
    rv := UnpackInto(sch, tables, d, data, block.value, counts, bitmap, alloc, rest + OwnedBlock(bitmapBlock));
    if rv.Some? {
      InOtherOrder(rest, OwnedBlock(bitmapBlock), Owned(rv.value));
      FreeBlock(bitmapBlock, alloc, rest + Owned(rv.value));
    } else {
      FreeBlock(bitmapBlock, alloc, rest);
    }
  }

  lemma OneBlock(b: Block)
    ensures OwnedBlock(Some(b)) == multiset{b}
  {}

  /** The bitmap of the required fields: on the stack, unless there are more than 128 fields. */
  method AllocBitmap(nFields: nat, alloc: Allocator, ghost rest: multiset<Block>)
    returns (ok: bool, bitmap: array<bv8>, block: Option<Block>)
    requires alloc.Valid() && alloc.live == rest
    modifies alloc
    ensures alloc.Valid() && alloc.live == rest + OwnedBlock(block)
    ensures ok ==> alloc.refusals == old(alloc.refusals)
    ensures !ok ==> block.None? && alloc.live == rest && alloc.refusals > old(alloc.refusals)
    ensures fresh(bitmap) && nFields <= 8 * bitmap.Length && forall k :: 0 <= k < bitmap.Length ==> bitmap[k] == 0
  {
    var len := (nFields + 7) / 8;
    bitmap := new bv8[if len > 16 then len else 16](_ => 0);
    assert rest + multiset{} == rest;
    ok, block := true, None;
    if len > 16 {
      block := alloc.Alloc();
      ok := block.Some?;
    }
  }
}

/** Both directions together: what is packed can be unpacked, and what is unpacked can be freed. */
module EndToEnd {
  import opened Bytes
  import opened Schema
  import opened Wire
  import opened Parsing
  import opened Canonical
  import opened RoundTrip
  import opened Sizes
  import opened Pack
  import opened FieldTables
  import opened Heap
  import opened Free
  import opened Unpacking

  /**
   A message that is measured, packed into a block of that size and unpacked: it comes back in its
   canonical form exactly when it fits, unless an allocation was refused.
   */
  method SendAndReceive(sch: Schema, tables: seq<FieldTable>, m: Message, alloc: Allocator)
    returns (rv: Option<HMessage>)
    requires ValidSchema(sch) && TablesFor(tables, sch) && WellFormed(sch, m) && |Encode(sch, m)| <= INT_MAX
    requires alloc.Valid()
    modifies alloc
    ensures alloc.Valid()
    ensures rv.Some? ==> Fits(sch, m) && Erase(rv.value) == Normalize(sch, m) && alloc.live == old(alloc.live) + Owned(rv.value)
    ensures rv.None? ==> (!Fits(sch, m) || alloc.refusals > old(alloc.refusals)) && alloc.live == old(alloc.live)
  {
    hide Erase, Owned, Normalize, Parse, Complete, ValidSchema, Encode, Fits;
    assert m.desc < |sch|;
    hide WellFormed;
    RoundTrips(sch, m);
    var size := MessageSize(sch, m);
    var out := new byte[size](_ => 0);
    ghost var blank := out[..];
    var n := MessagePack(sch, m, out, 0);
    assert blank[..0] + Encode(sch, m) + blank[size..] == Encode(sch, m);
    assert out[..] == Encode(sch, m);
    rv := Unpack(sch, tables, m.desc, out[..], alloc, alloc.live);
  }

  /** Unpacking any bytes and freeing the result leaves the heap as it was. */
  method UnpackAndFree(sch: Schema, tables: seq<FieldTable>, d: nat, data: seq<byte>, alloc: Allocator)
    requires ValidSchema(sch) && TablesFor(tables, sch) && d < |sch|
    requires alloc.Valid()
    modifies alloc
    ensures alloc.Valid() && alloc.live == old(alloc.live)
  {
    hide Erase, Owned, Parse, Complete, Typed, ValidSchema;
    var m := Unpack(sch, tables, d, data, alloc, alloc.live);
    if m.Some? {
      CompleteIsTyped(sch, m.value);
      FreeUnpacked(sch, m.value, alloc, old(alloc.live));
    }
  }
}
