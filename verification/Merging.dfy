/**
 Concatenation is merging: unpacking two packed messages laid end to end gives the merge of the two
 messages. It holds for all messages on schemas of optional scalars with a has-bit, optional strings,
 optional submessages and repeated fields. Merging is associative on any schema without oneofs.
 Regrouping.dfy says which messages it is associative for on the others, and Concatenation.dfy which
 messages the law holds for.
 */
module MergeLaw {
  import opened Bytes
  import opened Schema
  import opened Wire
  import opened Scan
  import opened Parsing

  predicate OneofFree(sch: Schema) {
    && ValidSchema(sch)
    && forall d :: 0 <= d < |sch| ==>
         sch[d].nOneofs == 0 && forall i :: 0 <= i < |sch[d].fields| ==> sch[d].fields[i].oneof.None?
  }

  predicate MergeableField(f: FieldDescriptor) {
    f.oneof.None? && (f.rule == REPEATED || (f.rule == OPTIONAL && f.ty != BYTES))
  }

  predicate MergeableSchema(sch: Schema) {
    && OneofFree(sch)
    && forall d :: 0 <= d < |sch| ==>
         forall i :: 0 <= i < |sch[d].fields| ==> MergeableField(sch[d].fields[i])
  }

  // ---- The messages that unpacking builds -----------------------------------------------------

  ghost predicate ShapedValue(sch: Schema, f: FieldDescriptor, v: Value)
    decreases v, 0
  {
    if f.ty == MESSAGE then v.NoMsg? || (v.Msg? && v.m.desc == f.sub && Shaped(sch, v.m))
    else if f.ty == STRING then v.Text?
    else if f.ty == BYTES then v.Blob?
    else v.Word?
  }

  ghost predicate ShapedSlot(sch: Schema, f: FieldDescriptor, s: Slot)
    decreases s, 1
  {
    if f.rule == REPEATED then s.Many?
    else
      && s.Single?
      && ShapedValue(sch, f, s.v)
      && (s.has ==> HasBit(f))
      && (HasBit(f) && !s.has ==> s.v == InitValue(f))
  }

  ghost predicate Shaped(sch: Schema, m: Message)
    decreases m, 2
  {
    && m.desc < |sch|
    && |m.slots| == |sch[m.desc].fields|
    && m.oneofs == []
    && forall i :: 0 <= i < |m.slots| ==> ShapedSlot(sch, sch[m.desc].fields[i], m.slots[i])
  }

  ghost predicate ShapedSlots(sch: Schema, fields: seq<FieldDescriptor>, s: seq<Slot>) {
    |s| == |fields| && forall i :: 0 <= i < |s| ==> ShapedSlot(sch, fields[i], s[i])
  }

  predicate OutsideOneofs(fields: seq<FieldDescriptor>) {
    forall i :: 0 <= i < |fields| ==> fields[i].oneof.None?
  }

  // ---- merge_messages on such messages --------------------------------------------------------

  lemma {:induction false} MergeSlotTotal(sch: Schema, f: FieldDescriptor, e: Slot, l: Slot)
    requires OneofFree(sch) && f.oneof.None? && ShapedSlot(sch, f, e) && ShapedSlot(sch, f, l)
    ensures MergeSlot(sch, f, e, l).Some? && ShapedSlot(sch, f, MergeSlot(sch, f, e, l).value)
    decreases e, 1
  {
    hide Merge, Shaped, InitValue;
    if f.rule != REPEATED && e.v.Msg? && l.v.Msg? {
      MergeTotal(sch, e.v.m, l.v.m);
    }
  }

  lemma {:induction false} MergeSlotsTotal(sch: Schema, fields: seq<FieldDescriptor>, e: seq<Slot>, l: seq<Slot>)
    requires OneofFree(sch) && OutsideOneofs(fields)
    requires ShapedSlots(sch, fields, e) && ShapedSlots(sch, fields, l)
    ensures MergeSlots(sch, fields, e, l).Some? && ShapedSlots(sch, fields, MergeSlots(sch, fields, e, l).value)
    ensures forall i :: 0 <= i < |l| ==>
              MergeSlot(sch, fields[i], e[i], l[i]) == Some(MergeSlots(sch, fields, e, l).value[i])
    decreases e, 2
  {
    hide MergeSlot, ShapedSlot;
    if l != [] {
      var n := |l| - 1;
      MergeSlotsTotal(sch, fields[..n], e[..n], l[..n]);
      MergeSlotTotal(sch, fields[n], e[n], l[n]);
    }
  }

  /** Merging never fails, and gives a message of the same type. */
  lemma {:induction false} MergeTotal(sch: Schema, e: Message, l: Message)
    requires OneofFree(sch) && Shaped(sch, e) && Shaped(sch, l) && e.desc == l.desc
    ensures Merge(sch, e, l).Some? && Shaped(sch, Merge(sch, e, l).value)
    ensures forall i :: 0 <= i < |l.slots| ==>
              MergeSlot(sch, sch[l.desc].fields[i], e.slots[i], l.slots[i]) == Some(Merge(sch, e, l).value.slots[i])
    decreases e, 3
  {
    hide MergeSlots, MergeSlot, ShapedSlot;
    MergeSlotsTotal(sch, sch[l.desc].fields, e.slots, l.slots);
  }

  /** Merging is associative. */
  lemma {:induction false} MergeAssociative(sch: Schema, x: Message, y: Message, z: Message)
    requires OneofFree(sch) && Shaped(sch, x) && Shaped(sch, y) && Shaped(sch, z)
    requires x.desc == y.desc == z.desc
    ensures Merge(sch, x, y).Some? && Merge(sch, y, z).Some?
    ensures Merge(sch, Merge(sch, x, y).value, z) == Merge(sch, x, Merge(sch, y, z).value)
    decreases x, 1
  {
    hide MergeSlot, MergeSlots, ShapedSlot;
    MergeTotal(sch, x, y);
    MergeTotal(sch, y, z);
    var xy, yz := Merge(sch, x, y).value, Merge(sch, y, z).value;
    MergeTotal(sch, xy, z);
    MergeTotal(sch, x, yz);
    var a, b := Merge(sch, xy, z).value, Merge(sch, x, yz).value;
    forall i | 0 <= i < |x.slots|
      ensures a.slots[i] == b.slots[i]
    {
      MergeSlotAssociative(sch, sch[x.desc].fields[i], x.slots[i], y.slots[i], z.slots[i]);
    }
    assert a.slots == b.slots;
  }

  lemma {:induction false} MergeSlotAssociative(sch: Schema, f: FieldDescriptor, x: Slot, y: Slot, z: Slot)
    requires OneofFree(sch) && f.oneof.None?
    requires ShapedSlot(sch, f, x) && ShapedSlot(sch, f, y) && ShapedSlot(sch, f, z)
    ensures MergeSlot(sch, f, x, y).Some? && MergeSlot(sch, f, y, z).Some?
    ensures MergeSlot(sch, f, MergeSlot(sch, f, x, y).value, z) == MergeSlot(sch, f, x, MergeSlot(sch, f, y, z).value)
    decreases x, 0
  {
    hide Merge, Shaped;
    MergeSlotTotal(sch, f, x, y);
    MergeSlotTotal(sch, f, y, z);
    if f.rule == REPEATED {
      assert (x.vs + y.vs) + z.vs == x.vs + (y.vs + z.vs);
    } else if x.v.Msg? && y.v.Msg? && z.v.Msg? {
      MergeAssociative(sch, x.v.m, y.v.m, z.v.m);
    }
  }

  lemma InitIsShaped(sch: Schema, d: nat)
    requires OneofFree(sch) && d < |sch|
    ensures Shaped(sch, Init(sch, d))
  {
    hide ShapedSlot, InitSlot;
    forall i | 0 <= i < |sch[d].fields|
      ensures ShapedSlot(sch, sch[d].fields[i], InitSlot(sch[d].fields[i]))
    {
      InitSlotIsShaped(sch, sch[d].fields[i]);
    }
    assert Init(sch, d).oneofs == [];
  }

  lemma InitSlotIsShaped(sch: Schema, f: FieldDescriptor)
    requires f.oneof.None?
    ensures ShapedSlot(sch, f, InitSlot(f))
  {}

  /** The initial message is a unit on the left. */
  lemma MergeInitLeft(sch: Schema, m: Message)
    requires OneofFree(sch) && Shaped(sch, m)
    ensures Merge(sch, Init(sch, m.desc), m) == Some(m)
  {
    hide MergeSlots, Shaped;
    var init := Init(sch, m.desc);
    assert m.desc < |sch| && |m.slots| == |sch[m.desc].fields| by { ShapedSize(sch, m); }
    InitIsShaped(sch, m.desc);
    MergeTotal(sch, init, m);
    var r := Merge(sch, init, m).value;
    forall i | 0 <= i < |m.slots|
      ensures r.slots[i] == m.slots[i]
    {
      ShapedAt(sch, m, i);
      InitSlotLeft(sch, sch[m.desc].fields[i], m.slots[i]);
    }
    assert r.slots == m.slots;
    ShapedSize(sch, r);
    ShapedSize(sch, m);
  }

  lemma ShapedSize(sch: Schema, m: Message)
    requires Shaped(sch, m)
    ensures m.desc < |sch| && |m.slots| == |sch[m.desc].fields| && m.oneofs == []
  {}

  lemma ShapedAt(sch: Schema, m: Message, i: nat)
    requires OneofFree(sch) && Shaped(sch, m) && i < |m.slots|
    ensures ShapedSlot(sch, sch[m.desc].fields[i], m.slots[i]) && sch[m.desc].fields[i].oneof.None?
  {}

  lemma InitSlotLeft(sch: Schema, f: FieldDescriptor, s: Slot)
    requires f.oneof.None? && ShapedSlot(sch, f, s)
    ensures MergeSlot(sch, f, InitSlot(f), s) == Some(s)
  {
    hide Merge, Shaped;
    if f.rule == REPEATED { assert [] + s.vs == s.vs; }
  }

  lemma InitSlotRight(sch: Schema, f: FieldDescriptor, s: Slot)
    requires MergeableField(f) && ShapedSlot(sch, f, s)
    ensures MergeSlot(sch, f, s, InitSlot(f)) == Some(s)
  {
    hide Merge, Shaped;
    if f.rule == REPEATED { assert s.vs + [] == s.vs; }
  }

  /** Neither null, nor the default value, nor empty. */
  predicate IsFilled(v: Value) {
    v.Blob? && v.b.Own? && v.b.bytes != []
  }

  // ---- Unpacking builds such messages ---------------------------------------------------------

  lemma {:induction false} ParseValueShaped(sch: Schema, f: FieldDescriptor, mem: Member, held: Value)
    requires OneofFree(sch) && f.oneof.None? && ValidSub(sch, f)
    requires ShapedValue(sch, f, held)
    requires ParseValue(sch, f, mem, held).Some?
    ensures ShapedValue(sch, f, ParseValue(sch, f, mem, held).value)
    decreases |mem.data|, 0
  {
    hide Shaped, Merge, Parse, ParseScalar;
    if f.ty == MESSAGE {
      ParseShaped(sch, f.sub, Payload(mem));
      if held.Msg? {
        MergeTotal(sch, held.m, Parse(sch, f.sub, Payload(mem)).value);
      }
    }
  }

  predicate ValidSub(sch: Schema, f: FieldDescriptor) {
    f.ty == MESSAGE ==> f.sub < |sch|
  }

  lemma {:induction false} ApplyShaped(sch: Schema, mem: Member, m: Message)
    requires OneofFree(sch) && Shaped(sch, m) && Apply(sch, mem, m).Some?
    ensures Shaped(sch, Apply(sch, mem, m).value) && Apply(sch, mem, m).value.desc == m.desc
    decreases |mem.data|, 1
  {
    hide ParseValue, ParseElements, ShapedValue;
    var fields := sch[m.desc].fields;
    var i := FindField(fields, mem.tag);
    if i >= 0 {
      var f := fields[i];
      assert f.oneof.None? && ValidField(sch, sch[m.desc], f);
      assert ShapedSlot(sch, f, m.slots[i]);
      if f.rule != REPEATED {
        ParseValueShaped(sch, f, mem, m.slots[i].v);
      }
    }
  }

  lemma {:induction false} ParseFromShaped(sch: Schema, s: seq<byte>, m: Message)
    requires OneofFree(sch) && Shaped(sch, m) && ParseFrom(sch, s, m).Some?
    ensures Shaped(sch, ParseFrom(sch, s, m).value) && ParseFrom(sch, s, m).value.desc == m.desc
    decreases |s|, 2
  {
    hide Apply, Shaped;
    if s != [] {
      var first := ScanMember(s).value;
      ApplyShaped(sch, first.mem, m);
      ParseFromShaped(sch, s[first.used..], Apply(sch, first.mem, m).value);
    }
  }

  lemma {:induction false} ParseShaped(sch: Schema, d: nat, s: seq<byte>)
    requires OneofFree(sch) && d < |sch| && Parse(sch, d, s).Some?
    ensures Shaped(sch, Parse(sch, d, s).value) && Parse(sch, d, s).value.desc == d
    decreases |s|, 3
  {
    hide ParseFrom, Shaped;
    InitIsShaped(sch, d);
    ParseFromShaped(sch, s, Init(sch, d));
  }

  // ---- Applying a member commutes with merging ------------------------------------------------

  /** A merge that also keeps the unknown fields of both messages. */
  function MergeAll(sch: Schema, e: Message, l: Message): Message
    requires Merge(sch, e, l).Some?
  {
    Merge(sch, e, l).value.(unknown := e.unknown + l.unknown)
  }

  lemma MergeAllAssociative(sch: Schema, x: Message, y: Message, z: Message)
    requires OneofFree(sch) && Shaped(sch, x) && Shaped(sch, y) && Shaped(sch, z)
    requires x.desc == y.desc == z.desc
    ensures Merge(sch, x, y).Some? && Merge(sch, y, z).Some?
    ensures Merge(sch, MergeAll(sch, x, y), z).Some? && Merge(sch, x, MergeAll(sch, y, z)).Some?
    ensures MergeAll(sch, MergeAll(sch, x, y), z) == MergeAll(sch, x, MergeAll(sch, y, z))
  {
    hide MergeSlots, Shaped;
    MergeAssociative(sch, x, y, z);
    MergeTotal(sch, x, y);
    MergeTotal(sch, y, z);
    MergeTotal(sch, Merge(sch, x, y).value, z);
    MergeTotal(sch, x, Merge(sch, y, z).value);
    assert (x.unknown + y.unknown) + z.unknown == x.unknown + (y.unknown + z.unknown);
  }

  /** A member that makes no difference to the slots it does not belong to. */
  lemma MergeOneSlot(sch: Schema, x: Message, i: nat, s: Slot)
    requires MergeableSchema(sch) && Shaped(sch, x) && i < |x.slots|
    requires ShapedSlot(sch, sch[x.desc].fields[i], s)
    ensures var y := Init(sch, x.desc).(slots := Init(sch, x.desc).slots[i := s]);
            && MergeSlot(sch, sch[x.desc].fields[i], x.slots[i], s).Some?
            && Merge(sch, x, y)
               == Some(x.(slots := x.slots[i := MergeSlot(sch, sch[x.desc].fields[i], x.slots[i], s).value],
                          unknown := []))
  {
    hide MergeSlots, MergeSlot, Shaped, ShapedSlot, InitSlot;
    ShapedSize(sch, x);
    InitIsShaped(sch, x.desc);
    var y := Init(sch, x.desc).(slots := Init(sch, x.desc).slots[i := s]);
    ShapedUpdate(sch, Init(sch, x.desc), i, s);
    MergeTotal(sch, x, y);
    var r := Merge(sch, x, y).value;
    ShapedSize(sch, r);
    var s' := MergeSlot(sch, sch[x.desc].fields[i], x.slots[i], s).value;
    forall j | 0 <= j < |x.slots|
      ensures r.slots[j] == x.slots[i := s'][j]
    {
      if j != i {
        ShapedAt(sch, x, j);
        InitSlotRight(sch, sch[x.desc].fields[j], x.slots[j]);
      }
    }
    assert r.slots == x.slots[i := s'];
  }

  lemma ShapedUpdate(sch: Schema, m: Message, i: nat, s: Slot)
    requires Shaped(sch, m) && i < |m.slots| && ShapedSlot(sch, sch[m.desc].fields[i], s)
    ensures Shaped(sch, m.(slots := m.slots[i := s]))
  {
    hide ShapedSlot;
  }

  lemma MergeNoSlot(sch: Schema, x: Message, unknown: seq<Member>)
    requires MergeableSchema(sch) && Shaped(sch, x)
    ensures Merge(sch, x, Init(sch, x.desc).(unknown := unknown)) == Some(x.(unknown := unknown))
  {
    hide MergeSlots, MergeSlot, Shaped, ShapedSlot, InitSlot;
    ShapedSize(sch, x);
    InitIsShaped(sch, x.desc);
    var y := Init(sch, x.desc).(unknown := unknown);
    ShapedUnknown(sch, Init(sch, x.desc), unknown);
    MergeTotal(sch, x, y);
    var r := Merge(sch, x, y).value;
    ShapedSize(sch, r);
    forall j | 0 <= j < |x.slots|
      ensures r.slots[j] == x.slots[j]
    {
      ShapedAt(sch, x, j);
      InitSlotRight(sch, sch[x.desc].fields[j], x.slots[j]);
    }
    assert r.slots == x.slots;
  }

  lemma ShapedUnknown(sch: Schema, m: Message, unknown: seq<Member>)
    requires Shaped(sch, m)
    ensures Shaped(sch, m.(unknown := unknown))
  {}

  /** Reading a member into a used field is reading it into a fresh one and merging. */
  lemma ValueHomomorphic(sch: Schema, f: FieldDescriptor, mem: Member, s: Slot)
    requires MergeableSchema(sch) && MergeableField(f) && ValidSub(sch, f) && f.rule != REPEATED
    requires ShapedSlot(sch, f, s)
    ensures ParseValue(sch, f, mem, s.v).Some? <==> ParseValue(sch, f, mem, InitValue(f)).Some?
    ensures ParseValue(sch, f, mem, s.v).Some? ==>
              && ShapedSlot(sch, f, Single(HasBit(f), ParseValue(sch, f, mem, InitValue(f)).value))
              && MergeSlot(sch, f, s, Single(HasBit(f), ParseValue(sch, f, mem, InitValue(f)).value))
                 == Some(Single(HasBit(f) || s.has, ParseValue(sch, f, mem, s.v).value))
  {
    hide Parse, Merge, Shaped, ParseScalar;
    if f.ty == MESSAGE && mem.data != [] && Parse(sch, f.sub, Payload(mem)).Some? {
      ParseShaped(sch, f.sub, Payload(mem));
      if s.v.Msg? {
        MergeTotal(sch, s.v.m, Parse(sch, f.sub, Payload(mem)).value);
      }
    }
  }

  /** Applying a member to `x` is applying it to the initial message and merging `x` with the outcome. */
  lemma ApplyHomomorphic(sch: Schema, mem: Member, x: Message)
    requires MergeableSchema(sch) && Shaped(sch, x)
    ensures Shaped(sch, Init(sch, x.desc))
    ensures Apply(sch, mem, x).Some? <==> Apply(sch, mem, Init(sch, x.desc)).Some?
    ensures Apply(sch, mem, x).Some? ==>
              && Shaped(sch, Apply(sch, mem, Init(sch, x.desc)).value)
              && Merge(sch, x, Apply(sch, mem, Init(sch, x.desc)).value).Some?
              && Apply(sch, mem, x).value == MergeAll(sch, x, Apply(sch, mem, Init(sch, x.desc)).value)
  {
    hide ParseValue, ParseElements, Merge, MergeSlot, Shaped, ShapedSlot, MergeableField;
    var init := Init(sch, x.desc);
    ShapedSize(sch, x);
    InitIsShaped(sch, x.desc);
    var fields := sch[x.desc].fields;
    var i := FindField(fields, mem.tag);
    if Apply(sch, mem, init).Some? { ApplyShaped(sch, mem, init); }
    if i < 0 {
      assert [] + [mem] == [mem];
      MergeNoSlot(sch, x, [mem]);
    } else {
      assert ValidField(sch, sch[x.desc], fields[i]);
      ShapedAt(sch, x, i);
      if fields[i].rule == REPEATED {
        RepeatedHomomorphic(sch, mem, x, i);
      } else {
        SingleHomomorphic(sch, mem, x, i);
      }
    }
  }

  lemma RepeatedHomomorphic(sch: Schema, mem: Member, x: Message, i: nat)
    requires MergeableSchema(sch) && Shaped(sch, x) && i < |x.slots| && FindField(sch[x.desc].fields, mem.tag) == i
    requires sch[x.desc].fields[i].rule == REPEATED
    ensures Apply(sch, mem, x).Some? <==> Apply(sch, mem, Init(sch, x.desc)).Some?
    ensures Apply(sch, mem, x).Some? ==>
              && Merge(sch, x, Apply(sch, mem, Init(sch, x.desc)).value).Some?
              && Apply(sch, mem, x).value == MergeAll(sch, x, Apply(sch, mem, Init(sch, x.desc)).value)
  {
    hide ParseElements, Merge, Shaped;
    ShapedSize(sch, x);
    var f := sch[x.desc].fields[i];
    ShapedAt(sch, x, i);
    if ParseElements(sch, f, mem).Some? {
      var vs := ParseElements(sch, f, mem).value;
      MergeOneSlot(sch, x, i, Many(vs));
      assert [] + vs == vs;
      assert x.unknown + [] == x.unknown;
    }
  }

  lemma SingleHomomorphic(sch: Schema, mem: Member, x: Message, i: nat)
    requires MergeableSchema(sch) && Shaped(sch, x) && i < |x.slots| && FindField(sch[x.desc].fields, mem.tag) == i
    requires sch[x.desc].fields[i].rule != REPEATED
    ensures Apply(sch, mem, x).Some? <==> Apply(sch, mem, Init(sch, x.desc)).Some?
    ensures Apply(sch, mem, x).Some? ==>
              && Merge(sch, x, Apply(sch, mem, Init(sch, x.desc)).value).Some?
              && Apply(sch, mem, x).value == MergeAll(sch, x, Apply(sch, mem, Init(sch, x.desc)).value)
  {
    hide ParseValue, Merge, MergeSlot, Shaped, InitValue;
    ShapedSize(sch, x);
    var f := sch[x.desc].fields[i];
    ShapedAt(sch, x, i);
    assert ValidField(sch, sch[x.desc], f);
    assert Init(sch, x.desc).slots[i] == Single(false, InitValue(f));
    ValueHomomorphic(sch, f, mem, x.slots[i]);
    if ParseValue(sch, f, mem, x.slots[i].v).Some? {
      MergeOneSlot(sch, x, i, Single(HasBit(f), ParseValue(sch, f, mem, InitValue(f)).value));
      assert x.unknown + [] == x.unknown;
    }
  }

  lemma {:induction false} FoldShaped(sch: Schema, ms: seq<Member>, x: Message)
    requires OneofFree(sch) && Shaped(sch, x) && Fold(sch, ms, x).Some?
    ensures Shaped(sch, Fold(sch, ms, x).value) && Fold(sch, ms, x).value.desc == x.desc
  {
    hide Apply, Shaped;
    if ms != [] {
      ApplyShaped(sch, ms[0], x);
      FoldShaped(sch, ms[1..], Apply(sch, ms[0], x).value);
    }
  }

  /** The same for any number of members. */
  lemma {:induction false} FoldHomomorphic(sch: Schema, ms: seq<Member>, x: Message)
    requires MergeableSchema(sch) && Shaped(sch, x)
    ensures Shaped(sch, Init(sch, x.desc))
    ensures Fold(sch, ms, x).Some? <==> Fold(sch, ms, Init(sch, x.desc)).Some?
    ensures Fold(sch, ms, x).Some? ==>
              && Merge(sch, x, Fold(sch, ms, Init(sch, x.desc)).value).Some?
              && Fold(sch, ms, x).value == MergeAll(sch, x, Fold(sch, ms, Init(sch, x.desc)).value)
    decreases |ms|
  {
    hide Apply, Shaped, Merge;
    var init := Init(sch, x.desc);
    ShapedSize(sch, x);
    InitIsShaped(sch, x.desc);
    if ms == [] {
      MergeNoSlot(sch, x, []);
      assert x.unknown + [] == x.unknown;
    } else {
      ApplyHomomorphic(sch, ms[0], x);
      if Apply(sch, ms[0], x).Some? {
        var h := Apply(sch, ms[0], init).value;
        var x' := Apply(sch, ms[0], x).value;
        ApplyShaped(sch, ms[0], init);
        ApplyShaped(sch, ms[0], x);
        FoldHomomorphic(sch, ms[1..], x');
        FoldHomomorphic(sch, ms[1..], h);
        if Fold(sch, ms[1..], init).Some? {
          FoldShaped(sch, ms[1..], init);
          MergeAllAssociative(sch, x, h, Fold(sch, ms[1..], init).value);
        }
      }
    }
  }

  /**
   Unpacking a concatenation is merging: the fields are those of merge_messages, the unknown fields
   those of both, and the only thing that can go wrong is that the two have too many members.
   */
  lemma ConcatenationIsMerging(sch: Schema, d: nat, a: seq<byte>, b: seq<byte>)
    requires MergeableSchema(sch) && d < |sch|
    requires Parse(sch, d, a).Some? && Parse(sch, d, b).Some?
    ensures ScanAll(a).Some? && ScanAll(b).Some?
    ensures Merge(sch, Parse(sch, d, a).value, Parse(sch, d, b).value).Some?
    ensures Parse(sch, d, a + b)
         == if |ScanAll(a).value| + |ScanAll(b).value| <= MAX_MEMBERS
            then Some(MergeAll(sch, Parse(sch, d, a).value, Parse(sch, d, b).value))
            else None
  {
    hide Fold, Shaped, Merge, Init;
    var ma, mb := ScanAll(a).value, ScanAll(b).value;
    var init := Init(sch, d);
    var x := Parse(sch, d, a).value;
    NothingRequired(sch, d, ma + mb);
    ScanAllConcat(a, b);
    ParseFromIsFold(sch, a, init);
    ParseFromIsFold(sch, b, init);
    ParseFromIsFold(sch, a + b, init);
    ParseShaped(sch, d, a);
    ParseShaped(sch, d, b);
    MergeTotal(sch, x, Parse(sch, d, b).value);
    FoldConcat(sch, ma, mb, init);
    FoldHomomorphic(sch, mb, x);
  }

  lemma NothingRequired(sch: Schema, d: nat, ms: seq<Member>)
    requires MergeableSchema(sch) && d < |sch|
    ensures RequiredPresent(sch[d], ms)
  {
    forall i | 0 <= i < |sch[d].fields|
      ensures sch[d].fields[i].rule != REQUIRED
    {
      assert MergeableField(sch[d].fields[i]);
    }
  }
}

/** When merge_messages fails. */
module MergeLimits {
  import opened Bytes
  import opened Varints
  import opened Schema
  import opened Wire
  import opened Scan
  import opened Parsing

  // ---- A oneof that neither message sets ------------------------------------------------------

  /** Each oneof is set in the later message, or set to a known field in the earlier one. */
  ghost predicate OneofsCovered(desc: Descriptor, e: seq<OneofState>, l: seq<OneofState>) {
    |e| == |l| ==> forall g :: 0 <= g < |l| ==>
      l[g].Chosen? || (e[g].Chosen? && FindField(desc.fields, e[g].id) >= 0)
  }

  /** Do both slots hold a submessage, so that the two are merged? */
  predicate BothMessages(f: FieldDescriptor, e: Slot, l: Slot) {
    && f.rule != REPEATED && f.rule != REQUIRED && f.oneof.None?
    && e.Single? && l.Single? && e.v.Msg? && l.v.Msg?
  }

  /** Every oneof is covered, here and in every pair of submessages that are merged. */
  ghost predicate Covered(sch: Schema, e: Message, l: Message)
    decreases e
  {
    var fields := DescriptorOf(sch, l.desc).fields;
    && OneofsCovered(DescriptorOf(sch, l.desc), e.oneofs, l.oneofs)
    && (|fields| == |e.slots| == |l.slots| ==>
          forall i :: 0 <= i < |fields| && BothMessages(fields[i], e.slots[i], l.slots[i])
            ==> Covered(sch, e.slots[i].v.m, l.slots[i].v.m))
  }

  lemma {:induction false} OneofsMergeExactly(desc: Descriptor, e: seq<OneofState>, l: seq<OneofState>)
    ensures MergeOneofs(desc, e, l).Some? <==> OneofsCovered(desc, e, l)
  {
    hide MergeOneof;
    if l != [] && |e| == |l| {
      var n := |l| - 1;
      OneofsMergeExactly(desc, e[..n], l[..n]);
      OneofMergesExactly(desc, e[n], l[n]);
    }
  }

  lemma OneofMergesExactly(desc: Descriptor, e: OneofState, l: OneofState)
    ensures MergeOneof(desc, e, l).Some? <==> l.Chosen? || (e.Chosen? && FindField(desc.fields, e.id) >= 0)
  {}

  lemma {:induction false} SlotsMergeExactly(sch: Schema, fields: seq<FieldDescriptor>, e: seq<Slot>, l: seq<Slot>)
    ensures MergeSlots(sch, fields, e, l).Some?
       <==> (|fields| == |e| == |l| ==>
               forall i :: 0 <= i < |fields| && BothMessages(fields[i], e[i], l[i])
                 ==> Covered(sch, e[i].v.m, l[i].v.m))
    decreases e, 1
  {
    hide MergeSlot, Covered;
    if l != [] && |fields| == |e| == |l| {
      var n := |l| - 1;
      SlotsMergeExactly(sch, fields[..n], e[..n], l[..n]);
      SlotMergesExactly(sch, fields[n], e[n], l[n]);
    }
  }

  lemma {:induction false} SlotMergesExactly(sch: Schema, f: FieldDescriptor, e: Slot, l: Slot)
    ensures MergeSlot(sch, f, e, l).Some? <==> (BothMessages(f, e, l) ==> Covered(sch, e.v.m, l.v.m))
    decreases e, 0
  {
    hide Merge, Covered;
    if BothMessages(f, e, l) {
      MergesExactly(sch, e.v.m, l.v.m);
    }
  }

  /** merge_messages fails exactly when a oneof is unset (or set to no known field) on both sides. */
  lemma {:induction false} MergesExactly(sch: Schema, e: Message, l: Message)
    ensures Merge(sch, e, l).Some? <==> Covered(sch, e, l)
    decreases e, 2
  {
    hide MergeSlots, MergeOneofs, OneofsCovered, BothMessages;
    var desc := DescriptorOf(sch, l.desc);
    SlotsMergeExactly(sch, desc.fields, e.slots, l.slots);
    OneofsMergeExactly(desc, e.oneofs, l.oneofs);
  }
}
