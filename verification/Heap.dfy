/**
 Messages as unpacking builds them: every heap block has an address, so that ownership can be
 counted. `Erase` forgets the addresses, `Owned` collects them.
 */
module Heap {
  import opened Bytes
  import opened Schema

  /** A heap block. */
  type Block = nat

  /** The allocator that unpacking is given; any request may be refused. */
  class Allocator {
    ghost var live: multiset<Block>
    ghost var refusals: nat
    var next: Block

    /** No block is live twice, and new blocks are new. */
    ghost predicate Valid()
      reads this
    {
      forall b :: b in live ==> b < next && live[b] == 1
    }

    constructor ()
      ensures Valid() && live == multiset{} && refusals == 0
    {
      live := multiset{};
      refusals := 0;
      next := 0;
    }

    /** do_alloc */
    method Alloc() returns (p: Option<Block>)
      requires Valid()
      modifies this
      ensures Valid()
      ensures p.None? ==> live == old(live) && refusals == old(refusals) + 1
      ensures p.Some? ==> p.value !in old(live) && live == old(live) + multiset{p.value} && refusals == old(refusals)
    {
      if * {
        p := None;
        refusals := refusals + 1;
      } else {
        p := Some(next);
        live := live + multiset{next};
        next := next + 1;
      }
    }

    /** do_free: only a live block can be freed, and it is not live afterwards. */
    method Free(p: Block)
      requires Valid() && p in live
      modifies this
      ensures Valid() && live == old(live) - multiset{p} && refusals == old(refusals)
    {
      live := live - multiset{p};
    }
  }

  datatype HPtr = HNull | HDefault | HOwn(block: Block, bytes: seq<byte>)

  datatype HValue =
    | HWord(w: u64)
    | HText(t: HPtr)
    | HBlob(b: HPtr)
    | HNoMsg
    | HMsg(m: HMessage)

  /** An array of a repeated field has room for `cap` elements, of which `vs` are there. */
  datatype HSlot =
    | HSingle(has: bool, v: HValue)
    | HMany(arr: Option<Block>, cap: nat, vs: seq<HValue>)
    | HShared

  datatype HOneof = HUnset | HChosen(id: u32, v: HValue)

  datatype HUnknown = HUnknown(mem: Member, data: Option<Block>)

  datatype HMessage = HMessage(
    block: Block,
    desc: nat,
    slots: seq<HSlot>,
    oneofs: seq<HOneof>,
    unknownArray: Option<Block>,
    unknownCap: nat,
    unknown: seq<HUnknown>)

  // ---- Forgetting the addresses ---------------------------------------------------------------

  function ErasePtr(p: HPtr): Ptr {
    match p case HNull => Null case HDefault => Default case HOwn(_, bytes) => Own(bytes)
  }

  function EraseValue(v: HValue): Value
    decreases v, 0
  {
    match v
    case HWord(w) => Word(w)
    case HText(p) => Text(ErasePtr(p))
    case HBlob(p) => Blob(ErasePtr(p))
    case HNoMsg => NoMsg
    case HMsg(m) => Msg(Erase(m))
  }

  function EraseValues(vs: seq<HValue>): (r: seq<Value>)
    ensures |r| == |vs|
    decreases vs, 1
  {
    if vs == [] then [] else EraseValues(vs[..|vs| - 1]) + [EraseValue(vs[|vs| - 1])]
  }

  function EraseSlot(s: HSlot): Slot
    decreases s, 2
  {
    match s
    case HSingle(has, v) => Single(has, EraseValue(v))
    case HMany(_, _, vs) => Many(EraseValues(vs))
    case HShared => Shared
  }

  function EraseSlots(ss: seq<HSlot>): (r: seq<Slot>)
    ensures |r| == |ss|
    ensures forall i :: 0 <= i < |ss| ==> r[i] == EraseSlot(ss[i])
    decreases ss, 3
  {
    if ss == [] then [] else EraseSlots(ss[..|ss| - 1]) + [EraseSlot(ss[|ss| - 1])]
  }

  function EraseOneof(o: HOneof): OneofState
    decreases o, 2
  {
    match o case HUnset => Unset case HChosen(id, v) => Chosen(id, EraseValue(v))
  }

  function EraseOneofs(os: seq<HOneof>): (r: seq<OneofState>)
    ensures |r| == |os|
    ensures forall i :: 0 <= i < |os| ==> r[i] == EraseOneof(os[i])
    decreases os, 3
  {
    if os == [] then [] else EraseOneofs(os[..|os| - 1]) + [EraseOneof(os[|os| - 1])]
  }

  function EraseUnknown(us: seq<HUnknown>): (r: seq<Member>)
    ensures |r| == |us|
  {
    seq(|us|, i requires 0 <= i < |us| => us[i].mem)
  }

  function Erase(m: HMessage): Message
    decreases m, 4
  {
    Message(m.desc, EraseSlots(m.slots), EraseOneofs(m.oneofs), EraseUnknown(m.unknown))
  }

  // ---- Collecting the addresses ---------------------------------------------------------------

  function OwnedBlock(p: Option<Block>): multiset<Block> {
    if p.Some? then multiset{p.value} else multiset{}
  }

  function OwnedPtr(p: HPtr): multiset<Block> {
    if p.HOwn? then multiset{p.block} else multiset{}
  }

  function OwnedValue(v: HValue): multiset<Block>
    decreases v, 0
  {
    match v
    case HWord(_) => multiset{}
    case HText(p) => OwnedPtr(p)
    case HBlob(p) => OwnedPtr(p)
    case HNoMsg => multiset{}
    case HMsg(m) => Owned(m)
  }

  function OwnedValues(vs: seq<HValue>): multiset<Block>
    decreases vs, 1
  {
    if vs == [] then multiset{} else OwnedValues(vs[..|vs| - 1]) + OwnedValue(vs[|vs| - 1])
  }

  function OwnedSlot(s: HSlot): multiset<Block>
    decreases s, 2
  {
    match s
    case HSingle(_, v) => OwnedValue(v)
    case HMany(a, _, vs) => OwnedBlock(a) + OwnedValues(vs)
    case HShared => multiset{}
  }

  function OwnedSlots(ss: seq<HSlot>): multiset<Block>
    decreases ss, 3
  {
    if ss == [] then multiset{} else OwnedSlots(ss[..|ss| - 1]) + OwnedSlot(ss[|ss| - 1])
  }

  function OwnedOneof(o: HOneof): multiset<Block>
    decreases o, 2
  {
    if o.HChosen? then OwnedValue(o.v) else multiset{}
  }

  function OwnedOneofs(os: seq<HOneof>): multiset<Block>
    decreases os, 3
  {
    if os == [] then multiset{} else OwnedOneofs(os[..|os| - 1]) + OwnedOneof(os[|os| - 1])
  }

  function OwnedUnknown(us: seq<HUnknown>): multiset<Block> {
    if us == [] then multiset{} else OwnedUnknown(us[..|us| - 1]) + OwnedBlock(us[|us| - 1].data)
  }

  /** Every block that a message holds, each as often as it is held. */
  function Owned(m: HMessage): multiset<Block>
    decreases m, 4
  {
    multiset{m.block} + OwnedSlots(m.slots) + OwnedOneofs(m.oneofs) + OwnedBlock(m.unknownArray) + OwnedUnknown(m.unknown)
  }

  lemma Exchange(a: multiset<Block>, a': multiset<Block>, x: multiset<Block>, b: multiset<Block>, c: multiset<Block>)
    requires a' + b == a + c
    ensures (a' + x) + b == (a + x) + c
  {
    assert (a' + x) + b == (a' + b) + x;
    assert (a + x) + c == (a + c) + x;
  }

  /** Replacing one slot exchanges what it owns. */
  lemma {:induction false} OwnedSlotsUpdate(ss: seq<HSlot>, i: nat, s: HSlot)
    requires i < |ss|
    ensures OwnedSlots(ss[i := s]) + OwnedSlot(ss[i]) == OwnedSlots(ss) + OwnedSlot(s)
  {
    hide OwnedSlot;
    var n := |ss| - 1;
    if i < n {
      assert ss[i := s][..n] == ss[..n][i := s];
      OwnedSlotsUpdate(ss[..n], i, s);
      Exchange(OwnedSlots(ss[..n]), OwnedSlots(ss[..n][i := s]), OwnedSlot(ss[n]), OwnedSlot(ss[i]), OwnedSlot(s));
    } else {
      assert ss[i := s][..n] == ss[..n];
    }
  }

  lemma {:induction false} OwnedOneofsUpdate(os: seq<HOneof>, g: nat, o: HOneof)
    requires g < |os|
    ensures OwnedOneofs(os[g := o]) + OwnedOneof(os[g]) == OwnedOneofs(os) + OwnedOneof(o)
  {
    hide OwnedOneof;
    var n := |os| - 1;
    if g < n {
      assert os[g := o][..n] == os[..n][g := o];
      OwnedOneofsUpdate(os[..n], g, o);
      Exchange(OwnedOneofs(os[..n]), OwnedOneofs(os[..n][g := o]), OwnedOneof(os[n]), OwnedOneof(os[g]), OwnedOneof(o));
    } else {
      assert os[g := o][..n] == os[..n];
    }
  }

  lemma {:induction false} OwnedValuesConcat(a: seq<HValue>, b: seq<HValue>)
    ensures OwnedValues(a + b) == OwnedValues(a) + OwnedValues(b)
  {
    hide OwnedValue;
    if b == [] {
      assert a + b == a;
    } else {
      assert (a + b)[..|a + b| - 1] == a + b[..|b| - 1];
      OwnedValuesConcat(a, b[..|b| - 1]);
    }
  }

  lemma {:induction false} OwnedSlotsConcat(a: seq<HSlot>, b: seq<HSlot>)
    ensures OwnedSlots(a + b) == OwnedSlots(a) + OwnedSlots(b)
  {
    hide OwnedSlot;
    if b == [] {
      assert a + b == a;
    } else {
      assert (a + b)[..|a + b| - 1] == a + b[..|b| - 1];
      OwnedSlotsConcat(a, b[..|b| - 1]);
    }
  }

  lemma {:induction false} OwnedUnknownConcat(a: seq<HUnknown>, b: seq<HUnknown>)
    ensures OwnedUnknown(a + b) == OwnedUnknown(a) + OwnedUnknown(b)
  {
    if b == [] {
      assert a + b == a;
    } else {
      assert (a + b)[..|a + b| - 1] == a + b[..|b| - 1];
      OwnedUnknownConcat(a, b[..|b| - 1]);
    }
  }

  lemma {:induction false} EraseValuesConcat(a: seq<HValue>, b: seq<HValue>)
    ensures EraseValues(a + b) == EraseValues(a) + EraseValues(b)
  {
    hide EraseValue;
    if b == [] {
      assert a + b == a;
    } else {
      assert (a + b)[..|a + b| - 1] == a + b[..|b| - 1];
      EraseValuesConcat(a, b[..|b| - 1]);
    }
  }

  lemma {:induction false} OwnedSlotIn(ss: seq<HSlot>, i: nat)
    requires i < |ss|
    ensures OwnedSlot(ss[i]) <= OwnedSlots(ss)
  {
    hide OwnedSlot;
    if i < |ss| - 1 { OwnedSlotIn(ss[..|ss| - 1], i); }
  }

  lemma {:induction false} OwnedOneofIn(os: seq<HOneof>, g: nat)
    requires g < |os|
    ensures OwnedOneof(os[g]) <= OwnedOneofs(os)
  {
    hide OwnedOneof;
    if g < |os| - 1 { OwnedOneofIn(os[..|os| - 1], g); }
  }

  /** What a message owns besides slot `i`. */
  function BesideSlot(m: HMessage, i: nat): multiset<Block>
    requires i < |m.slots|
  {
    Owned(m) - OwnedSlot(m.slots[i])
  }

  /** What a message owns besides oneof `g`. */
  function BesideOneof(m: HMessage, g: nat): multiset<Block>
    requires g < |m.oneofs|
  {
    Owned(m) - OwnedOneof(m.oneofs[g])
  }

  lemma Swap(a: multiset<Block>, a': multiset<Block>, x: multiset<Block>, y: multiset<Block>, rest: multiset<Block>)
    requires x <= a && a' + x == a + y
    ensures rest + a == (rest + a - x) + x && rest + a' == (rest + a - x) + y
    ensures rest + a - x == rest + (a - x)
  {
    assert (a' + x) - x == a';
    assert ((a - x) + y) + x == a + y;
    assert (((a - x) + y) + x) - x == (a - x) + y;
  }

  /** Replacing a slot changes what the message owns in that slot only. */
  lemma SlotReplaced(m: HMessage, i: nat, s: HSlot)
    requires i < |m.slots|
    ensures Owned(m) == BesideSlot(m, i) + OwnedSlot(m.slots[i])
    ensures Owned(m.(slots := m.slots[i := s])) == BesideSlot(m, i) + OwnedSlot(s)
  {
    hide OwnedSlot, OwnedSlots, OwnedOneofs, OwnedUnknown, OwnedBlock;
    OwnedSlotsUpdate(m.slots, i, s);
    OwnedSlotIn(m.slots, i);
    var rest := multiset{m.block} + OwnedOneofs(m.oneofs) + OwnedBlock(m.unknownArray) + OwnedUnknown(m.unknown);
    assert Owned(m) == rest + OwnedSlots(m.slots);
    assert Owned(m.(slots := m.slots[i := s])) == rest + OwnedSlots(m.slots[i := s]);
    Swap(OwnedSlots(m.slots), OwnedSlots(m.slots[i := s]), OwnedSlot(m.slots[i]), OwnedSlot(s), rest);
  }

  lemma OneofReplaced(m: HMessage, g: nat, o: HOneof)
    requires g < |m.oneofs|
    ensures Owned(m) == BesideOneof(m, g) + OwnedOneof(m.oneofs[g])
    ensures Owned(m.(oneofs := m.oneofs[g := o])) == BesideOneof(m, g) + OwnedOneof(o)
  {
    hide OwnedOneof, OwnedSlots, OwnedOneofs, OwnedUnknown, OwnedBlock;
    OwnedOneofsUpdate(m.oneofs, g, o);
    OwnedOneofIn(m.oneofs, g);
    var rest := multiset{m.block} + OwnedSlots(m.slots) + OwnedBlock(m.unknownArray) + OwnedUnknown(m.unknown);
    assert Owned(m) == rest + OwnedOneofs(m.oneofs);
    assert Owned(m.(oneofs := m.oneofs[g := o])) == rest + OwnedOneofs(m.oneofs[g := o]);
    Swap(OwnedOneofs(m.oneofs), OwnedOneofs(m.oneofs[g := o]), OwnedOneof(m.oneofs[g]), OwnedOneof(o), rest);
  }

  // ---- The shape that unpacking and merging keep ----------------------------------------------

  /** The value is of its field's type; empty bytes have no block, a submessage is completely unpacked. */
  ghost predicate TypedValue(sch: Schema, f: FieldDescriptor, v: HValue)
    decreases v, 0
  {
    match f.ty
    case MESSAGE => v.HNoMsg? || (v.HMsg? && v.m.desc == f.sub && Complete(sch, v.m))
    case STRING => v.HText?
    case BYTES => v.HBlob? && (v.b.HOwn? ==> v.b.bytes != [])
    case _ => v.HWord?
  }

  ghost predicate TypedSlot(sch: Schema, f: FieldDescriptor, s: HSlot)
    decreases s, 1
  {
    if f.rule == REPEATED then
      && s.HMany?
      && |s.vs| <= s.cap
      && (s.arr.None? ==> s.cap == 0)
      && (forall k :: 0 <= k < |s.vs| ==> TypedValue(sch, f, s.vs[k]))
    else if f.oneof.Some? then s.HShared?
    else s.HSingle? && TypedValue(sch, f, s.v) && (s.has ==> HasBit(f))
  }

  ghost predicate TypedOneof(sch: Schema, desc: Descriptor, g: nat, o: HOneof)
    decreases o, 1
  {
    o.HChosen? ==>
      var i := FindField(desc.fields, o.id);
      i >= 0 && desc.fields[i].oneof == Some(g) && TypedValue(sch, desc.fields[i], o.v)
  }

  /** A slot for every field and a state for every oneof. */
  predicate Shaped(sch: Schema, m: HMessage) {
    && m.desc < |sch|
    && |m.slots| == |sch[m.desc].fields|
    && |m.oneofs| == sch[m.desc].nOneofs
  }

  /** Every member has its field's type; arrays may not be filled yet. */
  ghost predicate Typed(sch: Schema, m: HMessage): (r: bool)
    ensures r ==> Shaped(sch, m)
    decreases m, 2
  {
    && Shaped(sch, m)
    && (forall i :: 0 <= i < |m.slots| ==> TypedSlot(sch, sch[m.desc].fields[i], m.slots[i]))
    && (forall g :: 0 <= g < |m.oneofs| ==> TypedOneof(sch, sch[m.desc], g, m.oneofs[g]))
  }

  /** A filled array: allocated if it has elements, and without spare room unless these are bools. */
  ghost predicate FullSlot(f: FieldDescriptor, s: HSlot) {
    s.HMany? ==>
      && (s.arr.None? <==> s.vs == [])
      && (f.ty != BOOL ==> |s.vs| == s.cap)
  }

  /** A message that unpacking has finished. */
  ghost predicate Complete(sch: Schema, m: HMessage): (r: bool)
    ensures r ==> Shaped(sch, m)
    decreases m, 3
  {
    Typed(sch, m) && forall i :: 0 <= i < |m.slots| ==> FullSlot(sch[m.desc].fields[i], m.slots[i])
  }

  lemma TypedAt(sch: Schema, m: HMessage, i: nat)
    requires Typed(sch, m) && i < |m.slots|
    ensures TypedSlot(sch, sch[m.desc].fields[i], m.slots[i])
  {}

  /** A member that is neither repeated nor in a oneof. */
  lemma TypedSingle(sch: Schema, f: FieldDescriptor, s: HSlot)
    requires TypedSlot(sch, f, s) && f.rule != REPEATED && f.oneof.None?
    ensures s.HSingle? && TypedValue(sch, f, s.v) && (s.has ==> HasBit(f))
  {}

  lemma SingleTyped(sch: Schema, f: FieldDescriptor, s: HSlot)
    requires f.rule != REPEATED && f.oneof.None? && s.HSingle? && TypedValue(sch, f, s.v) && (s.has ==> HasBit(f))
    ensures TypedSlot(sch, f, s)
  {}

  lemma TypedOneofAt(sch: Schema, m: HMessage, g: nat)
    requires Typed(sch, m) && g < |m.oneofs|
    ensures TypedOneof(sch, sch[m.desc], g, m.oneofs[g])
  {}
}

/**
 protobuf_c_message_free_unpacked: it gives back every block of a message, each once, whatever state
 an unpacking that failed half-way has left the message in.
 */
module Free {
  import opened Bytes
  import opened Schema
  import opened Heap

  /** What the oneofs own whose selected field has index `n` or more. */
  function OneofsFrom(fields: seq<FieldDescriptor>, os: seq<HOneof>, n: nat): multiset<Block> {
    if os == [] then multiset{}
    else
      var o := os[|os| - 1];
      OneofsFrom(fields, os[..|os| - 1], n)
      + (if o.HChosen? && FindField(fields, o.id) >= n then OwnedOneof(o) else multiset{})
  }

  /** Every oneof is unset or selects a field of its own. */
  ghost predicate OneofsSelect(fields: seq<FieldDescriptor>, os: seq<HOneof>) {
    forall g :: 0 <= g < |os| && os[g].HChosen? ==>
      var i := FindField(fields, os[g].id);
      i >= 0 && fields[i].oneof == Some(g)
  }

  lemma {:induction false} OneofsFromZero(fields: seq<FieldDescriptor>, os: seq<HOneof>)
    requires OneofsSelect(fields, os)
    ensures OneofsFrom(fields, os, 0) == OwnedOneofs(os)
  {
    hide OwnedOneof;
    if os != [] {
      assert OneofsSelect(fields, os[..|os| - 1]);
      OneofsFromZero(fields, os[..|os| - 1]);
      UnsetOwnsNothing(os[|os| - 1]);
    }
  }

  lemma UnsetOwnsNothing(o: HOneof)
    ensures o.HUnset? ==> OwnedOneof(o) == multiset{}
  {}

  lemma {:induction false} OneofsFromEnd(fields: seq<FieldDescriptor>, os: seq<HOneof>)
    ensures OneofsFrom(fields, os, |fields|) == multiset{}
  {
    if os != [] { OneofsFromEnd(fields, os[..|os| - 1]); }
  }

  /** Passing a field that no oneof selects. */
  lemma {:induction false} OneofsFromSkip(fields: seq<FieldDescriptor>, os: seq<HOneof>, n: nat)
    requires forall g :: 0 <= g < |os| && os[g].HChosen? ==> FindField(fields, os[g].id) != n
    ensures OneofsFrom(fields, os, n) == OneofsFrom(fields, os, n + 1)
  {
    hide OwnedOneof;
    if os != [] { OneofsFromSkip(fields, os[..|os| - 1], n); }
  }

  lemma Commute(a: multiset<Block>, b: multiset<Block>, c: multiset<Block>)
    ensures (a + b) + c == (a + c) + b
  {}

  /** Passing the field that oneof `g` selects. */
  lemma {:induction false} OneofsFromTake(fields: seq<FieldDescriptor>, os: seq<HOneof>, n: nat, g: nat)
    requires OneofsSelect(fields, os) && g < |os| && os[g].HChosen? && FindField(fields, os[g].id) == n
    ensures OneofsFrom(fields, os, n) == OneofsFrom(fields, os, n + 1) + OwnedOneof(os[g])
  {
    hide OwnedOneof;
    var k := |os| - 1;
    assert OneofsSelect(fields, os[..k]);
    if g < k {
      OneofsFromTake(fields, os[..k], n, g);
      assert !(os[k].HChosen? && FindField(fields, os[k].id) == n);
      Commute(OneofsFrom(fields, os[..k], n + 1), OwnedOneof(os[g]),
              if os[k].HChosen? && FindField(fields, os[k].id) >= n then OwnedOneof(os[k]) else multiset{});
    } else {
      forall h | 0 <= h < k && os[..k][h].HChosen?
        ensures FindField(fields, os[..k][h].id) != n
      {
        assert os[h].HChosen?;
      }
      OneofsFromSkip(fields, os[..k], n);
    }
  }

  // ---- Freeing --------------------------------------------------------------------------------

  method FreePtr(p: HPtr, alloc: Allocator, ghost rest: multiset<Block>)
    requires alloc.Valid() && alloc.live == rest + OwnedPtr(p)
    modifies alloc
    ensures alloc.Valid() && alloc.live == rest && alloc.refusals == old(alloc.refusals)
  {
    match p
    case HOwn(b, _) =>
      alloc.Free(b);
    case _ =>
      assert rest + multiset{} == rest;
  }

  method FreeBlock(p: Option<Block>, alloc: Allocator, ghost rest: multiset<Block>)
    requires alloc.Valid() && alloc.live == rest + OwnedBlock(p)
    modifies alloc
    ensures alloc.Valid() && alloc.live == rest && alloc.refusals == old(alloc.refusals)
  {
    if p.Some? {
      alloc.Free(p.value);
    } else {
      assert rest + multiset{} == rest;
    }
  }

  /** The cases of the loop body that free one member, chosen by the type of the field. */
  method FreeValue(sch: Schema, f: FieldDescriptor, v: HValue, alloc: Allocator, ghost rest: multiset<Block>)
    requires alloc.Valid() && ValidSchema(sch) && TypedValue(sch, f, v) && alloc.live == rest + OwnedValue(v)
    modifies alloc
    ensures alloc.Valid() && alloc.live == rest && alloc.refusals == old(alloc.refusals)
    decreases v, 0
  {
    hide Complete, Owned;
    if f.ty == STRING {
      FreePtr(v.t, alloc, rest);
    } else if f.ty == BYTES {
      FreePtr(v.b, alloc, rest);
    } else if f.ty == MESSAGE {
      if v.HMsg? {
        CompleteIsTyped(sch, v.m);
        FreeUnpacked(sch, v.m, alloc, rest);
      } else {
        assert rest + multiset{} == rest;
      }
    } else {
      assert rest + multiset{} == rest;
    }
  }

  lemma CompleteIsTyped(sch: Schema, m: HMessage)
    requires Complete(sch, m)
    ensures Typed(sch, m)
  {}

  lemma OwnedValuesFirst(vs: seq<HValue>, i: nat)
    requires i < |vs|
    ensures OwnedValues(vs[i..]) == OwnedValue(vs[i]) + OwnedValues(vs[i + 1..])
  {
    hide OwnedValue;
    assert vs[i..] == [vs[i]] + vs[i + 1..];
    OwnedValuesConcat([vs[i]], vs[i + 1..]);
    assert OwnedValues([vs[i]]) == OwnedValues([]) + OwnedValue(vs[i]);
  }

  method FreeElements(sch: Schema, f: FieldDescriptor, vs: seq<HValue>, alloc: Allocator, ghost rest: multiset<Block>)
    requires alloc.Valid() && ValidSchema(sch)
    requires forall k :: 0 <= k < |vs| ==> TypedValue(sch, f, vs[k])
    requires alloc.live == rest + OwnedValues(vs)
    modifies alloc
    ensures alloc.Valid() && alloc.live == rest && alloc.refusals == old(alloc.refusals)
    decreases vs, 1
  {
    hide TypedValue, OwnedValue;
    assert vs[0..] == vs;
    for i := 0 to |vs|
      invariant alloc.Valid() && alloc.live == rest + OwnedValues(vs[i..]) && alloc.refusals == old(alloc.refusals)
    {
      OwnedValuesFirst(vs, i);
      ghost var after := rest + OwnedValues(vs[i + 1..]);
      assert alloc.live == after + OwnedValue(vs[i]);
      FreeValue(sch, f, vs[i], alloc, after);
    }
    assert vs[|vs|..] == [];
    assert rest + multiset{} == rest;
  }

  lemma OwnedSlotsFirst(ss: seq<HSlot>, i: nat)
    requires i < |ss|
    ensures OwnedSlots(ss[i..]) == OwnedSlot(ss[i]) + OwnedSlots(ss[i + 1..])
  {
    hide OwnedSlot;
    assert ss[i..] == [ss[i]] + ss[i + 1..];
    OwnedSlotsConcat([ss[i]], ss[i + 1..]);
    assert OwnedSlots([ss[i]]) == OwnedSlots([]) + OwnedSlot(ss[i]);
  }

  method FreeSlot(sch: Schema, f: FieldDescriptor, s: HSlot, alloc: Allocator, ghost rest: multiset<Block>)
    requires alloc.Valid() && ValidSchema(sch) && TypedSlot(sch, f, s) && alloc.live == rest + OwnedSlot(s)
    modifies alloc
    ensures alloc.Valid() && alloc.live == rest && alloc.refusals == old(alloc.refusals)
    decreases s, 2
  {
    hide TypedValue, OwnedValue, OwnedValues;
    match s
    case HMany(arr, _, vs) =>
      if arr.Some? {
        assert alloc.live == (rest + OwnedBlock(arr)) + OwnedValues(vs);
        FreeElements(sch, f, vs, alloc, rest + OwnedBlock(arr));
        FreeBlock(arr, alloc, rest);
      } else {
        NoElements();
        assert rest + multiset{} + multiset{} == rest;
      }
    case HSingle(_, v) => FreeValue(sch, f, v, alloc, rest);
    case HShared => assert rest + multiset{} == rest;
  }

  lemma NoElements()
    ensures OwnedValues([]) == multiset{}
  {}

  /** The loop over the fields; a oneof is freed at the field it selects. */
  method FreeField(sch: Schema, m: HMessage, i: nat, alloc: Allocator, ghost rest: multiset<Block>)
    requires alloc.Valid() && ValidSchema(sch) && Typed(sch, m) && i < |m.slots|
    requires var fields := sch[m.desc].fields;
             alloc.live == rest + (OwnedSlots(m.slots[i..]) + OneofsFrom(fields, m.oneofs, i))
    modifies alloc
    ensures var fields := sch[m.desc].fields;
            alloc.live == rest + (OwnedSlots(m.slots[i + 1..]) + OneofsFrom(fields, m.oneofs, i + 1))
    ensures alloc.Valid() && alloc.refusals == old(alloc.refusals)
    decreases m, 3
  {
    hide OwnedSlot, TypedSlot, OneofsFrom, TypedOneof, OwnedSlots;
    var fields := sch[m.desc].fields;
    var f := fields[i];
    TypedAt(sch, m, i);
    OneofsDoSelect(sch, m);
    OwnedSlotsFirst(m.slots, i);
    ghost var slotsAfter, oneofsAfter := OwnedSlots(m.slots[i + 1..]), OneofsFrom(fields, m.oneofs, i + 1);
    if f.oneof.Some? {
      SharedOwnsNothing(sch, f, m.slots[i]);
      ghost var after := rest + (slotsAfter + oneofsAfter);
      var g := f.oneof.value;
      assert ValidField(sch, sch[m.desc], f);
      FieldIsFound(sch, m.desc, i);
      var o := m.oneofs[g];
      if o.HChosen? && o.id == f.id {
        OneofsFromTake(fields, m.oneofs, i, g);
        TypedOneofAt(sch, m, g);
        OneofTyped(sch, sch[m.desc], g, o, i);
        assert alloc.live == after + OwnedValue(o.v);
        FreeValue(sch, f, o.v, alloc, after);
      } else {
        // not the selected member of its oneof: skip it
        NotSelected(sch, m, i, g);
        OneofsFromSkip(fields, m.oneofs, i);
        assert alloc.live == after;
      }
    } else {
      NoOneofSelects(sch, m, i);
      OneofsFromSkip(fields, m.oneofs, i);
      ghost var after := rest + (slotsAfter + oneofsAfter);
      assert alloc.live == after + OwnedSlot(m.slots[i]);
      FreeSlot(sch, f, m.slots[i], alloc, after);
    }
  }

  lemma OneofsDoSelect(sch: Schema, m: HMessage)
    requires Typed(sch, m)
    ensures OneofsSelect(sch[m.desc].fields, m.oneofs)
  {
    hide TypedValue;
    forall g | 0 <= g < |m.oneofs| && m.oneofs[g].HChosen?
      ensures FindField(sch[m.desc].fields, m.oneofs[g].id) >= 0
      ensures sch[m.desc].fields[FindField(sch[m.desc].fields, m.oneofs[g].id)].oneof == Some(g)
    {
      TypedOneofAt(sch, m, g);
    }
  }

  lemma OneofTyped(sch: Schema, desc: Descriptor, g: nat, o: HOneof, i: nat)
    requires TypedOneof(sch, desc, g, o) && o.HChosen? && FindField(desc.fields, o.id) == i
    ensures TypedValue(sch, desc.fields[i], o.v) && OwnedOneof(o) == OwnedValue(o.v)
  {}

  lemma SharedOwnsNothing(sch: Schema, f: FieldDescriptor, s: HSlot)
    requires TypedSlot(sch, f, s) && f.rule != REPEATED && f.oneof.Some?
    ensures OwnedSlot(s) == multiset{}
  {}

  lemma NotSelected(sch: Schema, m: HMessage, i: nat, g: nat)
    requires ValidSchema(sch) && Typed(sch, m) && i < |m.slots| && sch[m.desc].fields[i].oneof == Some(g)
    requires g < |m.oneofs| && !(m.oneofs[g].HChosen? && m.oneofs[g].id == sch[m.desc].fields[i].id)
    ensures forall h :: 0 <= h < |m.oneofs| && m.oneofs[h].HChosen? ==> FindField(sch[m.desc].fields, m.oneofs[h].id) != i
  {
    hide Typed;
    OneofsDoSelect(sch, m);
  }

  lemma NoOneofSelects(sch: Schema, m: HMessage, i: nat)
    requires ValidSchema(sch) && Typed(sch, m) && i < |m.slots| && sch[m.desc].fields[i].oneof.None?
    ensures forall h :: 0 <= h < |m.oneofs| && m.oneofs[h].HChosen? ==> FindField(sch[m.desc].fields, m.oneofs[h].id) != i
  {
    OneofsDoSelect(sch, m);
  }

  lemma OwnedUnknownFirst(us: seq<HUnknown>, i: nat)
    requires i < |us|
    ensures OwnedUnknown(us[i..]) == OwnedBlock(us[i].data) + OwnedUnknown(us[i + 1..])
  {
    hide OwnedBlock;
    assert us[i..] == [us[i]] + us[i + 1..];
    OwnedUnknownConcat([us[i]], us[i + 1..]);
    assert OwnedUnknown([us[i]]) == OwnedUnknown([]) + OwnedBlock(us[i].data);
  }

  method FreeUnknown(us: seq<HUnknown>, alloc: Allocator, ghost rest: multiset<Block>)
    requires alloc.Valid() && alloc.live == rest + OwnedUnknown(us)
    modifies alloc
    ensures alloc.Valid() && alloc.live == rest && alloc.refusals == old(alloc.refusals)
  {
    hide OwnedUnknown, OwnedBlock;
    assert us[0..] == us;
    for i := 0 to |us|
      invariant alloc.Valid() && alloc.live == rest + OwnedUnknown(us[i..]) && alloc.refusals == old(alloc.refusals)
    {
      OwnedUnknownFirst(us, i);
      ghost var after := rest + OwnedUnknown(us[i + 1..]);
      assert alloc.live == after + OwnedBlock(us[i].data);
      FreeBlock(us[i].data, alloc, after);
    }
    NoUnknown(us[|us|..]);
    assert rest + multiset{} == rest;
  }

  lemma NoUnknown(us: seq<HUnknown>)
    requires us == []
    ensures OwnedUnknown(us) == multiset{}
  {}

  /** Exactly the blocks that the message owns are given back. */
  method FreeUnpacked(sch: Schema, m: HMessage, alloc: Allocator, ghost rest: multiset<Block>)
    requires alloc.Valid() && ValidSchema(sch) && Typed(sch, m) && alloc.live == rest + Owned(m)
    modifies alloc
    ensures alloc.Valid() && alloc.live == rest && alloc.refusals == old(alloc.refusals)
    decreases m, 4
  {
    hide OwnedSlots, OneofsFrom, OwnedUnknown, OwnedOneofs, Typed;
    var fields := sch[m.desc].fields;
    ghost var unknown := OwnedBlock(m.unknownArray) + OwnedUnknown(m.unknown);
    ghost var tail := rest + multiset{m.block} + unknown;
    OneofsDoSelect(sch, m);
    OneofsFromZero(fields, m.oneofs);
    assert m.slots[0..] == m.slots;
    assert alloc.live == tail + (OwnedSlots(m.slots) + OwnedOneofs(m.oneofs));
    for i := 0 to |m.slots|
      invariant alloc.Valid() && alloc.refusals == old(alloc.refusals)
      invariant alloc.live == tail + (OwnedSlots(m.slots[i..]) + OneofsFrom(fields, m.oneofs, i))
    {
      FreeField(sch, m, i, alloc, tail);
    }
    OneofsFromEnd(fields, m.oneofs);
    NoSlots(m.slots[|m.slots|..]);
    assert alloc.live == (rest + multiset{m.block} + OwnedBlock(m.unknownArray)) + OwnedUnknown(m.unknown);
    FreeUnknown(m.unknown, alloc, rest + multiset{m.block} + OwnedBlock(m.unknownArray));
    FreeBlock(m.unknownArray, alloc, rest + multiset{m.block});
    alloc.Free(m.block);
  }

  lemma NoSlots(ss: seq<HSlot>)
    requires ss == []
    ensures OwnedSlots(ss) == multiset{}
  {}
}
