/**
 Merging one message with several, as unpacking does with a submessage that is sent more than once:
 when this succeeds, when it is the merge with what the several ones make together, and when it leaves
 only that. Merging is associative where the second question has the answer yes.
 */
module Regrouping {
  import opened Bytes
  import opened Schema
  import opened Wire
  import opened Scan
  import opened Parsing
  import opened MergeLaw
  import opened ByField
  import opened Accepted
  import MergeLimits

  // ---- What becomes of a oneof that the later message does not set --------------------------------

  predicate Known(desc: Descriptor, o: OneofState) {
    o.Chosen? && FindField(desc.fields, o.id) >= 0
  }

  /** merge_messages takes the value over. */
  predicate Kept(desc: Descriptor, o: OneofState) {
    && Known(desc, o)
    && match o.v
       case NoMsg => false
       case Msg(_) => true
       case Word(_) => true
       case Blob(p) => EarlierBlobWins(p, Null)
       case Text(p) => EarlierTextWins(desc.fields[FindField(desc.fields, o.id)], p, Null)
  }

  /** merge_messages leaves the oneof unset. */
  predicate Dropped(desc: Descriptor, o: OneofState) {
    Known(desc, o) && !Kept(desc, o)
  }

  lemma OneofCases(desc: Descriptor, e: OneofState, l: OneofState)
    ensures MergeOneof(desc, e, l)
         == if l.Chosen? then Some(l) else if !Known(desc, e) then None else if Kept(desc, e) then Some(e) else Some(l)
  {}

  // ---- One message merged with several ------------------------------------------------------------

  ghost function MergeList(sch: Schema, x: Message, qs: seq<Message>): Option<Message>
    decreases |qs|
  {
    if qs == [] then Some(x)
    else match Merge(sch, x, qs[0]) case None => None case Some(m) => MergeList(sch, m, qs[1..])
  }

  ghost function SlotList(sch: Schema, f: FieldDescriptor, s: Slot, ls: seq<Slot>): Option<Slot>
    decreases |ls|
  {
    if ls == [] then Some(s)
    else match MergeSlot(sch, f, s, ls[0]) case None => None case Some(t) => SlotList(sch, f, t, ls[1..])
  }

  ghost function OneofList(desc: Descriptor, o: OneofState, os: seq<OneofState>): Option<OneofState>
    decreases |os|
  {
    if os == [] then Some(o)
    else match MergeOneof(desc, o, os[0]) case None => None case Some(p) => OneofList(desc, p, os[1..])
  }

  function SlotsAt(qs: seq<Message>, i: nat): (r: seq<Slot>)
    ensures |r| == |qs|
  {
    seq(|qs|, k requires 0 <= k < |qs| => SlotOf(qs[k], i))
  }

  function OneofsAt(qs: seq<Message>, g: nat): (r: seq<OneofState>)
    ensures |r| == |qs|
  {
    seq(|qs|, k requires 0 <= k < |qs| => OneofOf(qs[k], g))
  }

  /** The submessages that slots hold. */
  function SubsOf(ls: seq<Slot>): seq<Message> {
    if ls == [] then []
    else (if ls[0].Single? && ls[0].v.Msg? then [ls[0].v.m] else []) + SubsOf(ls[1..])
  }

  /** A submessage field that merge_messages merges. */
  predicate Nests(f: FieldDescriptor) {
    f.ty == MESSAGE && f.oneof.None? && f.rule != REPEATED && f.rule != REQUIRED
  }

  predicate HoldsMsg(s: Slot) {
    s.Single? && s.v.Msg?
  }

  // ---- The three conditions -----------------------------------------------------------------------

  /** Every oneof is set in `x` or in the first of the others, here and in the submessages. */
  ghost predicate ListCovered(sch: Schema, x: Message, qs: seq<Message>)
    decreases x
  {
    qs != [] ==>
      var desc := DescriptorOf(sch, x.desc);
      && (forall g :: 0 <= g < |x.oneofs| ==> OneofOf(qs[0], g).Chosen? || Known(desc, x.oneofs[g]))
      && forall i :: 0 <= i < |x.slots| && i < |desc.fields| && Nests(desc.fields[i]) && HoldsMsg(x.slots[i])
           ==> ListCovered(sch, x.slots[i].v.m, SubsOf(SlotsAt(qs, i)))
  }

  predicate OneofRegroups(desc: Descriptor, x: OneofState, lastButOne: OneofState, last: OneofState) {
    last.Chosen? || !Dropped(desc, lastButOne) || Dropped(desc, x)
  }

  /**
   No oneof is unset by the last merge alone while `x` has set it to something that is kept, here and
   in the submessages.
   */
  ghost predicate Regroups(sch: Schema, x: Message, qs: seq<Message>)
    decreases x
  {
    |qs| >= 2 ==>
      var desc := DescriptorOf(sch, x.desc);
      && (forall g :: 0 <= g < |x.oneofs| ==>
            OneofRegroups(desc, x.oneofs[g], OneofOf(qs[|qs| - 2], g), OneofOf(qs[|qs| - 1], g)))
      && forall i :: 0 <= i < |x.slots| && i < |desc.fields| && Nests(desc.fields[i]) && HoldsMsg(x.slots[i])
           ==> Regroups(sch, x.slots[i].v.m, SubsOf(SlotsAt(qs, i)))
  }

  predicate OneofAddsNothing(desc: Descriptor, x: OneofState, first: OneofState, several: bool) {
    first.Chosen? || if several then Known(desc, x) else Dropped(desc, x)
  }

  /** Slot `s` has nothing that merging would keep beside `y`, which is made of the messages `subs` if of any. */
  ghost predicate SlotAddsNothing(sch: Schema, f: FieldDescriptor, s: Slot, y: Slot, subs: seq<Message>)
    decreases s, 0
  {
    if f.rule == REPEATED then Elements(s) == []
    else if f.rule == REQUIRED || f.oneof.Some? || !s.Single? || !y.Single? then true
    else
      match (s.v, y.v)
      case (Msg(m), Msg(n)) => AddsNothing(sch, m, n, subs)
      case (Msg(_), _) => false
      case (NoMsg, _) => true
      case (Blob(p), Blob(q)) => !EarlierBlobWins(p, q)
      case (Text(p), Text(q)) => !EarlierTextWins(f, p, q)
      case (_, _) => !(HasBit(f) && s.has && !y.has)
  }

  /** The same for a message `x` beside `y`, which is made of the messages `qs`. */
  ghost predicate AddsNothing(sch: Schema, x: Message, y: Message, qs: seq<Message>)
    decreases x, 1
  {
    var desc := DescriptorOf(sch, x.desc);
    && qs != []
    && (forall g :: 0 <= g < |x.oneofs| ==> OneofAddsNothing(desc, x.oneofs[g], OneofOf(qs[0], g), |qs| >= 2))
    && forall i :: 0 <= i < |x.slots| && i < |desc.fields|
         ==> SlotAddsNothing(sch, desc.fields[i], x.slots[i], SlotOf(y, i), SubsOf(SlotsAt(qs, i)))
  }

  // ---- One oneof ----------------------------------------------------------------------------------

  lemma {:induction false} OneofListSnoc(desc: Descriptor, o: OneofState, os: seq<OneofState>)
    requires os != []
    ensures OneofList(desc, o, os)
         == match OneofList(desc, o, os[..|os| - 1]) case None => None case Some(p) => MergeOneof(desc, p, os[|os| - 1])
    decreases |os|
  {
    hide MergeOneof;
    if |os| == 1 {
      assert os[1..] == [] && os[..0] == [];
    } else {
      assert os[..|os| - 1][1..] == os[1..][..|os| - 2];
      if MergeOneof(desc, o, os[0]).Some? {
        OneofListSnoc(desc, MergeOneof(desc, o, os[0]).value, os[1..]);
      }
    }
  }

  /** The outcome is unset exactly if the last of at least two is, and the one before is dropped. */
  lemma OneofListUnset(desc: Descriptor, o: OneofState, os: seq<OneofState>)
    requires |os| >= 2 && OneofList(desc, os[0], os[1..]).Some?
    ensures OneofList(desc, os[0], os[1..]).value.Unset? <==> os[|os| - 1].Unset? && Dropped(desc, os[|os| - 2])
  {
    hide MergeOneof, Kept, Known;
    var rest := os[1..];
    OneofListSnoc(desc, os[0], rest);
    var before := rest[..|rest| - 1];
    var p := OneofList(desc, os[0], before).value;
    assert rest[|rest| - 1] == os[|os| - 1];
    OneofCases(desc, p, os[|os| - 1]);
    if before != [] {
      OneofListSnoc(desc, os[0], before);
      assert before[|before| - 1] == os[|os| - 2];
      KeptIsKnown(desc, os[|os| - 2]);
      var q := OneofList(desc, os[0], before[..|before| - 1]).value;
      OneofCases(desc, q, os[|os| - 2]);
      KeptIsKnown(desc, q);
    } else {
      assert p == os[0] == os[|os| - 2];
    }
    KeptIsKnown(desc, p);
  }

  lemma KeptIsKnown(desc: Descriptor, o: OneofState)
    ensures Kept(desc, o) ==> Known(desc, o)
    ensures Known(desc, o) ==> o.Chosen?
  {}

  lemma OneofListExactly(desc: Descriptor, o: OneofState, os: seq<OneofState>)
    requires os != [] && OneofList(desc, os[0], os[1..]).Some?
    ensures OneofExactly(desc, o, os, OneofList(desc, os[0], os[1..]).value)
  {
    hide MergeOneof, Kept, Known;
    var y := OneofList(desc, os[0], os[1..]).value;
    OneofCases(desc, o, os[0]);
    OneofCases(desc, o, y);
    KeptIsKnown(desc, o);
    if |os| == 1 {
      assert os[1..] == [] && y == os[0];
      if MergeOneof(desc, o, os[0]).Some? {
        var p := MergeOneof(desc, o, os[0]).value;
        assert OneofList(desc, p, os[1..]) == Some(p);
      }
    } else {
      var rest := os[1..];
      OneofListUnset(desc, o, os);
      KeptIsKnown(desc, os[0]);
      KeptIsKnown(desc, y);
      OneofCases(desc, os[0], rest[0]);
      var p := if Kept(desc, o) then o else os[0];
      OneofCases(desc, p, rest[0]);
      if os[0].Unset? {
        assert rest[0].Chosen?;
        assert OneofList(desc, os[0], rest) == OneofList(desc, rest[0], rest[1..]);
        if Known(desc, o) {
          assert MergeOneof(desc, o, os[0]) == Some(p);
          assert OneofList(desc, p, rest) == OneofList(desc, rest[0], rest[1..]);
        }
      }
      assert OneofList(desc, o, os).Some? ==> OneofList(desc, o, os) == Some(y);
    }
  }

  // ---- One slot that holds no submessage to merge -------------------------------------------------

  /** Merging such slots succeeds, and is associative. */
  lemma SimpleAssociative(sch: Schema, f: FieldDescriptor, s: Slot, a: Slot, b: Slot)
    requires !Nests(f) && AcceptedSlot(sch, f, s) && AcceptedSlot(sch, f, a) && AcceptedSlot(sch, f, b)
    ensures MergeSlot(sch, f, s, a).Some? && MergeSlot(sch, f, a, b).Some?
    ensures MergeSlot(sch, f, MergeSlot(sch, f, s, a).value, b) == MergeSlot(sch, f, s, MergeSlot(sch, f, a, b).value)
  {
    hide Merge, AcceptedMessage;
    if f.rule == REPEATED {
      assert (s.vs + a.vs) + b.vs == s.vs + (a.vs + b.vs);
    }
  }

  lemma {:induction false} SimpleList(sch: Schema, f: FieldDescriptor, s: Slot, a: Slot, rest: seq<Slot>)
    requires !Nests(f) && AcceptedSlot(sch, f, s) && AcceptedSlot(sch, f, a)
    requires forall k :: 0 <= k < |rest| ==> AcceptedSlot(sch, f, rest[k])
    ensures SlotList(sch, f, a, rest).Some? && AcceptedSlot(sch, f, SlotList(sch, f, a, rest).value)
    ensures SlotList(sch, f, s, [a] + rest) == MergeSlot(sch, f, s, SlotList(sch, f, a, rest).value)
    decreases |rest|
  {
    hide MergeSlot, AcceptedSlot;
    assert ([a] + rest)[1..] == rest;
    if rest == [] {
      SimpleAssociative(sch, f, s, a, a);
      assert SlotList(sch, f, s, [a]) == MergeSlot(sch, f, s, a) by { assert [a] + [] == [a]; }
    } else {
      var b, more := rest[0], rest[1..];
      SimpleAssociative(sch, f, s, a, b);
      MergeSlotAccepted(sch, f, s, a);
      MergeSlotAccepted(sch, f, a, b);
      var sa, ab := MergeSlot(sch, f, s, a).value, MergeSlot(sch, f, a, b).value;
      assert rest == [b] + more && ([b] + more)[1..] == more && ([ab] + more)[1..] == more;
      SimpleList(sch, f, s, ab, more);
      SimpleList(sch, f, sa, b, more);
      SimpleAssociative(sch, f, sa, b, b);
    }
  }

  lemma SimpleAddsNothing(sch: Schema, f: FieldDescriptor, s: Slot, y: Slot, subs: seq<Message>)
    requires !Nests(f) && AcceptedSlot(sch, f, s) && AcceptedSlot(sch, f, y)
    ensures MergeSlot(sch, f, s, y).Some?
    ensures MergeSlot(sch, f, s, y) == Some(y) <==> SlotAddsNothing(sch, f, s, y, subs)
  {
    hide Merge, AcceptedMessage, AddsNothing;
    if f.rule == REPEATED {
      assert |Elements(s) + Elements(y)| == |Elements(s)| + |Elements(y)|;
      if Elements(s) == [] { assert [] + y.vs == y.vs; }
    }
  }

  // ---- One slot that does -------------------------------------------------------------------------

  const NO_SUB := Single(false, NoMsg)

  ghost predicate NestedSlot(s: Slot) {
    s == NO_SUB || (s.Single? && !s.has && s.v.Msg?)
  }

  /** What a slot becomes by merging in the submessages `subs`. */
  ghost function SubResult(sch: Schema, s: Slot, subs: seq<Message>): Option<Slot> {
    if subs == [] then Some(s)
    else
      var r := if HoldsMsg(s) then MergeList(sch, s.v.m, subs) else MergeList(sch, subs[0], subs[1..]);
      match r case None => None case Some(m) => Some(Single(false, Msg(m)))
  }

  lemma {:induction false} NestedList(sch: Schema, f: FieldDescriptor, s: Slot, ls: seq<Slot>)
    requires Nests(f) && NestedSlot(s) && forall k :: 0 <= k < |ls| ==> NestedSlot(ls[k])
    ensures SlotList(sch, f, s, ls) == SubResult(sch, s, SubsOf(ls))
    decreases |ls|
  {
    hide Merge;
    if ls != [] {
      var subs, rest := SubsOf(ls), SubsOf(ls[1..]);
      if HoldsMsg(ls[0]) {
        assert subs[0] == ls[0].v.m && subs[1..] == rest;
        if HoldsMsg(s) {
          if Merge(sch, s.v.m, ls[0].v.m).Some? {
            var m := Merge(sch, s.v.m, ls[0].v.m).value;
            assert MergeSlot(sch, f, s, ls[0]) == Some(Single(false, Msg(m)));
            NestedList(sch, f, Single(false, Msg(m)), ls[1..]);
            assert MergeList(sch, s.v.m, subs) == MergeList(sch, m, rest);
            if rest == [] { assert MergeList(sch, m, rest) == Some(m); }
          }
        } else {
          NestedList(sch, f, ls[0], ls[1..]);
        }
      } else {
        assert MergeSlot(sch, f, s, ls[0]) == Some(s);
        assert subs == rest;
        NestedList(sch, f, s, ls[1..]);
      }
    }
  }

  // ---- One slot -----------------------------------------------------------------------------------

  ghost predicate SlotCovered(sch: Schema, f: FieldDescriptor, s: Slot, ls: seq<Slot>) {
    Nests(f) && HoldsMsg(s) ==> ListCovered(sch, s.v.m, SubsOf(ls))
  }

  ghost predicate SlotRegroups(sch: Schema, f: FieldDescriptor, s: Slot, ls: seq<Slot>) {
    Nests(f) && HoldsMsg(s) ==> Regroups(sch, s.v.m, SubsOf(ls))
  }

  /** What is claimed of a slot `s` and slots `ls` that together make `y`. */
  ghost predicate SlotExactly(sch: Schema, f: FieldDescriptor, s: Slot, ls: seq<Slot>, y: Slot) {
    && (SlotList(sch, f, s, ls).Some? <==> SlotCovered(sch, f, s, ls))
    && (SlotList(sch, f, s, ls).Some? ==>
          (MergeSlot(sch, f, s, y) == SlotList(sch, f, s, ls) <==> SlotRegroups(sch, f, s, ls)))
    && (SlotList(sch, f, s, ls) == Some(y) <==> SlotAddsNothing(sch, f, s, y, SubsOf(ls)))
  }

  lemma SimpleExactly(sch: Schema, f: FieldDescriptor, s: Slot, ls: seq<Slot>)
    requires !Nests(f) && ls != [] && AcceptedSlot(sch, f, s) && forall k :: 0 <= k < |ls| ==> AcceptedSlot(sch, f, ls[k])
    requires SlotList(sch, f, ls[0], ls[1..]).Some?
    ensures SlotExactly(sch, f, s, ls, SlotList(sch, f, ls[0], ls[1..]).value)
  {
    hide MergeSlot, AcceptedSlot, SlotAddsNothing, SlotList;
    assert ls == [ls[0]] + ls[1..];
    SimpleList(sch, f, s, ls[0], ls[1..]);
    SimpleAddsNothing(sch, f, s, SlotList(sch, f, ls[0], ls[1..]).value, SubsOf(ls));
  }

  lemma AcceptedNested(sch: Schema, f: FieldDescriptor, s: Slot)
    requires Nests(f) && AcceptedSlot(sch, f, s)
    ensures NestedSlot(s)
    ensures s.v.Msg? ==> AcceptedMessage(sch, s.v.m) && s.v.m.desc == f.sub
  {}

  ghost predicate AllAccepted(sch: Schema, d: nat, qs: seq<Message>) {
    forall k :: 0 <= k < |qs| ==> AcceptedMessage(sch, qs[k]) && qs[k].desc == d
  }

  lemma {:induction false} SubsAccepted(sch: Schema, f: FieldDescriptor, ls: seq<Slot>)
    requires Nests(f) && forall k :: 0 <= k < |ls| ==> AcceptedSlot(sch, f, ls[k])
    ensures AllAccepted(sch, f.sub, SubsOf(ls))
    ensures forall k :: 0 <= k < |ls| ==> NestedSlot(ls[k])
    decreases |ls|
  {
    hide AcceptedSlot, AcceptedMessage;
    if ls != [] {
      AcceptedNested(sch, f, ls[0]);
      SubsAccepted(sch, f, ls[1..]);
    }
  }

  // ---- Whole messages -----------------------------------------------------------------------------

  /** A merge is a merge of each slot and each oneof. */
  lemma MergeSplits(sch: Schema, x: Message, q: Message)
    requires InShape(sch, x) && InShape(sch, q) && x.desc == q.desc
    ensures Merge(sch, x, q).Some?
       <==> && (forall i :: 0 <= i < |x.slots| ==> MergeSlot(sch, sch[x.desc].fields[i], x.slots[i], q.slots[i]).Some?)
            && (forall g :: 0 <= g < |x.oneofs| ==> MergeOneof(sch[x.desc], x.oneofs[g], q.oneofs[g]).Some?)
    ensures Merge(sch, x, q).Some? ==>
              var r := Merge(sch, x, q).value;
              && InShape(sch, r) && r.desc == x.desc && r.unknown == q.unknown
              && (forall i :: 0 <= i < |x.slots| ==>
                    MergeSlot(sch, sch[x.desc].fields[i], x.slots[i], q.slots[i]) == Some(r.slots[i]))
              && (forall g :: 0 <= g < |x.oneofs| ==> MergeOneof(sch[x.desc], x.oneofs[g], q.oneofs[g]) == Some(r.oneofs[g]))
  {
    hide Merge, MergeSlot, MergeOneof;
    var desc := sch[x.desc];
    if Merge(sch, x, q).Some? {
      var r := Merge(sch, x, q).value;
      assert r.(unknown := q.unknown) == r;
      MergeIs(sch, x, q, r);
    } else if && (forall i :: 0 <= i < |x.slots| ==> MergeSlot(sch, desc.fields[i], x.slots[i], q.slots[i]).Some?)
              && (forall g :: 0 <= g < |x.oneofs| ==> MergeOneof(desc, x.oneofs[g], q.oneofs[g]).Some?) {
      var slots := seq(|x.slots|, i requires 0 <= i < |x.slots| => MergeSlot(sch, desc.fields[i], x.slots[i], q.slots[i]).value);
      var oneofs := seq(|x.oneofs|, g requires 0 <= g < |x.oneofs| => MergeOneof(desc, x.oneofs[g], q.oneofs[g]).value);
      MergeIs(sch, x, q, Message(x.desc, slots, oneofs, []));
    }
  }

  /** The same for a merge with several. */
  lemma {:induction false} ListSplits(sch: Schema, x: Message, qs: seq<Message>)
    requires InShape(sch, x) && forall k :: 0 <= k < |qs| ==> InShape(sch, qs[k]) && qs[k].desc == x.desc
    ensures MergeList(sch, x, qs).Some?
       <==> && (forall i :: 0 <= i < |x.slots| ==> SlotList(sch, sch[x.desc].fields[i], x.slots[i], SlotsAt(qs, i)).Some?)
            && (forall g :: 0 <= g < |x.oneofs| ==> OneofList(sch[x.desc], x.oneofs[g], OneofsAt(qs, g)).Some?)
    ensures MergeList(sch, x, qs).Some? ==>
              var r := MergeList(sch, x, qs).value;
              && InShape(sch, r) && r.desc == x.desc && r.unknown == (if qs == [] then x.unknown else qs[|qs| - 1].unknown)
              && (forall i :: 0 <= i < |x.slots| ==>
                    SlotList(sch, sch[x.desc].fields[i], x.slots[i], SlotsAt(qs, i)) == Some(r.slots[i]))
              && (forall g :: 0 <= g < |x.oneofs| ==> OneofList(sch[x.desc], x.oneofs[g], OneofsAt(qs, g)) == Some(r.oneofs[g]))
    decreases |qs|
  {
    hide Merge, MergeSlot, MergeOneof, InShape;
    ShapeOf(sch, x);
    if qs != [] {
      var q, rest := qs[0], qs[1..];
      ShapeOf(sch, q);
      MergeSplits(sch, x, q);
      forall i | 0 <= i < |x.slots|
        ensures SlotsAt(qs, i) != [] && SlotsAt(qs, i)[0] == q.slots[i] && SlotsAt(qs, i)[1..] == SlotsAt(rest, i)
      {}
      forall g | 0 <= g < |x.oneofs|
        ensures OneofsAt(qs, g) != [] && OneofsAt(qs, g)[0] == q.oneofs[g] && OneofsAt(qs, g)[1..] == OneofsAt(rest, g)
      {}
      if Merge(sch, x, q).Some? {
        ShapeOf(sch, Merge(sch, x, q).value);
        ListSplits(sch, Merge(sch, x, q).value, rest);
      }
    }
  }

  lemma ShapeOf(sch: Schema, m: Message)
    requires InShape(sch, m)
    ensures m.desc < |sch| && |m.slots| == |sch[m.desc].fields| && |m.oneofs| == sch[m.desc].nOneofs
  {}

  // ---- The three answers --------------------------------------------------------------------------

  lemma ShapesOfAll(sch: Schema, d: nat, qs: seq<Message>)
    requires AllAccepted(sch, d, qs)
    ensures forall k :: 0 <= k < |qs| ==> InShape(sch, qs[k]) && qs[k].desc == d
  {
    forall k | 0 <= k < |qs|
      ensures InShape(sch, qs[k])
    {
      ShapeOfAccepted(sch, qs[k]);
    }
  }

  lemma ShapeOfAccepted(sch: Schema, m: Message)
    requires AcceptedMessage(sch, m)
    ensures InShape(sch, m)
    ensures forall i :: 0 <= i < |m.slots| ==> AcceptedSlot(sch, sch[m.desc].fields[i], m.slots[i])
  {}

  lemma SlotsAccepted(sch: Schema, d: nat, qs: seq<Message>, i: nat)
    requires AllAccepted(sch, d, qs) && d < |sch| && i < |sch[d].fields|
    ensures forall k :: 0 <= k < |qs| ==> AcceptedSlot(sch, sch[d].fields[i], SlotsAt(qs, i)[k])
  {
    hide AcceptedMessage, AcceptedSlot;
    forall k | 0 <= k < |qs|
      ensures AcceptedSlot(sch, sch[d].fields[i], SlotsAt(qs, i)[k])
    {
      ShapeOfAccepted(sch, qs[k]);
    }
  }

  lemma {:induction false} NestedExactly(sch: Schema, f: FieldDescriptor, s: Slot, ls: seq<Slot>)
    requires Nests(f) && ls != [] && AcceptedSlot(sch, f, s) && forall k :: 0 <= k < |ls| ==> AcceptedSlot(sch, f, ls[k])
    requires SlotList(sch, f, ls[0], ls[1..]).Some?
    ensures SlotExactly(sch, f, s, ls, SlotList(sch, f, ls[0], ls[1..]).value)
    decreases s, 0
  {
    hide Merge, AcceptedSlot, AcceptedMessage, ListCovered, Regroups, AddsNothing, SlotList, MergeList;
    AcceptedNested(sch, f, s);
    SubsAccepted(sch, f, ls);
    NestedList(sch, f, s, ls);
    NestedList(sch, f, ls[0], ls[1..]);
    var subs := SubsOf(ls);
    var y := SlotList(sch, f, ls[0], ls[1..]).value;
    OnePart(sch, ls);
    if HoldsMsg(s) && subs != [] {
      ListExactly(sch, s.v.m, subs);
    } else if HoldsMsg(s) {
      NoPart(sch, s.v.m);
    }
  }

  /** What the slots `ls` make alone is what their submessages make. */
  lemma OnePart(sch: Schema, ls: seq<Slot>)
    requires ls != [] && forall k :: 0 <= k < |ls| ==> NestedSlot(ls[k])
    ensures SubResult(sch, ls[0], SubsOf(ls[1..])) == SubResult(sch, NO_SUB, SubsOf(ls))
  {
    hide Merge;
    var rest := SubsOf(ls[1..]);
    if HoldsMsg(ls[0]) {
      assert SubsOf(ls)[0] == ls[0].v.m && SubsOf(ls)[1..] == rest;
      if rest == [] { assert MergeList(sch, ls[0].v.m, []) == Some(ls[0].v.m); }
    } else {
      assert SubsOf(ls) == rest;
    }
  }

  lemma NoPart(sch: Schema, m: Message)
    ensures ListCovered(sch, m, []) && Regroups(sch, m, [])
  {}

  /** What is claimed of a oneof `o` and oneofs `os` that together make `y`. */
  ghost predicate OneofExactly(desc: Descriptor, o: OneofState, os: seq<OneofState>, y: OneofState)
    requires os != []
  {
    && (OneofList(desc, o, os).Some? <==> os[0].Chosen? || Known(desc, o))
    && (OneofList(desc, o, os).Some? ==>
          (MergeOneof(desc, o, y) == OneofList(desc, o, os)
           <==> (|os| >= 2 ==> OneofRegroups(desc, o, os[|os| - 2], os[|os| - 1]))))
    && (OneofList(desc, o, os) == Some(y) <==> OneofAddsNothing(desc, o, os[0], |os| >= 2))
  }

  /** The claims for each slot and each oneof of a message. */
  ghost predicate PartsExactly(sch: Schema, x: Message, qs: seq<Message>, y: Message)
    requires InShape(sch, x) && InShape(sch, y) && x.desc == y.desc && qs != []
  {
    && (forall i :: 0 <= i < |x.slots| ==> SlotExactly(sch, sch[x.desc].fields[i], x.slots[i], SlotsAt(qs, i), y.slots[i]))
    && (forall g :: 0 <= g < |x.oneofs| ==> OneofExactly(sch[x.desc], x.oneofs[g], OneofsAt(qs, g), y.oneofs[g]))
  }

  lemma CoveredExactly(sch: Schema, x: Message, qs: seq<Message>, y: Message)
    requires InShape(sch, x) && InShape(sch, y) && x.desc == y.desc && qs != [] && PartsExactly(sch, x, qs, y)
    requires forall k :: 0 <= k < |qs| ==> InShape(sch, qs[k]) && qs[k].desc == x.desc
    ensures MergeList(sch, x, qs).Some? <==> ListCovered(sch, x, qs)
  {
    hide Merge, MergeList, MergeSlot, MergeOneof, SlotList, OneofList, Known, Nests, SubsOf, Regroups, AddsNothing;
    ListSplits(sch, x, qs);
    forall i | 0 <= i < |x.slots|
      ensures SlotList(sch, sch[x.desc].fields[i], x.slots[i], SlotsAt(qs, i)).Some?
         <==> SlotCovered(sch, sch[x.desc].fields[i], x.slots[i], SlotsAt(qs, i))
    {
      assert SlotExactly(sch, sch[x.desc].fields[i], x.slots[i], SlotsAt(qs, i), y.slots[i]);
    }
    forall g | 0 <= g < |x.oneofs|
      ensures OneofList(sch[x.desc], x.oneofs[g], OneofsAt(qs, g)).Some?
         <==> OneofOf(qs[0], g).Chosen? || Known(sch[x.desc], x.oneofs[g])
    {
      assert OneofExactly(sch[x.desc], x.oneofs[g], OneofsAt(qs, g), y.oneofs[g]);
    }
  }

  lemma RegroupsExactly(sch: Schema, x: Message, qs: seq<Message>, y: Message)
    requires InShape(sch, x) && InShape(sch, y) && x.desc == y.desc && qs != [] && PartsExactly(sch, x, qs, y)
    requires forall k :: 0 <= k < |qs| ==> InShape(sch, qs[k]) && qs[k].desc == x.desc
    requires MergeList(sch, x, qs).Some? && y.unknown == qs[|qs| - 1].unknown
    ensures Merge(sch, x, y) == MergeList(sch, x, qs) <==> Regroups(sch, x, qs)
  {
    hide Merge, MergeList, MergeSlot, MergeOneof, SlotList, OneofList, Known, Dropped, ListCovered, AddsNothing, OneofRegroups,
      Regroups, SlotRegroups, InShape, SlotAddsNothing, OneofAddsNothing, SlotCovered;
    ListSplits(sch, x, qs);
    ShapeOf(sch, x);
    ShapeOf(sch, y);
    ShapeOf(sch, MergeList(sch, x, qs).value);
    var z := MergeList(sch, x, qs).value;
    MergeIs(sch, x, y, z);
    assert z.(unknown := y.unknown) == z;
    forall i | 0 <= i < |x.slots|
      ensures MergeSlot(sch, sch[x.desc].fields[i], x.slots[i], y.slots[i]) == Some(z.slots[i])
         <==> SlotRegroups(sch, sch[x.desc].fields[i], x.slots[i], SlotsAt(qs, i))
    {
      assert SlotExactly(sch, sch[x.desc].fields[i], x.slots[i], SlotsAt(qs, i), y.slots[i]);
    }
    forall g | 0 <= g < |x.oneofs|
      ensures MergeOneof(sch[x.desc], x.oneofs[g], y.oneofs[g]) == Some(z.oneofs[g])
         <==> (|qs| >= 2 ==> OneofRegroups(sch[x.desc], x.oneofs[g], OneofOf(qs[|qs| - 2], g), OneofOf(qs[|qs| - 1], g)))
    {
      assert OneofExactly(sch[x.desc], x.oneofs[g], OneofsAt(qs, g), y.oneofs[g]);
    }
    RegroupsSplits(sch, x, qs);
  }

  /** A message regroups if its slots and its oneofs do. */
  lemma RegroupsSplits(sch: Schema, x: Message, qs: seq<Message>)
    requires InShape(sch, x) && qs != []
    ensures Regroups(sch, x, qs)
       <==> && (forall i :: 0 <= i < |x.slots| ==> SlotRegroups(sch, sch[x.desc].fields[i], x.slots[i], SlotsAt(qs, i)))
            && (forall g :: 0 <= g < |x.oneofs| ==>
                  (|qs| >= 2 ==> OneofRegroups(sch[x.desc], x.oneofs[g], OneofOf(qs[|qs| - 2], g), OneofOf(qs[|qs| - 1], g))))
  {
    hide Nests, SubsOf, OneofRegroups;
    if |qs| == 1 {
      forall i | 0 <= i < |x.slots|
        ensures SlotRegroups(sch, sch[x.desc].fields[i], x.slots[i], SlotsAt(qs, i))
      {
        FewRegroup(sch, x, qs, i);
      }
    }
  }

  lemma FewRegroup(sch: Schema, x: Message, qs: seq<Message>, i: nat)
    requires |qs| == 1 && i < |x.slots| && x.desc < |sch| && i < |sch[x.desc].fields|
    ensures SlotRegroups(sch, sch[x.desc].fields[i], x.slots[i], SlotsAt(qs, i))
  {
    assert SlotsAt(qs, i)[1..] == [];
    assert |SubsOf(SlotsAt(qs, i))| <= 1;
  }

  lemma AddsNothingExactly(sch: Schema, x: Message, qs: seq<Message>, y: Message)
    requires InShape(sch, x) && InShape(sch, y) && x.desc == y.desc && qs != [] && PartsExactly(sch, x, qs, y)
    requires forall k :: 0 <= k < |qs| ==> InShape(sch, qs[k]) && qs[k].desc == x.desc
    requires y.unknown == qs[|qs| - 1].unknown
    ensures MergeList(sch, x, qs) == Some(y) <==> AddsNothing(sch, x, y, qs)
  {
    hide Merge, MergeList, MergeSlot, MergeOneof, SlotList, OneofList, Known, Dropped, Nests, SubsOf, ListCovered, Regroups,
      OneofAddsNothing, SlotAddsNothing;
    ListSplits(sch, x, qs);
    forall i | 0 <= i < |x.slots|
      ensures SlotList(sch, sch[x.desc].fields[i], x.slots[i], SlotsAt(qs, i)) == Some(y.slots[i])
         <==> SlotAddsNothing(sch, sch[x.desc].fields[i], x.slots[i], SlotOf(y, i), SubsOf(SlotsAt(qs, i)))
    {
      assert SlotExactly(sch, sch[x.desc].fields[i], x.slots[i], SlotsAt(qs, i), y.slots[i]);
    }
    forall g | 0 <= g < |x.oneofs|
      ensures OneofList(sch[x.desc], x.oneofs[g], OneofsAt(qs, g)) == Some(y.oneofs[g])
         <==> OneofAddsNothing(sch[x.desc], x.oneofs[g], OneofOf(qs[0], g), |qs| >= 2)
    {
      assert OneofExactly(sch[x.desc], x.oneofs[g], OneofsAt(qs, g), y.oneofs[g]);
    }
    if MergeList(sch, x, qs).Some? {
      var z := MergeList(sch, x, qs).value;
      if AddsNothing(sch, x, y, qs) {
        assert z.slots == y.slots && z.oneofs == y.oneofs;
      }
    }
  }

  /**
   A message `x` merged with several, one after the other, and with what these make together: the first
   succeeds exactly if each oneof is covered, gives the second exactly if they regroup, and gives what
   the several make alone exactly if `x` adds nothing.
   */
  lemma {:induction false} ListExactly(sch: Schema, x: Message, qs: seq<Message>)
    requires AcceptedMessage(sch, x) && AllAccepted(sch, x.desc, qs) && qs != []
    requires MergeList(sch, qs[0], qs[1..]).Some?
    ensures var y := MergeList(sch, qs[0], qs[1..]).value;
            && (MergeList(sch, x, qs).Some? <==> ListCovered(sch, x, qs))
            && (MergeList(sch, x, qs).Some? ==> (Merge(sch, x, y) == MergeList(sch, x, qs) <==> Regroups(sch, x, qs)))
            && (MergeList(sch, x, qs) == Some(y) <==> AddsNothing(sch, x, y, qs))
    decreases x, 1
  {
    hide Merge, MergeList, AcceptedSlot, AcceptedMessage, SlotList, OneofList, MergeSlot, MergeOneof, InShape, SlotExactly,
      OneofExactly, AllAccepted, ListCovered, Regroups, AddsNothing, Nests;
    ShapeOfAccepted(sch, x);
    ShapesOfAll(sch, x.desc, qs);
    ShapeOf(sch, x);
    ShapeOf(sch, qs[0]);
    var y := MergeList(sch, qs[0], qs[1..]).value;
    ListSplits(sch, qs[0], qs[1..]);
    ShapeOf(sch, y);
    forall i | 0 <= i < |x.slots|
      ensures SlotExactly(sch, sch[x.desc].fields[i], x.slots[i], SlotsAt(qs, i), y.slots[i])
    {
      var ls := SlotsAt(qs, i);
      assert ls[0] == qs[0].slots[i] && ls[1..] == SlotsAt(qs[1..], i);
      SlotsAccepted(sch, x.desc, qs, i);
      if Nests(sch[x.desc].fields[i]) {
        NestedExactly(sch, sch[x.desc].fields[i], x.slots[i], ls);
      } else {
        SimpleExactly(sch, sch[x.desc].fields[i], x.slots[i], ls);
      }
    }
    forall g | 0 <= g < |x.oneofs|
      ensures OneofExactly(sch[x.desc], x.oneofs[g], OneofsAt(qs, g), y.oneofs[g])
    {
      var os := OneofsAt(qs, g);
      assert os[0] == qs[0].oneofs[g] && os[1..] == OneofsAt(qs[1..], g);
      OneofListExactly(sch[x.desc], x.oneofs[g], os);
    }
    CoveredExactly(sch, x, qs, y);
    if MergeList(sch, x, qs).Some? { RegroupsExactly(sch, x, qs, y); }
    AddsNothingExactly(sch, x, qs, y);
  }

  // ---- Two messages, and three --------------------------------------------------------------------

  /** merge_messages leaves the later message as it is exactly if the earlier one adds nothing to it. */
  lemma LaterStaysExactly(sch: Schema, e: Message, l: Message)
    requires AcceptedMessage(sch, e) && AcceptedMessage(sch, l) && e.desc == l.desc
    ensures Merge(sch, e, l) == Some(l) <==> AddsNothing(sch, e, l, [l])
  {
    hide Merge, AcceptedMessage, AddsNothing, ListCovered, Regroups;
    MergeOne(sch, e, l);
    ListExactly(sch, e, [l]);
  }

  lemma MergeOne(sch: Schema, e: Message, l: Message)
    ensures MergeList(sch, e, [l]) == Merge(sch, e, l)
    ensures MergeList(sch, l, [l][1..]) == Some(l)
  {
    hide Merge;
    assert [l][1..] == [];
    if Merge(sch, e, l).Some? {
      assert MergeList(sch, Merge(sch, e, l).value, []) == Merge(sch, e, l);
    }
  }

  /** A merge with one message is covered exactly if each oneof is, wherever both have the submessage. */
  lemma CoveredOnce(sch: Schema, e: Message, l: Message)
    requires AcceptedMessage(sch, e) && AcceptedMessage(sch, l) && e.desc == l.desc
    ensures ListCovered(sch, e, [l]) <==> MergeLimits.Covered(sch, e, l)
  {
    hide Merge, AcceptedMessage, AddsNothing, ListCovered, Regroups, MergeLimits.Covered;
    MergeOne(sch, e, l);
    ListExactly(sch, e, [l]);
    MergeLimits.MergesExactly(sch, e, l);
  }

  /**
   Of three messages it does not matter which two are merged first, exactly if they regroup: at every
   depth where all three have the submessage, each oneof is set by the last, or kept from the second,
   or not kept from the first.
   */
  lemma MergeAssociativeExactly(sch: Schema, x: Message, y: Message, z: Message)
    requires AcceptedMessage(sch, x) && AcceptedMessage(sch, y) && AcceptedMessage(sch, z) && x.desc == y.desc == z.desc
    requires Merge(sch, y, z).Some? && Merge(sch, x, y).Some? && Merge(sch, Merge(sch, x, y).value, z).Some?
    ensures Merge(sch, Merge(sch, x, y).value, z) == Merge(sch, x, Merge(sch, y, z).value) <==> Regroups(sch, x, [y, z])
  {
    hide Merge, AcceptedMessage, AddsNothing, ListCovered, Regroups;
    assert [y, z][1..] == [z];
    MergeOne(sch, y, z);
    MergeOne(sch, Merge(sch, x, y).value, z);
    assert MergeList(sch, x, [y, z]) == MergeList(sch, Merge(sch, x, y).value, [z]);
    ListExactly(sch, x, [y, z]);
  }

  /** Without oneofs everything is covered and regroups. */
  lemma {:induction false} NoOneofs(sch: Schema, x: Message, qs: seq<Message>)
    requires OneofFree(sch) && AcceptedMessage(sch, x)
    ensures ListCovered(sch, x, qs) && Regroups(sch, x, qs)
    decreases x
  {
    hide AcceptedMessage, SubsOf, AcceptedSlot;
    ShapeOfAccepted(sch, x);
    forall i | 0 <= i < |x.slots| && Nests(sch[x.desc].fields[i]) && HoldsMsg(x.slots[i])
      ensures ListCovered(sch, x.slots[i].v.m, SubsOf(SlotsAt(qs, i))) && Regroups(sch, x.slots[i].v.m, SubsOf(SlotsAt(qs, i)))
    {
      AcceptedNested(sch, sch[x.desc].fields[i], x.slots[i]);
      NoOneofs(sch, x.slots[i].v.m, SubsOf(SlotsAt(qs, i)));
    }
  }
}
