/** Scalars and packed runs of scalars: reading inverts writing, element by element and run by run. */
module Scalars {
  import opened Bytes
  import opened Varints
  import opened Schema
  import opened Wire
  import opened Scan
  import opened Parsing
  import opened Canonical

  lemma VarintIsBody(v: u64)
    ensures ScanBody(WIRE_VARINT, Varint(v)) == Some(|Varint(v)|)
  {
    PrefixLenVarint(v, []);
    assert Varint(v) + [] == Varint(v);
    VarintAtMostTen(v);
  }

  lemma ScalarIsBody(t: FieldType, w: u64)
    requires IsPackable(t)
    ensures ScanBody(WireTypeOf(t), EncodeScalar(t, w)) == Some(|EncodeScalar(t, w)|)
  {
    hide StartsVarint, PrefixLen, ScanPrefixed, Fixed32, Fixed64, ZigZag32, ZigZag64, SignExtend, Low32;
    match t
    case SINT32 => VarintIsBody(ZigZag32(Low32(w)));
    case INT32 | ENUM => VarintIsBody(SignExtend(Low32(w)));
    case UINT32 => VarintIsBody(Low32(w));
    case SINT64 => VarintIsBody(ZigZag64(w));
    case INT64 | UINT64 => VarintIsBody(w);
    case BOOL =>
      var b := if Low32(w) != 0 then 1 else 0;
      VarintIsBody(b);
      assert Varint(b) == [b];
    case _ =>
  }

  /** Every scalar survives encoding and reading. */
  lemma ScalarRoundTrip(t: FieldType, w: u64)
    requires IsPackable(t)
    ensures ParseScalar(t, WireTypeOf(t), EncodeScalar(t, w)) == Some(NormWord(t, w))
  {
    hide Varint, Fixed32, Fixed64, ParseUint32, ParseUint64, ParseFixed32, ParseFixed64;
    hide ZigZag32, ZigZag64, UnZigZag32, UnZigZag64, SignExtend, Low32;
    match t
    case SINT32 => VarintRoundTrip32(ZigZag32(Low32(w))); ZigZag32Correct(Low32(w));
    case INT32 | ENUM | UINT32 => VarintRoundTrip32(Low32(w));
    case SINT64 => VarintRoundTrip64(ZigZag64(w)); ZigZag64Correct(w);
    case INT64 | UINT64 => VarintRoundTrip64(w);
    case SFIXED32 | FIXED32 | FLOAT =>
      Fixed32RoundTrip(Low32(w), []);
      assert Fixed32(Low32(w)) + [] == Fixed32(Low32(w));
    case SFIXED64 | FIXED64 | DOUBLE =>
      Fixed64RoundTrip(w, []);
      assert Fixed64(w) + [] == Fixed64(w);
    case BOOL =>
      assert ParseBoolean([1]) by { assert [1][0] % 128 != 0; }
  }

  // ---- Packed runs ----------------------------------------------------------------------------

  lemma {:induction false} PackedVarintsConcat(t: FieldType, a: seq<byte>, b: seq<byte>)
    requires ParsePackedVarints(t, a).Some?
    ensures ParsePackedVarints(t, b).Some? ==>
              ParsePackedVarints(t, a + b) == Some(ParsePackedVarints(t, a).value + ParsePackedVarints(t, b).value)
    ensures ParsePackedVarints(t, b).None? ==> ParsePackedVarints(t, a + b).None?
  {
    hide ParseScalar, StartsVarint;
    if a == [] {
      assert a + b == b;
      if ParsePackedVarints(t, b).Some? {
        assert [] + ParsePackedVarints(t, b).value == ParsePackedVarints(t, b).value;
      }
    } else {
      PrefixLenExtend(a, b, 10);
      var p := PrefixLen(a);
      assert (a + b)[p..] == a[p..] + b;
      PackedVarintsConcat(t, a[p..], b);
      if ParsePackedVarints(t, b).Some? {
        var w := ParseScalar(t, WIRE_VARINT, a[..p]).value;
        assert [w] + (ParsePackedVarints(t, a[p..]).value + ParsePackedVarints(t, b).value)
            == ParsePackedVarints(t, a).value + ParsePackedVarints(t, b).value;
      }
    }
  }

  lemma {:induction false} PackedFixedConcat(t: FieldType, size: nat, a: seq<byte>, b: seq<byte>)
    requires size == (if IsFixed32(t) then 4 else 8)
    requires ParsePackedFixed(t, size, a).Some?
    ensures ParsePackedFixed(t, size, b).Some? ==>
              ParsePackedFixed(t, size, a + b)
              == Some(ParsePackedFixed(t, size, a).value + ParsePackedFixed(t, size, b).value)
    ensures ParsePackedFixed(t, size, b).None? ==> ParsePackedFixed(t, size, a + b).None?
  {
    hide ParseScalar;
    if a == [] {
      assert a + b == b;
      if ParsePackedFixed(t, size, b).Some? {
        assert [] + ParsePackedFixed(t, size, b).value == ParsePackedFixed(t, size, b).value;
      }
    } else {
      assert (a + b)[size..] == a[size..] + b;
      assert (a + b)[..size] == a[..size];
      PackedFixedConcat(t, size, a[size..], b);
      if ParsePackedFixed(t, size, b).Some? {
        var w := ParseScalar(t, WireTypeOf(t), a[..size]).value;
        assert [w] + (ParsePackedFixed(t, size, a[size..]).value + ParsePackedFixed(t, size, b).value)
            == ParsePackedFixed(t, size, a).value + ParsePackedFixed(t, size, b).value;
      }
    }
  }

  /** Reading two runs laid end to end gives the elements of the first, then those of the second. */
  lemma PackedConcat(t: FieldType, a: seq<byte>, b: seq<byte>)
    requires ParsePacked(t, a).Some?
    ensures ParsePacked(t, b).Some? ==>
              ParsePacked(t, a + b) == Some(ParsePacked(t, a).value + ParsePacked(t, b).value)
    ensures ParsePacked(t, b).None? ==> ParsePacked(t, a + b).None?
  {
    hide ParsePackedFixed, ParsePackedVarints;
    if IsFixed32(t) { PackedFixedConcat(t, 4, a, b); }
    else if IsFixed64(t) { PackedFixedConcat(t, 8, a, b); }
    else { PackedVarintsConcat(t, a, b); }
  }

  /** A run of one element. */
  lemma PackedOne(t: FieldType, w: u64)
    requires IsPackable(t)
    ensures ParsePacked(t, EncodeScalar(t, w)) == Some([NormWord(t, w)])
  {
    hide ParseScalar, NormWord, EncodeScalar;
    var s := EncodeScalar(t, w);
    ScalarRoundTrip(t, w);
    ScalarIsBody(t, w);
    assert [NormWord(t, w)] + [] == [NormWord(t, w)];
    assert s[..|s|] == s && s[|s|..] == [];
    if IsFixed32(t) {
      assert ParsePackedFixed(t, 4, s[4..]) == Some([]);
    } else if IsFixed64(t) {
      assert ParsePackedFixed(t, 8, s[8..]) == Some([]);
    } else {
      assert StartsVarint(s, 10) && PrefixLen(s) == |s|;
      assert ParsePackedVarints(t, s[|s|..]) == Some([]);
    }
  }

  lemma PackedEmpty(t: FieldType)
    requires IsPackable(t)
    ensures ParsePacked(t, []) == Some([])
  {}

  /** Reading a packed payload gives the elements that were written, each once and in order. */
  lemma {:induction false} PackedRoundTrip(t: FieldType, vs: seq<Value>)
    requires IsPackable(t) && AllWords(vs)
    ensures ParsePacked(t, PackedPayload(t, vs)).Some?
    ensures var ws := ParsePacked(t, PackedPayload(t, vs)).value;
            |ws| == |vs| && forall i :: 0 <= i < |vs| ==> ws[i] == NormWord(t, vs[i].w)
  {
    hide EncodeScalar, NormWord, ParsePacked;
    if vs == [] {
      PackedEmpty(t);
    } else {
      var n := |vs| - 1;
      PackedRoundTrip(t, vs[..n]);
      PackedOne(t, vs[n].w);
      PackedConcat(t, PackedPayload(t, vs[..n]), EncodeScalar(t, vs[n].w));
    }
  }
}

/**
 The whole-message round trip: unpacking what was packed gives the message back, in the form that
 unpacking builds messages in. The one exception is a message of more members than the parser's
 member slabs can hold.
 */
module RoundTrip {
  import opened Bytes
  import opened Schema
  import opened Wire
  import opened Scan
  import opened Parsing
  import opened Scalars
  import opened Canonical

  // ---- Every member written is one that the scanner reads -------------------------------------

  ghost predicate Small(ms: seq<Member>) {
    forall k :: 0 <= k < |ms| ==> |ms[k].data| <= INT_MAX
  }

  ghost predicate AllMembers(ms: seq<Member>) {
    forall k :: 0 <= k < |ms| ==> IsMember(ms[k])
  }

  lemma {:induction false} MembersAreSmall(ms: seq<Member>)
    requires |SerializeAll(ms)| <= INT_MAX
    ensures Small(ms)
  {
    hide Serialize;
    if ms != [] {
      MembersAreSmall(ms[..|ms| - 1]);
    }
  }

  predicate ValueOfType(f: FieldDescriptor, v: Value) {
    match f.ty
    case MESSAGE => v.NoMsg? || v.Msg?
    case STRING => v.Text?
    case BYTES => v.Blob?
    case _ => v.Word?
  }

  predicate SlotOfType(f: FieldDescriptor, s: Slot) {
    if f.rule == REPEATED then s.Many? && forall i :: 0 <= i < |s.vs| ==> ValueOfType(f, s.vs[i])
    else if f.oneof.Some? then s.Shared?
    else s.Single? && ValueOfType(f, s.v)
  }

  predicate OneofOfType(desc: Descriptor, g: nat, o: OneofState) {
    o.Chosen? ==>
      var i := FindField(desc.fields, o.id);
      i >= 0 && desc.fields[i].oneof == Some(g) ==> ValueOfType(desc.fields[i], o.v)
  }

  /** The outermost values are of the types of their fields. */
  ghost predicate OfTypes(sch: Schema, m: Message) {
    && WellShaped(sch, m)
    && (forall i :: 0 <= i < |m.slots| ==> SlotOfType(sch[m.desc].fields[i], m.slots[i]))
    && (forall g :: 0 <= g < |m.oneofs| ==> OneofOfType(sch[m.desc], g, m.oneofs[g]))
  }

  lemma OneofHasType(sch: Schema, desc: Descriptor, g: nat, o: OneofState)
    requires WellFormedOneof(sch, desc, g, o)
    ensures OneofOfType(desc, g, o)
  {}

  lemma WellFormedOfTypes(sch: Schema, m: Message)
    requires WellFormed(sch, m)
    ensures OfTypes(sch, m)
  {
    hide OneofOfType, WellFormedOneof;
    forall i | 0 <= i < |m.slots|
      ensures SlotOfType(sch[m.desc].fields[i], m.slots[i])
    {
      assert WellFormedSlot(sch, sch[m.desc].fields[i], m.slots[i]);
    }
    forall g | 0 <= g < |m.oneofs|
      ensures OneofOfType(sch[m.desc], g, m.oneofs[g])
    {
      OneofHasType(sch, sch[m.desc], g, m.oneofs[g]);
    }
  }

  lemma ValueIsMember(sch: Schema, f: FieldDescriptor, v: Value)
    requires ValueOfType(f, v) && 1 <= f.id
    requires |EncodeValue(sch, f, v)| <= INT_MAX
    ensures IsMember(ValueMember(sch, f, v))
  {
    hide EncodeScalar, Prefixed, ScanBody, Encode;
    match v
    case Word(w) => ScalarIsBody(f.ty, w);
    case Text(p) => PrefixedIsBody(f.id, CString(Content(f, p)));
    case Blob(p) => PrefixedIsBody(f.id, Content(f, p));
    case NoMsg => PrefixedIsBody(f.id, []);
    case Msg(m) => PrefixedIsBody(f.id, Encode(sch, m));
  }

  lemma {:induction false} ElementsAreMembers(sch: Schema, f: FieldDescriptor, vs: seq<Value>)
    requires 1 <= f.id && forall i :: 0 <= i < |vs| ==> ValueOfType(f, vs[i])
    requires Small(ElementMembers(sch, f, vs))
    ensures AllMembers(ElementMembers(sch, f, vs))
  {
    hide IsMember, ValueOfType, EncodeValue;
    if vs != [] {
      var n := |vs| - 1;
      assert Small(ElementMembers(sch, f, vs[..n])) by {
        assert ElementMembers(sch, f, vs)[..n] == ElementMembers(sch, f, vs[..n]);
      }
      ElementsAreMembers(sch, f, vs[..n]);
      assert ElementMembers(sch, f, vs)[n] == ValueMember(sch, f, vs[n]);
      ValueIsMember(sch, f, vs[n]);
    }
  }

  lemma FieldIsMembers(sch: Schema, m: Message, i: nat)
    requires ValidSchema(sch) && OfTypes(sch, m) && i < |m.slots|
    requires Small(FieldMembers(sch, m, i))
    ensures AllMembers(FieldMembers(sch, m, i))
  {
    hide IsMember;
    var f := sch[m.desc].fields[i];
    assert ValidField(sch, sch[m.desc], f);
    assert SlotOfType(f, m.slots[i]);
    if f.oneof.Some? {
      var g := f.oneof.value;
      assert OneofOfType(sch[m.desc], g, m.oneofs[g]);
      FieldIsFound(sch, m.desc, i);
      if IsSelected(f, m.oneofs[g]) {
        assert FieldMembers(sch, m, i)[0] == ValueMember(sch, f, m.oneofs[g].v);
        ValueIsMember(sch, f, m.oneofs[g].v);
      }
    } else if f.rule == REPEATED {
      if f.packed {
        if m.slots[i].vs != [] {
          var p := PackedPayload(f.ty, m.slots[i].vs);
          assert FieldMembers(sch, m, i)[0].data == Prefixed(p);
          PrefixedIsBody(f.id, p);
        }
      } else {
        ElementsAreMembers(sch, f, m.slots[i].vs);
      }
    } else if IsPresent(f, m.slots[i]) {
      assert FieldMembers(sch, m, i)[0] == ValueMember(sch, f, m.slots[i].v);
      ValueIsMember(sch, f, m.slots[i].v);
    }
  }

  lemma {:induction false} FieldsAreMembers(sch: Schema, m: Message, n: nat)
    requires ValidSchema(sch) && OfTypes(sch, m) && n <= |m.slots|
    requires Small(MembersTo(sch, m, n))
    ensures AllMembers(MembersTo(sch, m, n))
  {
    hide IsMember, FieldMembers;
    if n > 0 {
      var a, b := MembersTo(sch, m, n - 1), FieldMembers(sch, m, n - 1);
      assert a + b == MembersTo(sch, m, n);
      assert Small(a) by { assert forall k :: 0 <= k < |a| ==> (a + b)[k] == a[k]; }
      assert Small(b) by { assert forall k :: 0 <= k < |b| ==> (a + b)[|a| + k] == b[k]; }
      FieldsAreMembers(sch, m, n - 1);
      FieldIsMembers(sch, m, n - 1);
    }
  }

  // ---- Applying the members of one field ------------------------------------------------------

  lemma {:induction false} WordElements(sch: Schema, f: FieldDescriptor, vs: seq<Value>)
    requires AllWords(vs)
    ensures FitsElements(sch, vs)
    ensures forall i :: 0 <= i < |vs| ==> NormElements(sch, f, vs)[i] == Word(NormWord(f.ty, vs[i].w))
  {
    if vs != [] { WordElements(sch, f, vs[..|vs| - 1]); }
  }

  lemma PackedElementsInvert(sch: Schema, f: FieldDescriptor, vs: seq<Value>)
    requires 1 <= f.id && f.packed && IsPackable(f.ty) && AllWords(vs)
    requires |Prefixed(PackedPayload(f.ty, vs))| <= INT_MAX
    ensures ParseElements(sch, f, Member(f.id, WIRE_PREFIXED, Prefixed(PackedPayload(f.ty, vs))))
         == Some(NormElements(sch, f, vs))
  {
    hide ParsePacked, NormWord, Prefixed;
    PackedRoundTrip(f.ty, vs);
    PrefixedIsBody(f.id, PackedPayload(f.ty, vs));
    WordElements(sch, f, vs);
    var ws := ParsePacked(f.ty, PackedPayload(f.ty, vs)).value;
    assert Words(ws) == NormElements(sch, f, vs);
  }

  /** parse_required_member inverts required_field_pack. */
  lemma {:induction false} ValueInverts(sch: Schema, f: FieldDescriptor, v: Value, held: Value)
    requires ValidSchema(sch) && 1 <= f.id && WellFormedValue(sch, f, v) && v != NoMsg && !held.Msg?
    requires |EncodeValue(sch, f, v)| <= INT_MAX
    ensures ParseValue(sch, f, ValueMember(sch, f, v), held)
         == if FitsValue(sch, v) then Some(NormValue(sch, f, v)) else None
    decreases v, 0
  {
    hide EncodeScalar, ParseScalar, NormWord, Prefixed, Encode, Normalize, Fits, WellFormed;
    match v
    case Word(w) => ScalarRoundTrip(f.ty, w);
    case Text(p) => PrefixedIsBody(f.id, CString(Content(f, p)));
    case Blob(p) => PrefixedIsBody(f.id, Content(f, p));
    case NoMsg =>
    case Msg(m) =>
      PrefixedIsBody(f.id, Encode(sch, m));
      RoundTrips(sch, m);
  }

  /** The state in which repeated field `i` has received `vs` more elements. */
  function WithElements(m: Message, i: nat, vs: seq<Value>): Message
    requires i < |m.slots|
  {
    m.(slots := m.slots[i := Many(Elements(m.slots[i]) + vs)])
  }

  lemma {:induction false} ElementsInvert(sch: Schema, f: FieldDescriptor, vs: seq<Value>, m: Message, i: nat)
    requires ValidSchema(sch) && m.desc < |sch| && i < |m.slots| == |sch[m.desc].fields|
    requires f == sch[m.desc].fields[i] && f.rule == REPEATED && !f.packed && m.slots[i].Many?
    requires forall k :: 0 <= k < |vs| ==> WellFormedValue(sch, f, vs[k]) && vs[k] != NoMsg
    requires Small(ElementMembers(sch, f, vs))
    ensures Fold(sch, ElementMembers(sch, f, vs), m)
         == if FitsElements(sch, vs) then Some(WithElements(m, i, NormElements(sch, f, vs))) else None
    decreases vs, 1
  {
    hide ParseElements, ParseValue, EncodeValue, WellFormedValue, FitsValue, NormValue;
    if vs == [] {
      assert m.slots[i].vs + [] == m.slots[i].vs;
      assert m.slots[i := m.slots[i]] == m.slots;
    } else {
      var n := |vs| - 1;
      var mem := ValueMember(sch, f, vs[n]);
      assert ElementMembers(sch, f, vs)[..n] == ElementMembers(sch, f, vs[..n]);
      assert ElementMembers(sch, f, vs)[n] == mem;
      ElementsInvert(sch, f, vs[..n], m, i);
      FoldConcat(sch, ElementMembers(sch, f, vs[..n]), [mem], m);
      if FitsElements(sch, vs[..n]) {
        var m' := WithElements(m, i, NormElements(sch, f, vs[..n]));
        FoldOne(sch, mem, m');
        ElementInverts(sch, f, vs[n], m', i);
        var w := NormValue(sch, f, vs[n]);
        assert m.slots[i].vs + NormElements(sch, f, vs) == m'.slots[i].vs + [w];
        assert m'.slots[i := Many(m'.slots[i].vs + [w])] == m.slots[i := Many(m.slots[i].vs + NormElements(sch, f, vs))];
      }
    }
  }

  lemma {:induction false} ElementInverts(sch: Schema, f: FieldDescriptor, v: Value, m: Message, i: nat)
    requires ValidSchema(sch) && m.desc < |sch| && i < |m.slots| == |sch[m.desc].fields|
    requires f == sch[m.desc].fields[i] && f.rule == REPEATED && !f.packed && m.slots[i].Many?
    requires WellFormedValue(sch, f, v) && v != NoMsg && |EncodeValue(sch, f, v)| <= INT_MAX
    ensures Apply(sch, ValueMember(sch, f, v), m)
         == if FitsValue(sch, v) then Some(WithElements(m, i, [NormValue(sch, f, v)])) else None
    decreases v, 1
  {
    hide ParseValue, EncodeValue, WellFormedValue, FitsValue, NormValue;
    FieldIsFound(sch, m.desc, i);
    ValueInverts(sch, f, v, NoMsg);
  }

  // ---- Applying the members of all fields -----------------------------------------------------

  /** The members of a repeated field turn its state into the normal form of what was packed. */
  lemma {:induction false} RepeatedInverts(sch: Schema, m: Message, i: nat)
    requires ValidSchema(sch) && WellFormed(sch, m) && i < |m.slots| && Small(FieldMembers(sch, m, i))
    requires sch[m.desc].fields[i].rule == REPEATED
    ensures Fold(sch, FieldMembers(sch, m, i), NormTo(sch, m, i))
         == if FitsField(sch, m, i) then Some(NormTo(sch, m, i + 1)) else None
    decreases m, 3
  {
    hide ParseElements, WellFormedValue, PackedPayload, Prefixed, IsMember;
    var f := sch[m.desc].fields[i];
    var st := NormTo(sch, m, i);
    var vs := m.slots[i].vs;
    assert ValidField(sch, sch[m.desc], f) && WellFormedSlot(sch, f, m.slots[i]);
    assert st.slots[i] == Many([]);
    assert [] + NormElements(sch, f, vs) == NormElements(sch, f, vs);
    assert NormTo(sch, m, i + 1) == WithElements(st, i, NormElements(sch, f, vs)) by {
      NormToNext(sch, m, i);
    }
    if f.packed {
      assert AllWords(vs) by { PackedAreWords(sch, f, vs); }
      WordElements(sch, f, vs);
      if vs != [] {
        var mem := Member(f.id, WIRE_PREFIXED, Prefixed(PackedPayload(f.ty, vs)));
        assert FieldMembers(sch, m, i) == [mem];
        FoldOne(sch, mem, st);
        FieldIsFound(sch, m.desc, i);
        PackedElementsInvert(sch, f, vs);
      } else {
        assert st.slots[i := Many([])] == st.slots;
      }
    } else {
      ElementsInvert(sch, f, vs, st, i);
    }
  }

  /** One more field in normal form, when the field is no part of a oneof. */
  lemma NormToNext(sch: Schema, m: Message, i: nat)
    requires ValidSchema(sch) && WellShaped(sch, m) && i < |m.slots| && sch[m.desc].fields[i].oneof.None?
    ensures NormTo(sch, m, i + 1)
         == NormTo(sch, m, i).(slots := NormTo(sch, m, i).slots[i := NormSlot(sch, sch[m.desc].fields[i], m.slots[i])])
  {
    hide NormSlot, NormOneof;
    var a, b := NormTo(sch, m, i), NormTo(sch, m, i + 1);
    var s := NormSlot(sch, sch[m.desc].fields[i], m.slots[i]);
    assert b.slots == a.slots[i := s];
    assert b.oneofs == a.oneofs;
  }

  /** One more field in normal form, when the field belongs to a oneof. */
  lemma NormToNextOneof(sch: Schema, m: Message, i: nat)
    requires ValidSchema(sch) && WellShaped(sch, m) && i < |m.slots| && sch[m.desc].fields[i].oneof.Some?
    ensures var f := sch[m.desc].fields[i];
            var g := f.oneof.value;
            && g < |m.oneofs|
            && NormTo(sch, m, i + 1)
               == if IsSelected(f, m.oneofs[g])
                  then NormTo(sch, m, i).(oneofs :=
                    NormTo(sch, m, i).oneofs[g := Chosen(f.id, NormValue(sch, f, m.oneofs[g].v))])
                  else NormTo(sch, m, i)
  {
    hide NormValue;
    var f := sch[m.desc].fields[i];
    assert ValidField(sch, sch[m.desc], f);
    FieldIsFound(sch, m.desc, i);
    var g := f.oneof.value;
    var a, b := NormTo(sch, m, i), NormTo(sch, m, i + 1);
    assert NormSlot(sch, f, m.slots[i]) == InitSlot(f);
    assert b.slots == a.slots;
    assert forall h :: 0 <= h < |m.oneofs| && h != g ==> b.oneofs[h] == a.oneofs[h];
    if IsSelected(f, m.oneofs[g]) {
      assert WrittenBy(sch[m.desc], g, m.oneofs[g]) == i;
      assert b.oneofs[g] == NormOneof(sch, sch[m.desc], g, m.oneofs[g]);
      assert b.oneofs == a.oneofs[g := Chosen(f.id, NormValue(sch, f, m.oneofs[g].v))];
    } else {
      assert WrittenBy(sch[m.desc], g, m.oneofs[g]) != i;
      assert b.oneofs == a.oneofs;
    }
  }

  /** What a member of a oneof writes, and when it fits. */
  lemma OneofCase(sch: Schema, m: Message, i: nat)
    requires ValidSchema(sch) && WellShaped(sch, m) && i < |m.slots| && sch[m.desc].fields[i].oneof.Some?
    ensures var f := sch[m.desc].fields[i];
            var g := f.oneof.value;
            && g < |m.oneofs|
            && FieldMembers(sch, m, i)
               == (if IsSelected(f, m.oneofs[g]) then [ValueMember(sch, f, m.oneofs[g].v)] else [])
            && FitsField(sch, m, i) == (IsSelected(f, m.oneofs[g]) ==> FitsValue(sch, m.oneofs[g].v))
  {
    hide ValueMember, FitsValue;
    assert ValidField(sch, sch[m.desc], sch[m.desc].fields[i]);
  }

  lemma {:induction false} OneofInverts(sch: Schema, m: Message, i: nat)
    requires ValidSchema(sch) && WellFormed(sch, m) && i < |m.slots| && Small(FieldMembers(sch, m, i))
    requires sch[m.desc].fields[i].oneof.Some?
    ensures Fold(sch, FieldMembers(sch, m, i), NormTo(sch, m, i))
         == if FitsField(sch, m, i) then Some(NormTo(sch, m, i + 1)) else None
    decreases m, 3
  {
    var f := sch[m.desc].fields[i];
    assert ValidField(sch, sch[m.desc], f);
    var g := f.oneof.value;
    assert WellFormedOneof(sch, sch[m.desc], g, m.oneofs[g]);
    FieldIsFound(sch, m.desc, i);
    NormToNextOneof(sch, m, i);
    OneofCase(sch, m, i);
    hide ParseValue, WellFormedValue, EncodeValue, NormValue, FitsValue, NormTo, Apply, FieldMembers, FitsField;
    if IsSelected(f, m.oneofs[g]) {
      var v := m.oneofs[g].v;
      var mem := ValueMember(sch, f, v);
      assert FieldMembers(sch, m, i)[0] == mem;
      var st := NormTo(sch, m, i);
      FoldOne(sch, mem, st);
      ValueInverts(sch, f, v, NoMsg);
      ApplyOneof(sch, mem, st, i);
    }
  }

  lemma ApplyOneof(sch: Schema, mem: Member, st: Message, i: nat)
    requires st.desc < |sch| && i < |st.slots| == |sch[st.desc].fields| && FindField(sch[st.desc].fields, mem.tag) == i
    requires var f := sch[st.desc].fields[i];
             f.oneof.Some? && f.oneof.value < |st.oneofs| && f.rule != REPEATED && f.rule != REQUIRED
    ensures var f := sch[st.desc].fields[i];
            Apply(sch, mem, st) ==
            match ParseValue(sch, f, mem, NoMsg)
            case None => None
            case Some(v) => Some(st.(oneofs := st.oneofs[f.oneof.value := Chosen(mem.tag, v)]))
  {
    hide ParseValue;
  }

  lemma ApplySingle(sch: Schema, mem: Member, st: Message, i: nat)
    requires st.desc < |sch| && i < |st.slots| == |sch[st.desc].fields| && FindField(sch[st.desc].fields, mem.tag) == i
    requires var f := sch[st.desc].fields[i]; f.oneof.None? && f.rule != REPEATED
    requires st.slots[i] == Single(false, InitValue(sch[st.desc].fields[i]))
    ensures var f := sch[st.desc].fields[i];
            Apply(sch, mem, st) ==
            match ParseValue(sch, f, mem, InitValue(f))
            case None => None
            case Some(v) => Some(st.(slots := st.slots[i := Single(HasBit(f), v)]))
  {
    hide ParseValue;
  }

  /** What a single field writes, and when it fits. */
  lemma SingleCase(sch: Schema, m: Message, i: nat)
    requires ValidSchema(sch) && WellFormed(sch, m) && i < |m.slots|
    requires sch[m.desc].fields[i].oneof.None? && sch[m.desc].fields[i].rule != REPEATED
    ensures var f := sch[m.desc].fields[i];
            && m.slots[i].Single?
            && FieldMembers(sch, m, i) == (if IsPresent(f, m.slots[i]) then [ValueMember(sch, f, m.slots[i].v)] else [])
            && FitsField(sch, m, i) == (IsPresent(f, m.slots[i]) ==> FitsValue(sch, m.slots[i].v))
            && (IsPresent(f, m.slots[i]) ==> m.slots[i].v != NoMsg && WellFormedValue(sch, f, m.slots[i].v))
            && NormSlot(sch, f, m.slots[i])
               == if IsPresent(f, m.slots[i]) then Single(HasBit(f), NormValue(sch, f, m.slots[i].v)) else InitSlot(f)
  {
    hide ValueMember, FitsValue, NormValue;
    assert WellFormedSlot(sch, sch[m.desc].fields[i], m.slots[i]);
  }

  lemma {:induction false} SingleInverts(sch: Schema, m: Message, i: nat)
    requires ValidSchema(sch) && WellFormed(sch, m) && i < |m.slots| && Small(FieldMembers(sch, m, i))
    requires sch[m.desc].fields[i].oneof.None? && sch[m.desc].fields[i].rule != REPEATED
    ensures Fold(sch, FieldMembers(sch, m, i), NormTo(sch, m, i))
         == if FitsField(sch, m, i) then Some(NormTo(sch, m, i + 1)) else None
    decreases m, 3
  {
    var f := sch[m.desc].fields[i];
    var st := NormTo(sch, m, i);
    assert ValidField(sch, sch[m.desc], f) && WellFormedSlot(sch, f, m.slots[i]);
    assert st.slots[i] == Single(false, InitValue(f));
    NormToNext(sch, m, i);
    SingleCase(sch, m, i);
    hide ParseValue, WellFormedValue, EncodeValue, NormValue, FitsValue, NormTo, FieldMembers, FitsField;
    if IsPresent(f, m.slots[i]) {
      var v := m.slots[i].v;
      var mem := ValueMember(sch, f, v);
      assert FieldMembers(sch, m, i)[0] == mem;
      FoldOne(sch, mem, st);
      FieldIsFound(sch, m.desc, i);
      ValueInverts(sch, f, v, InitValue(f));
      ApplySingle(sch, mem, st, i);
    } else {
      assert st.slots[i := InitSlot(f)] == st.slots;
    }
  }

  lemma {:induction false} FieldInverts(sch: Schema, m: Message, i: nat)
    requires ValidSchema(sch) && WellFormed(sch, m) && i < |m.slots| && Small(FieldMembers(sch, m, i))
    ensures Fold(sch, FieldMembers(sch, m, i), NormTo(sch, m, i))
         == if FitsField(sch, m, i) then Some(NormTo(sch, m, i + 1)) else None
    decreases m, 4
  {
    hide FieldMembers, FitsField, NormTo, Fold;
    if sch[m.desc].fields[i].oneof.Some? {
      OneofInverts(sch, m, i);
    } else if sch[m.desc].fields[i].rule == REPEATED {
      RepeatedInverts(sch, m, i);
    } else {
      SingleInverts(sch, m, i);
    }
  }

  lemma SmallParts(a: seq<Member>, b: seq<Member>)
    requires Small(a + b)
    ensures Small(a) && Small(b)
  {
    assert forall k :: 0 <= k < |a| ==> (a + b)[k] == a[k];
    assert forall k :: 0 <= k < |b| ==> (a + b)[|a| + k] == b[k];
  }

  lemma {:induction false} FieldsInvert(sch: Schema, m: Message, n: nat)
    requires ValidSchema(sch) && WellFormed(sch, m) && n <= |m.slots| && Small(MembersTo(sch, m, n))
    ensures Fold(sch, MembersTo(sch, m, n), Init(sch, m.desc))
         == if FitsTo(sch, m, n) then Some(NormTo(sch, m, n)) else None
    decreases m, 5, n
  {
    hide MembersTo, FieldMembers, FitsTo, FitsField, NormTo, Fold, Init, Small, ValidSchema, WellFormed;
    MembersStep(sch, m, n);
    if n == 0 {
      NormToZero(sch, m);
    } else {
      var a, b := MembersTo(sch, m, n - 1), FieldMembers(sch, m, n - 1);
      SmallParts(a, b);
      FieldsInvert(sch, m, n - 1);
      FieldInverts(sch, m, n - 1);
      FoldConcat(sch, a, b, Init(sch, m.desc));
    }
  }

  lemma MembersStep(sch: Schema, m: Message, n: nat)
    requires WellFormed(sch, m) && n <= |m.slots|
    ensures m.desc < |sch| && |m.slots| == |sch[m.desc].fields| && |m.oneofs| == sch[m.desc].nOneofs
    ensures n == 0 ==> FitsTo(sch, m, n) && Fold(sch, MembersTo(sch, m, n), Init(sch, m.desc)) == Some(Init(sch, m.desc))
    ensures n > 0 ==> MembersTo(sch, m, n) == MembersTo(sch, m, n - 1) + FieldMembers(sch, m, n - 1)
    ensures n > 0 ==> FitsTo(sch, m, n) == (FitsTo(sch, m, n - 1) && FitsField(sch, m, n - 1))
  {
    hide FieldMembers, FitsField, WellFormedSlot, WellFormedOneof, WellFormedUnknown, Init;
  }

  lemma NormToZero(sch: Schema, m: Message)
    requires ValidSchema(sch) && WellFormed(sch, m)
    ensures NormTo(sch, m, 0) == Init(sch, m.desc)
  {
    hide NormSlot, NormOneof;
    var a, b := NormTo(sch, m, 0), Init(sch, m.desc);
    assert a.slots == b.slots;
    assert forall g :: 0 <= g < |m.oneofs| ==> a.oneofs[g] == Unset by {
      forall g | 0 <= g < |m.oneofs| ensures a.oneofs[g] == Unset {
        if WrittenBy(sch[m.desc], g, m.oneofs[g]) < 0 {
          assert NormOneof(sch, sch[m.desc], g, m.oneofs[g]) == Unset by { UnwrittenIsUnset(sch, sch[m.desc], g, m.oneofs[g]); }
        }
      }
    }
    assert a.oneofs == b.oneofs;
  }

  lemma UnwrittenIsUnset(sch: Schema, desc: Descriptor, g: nat, o: OneofState)
    requires WrittenBy(desc, g, o) < 0
    ensures NormOneof(sch, desc, g, o) == Unset
  {}

  lemma {:induction false} UnknownPassThrough(sch: Schema, ms: seq<Member>, m: Message)
    requires forall k :: 0 <= k < |ms| ==> FindField(DescriptorOf(sch, m.desc).fields, ms[k].tag) < 0
    ensures Fold(sch, ms, m) == Some(m.(unknown := m.unknown + ms))
  {
    if ms == [] {
      assert m.unknown + ms == m.unknown;
    } else {
      var m' := m.(unknown := m.unknown + [ms[0]]);
      assert Apply(sch, ms[0], m) == Some(m');
      UnknownPassThrough(sch, ms[1..], m');
      assert m'.unknown + ms[1..] == m.unknown + ms;
    }
  }

  // ---- Required fields ------------------------------------------------------------------------

  lemma {:induction false} RequiredIsWritten(sch: Schema, m: Message, i: nat, n: nat)
    requires ValidSchema(sch) && WellFormed(sch, m) && i < n <= |m.slots|
    requires sch[m.desc].fields[i].rule == REQUIRED
    ensures HasMember(MembersTo(sch, m, n), sch[m.desc].fields[i].id)
    decreases n
  {
    var f := sch[m.desc].fields[i];
    var a, b := MembersTo(sch, m, n - 1), FieldMembers(sch, m, n - 1);
    if i == n - 1 {
      assert ValidField(sch, sch[m.desc], f);
      SingleCase(sch, m, i);
      assert (a + b)[|a|] == b[0];
    } else {
      RequiredIsWritten(sch, m, i, n - 1);
      var k :| 0 <= k < |a| && a[k].tag == f.id;
      assert (a + b)[k] == a[k];
    }
  }

  lemma RequiredAreWritten(sch: Schema, m: Message)
    requires ValidSchema(sch) && WellFormed(sch, m)
    ensures RequiredPresent(sch[m.desc], Members(sch, m))
  {
    var desc, known := sch[m.desc], KnownMembers(sch, m);
    forall i | 0 <= i < |desc.fields| && desc.fields[i].rule == REQUIRED && !desc.fields[i].hasDefault
      ensures HasMember(Members(sch, m), desc.fields[i].id)
    {
      RequiredIsWritten(sch, m, i, |m.slots|);
      var k :| 0 <= k < |known| && known[k].tag == desc.fields[i].id;
      assert Members(sch, m)[k].tag == desc.fields[i].id;
    }
  }

  // ---- The round trip -------------------------------------------------------------------------

  lemma AllAreMembers(sch: Schema, m: Message)
    requires ValidSchema(sch) && WellFormed(sch, m) && |Encode(sch, m)| <= INT_MAX
    ensures Small(KnownMembers(sch, m)) && AllMembers(Members(sch, m))
  {
    hide IsMember;
    WellFormedOfTypes(sch, m);
    MembersAreSmall(Members(sch, m));
    var known := KnownMembers(sch, m);
    assert forall k :: 0 <= k < |known| ==> Members(sch, m)[k] == known[k];
    FieldsAreMembers(sch, m, |m.slots|);
    assert forall k :: 0 <= k < |m.unknown| ==> WellFormedUnknown(sch[m.desc], m.unknown[k]);
  }

  /** Unpacking serialized members is applying them. */
  lemma ParseSerialized(sch: Schema, d: nat, ms: seq<Member>)
    requires AllMembers(ms)
    ensures Parse(sch, d, SerializeAll(ms))
         == if |ms| <= MAX_MEMBERS && RequiredPresent(DescriptorOf(sch, d), ms)
            then Fold(sch, ms, Init(sch, d)) else None
  {
    hide IsMember, RequiredPresent, Fold, Init, ParseFrom;
    ScanInvertsSerialize(ms);
    ParseFromIsFold(sch, SerializeAll(ms), Init(sch, d));
  }

  /** Applying all members of a message gives its normal form. */
  lemma {:induction false} MembersInvert(sch: Schema, m: Message)
    requires ValidSchema(sch) && WellFormed(sch, m) && Small(KnownMembers(sch, m))
    ensures Fold(sch, Members(sch, m), Init(sch, m.desc))
         == if FitsTo(sch, m, |m.slots|) then Some(Normalize(sch, m)) else None
    decreases m, 6
  {
    hide MembersTo, Fold, FitsTo, Init, NormTo;
    FieldsInvert(sch, m, |m.slots|);
    FoldConcat(sch, KnownMembers(sch, m), m.unknown, Init(sch, m.desc));
    if FitsTo(sch, m, |m.slots|) {
      var st := NormTo(sch, m, |m.slots|);
      NormToKeeps(sch, m, |m.slots|);
      UnknownFollow(sch, m, st);
    }
  }

  lemma NormToKeeps(sch: Schema, m: Message, n: nat)
    requires WellShaped(sch, m)
    ensures NormTo(sch, m, n).desc == m.desc && NormTo(sch, m, n).unknown == []
  {}

  /**
   Unpacking a packed message gives the message back in normal form, at every depth, its unknown
   fields byte for byte; it fails exactly for messages with more members than the slabs can hold.
   */
  lemma {:induction false} RoundTrips(sch: Schema, m: Message)
    requires ValidSchema(sch) && WellFormed(sch, m) && |Encode(sch, m)| <= INT_MAX
    ensures Parse(sch, m.desc, Encode(sch, m)) == if Fits(sch, m) then Some(Normalize(sch, m)) else None
    decreases m, 7
  {
    hide MembersTo, IsMember, RequiredPresent, Fold, FitsTo, Init, Parse, Normalize;
    AllAreMembers(sch, m);
    RequiredAreWritten(sch, m);
    ParseSerialized(sch, m.desc, Members(sch, m));
    MembersInvert(sch, m);
  }

  lemma UnknownFollow(sch: Schema, m: Message, st: Message)
    requires WellFormed(sch, m) && st.desc == m.desc && st.unknown == []
    ensures Fold(sch, m.unknown, st) == Some(st.(unknown := m.unknown))
  {
    assert forall k :: 0 <= k < |m.unknown| ==> WellFormedUnknown(sch[m.desc], m.unknown[k]);
    UnknownPassThrough(sch, m.unknown, st);
    assert [] + m.unknown == m.unknown;
  }

  // ---- A message that does not fit ------------------------------------------------------------

  const FLAGS := FieldDescriptor(1, REPEATED, BOOL, false, None, 0, false, 0, [])
  const FLAGGED: Schema := [Descriptor([FLAGS], 0)]

  function Trues(n: nat): (r: seq<Value>)
    ensures |r| == n
  {
    seq(n, _ => Word(1))
  }

  /** A message with `n` truth values, none of them packed. */
  function Flagged(n: nat): Message {
    Message(0, [Many(Trues(n))], [], [])
  }

  lemma {:induction false} TwoBytesEach(n: nat)
    ensures |SerializeAll(ElementMembers(FLAGGED, FLAGS, Trues(n)))| == 2 * n
    ensures FitsElements(FLAGGED, Trues(n))
  {
    if n > 0 {
      TwoBytesEach(n - 1);
      assert Trues(n)[..n - 1] == Trues(n - 1);
      OneFlag();
      hide Serialize, ValueMember;
    }
  }

  lemma OneFlag()
    ensures |Serialize(ValueMember(FLAGGED, FLAGS, Word(1)))| == 2
  {}

  lemma FlaggedMembers(n: nat)
    ensures Members(FLAGGED, Flagged(n)) == ElementMembers(FLAGGED, FLAGS, Trues(n))
  {
    hide ElementMembers;
    var m := Flagged(n);
    var ms := ElementMembers(FLAGGED, FLAGS, Trues(n));
    assert FieldMembers(FLAGGED, m, 0) == ms;
    assert MembersTo(FLAGGED, m, 0) == [];
    assert MembersTo(FLAGGED, m, 1) == [] + ms;
    assert [] + ms + [] == ms;
  }

  /**
   Two bytes for each truth value: such a message may be packed as long as it has INT_MAX bytes, but it
   comes back exactly when it has no more members than the slabs hold.
   */
  lemma FlaggedFitsExactly(n: nat)
    requires 2 * n <= INT_MAX
    ensures ValidSchema(FLAGGED) && WellFormed(FLAGGED, Flagged(n)) && |Encode(FLAGGED, Flagged(n))| == 2 * n
    ensures Fits(FLAGGED, Flagged(n)) <==> n <= MAX_MEMBERS
    ensures Parse(FLAGGED, 0, Encode(FLAGGED, Flagged(n))).Some? <==> n <= MAX_MEMBERS
  {
    hide Parse;
    TwoBytesEach(n);
    FlaggedMembers(n);
    hide ElementMembers, SerializeAll;
    var m := Flagged(n);
    assert ValidField(FLAGGED, FLAGGED[0], FLAGS);
    assert WellFormedSlot(FLAGGED, FLAGS, m.slots[0]);
    assert FitsTo(FLAGGED, m, 0) && FitsField(FLAGGED, m, 0);
    assert FitsTo(FLAGGED, m, 1);
    RoundTrips(FLAGGED, m);
  }

  /** There is a well-formed message of less than INT_MAX bytes that can be packed and not unpacked. */
  lemma SomeMessageDoesNotFit(n: nat)
    requires n == MAX_MEMBERS + 1
    ensures WellFormed(FLAGGED, Flagged(n)) && |Encode(FLAGGED, Flagged(n))| < INT_MAX
    ensures Parse(FLAGGED, 0, Encode(FLAGGED, Flagged(n))).None?
  {
    hide Parse, Encode, WellFormed, Fits;
    FlaggedFitsExactly(n);
  }
}

/** Unpacking loses nothing that is written: the canonical form of a message has the same encoding. */
module Reencode {
  import opened Bytes
  import opened Varints
  import opened Schema
  import opened Wire
  import opened Parsing
  import opened Canonical
  import opened RoundTrip

  lemma WordSame(t: FieldType, w: u64)
    ensures EncodeScalar(t, NormWord(t, w)) == EncodeScalar(t, w)
  {
    LowOfLow(w);
    hide Varint, ZigZag32, ZigZag64, SignExtend, Fixed32, Fixed64, Low32;
    BoolSame(w);
  }

  lemma LowOfLow(w: u64)
    ensures Low32(Low32(w)) == Low32(w)
  {}

  lemma BoolSame(w: u64)
    ensures Low32(1) == 1 && Low32(0) == 0
  {}

  lemma ValueSame(sch: Schema, f: FieldDescriptor, v: Value)
    requires ValidSchema(sch) && WellFormedValue(sch, f, v)
    ensures EncodeValue(sch, f, NormValue(sch, f, v)) == EncodeValue(sch, f, v)
    decreases v, 0
  {
    match v
    case Word(w) => WordSame(f.ty, w);
    case Text(p) => CStringIdempotent(Content(f, p));
    case Blob(_) =>
    case NoMsg =>
    case Msg(m) => MessageSame(sch, m);
  }

  lemma {:induction false} ElementsSame(sch: Schema, f: FieldDescriptor, vs: seq<Value>)
    requires ValidSchema(sch) && forall i :: 0 <= i < |vs| ==> WellFormedValue(sch, f, vs[i])
    ensures ElementMembers(sch, f, NormElements(sch, f, vs)) == ElementMembers(sch, f, vs)
    decreases vs, 1
  {
    hide WellFormedValue, NormValue, EncodeValue;
    if vs != [] {
      var n := |vs| - 1;
      ElementsSame(sch, f, vs[..n]);
      ValueSame(sch, f, vs[n]);
      assert NormElements(sch, f, vs)[..n] == NormElements(sch, f, vs[..n]);
    }
  }

  lemma {:induction false} PayloadSame(sch: Schema, f: FieldDescriptor, vs: seq<Value>)
    requires AllWords(vs)
    ensures PackedPayload(f.ty, NormElements(sch, f, vs)) == PackedPayload(f.ty, vs)
  {
    hide EncodeScalar, NormWord;
    if vs != [] {
      var n := |vs| - 1;
      PayloadSame(sch, f, vs[..n]);
      WordSame(f.ty, vs[n].w);
      assert NormElements(sch, f, vs)[..n] == NormElements(sch, f, vs[..n]);
      assert NormElements(sch, f, vs)[n] == Word(NormWord(f.ty, vs[n].w));
    }
  }

  lemma ZeroishSame(sch: Schema, f: FieldDescriptor, v: Value)
    requires !IsZeroish(f, v)
    ensures !IsZeroish(f, NormValue(sch, f, v))
  {
    match v
    case Word(w) => LowOfLow(w); BoolSame(w);
    case Text(p) => CStringIdempotent(Content(f, p));
    case Blob(_) =>
    case Msg(_) =>
    case NoMsg =>
  }

  lemma PresentSame(sch: Schema, f: FieldDescriptor, s: Slot)
    requires IsPresent(f, s) && WellFormedValue(sch, f, s.v) && f.oneof.None? && (s.has ==> HasBit(f))
    ensures IsPresent(f, Single(HasBit(f), NormValue(sch, f, s.v)))
  {
    hide Normalize, WellFormed, IsZeroish;
    if f.rule == NONE { ZeroishSame(sch, f, s.v); }
  }

  /** A field as message_init leaves it is not written. */
  lemma InitAbsent(sch: Schema, d: nat, i: nat)
    requires ValidSchema(sch) && d < |sch| && i < |sch[d].fields|
    requires var f := sch[d].fields[i]; f.rule != REQUIRED && f.oneof.None?
    ensures SlotMembers(sch, sch[d].fields[i], InitSlot(sch[d].fields[i])) == []
  {
    assert ValidField(sch, sch[d], sch[d].fields[i]);
  }

  lemma RepeatedSame(sch: Schema, d: nat, i: nat, s: Slot)
    requires ValidSchema(sch) && d < |sch| && i < |sch[d].fields| && sch[d].fields[i].rule == REPEATED
    requires WellFormedSlot(sch, sch[d].fields[i], s)
    ensures SlotMembers(sch, sch[d].fields[i], NormSlot(sch, sch[d].fields[i], s)) == SlotMembers(sch, sch[d].fields[i], s)
    decreases s, 2
  {
    var f := sch[d].fields[i];
    assert ValidField(sch, sch[d], f);
    hide ValidSchema, WellFormedValue, ElementMembers, PackedPayload, NormElements;
    if f.packed {
      PackedAreWords(sch, f, s.vs);
      PayloadSame(sch, f, s.vs);
    } else {
      ElementsSame(sch, f, s.vs);
    }
  }

  lemma SingleSame(sch: Schema, d: nat, i: nat, s: Slot)
    requires ValidSchema(sch) && d < |sch| && i < |sch[d].fields|
    requires sch[d].fields[i].rule != REPEATED && sch[d].fields[i].oneof.None?
    requires WellFormedSlot(sch, sch[d].fields[i], s)
    ensures SlotMembers(sch, sch[d].fields[i], NormSlot(sch, sch[d].fields[i], s)) == SlotMembers(sch, sch[d].fields[i], s)
    decreases s, 2
  {
    var f := sch[d].fields[i];
    SingleIsTyped(sch, f, s);
    if IsPresent(f, s) {
      PresentSame(sch, f, s);
      ValueSame(sch, f, s.v);
      hide ValidSchema, WellFormedValue, WellFormedSlot, EncodeValue, NormValue, IsPresent;
    } else {
      InitAbsent(sch, d, i);
    }
  }

  lemma SingleIsTyped(sch: Schema, f: FieldDescriptor, s: Slot)
    requires f.rule != REPEATED && f.oneof.None? && WellFormedSlot(sch, f, s)
    ensures s.Single? && WellFormedValue(sch, f, s.v) && (s.has ==> HasBit(f))
  {}

  lemma OneofSame(sch: Schema, m: Message, i: nat)
    requires ValidSchema(sch) && WellFormed(sch, m) && i < |m.slots| && sch[m.desc].fields[i].oneof.Some?
    ensures var f := sch[m.desc].fields[i]; var g := f.oneof.value;
            g < |m.oneofs| && OneofMembers(sch, f, NormOneof(sch, sch[m.desc], g, m.oneofs[g])) == OneofMembers(sch, f, m.oneofs[g])
    decreases m, 3
  {
    var f := sch[m.desc].fields[i];
    hide WellFormed, WellFormedValue, EncodeValue;
    SelectedIsWellFormed(sch, m, i);
    var o := m.oneofs[f.oneof.value];
    FieldIsFound(sch, m.desc, i);
    hide ValidSchema;
    if IsSelected(f, o) { ValueSame(sch, f, o.v); }
  }

  lemma FieldSame(sch: Schema, m: Message, i: nat)
    requires ValidSchema(sch) && WellFormed(sch, m) && i < |m.slots|
    ensures FieldMembers(sch, Normalize(sch, m), i) == FieldMembers(sch, m, i)
    decreases m, 4
  {
    var f := sch[m.desc].fields[i];
    var g := if f.oneof.Some? then f.oneof.value else 0;
    OneofRule(sch, m.desc, i);
    hide SlotMembers, OneofMembers, NormSlot, NormOneof, WellFormedValue, WellFormedOneof, ValidSchema, WrittenBy;
    if f.oneof.Some? {
      OneofSame(sch, m, i);
      NormalizedOneof(sch, m, g);
    } else {
      assert WellFormedSlot(sch, f, m.slots[i]);
      NormalizedSlot(sch, m, i);
      hide WellFormed, WellFormedSlot, Normalize;
      if f.rule == REPEATED { RepeatedSame(sch, m.desc, i, m.slots[i]); } else { SingleSame(sch, m.desc, i, m.slots[i]); }
    }
  }

  lemma OneofRule(sch: Schema, d: nat, i: nat)
    requires ValidSchema(sch) && d < |sch| && i < |sch[d].fields|
    ensures var f := sch[d].fields[i]; f.oneof.Some? ==> f.oneof.value < sch[d].nOneofs && (f.rule == OPTIONAL || f.rule == NONE)
  {
    assert ValidField(sch, sch[d], sch[d].fields[i]);
  }

  lemma NormalizedSlot(sch: Schema, m: Message, i: nat)
    requires WellShaped(sch, m) && i < |m.slots|
    ensures Normalize(sch, m).desc == m.desc && i < |Normalize(sch, m).slots| && |Normalize(sch, m).oneofs| == |m.oneofs|
    ensures Normalize(sch, m).slots[i] == NormSlot(sch, sch[m.desc].fields[i], m.slots[i])
  {}

  lemma NormalizedOneof(sch: Schema, m: Message, g: nat)
    requires WellShaped(sch, m) && g < |m.oneofs|
    ensures Normalize(sch, m).desc == m.desc && g < |Normalize(sch, m).oneofs|
    ensures Normalize(sch, m).oneofs[g] == NormOneof(sch, sch[m.desc], g, m.oneofs[g])
  {}

  lemma {:induction false} MembersSame(sch: Schema, m: Message, n: nat)
    requires ValidSchema(sch) && WellFormed(sch, m) && n <= |m.slots|
    ensures Normalize(sch, m).desc == m.desc && MembersTo(sch, Normalize(sch, m), n) == MembersTo(sch, m, n)
    decreases m, 5, n
  {
    hide FieldMembers, ValidSchema, WellFormedSlot, WellFormedOneof, NormTo;
    if n > 0 {
      MembersSame(sch, m, n - 1);
      FieldSame(sch, m, n - 1);
    }
  }

  /** Packing what was unpacked gives the bytes that it was unpacked from. */
  lemma MessageSame(sch: Schema, m: Message)
    requires ValidSchema(sch) && WellFormed(sch, m)
    ensures Encode(sch, Normalize(sch, m)) == Encode(sch, m)
    decreases m, 6
  {
    hide MembersTo, ValidSchema, WellFormedSlot, WellFormedOneof, NormTo, SerializeAll;
    MembersSame(sch, m, |m.slots|);
    assert |DescriptorOf(sch, m.desc).fields| == |m.slots|;
    assert Members(sch, Normalize(sch, m)) == Members(sch, m);
  }

  /** Two messages with the same bytes have the same canonical form: the bytes determine all that is written. */
  lemma EncodingIsInjective(sch: Schema, a: Message, b: Message)
    requires ValidSchema(sch) && WellFormed(sch, a) && WellFormed(sch, b) && a.desc == b.desc && Fits(sch, a)
    requires |Encode(sch, a)| <= INT_MAX
    ensures Encode(sch, a) == Encode(sch, b) <==> Normalize(sch, a) == Normalize(sch, b)
  {
    hide Encode, Normalize, Parse, ValidSchema, WellFormed, Fits;
    MessageSame(sch, a);
    MessageSame(sch, b);
    if Encode(sch, a) == Encode(sch, b) {
      RoundTrips(sch, a);
      RoundTrips(sch, b);
    }
  }
}
