/**
 Packed or not makes no difference to a reader: however the elements of a repeated scalar field are
 split into packed runs and single members, and wherever these stand among the other members, the
 same message is unpacked.
 */
module PackedLaw {
  import opened Bytes
  import opened Schema
  import opened Wire
  import opened Scan
  import opened Parsing
  import opened Scalars
  import opened RoundTrip

  /** One way to send some elements of a repeated scalar field. */
  datatype Chunk = One(w: u64) | Run(ws: seq<u64>)

  function ChunkWords(c: Chunk): seq<u64> {
    if c.One? then [c.w] else c.ws
  }

  function ChunkMember(f: FieldDescriptor, c: Chunk): Member {
    if c.One? then Member(f.id, WireTypeOf(f.ty), EncodeScalar(f.ty, c.w))
    else Member(f.id, WIRE_PREFIXED, Prefixed(PackedPayload(f.ty, Words(c.ws))))
  }

  function ChunkMembers(f: FieldDescriptor, cs: seq<Chunk>): seq<Member> {
    if cs == [] then [] else [ChunkMember(f, cs[0])] + ChunkMembers(f, cs[1..])
  }

  /** The elements that a list of chunks sends. */
  function AllWordsOf(cs: seq<Chunk>): seq<u64> {
    if cs == [] then [] else ChunkWords(cs[0]) + AllWordsOf(cs[1..])
  }

  /** The members with number `tag`. */
  function OfField(ms: seq<Member>, tag: u32): seq<Member> {
    if ms == [] then []
    else if ms[0].tag == tag then [ms[0]] + OfField(ms[1..], tag)
    else OfField(ms[1..], tag)
  }

  /** The members with another number. */
  function Others(ms: seq<Member>, tag: u32): seq<Member> {
    if ms == [] then []
    else if ms[0].tag == tag then Others(ms[1..], tag)
    else [ms[0]] + Others(ms[1..], tag)
  }

  /** What the members of a repeated field contribute, in order. */
  function Contribution(sch: Schema, f: FieldDescriptor, ms: seq<Member>): Option<seq<Value>> {
    if ms == [] then Some([])
    else
      var vs :- ParseElements(sch, f, ms[0]);
      var rest :- Contribution(sch, f, ms[1..]);
      Some(vs + rest)
  }

  function Normal(t: FieldType, ws: seq<u64>): (r: seq<u64>)
    ensures |r| == |ws|
  {
    seq(|ws|, i requires 0 <= i < |ws| => NormWord(t, ws[i]))
  }

  // ---- What chunks contribute -----------------------------------------------------------------

  lemma ChunkContributes(sch: Schema, f: FieldDescriptor, c: Chunk)
    requires IsPackable(f.ty) && 1 <= f.id && |ChunkMember(f, c).data| <= INT_MAX
    ensures ParseElements(sch, f, ChunkMember(f, c)) == Some(Words(Normal(f.ty, ChunkWords(c))))
    ensures IsMember(ChunkMember(f, c))
  {
    hide EncodeScalar, ParseScalar, ParsePacked, NormWord, Prefixed, ScanBody, PackedPayload;
    match c
    case One(w) =>
      ScalarRoundTrip(f.ty, w);
      ScalarIsBody(f.ty, w);
      assert Words(Normal(f.ty, [w])) == [Word(NormWord(f.ty, w))];
    case Run(ws) =>
      PackedRoundTrip(f.ty, Words(ws));
      PrefixedIsBody(f.id, PackedPayload(f.ty, Words(ws)));
      var r := ParsePacked(f.ty, PackedPayload(f.ty, Words(ws))).value;
      assert r == Normal(f.ty, ws);
  }

  ghost predicate SmallChunks(f: FieldDescriptor, cs: seq<Chunk>) {
    forall k :: 0 <= k < |cs| ==> |ChunkMember(f, cs[k]).data| <= INT_MAX
  }

  /** Chunks contribute their elements, however they are cut. */
  lemma {:induction false} ChunksContribute(sch: Schema, f: FieldDescriptor, cs: seq<Chunk>)
    requires IsPackable(f.ty) && 1 <= f.id && SmallChunks(f, cs)
    ensures Contribution(sch, f, ChunkMembers(f, cs)) == Some(Words(Normal(f.ty, AllWordsOf(cs))))
  {
    hide ParseElements, ChunkMember, NormWord;
    if cs != [] {
      ChunkContributes(sch, f, cs[0]);
      ChunksContribute(sch, f, cs[1..]);
      assert ChunkMembers(f, cs)[1..] == ChunkMembers(f, cs[1..]);
      assert Words(Normal(f.ty, ChunkWords(cs[0]))) + Words(Normal(f.ty, AllWordsOf(cs[1..])))
          == Words(Normal(f.ty, AllWordsOf(cs)));
    }
  }

  // ---- The members of one repeated field and the others do not interfere ----------------------

  /** `m` with `vs` appended to repeated field `i`. */
  function Append(m: Message, i: nat, vs: seq<Value>): Message
    requires i < |m.slots|
  {
    m.(slots := m.slots[i := Many(Elements(m.slots[i]) + vs)])
  }

  ghost predicate RepeatedAt(sch: Schema, m: Message, i: nat, f: FieldDescriptor) {
    && ValidSchema(sch) && m.desc < |sch| && i < |m.slots| == |sch[m.desc].fields|
    && f == sch[m.desc].fields[i] && f.rule == REPEATED && m.slots[i].Many?
  }

  lemma ApplyOwn(sch: Schema, mem: Member, m: Message, i: nat, f: FieldDescriptor)
    requires RepeatedAt(sch, m, i, f) && mem.tag == f.id
    ensures Apply(sch, mem, m) == match ParseElements(sch, f, mem) case None => None case Some(vs) => Some(Append(m, i, vs))
  {
    hide ParseElements;
    FieldIsFound(sch, m.desc, i);
  }

  /** A member of another field neither sees nor touches the elements. */
  lemma ApplyOther(sch: Schema, mem: Member, m: Message, i: nat, f: FieldDescriptor, vs: seq<Value>)
    requires RepeatedAt(sch, m, i, f) && mem.tag != f.id
    ensures Apply(sch, mem, Append(m, i, vs)).Some? <==> Apply(sch, mem, m).Some?
    ensures Apply(sch, mem, m).Some? ==>
              && RepeatedAt(sch, Apply(sch, mem, m).value, i, f)
              && Apply(sch, mem, Append(m, i, vs)).value == Append(Apply(sch, mem, m).value, i, vs)
  {
    hide ParseElements, ParseValue;
    var j := FindField(sch[m.desc].fields, mem.tag);
    assert j != i;
    if j >= 0 && Apply(sch, mem, m).Some? {
      var r := Apply(sch, mem, m).value;
      assert r.slots[i] == m.slots[i];
      assert Apply(sch, mem, Append(m, i, vs)).value.slots == r.slots[i := Many(m.slots[i].vs + vs)];
    }
  }

  lemma {:induction false} FoldSplits(sch: Schema, ms: seq<Member>, m: Message, i: nat, f: FieldDescriptor, vs: seq<Value>)
    requires RepeatedAt(sch, m, i, f)
    ensures Fold(sch, ms, Append(m, i, vs)).Some?
       <==> Contribution(sch, f, OfField(ms, f.id)).Some? && Fold(sch, Others(ms, f.id), m).Some?
    ensures Fold(sch, ms, Append(m, i, vs)).Some? ==>
              && RepeatedAt(sch, Fold(sch, Others(ms, f.id), m).value, i, f)
              && Fold(sch, ms, Append(m, i, vs)).value
                 == Append(Fold(sch, Others(ms, f.id), m).value, i, vs + Contribution(sch, f, OfField(ms, f.id)).value)
    decreases |ms|
  {
    hide Apply, ParseElements;
    if ms == [] {
      assert vs + [] == vs;
    } else if ms[0].tag == f.id {
      var mem := ms[0];
      ApplyOwn(sch, mem, Append(m, i, vs), i, f);
      var own := OfField(ms, f.id);
      assert own[0] == mem && own[1..] == OfField(ms[1..], f.id);
      if ParseElements(sch, f, mem).Some? {
        var more := ParseElements(sch, f, mem).value;
        AppendTwice(m, i, vs, more);
        FoldSplits(sch, ms[1..], m, i, f, vs + more);
        if Contribution(sch, f, own).Some? {
          var rest := Contribution(sch, f, own[1..]).value;
          assert (vs + more) + rest == vs + (more + rest);
        }
      }
    } else {
      var mem := ms[0];
      ApplyOther(sch, mem, m, i, f, vs);
      var others := Others(ms, f.id);
      assert others[0] == mem && others[1..] == Others(ms[1..], f.id);
      if Apply(sch, mem, m).Some? {
        FoldSplits(sch, ms[1..], Apply(sch, mem, m).value, i, f, vs);
      }
    }
  }

  lemma AppendTwice(m: Message, i: nat, a: seq<Value>, b: seq<Value>)
    requires i < |m.slots| && m.slots[i].Many?
    ensures Append(Append(m, i, a), i, b) == Append(m, i, a + b)
  {
    assert (m.slots[i].vs + a) + b == m.slots[i].vs + (a + b);
    assert m.slots[i := Many(m.slots[i].vs + a)][i := Many(m.slots[i].vs + a + b)] == m.slots[i := Many(m.slots[i].vs + (a + b))];
  }

  // ---- Independence ---------------------------------------------------------------------------

  /** `ms` sends the elements of field `f` as the chunks `cs`, in that order, among other members. */
  ghost predicate Sends(f: FieldDescriptor, ms: seq<Member>, cs: seq<Chunk>) {
    OfField(ms, f.id) == ChunkMembers(f, cs) && SmallChunks(f, cs)
  }

  /** The elements arrive in field `i`, appended to what it holds; all else is up to the other members. */
  lemma SentElementsArrive(sch: Schema, m: Message, i: nat, f: FieldDescriptor, ms: seq<Member>, cs: seq<Chunk>)
    requires RepeatedAt(sch, m, i, f) && IsPackable(f.ty) && Sends(f, ms, cs)
    ensures Fold(sch, ms, m).Some? <==> Fold(sch, Others(ms, f.id), m).Some?
    ensures Fold(sch, ms, m).Some? ==>
              && RepeatedAt(sch, Fold(sch, Others(ms, f.id), m).value, i, f)
              && Fold(sch, ms, m).value
                 == Append(Fold(sch, Others(ms, f.id), m).value, i, Words(Normal(f.ty, AllWordsOf(cs))))
              && Fold(sch, ms, m).value.slots[i] == Many(m.slots[i].vs + Words(Normal(f.ty, AllWordsOf(cs))))
  {
    hide Fold, Normal, ParseElements, Contribution, Others, OfField, ChunkMembers;
    assert ValidField(sch, sch[m.desc], f);
    ChunksContribute(sch, f, cs);
    AppendNothing(m, i);
    var ws := Words(Normal(f.ty, AllWordsOf(cs)));
    assert [] + ws == ws;
    FoldSplits(sch, ms, m, i, f, []);
    if Fold(sch, ms, m).Some? {
      OthersHaveOtherTags(ms, f.id);
      OthersKeepSlot(sch, Others(ms, f.id), m, i, f);
    }
  }

  lemma AppendNothing(m: Message, i: nat)
    requires i < |m.slots| && m.slots[i].Many?
    ensures Append(m, i, []) == m
  {
    assert m.slots[i].vs + [] == m.slots[i].vs;
    assert m.slots[i := m.slots[i]] == m.slots;
  }

  lemma {:induction false} OthersHaveOtherTags(ms: seq<Member>, tag: u32)
    ensures forall k :: 0 <= k < |Others(ms, tag)| ==> Others(ms, tag)[k].tag != tag
  {
    if ms != [] { OthersHaveOtherTags(ms[1..], tag); }
  }

  lemma {:induction false} OthersHaveTheRest(ms: seq<Member>, tag: u32, other: u32)
    requires other != tag
    ensures HasMember(ms, other) <==> HasMember(Others(ms, tag), other)
  {
    if ms != [] {
      OthersHaveTheRest(ms[1..], tag, other);
      var a, b := ms[1..], Others(ms, tag);
      if HasMember(a, other) {
        var k :| 0 <= k < |a| && a[k].tag == other;
        assert ms[k + 1].tag == other;
      }
      if HasMember(ms, other) {
        var k :| 0 <= k < |ms| && ms[k].tag == other;
        if k > 0 { assert a[k - 1].tag == other; } else { assert b[0].tag == other; }
      }
      if ms[0].tag != tag {
        assert b[1..] == Others(a, tag);
        if HasMember(b[1..], other) {
          var k :| 0 <= k < |b[1..]| && b[1..][k].tag == other;
          assert b[k + 1].tag == other;
        }
        if HasMember(b, other) {
          var k :| 0 <= k < |b| && b[k].tag == other;
          if k > 0 { assert b[1..][k - 1].tag == other; } else { assert ms[0].tag == other; }
        }
      }
    }
  }

  /** Required fields are sent by the other members. */
  lemma RequiredByOthers(sch: Schema, d: nat, i: nat, ms: seq<Member>)
    requires ValidSchema(sch) && d < |sch| && i < |sch[d].fields| && sch[d].fields[i].rule == REPEATED
    ensures RequiredPresent(sch[d], ms) <==> RequiredPresent(sch[d], Others(ms, sch[d].fields[i].id))
  {
    var fields := sch[d].fields;
    forall j | 0 <= j < |fields| && fields[j].rule == REQUIRED
      ensures HasMember(ms, fields[j].id) <==> HasMember(Others(ms, fields[i].id), fields[j].id)
    {
      assert fields[j].id != fields[i].id by { FieldIsFound(sch, d, i); FieldIsFound(sch, d, j); }
      OthersHaveTheRest(ms, fields[i].id, fields[j].id);
    }
  }

  /**
   Two ways to send the same elements, among the same other members, are the same message to a
   reader, or the same failure.
   */
  lemma PackingIsIrrelevant(sch: Schema, d: nat, i: nat, ms1: seq<Member>, cs1: seq<Chunk>, ms2: seq<Member>, cs2: seq<Chunk>)
    requires ValidSchema(sch) && d < |sch| && i < |sch[d].fields|
    requires sch[d].fields[i].rule == REPEATED && IsPackable(sch[d].fields[i].ty)
    requires AllMembers(ms1) && AllMembers(ms2) && |ms1| <= MAX_MEMBERS && |ms2| <= MAX_MEMBERS
    requires var f := sch[d].fields[i];
             && Sends(f, ms1, cs1) && Sends(f, ms2, cs2) && AllWordsOf(cs1) == AllWordsOf(cs2)
             && Others(ms1, f.id) == Others(ms2, f.id)
    ensures Parse(sch, d, SerializeAll(ms1)) == Parse(sch, d, SerializeAll(ms2))
    ensures Parse(sch, d, SerializeAll(ms1)).Some? ==>
              var r := Parse(sch, d, SerializeAll(ms1)).value;
              && i < |r.slots|
              && r.slots[i] == Many(Words(Normal(sch[d].fields[i].ty, AllWordsOf(cs1))))
  {
    hide Fold, Normal, Others, OfField, Parse, RequiredPresent, AllMembers, Sends;
    var f, init := sch[d].fields[i], Init(sch, d);
    assert RepeatedAt(sch, init, i, f);
    SentElementsArrive(sch, init, i, f, ms1, cs1);
    SentElementsArrive(sch, init, i, f, ms2, cs2);
    RequiredByOthers(sch, d, i, ms1);
    RequiredByOthers(sch, d, i, ms2);
    ParseSerialized(sch, d, ms1);
    ParseSerialized(sch, d, ms2);
    var ws := Words(Normal(f.ty, AllWordsOf(cs1)));
    assert [] + ws == ws;
  }

  lemma {:induction false} OthersKeepSlot(sch: Schema, ms: seq<Member>, m: Message, i: nat, f: FieldDescriptor)
    requires RepeatedAt(sch, m, i, f) && (forall k :: 0 <= k < |ms| ==> ms[k].tag != f.id)
    requires Fold(sch, ms, m).Some?
    ensures i < |Fold(sch, ms, m).value.slots| && Fold(sch, ms, m).value.slots[i] == m.slots[i]
  {
    hide Apply;
    if ms != [] {
      ApplyOther(sch, ms[0], m, i, f, []);
      ApplyKeepsSlot(sch, ms[0], m, i, f);
      OthersKeepSlot(sch, ms[1..], Apply(sch, ms[0], m).value, i, f);
    }
  }

  lemma ApplyKeepsSlot(sch: Schema, mem: Member, m: Message, i: nat, f: FieldDescriptor)
    requires RepeatedAt(sch, m, i, f) && mem.tag != f.id && Apply(sch, mem, m).Some?
    ensures i < |Apply(sch, mem, m).value.slots| && Apply(sch, mem, m).value.slots[i] == m.slots[i]
  {
    hide ParseElements, ParseValue;
  }
}
