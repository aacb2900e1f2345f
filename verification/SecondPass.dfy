/**
 Parsing one scanned member, as far as it does not unpack a submessage: words, strings and packed
 elements, and what the parsing of a value, a slot, a oneof and a member may return.
 */
module MemberParse {
  import opened Bytes
  import opened Varints
  import opened Schema
  import opened Wire
  import opened Scan
  import opened Parsing
  import opened MemberScan
  import opened FieldTables
  import opened Heap
  import opened Slabs
  import opened Bitmap
  import opened Free
  import opened HeapMerge
  import opened FirstPass

  // ---- One value (parse_required_member) ------------------------------------------------------

  /** The cases of parse_required_member that store a word. */
  method ReadScalar(t: FieldType, wireType: nat, body: seq<byte>) returns (w: Option<u64>)
    requires ScanBody(wireType, body) == Some(|body|)
    ensures w == ParseScalar(t, wireType, body)
  {
    match t
    case ENUM | INT32 | UINT32 =>
      w := if wireType != WIRE_VARINT then None else Some(ParseUint32(body));
    case SINT32 =>
      w := if wireType != WIRE_VARINT then None else Some(UnZigZag32(ParseUint32(body)));
    case SFIXED32 | FIXED32 | FLOAT =>
      w := if wireType != WIRE_32BIT then None else Some(ParseFixed32(body));
    case INT64 | UINT64 =>
      if wireType != WIRE_VARINT { return None; }
      var x := ReadUint64(body);
      w := Some(x);
    case SINT64 =>
      if wireType != WIRE_VARINT { return None; }
      var x := ReadUint64(body);
      w := Some(UnZigZag64(x));
    case SFIXED64 | FIXED64 | DOUBLE =>
      w := if wireType != WIRE_64BIT then None else Some(ParseFixed64(body));
    case BOOL =>
      var b := ReadBoolean(body);
      w := Some(if b then 1 else 0);
    case STRING | BYTES | MESSAGE =>
      w := None;
  }

  /** A string or bytes value: the old block goes, a new one comes unless there is nothing to hold. */
  method ParseBlock(payload: seq<byte>, size: nat, held: HPtr, maybeClear: bool, alloc: Allocator, ghost rest: multiset<Block>)
    returns (p: HPtr)
    requires alloc.Valid() && alloc.live == rest + OwnedPtr(held) && (!maybeClear ==> !held.HOwn?)
    modifies alloc
    ensures alloc.Valid() && alloc.live == rest + OwnedPtr(p)
    ensures alloc.refusals >= old(alloc.refusals)
    ensures if size == 0 then p == HNull && alloc.refusals == old(alloc.refusals)
            else if alloc.refusals > old(alloc.refusals) then p == HNull
            else p.HOwn? && p.bytes == payload
  {
    if maybeClear && held.HOwn? {
      alloc.Free(held.block);
    }
    assert rest + multiset{} == rest;
    assert alloc.live == rest;
    p := HNull;
    if size > 0 {
      var block := alloc.Alloc();
      if block.Some? {
        p := HOwn(block.value, payload);
      }
    }
  }

  /** The payload that a scanned member points to. */
  lemma PayloadOf(fields: seq<FieldDescriptor>, data: seq<byte>, sm: ScannedMember, mem: Member)
    requires Denotes(fields, data, sm, mem) && sm.wireType == WIRE_PREFIXED
    ensures 1 <= sm.prefixLen <= sm.len && sm.at + sm.len <= |data| && data[sm.at + sm.prefixLen..sm.at + sm.len] == Payload(mem)
    ensures |Payload(mem)| < |mem.data| == sm.len
  {}

  /** What parsing a value may return, given whether an allocation was refused. */
  ghost predicate ValueResult(sch: Schema, f: FieldDescriptor, mem: Member, held: HValue, ok: bool, v: HValue,
                              refused: bool)
  {
    var r := ParseValue(sch, f, mem, EraseValue(held));
    && TypedValue(sch, f, v)
    && (ok ==> r == Some(EraseValue(v)))
    && (!ok ==> r.None? || refused)
    && (!ok && OwnedValue(held) == multiset{} ==> OwnedValue(v) == multiset{})
  }

  lemma ScalarResult(sch: Schema, f: FieldDescriptor, mem: Member, held: HValue)
    requires IsPackable(f.ty) && TypedValue(sch, f, held)
    ensures OwnedValue(held) == multiset{}
    ensures match ParseScalar(f.ty, mem.wireType, mem.data)
            case None => ValueResult(sch, f, mem, held, false, held, false)
            case Some(w) => ValueResult(sch, f, mem, held, true, HWord(w), false)
  {
    hide ParseScalar;
  }

  lemma TextResult(sch: Schema, f: FieldDescriptor, mem: Member, held: HPtr, p: HPtr, refused: bool)
    requires f.ty == STRING && mem.wireType == WIRE_PREFIXED && mem.data != []
    requires if refused then p == HNull else p.HOwn? && p.bytes == Payload(mem)
    ensures ValueResult(sch, f, mem, HText(held), !refused, HText(p), refused)
  {}

  lemma BlobResult(sch: Schema, f: FieldDescriptor, mem: Member, held: HPtr, p: HPtr, refused: bool)
    requires f.ty == BYTES && mem.wireType == WIRE_PREFIXED && mem.data != []
    requires if refused || Payload(mem) == [] then p == HNull else p.HOwn? && p.bytes == Payload(mem)
    ensures ValueResult(sch, f, mem, HBlob(held), !refused, HBlob(p), refused)
  {}

  lemma WrongWireType(sch: Schema, f: FieldDescriptor, mem: Member, held: HValue)
    requires !IsPackable(f.ty) && mem.wireType != WIRE_PREFIXED && TypedValue(sch, f, held)
    ensures ValueResult(sch, f, mem, held, false, held, false)
  {}

  /** A string has a block of its own even when it is empty; empty bytes have none. */
  method ParseTextOrBytes(sch: Schema, f: FieldDescriptor, payload: seq<byte>, ghost mem: Member,
                          held: HValue, maybeClear: bool, alloc: Allocator, ghost rest: multiset<Block>)
    returns (ok: bool, v: HValue)
    requires (f.ty == STRING || f.ty == BYTES) && mem.wireType == WIRE_PREFIXED && mem.data != [] && payload == Payload(mem)
    requires TypedValue(sch, f, held) && (!maybeClear ==> OwnedValue(held) == multiset{})
    requires alloc.Valid() && alloc.live == rest + OwnedValue(held)
    modifies alloc
    ensures alloc.Valid() && alloc.live == rest + OwnedValue(v) && alloc.refusals >= old(alloc.refusals)
    ensures ValueResult(sch, f, mem, held, ok, v, alloc.refusals > old(alloc.refusals))
  {
    hide ValueResult;
    if f.ty == STRING {
      NotHeld(held.t);
      var p := ParseBlock(payload, |payload| + 1, held.t, maybeClear, alloc, rest);
      ok, v := p != HNull, HText(p);
      TextResult(sch, f, mem, held.t, p, !ok);
    } else {
      NotHeld(held.b);
      var p := ParseBlock(payload, |payload|, held.b, maybeClear, alloc, rest);
      ok, v := p != HNull || payload == [], HBlob(p);
      BlobResult(sch, f, mem, held.b, p, !ok);
    }
  }

  lemma NotHeld(p: HPtr)
    ensures OwnedPtr(p) == multiset{} <==> !p.HOwn?
  {
    if p.HOwn? { assert p.block in OwnedPtr(p); }
  }

  lemma SubmessageField(sch: Schema, d: nat, i: nat)
    requires ValidSchema(sch) && d < |sch| && i < |sch[d].fields| && sch[d].fields[i].ty == MESSAGE
    ensures sch[d].fields[i].sub < |sch|
  {
    assert ValidField(sch, sch[d], sch[d].fields[i]);
  }

  lemma SubmessageFails(sch: Schema, f: FieldDescriptor, mem: Member, held: HValue, v: HValue, refused: bool)
    requires f.ty == MESSAGE && mem.wireType == WIRE_PREFIXED && mem.data != [] && TypedValue(sch, f, v)
    requires Parse(sch, f.sub, Payload(mem)).None? || refused
    requires OwnedValue(v) == multiset{}
    ensures ValueResult(sch, f, mem, held, false, v, refused)
  {
    hide Parse, Complete;
  }

  lemma SubmessageParsed(sch: Schema, f: FieldDescriptor, mem: Member, held: HValue, m: HMessage)
    requires f.ty == MESSAGE && mem.wireType == WIRE_PREFIXED && mem.data != [] && !held.HMsg?
    requires Complete(sch, m) && m.desc == f.sub && Parse(sch, f.sub, Payload(mem)) == Some(Erase(m))
    ensures ValueResult(sch, f, mem, held, true, HMsg(m), false)
    ensures ValueResult(sch, f, mem, held, true, HMsg(m), true)
  {
    hide Parse, Complete, Erase;
  }

  lemma SubmessageMerged(sch: Schema, f: FieldDescriptor, mem: Member, held: HMessage, sub: HMessage, ok: bool, m: HMessage, refused: bool)
    requires f.ty == MESSAGE && mem.wireType == WIRE_PREFIXED && mem.data != []
    requires Complete(sch, m) && m.desc == f.sub && Parse(sch, f.sub, Payload(mem)) == Some(Erase(sub))
    requires ok ==> Merge(sch, Erase(held), Erase(sub)) == Some(Erase(m))
    requires !ok ==> Merge(sch, Erase(held), Erase(sub)).None? || refused
    ensures ValueResult(sch, f, mem, HMsg(held), ok, HMsg(m), refused)
  {
    MessageOwns(held);
    hide Parse, Complete, Erase, Merge, Owned;
  }

  lemma NothingHeld(sch: Schema, f: FieldDescriptor, held: HValue, maybeClear: bool)
    requires f.ty == MESSAGE && TypedValue(sch, f, held) && (!maybeClear ==> OwnedValue(held) == multiset{})
    requires !(maybeClear && held.HMsg?)
    ensures held == HNoMsg
  {
    if held.HMsg? { MessageOwns(held.m); }
  }

  lemma MessageOwns(m: HMessage)
    ensures Owned(m) != multiset{}
  {
    assert m.block in Owned(m);
  }

  // ---- One member of a message ----------------------------------------------------------------

  /** Storing behind the elements that are there: the array has room for one more. */
  method StoreElement(s: HSlot, v: HValue) returns (s': HSlot)
    requires s.HMany? && |s.vs| < s.cap
    ensures s' == HMany(s.arr, s.cap, s.vs + [v])
  {
    s' := s.(vs := s.vs + [v]);
  }

  function HWords(ws: seq<u64>): (r: seq<HValue>)
    ensures |r| == |ws|
  {
    seq(|ws|, i requires 0 <= i < |ws| => HWord(ws[i]))
  }

  lemma NoHWords()
    ensures HWords([]) == []
  {}

  lemma HWordsSnoc(ws: seq<u64>, w: u64)
    ensures HWords(ws + [w]) == HWords(ws) + [HWord(w)]
  {}

  lemma {:induction false} HWordsAre(sch: Schema, f: FieldDescriptor, ws: seq<u64>)
    ensures EraseValues(HWords(ws)) == Words(ws) && OwnedValues(HWords(ws)) == multiset{}
    ensures IsPackable(f.ty) ==> forall k :: 0 <= k < |ws| ==> TypedValue(sch, f, HWords(ws)[k])
  {
    if ws != [] {
      var n := |ws| - 1;
      HWordsAre(sch, f, ws[..n]);
      assert HWords(ws)[..n] == HWords(ws[..n]);
      assert Words(ws) == Words(ws[..n]) + [Word(ws[n])];
    }
  }

  /** The words that remain to be read from a packed payload of varints. */
  ghost predicate VarintsLeft(t: FieldType, payload: seq<byte>, at: nat, ws: seq<u64>) {
    && at <= |payload|
    && |ws| + Terminators(payload[at..]) == Terminators(payload)
    && ParsePackedVarints(t, payload)
       == match ParsePackedVarints(t, payload[at..]) case None => None case Some(rest) => Some(ws + rest)
  }

  lemma VarintsLeftStep(t: FieldType, payload: seq<byte>, at: nat, ws: seq<u64>, w: Option<u64>)
    requires VarintsLeft(t, payload, at, ws) && StartsVarint(payload[at..], 10)
    requires w == ParseScalar(t, WIRE_VARINT, payload[at..][..PrefixLen(payload[at..])])
    ensures w.None? ==> ParsePackedVarints(t, payload).None?
    ensures w.Some? ==> VarintsLeft(t, payload, at + PrefixLen(payload[at..]), ws + [w.value])
  {
    hide ParseScalar, Terminators, ParsePackedVarints;
    var s := payload[at..];
    var next := at + PrefixLen(s);
    VarintsUnfolded(t, s);
    assert s[PrefixLen(s)..] == payload[next..];
    TerminatorsAfter(s, 10);
    if w.Some? && ParsePackedVarints(t, payload[next..]).Some? {
      Associate(ws, w.value, ParsePackedVarints(t, payload[next..]).value);
    }
  }

  lemma VarintsUnfolded(t: FieldType, s: seq<byte>)
    requires StartsVarint(s, 10)
    ensures ParsePackedVarints(t, s)
            == match (ParseScalar(t, WIRE_VARINT, s[..PrefixLen(s)]), ParsePackedVarints(t, s[PrefixLen(s)..]))
               case (Some(w), Some(rest)) => Some([w] + rest)
               case (_, _) => None
  {
    hide ParseScalar;
  }

  lemma Associate(a: seq<u64>, w: u64, b: seq<u64>)
    ensures a + ([w] + b) == (a + [w]) + b
  {}

  /**
   The loops over packed varints: each element is stored behind the one before, and there is room
   for it because a terminating byte was counted for it. Nothing is counted in if one is malformed.
   */
  method ParsePackedVarintMember(t: FieldType, payload: seq<byte>, s: HSlot) returns (ok: bool, s': HSlot)
    requires IsPackable(t) && !IsFixed32(t) && !IsFixed64(t)
    requires s.HMany? && |s.vs| + Terminators(payload) <= s.cap
    ensures ok == ParsePackedVarints(t, payload).Some?
    ensures s' == if ok then HMany(s.arr, s.cap, s.vs + HWords(ParsePackedVarints(t, payload).value)) else s
  {
    hide ParseScalar, Terminators, ParsePackedVarints, StartsVarint, VarintsLeft, HWords, ScanBody, IsPackable, IsFixed32, IsFixed64;
    s' := s;
    var at := 0;
    ghost var ws: seq<u64> := [];
    NoHWords();
    assert payload[0..] == payload && s.vs + HWords(ws) == s.vs;
    VarintsLeftAtFirst(t, payload);
    while at < |payload|
      invariant at <= |payload| && VarintsLeft(t, payload, at, ws)
      invariant s' == HMany(s.arr, s.cap, s.vs + HWords(ws))
      decreases |payload| - at
    {
      VarintsRoom(t, payload, at, ws);
      var n := ScanVarint(payload[at..]);
      if n == 0 {
        MalformedVarint(t, payload, at, ws);
        return false, s;
      }
      VarintIsScanned(payload[at..]);
      var w := ReadScalar(t, WIRE_VARINT, payload[at..][..n]);
      VarintsLeftStep(t, payload, at, ws, w);
      if w.None? {
        return false, s;
      }
      SomeTerminator(payload[at..]);
      s' := StoreElement(s', HWord(w.value));
      HWordsSnoc(ws, w.value);
      ws := ws + [w.value];
      at := at + n;
    }
    VarintsDone(t, payload, ws);
    ok := true;
  }

  lemma VarintsRoom(t: FieldType, payload: seq<byte>, at: nat, ws: seq<u64>)
    requires VarintsLeft(t, payload, at, ws)
    ensures at <= |payload| && |ws| + Terminators(payload[at..]) == Terminators(payload)
  {}

  lemma VarintsLeftAtFirst(t: FieldType, payload: seq<byte>)
    ensures VarintsLeft(t, payload, 0, [])
  {
    assert payload[0..] == payload;
    if ParsePackedVarints(t, payload).Some? {
      assert [] + ParsePackedVarints(t, payload).value == ParsePackedVarints(t, payload).value;
    }
  }

  lemma MalformedVarint(t: FieldType, payload: seq<byte>, at: nat, ws: seq<u64>)
    requires VarintsLeft(t, payload, at, ws) && at < |payload| && !StartsVarint(payload[at..], 10)
    ensures ParsePackedVarints(t, payload).None?
  {}

  lemma VarintIsScanned(s: seq<byte>)
    requires StartsVarint(s, 10)
    ensures ScanBody(WIRE_VARINT, s[..PrefixLen(s)]) == Some(PrefixLen(s))
  {
    BodyAlone(WIRE_VARINT, s);
  }

  lemma SomeTerminator(s: seq<byte>)
    requires StartsVarint(s, 10)
    ensures Terminators(s) >= 1
  {
    TerminatorsAfter(s, 10);
  }

  lemma VarintsDone(t: FieldType, payload: seq<byte>, ws: seq<u64>)
    requires VarintsLeft(t, payload, |payload|, ws)
    ensures ParsePackedVarints(t, payload) == Some(ws)
  {
    assert payload[|payload|..] == [] && ws + [] == ws;
  }

  /** Of `total` bytes, `at` hold `n` words, and the others hold whole words too. */
  ghost predicate FixedRoom(size: nat, total: nat, at: nat, n: nat) {
    && (size == 4 || size == 8)
    && at <= total && (total - at) % size == 0
    && n + (total - at) / size == total / size
  }

  lemma FixedRoomStep(size: nat, total: nat, at: nat, n: nat)
    requires FixedRoom(size, total, at, n) && at < total
    ensures at + size <= total && FixedRoom(size, total, at + size, n + 1) && n < total / size
  {
    if size == 4 {
      assert (total - at - 4) / 4 == (total - at) / 4 - 1;
    } else {
      assert (total - at - 8) / 8 == (total - at) / 8 - 1;
    }
  }

  /** The words that remain to be copied from a packed payload of fixed-width words. */
  ghost predicate FixedLeft(t: FieldType, size: nat, payload: seq<byte>, at: nat, ws: seq<u64>) {
    && at <= |payload| && FixedRoom(size, |payload|, at, |ws|) && size == (if IsFixed32(t) then 4 else 8)
    && ParsePackedFixed(t, size, payload)
       == match ParsePackedFixed(t, size, payload[at..]) case None => None case Some(rest) => Some(ws + rest)
  }

  lemma FixedRoomWithin(size: nat, total: nat, at: nat, n: nat)
    requires FixedRoom(size, total, at, n)
    ensures at <= total
  {}

  lemma FixedLeftAtFirst(t: FieldType, size: nat, payload: seq<byte>)
    requires size == (if IsFixed32(t) then 4 else 8) && |payload| % size == 0
    ensures FixedLeft(t, size, payload, 0, [])
  {
    hide ParsePackedFixed;
    assert payload[0..] == payload;
    if ParsePackedFixed(t, size, payload).Some? {
      assert [] + ParsePackedFixed(t, size, payload).value == ParsePackedFixed(t, size, payload).value;
    }
  }

  lemma FixedLeftStep(t: FieldType, size: nat, payload: seq<byte>, at: nat, ws: seq<u64>)
    requires at < |payload| && FixedLeft(t, size, payload, at, ws) && (IsFixed32(t) || IsFixed64(t))
    ensures at + size <= |payload|
    ensures var w := ParseScalar(t, WireTypeOf(t), payload[at..at + size]);
            w.Some? && FixedLeft(t, size, payload, at + size, ws + [w.value])
    ensures |ws| < |payload| / size
  {
    hide FixedRoom, ParseScalar, ParsePackedFixed;
    FixedRoomStep(size, |payload|, at, |ws|);
    FixedRoomWithin(size, |payload|, at + size, |ws| + 1);
    FixedUnfolded(t, size, payload[at..]);
    Slices(payload, at, size);
    var w := ParseScalar(t, WireTypeOf(t), payload[at..at + size]).value;
    if ParsePackedFixed(t, size, payload[at + size..]).Some? {
      var rest := ParsePackedFixed(t, size, payload[at + size..]).value;
      Associate(ws, w, rest);
    }
  }

  lemma Slices(s: seq<byte>, at: nat, n: nat)
    requires at + n <= |s|
    ensures s[at..][..n] == s[at..at + n] && s[at..][n..] == s[at + n..]
  {}

  lemma FixedUnfolded(t: FieldType, size: nat, s: seq<byte>)
    requires IsFixed32(t) || IsFixed64(t)
    requires size == (if IsFixed32(t) then 4 else 8) && |s| >= size
    ensures var w := ParseScalar(t, WireTypeOf(t), s[..size]);
            w.Some? && ParsePackedFixed(t, size, s)
                       == match ParsePackedFixed(t, size, s[size..]) case None => None case Some(rest) => Some([w.value] + rest)
  {
    FixedIsParsed(t, s[..size]);
    hide ParseScalar;
  }

  lemma FixedIsParsed(t: FieldType, s: seq<byte>)
    requires (IsFixed32(t) && |s| == 4) || (IsFixed64(t) && |s| == 8)
    ensures ParseScalar(t, WireTypeOf(t), s).Some?
  {}

  lemma FixedDone(t: FieldType, size: nat, payload: seq<byte>, ws: seq<u64>)
    requires FixedLeft(t, size, payload, |payload|, ws)
    ensures ParsePackedFixed(t, size, payload) == Some(ws)
  {
    assert payload[|payload|..] == [] && ws + [] == ws;
  }

  /** The copying of fixed-width words, which are stored as they are on the wire. */
  method ParsePackedFixedMember(t: FieldType, size: nat, payload: seq<byte>, s: HSlot) returns (s': HSlot)
    requires IsFixed32(t) || IsFixed64(t)
    requires size == (if IsFixed32(t) then 4 else 8) && |payload| % size == 0
    requires s.HMany? && |s.vs| + |payload| / size <= s.cap
    ensures ParsePackedFixed(t, size, payload).Some?
    ensures s' == HMany(s.arr, s.cap, s.vs + HWords(ParsePackedFixed(t, size, payload).value))
  {
    hide FixedLeft, ParseScalar, ParsePackedFixed;
    FixedLeftAtFirst(t, size, payload);
    s' := s;
    var at := 0;
    ghost var ws: seq<u64> := [];
    assert s.vs + HWords(ws) == s.vs;
    while at < |payload|
      invariant at <= |payload| && FixedLeft(t, size, payload, at, ws)
      invariant s' == HMany(s.arr, s.cap, s.vs + HWords(ws))
    {
      FixedLeftStep(t, size, payload, at, ws);
      FixedBody(t, payload[at..at + size]);
      var w := ReadScalar(t, WireTypeOf(t), payload[at..at + size]);
      s' := StoreElement(s', HWord(w.value));
      HWordsSnoc(ws, w.value);
      ws := ws + [w.value];
      at := at + size;
    }
    FixedDone(t, size, payload, ws);
  }

  lemma FixedBody(t: FieldType, s: seq<byte>)
    requires (IsFixed32(t) && |s| == 4) || (IsFixed64(t) && |s| == 8)
    ensures ScanBody(WireTypeOf(t), s) == Some(|s|)
  {}

  // ---- A slot ---------------------------------------------------------------------------------

  /** What parsing into a slot may return. */
  ghost predicate SlotResult(sch: Schema, f: FieldDescriptor, mem: Member, s: HSlot, ok: bool, s': HSlot, refused: bool) {
    var r := ApplySlot(sch, f, mem, EraseSlot(s));
    && TypedSlot(sch, f, s')
    && (s.HMany? ==> s'.HMany? && s'.arr == s.arr && s'.cap == s.cap)
    && (ok ==> r == Some(EraseSlot(s')))
    && (!ok ==> r.None? || refused)
  }

  lemma PackedResult(sch: Schema, f: FieldDescriptor, mem: Member, s: HSlot)
    requires f.rule == REPEATED && IsPackedRun(f, mem) && IsPackable(f.ty) && TypedSlot(sch, f, s)
    ensures match ParsePacked(f.ty, Payload(mem))
            case None => SlotResult(sch, f, mem, s, false, s, false)
            case Some(ws) =>
              |s.vs| + |ws| <= s.cap ==>
                var s' := HMany(s.arr, s.cap, s.vs + HWords(ws));
                SlotResult(sch, f, mem, s, true, s', false) && OwnedSlot(s') == OwnedSlot(s)
  {
    hide ParsePacked, TypedValue, EraseValue, EraseValues, OwnedValue, OwnedValues;
    match ParsePacked(f.ty, Payload(mem))
    case None =>
    case Some(ws) =>
      HWordsAre(sch, f, ws);
      EraseValuesConcat(s.vs, HWords(ws));
      OwnedValuesConcat(s.vs, HWords(ws));
  }

  /** parse_packed_repeated_member */
  method ParsePackedMember(sch: Schema, f: FieldDescriptor, payload: seq<byte>, ghost mem: Member, s: HSlot)
    returns (ok: bool, s': HSlot)
    requires f.rule == REPEATED && IsPackedRun(f, mem) && IsPackable(f.ty) && TypedSlot(sch, f, s)
    requires payload == Payload(mem) && PackedCount(f.ty, payload).Some? && |s.vs| + PackedCount(f.ty, payload).value <= s.cap
    ensures OwnedSlot(s') == OwnedSlot(s)
    ensures SlotResult(sch, f, mem, s, ok, s', false)
  {
    hide SlotResult, TypedSlot, OwnedSlot;
    PackedResult(sch, f, mem, s);
    RepeatedIsMany(sch, f, s);
    if ParsePacked(f.ty, payload).Some? { PackedCountCovers(f.ty, payload); }
    ok := true;
    if IsFixed32(f.ty) {
      s' := ParsePackedFixedMember(f.ty, 4, payload, s);
    } else if IsFixed64(f.ty) {
      s' := ParsePackedFixedMember(f.ty, 8, payload, s);
    } else {
      VarintCount(f.ty, payload);
      ok, s' := ParsePackedVarintMember(f.ty, payload, s);
    }
  }

  lemma RepeatedIsMany(sch: Schema, f: FieldDescriptor, s: HSlot)
    requires f.rule == REPEATED && TypedSlot(sch, f, s)
    ensures s.HMany?
  {}

  lemma VarintCount(t: FieldType, s: seq<byte>)
    requires IsPackable(t) && !IsFixed32(t) && !IsFixed64(t)
    ensures PackedCount(t, s).Some? && Terminators(s) <= PackedCount(t, s).value
  {}

  /** A value that is not a submessage leaves nothing for a new one to merge with. */
  lemma NothingToMerge(sch: Schema, f: FieldDescriptor, mem: Member, held: Value)
    requires !held.Msg?
    ensures ParseValue(sch, f, mem, held) == ParseValue(sch, f, mem, NoMsg)
  {
    hide ParseScalar, Parse;
  }

  lemma ZeroedIsTyped(sch: Schema, f: FieldDescriptor)
    ensures TypedValue(sch, f, Zeroed(f)) && OwnedValue(Zeroed(f)) == multiset{} && !EraseValue(Zeroed(f)).Msg?
  {}

  lemma ElementAdded(sch: Schema, f: FieldDescriptor, mem: Member, s: HSlot, ok: bool, v: HValue, refused: bool)
    requires f.rule == REPEATED && !IsPackedRun(f, mem) && TypedSlot(sch, f, s) && s.HMany?
    requires ValueResult(sch, f, mem, Zeroed(f), ok, v, refused)
    ensures !ok ==> SlotResult(sch, f, mem, s, ok, s, refused)
    ensures ok && |s.vs| < s.cap ==>
              SlotResult(sch, f, mem, s, ok, HMany(s.arr, s.cap, s.vs + [v]), refused)
    ensures OwnedSlot(HMany(s.arr, s.cap, s.vs + [v])) == OwnedSlot(s) + OwnedValue(v)
  {
    hide TypedValue, EraseValue, ParseValue, OwnedValue;
    NothingZeroed(sch, f, mem);
    assert (s.vs + [v])[..|s.vs|] == s.vs;
    assert OwnedValues(s.vs + [v]) == OwnedValues(s.vs) + OwnedValue(v);
    assert EraseValues(s.vs + [v]) == EraseValues(s.vs) + [EraseValue(v)];
    if ok {
      assert ParseElements(sch, f, mem) == Some([EraseValue(v)]);
      var s' := HMany(s.arr, s.cap, s.vs + [v]);
      assert EraseSlot(s') == Many(Elements(EraseSlot(s)) + [EraseValue(v)]);
      assert |s.vs| < s.cap ==> TypedSlot(sch, f, s');
    }
  }

  lemma NothingZeroed(sch: Schema, f: FieldDescriptor, mem: Member)
    ensures ParseValue(sch, f, mem, EraseValue(Zeroed(f))) == ParseValue(sch, f, mem, NoMsg)
  {
    NothingToMerge(sch, f, mem, EraseValue(Zeroed(f)));
  }

  lemma DenotedFieldIs(fields: seq<FieldDescriptor>, data: seq<byte>, sm: ScannedMember, mem: Member)
    requires Denotes(fields, data, sm, mem)
    ensures sm.field == FindField(fields, mem.tag) < |fields| && sm.tag == mem.tag && sm.wireType == mem.wireType
    ensures sm.len == |mem.data| && 1 <= sm.len < |data|
  {}

  lemma FailureOwnsNothing(sch: Schema, f: FieldDescriptor, mem: Member, held: HValue, v: HValue, refused: bool)
    requires ValueResult(sch, f, mem, held, false, v, refused) && OwnedValue(held) == multiset{}
    ensures OwnedValue(v) == multiset{}
  {}

  lemma SingleParsed(sch: Schema, f: FieldDescriptor, mem: Member, s: HSlot, ok: bool, v: HValue, refused: bool)
    requires f.rule != REPEATED && f.oneof.None? && TypedSlot(sch, f, s) && s.HSingle?
    requires ValueResult(sch, f, mem, s.v, ok, v, refused)
    ensures SlotResult(sch, f, mem, s, ok, HSingle(s.has || (ok && HasBit(f)), v), refused)
  {
    hide TypedValue, EraseValue, ParseValue, OwnedValue;
  }

  lemma PackedIsPackable(sch: Schema, d: nat, i: nat)
    requires ValidSchema(sch) && d < |sch| && i < |sch[d].fields|
    ensures sch[d].fields[i].packed ==> IsPackable(sch[d].fields[i].ty)
    ensures sch[d].fields[i].oneof.Some? ==> sch[d].fields[i].rule == OPTIONAL || sch[d].fields[i].rule == NONE
    ensures sch[d].fields[i].oneof.Some? ==> sch[d].fields[i].oneof.value < sch[d].nOneofs
    ensures 1 <= sch[d].fields[i].id
  {
    assert ValidField(sch, sch[d], sch[d].fields[i]);
  }

  // ---- A oneof --------------------------------------------------------------------------------

  /** What parsing into a oneof may return. */
  ghost predicate OneofResult(sch: Schema, d: nat, g: nat, f: FieldDescriptor, mem: Member, ok: bool, o': HOneof, refused: bool)
    requires d < |sch|
  {
    var r := ParseValue(sch, f, mem, NoMsg);
    && TypedOneof(sch, sch[d], g, o')
    && (ok ==> o'.HChosen? && o'.id == mem.tag && r == Some(EraseValue(o'.v)))
    && (!ok ==> r.None? || refused)
  }

  lemma OneofParsed(sch: Schema, d: nat, g: nat, i: nat, mem: Member, ok: bool, v: HValue, kept: HOneof, refused: bool)
    requires d < |sch| && FindField(sch[d].fields, mem.tag) == i && sch[d].fields[i].oneof == Some(g)
    requires ValueResult(sch, sch[d].fields[i], mem, Zeroed(sch[d].fields[i]), ok, v, refused)
    requires TypedOneof(sch, sch[d], g, kept) && OwnedOneof(kept) == multiset{}
    ensures var o' := if ok then HChosen(mem.tag, v) else kept;
            OneofResult(sch, d, g, sch[d].fields[i], mem, ok, o', refused) && OwnedOneof(o') == OwnedValue(v)
  {
    hide TypedValue, EraseValue, ParseValue, OwnedValue;
    NothingZeroed(sch, sch[d].fields[i], mem);
    ZeroedIsTyped(sch, sch[d].fields[i]);
  }

  /** The oneof as its old member leaves it: the case stays until the new member is parsed. */
  lemma KeptCase(sch: Schema, d: nat, g: nat, o: HOneof, i: int)
    requires d < |sch| && TypedOneof(sch, sch[d], g, o) && o.HChosen? && i == FindField(sch[d].fields, o.id)
    ensures 0 <= i && TypedValue(sch, sch[d].fields[i], o.v) && OwnedOneof(o) == OwnedValue(o.v)
    ensures var kept := HChosen(o.id, Zeroed(sch[d].fields[i]));
            TypedOneof(sch, sch[d], g, kept) && OwnedOneof(kept) == multiset{}
  {
    ZeroedIsTyped(sch, sch[d].fields[i]);
  }

  // ---- parse_member ---------------------------------------------------------------------------

  /** Parsing changes no array, only what is in it. */
  ghost predicate SameArrays(m: HMessage, m': HMessage) {
    && m'.block == m.block && m'.desc == m.desc && m'.unknownArray == m.unknownArray && m'.unknownCap == m.unknownCap
    && |m'.slots| == |m.slots|
    && forall i :: 0 <= i < |m.slots| && m.slots[i].HMany? ==>
         m'.slots[i].HMany? && m'.slots[i].arr == m.slots[i].arr && m'.slots[i].cap == m.slots[i].cap
  }

  /** The arrays have room for what the member brings. */
  ghost predicate HasRoom(fields: seq<FieldDescriptor>, m: HMessage, mem: Member) {
    var i := FindField(fields, mem.tag);
    && |m.slots| == |fields|
    && (i < 0 ==> |m.unknown| < m.unknownCap)
    && (i >= 0 && m.slots[i].HMany? ==> |m.slots[i].vs| + Room(fields, i, mem) <= m.slots[i].cap)
  }

  /** What parsing a member may return. */
  ghost predicate MemberResult(sch: Schema, mem: Member, m: HMessage, ok: bool, m': HMessage, refused: bool) {
    var r := Apply(sch, mem, Erase(m));
    && Typed(sch, m') && SameArrays(m, m')
    && (ok ==> r == Some(Erase(m')))
    && (!ok ==> r.None? || refused)
  }

  lemma SlotReplacedIsTyped(sch: Schema, m: HMessage, i: nat, s: HSlot)
    requires Typed(sch, m) && i < |m.slots| && TypedSlot(sch, sch[m.desc].fields[i], s)
    ensures Typed(sch, m.(slots := m.slots[i := s]))
  {
    hide TypedSlot, TypedOneof;
  }

  lemma OneofReplacedIsTyped(sch: Schema, m: HMessage, g: nat, o: HOneof)
    requires Typed(sch, m) && g < |m.oneofs| && TypedOneof(sch, sch[m.desc], g, o)
    ensures Typed(sch, m.(oneofs := m.oneofs[g := o]))
  {
    hide TypedSlot, TypedOneof;
  }

  lemma EraseSlotReplaced(m: HMessage, i: nat, s: HSlot)
    requires i < |m.slots|
    ensures Erase(m.(slots := m.slots[i := s])) == Erase(m).(slots := Erase(m).slots[i := EraseSlot(s)])
  {
    hide EraseSlot;
    assert EraseSlots(m.slots[i := s]) == EraseSlots(m.slots)[i := EraseSlot(s)];
  }

  lemma EraseOneofReplaced(m: HMessage, g: nat, o: HOneof)
    requires g < |m.oneofs|
    ensures Erase(m.(oneofs := m.oneofs[g := o])) == Erase(m).(oneofs := Erase(m).oneofs[g := EraseOneof(o)])
  {
    hide EraseOneof;
    assert EraseOneofs(m.oneofs[g := o]) == EraseOneofs(m.oneofs)[g := EraseOneof(o)];
  }

  lemma SlotMember(sch: Schema, mem: Member, m: HMessage, i: nat, ok: bool, s: HSlot, refused: bool)
    requires Typed(sch, m) && FindField(sch[m.desc].fields, mem.tag) == i && sch[m.desc].fields[i].oneof.None?
    requires SlotResult(sch, sch[m.desc].fields[i], mem, m.slots[i], ok, s, refused)
    ensures MemberResult(sch, mem, m, ok, m.(slots := m.slots[i := s]), refused)
  {
    hide Typed, TypedSlot, ApplySlot, EraseSlot, Apply;
    ErasedShape(m);
    ApplyIsSlot(sch, mem, Erase(m), i);
    hide Erase;
    EraseSlotReplaced(m, i, s);
    SlotReplacedIsTyped(sch, m, i, s);
  }

  lemma OneofMember(sch: Schema, mem: Member, m: HMessage, i: nat, g: nat, ok: bool, o: HOneof, refused: bool)
    requires ValidSchema(sch) && Typed(sch, m) && FindField(sch[m.desc].fields, mem.tag) == i
    requires sch[m.desc].fields[i].oneof == Some(g) && g < |m.oneofs|
    requires OneofResult(sch, m.desc, g, sch[m.desc].fields[i], mem, ok, o, refused)
    ensures MemberResult(sch, mem, m, ok, m.(oneofs := m.oneofs[g := o]), refused)
  {
    PackedIsPackable(sch, m.desc, i);
    hide ValidSchema, Typed, TypedOneof, ParseValue, EraseValue, Apply;
    ErasedShape(m);
    ApplyIsOneof(sch, mem, Erase(m), i, g);
    hide Erase;
    EraseOneofReplaced(m, g, o);
    OneofReplacedIsTyped(sch, m, g, o);
  }

  lemma ErasedShape(m: HMessage)
    ensures Erase(m).desc == m.desc && |Erase(m).slots| == |m.slots| && |Erase(m).oneofs| == |m.oneofs|
    ensures forall i :: 0 <= i < |m.slots| ==> Erase(m).slots[i] == EraseSlot(m.slots[i])
  {}

  lemma DenotedDataIs(fields: seq<FieldDescriptor>, data: seq<byte>, sm: ScannedMember, mem: Member)
    requires Denotes(fields, data, sm, mem)
    ensures sm.at + sm.len <= |data| && mem == Member(sm.tag, sm.wireType, data[sm.at..sm.at + sm.len])
  {}

  lemma UnknownAdded(sch: Schema, mem: Member, m: HMessage, block: Option<Block>, refused: bool)
    requires Typed(sch, m) && FindField(sch[m.desc].fields, mem.tag) < 0 && (block.None? ==> refused)
    ensures var m' := m.(unknown := m.unknown + [HUnknown(mem, block)]);
            MemberResult(sch, mem, m, block.Some?, m', refused) && Owned(m') == Owned(m) + OwnedBlock(block)
  {
    UnknownErased(sch, m, mem, block);
    UnknownOwned(m, mem, block);
    hide Typed, Erase, Owned, OwnedBlock;
  }

  lemma UnknownErased(sch: Schema, m: HMessage, mem: Member, block: Option<Block>)
    requires Typed(sch, m)
    ensures var m' := m.(unknown := m.unknown + [HUnknown(mem, block)]);
            Typed(sch, m') && Erase(m') == Erase(m).(unknown := Erase(m).unknown + [mem])
  {
    hide TypedSlot, TypedOneof, EraseSlots, EraseOneofs;
    assert EraseUnknown(m.unknown + [HUnknown(mem, block)]) == EraseUnknown(m.unknown) + [mem];
  }

  lemma UnknownOwned(m: HMessage, mem: Member, block: Option<Block>)
    ensures Owned(m.(unknown := m.unknown + [HUnknown(mem, block)])) == Owned(m) + OwnedBlock(block)
  {
    hide OwnedSlots, OwnedOneofs, OwnedBlock;
    assert (m.unknown + [HUnknown(mem, block)])[..|m.unknown|] == m.unknown;
  }
}

/**
 How the arrays that the first pass of unpacking reserves are filled by the second: what has been
 parsed after `n` members, and that there is room for the next one.
 */
module Filling {
  import opened Bytes
  import opened Schema
  import opened Wire
  import opened Scan
  import opened Parsing
  import opened MemberScan
  import opened Heap
  import opened FirstPass
  import opened MemberParse

  // ---- message_init ---------------------------------------------------------------------------

  function HInitValue(f: FieldDescriptor): HValue {
    if f.ty == MESSAGE then HNoMsg
    else if f.ty == STRING then HText(if f.hasDefault then HDefault else HNull)
    else if f.ty == BYTES then HBlob(if f.hasDefault then HDefault else HNull)
    else HWord(f.initWord)
  }

  function HInitSlot(f: FieldDescriptor): HSlot {
    if f.rule == REPEATED then HMany(None, 0, [])
    else if f.oneof.Some? then HShared
    else HSingle(false, HInitValue(f))
  }

  function HInit(sch: Schema, d: nat, block: Block): HMessage
    requires d < |sch|
  {
    HMessage(block, d, seq(|sch[d].fields|, i requires 0 <= i < |sch[d].fields| => HInitSlot(sch[d].fields[i])),
             seq(sch[d].nOneofs, _ => HUnset), None, 0, [])
  }

  lemma InitSlotIs(sch: Schema, f: FieldDescriptor)
    ensures EraseSlot(HInitSlot(f)) == InitSlot(f) && OwnedSlot(HInitSlot(f)) == multiset{} && TypedSlot(sch, f, HInitSlot(f))
  {}

  lemma {:induction false} NothingOwned(ss: seq<HSlot>)
    requires forall i :: 0 <= i < |ss| ==> OwnedSlot(ss[i]) == multiset{}
    ensures OwnedSlots(ss) == multiset{}
  {
    hide OwnedSlot;
    if ss != [] { NothingOwned(ss[..|ss| - 1]); }
  }

  lemma {:induction false} NoneChosen(os: seq<HOneof>)
    requires forall g :: 0 <= g < |os| ==> os[g] == HUnset
    ensures OwnedOneofs(os) == multiset{}
  {
    if os != [] { NoneChosen(os[..|os| - 1]); }
  }

  lemma InitIs(sch: Schema, d: nat, block: Block)
    requires d < |sch|
    ensures Erase(HInit(sch, d, block)) == Init(sch, d)
    ensures Owned(HInit(sch, d, block)) == multiset{block}
    ensures Typed(sch, HInit(sch, d, block))
  {
    hide EraseSlot, OwnedSlot, TypedSlot;
    var m := HInit(sch, d, block);
    forall i | 0 <= i < |m.slots|
      ensures EraseSlot(m.slots[i]) == InitSlot(sch[d].fields[i]) && OwnedSlot(m.slots[i]) == multiset{}
      ensures TypedSlot(sch, sch[d].fields[i], m.slots[i])
    {
      InitSlotIs(sch, sch[d].fields[i]);
    }
    NothingOwned(m.slots);
    NoneChosen(m.oneofs);
    assert Erase(m).slots == Init(sch, d).slots;
    assert Erase(m).oneofs == Init(sch, d).oneofs;
    assert Erase(m).unknown == [];
  }

  // ---- Filling --------------------------------------------------------------------------------

  /** An array after the first `n` members. */
  ghost predicate SlotFilling(fields: seq<FieldDescriptor>, f: nat, ms: seq<Member>, n: nat, s: HSlot)
    requires f < |fields| && n <= |ms|
  {
    s.HMany? ==>
      && s.cap == Reserved(fields, f, ms)
      && (s.arr.None? <==> s.cap == 0)
      && |s.vs| <= Reserved(fields, f, ms[..n])
      && (fields[f].ty != BOOL ==> |s.vs| == Reserved(fields, f, ms[..n]))
      && (s.vs == [] ==> Reserved(fields, f, ms[..n]) == 0)
  }

  /** The message after the first `n` members. */
  ghost predicate FilledTo(sch: Schema, d: nat, ms: seq<Member>, n: nat, m: HMessage) {
    && d < |sch| && n <= |ms| && Typed(sch, m) && m.desc == d
    && Fold(sch, ms[..n], Init(sch, d)) == Some(Erase(m))
    && m.unknownCap == Unknowns(sch[d].fields, ms)
    && |m.unknown| == Unknowns(sch[d].fields, ms[..n])
    && forall f :: 0 <= f < |m.slots| ==> SlotFilling(sch[d].fields, f, ms, n, m.slots[f])
  }

  /** A parsed member brings no more elements than were counted, and as many unless they are bools. */
  lemma ElementsFit(sch: Schema, fields: seq<FieldDescriptor>, f: nat, mem: Member)
    requires f < |fields| && FindField(fields, mem.tag) == f && fields[f].rule == REPEATED
    requires fields[f].packed ==> IsPackable(fields[f].ty)
    requires ParseElements(sch, fields[f], mem).Some?
    ensures var n := |ParseElements(sch, fields[f], mem).value|;
            && n <= Room(fields, f, mem)
            && (fields[f].ty != BOOL ==> n == Room(fields, f, mem))
            && (n == 0 ==> Room(fields, f, mem) == 0)
  {
    hide ParseValue;
    if IsPackedRun(fields[f], mem) {
      PackedCountCovers(fields[f].ty, Payload(mem));
    }
  }

  /** What a member does to the length of array `f`. */
  lemma ElementCount(sch: Schema, mem: Member, m: HMessage, m': HMessage, f: nat)
    requires ValidSchema(sch) && Typed(sch, m) && Typed(sch, m') && f < |m.slots| && SameArrays(m, m') && m.slots[f].HMany?
    requires Apply(sch, mem, Erase(m)) == Some(Erase(m'))
    ensures var fields := sch[m.desc].fields; var room := Room(fields, f, mem);
            && |m.slots[f].vs| <= |m'.slots[f].vs| <= |m.slots[f].vs| + room
            && (fields[f].ty != BOOL ==> |m'.slots[f].vs| == |m.slots[f].vs| + room)
            && (m'.slots[f].vs == m.slots[f].vs == [] ==> room == 0)
  {
    var fields := sch[m.desc].fields;
    var i := FindField(fields, mem.tag);
    ManyIsRepeated(sch, m, f);
    hide Typed, EraseValues, ParseElements, ParseValue, Room;
    ErasedShape(m);
    ErasedShape(m');
    PackedIsPackable(sch, m.desc, f);
    if i == f {
      ElementsFit(sch, fields, f, mem);
    } else {
      NoRoom(fields, f, mem);
      OtherSlotStays(sch, mem, Erase(m), f);
    }
  }

  lemma ManyIsRepeated(sch: Schema, m: HMessage, f: nat)
    requires Typed(sch, m) && f < |m.slots| && m.slots[f].HMany?
    ensures sch[m.desc].fields[f].rule == REPEATED
  {
    TypedAt(sch, m, f);
  }

  lemma NoRoom(fields: seq<FieldDescriptor>, f: nat, mem: Member)
    requires f < |fields| && FindField(fields, mem.tag) != f
    ensures Room(fields, f, mem) == 0
  {}

  /** There is room for member `n`. */
  lemma RoomForNext(sch: Schema, d: nat, ms: seq<Member>, n: nat, m: HMessage)
    requires FilledTo(sch, d, ms, n, m) && n < |ms|
    ensures HasRoom(sch[d].fields, m, ms[n])
  {
    hide Typed, Fold, Room, Reserved, Unknowns;
    var fields := sch[d].fields;
    var i := FindField(fields, ms[n].tag);
    assert ms[..n + 1] == ms[..n] + [ms[n]];
    TalliesSnoc(fields, ms[..n], ms[n]);
    if i < 0 {
      UnknownsMonotone(fields, ms, n + 1);
    } else if m.slots[i].HMany? {
      assert SlotFilling(fields, i, ms, n, m.slots[i]);
      ReservedMonotone(fields, i, ms, n + 1);
    }
  }

  /** Member `n` has been parsed. */
  lemma FillStep(sch: Schema, d: nat, ms: seq<Member>, n: nat, m: HMessage, m': HMessage, refused: bool)
    requires ValidSchema(sch) && FilledTo(sch, d, ms, n, m) && n < |ms|
    requires MemberResult(sch, ms[n], m, true, m', refused)
    requires |m'.unknown| == |m.unknown| + if FindField(sch[d].fields, ms[n].tag) < 0 then 1 else 0
    ensures FilledTo(sch, d, ms, n + 1, m')
  {
    hide Typed, Fold, Room, Reserved, Unknowns, Apply, Erase, Init, ValidSchema, FindField;
    var fields := sch[d].fields;
    assert ms[..n + 1] == ms[..n] + [ms[n]];
    TalliesSnoc(fields, ms[..n], ms[n]);
    FoldConcat(sch, ms[..n], [ms[n]], Init(sch, d));
    FoldOne(sch, ms[n], Erase(m));
    forall f | 0 <= f < |m'.slots|
      ensures SlotFilling(fields, f, ms, n + 1, m'.slots[f])
    {
      assert SlotFilling(fields, f, ms, n, m.slots[f]);
      SlotFillStep(sch, d, ms, n, m, m', f);
    }
  }

  lemma SlotFillStep(sch: Schema, d: nat, ms: seq<Member>, n: nat, m: HMessage, m': HMessage, f: nat)
    requires ValidSchema(sch) && Typed(sch, m) && Typed(sch, m') && m.desc == d && n < |ms| && f < |m.slots|
    requires SameArrays(m, m') && SlotFilling(sch[d].fields, f, ms, n, m.slots[f])
    requires Apply(sch, ms[n], Erase(m)) == Some(Erase(m'))
    ensures SlotFilling(sch[d].fields, f, ms, n + 1, m'.slots[f])
  {
    if m'.slots[f].HMany? {
      ManyStays(sch, m, m', f);
      ReservedNext(sch[d].fields, f, ms, n);
      hide Typed, Room, Reserved, Apply, Erase, ValidSchema;
      ElementCount(sch, ms[n], m, m', f);
    }
  }

  lemma ReservedNext(fields: seq<FieldDescriptor>, f: nat, ms: seq<Member>, n: nat)
    requires f < |fields| && n < |ms|
    ensures Reserved(fields, f, ms[..n + 1]) == Reserved(fields, f, ms[..n]) + Room(fields, f, ms[n])
  {
    hide Room;
    assert ms[..n + 1][..n] == ms[..n];
  }

  lemma ManyStays(sch: Schema, m: HMessage, m': HMessage, f: nat)
    requires Typed(sch, m) && Typed(sch, m') && m.desc == m'.desc && f < |m.slots| && m'.slots[f].HMany?
    ensures m.slots[f].HMany?
  {
    TypedAt(sch, m, f);
    TypedAt(sch, m', f);
  }

  /** All members have been parsed: the message is complete, and it is what the bytes mean. */
  lemma FilledIsParsed(sch: Schema, d: nat, data: seq<byte>, ms: seq<Member>, m: HMessage)
    requires FilledTo(sch, d, ms, |ms|, m) && ScanAll(data) == Some(ms) && |ms| <= MAX_MEMBERS && RequiredPresent(sch[d], ms)
    ensures Complete(sch, m) && Parse(sch, d, data) == Some(Erase(m))
  {
    hide Typed, Fold, Reserved, Unknowns, ScanAll, ParseFrom, Erase;
    assert ms[..|ms|] == ms;
    ParseFromIsFold(sch, data, Init(sch, d));
    forall f | 0 <= f < |m.slots|
      ensures FullSlot(sch[d].fields[f], m.slots[f])
    {
      assert SlotFilling(sch[d].fields, f, ms, |ms|, m.slots[f]);
    }
  }

  /** A member that cannot be applied makes the whole input unreadable. */
  lemma FillFails(sch: Schema, d: nat, data: seq<byte>, ms: seq<Member>, n: nat, m: HMessage)
    requires FilledTo(sch, d, ms, n, m) && n < |ms| && ScanAll(data) == Some(ms) && Apply(sch, ms[n], Erase(m)).None?
    ensures Parse(sch, d, data).None?
  {
    hide Fold, Apply, ScanAll, Parse, Typed, Erase;
    assert ms == ms[..n] + [ms[n]] + ms[n + 1..];
    ApplyFails(sch, d, data, ms[..n], ms[n], ms[n + 1..]);
  }

  // ---- Reserving ------------------------------------------------------------------------------

  /** The slot of field `f` when the arrays of the fields before `i` have been allocated. */
  ghost predicate SlotReserved(f: FieldDescriptor, count: nat, done: bool, s: HSlot) {
    if done && f.rule == REPEATED then
      s.HMany? && s.vs == [] && s.cap == count && (s.arr.None? <==> count == 0)
    else s == HInitSlot(f)
  }

  ghost predicate ReservedTo(sch: Schema, d: nat, counts: seq<nat>, i: nat, m: HMessage) {
    && d < |sch| && |counts| == |m.slots| == |sch[d].fields|
    && m == HInit(sch, d, m.block).(slots := m.slots)
    && forall f :: 0 <= f < |m.slots| ==> SlotReserved(sch[d].fields[f], counts[f], f < i, m.slots[f])
  }

  lemma ReservedAtFirst(sch: Schema, d: nat, counts: seq<nat>, block: Block)
    requires d < |sch| && |counts| == |sch[d].fields|
    ensures ReservedTo(sch, d, counts, 0, HInit(sch, d, block))
  {}

  lemma ReserveStep(sch: Schema, d: nat, counts: seq<nat>, i: nat, m: HMessage, s: HSlot)
    requires ReservedTo(sch, d, counts, i, m) && i < |counts| && SlotReserved(sch[d].fields[i], counts[i], true, s)
    ensures ReservedTo(sch, d, counts, i + 1, m.(slots := m.slots[i := s]))
  {
    hide HInitSlot;
  }

  lemma ReservedSlotIs(sch: Schema, f: FieldDescriptor, count: nat, done: bool, s: HSlot)
    requires SlotReserved(f, count, done, s)
    ensures EraseSlot(s) == InitSlot(f) && TypedSlot(sch, f, s)
  {
    InitSlotIs(sch, f);
  }

  /** An array that is reserved but empty does not change what the message means. */
  lemma ReservedIsInit(sch: Schema, d: nat, counts: seq<nat>, i: nat, m: HMessage)
    requires ReservedTo(sch, d, counts, i, m)
    ensures Erase(m) == Init(sch, d) && Typed(sch, m)
  {
    hide EraseSlot, TypedSlot, SlotReserved;
    InitIs(sch, d, m.block);
    forall f | 0 <= f < |m.slots|
      ensures EraseSlot(m.slots[f]) == InitSlot(sch[d].fields[f]) && TypedSlot(sch, sch[d].fields[f], m.slots[f])
    {
      ReservedSlotIs(sch, sch[d].fields[f], counts[f], f < i, m.slots[f]);
    }
    assert Erase(m).slots == Init(sch, d).slots;
    assert Erase(m).oneofs == Erase(HInit(sch, d, m.block)).oneofs;
    assert Erase(m).unknown == Erase(HInit(sch, d, m.block)).unknown;
    forall g | 0 <= g < |m.oneofs|
      ensures TypedOneof(sch, sch[d], g, m.oneofs[g])
    {
      assert m.oneofs[g] == HUnset;
    }
  }

  /** Before the first member is parsed. */
  lemma FillStarts(sch: Schema, d: nat, counts: seq<nat>, ms: seq<Member>, m0: HMessage, m: HMessage)
    requires ReservedTo(sch, d, counts, |counts|, m0)
    requires forall f :: 0 <= f < |counts| ==> counts[f] == Reserved(sch[d].fields, f, ms)
    requires m == m0.(unknownArray := m.unknownArray, unknownCap := Unknowns(sch[d].fields, ms))
    ensures FilledTo(sch, d, ms, 0, m)
  {
    ReservedIsInit(sch, d, counts, |counts|, m0);
    hide TypedSlot, TypedOneof, Reserved;
    assert Typed(sch, m) && Erase(m) == Erase(m0);
    assert ms[..0] == [];
    forall f | 0 <= f < |m.slots|
      ensures SlotFilling(sch[d].fields, f, ms, 0, m.slots[f])
    {
      assert SlotReserved(sch[d].fields[f], counts[f], true, m0.slots[f]);
      NothingReserved(sch[d].fields, f);
    }
  }

  lemma NothingReserved(fields: seq<FieldDescriptor>, f: nat)
    requires f < |fields|
    ensures Reserved(fields, f, []) == 0
  {}
}
