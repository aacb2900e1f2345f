/**
 The loops of unpacking that read bytes: keys, length prefixes, varints, and the counting of packed
 elements. An argument `s` stands for the pointer and the number of bytes that remain after it.
 */
module MemberScan {
  import opened Bytes
  import opened Varints
  import opened Schema
  import opened Wire
  import opened Scan
  import opened Parsing

  lemma {:induction false} GroupsSnoc(s: seq<byte>, n: nat)
    requires n < |s|
    ensures Groups(s[..n + 1]) == Groups(s[..n]) + Low7(s[n]) * Pow128(n)
  {
    if n > 0 {
      GroupsSnoc(s[1..], n - 1);
      assert s[..n + 1][1..] == s[1..][..n] && s[..n][1..] == s[1..][..n - 1];
      Distribute(Groups(s[1..][..n - 1]), Low7(s[n]), Pow128(n - 1));
    } else {
      assert s[..1][1..] == [];
    }
  }

  lemma Distribute(a: nat, b: nat, c: nat)
    ensures 128 * (a + b * c) == 128 * a + b * (128 * c)
  {}

  /** One more byte of a key. */
  lemma KeyStep(s: seq<byte>, rv: nat, tag: nat, wireType: nat, weight: nat)
    requires rv < |s| && rv < 5 && 8 * weight == Pow128(rv) && Groups(s[..rv]) == 8 * tag + wireType
    ensures Groups(s[..rv + 1]) == 8 * (tag + Low7(s[rv]) * weight) + wireType
    ensures tag + Low7(s[rv]) * weight < TWO_TO_THE_32
    ensures 8 * (weight * 128) == Pow128(rv + 1)
  {
    GroupsSnoc(s, rv);
    GroupsFive(s[..rv + 1]);
    assert Low7(s[rv]) * Pow128(rv) == 8 * (Low7(s[rv]) * weight);
  }

  /** The byte before `rv` ends the key. */
  lemma KeyEnds(s: seq<byte>, rv: nat, tag: u32, wireType: nat)
    requires 1 <= rv <= |s| && rv <= 5 && s[0] >= 8 && wireType < 8
    requires s[rv - 1] < 128 && forall i :: 0 <= i < rv - 1 ==> s[i] >= 128
    requires Groups(s[..rv]) == 8 * tag + wireType
    ensures ScanKey(s) == Some(Header(tag, wireType, rv))
  {
    PrefixLenIs(s, rv);
  }

  lemma KeyStarts(s: seq<byte>)
    requires s != []
    ensures Groups(s[..1]) == Low7(s[0]) && Pow128(1) == 128
  {
    assert s[..1][1..] == [];
    assert Pow128(1) == 128 * Pow128(0);
  }

  /** parse_tag_and_wiretype: the first byte holds three bits of wire type and four of the number. */
  method ParseTagAndWiretype(s: seq<byte>) returns (used: nat, tag: u32, wireType: nat)
    requires s != []
    ensures ScanKey(s) == if used == 0 then None else Some(Header(tag, wireType, used))
  {
    hide Groups, Pow128, PrefixLen;
    var maxRv := if |s| > 5 then 5 else |s|;
    tag := Low7(s[0]) / 8;
    // 0 is not a valid tag value
    if s[0] < 8 {
      return 0, 0, 0;
    }
    hide ScanKey;
    wireType := Low7(s[0]) % 8;
    KeyStarts(s);
    if s[0] < 128 {
      KeyEnds(s, 1, tag, wireType);
      return 1, tag, wireType;
    }
    var rv: nat, weight: nat := 1, 16; // weight is 1 << shift
    while rv < maxRv
      invariant 1 <= rv <= maxRv
      invariant forall i :: 0 <= i < rv ==> s[i] >= 128
      invariant 8 * weight == Pow128(rv)
      invariant Groups(s[..rv]) == 8 * tag + wireType && wireType < 8
    {
      KeyStep(s, rv, tag, wireType, weight);
      tag := tag + Low7(s[rv]) * weight;
      rv := rv + 1;
      if s[rv - 1] < 128 {
        KeyEnds(s, rv, tag, wireType);
        return rv, tag, wireType;
      }
      weight := weight * 128;
    }
    BadKey(s);
    return 0, 0, 0;
  }

  lemma BadKey(s: seq<byte>)
    requires s != [] && forall i :: 0 <= i < |s| && i < 5 ==> s[i] >= 128
    ensures ScanKey(s).None?
  {
    Unterminated(s, 5);
  }

  lemma Unterminated(s: seq<byte>, max: nat)
    requires s != [] && forall i :: 0 <= i < |s| && i < max ==> s[i] >= 128
    ensures !StartsVarint(s, max)
  {}

  /** scan_varint: the length of the varint at the front, or 0. */
  method ScanVarint(s: seq<byte>) returns (n: nat)
    ensures n == if StartsVarint(s, 10) then PrefixLen(s) else 0
  {
    var len := if |s| > 10 then 10 else |s|;
    var i := 0;
    while i < len && s[i] >= 128
      invariant i <= len
      invariant forall k :: 0 <= k < i ==> s[k] >= 128
    {
      i := i + 1;
    }
    if i == len {
      return 0;
    }
    PrefixLenIs(s, i + 1);
    return i + 1;
  }

  /** scan_length_prefixed_data: the length of prefix and body, and of the prefix; 0 for an error. */
  method ScanLengthPrefixedData(s: seq<byte>) returns (len: nat, prefixLen: nat)
    ensures ScanPrefixed(s) == if len == 0 then None else Some(len)
    ensures len != 0 ==> prefixLen == PrefixLen(s)
  {
    var hdrMax := if |s| < 5 then |s| else 5;
    var val: nat, i: nat, weight: nat := 0, 0, 1; // weight is 1 << shift
    while i < hdrMax
      invariant i <= hdrMax
      invariant forall k :: 0 <= k < i ==> s[k] >= 128
      invariant weight == Pow128(i) && val == Groups(s[..i])
    {
      GroupsSnoc(s, i);
      val := val + Low7(s[i]) * weight;
      weight := weight * 128;
      if s[i] < 128 {
        PrefixLenIs(s, i + 1);
        prefixLen := i + 1;
        if val > INT_MAX || prefixLen + val > |s| {
          return 0, prefixLen;
        }
        return prefixLen + val, prefixLen;
      }
      i := i + 1;
    }
    if s != [] {
      Unterminated(s, 5);
    }
    return 0, 0;
  }

  // ---- Counting packed elements ---------------------------------------------------------------

  /** The number of bytes that end a varint. */
  function Terminators(s: seq<byte>): (n: nat)
    ensures n <= |s|
  {
    if s == [] then 0 else (if s[0] < 128 then 1 else 0) + Terminators(s[1..])
  }

  /** max_b128_numbers */
  method MaxB128Numbers(s: seq<byte>) returns (rv: nat)
    ensures rv == Terminators(s)
  {
    rv := 0;
    var at := 0;
    while at < |s|
      invariant at <= |s| && rv + Terminators(s[at..]) == Terminators(s)
    {
      if s[at] < 128 {
        rv := rv + 1;
      }
      at := at + 1;
    }
  }

  /** The number of elements that a packed payload is given room for. */
  function PackedCount(t: FieldType, s: seq<byte>): Option<nat> {
    if IsFixed32(t) then if |s| % 4 != 0 then None else Some(|s| / 4)
    else if IsFixed64(t) then if |s| % 8 != 0 then None else Some(|s| / 8)
    else if t == BOOL then Some(|s|)
    else if IsPackable(t) then Some(Terminators(s))
    else None
  }

  /** count_packed_elements */
  method CountPackedElements(t: FieldType, s: seq<byte>) returns (count: Option<nat>)
    ensures count == PackedCount(t, s)
  {
    match t
    case SFIXED32 | FIXED32 | FLOAT =>
      count := if |s| % 4 != 0 then None else Some(|s| / 4);
    case SFIXED64 | FIXED64 | DOUBLE =>
      count := if |s| % 8 != 0 then None else Some(|s| / 8);
    case ENUM | INT32 | SINT32 | UINT32 | INT64 | SINT64 | UINT64 =>
      var n := MaxB128Numbers(s);
      count := Some(n);
    case BOOL =>
      count := Some(|s|);
    case STRING | BYTES | MESSAGE =>
      count := None;
  }

  /** A varint contains one terminator, its last byte. */
  lemma {:induction false} TerminatorsAfter(s: seq<byte>, max: nat)
    requires StartsVarint(s, max)
    ensures Terminators(s) == 1 + Terminators(s[PrefixLen(s)..])
  {
    if s[0] >= 128 {
      assert StartsVarint(s[1..], max);
      TerminatorsAfter(s[1..], max);
      assert s[1..][PrefixLen(s[1..])..] == s[PrefixLen(s)..];
    }
  }

  lemma {:induction false} VarintsParsed(t: FieldType, s: seq<byte>)
    requires ParsePackedVarints(t, s).Some?
    ensures |ParsePackedVarints(t, s).value| == Terminators(s)
    ensures Terminators(s) == 0 ==> s == []
  {
    if s != [] {
      TerminatorsAfter(s, 10);
      VarintsParsed(t, s[PrefixLen(s)..]);
    }
  }

  lemma {:induction false} FixedParsed(t: FieldType, size: nat, s: seq<byte>)
    requires size == (if IsFixed32(t) then 4 else 8)
    ensures ParsePackedFixed(t, size, s).Some? ==>
              |s| % size == 0 && |ParsePackedFixed(t, size, s).value| == |s| / size
  {
    hide ParseScalar;
    if |s| >= size {
      FixedParsed(t, size, s[size..]);
    }
  }

  /**
   The two passes agree on a packed payload: the second never yields more elements than the first
   has counted, just as many unless the elements are bools, and none only if none were counted.
   */
  lemma PackedCountCovers(t: FieldType, s: seq<byte>)
    requires ParsePacked(t, s).Some?
    ensures PackedCount(t, s).Some?
    ensures |ParsePacked(t, s).value| <= PackedCount(t, s).value
    ensures t != BOOL ==> |ParsePacked(t, s).value| == PackedCount(t, s).value
    ensures ParsePacked(t, s).value == [] ==> PackedCount(t, s).value == 0
  {
    if IsFixed32(t) {
      FixedParsed(t, 4, s);
    } else if IsFixed64(t) {
      FixedParsed(t, 8, s);
    } else {
      VarintsParsed(t, s);
    }
  }

  /** A payload that cannot be counted cannot be parsed. */
  lemma UncountableFails(t: FieldType, s: seq<byte>)
    requires PackedCount(t, s).None?
    ensures ParsePacked(t, s).None?
  {
    if ParsePacked(t, s).Some? { PackedCountCovers(t, s); }
  }

  // ---- Reading one word -----------------------------------------------------------------------

  /** parse_uint64: the loop ors seven bits at a time into the word; what passes its end is lost. */
  method ReadUint64(s: seq<byte>) returns (rv: u64)
    requires 1 <= |s| <= 10
    ensures rv == ParseUint64(s)
  {
    if |s| < 5 {
      ParseUint32Short(s);
      return ParseUint32(s);
    }
    rv := 0;
    var weight: nat := 1; // weight is 1 << shift
    for i := 0 to |s|
      invariant weight == Pow128(i)
      invariant rv == Groups(s[..i]) % TWO_TO_THE_64
    {
      hide Groups;
      GroupsSnoc(s, i);
      AddModulo(Groups(s[..i]), Low7(s[i]) * weight);
      rv := (rv + Low7(s[i]) * weight) % TWO_TO_THE_64;
      weight := weight * 128;
    }
    assert s[..|s|] == s;
  }

  lemma AddModulo(a: nat, b: nat)
    ensures (a % TWO_TO_THE_64 + b) % TWO_TO_THE_64 == (a + b) % TWO_TO_THE_64
  {}

  /** parse_boolean */
  method ReadBoolean(s: seq<byte>) returns (b: bool)
    ensures b == ParseBoolean(s)
  {
    for i := 0 to |s|
      invariant forall k :: 0 <= k < i ==> s[k] % 128 == 0
    {
      if s[i] % 128 != 0 {
        return true;
      }
    }
    return false;
  }
}

/** The bitmap in which unpacking marks the required fields it has seen. */
module Bitmap {
  /** REQUIRED_FIELD_BITMAP_IS_SET */
  predicate IsSet(bitmap: seq<bv8>, index: nat)
    requires index < 8 * |bitmap|
  {
    bitmap[index / 8] & Mask(index % 8) != 0
  }

  /** 1UL << k */
  function Mask(k: nat): bv8
    requires k < 8
  {
    1 << k
  }

  lemma MaskIs()
    ensures Mask(0) == 0x01 && Mask(1) == 0x02 && Mask(2) == 0x04 && Mask(3) == 0x08
    ensures Mask(4) == 0x10 && Mask(5) == 0x20 && Mask(6) == 0x40 && Mask(7) == 0x80
  {}

  lemma OrMask(b: bv8, k: nat, j: nat)
    requires k < 8 && j < 8
    ensures (b | Mask(k)) & Mask(j) != 0 <==> j == k || b & Mask(j) != 0
  {
    MaskIs();
    assert Mask(k) & Mask(j) == if j == k then Mask(j) else 0;
    OrAnd(b, Mask(k), Mask(j));
  }

  lemma OrAnd(b: bv8, x: bv8, y: bv8)
    requires y != 0 && (x & y == y || x & y == 0)
    ensures (b | x) & y != 0 <==> x & y == y || b & y != 0
  {}

  /** REQUIRED_FIELD_BITMAP_SET: one bit is set, the others stay. */
  method Set(bitmap: array<bv8>, index: nat)
    requires index < 8 * bitmap.Length
    modifies bitmap
    ensures forall j :: 0 <= j < 8 * bitmap.Length ==> (IsSet(bitmap[..], j) <==> j == index || IsSet(old(bitmap[..]), j))
  {
    bitmap[index / 8] := bitmap[index / 8] | Mask(index % 8);
    forall j | 0 <= j < 8 * bitmap.Length
      ensures IsSet(bitmap[..], j) <==> j == index || IsSet(old(bitmap[..]), j)
    {
      if j / 8 == index / 8 {
        OrMask(old(bitmap[index / 8]), index % 8, j % 8);
        assert j % 8 == index % 8 <==> j == index;
      }
    }
  }
}

/**
 What the first pass of unpacking leaves for the second: the scanned members, in slabs of which each
 is twice as large as the one before, and the bitmap of the required fields that were seen.
 */
module Slabs {
  import opened Bytes
  import opened Parsing
  import opened Heap

  /** A scanned member; `field` is the index of its field or -1, `at` the offset of its data. */
  datatype ScannedMember = ScannedMember(tag: u32, wireType: nat, prefixLen: nat, field: int, len: nat, at: nat)

  /** MAX_SCANNED_MEMBER_SLAB: 31 bits less those of the member size and of the first slab. */
  const MAX_SLAB := 32 - 1 - 5 - 4

  function SlabSize(k: nat): (n: nat)
    ensures n >= 16
  {
    if k == 0 then 16 else 2 * SlabSize(k - 1)
  }

  /** The number of entries in the slabs before slab `k`. */
  function Before(k: nat): nat {
    if k == 0 then 0 else Before(k - 1) + SlabSize(k - 1)
  }

  lemma {:induction false} BeforeIs(k: nat)
    ensures Before(k) == SlabSize(k) - 16
  {
    if k > 0 { BeforeIs(k - 1); }
  }

  lemma {:induction false} BeforeMonotone(i: nat, j: nat)
    requires i < j
    ensures Before(i) + SlabSize(i) <= Before(j)
  {
    if i + 1 < j { BeforeMonotone(i, j - 1); }
  }

  /** All slabs together hold as many members as a message may have. */
  lemma AllSlabsHold(n: nat)
    requires n == MAX_SLAB + 1
    ensures Before(n) == MAX_MEMBERS
  {
    BeforeIs(n);
    hide SlabSize, Before;
    SizeFourOn(n - 4);
    SizeFourOn(n - 8);
    SizeFourOn(n - 12);
    SizeFourOn(n - 16);
    SizeFourOn(n - 20);
    SizeFourOn(n - 23);
    FirstSize(n - 23);
  }

  lemma FirstSize(k: nat)
    requires k == 0
    ensures SlabSize(k) == 16
  {}

  lemma BeforeNext(k: nat)
    ensures Before(k + 1) == Before(k) + SlabSize(k)
  {}

  lemma SizeFourOn(k: nat)
    ensures SlabSize(k + 4) == 16 * SlabSize(k)
    ensures SlabSize(k + 3) == 8 * SlabSize(k)
  {
    assert SlabSize(k + 2) == 4 * SlabSize(k);
    assert SlabSize(k + 4) == 4 * SlabSize(k + 2);
  }

  class MemberSlabs {
    /** scanned_member_slabs; the last one is being filled. */
    var slabs: seq<array<ScannedMember>>
    /** The heap blocks of all slabs but the first, which is on the stack. */
    var blocks: seq<Block>
    var inSlabIndex: nat
    ghost var members: seq<ScannedMember>

    /** The number of entries of slab `k` that are in use. */
    function Used(k: nat): nat
      reads this
    {
      if k + 1 == |slabs| then inSlabIndex else SlabSize(k)
    }

    /** Slab `k` holds the members from position Before(k) on. */
    ghost predicate Holds(k: nat)
      requires k < |slabs|
      reads this, slabs[k]
    {
      && slabs[k].Length == SlabSize(k)
      && Used(k) <= SlabSize(k)
      && Before(k) + Used(k) <= |members|
      && forall j :: 0 <= j < Used(k) ==> slabs[k][j] == members[Before(k) + j]
    }

    ghost predicate Valid()
      reads this, slabs
    {
      && 1 <= |slabs| <= MAX_SLAB + 1
      && |blocks| == |slabs| - 1
      && |members| == Before(|slabs| - 1) + inSlabIndex
      && (forall i, j :: 0 <= i < j < |slabs| ==> slabs[i] != slabs[j])
      && forall k :: 0 <= k < |slabs| ==> Holds(k)
    }

    /** There is room for MAX_MEMBERS members and no more. */
    lemma AtMost()
      requires Valid()
      ensures |members| <= MAX_MEMBERS
    {
      hide SlabSize, Before;
      assert Holds(|slabs| - 1);
      AllSlabsHold(MAX_SLAB + 1);
      BeforeNext(|slabs| - 1);
      if |slabs| - 1 < MAX_SLAB {
        BeforeMonotone(|slabs| - 1, MAX_SLAB + 1);
      }
    }

    constructor ()
      ensures Valid() && members == [] && blocks == []
      ensures fresh(slabs)
    {
      var first := new ScannedMember[16];
      slabs := [first];
      blocks := [];
      inSlabIndex := 0;
      members := [];
    }

    /** Adds a member; it fails when the last slab is full and another one is not to be had. */
    method Push(m: ScannedMember, alloc: Allocator, ghost rest: multiset<Block>) returns (ok: bool)
      requires Valid() && alloc.Valid() && alloc.live == rest + multiset(blocks)
      modifies this, slabs, alloc
      ensures Valid() && alloc.Valid() && alloc.live == rest + multiset(blocks)
      ensures alloc.refusals >= old(alloc.refusals)
      ensures members == old(members) + if ok then [m] else []
      ensures !ok ==> |members| == MAX_MEMBERS || alloc.refusals > old(alloc.refusals)
      ensures forall k :: 0 <= k < |slabs| ==> slabs[k] in old(slabs) || fresh(slabs[k])
    {
      hide SlabSize, Before;
      if inSlabIndex == SlabSize(|slabs| - 1) {
        ok := AddSlab(alloc, rest);
        if !ok {
          return;
        }
      }
      label Ready:
      assert Holds(|slabs| - 1);
      slabs[|slabs| - 1][inSlabIndex] := m;
      inSlabIndex := inSlabIndex + 1;
      members := members + [m];
      forall k | 0 <= k < |slabs|
        ensures Holds(k)
      {
        assert old@Ready(Holds(k));
        if k + 1 < |slabs| { BeforeMonotone(k, |slabs| - 1); }
      }
      ok := true;
    }

    /** Allocates the next slab. */
    method AddSlab(alloc: Allocator, ghost rest: multiset<Block>) returns (ok: bool)
      requires Valid() && alloc.Valid() && alloc.live == rest + multiset(blocks) && inSlabIndex == SlabSize(|slabs| - 1)
      modifies this, alloc
      ensures Valid() && alloc.Valid() && alloc.live == rest + multiset(blocks) && members == old(members)
      ensures alloc.refusals >= old(alloc.refusals)
      ensures ok ==> inSlabIndex == 0 && |slabs| == old(|slabs|) + 1 && slabs[..|slabs| - 1] == old(slabs)
                     && fresh(slabs[|slabs| - 1])
      ensures !ok ==> slabs == old(slabs) && (|members| == MAX_MEMBERS || alloc.refusals > old(alloc.refusals))
    {
      hide SlabSize, Before;
      var which := |slabs| - 1;
      BeforeNext(which);
      if which == MAX_SLAB {
        AllSlabsHold(which + 1);
        return false; // too many fields
      }
      var block := alloc.Alloc();
      if block.None? {
        return false;
      }
      var slab := new ScannedMember[SlabSize(which + 1)];
      label Ready:
      ghost var before := slabs;
      slabs := slabs + [slab];
      assert multiset(blocks + [block.value]) == multiset(blocks) + multiset{block.value};
      blocks := blocks + [block.value];
      inSlabIndex := 0;
      forall k | 0 <= k < |slabs|
        ensures Holds(k)
      {
        if k <= which { assert old@Ready(Holds(k)) && slabs[k] == before[k]; }
      }
      ok := true;
    }

    /** Gives the slabs back. */
    method Release(alloc: Allocator, ghost rest: multiset<Block>)
      requires Valid() && alloc.Valid() && alloc.live == rest + multiset(blocks)
      modifies alloc
      ensures alloc.Valid() && alloc.live == rest && alloc.refusals == old(alloc.refusals)
    {
      assert blocks[0..] == blocks;
      for j := 0 to |blocks|
        invariant alloc.Valid() && alloc.live == rest + multiset(blocks[j..]) && alloc.refusals == old(alloc.refusals)
      {
        assert blocks[j..] == [blocks[j]] + blocks[j + 1..];
        alloc.Free(blocks[j]);
      }
    }
  }
}

/**
 The first pass of protobuf_c_message_unpack: it scans the members into slabs, finds their fields,
 counts the elements of repeated fields and marks the required fields that are there.
 */
module FirstPass {
  import opened Bytes
  import opened Schema
  import opened Wire
  import opened Scan
  import opened Parsing
  import opened MemberScan
  import opened FieldTables
  import opened Heap
  import opened Slabs
  import opened Bitmap

  // ---- What the first pass computes -----------------------------------------------------------

  /** How many elements of field `f` a member is given room for. */
  function Room(fields: seq<FieldDescriptor>, f: nat, mem: Member): nat
    requires f < |fields|
  {
    if FindField(fields, mem.tag) != f || fields[f].rule != REPEATED then 0
    else if IsPackedRun(fields[f], mem) then
      var n := PackedCount(fields[f].ty, Payload(mem));
      if n.Some? then n.value else 0
    else 1
  }

  /** How many elements of field `f` all members together are given room for. */
  function Reserved(fields: seq<FieldDescriptor>, f: nat, ms: seq<Member>): nat
    requires f < |fields|
  {
    if ms == [] then 0 else Reserved(fields, f, ms[..|ms| - 1]) + Room(fields, f, ms[|ms| - 1])
  }

  function Unknowns(fields: seq<FieldDescriptor>, ms: seq<Member>): nat {
    if ms == [] then 0
    else Unknowns(fields, ms[..|ms| - 1]) + (if FindField(fields, ms[|ms| - 1].tag) < 0 then 1 else 0)
  }

  /** A member whose packed elements, if it has such, can be counted. */
  predicate Countable(fields: seq<FieldDescriptor>, mem: Member) {
    var f := FindField(fields, mem.tag);
    f >= 0 && fields[f].rule == REPEATED && IsPackedRun(fields[f], mem) ==> PackedCount(fields[f].ty, Payload(mem)).Some?
  }

  ghost predicate AllCountable(fields: seq<FieldDescriptor>, ms: seq<Member>) {
    forall k :: 0 <= k < |ms| ==> Countable(fields, ms[k])
  }

  lemma {:induction false} ReservedMonotone(fields: seq<FieldDescriptor>, f: nat, ms: seq<Member>, n: nat)
    requires f < |fields| && n <= |ms|
    ensures Reserved(fields, f, ms[..n]) <= Reserved(fields, f, ms)
  {
    hide Room;
    if n < |ms| {
      ReservedMonotone(fields, f, ms[..|ms| - 1], n);
      assert ms[..|ms| - 1][..n] == ms[..n];
    } else {
      assert ms[..n] == ms;
    }
  }

  lemma {:induction false} UnknownsMonotone(fields: seq<FieldDescriptor>, ms: seq<Member>, n: nat)
    requires n <= |ms|
    ensures Unknowns(fields, ms[..n]) <= Unknowns(fields, ms)
  {
    if n < |ms| {
      UnknownsMonotone(fields, ms[..|ms| - 1], n);
      assert ms[..|ms| - 1][..n] == ms[..n];
    } else {
      assert ms[..n] == ms;
    }
  }

  /** The counters after the members `ms`. */
  ghost predicate Tallied(fields: seq<FieldDescriptor>, ms: seq<Member>, counts: seq<nat>, bitmap: seq<bv8>, nUnknown: nat) {
    && |counts| == |fields| <= 8 * |bitmap|
    && (forall f :: 0 <= f < |fields| ==> counts[f] == Reserved(fields, f, ms))
    && (forall f :: 0 <= f < |fields| ==> (IsSet(bitmap, f) <==> fields[f].rule == REQUIRED && HasMember(ms, fields[f].id)))
    && nUnknown == Unknowns(fields, ms)
  }

  /** The scanned member stands for the member of the input. */
  ghost predicate Denotes(fields: seq<FieldDescriptor>, data: seq<byte>, sm: ScannedMember, mem: Member) {
    && 1 <= sm.at && 1 <= sm.len && sm.at + sm.len <= |data|
    && mem == Member(sm.tag, sm.wireType, data[sm.at..sm.at + sm.len])
    && sm.field == FindField(fields, sm.tag)
    && ScanBody(mem.wireType, mem.data) == Some(sm.len)
    && sm.prefixLen == (if sm.wireType == WIRE_PREFIXED then PrefixLen(mem.data) else 0)
  }

  ghost predicate AllDenote(fields: seq<FieldDescriptor>, data: seq<byte>, sms: seq<ScannedMember>, ms: seq<Member>) {
    |sms| == |ms| && forall k :: 0 <= k < |ms| ==> Denotes(fields, data, sms[k], ms[k])
  }

  /** The members before offset `at` are `ms`. */
  ghost predicate ScannedTo(data: seq<byte>, at: nat, ms: seq<Member>) {
    && at <= |data|
    && ScanAll(data) == match ScanAll(data[at..]) case None => None case Some(rest) => Some(ms + rest)
  }

  lemma ScanStarts(data: seq<byte>)
    ensures ScannedTo(data, 0, [])
  {
    assert data[0..] == data;
    if ScanAll(data).Some? { assert [] + ScanAll(data).value == ScanAll(data).value; }
  }

  lemma ScanAdvances(data: seq<byte>, at: nat, ms: seq<Member>)
    requires ScannedTo(data, at, ms) && at < |data|
    requires ScanMember(data[at..]).Some?
    ensures ScannedTo(data, at + ScanMember(data[at..]).value.used, ms + [ScanMember(data[at..]).value.mem])
  {
    hide ScanMember;
    var first := ScanMember(data[at..]).value;
    var next := at + first.used;
    assert data[at..][first.used..] == data[next..];
    if ScanAll(data[next..]).Some? {
      assert ms + ([first.mem] + ScanAll(data[next..]).value) == (ms + [first.mem]) + ScanAll(data[next..]).value;
    }
  }

  lemma ScanStops(sch: Schema, d: nat, data: seq<byte>, at: nat, ms: seq<Member>)
    requires ScannedTo(data, at, ms) && at < |data| && ScanMember(data[at..]).None?
    ensures Parse(sch, d, data).None?
  {
    hide ScanMember;
  }

  lemma TooMany(sch: Schema, d: nat, data: seq<byte>, at: nat, ms: seq<Member>)
    requires ScannedTo(data, at, ms) && |ms| > MAX_MEMBERS
    ensures Parse(sch, d, data).None?
  {}

  lemma {:induction false} FoldKeepsType(sch: Schema, ms: seq<Member>, m: Message)
    ensures Fold(sch, ms, m).Some? ==> Fold(sch, ms, m).value.desc == m.desc
  {
    if ms != [] {
      ApplyKeepsType(sch, ms[0], m);
      hide Apply;
      if Apply(sch, ms[0], m).Some? { FoldKeepsType(sch, ms[1..], Apply(sch, ms[0], m).value); }
    }
  }

  lemma ApplyKeepsType(sch: Schema, mem: Member, m: Message)
    ensures Apply(sch, mem, m).Some? ==> Apply(sch, mem, m).value.desc == m.desc
  {
    hide ParseValue, ParseElements;
  }

  /** If applying some member fails, then so does unpacking. */
  lemma ApplyFails(sch: Schema, d: nat, data: seq<byte>, ms: seq<Member>, mem: Member, rest: seq<Member>)
    requires ScanAll(data) == Some(ms + [mem] + rest)
    requires Fold(sch, ms, Init(sch, d)).Some? ==> Apply(sch, mem, Fold(sch, ms, Init(sch, d)).value).None?
    ensures Parse(sch, d, data).None?
  {
    hide Apply, Fold, ScanAll;
    var init := Init(sch, d);
    ParseFromIsFold(sch, data, init);
    FoldConcat(sch, ms + [mem], rest, init);
    FoldConcat(sch, ms, [mem], init);
    if Fold(sch, ms, init).Some? { FoldOne(sch, mem, Fold(sch, ms, init).value); }
  }

  lemma UncountableMember(sch: Schema, mem: Member, m: Message)
    requires !Countable(DescriptorOf(sch, m.desc).fields, mem)
    ensures Apply(sch, mem, m).None?
  {
    var fields := DescriptorOf(sch, m.desc).fields;
    UncountableFails(fields[FindField(fields, mem.tag)].ty, Payload(mem));
  }

  lemma Uncountable(sch: Schema, d: nat, data: seq<byte>, at: nat, ms: seq<Member>, mem: Member)
    requires ScannedTo(data, at, ms + [mem]) && !Countable(DescriptorOf(sch, d).fields, mem)
    ensures Parse(sch, d, data).None?
  {
    hide ScanAll, Countable, Apply, Fold;
    if ScanAll(data).Some? {
      FoldKeepsType(sch, ms, Init(sch, d));
      if Fold(sch, ms, Init(sch, d)).Some? { UncountableMember(sch, mem, Fold(sch, ms, Init(sch, d)).value); }
      ApplyFails(sch, d, data, ms, mem, ScanAll(data[at..]).value);
    } else {
      NoMembers(sch, d, data);
    }
  }

  lemma NoMembers(sch: Schema, d: nat, data: seq<byte>)
    requires ScanAll(data).None?
    ensures Parse(sch, d, data).None?
  {}

  // ---- Scanning one member --------------------------------------------------------------------

  /** The body of a member, by wire type; length 0 stands for an error. */
  method BodyLength(wireType: nat, s: seq<byte>) returns (len: nat, prefixLen: nat)
    ensures ScanBody(wireType, s) == if len == 0 then None else Some(len)
    ensures len != 0 ==> prefixLen == if wireType == WIRE_PREFIXED then PrefixLen(s) else 0
  {
    prefixLen := 0;
    if wireType == WIRE_VARINT {
      len := ScanVarint(s);
    } else if wireType == WIRE_64BIT {
      len := if |s| < 8 then 0 else 8;
    } else if wireType == WIRE_PREFIXED {
      len, prefixLen := ScanLengthPrefixedData(s);
    } else if wireType == WIRE_32BIT {
      len := if |s| < 4 then 0 else 4;
    } else {
      len := 0; // unsupported
    }
  }

  /**
   The loop body up to the slab: key, field and body. The last field that was found is tried before
   the table, and that makes no difference.
   */
  method ScanOne(sch: Schema, tables: seq<FieldTable>, d: nat, data: seq<byte>, at: nat, lastField: int)
    returns (ok: bool, sm: ScannedMember, lastField': int)
    requires ValidSchema(sch) && TablesFor(tables, sch) && d < |sch| && at < |data|
    requires -1 <= lastField < |sch[d].fields| && (lastField == -1 ==> sch[d].fields == [])
    ensures ok == ScanMember(data[at..]).Some?
    ensures ok ==> var first := ScanMember(data[at..]).value;
                   Denotes(sch[d].fields, data, sm, first.mem) && sm.at + sm.len == at + first.used <= |data|
    ensures ok && sm.field >= 0 ==> lastField' == sm.field
    ensures -1 <= lastField' < |sch[d].fields| && (lastField' == -1 ==> sch[d].fields == [])
  {
    hide ScanKey, ScanBody, ValidSchema, TablesFor;
    lastField' := lastField;
    var used, tag, wireType := ParseTagAndWiretype(data[at..]);
    if used == 0 {
      return false, ScannedMember(0, 0, 0, -1, 0, 0), lastField;
    }
    var field: int;
    if lastField == -1 || sch[d].fields[lastField].id != tag {
      field := FieldIndex(sch, tables, d, tag);
      if field >= 0 {
        lastField' := field;
      }
    } else {
      FieldIsFound(sch, d, lastField);
      field := lastField;
    }
    var body := data[at + used..];
    assert data[at..][used..] == body;
    var len, prefixLen := BodyLength(wireType, body);
    sm := ScannedMember(tag, wireType, prefixLen, field, len, at + used);
    if len == 0 {
      return false, sm, lastField';
    }
    assert body[..len] == data[at + used..at + used + len];
    BodyAlone(wireType, body);
    ok := true;
  }

  // ---- Counting -------------------------------------------------------------------------------

  lemma HasMemberSnoc(ms: seq<Member>, mem: Member, tag: u32)
    ensures HasMember(ms + [mem], tag) <==> HasMember(ms, tag) || mem.tag == tag
  {
    if HasMember(ms, tag) {
      var k :| 0 <= k < |ms| && ms[k].tag == tag;
      assert (ms + [mem])[k].tag == tag;
    }
    if mem.tag == tag { assert (ms + [mem])[|ms|].tag == tag; }
  }

  lemma TalliesSnoc(fields: seq<FieldDescriptor>, ms: seq<Member>, mem: Member)
    ensures forall f :: 0 <= f < |fields| ==> Reserved(fields, f, ms + [mem]) == Reserved(fields, f, ms) + Room(fields, f, mem)
    ensures Unknowns(fields, ms + [mem]) == Unknowns(fields, ms) + if FindField(fields, mem.tag) < 0 then 1 else 0
  {
    hide Room;
    assert (ms + [mem])[..|ms|] == ms;
  }

  /** How many elements a member adds to the repeated field that it belongs to. */
  method CountElements(fields: seq<FieldDescriptor>, data: seq<byte>, sm: ScannedMember, ghost mem: Member)
    returns (n: Option<nat>)
    requires Denotes(fields, data, sm, mem) && sm.field >= 0 && fields[sm.field].rule == REPEATED
    ensures n.Some? == Countable(fields, mem)
    ensures n.Some? ==> n.value == Room(fields, sm.field, mem)
  {
    hide ScanBody, PackedCount;
    var f := fields[sm.field];
    if sm.wireType == WIRE_PREFIXED && (f.packed || IsPackable(f.ty)) {
      PrefixInBody(mem);
      n := CountPackedElements(f.ty, data[sm.at + sm.prefixLen..sm.at + sm.len]);
      assert data[sm.at + sm.prefixLen..sm.at + sm.len] == Payload(mem);
    } else {
      n := Some(1);
    }
  }

  lemma PrefixInBody(mem: Member)
    requires mem.wireType == WIRE_PREFIXED && ScanBody(mem.wireType, mem.data) == Some(|mem.data|)
    ensures PrefixLen(mem.data) <= |mem.data|
  {}

  /** A member that is not of a repeated field can always be counted, and needs no room. */
  lemma NoRoomNeeded(fields: seq<FieldDescriptor>, mem: Member)
    requires var f := FindField(fields, mem.tag); f < 0 || fields[f].rule != REPEATED
    ensures Countable(fields, mem)
    ensures forall f :: 0 <= f < |fields| ==> Room(fields, f, mem) == 0
  {}

  lemma RoomElsewhere(fields: seq<FieldDescriptor>, mem: Member)
    ensures forall f :: 0 <= f < |fields| && f != FindField(fields, mem.tag) ==> Room(fields, f, mem) == 0
  {}

  /** The counting of one member: it fails when packed elements cannot be counted. */
  method Tally(sch: Schema, d: nat, data: seq<byte>, sm: ScannedMember, ghost ms: seq<Member>, ghost mem: Member,
               counts: array<nat>, bitmap: array<bv8>, nUnknown: nat)
    returns (ok: bool, nUnknown': nat)
    requires ValidSchema(sch) && d < |sch| && counts as object != bitmap as object
    requires Tallied(sch[d].fields, ms, counts[..], bitmap[..], nUnknown) && Denotes(sch[d].fields, data, sm, mem)
    modifies counts, bitmap
    ensures ok == Countable(sch[d].fields, mem)
    ensures ok ==> Tallied(sch[d].fields, ms + [mem], counts[..], bitmap[..], nUnknown')
  {
    hide ScanBody, ValidSchema, Countable, Room, IsSet, HasMember, Reserved, Unknowns;
    var fields := sch[d].fields;
    TalliesSnoc(fields, ms, mem);
    RoomElsewhere(fields, mem);
    ghost var counted, marked := counts[..], bitmap[..];
    nUnknown' := nUnknown;
    if sm.field < 0 {
      nUnknown' := nUnknown + 1;
      NoRoomNeeded(fields, mem);
    } else {
      if fields[sm.field].rule == REQUIRED {
        Set(bitmap, sm.field);
      }
      if fields[sm.field].rule == REPEATED {
        var n := CountElements(fields, data, sm, mem);
        if n.None? {
          return false, nUnknown';
        }
        counts[sm.field] := counts[sm.field] + n.value;
      } else {
        NoRoomNeeded(fields, mem);
      }
    }
    ghost var i := FindField(fields, mem.tag);
    assert i == sm.field;
    assert counts[..] == if i >= 0 && fields[i].rule == REPEATED then counted[i := counted[i] + Room(fields, i, mem)] else counted;
    assert forall f :: 0 <= f < |fields| ==>
      (IsSet(bitmap[..], f) <==> IsSet(marked, f) || (f == i && fields[f].rule == REQUIRED));
    CountsAdvance(fields, ms, mem, counted, counts[..]);
    MarksAdvance(sch, d, ms, mem, marked, bitmap[..]);
    ok := true;
  }

  lemma CountsAdvance(fields: seq<FieldDescriptor>, ms: seq<Member>, mem: Member, before: seq<nat>, after: seq<nat>)
    requires |before| == |after| == |fields|
    requires forall f :: 0 <= f < |fields| ==> before[f] == Reserved(fields, f, ms) && after[f] == before[f] + Room(fields, f, mem)
    ensures forall f :: 0 <= f < |fields| ==> after[f] == Reserved(fields, f, ms + [mem])
  {
    TalliesSnoc(fields, ms, mem);
  }

  lemma MarksAdvance(sch: Schema, d: nat, ms: seq<Member>, mem: Member, before: seq<bv8>, after: seq<bv8>)
    requires ValidSchema(sch) && d < |sch| && |sch[d].fields| <= 8 * |before| && |after| == |before|
    requires var fields := sch[d].fields; var i := FindField(fields, mem.tag);
             forall f :: 0 <= f < |fields| ==>
               && (IsSet(before, f) <==> fields[f].rule == REQUIRED && HasMember(ms, fields[f].id))
               && (IsSet(after, f) <==> IsSet(before, f) || (f == i && fields[f].rule == REQUIRED))
    ensures var fields := sch[d].fields;
            forall f :: 0 <= f < |fields| ==>
              (IsSet(after, f) <==> fields[f].rule == REQUIRED && HasMember(ms + [mem], fields[f].id))
  {
    var fields := sch[d].fields;
    hide IsSet, HasMember;
    forall f | 0 <= f < |fields|
      ensures IsSet(after, f) <==> fields[f].rule == REQUIRED && HasMember(ms + [mem], fields[f].id)
    {
      HasMemberSnoc(ms, mem, fields[f].id);
      FieldIsFound(sch, d, f);
      assert IsSet(after, f) <==> IsSet(before, f) || (f == FindField(fields, mem.tag) && fields[f].rule == REQUIRED);
    }
  }

  /** The scanning loop. The slabs belong to the caller also when it fails. */
  method ScanMembers(sch: Schema, tables: seq<FieldTable>, d: nat, data: seq<byte>,
                     counts: array<nat>, bitmap: array<bv8>, alloc: Allocator, ghost rest: multiset<Block>)
    returns (ok: bool, slabs: MemberSlabs, nUnknown: nat, ghost ms: seq<Member>)
    requires ValidSchema(sch) && TablesFor(tables, sch) && d < |sch|
    requires alloc.Valid() && alloc.live == rest && counts as object != bitmap as object
    requires Tallied(sch[d].fields, [], counts[..], bitmap[..], 0)
    modifies counts, bitmap, alloc
    ensures fresh(slabs) && fresh(slabs.slabs) && slabs.Valid()
    ensures alloc.Valid() && alloc.live == rest + multiset(slabs.blocks) && alloc.refusals >= old(alloc.refusals)
    ensures ok ==> ScanAll(data) == Some(ms) && |ms| <= MAX_MEMBERS
    ensures ok ==> AllDenote(sch[d].fields, data, slabs.members, ms)
    ensures ok ==> AllCountable(sch[d].fields, ms)
    ensures ok ==> Tallied(sch[d].fields, ms, counts[..], bitmap[..], nUnknown)
    ensures !ok ==> Parse(sch, d, data).None? || alloc.refusals > old(alloc.refusals)
  {
    hide ScanMember, ScanAll, Denotes, Tallied, ValidSchema, TablesFor, Parse, MemberSlabs.Valid, Allocator.Valid, Countable;
    slabs := new MemberSlabs();
    nUnknown, ms := 0, [];
    var at := 0;
    var lastField := if |sch[d].fields| == 0 then -1 else 0;
    ScanStarts(data);
    assert rest + multiset([]) == rest;
    while at < |data|
      invariant fresh(slabs) && fresh(slabs.slabs) && slabs.Valid()
      invariant alloc.Valid() && alloc.live == rest + multiset(slabs.blocks) && alloc.refusals >= old(alloc.refusals)
      invariant ScannedTo(data, at, ms) && AllDenote(sch[d].fields, data, slabs.members, ms)
      invariant Tallied(sch[d].fields, ms, counts[..], bitmap[..], nUnknown) && AllCountable(sch[d].fields, ms)
      invariant -1 <= lastField < |sch[d].fields| && (lastField == -1 ==> sch[d].fields == [])
      decreases |data| - at
    {
      var sm;
      ok, sm, lastField := ScanOne(sch, tables, d, data, at, lastField);
      if !ok {
        ScanStops(sch, d, data, at, ms);
        return;
      }
      ghost var mem := ScanMember(data[at..]).value.mem;
      ScanAdvances(data, at, ms);
      ok := slabs.Push(sm, alloc, rest);
      if !ok {
        if |slabs.members| == MAX_MEMBERS {
          TooMany(sch, d, data, sm.at + sm.len, ms + [mem]);
        }
        return;
      }
      ok, nUnknown := Tally(sch, d, data, sm, ms, mem, counts, bitmap, nUnknown);
      if !ok {
        Uncountable(sch, d, data, sm.at + sm.len, ms, mem);
        return;
      }
      ms := ms + [mem];
      at := sm.at + sm.len;
    }
    ScanEnds(data, ms);
    slabs.AtMost();
    ok := true;
  }

  lemma ScanEnds(data: seq<byte>, ms: seq<Member>)
    requires ScannedTo(data, |data|, ms)
    ensures ScanAll(data) == Some(ms)
  {
    assert data[|data|..] == [] && ms + [] == ms;
  }
}
