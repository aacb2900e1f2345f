/**
 The packers of protobuf-c.c that store one number, working in place on the output array, and the
 readers of numbers that loop. Each is proved against its function in Varints.
 */
module VarintPack {
  import opened Bytes
  import opened Varints
  import opened Wire

  method StoreByte(b: byte, out: array<byte>, at: nat)
    requires at < out.Length
    modifies out
    ensures Wrote(old(out[..]), out[..], at, [b])
  {
    out[at] := b;
    assert out[..] == old(out[..])[..at] + [b] + old(out[..])[at + 1..];
  }

  /** memcpy */
  method StoreBytes(s: seq<byte>, out: array<byte>, at: nat)
    requires at + |s| <= out.Length
    modifies out
    ensures Wrote(old(out[..]), out[..], at, s)
  {
    ghost var before := out[..];
    for i := 0 to |s|
      invariant out[..] == before[..at] + s[..i] + before[at + i..]
    {
      out[at + i] := s[i];
      assert out[..] == before[..at] + s[..i + 1] + before[at + i + 1..];
    }
    assert s[..|s|] == s;
  }

  /** memmove: as if through a temporary array. */
  method MoveBytes(out: array<byte>, to: nat, from: nat, n: nat)
    requires to + n <= out.Length && from + n <= out.Length
    modifies out
    ensures Wrote(old(out[..]), out[..], to, old(out[from..from + n]))
  {
    StoreBytes(out[from..from + n], out, to);
  }

  lemma VarintStep(v: nat)
    requires v >= 128
    ensures Varint(v) == [128 + v % 128] + Varint(v / 128)
  {}

  /** One more byte of a number is out, `value` remains. */
  lemma Advance(s0: seq<byte>, s1: seq<byte>, s2: seq<byte>, at: nat, written: seq<byte>, value: nat, whole: nat)
    requires value >= 128
    requires Wrote(s0, s1, at, written) && Wrote(s1, s2, at + |written|, [128 + value % 128])
    requires Varint(whole) == written + Varint(value)
    ensures Wrote(s0, s2, at, written + [128 + value % 128])
    ensures Varint(whole) == written + [128 + value % 128] + Varint(value / 128)
  {
    WroteThen(s0, s1, s2, at, written, [128 + value % 128]);
    VarintStep(value);
    assert written + ([128 + value % 128] + Varint(value / 128)) == written + [128 + value % 128] + Varint(value / 128);
  }

  /** The last byte of a number is out. */
  lemma Finish(s0: seq<byte>, s1: seq<byte>, s2: seq<byte>, at: nat, written: seq<byte>, value: nat, whole: nat)
    requires value < 128
    requires Wrote(s0, s1, at, written) && Wrote(s1, s2, at + |written|, [value])
    requires Varint(whole) == written + Varint(value)
    ensures Wrote(s0, s2, at, Varint(whole))
  {
    WroteThen(s0, s1, s2, at, written, [value]);
    assert Varint(value) == [value];
  }

  /** Where a packer stands: `written` is out, `rest` remains. */
  ghost predicate Progress(before: seq<byte>, now: seq<byte>, at: nat, written: seq<byte>, rest: nat, whole: nat) {
    Wrote(before, now, at, written) && Varint(whole) == written + Varint(rest)
  }

  /** One level of the nest of uint32_pack: store seven bits under a set top bit. */
  method StoreGroup(b: byte, out: array<byte>, at: nat, rv: nat,
                    ghost before: seq<byte>, ghost written: seq<byte>, ghost rest: nat, ghost whole: nat)
    requires rest >= 0x80 && b == 128 + rest % 128 && rv == |written| && |before| == out.Length >= at + |Varint(whole)|
    requires Progress(before, out[..], at, written, rest, whole)
    modifies out
    ensures Progress(before, out[..], at, written + [b], rest / 128, whole)
  {
    ghost var s1 := out[..];
    assert |Varint(rest)| > 0;
    StoreByte(b, out, at + rv);
    Advance(before, s1, out[..], at, written, rest, whole);
  }

  /** The byte that ends a number. */
  method StoreLast(rest: nat, out: array<byte>, at: nat, rv: nat,
                   ghost before: seq<byte>, ghost written: seq<byte>, ghost whole: nat)
    requires rest < 0x80 && rv == |written| && |before| == out.Length >= at + |Varint(whole)|
    requires Progress(before, out[..], at, written, rest, whole)
    modifies out
    ensures Wrote(before, out[..], at, Varint(whole))
    ensures |Varint(whole)| == rv + 1
  {
    ghost var s1 := out[..];
    assert Varint(rest) == [rest];
    StoreByte(rest, out, at + rv);
    Finish(before, s1, out[..], at, written, rest, whole);
  }

  lemma Begin(s: seq<byte>, at: nat, whole: nat)
    requires at <= |s|
    ensures Progress(s, s, at, [], whole, whole)
  {
    WroteNothing(s, at);
    assert [] + Varint(whole) == Varint(whole);
  }

  method Uint32Pack(value: u32, out: array<byte>, at: nat) returns (rv: nat)
    requires at + |Varint(value)| <= out.Length
    modifies out
    ensures rv == |Varint(value)|
    ensures Wrote(old(out[..]), out[..], at, Varint(value))
  {
    ghost var s0 := out[..];
    ghost var written: seq<byte> := [];
    var v: nat := value;
    rv := 0;
    Begin(s0, at, value);
    hide Varint, Wrote, Progress;
    if v >= 0x80 {
      StoreGroup(128 + v % 128, out, at, rv, s0, written, v, value);
      written, v, rv := written + [128 + v % 128], v / 128, rv + 1;
      if v >= 0x80 {
        StoreGroup(128 + v % 128, out, at, rv, s0, written, v, value);
        written, v, rv := written + [128 + v % 128], v / 128, rv + 1;
        if v >= 0x80 {
          StoreGroup(128 + v % 128, out, at, rv, s0, written, v, value);
          written, v, rv := written + [128 + v % 128], v / 128, rv + 1;
          if v >= 0x80 {
            StoreGroup(128 + v % 128, out, at, rv, s0, written, v, value);
            written, v, rv := written + [128 + v % 128], v / 128, rv + 1;
          }
        }
      }
    }
    StoreLast(v, out, at, rv, s0, written, value);
    rv := rv + 1;
  }

  /** Taking one group off a number of which all but `lo` is a multiple of 128. */
  lemma GroupOff(v: nat, k: nat, lo: nat)
    requires v == 128 * k + lo
    ensures v % 128 == lo % 128 && v / 128 == k + lo / 128
  {}

  lemma LowGroups(lo: u32)
    ensures lo / 128 / 128 == lo / 0x4000
    ensures lo / 128 / 128 / 128 == lo / 0x20_0000
    ensures lo / 128 / 128 / 128 / 128 == lo / 0x1000_0000
  {}

  /** The low four groups of a 64-bit number are those of its low word. */
  lemma SplitWords(hi: u32, lo: u32, value: u64)
    requires value == hi * TWO_TO_THE_32 + lo
    ensures value % 128 == lo % 128
    ensures value / 128 % 128 == lo / 0x80 % 128
    ensures value / 128 / 128 % 128 == lo / 0x4000 % 128
    ensures value / 128 / 128 / 128 % 128 == lo / 0x20_0000 % 128
    ensures value / 128 / 128 / 128 / 128 == hi * 16 + lo / 0x1000_0000
  {
    LowGroups(lo);
    GroupOff(value, hi * 0x200_0000, lo);
    GroupOff(value / 128, hi * 0x4_0000, lo / 128);
    GroupOff(value / 128 / 128, hi * 0x800, lo / 128 / 128);
    GroupOff(value / 128 / 128 / 128, hi * 16, lo / 128 / 128 / 128);
  }

  /** The first four bytes of uint64_pack and of int32_pack, taken from the low word. */
  method StoreLowWord(lo: u32, out: array<byte>, at: nat, ghost hi: u32, ghost value: u64) returns (ghost written: seq<byte>)
    requires value == hi * TWO_TO_THE_32 + lo && hi > 0
    requires at + |Varint(value)| <= out.Length
    modifies out
    ensures |written| == 4
    ensures Progress(old(out[..]), out[..], at, written, hi * 16 + lo / 0x1000_0000, value)
  {
    ghost var s0 := out[..];
    SplitWords(hi, lo, value);
    Begin(s0, at, value);
    ghost var v1, v2, v3 := value / 128, value / 128 / 128, value / 128 / 128 / 128;
    assert v3 >= 0x80 && v2 >= 0x80 && v1 >= 0x80;
    hide Varint, Wrote, Progress;
    var b0: byte, b1: byte := 128 + lo % 128, 128 + lo / 0x80 % 128;
    var b2: byte, b3: byte := 128 + lo / 0x4000 % 128, 128 + lo / 0x20_0000 % 128;
    StoreGroup(b0, out, at, 0, s0, [], value, value);
    assert [] + [b0] == [b0];
    StoreGroup(b1, out, at, 1, s0, [b0], v1, value);
    assert [b0] + [b1] == [b0, b1];
    StoreGroup(b2, out, at, 2, s0, [b0, b1], v2, value);
    assert [b0, b1] + [b2] == [b0, b1, b2];
    StoreGroup(b3, out, at, 3, s0, [b0, b1, b2], v3, value);
    written := [b0, b1, b2] + [b3];
  }

  method Uint64Pack(value: u64, out: array<byte>, at: nat) returns (rv: nat)
    requires at + |Varint(value)| <= out.Length
    modifies out
    ensures rv == |Varint(value)|
    ensures Wrote(old(out[..]), out[..], at, Varint(value))
  {
    hide Varint, Wrote, Progress;
    ghost var s0 := out[..];
    var hi: u32, lo: u32 := value / TWO_TO_THE_32, value % TWO_TO_THE_32;
    if hi == 0 {
      rv := Uint32Pack(lo, out, at);
      return;
    }
    ghost var written: seq<byte> := StoreLowWord(lo, out, at, hi, value);
    if hi < 8 {
      StoreLast(hi * 16 + lo / 0x1000_0000, out, at, 4, s0, written, value);
      return 5;
    }
    StoreGroup(hi % 8 * 16 + lo / 0x1000_0000 + 128, out, at, 4, s0, written, hi * 16 + lo / 0x1000_0000, value);
    written := written + [hi % 8 * 16 + lo / 0x1000_0000 + 128];
    hi := hi / 8;
    rv := 5;
    while hi >= 128
      invariant rv == |written|
      invariant Progress(s0, out[..], at, written, hi, value)
    {
      StoreGroup(128 + hi % 128, out, at, rv, s0, written, hi, value);
      written := written + [128 + hi % 128];
      hi, rv := hi / 128, rv + 1;
    }
    StoreLast(hi, out, at, rv, s0, written, value);
    rv := rv + 1;
  }

  /** int32_pack: a negative value is stored as ten bytes, five of them constant. */
  method Int32Pack(value: u32, out: array<byte>, at: nat) returns (rv: nat)
    requires at + |Varint(SignExtend(value))| <= out.Length
    modifies out
    ensures rv == |Varint(SignExtend(value))|
    ensures Wrote(old(out[..]), out[..], at, Varint(SignExtend(value)))
  {
    if ToInt32(value) < 0 {
      ghost var s0, whole := out[..], SignExtend(value);
      assert whole == 0xFFFF_FFFF * TWO_TO_THE_32 + value;
      hide Varint, Wrote, Progress;
      ghost var written: seq<byte> := StoreLowWord(value, out, at, 0xFFFF_FFFF, whole);
      var b: byte := 0xF0 + value / 0x1000_0000;
      StoreGroup(b, out, at, 4, s0, written, 0xFFFF_FFFF * 16 + value / 0x1000_0000, whole);
      written := written + [b];
      StoreGroup(0xFF, out, at, 5, s0, written, 0x1FFF_FFFF, whole);
      written := written + [0xFF];
      StoreGroup(0xFF, out, at, 6, s0, written, 0x3F_FFFF, whole);
      written := written + [0xFF];
      StoreGroup(0xFF, out, at, 7, s0, written, 0x7FFF, whole);
      written := written + [0xFF];
      StoreGroup(0xFF, out, at, 8, s0, written, 0xFF, whole);
      written := written + [0xFF];
      StoreLast(0x01, out, at, 9, s0, written, whole);
      return 10;
    } else {
      rv := Uint32Pack(value, out, at);
    }
  }
}

/** protobuf_c_message_pack: the serializer that works in place on an array the caller has sized. */
module Pack {
  import opened Bytes
  import opened Varints
  import opened VarintPack
  import opened Schema
  import opened Wire
  import opened Scalars
  import opened Canonical

  // ---- Keys -----------------------------------------------------------------------------------

  method TagPack(id: u32, out: array<byte>, at: nat) returns (rv: nat)
    requires at + |Varint(id * 8)| <= out.Length
    modifies out
    ensures rv == |Varint(id * 8)|
    ensures Wrote(old(out[..]), out[..], at, Varint(id * 8))
  {
    if id < 0x2000_0000 {
      rv := Uint32Pack(id * 8, out, at);
    } else {
      rv := Uint64Pack(id * 8, out, at);
    }
  }

  /** Or-ing a wire type into the first byte of a packed tag makes it the key of a member. */
  lemma KeyFromTag(id: u32, wireType: nat)
    requires wireType < 8
    ensures Varint(id * 8)[0] + wireType < 256
    ensures Key(id, wireType) == [Varint(id * 8)[0] + wireType] + Varint(id * 8)[1..]
  {
    var v := id * 8;
    if v >= 128 {
      assert (v + wireType) / 128 == v / 128;
      assert v % 128 == 8 * (id % 16);
    }
  }

  /** tag_pack, then the wire type or-ed into the first byte. */
  method KeyPack(id: u32, wireType: nat, out: array<byte>, at: nat) returns (rv: nat)
    requires wireType < 8 && at + |Key(id, wireType)| <= out.Length
    modifies out
    ensures rv == |Key(id, wireType)|
    ensures Wrote(old(out[..]), out[..], at, Key(id, wireType))
  {
    KeyFromTag(id, wireType);
    rv := TagPack(id, out, at);
    assert out[at] == Varint(id * 8)[0];
    out[at] := out[at] + wireType;
    assert out[..] == old(out[..])[..at] + Key(id, wireType) + old(out[..])[at + rv..];
  }

  // ---- Values ---------------------------------------------------------------------------------

  method ScalarPack(t: FieldType, w: u64, out: array<byte>, at: nat) returns (rv: nat)
    requires at + |EncodeScalar(t, w)| <= out.Length
    modifies out
    ensures rv == |EncodeScalar(t, w)|
    ensures Wrote(old(out[..]), out[..], at, EncodeScalar(t, w))
  {
    match t
    case SINT32 => rv := Uint32Pack(ZigZag32(Low32(w)), out, at);
    case INT32 | ENUM => rv := Int32Pack(Low32(w), out, at);
    case UINT32 => rv := Uint32Pack(Low32(w), out, at);
    case SINT64 => rv := Uint64Pack(ZigZag64(w), out, at);
    case INT64 | UINT64 => rv := Uint64Pack(w, out, at);
    case SFIXED32 | FIXED32 | FLOAT => StoreBytes(Fixed32(Low32(w)), out, at); rv := 4;
    case SFIXED64 | FIXED64 | DOUBLE => StoreBytes(Fixed64(w), out, at); rv := 8;
    case BOOL => StoreByte(if Low32(w) != 0 then 1 else 0, out, at); rv := 1;
    case STRING | BYTES | MESSAGE => WroteNothing(out[..], at); rv := 0;
  }

  /** string_pack and binary_data_pack */
  method PrefixedPack(s: seq<byte>, out: array<byte>, at: nat) returns (rv: nat)
    requires |s| < TWO_TO_THE_32 && at + |Prefixed(s)| <= out.Length
    modifies out
    ensures rv == |Prefixed(s)|
    ensures Wrote(old(out[..]), out[..], at, Prefixed(s))
  {
    hide Varint;
    ghost var s0 := out[..];
    rv := Uint32Pack(|s|, out, at);
    ghost var s1 := out[..];
    StoreBytes(s, out, at + rv);
    WroteThen(s0, s1, out[..], at, Varint(|s|), s);
    rv := rv + |s|;
  }

  // ---- Lengths put in afterwards --------------------------------------------------------------

  /** A payload stored `guess` bytes on, moved to `size` bytes on, and its length stored before it. */
  lemma Patched(before: seq<byte>, s1: seq<byte>, s2: seq<byte>, s3: seq<byte>,
                at: nat, guess: nat, prefix: seq<byte>, payload: seq<byte>)
    requires guess <= |prefix|
    requires Wrote(before, s1, at + guess, payload)
    requires Wrote(s1, s2, at + |prefix|, payload)
    requires Wrote(s2, s3, at, prefix)
    ensures Wrote(before, s3, at, prefix + payload)
  {
    hide Wrote;
    var whole := prefix + payload;
    WroteBytewise(before, s1, at + guess, payload);
    WroteBytewise(s1, s2, at + |prefix|, payload);
    WroteBytewise(s2, s3, at, prefix);
    WroteBytewise(before, s3, at, whole);
  }

  lemma StoredAt(before: seq<byte>, after: seq<byte>, at: nat, data: seq<byte>)
    requires Wrote(before, after, at, data)
    ensures |after| == |before| && after[at..at + |data|] == data
  {}

  lemma StoredTwice(before: seq<byte>, after: seq<byte>, at: nat, data: seq<byte>)
    requires Wrote(before, after, at, data)
    ensures Wrote(after, after, at, data)
  {
    WroteBytewise(before, after, at, data);
    WroteBytewise(after, after, at, data);
  }

  /**
   The ends of prefixed_message_pack and of repeated_field_pack: a payload of `n` bytes stands
   `guess` bytes after `at`; if its length takes another number of bytes it is moved, and then the
   length is stored.
   */
  method PatchLength(n: nat, guess: nat, out: array<byte>, at: nat, ghost before: seq<byte>, ghost payload: seq<byte>)
    returns (rv: nat)
    requires n == |payload| < TWO_TO_THE_32 && |before| == out.Length && at + |Prefixed(payload)| <= out.Length
    requires guess <= |Varint(n)|
    requires Wrote(before, out[..], at + guess, payload)
    modifies out
    ensures rv == |Prefixed(payload)|
    ensures Wrote(before, out[..], at, Prefixed(payload))
  {
    hide Varint, Wrote;
    ghost var s1 := out[..];
    Uint32SizeIsLength(n);
    var size := Uint32Size(n);
    if size != guess {
      StoredAt(before, s1, at + guess, payload);
      assert out[at + guess..at + guess + n] == s1[at + guess..at + guess + n];
      MoveBytes(out, at + size, at + guess, n);
    } else {
      StoredTwice(before, s1, at + size, payload);
    }
    ghost var s2 := out[..];
    var len := Uint32Pack(n, out, at);
    Patched(before, s1, s2, out[..], at, guess, Varint(n), payload);
    rv := len + n;
  }

  // ---- Packed payloads ------------------------------------------------------------------------

  /** get_type_min_size */
  function MinSize(t: FieldType): nat {
    if IsFixed32(t) then 4 else if IsFixed64(t) then 8 else 1
  }

  lemma ScalarBounds(t: FieldType, w: u64)
    requires IsPackable(t)
    ensures MinSize(t) <= |EncodeScalar(t, w)| <= 10 * MinSize(t)
  {
    hide Varint;
    match t
    case SINT32 => VarintAtMostTen(ZigZag32(Low32(w)));
    case INT32 | ENUM => VarintAtMostTen(SignExtend(Low32(w)));
    case UINT32 => VarintAtMostTen(Low32(w));
    case SINT64 => VarintAtMostTen(ZigZag64(w));
    case INT64 | UINT64 => VarintAtMostTen(w);
    case _ =>
  }

  lemma {:induction false} PayloadBounds(t: FieldType, vs: seq<Value>)
    requires IsPackable(t) && AllWords(vs)
    ensures MinSize(t) * |vs| <= |PackedPayload(t, vs)| <= 10 * (MinSize(t) * |vs|)
  {
    hide EncodeScalar;
    if vs != [] {
      var n := |vs| - 1;
      PayloadBounds(t, vs[..n]);
      ScalarBounds(t, vs[n].w);
      assert MinSize(t) * |vs| == MinSize(t) * n + MinSize(t);
    }
  }

  /** A number at most ten times another needs at most one group more, since 10 < 128. */
  lemma WidthsAreClose(min: u32, len: u32)
    requires 1 <= min <= len <= 10 * min
    ensures Uint32Size(len) == |Varint(len)|
    ensures Uint32Size(len) == Uint32Size(min) || Uint32Size(len) == Uint32Size(min) + 1
  {
    hide Varint, Uint32Size;
    Uint32SizeIsLength(min);
    Uint32SizeIsLength(len);
    VarintLengthMonotone(min, len);
    VarintLengthMonotone(len, 128 * min);
    VarintStep(128 * min);
  }

  /**
   The width guessed for the length of a packed payload from the number of its elements is the
   final width or one byte short of it.
   */
  lemma GuessIsClose(t: FieldType, vs: seq<Value>)
    requires IsPackable(t) && AllWords(vs) && vs != [] && |PackedPayload(t, vs)| < TWO_TO_THE_32
    ensures 1 <= MinSize(t) * |vs| < TWO_TO_THE_32
    ensures var guess := Uint32Size(MinSize(t) * |vs|);
            var actual := Uint32Size(|PackedPayload(t, vs)|);
            actual == |Varint(|PackedPayload(t, vs)|)| && (actual == guess || actual == guess + 1)
  {
    hide Varint, Uint32Size, PackedPayload;
    PayloadBounds(t, vs);
    var min, len := MinSize(t) * |vs|, |PackedPayload(t, vs)|;
    assert min >= 1;
    hide MinSize;
    WidthsAreClose(min, len);
  }

  /** The loops of repeated_field_pack over the elements of a packed field. */
  method PayloadPack(t: FieldType, vs: seq<Value>, out: array<byte>, at: nat) returns (rv: nat)
    requires AllWords(vs) && at + |PackedPayload(t, vs)| <= out.Length
    modifies out
    ensures rv == |PackedPayload(t, vs)|
    ensures Wrote(old(out[..]), out[..], at, PackedPayload(t, vs))
  {
    hide EncodeScalar, Wrote;
    ghost var s0 := out[..];
    rv := 0;
    WroteNothing(s0, at);
    for i := 0 to |vs|
      invariant rv == |PackedPayload(t, vs[..i])|
      invariant Wrote(s0, out[..], at, PackedPayload(t, vs[..i]))
    {
      ghost var s1 := out[..];
      PayloadPrefix(t, vs, i);
      var n := ScalarPack(t, vs[i].w, out, at + rv);
      WroteThen(s0, s1, out[..], at, PackedPayload(t, vs[..i]), EncodeScalar(t, vs[i].w));
      rv := rv + n;
    }
    assert vs[..|vs|] == vs;
  }

  lemma {:induction false} PayloadPrefix(t: FieldType, vs: seq<Value>, i: nat)
    requires AllWords(vs) && i < |vs|
    ensures PackedPayload(t, vs[..i + 1]) == PackedPayload(t, vs[..i]) + EncodeScalar(t, vs[i].w)
    ensures |PackedPayload(t, vs[..i + 1])| <= |PackedPayload(t, vs)|
  {
    hide EncodeScalar;
    assert vs[..i + 1][..i] == vs[..i];
    if i < |vs| - 1 {
      PayloadPrefix(t, vs[..|vs| - 1], i);
      assert vs[..|vs| - 1][..i + 1] == vs[..i + 1];
    } else {
      assert vs[..i + 1] == vs;
    }
  }

  // ---- Fields ---------------------------------------------------------------------------------

  /** The body that required_field_pack stores after the key. */
  method ValuePack(sch: Schema, f: FieldDescriptor, v: Value, out: array<byte>, at: nat) returns (rv: nat)
    requires ValidSchema(sch) && WellFormedValue(sch, f, v)
    requires |EncodeValue(sch, f, v)| <= INT_MAX && at + |EncodeValue(sch, f, v)| <= out.Length
    modifies out
    ensures rv == |EncodeValue(sch, f, v)|
    ensures Wrote(old(out[..]), out[..], at, EncodeValue(sch, f, v))
    decreases v, 0
  {
    hide EncodeScalar, Wrote, Varint, Encode, WellFormed;
    match v
    case Word(w) => rv := ScalarPack(f.ty, w, out, at);
    case Text(p) =>
      if p == Null {
        EmptyRecord();
        StoreByte(0, out, at);
        rv := 1;
      } else {
        rv := PrefixedPack(CString(Content(f, p)), out, at);
      }
    case Blob(p) => rv := PrefixedPack(Content(f, p), out, at);
    case NoMsg =>
      EmptyRecord();
      StoreByte(0, out, at);
      rv := 1;
    case Msg(m) =>
      ghost var s0 := out[..];
      PrefixAtLeastOne(|Encode(sch, m)|);
      var n := MessagePack(sch, m, out, at + 1);
      rv := PatchLength(n, 1, out, at, s0, Encode(sch, m));
  }

  lemma EmptyRecord()
    ensures Prefixed([]) == [0]
  {
    assert Varint(0) == [0];
  }

  lemma PrefixAtLeastOne(n: nat)
    ensures |Varint(n)| >= 1
  {}

  method RequiredFieldPack(sch: Schema, f: FieldDescriptor, v: Value, out: array<byte>, at: nat) returns (rv: nat)
    requires ValidSchema(sch) && WellFormedValue(sch, f, v)
    requires |EncodeValue(sch, f, v)| <= INT_MAX && at + |Serialize(ValueMember(sch, f, v))| <= out.Length
    modifies out
    ensures rv == |Serialize(ValueMember(sch, f, v))|
    ensures Wrote(old(out[..]), out[..], at, Serialize(ValueMember(sch, f, v)))
    decreases v, 1
  {
    hide EncodeValue, Wrote, Key, ValidSchema, WellFormedValue, Encode;
    ghost var s0 := out[..];
    rv := KeyPack(f.id, WireTypeOf(f.ty), out, at);
    ghost var s1 := out[..];
    var n := ValuePack(sch, f, v, out, at + rv);
    WroteThen(s0, s1, out[..], at, Key(f.id, WireTypeOf(f.ty)), EncodeValue(sch, f, v));
    rv := rv + n;
  }

  /** The length-delimited part of the packed branch of repeated_field_pack. */
  method PackedBodyPack(t: FieldType, vs: seq<Value>, out: array<byte>, at: nat) returns (rv: nat)
    requires IsPackable(t) && AllWords(vs) && vs != [] && |PackedPayload(t, vs)| <= INT_MAX
    requires at + |Prefixed(PackedPayload(t, vs))| <= out.Length
    modifies out
    ensures rv == |Prefixed(PackedPayload(t, vs))|
    ensures Wrote(old(out[..]), out[..], at, Prefixed(PackedPayload(t, vs)))
  {
    ghost var payload, s0 := PackedPayload(t, vs), out[..];
    GuessIsClose(t, vs);
    hide PackedPayload, Wrote, Varint, MinSize, Uint32Size;
    var guess := Uint32Size(MinSize(t) * |vs|);
    var payloadLen := PayloadPack(t, vs, out, at + guess);
    var actual := Uint32Size(payloadLen);
    if actual != guess {
      assert actual == guess + 1; // asserted by the source too
    }
    rv := PatchLength(payloadLen, guess, out, at, s0, payload);
  }

  method PackedFieldPack(f: FieldDescriptor, vs: seq<Value>, out: array<byte>, at: nat) returns (rv: nat)
    requires IsPackable(f.ty) && AllWords(vs) && vs != [] && |PackedPayload(f.ty, vs)| <= INT_MAX
    requires at + |Serialize(Member(f.id, WIRE_PREFIXED, Prefixed(PackedPayload(f.ty, vs))))| <= out.Length
    modifies out
    ensures rv == |Serialize(Member(f.id, WIRE_PREFIXED, Prefixed(PackedPayload(f.ty, vs))))|
    ensures Wrote(old(out[..]), out[..], at, Serialize(Member(f.id, WIRE_PREFIXED, Prefixed(PackedPayload(f.ty, vs)))))
  {
    hide PackedPayload, Wrote, Key, Prefixed;
    ghost var s0 := out[..];
    rv := KeyPack(f.id, WIRE_PREFIXED, out, at);
    ghost var s1 := out[..];
    var n := PackedBodyPack(f.ty, vs, out, at + rv);
    WroteThen(s0, s1, out[..], at, Key(f.id, WIRE_PREFIXED), Prefixed(PackedPayload(f.ty, vs)));
    rv := rv + n;
  }

  /** The members of the first elements are the first members. */
  lemma {:induction false} ElementPrefix(sch: Schema, f: FieldDescriptor, vs: seq<Value>, i: nat)
    requires i <= |vs|
    ensures ElementMembers(sch, f, vs[..i]) == ElementMembers(sch, f, vs)[..i]
    ensures i < |vs| ==> ElementMembers(sch, f, vs)[i] == ValueMember(sch, f, vs[i])
  {
    hide ValueMember;
    if i < |vs| {
      ElementPrefix(sch, f, vs[..|vs| - 1], i);
      assert vs[..|vs| - 1][..i] == vs[..i];
    } else {
      assert vs[..i] == vs;
    }
  }

  /** The other branch of repeated_field_pack: one member for each element. */
  method UnpackedFieldPack(sch: Schema, f: FieldDescriptor, vs: seq<Value>, out: array<byte>, at: nat) returns (rv: nat)
    requires ValidSchema(sch) && forall i :: 0 <= i < |vs| ==> WellFormedValue(sch, f, vs[i])
    requires |SerializeAll(ElementMembers(sch, f, vs))| <= INT_MAX
    requires at + |SerializeAll(ElementMembers(sch, f, vs))| <= out.Length
    modifies out
    ensures rv == |SerializeAll(ElementMembers(sch, f, vs))|
    ensures Wrote(old(out[..]), out[..], at, SerializeAll(ElementMembers(sch, f, vs)))
    decreases vs, 2
  {
    hide Wrote, Serialize, SerializeAll, WellFormedValue, EncodeValue;
    ghost var s0, ms := out[..], ElementMembers(sch, f, vs);
    rv := 0;
    WroteNothing(s0, at);
    NoMembers(ms);
    for i := 0 to |vs|
      invariant rv == |SerializeAll(ms[..i])|
      invariant Wrote(s0, out[..], at, SerializeAll(ms[..i]))
    {
      ghost var s1 := out[..];
      ElementPrefix(sch, f, vs, i);
      MemberWithin(ms, i);
      var n := RequiredFieldPack(sch, f, vs[i], out, at + rv);
      WroteThen(s0, s1, out[..], at, SerializeAll(ms[..i]), Serialize(ms[i]));
      rv := rv + n;
    }
    assert ms[..|vs|] == ms;
  }

  lemma NoMembers(ms: seq<Member>)
    ensures SerializeAll(ms[..0]) == []
  {}

  lemma SerializeNone()
    ensures SerializeAll([]) == []
  {}

  method RepeatedFieldPack(sch: Schema, f: FieldDescriptor, s: Slot, out: array<byte>, at: nat) returns (rv: nat)
    requires ValidSchema(sch) && f.rule == REPEATED && WellFormedSlot(sch, f, s) && (f.packed ==> IsPackable(f.ty))
    requires |SerializeAll(SlotMembers(sch, f, s))| <= INT_MAX
    requires at + |SerializeAll(SlotMembers(sch, f, s))| <= out.Length
    modifies out
    ensures rv == |SerializeAll(SlotMembers(sch, f, s))|
    ensures Wrote(old(out[..]), out[..], at, SerializeAll(SlotMembers(sch, f, s)))
    decreases s, 3
  {
    hide Wrote, Serialize, SerializeAll, WellFormedValue, EncodeValue, PackedPayload, Prefixed;
    if f.packed {
      PackedAreWords(sch, f, s.vs);
      if |s.vs| == 0 {
        SerializeNone();
        WroteNothing(out[..], at);
        return 0;
      }
      ghost var payload := PackedPayload(f.ty, s.vs);
      ghost var mem := Member(f.id, WIRE_PREFIXED, Prefixed(payload));
      SerializeOne(mem);
      rv := PackedFieldPack(f, s.vs, out, at);
    } else {
      rv := UnpackedFieldPack(sch, f, s.vs, out, at);
    }
  }

  /** oneof_field_pack */
  method OneofFieldPack(sch: Schema, f: FieldDescriptor, o: OneofState, out: array<byte>, at: nat) returns (rv: nat)
    requires ValidSchema(sch) && (IsSelected(f, o) ==> WellFormedValue(sch, f, o.v))
    requires |SerializeAll(OneofMembers(sch, f, o))| <= INT_MAX
    requires at + |SerializeAll(OneofMembers(sch, f, o))| <= out.Length
    modifies out
    ensures rv == |SerializeAll(OneofMembers(sch, f, o))|
    ensures Wrote(old(out[..]), out[..], at, SerializeAll(OneofMembers(sch, f, o)))
    decreases o, 3
  {
    hide Wrote, Serialize, SerializeAll, WellFormedValue, EncodeValue;
    if !o.Chosen? || o.id != f.id || IsAbsentPointer(o.v) {
      SerializeNone();
      WroteNothing(out[..], at);
      return 0;
    }
    SerializeOne(ValueMember(sch, f, o.v));
    rv := RequiredFieldPack(sch, f, o.v, out, at);
  }

  /** required_field_pack, optional_field_pack and unlabeled_field_pack, by the rule of the field. */
  method SingleFieldPack(sch: Schema, f: FieldDescriptor, s: Slot, out: array<byte>, at: nat) returns (rv: nat)
    requires ValidSchema(sch) && f.rule != REPEATED && f.oneof.None? && WellFormedSlot(sch, f, s)
    requires |SerializeAll(SlotMembers(sch, f, s))| <= INT_MAX
    requires at + |SerializeAll(SlotMembers(sch, f, s))| <= out.Length
    modifies out
    ensures rv == |SerializeAll(SlotMembers(sch, f, s))|
    ensures Wrote(old(out[..]), out[..], at, SerializeAll(SlotMembers(sch, f, s)))
    decreases s, 3
  {
    hide Wrote, Serialize, SerializeAll, WellFormedValue, EncodeValue;
    var skip := false;
    if f.rule == OPTIONAL {
      if f.ty == MESSAGE || f.ty == STRING {
        skip := IsAbsentPointer(s.v);
      } else {
        skip := !s.has;
      }
    } else if f.rule == NONE {
      skip := IsZeroish(f, s.v);
    }
    if skip {
      SerializeNone();
      WroteNothing(out[..], at);
      return 0;
    }
    SerializeOne(ValueMember(sch, f, s.v));
    rv := RequiredFieldPack(sch, f, s.v, out, at);
  }

  // ---- Messages -------------------------------------------------------------------------------

  /** The body of the loop of protobuf_c_message_pack. */
  method FieldPack(sch: Schema, m: Message, i: nat, out: array<byte>, at: nat) returns (rv: nat)
    requires ValidSchema(sch) && WellFormed(sch, m) && i < |m.slots|
    requires |SerializeAll(FieldMembers(sch, m, i))| <= INT_MAX
    requires at + |SerializeAll(FieldMembers(sch, m, i))| <= out.Length
    modifies out
    ensures rv == |SerializeAll(FieldMembers(sch, m, i))|
    ensures Wrote(old(out[..]), out[..], at, SerializeAll(FieldMembers(sch, m, i)))
    decreases m, 4
  {
    hide Wrote, SerializeAll, SlotMembers, OneofMembers, WellFormedSlot, WellFormedOneof;
    var f := sch[m.desc].fields[i];
    assert ValidField(sch, sch[m.desc], f);
    assert WellFormedSlot(sch, f, m.slots[i]);
    if (f.rule == OPTIONAL || f.rule == NONE) && f.oneof.Some? {
      SelectedIsWellFormed(sch, m, i);
      rv := OneofFieldPack(sch, f, m.oneofs[f.oneof.value], out, at);
    } else if f.rule == REPEATED {
      rv := RepeatedFieldPack(sch, f, m.slots[i], out, at);
    } else {
      rv := SingleFieldPack(sch, f, m.slots[i], out, at);
    }
  }

  /** unknown_field_pack */
  method UnknownFieldPack(mem: Member, out: array<byte>, at: nat) returns (rv: nat)
    requires mem.wireType < 8 && at + |Serialize(mem)| <= out.Length
    modifies out
    ensures rv == |Serialize(mem)|
    ensures Wrote(old(out[..]), out[..], at, Serialize(mem))
  {
    hide Wrote, Key;
    ghost var s0 := out[..];
    rv := KeyPack(mem.tag, mem.wireType, out, at);
    ghost var s1 := out[..];
    StoreBytes(mem.data, out, at + rv);
    WroteThen(s0, s1, out[..], at, Key(mem.tag, mem.wireType), mem.data);
    rv := rv + |mem.data|;
  }

  method UnknownFieldsPack(ms: seq<Member>, out: array<byte>, at: nat) returns (rv: nat)
    requires (forall k :: 0 <= k < |ms| ==> ms[k].wireType < 8) && at + |SerializeAll(ms)| <= out.Length
    modifies out
    ensures rv == |SerializeAll(ms)|
    ensures Wrote(old(out[..]), out[..], at, SerializeAll(ms))
  {
    hide Wrote, Serialize, SerializeAll;
    ghost var s0 := out[..];
    rv := 0;
    WroteNothing(s0, at);
    NoMembers(ms);
    for i := 0 to |ms|
      invariant rv == |SerializeAll(ms[..i])|
      invariant Wrote(s0, out[..], at, SerializeAll(ms[..i]))
    {
      ghost var s1 := out[..];
      MemberWithin(ms, i);
      var n := UnknownFieldPack(ms[i], out, at + rv);
      WroteThen(s0, s1, out[..], at, SerializeAll(ms[..i]), Serialize(ms[i]));
      rv := rv + n;
    }
    assert ms[..|ms|] == ms;
  }

  /** What the fields up to the next one take is within what all of them take. */
  lemma {:induction false} FieldWithin(sch: Schema, m: Message, i: nat, n: nat)
    requires i < n <= |DescriptorOf(sch, m.desc).fields|
    ensures SerializeAll(MembersTo(sch, m, i + 1))
         == SerializeAll(MembersTo(sch, m, i)) + SerializeAll(FieldMembers(sch, m, i))
    ensures |SerializeAll(MembersTo(sch, m, i + 1))| <= |SerializeAll(MembersTo(sch, m, n))|
    decreases n
  {
    hide SerializeAll, FieldMembers;
    SerializeAllConcat(MembersTo(sch, m, i), FieldMembers(sch, m, i));
    if i < n - 1 {
      FieldWithin(sch, m, i, n - 1);
      SerializeAllConcat(MembersTo(sch, m, n - 1), FieldMembers(sch, m, n - 1));
    }
  }

  method KnownFieldsPack(sch: Schema, m: Message, out: array<byte>, at: nat) returns (rv: nat)
    requires ValidSchema(sch) && WellFormed(sch, m)
    requires |SerializeAll(KnownMembers(sch, m))| <= INT_MAX
    requires at + |SerializeAll(KnownMembers(sch, m))| <= out.Length
    modifies out
    ensures rv == |SerializeAll(KnownMembers(sch, m))|
    ensures Wrote(old(out[..]), out[..], at, SerializeAll(KnownMembers(sch, m)))
    decreases m, 6
  {
    hide Wrote, SerializeAll, MembersTo, FieldMembers;
    ghost var s0 := out[..];
    rv := 0;
    WroteNothing(s0, at);
    NoFields(sch, m);
    for i := 0 to |m.slots|
      invariant rv == |SerializeAll(MembersTo(sch, m, i))|
      invariant Wrote(s0, out[..], at, SerializeAll(MembersTo(sch, m, i)))
    {
      ghost var s1 := out[..];
      FieldWithin(sch, m, i, |m.slots|);
      var n := FieldPack(sch, m, i, out, at + rv);
      WroteThen(s0, s1, out[..], at, SerializeAll(MembersTo(sch, m, i)), SerializeAll(FieldMembers(sch, m, i)));
      rv := rv + n;
    }
  }

  lemma NoFields(sch: Schema, m: Message)
    ensures SerializeAll(MembersTo(sch, m, 0)) == []
  {}

  /** protobuf_c_message_pack */
  method MessagePack(sch: Schema, m: Message, out: array<byte>, at: nat) returns (rv: nat)
    requires ValidSchema(sch) && WellFormed(sch, m)
    requires |Encode(sch, m)| <= INT_MAX && at + |Encode(sch, m)| <= out.Length
    modifies out
    ensures rv == |Encode(sch, m)|
    ensures Wrote(old(out[..]), out[..], at, Encode(sch, m))
    decreases m, 8
  {
    hide Wrote, SerializeAll, KnownMembers;
    SerializeAllConcat(KnownMembers(sch, m), m.unknown);
    ghost var s0 := out[..];
    rv := KnownFieldsPack(sch, m, out, at);
    ghost var s1 := out[..];
    assert forall k :: 0 <= k < |m.unknown| ==> WellFormedUnknown(sch[m.desc], m.unknown[k]);
    var n := UnknownFieldsPack(m.unknown, out, at + rv);
    WroteThen(s0, s1, out[..], at, SerializeAll(KnownMembers(sch, m)), SerializeAll(m.unknown));
    rv := rv + n;
  }
}
