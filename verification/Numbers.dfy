/** Machine integers, bytes and the few sequence facts shared by every module. */
module Bytes {

  type byte = x: int | 0 <= x < 256
  type u32 = x: int | 0 <= x < TWO_TO_THE_32
  type u64 = x: int | 0 <= x < TWO_TO_THE_64

  const TWO_TO_THE_32 := 0x1_0000_0000
  const TWO_TO_THE_64 := 0x1_0000_0000_0000_0000
  const INT_MAX := 0x7FFF_FFFF

  datatype Option<+T> = None | Some(value: T) {
    predicate IsFailure() { None? }
    function PropagateFailure<U>(): Option<U> requires None? { None }
    function Extract(): T requires Some? { value }
  }

  /** Two's complement reading of a 32-bit word. */
  function ToInt32(w: u32): int {
    if w < 0x8000_0000 then w else w - TWO_TO_THE_32
  }

  /** Two's complement reading of a 64-bit word. */
  function ToInt64(w: u64): int {
    if w < 0x8000_0000_0000_0000 then w else w - TWO_TO_THE_64
  }

  /** `after` is `before` with `data` stored at offset `at` and nothing else changed. */
  ghost predicate Wrote(before: seq<byte>, after: seq<byte>, at: nat, data: seq<byte>) {
    && at + |data| <= |before|
    && after == before[..at] + data + before[at + |data|..]
  }

  /** Two stores, the second starting where the first ends, are one store. */
  lemma WroteThen(s0: seq<byte>, s1: seq<byte>, s2: seq<byte>, at: nat, d1: seq<byte>, d2: seq<byte>)
    requires Wrote(s0, s1, at, d1)
    requires Wrote(s1, s2, at + |d1|, d2)
    ensures Wrote(s0, s2, at, d1 + d2)
  {
    assert s1[..at + |d1|] == s0[..at] + d1;
    assert s1[at + |d1| + |d2|..] == s0[at + |d1| + |d2|..];
    assert s2 == s0[..at] + (d1 + d2) + s0[at + |d1 + d2|..];
  }

  /** The same, byte by byte. */
  lemma WroteBytewise(before: seq<byte>, after: seq<byte>, at: nat, data: seq<byte>)
    ensures Wrote(before, after, at, data) <==>
              && at + |data| <= |before| == |after|
              && forall k :: 0 <= k < |before| ==> after[k] == if at <= k < at + |data| then data[k - at] else before[k]
  {
    if at + |data| <= |before| == |after| && forall k :: 0 <= k < |before| ==> after[k] == (if at <= k < at + |data| then data[k - at] else before[k]) {
      var wanted := before[..at] + data + before[at + |data|..];
      assert forall k :: 0 <= k < |before| ==> after[k] == wanted[k];
      assert after == wanted;
    }
  }

  lemma WroteNothing(s: seq<byte>, at: nat)
    requires at <= |s|
    ensures Wrote(s, s, at, [])
  {
    assert s == s[..at] + [] + s[at..];
  }
}

/**
 The arithmetic of the wire format: base-128 varints, ZigZag, little-endian words and field tags
 (sections "Base 128 Varints", "Signed Integers" and "Message Structure" of the Protocol Buffers
 Encoding specification), next to the size and parse functions of protobuf-c.c.
 */
module Varints {
  import opened Bytes

  // ---- Base 128 varints -----------------------------------------------------------------------

  /** The shortest base-128 encoding of `v`, least significant group first. */
  function Varint(v: nat): (s: seq<byte>)
    ensures |s| >= 1
  {
    if v < 128 then [v] else [128 + v % 128] + Varint(v / 128)
  }

  /** The number that a sequence of base-128 groups denotes. */
  function Groups(s: seq<byte>): nat {
    if |s| == 0 then 0 else Low7(s[0]) + 128 * Groups(s[1..])
  }

  /** A varint on the wire: every byte but the last has its top bit set. */
  predicate IsVarint(s: seq<byte>) {
    && |s| >= 1
    && s[|s| - 1] < 128
    && forall i :: 0 <= i < |s| - 1 ==> s[i] >= 128
  }

  lemma {:induction false} VarintIsVarint(v: nat)
    ensures IsVarint(Varint(v))
  {
    if v >= 128 {
      VarintIsVarint(v / 128);
      var t := Varint(v / 128);
      assert Varint(v) == [128 + v % 128] + t;
    }
  }

  /** Reading back the groups of an encoding gives the number. */
  lemma {:induction false} GroupsVarint(v: nat)
    ensures Groups(Varint(v)) == v
  {
    if v >= 128 {
      GroupsVarint(v / 128);
      assert Varint(v)[1..] == Varint(v / 128);
    } else {
      assert Varint(v)[1..] == [];
    }
  }

  /** `128^k`, the first number that needs more than `k` groups. */
  function Pow128(k: nat): nat {
    if k == 0 then 1 else 128 * Pow128(k - 1)
  }

  lemma {:induction false} VarintLength(v: nat, k: nat)
    requires k >= 1
    ensures v < Pow128(k) <==> |Varint(v)| <= k
  {
    if k == 1 {
      assert Pow128(1) == 128 * Pow128(0);
      if v >= 128 { assert |Varint(v)| == 1 + |Varint(v / 128)|; }
    } else if v >= 128 {
      VarintLength(v / 128, k - 1);
      assert v < 128 * Pow128(k - 1) <==> v / 128 < Pow128(k - 1);
    } else {
      Pow128AtLeast(k);
    }
  }

  lemma {:induction false} Pow128AtLeast(k: nat)
    requires k >= 1
    ensures Pow128(k) >= 128
  {
    if k > 1 { Pow128AtLeast(k - 1); } else { assert Pow128(1) == 128 * Pow128(0); }
  }

  lemma Pow128Values()
    ensures Pow128(1) == 0x80
    ensures Pow128(2) == 0x4000
    ensures Pow128(3) == 0x20_0000
    ensures Pow128(4) == 0x1000_0000
    ensures Pow128(5) == 0x8_0000_0000
    ensures Pow128(6) == 0x400_0000_0000
    ensures Pow128(7) == 0x2_0000_0000_0000
    ensures Pow128(8) == 0x100_0000_0000_0000
    ensures Pow128(9) == 0x8000_0000_0000_0000
    ensures Pow128(10) == 0x40_0000_0000_0000_0000
  {
    assert Pow128(1) == 128 * Pow128(0);
    assert Pow128(2) == 128 * Pow128(1);
    assert Pow128(3) == 128 * Pow128(2);
    assert Pow128(4) == 128 * Pow128(3);
    assert Pow128(5) == 128 * Pow128(4);
    assert Pow128(6) == 128 * Pow128(5);
    assert Pow128(7) == 128 * Pow128(6);
    assert Pow128(8) == 128 * Pow128(7);
    assert Pow128(9) == 128 * Pow128(8);
    assert Pow128(10) == 128 * Pow128(9);
  }

  /** Ten groups hold every 64-bit word. */
  lemma VarintAtMostTen(v: u64)
    ensures |Varint(v)| <= 10
  {
    Pow128Values();
    VarintLength(v, 10);
  }

  /** Five groups hold every 32-bit word. */
  lemma VarintAtMostFive(v: u32)
    ensures |Varint(v)| <= 5
  {
    Pow128Values();
    VarintLength(v, 5);
  }

  /** A larger number never has a shorter encoding. */
  lemma {:induction false} VarintLengthMonotone(a: nat, b: nat)
    requires a <= b
    ensures |Varint(a)| <= |Varint(b)|
  {
    if a >= 128 {
      VarintLengthMonotone(a / 128, b / 128);
    }
  }

  // ---- Sizes ----------------------------------------------------------------------------------

  function Uint32Size(v: u32): nat {
    if v < 0x80 then 1
    else if v < 0x4000 then 2
    else if v < 0x20_0000 then 3
    else if v < 0x1000_0000 then 4
    else 5
  }

  function Int32Size(w: u32): nat {
    var v := ToInt32(w);
    if v < 0 then 10
    else if v < 0x80 then 1
    else if v < 0x4000 then 2
    else if v < 0x20_0000 then 3
    else if v < 0x1000_0000 then 4
    else 5
  }

  function Uint64Size(v: u64): nat {
    var upper := v / TWO_TO_THE_32;
    if upper == 0 then Uint32Size(v % TWO_TO_THE_32)
    else if upper < 0x8 then 5
    else if upper < 0x400 then 6
    else if upper < 0x2_0000 then 7
    else if upper < 0x100_0000 then 8
    else if upper < 0x8000_0000 then 9
    else 10
  }

  function TagSize(number: u32): nat {
    if number < 0x10 then 1
    else if number < 0x800 then 2
    else if number < 0x4_0000 then 3
    else if number < 0x200_0000 then 4
    else 5
  }

  lemma Uint32SizeIsLength(v: u32)
    ensures Uint32Size(v) == |Varint(v)|
  {
    Pow128Values();
    VarintLength(v, 1); VarintLength(v, 2); VarintLength(v, 3); VarintLength(v, 4); VarintLength(v, 5);
  }

  lemma Uint64SizeIsLength(v: u64)
    ensures Uint64Size(v) == |Varint(v)|
  {
    if v < TWO_TO_THE_32 {
      Uint32SizeIsLength(v);
    } else {
      Pow128Values();
      VarintLength(v, 4); VarintLength(v, 5); VarintLength(v, 6); VarintLength(v, 7);
      VarintLength(v, 8); VarintLength(v, 9); VarintLength(v, 10);
    }
  }

  /** A negative int32 travels as the 64-bit word with the same value. */
  function SignExtend(w: u32): (r: u64)
    ensures ToInt64(r) == ToInt32(w)
  {
    if w < 0x8000_0000 then w else w + (TWO_TO_THE_64 - TWO_TO_THE_32)
  }

  lemma Int32SizeIsLength(w: u32)
    ensures Int32Size(w) == |Varint(SignExtend(w))|
  {
    if w < 0x8000_0000 {
      Uint32SizeIsLength(w);
    } else {
      Pow128Values();
      VarintLength(SignExtend(w), 9);
      VarintLength(SignExtend(w), 10);
    }
  }

  lemma TagSizeIsLength(number: u32, wireType: nat)
    requires wireType < 8
    ensures TagSize(number) == |Varint(number * 8 + wireType)|
  {
    var v := number * 8 + wireType;
    Pow128Values();
    VarintLength(v, 1); VarintLength(v, 2); VarintLength(v, 3); VarintLength(v, 4); VarintLength(v, 5);
  }

  // ---- ZigZag ---------------------------------------------------------------------------------

  // Exclusive or with a mask that is all zeros or all ones: the identity, or the complement.
  function XorMask32(x: u32, ones: bool): u32 { if ones then 0xFFFF_FFFF - x else x }
  function XorMask64(x: u64, ones: bool): u64 { if ones then 0xFFFF_FFFF_FFFF_FFFF - x else x }

  function ZigZag32(w: u32): u32 { XorMask32((w * 2) % TWO_TO_THE_32, w / 0x8000_0000 == 1) }
  function UnZigZag32(v: u32): u32 { XorMask32(v / 2, v % 2 == 1) }
  function ZigZag64(w: u64): u64 { XorMask64((w * 2) % TWO_TO_THE_64, w / 0x8000_0000_0000_0000 == 1) }
  function UnZigZag64(v: u64): u64 { XorMask64(v / 2, v % 2 == 1) }

  /** ZigZag numbers the integers 0, -1, 1, -2, 2, ... and the decoder inverts it both ways. */
  lemma ZigZag32Correct(w: u32)
    ensures ZigZag32(w) == if ToInt32(w) >= 0 then 2 * ToInt32(w) else -2 * ToInt32(w) - 1
    ensures UnZigZag32(ZigZag32(w)) == w
    ensures ZigZag32(UnZigZag32(w)) == w
  {}

  lemma ZigZag64Correct(w: u64)
    ensures ZigZag64(w) == if ToInt64(w) >= 0 then 2 * ToInt64(w) else -2 * ToInt64(w) - 1
    ensures UnZigZag64(ZigZag64(w)) == w
    ensures ZigZag64(UnZigZag64(w)) == w
  {}

  // ---- Reading varints ------------------------------------------------------------------------

  /** The seven bits that a byte contributes to a number. */
  function Low7(b: byte): int { b % 128 }

  /** The branches of parse_uint32: at most five groups, the last shifted out of the word. */
  function ParseUint32(s: seq<byte>): u32
    requires |s| >= 1
  {
    var r1 := Low7(s[0]);
    if |s| == 1 then r1 else
    var r2 := r1 + Low7(s[1]) * 0x80;
    if |s| == 2 then r2 else
    var r3 := r2 + Low7(s[2]) * 0x4000;
    if |s| == 3 then r3 else
    var r4 := r3 + Low7(s[3]) * 0x20_0000;
    if |s| == 4 then r4 else
    r4 + Low7(s[4]) % 16 * 0x1000_0000
  }

  /** The loop of parse_uint64 from group `i` on; the shifted bits beyond the word are lost. */
  function ParseUint64(s: seq<byte>): u64
    requires |s| >= 1
  {
    Groups(s) % TWO_TO_THE_64
  }

  /** The number held by the first four bytes. */
  function FirstFour(s: seq<byte>): (r: nat)
    requires |s| >= 4
    ensures r < 0x1000_0000
  {
    Low7(s[0]) + 0x80 * Low7(s[1]) + 0x4000 * Low7(s[2]) + 0x20_0000 * Low7(s[3])
  }

  lemma Groups4(s: seq<byte>)
    requires |s| >= 4
    ensures Groups(s) == FirstFour(s) + 0x1000_0000 * Groups(s[4..])
  {
    assert s[1..][1..] == s[2..] && s[2..][1..] == s[3..] && s[3..][1..] == s[4..];
    assert Groups(s[1..]) == Low7(s[1]) + 128 * Groups(s[2..]);
    assert Groups(s[2..]) == Low7(s[2]) + 128 * Groups(s[3..]);
    assert Groups(s[3..]) == Low7(s[3]) + 128 * Groups(s[4..]);
  }

  /** Up to four groups are all that parse_uint32 needs branches for. */
  lemma ParseUint32Short(s: seq<byte>)
    requires 1 <= |s| <= 4
    ensures ParseUint32(s) == Groups(s) < 0x1000_0000
  {
    assert Groups(s) == Low7(s[0]) + 128 * Groups(s[1..]);
    if |s| >= 2 {
      assert s[1..][1..] == s[2..];
      assert Groups(s[1..]) == Low7(s[1]) + 128 * Groups(s[2..]);
      if |s| >= 3 {
        assert s[2..][1..] == s[3..];
        assert Groups(s[2..]) == Low7(s[2]) + 128 * Groups(s[3..]);
        if |s| == 4 {
          assert s[3..][1..] == [];
        }
      }
    }
  }

  /** parse_uint32 is reading the groups modulo 2^32, however long the varint is. */
  lemma ParseUint32IsGroups(s: seq<byte>)
    requires |s| >= 1
    ensures ParseUint32(s) == Groups(s) % TWO_TO_THE_32
  {
    if |s| >= 5 {
      Groups4(s);
      FifthGroup(s[4..]);
      ShiftOut(FirstFour(s), Groups(s[4..]));
      ParseUint32Long(s);
    } else {
      ParseUint32Short(s);
    }
  }

  lemma ParseUint32Long(s: seq<byte>)
    requires |s| >= 5
    ensures ParseUint32(s) == FirstFour(s) + Low7(s[4]) % 16 * 0x1000_0000
  {}

  lemma FifthGroup(s: seq<byte>)
    requires |s| >= 1
    ensures Groups(s) % 16 == Low7(s[0]) % 16
  {
    var g := Groups(s[1..]);
    assert Groups(s) == Low7(s[0]) + 16 * (8 * g);
  }

  lemma ShiftOut(low: nat, rest: nat)
    requires low < 0x1000_0000
    ensures (low + 0x1000_0000 * rest) % TWO_TO_THE_32 == low + rest % 16 * 0x1000_0000
  {
    assert rest == 16 * (rest / 16) + rest % 16;
    assert low + 0x1000_0000 * rest == (low + rest % 16 * 0x1000_0000) + TWO_TO_THE_32 * (rest / 16);
  }

  predicate ParseBoolean(s: seq<byte>) {
    exists i :: 0 <= i < |s| && s[i] % 128 != 0
  }

  /** A truth value is any number other than zero. */
  lemma {:induction false} ParseBooleanIsNonZero(s: seq<byte>)
    ensures ParseBoolean(s) <==> Groups(s) != 0
  {
    if |s| > 0 {
      ParseBooleanIsNonZero(s[1..]);
      if ParseBoolean(s[1..]) {
        var i :| 0 <= i < |s[1..]| && s[1..][i] % 128 != 0;
        assert s[i + 1] % 128 != 0;
      }
      if ParseBoolean(s) && s[0] % 128 == 0 {
        var i :| 0 <= i < |s| && s[i] % 128 != 0;
        assert s[1..][i - 1] % 128 != 0;
      }
    }
  }

  /** Every 64-bit word survives encoding and reading. */
  lemma VarintRoundTrip64(v: u64)
    ensures ParseUint64(Varint(v)) == v
  {
    GroupsVarint(v);
  }

  /** Every 32-bit word survives encoding and reading, also as its 64-bit sign extension. */
  lemma VarintRoundTrip32(w: u32)
    ensures ParseUint32(Varint(w)) == w
    ensures ParseUint32(Varint(SignExtend(w))) == w
  {
    GroupsVarint(w);
    ParseUint32IsGroups(Varint(w));
    GroupsVarint(SignExtend(w));
    ParseUint32IsGroups(Varint(SignExtend(w)));
    SignExtendLow(w);
  }

  lemma SignExtendLow(w: u32)
    ensures SignExtend(w) % TWO_TO_THE_32 == w
  {
    if w >= 0x8000_0000 {
      assert SignExtend(w) == w + TWO_TO_THE_32 * 0xFFFF_FFFF;
    }
  }

  // ---- Little-endian words --------------------------------------------------------------------

  function Fixed32(w: u32): (s: seq<byte>)
    ensures |s| == 4
  {
    var w1 := w / 256;
    var w2 := w1 / 256;
    [w % 256, w1 % 256, w2 % 256, w2 / 256]
  }

  function Fixed64(w: u64): (s: seq<byte>)
    ensures |s| == 8
  {
    Fixed32(w % TWO_TO_THE_32) + Fixed32(w / TWO_TO_THE_32)
  }

  function ParseFixed32(s: seq<byte>): u32
    requires |s| >= 4
  {
    var b0: int, b1: int, b2: int, b3: int := s[0], s[1], s[2], s[3];
    b0 + 256 * (b1 + 256 * (b2 + 256 * b3))
  }

  function ParseFixed64(s: seq<byte>): u64
    requires |s| >= 8
  {
    ParseFixed32(s) + ParseFixed32(s[4..]) * TWO_TO_THE_32
  }

  lemma Fixed32RoundTrip(w: u32, rest: seq<byte>)
    ensures ParseFixed32(Fixed32(w) + rest) == w
  {
    var s := Fixed32(w) + rest;
    var w1 := w / 256;
    assert s[0] == w % 256 && s[1] == w1 % 256 && s[2] == w1 / 256 % 256 && s[3] == w1 / 256 / 256;
  }

  lemma Fixed64RoundTrip(w: u64, rest: seq<byte>)
    ensures ParseFixed64(Fixed64(w) + rest) == w
  {
    var lo, hi := Fixed32(w % TWO_TO_THE_32), Fixed32(w / TWO_TO_THE_32);
    assert Fixed64(w) + rest == lo + (hi + rest);
    assert (Fixed64(w) + rest)[4..] == hi + rest;
    Fixed32RoundTrip(w % TWO_TO_THE_32, hi + rest);
    Fixed32RoundTrip(w / TWO_TO_THE_32, rest);
  }
}
