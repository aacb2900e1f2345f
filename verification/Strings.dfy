/**
 The string helpers of the generator (c_helpers.cc): escaping for C string literals, identifiers made
 from file names, and splitting at delimiters.
 */
module Strings {
  import opened Bytes

  // ---- Characters -----------------------------------------------------------------------------

  const BACKSLASH: byte := 92
  const UNDERSCORE: byte := 95

  predicate IsDigit(c: byte) { 48 <= c <= 57 }
  predicate IsAlnum(c: byte) { IsDigit(c) || 65 <= c <= 90 || 97 <= c <= 122 }
  predicate IsPrint(c: byte) { 32 <= c <= 126 }
  predicate IsOctalDigit(c: byte) { 48 <= c <= 55 }
  predicate IsHexDigit(c: byte) { IsDigit(c) || 97 <= c <= 102 || 65 <= c <= 70 }

  function HexDigit(v: nat): (c: byte)
    requires v < 16
    ensures IsHexDigit(c) && HexValue(c) == v
  {
    if v < 10 then 48 + v else 87 + v
  }

  function HexValue(c: byte): (v: nat)
    requires IsHexDigit(c)
    ensures v < 16
  {
    if IsDigit(c) then c - 48 else if c >= 97 then c - 87 else c - 55
  }

  // ---- CEscape --------------------------------------------------------------------------------

  /** The two-letter escapes. */
  function ShortEscape(c: byte): Option<byte> {
    match c
    case 10 => Some(110) // \\n
    case 13 => Some(114) // \\r
    case 9 => Some(116) // \\t
    case 34 => Some(34)
    case 39 => Some(39)
    case 92 => Some(92)
    case _ => None
  }

  function NumericEscape(c: byte, useHex: bool): (s: seq<byte>)
    ensures |s| == 4
  {
    if useHex then [BACKSLASH, 120, HexDigit(c / 16), HexDigit(c % 16)]
    else [BACKSLASH, 48 + c / 64, 48 + c / 8 % 8, 48 + c % 8]
  }

  predicate NeedsNumber(c: byte, lastHex: bool) {
    ShortEscape(c).None? && (!IsPrint(c) || (lastHex && IsHexDigit(c)))
  }

  function EscapeOne(c: byte, useHex: bool, lastHex: bool): (s: seq<byte>)
    ensures 1 <= |s| <= 4
  {
    if ShortEscape(c).Some? then [BACKSLASH, ShortEscape(c).value]
    else if NeedsNumber(c, lastHex) then NumericEscape(c, useHex)
    else [c]
  }

  /** A string as it is written in a C literal; `lastHex` says whether a hexadecimal escape precedes it. */
  function Escaped(s: seq<byte>, useHex: bool, lastHex: bool): (r: seq<byte>)
    ensures |s| <= |r| <= 4 * |s|
  {
    if s == [] then []
    else EscapeOne(s[0], useHex, lastHex) + Escaped(s[1..], useHex, useHex && NeedsNumber(s[0], lastHex))
  }

  /** Does the last byte of `s` end in a hexadecimal escape? */
  function HexAfter(s: seq<byte>, useHex: bool, lastHex: bool): bool {
    if s == [] then lastHex else HexAfter(s[1..], useHex, useHex && NeedsNumber(s[0], lastHex))
  }

  lemma Associate(a: seq<byte>, b: seq<byte>, c: seq<byte>)
    ensures a + (b + c) == (a + b) + c
  {}

  lemma {:induction false} EscapedSnoc(s: seq<byte>, n: nat, useHex: bool, lastHex: bool)
    requires n < |s|
    ensures Escaped(s[..n + 1], useHex, lastHex)
            == Escaped(s[..n], useHex, lastHex) + EscapeOne(s[n], useHex, HexAfter(s[..n], useHex, lastHex))
    ensures HexAfter(s[..n + 1], useHex, lastHex) == (useHex && NeedsNumber(s[n], HexAfter(s[..n], useHex, lastHex)))
  {
    hide EscapeOne, NeedsNumber, ShortEscape;
    if n == 0 {
      assert s[..1][1..] == [] && s[..0] == [];
      assert EscapeOne(s[0], useHex, lastHex) + [] == [] + EscapeOne(s[0], useHex, lastHex);
    } else {
      var hex := useHex && NeedsNumber(s[0], lastHex);
      EscapedSnoc(s[1..], n - 1, useHex, hex);
      assert s[..n + 1][1..] == s[1..][..n] && s[..n][1..] == s[1..][..n - 1];
      var a, b, c := EscapeOne(s[0], useHex, lastHex), Escaped(s[1..][..n - 1], useHex, hex),
                     EscapeOne(s[n], useHex, HexAfter(s[1..][..n - 1], useHex, hex));
      Associate(a, b, c);
    }
  }

  lemma {:induction false} EscapedPrefix(s: seq<byte>, n: nat, useHex: bool)
    requires n <= |s|
    ensures |Escaped(s[..n], useHex, false)| + (|s| - n) <= |Escaped(s, useHex, false)|
    ensures Escaped(s[..n], useHex, false) <= Escaped(s, useHex, false)
    decreases |s| - n
  {
    hide EscapeOne;
    if n < |s| {
      EscapedPrefix(s, n + 1, useHex);
      EscapedSnoc(s, n, useHex, false);
    } else {
      assert s[..n] == s;
    }
  }

  /** snprintf of a numeric escape: what does not fit with its NUL is left out. */
  method Snprintf(text: seq<byte>, dest: array<byte>, at: nat, room: nat)
    requires |text| == 4 && 4 <= room && at + room <= dest.Length
    modifies dest
    ensures forall i :: 0 <= i < at ==> dest[i] == old(dest[i])
    ensures room > 4 ==> dest[at..at + 4] == text
  {
    var n := if room - 1 < 4 then room - 1 else 4;
    for i := 0 to n
      invariant forall k :: 0 <= k < at ==> dest[k] == old(dest[k])
      invariant dest[at..at + i] == text[..i]
    {
      dest[at + i] := text[i];
    }
    dest[at + n] := 0;
  }

  /** The loop body of CEscapeInternal: it fails when the escape does not fit. */
  method EscapeByte(c: byte, dest: array<byte>, used: nat, useHex: bool, lastHexEscape: bool)
    returns (ok: bool, n: nat, isHexEscape: bool)
    requires used <= dest.Length
    modifies dest
    ensures ok <==> used + |EscapeOne(c, useHex, lastHexEscape)| <= dest.Length && used + 2 <= dest.Length
    ensures ok ==> n == |EscapeOne(c, useHex, lastHexEscape)| && isHexEscape == (useHex && NeedsNumber(c, lastHexEscape))
    ensures forall i :: 0 <= i < used ==> dest[i] == old(dest[i])
    ensures ok && used + n < dest.Length ==> dest[used..used + n] == EscapeOne(c, useHex, lastHexEscape)
  {
    ok, n, isHexEscape := true, 0, false;
    if dest.Length - used < 2 { // need space for two letter escape
      return false, n, isHexEscape;
    }
    var short := ShortEscape(c);
    hide ShortEscape;
    if short.Some? {
      dest[used] := BACKSLASH;
      dest[used + 1] := short.value;
      n := 2;
    } else if !IsPrint(c) || (lastHexEscape && IsHexDigit(c)) {
      if dest.Length - used < 4 { // need space for four letter escape
        return false, n, isHexEscape;
      }
      Snprintf(NumericEscape(c, useHex), dest, used, dest.Length - used);
      isHexEscape := useHex;
      n := 4;
    } else {
      dest[used] := c;
      n := 1;
    }
  }

  /**
   CEscapeInternal: -1 exactly when the escaped string and its NUL do not fit; a numeric escape that
   was cut off by the end of the buffer is never returned.
   */
  method CEscapeInternal(src: seq<byte>, dest: array<byte>, useHex: bool) returns (used: int)
    modifies dest
    ensures used == if |Escaped(src, useHex, false)| < dest.Length then |Escaped(src, useHex, false)| else -1
    ensures used >= 0 ==> dest[..used] == Escaped(src, useHex, false) && dest[used] == 0
  {
    hide Escaped, EscapeOne, NeedsNumber, HexAfter;
    used := 0;
    var lastHexEscape := false;
    EscapedNothing(src, useHex);
    for i := 0 to |src|
      invariant 0 <= used == |Escaped(src[..i], useHex, false)| <= dest.Length
      invariant used < dest.Length ==> dest[..used] == Escaped(src[..i], useHex, false)
      invariant lastHexEscape == HexAfter(src[..i], useHex, false)
    {
      EscapedPrefix(src, i + 1, useHex);
      EscapedSnoc(src, i, useHex, false);
      ghost var before := dest[..used];
      var ok, n, isHexEscape := EscapeByte(src[i], dest, used, useHex, lastHexEscape);
      if !ok {
        return -1;
      }
      assert dest[..used] == before;
      CutAt(dest[..], used, used + n);
      used := used + n;
      lastHexEscape := isHexEscape;
    }
    assert src[..|src|] == src;
    if dest.Length - used < 1 { // no room for the NUL
      return -1;
    }
    ghost var text := dest[..used];
    dest[used] := 0;
    assert dest[..used] == text;
  }

  lemma CutAt(s: seq<byte>, i: nat, j: nat)
    requires i <= j <= |s|
    ensures s[..j] == s[..i] + s[i..j]
  {}

  lemma EscapedNothing(src: seq<byte>, useHex: bool)
    ensures Escaped(src[..0], useHex, false) == [] && !HexAfter(src[..0], useHex, false)
  {}

  /** CEscape: in its buffer there is always room. */
  method CEscape(src: seq<byte>) returns (r: seq<byte>)
    ensures r == Escaped(src, false, false)
  {
    var dest := new byte[|src| * 4 + 1];
    var len := CEscapeInternal(src, dest, false);
    r := dest[..len];
  }

  // ---- Reading a string literal ---------------------------------------------------------------

  /** The simple escape sequences of section 6.4.4.4 of ISO/IEC 9899:2011. */
  function SimpleEscape(c: byte): Option<byte> {
    match c
    case 39 => Some(39)
    case 34 => Some(34)
    case 63 => Some(63)
    case 92 => Some(92)
    case 97 => Some(7)
    case 98 => Some(8)
    case 102 => Some(12)
    case 110 => Some(10)
    case 114 => Some(13)
    case 116 => Some(9)
    case 118 => Some(11)
    case _ => None
  }

  function OctalRun(s: seq<byte>, max: nat): (n: nat)
    ensures n <= |s| && n <= max
  {
    if s == [] || max == 0 || !IsOctalDigit(s[0]) then 0 else 1 + OctalRun(s[1..], max - 1)
  }

  function OctalValue(s: seq<byte>): nat
    requires forall i :: 0 <= i < |s| ==> IsOctalDigit(s[i])
  {
    if s == [] then 0
    else
      assert IsOctalDigit(s[|s| - 1]);
      8 * OctalValue(s[..|s| - 1]) + HexValue(s[|s| - 1])
  }

  function HexRun(s: seq<byte>): (n: nat)
    ensures n <= |s|
    ensures forall i :: 0 <= i < n ==> IsHexDigit(s[i])
  {
    if s == [] || !IsHexDigit(s[0]) then 0 else 1 + HexRun(s[1..])
  }

  function HexNumber(s: seq<byte>): nat
    requires forall i :: 0 <= i < |s| ==> IsHexDigit(s[i])
  {
    if s == [] then 0 else 16 * HexNumber(s[..|s| - 1]) + HexValue(s[|s| - 1])
  }

  lemma {:induction false} OctalRunIs(s: seq<byte>, max: nat)
    ensures forall i :: 0 <= i < OctalRun(s, max) ==> IsOctalDigit(s[i])
  {
    if s != [] && max > 0 && IsOctalDigit(s[0]) { OctalRunIs(s[1..], max - 1); }
  }

  /** The value of the characters between the quotes: an octal escape has up to three digits, a hexadecimal one all there are. */
  function ReadLiteral(s: seq<byte>): (r: Option<seq<byte>>)
    decreases |s|
  {
    if s == [] then Some([])
    else if s[0] == 34 || s[0] == 10 then None
    else if s[0] != BACKSLASH then
      var rest :- ReadLiteral(s[1..]);
      Some([s[0]] + rest)
    else if |s| == 1 then None
    else if SimpleEscape(s[1]).Some? then
      var rest :- ReadLiteral(s[2..]);
      Some([SimpleEscape(s[1]).value] + rest)
    else if IsOctalDigit(s[1]) then
      var n := OctalRun(s[1..], 3);
      OctalRunIs(s[1..], 3);
      var v := OctalValue(s[1..][..n]);
      if v >= 256 then None else
      var rest :- ReadLiteral(s[1..][n..]);
      Some([v] + rest)
    else if s[1] == 120 then
      var n := HexRun(s[2..]);
      if n == 0 then None else
      var v := HexNumber(s[2..][..n]);
      if v >= 256 then None else
      var rest :- ReadLiteral(s[2..][n..]);
      Some([v] + rest)
    else None
  }

  /** After a hexadecimal escape comes no character that would be read as a part of it. */
  lemma NoHexDigitFollows(s: seq<byte>)
    ensures HexRun(Escaped(s, true, true)) == 0
  {
    if s != [] { assert Escaped(s, true, true)[0] == EscapeOne(s[0], true, true)[0]; }
  }

  lemma OctalOfThree(t: seq<byte>)
    requires |t| == 3 && IsOctalDigit(t[0]) && IsOctalDigit(t[1]) && IsOctalDigit(t[2])
    ensures forall i :: 0 <= i < 3 ==> IsOctalDigit(t[i])
    ensures OctalValue(t) == 64 * HexValue(t[0]) + 8 * HexValue(t[1]) + HexValue(t[2])
  {
    assert t[..2][..1] == t[..1] && t[..1][..0] == [];
    assert OctalValue(t[..1]) == 8 * OctalValue([]) + HexValue(t[0]);
    assert OctalValue(t[..2]) == 8 * OctalValue(t[..1]) + HexValue(t[1]);
  }

  lemma OctalRunOfThree(t: seq<byte>)
    requires |t| >= 3 && IsOctalDigit(t[0]) && IsOctalDigit(t[1]) && IsOctalDigit(t[2])
    ensures OctalRun(t, 3) == 3
  {
    assert t[1..][0] == t[1] && t[1..][1..][0] == t[2];
    assert OctalRun(t[1..][1..], 1) == 1 + OctalRun(t[1..][1..][1..], 0);
    assert OctalRun(t[1..], 2) == 1 + OctalRun(t[1..][1..], 1);
  }

  lemma OctalRead(c: byte, rest: seq<byte>)
    ensures var s := NumericEscape(c, false) + rest;
            && s[0] == BACKSLASH && SimpleEscape(s[1]).None? && IsOctalDigit(s[1])
            && OctalRun(s[1..], 3) == 3
            && (forall i :: 0 <= i < 3 ==> IsOctalDigit(s[1..][..3][i])) && OctalValue(s[1..][..3]) == c
            && s[1..][3..] == rest
  {
    hide OctalRun, OctalValue;
    var s := NumericEscape(c, false) + rest;
    var t := s[1..];
    var d: int := c;
    assert t[0] == 48 + d / 64 && t[1] == 48 + d / 8 % 8 && t[2] == 48 + d % 8;
    assert d == 64 * (d / 64) + 8 * (d / 8 % 8) + d % 8;
    OctalRunOfThree(t);
    OctalOfThree(t[..3]);
  }

  lemma HexRead(c: byte, rest: seq<byte>)
    requires HexRun(rest) == 0
    ensures var s := NumericEscape(c, true) + rest;
            && s[0] == BACKSLASH && SimpleEscape(s[1]).None? && !IsOctalDigit(s[1]) && s[1] == 120
            && HexRun(s[2..]) == 2 && HexNumber(s[2..][..2]) == c && s[2..][2..] == rest
  {
    var s := NumericEscape(c, true) + rest;
    var t := s[2..];
    assert t[1..][1..] == rest;
    assert HexRun(t[1..]) == 1 + HexRun(t[1..][1..]);
    assert t[..2][..1] == t[..1] && t[..1][..0] == [];
    assert HexNumber(t[..1]) == 16 * HexNumber([]) + HexValue(t[0]);
    assert HexNumber(t[..2]) == 16 * HexNumber(t[..1]) + HexValue(t[1]);
  }

  /** Reading inverts escaping, for every byte string and with both kinds of number. */
  lemma {:induction false} ReadEscaped(s: seq<byte>, useHex: bool, lastHex: bool)
    ensures ReadLiteral(Escaped(s, useHex, lastHex)) == Some(s)
  {
    if s != [] {
      var c := s[0];
      var hex := useHex && NeedsNumber(c, lastHex);
      var rest := Escaped(s[1..], useHex, hex);
      ReadEscaped(s[1..], useHex, hex);
      assert s == [c] + s[1..];
      hide EscapeOne, ReadLiteral;
      if ShortEscape(c).Some? {
        ReadShort(c, useHex, lastHex, rest);
      } else if NeedsNumber(c, lastHex) {
        if useHex { NoHexDigitFollows(s[1..]); }
        ReadNumber(c, useHex, lastHex, rest);
      } else {
        ReadPlain(c, useHex, lastHex, rest);
      }
    }
  }

  lemma ReadShort(c: byte, useHex: bool, lastHex: bool, rest: seq<byte>)
    requires ShortEscape(c).Some? && ReadLiteral(rest).Some?
    ensures ReadLiteral(EscapeOne(c, useHex, lastHex) + rest) == Some([c] + ReadLiteral(rest).value)
  {
    ShortIsSimple(c);
    hide ShortEscape, SimpleEscape;
    assert (EscapeOne(c, useHex, lastHex) + rest)[2..] == rest;
  }

  lemma ShortIsSimple(c: byte)
    requires ShortEscape(c).Some?
    ensures SimpleEscape(ShortEscape(c).value) == Some(c)
  {}

  lemma ReadPlain(c: byte, useHex: bool, lastHex: bool, rest: seq<byte>)
    requires ShortEscape(c).None? && !NeedsNumber(c, lastHex) && ReadLiteral(rest).Some?
    ensures ReadLiteral(EscapeOne(c, useHex, lastHex) + rest) == Some([c] + ReadLiteral(rest).value)
  {
    assert (EscapeOne(c, useHex, lastHex) + rest)[1..] == rest;
  }

  lemma ReadNumber(c: byte, useHex: bool, lastHex: bool, rest: seq<byte>)
    requires NeedsNumber(c, lastHex) && ReadLiteral(rest).Some? && (useHex ==> HexRun(rest) == 0)
    ensures ReadLiteral(EscapeOne(c, useHex, lastHex) + rest) == Some([c] + ReadLiteral(rest).value)
  {
    if useHex { HexRead(c, rest); } else { OctalRead(c, rest); }
    assert EscapeOne(c, useHex, lastHex) == NumericEscape(c, useHex);
    hide EscapeOne, NumericEscape, OctalRun, OctalValue, HexRun, HexNumber, SimpleEscape;
  }

  // ---- FilenameIdentifier ---------------------------------------------------------------------

  /** FastHexToBuffer: without leading zeros. */
  function FastHex(c: byte): (s: seq<byte>)
    ensures |s| == if c < 16 then 1 else 2
  {
    if c < 16 then [HexDigit(c)] else [HexDigit(c / 16), HexDigit(c % 16)]
  }

  function IdentifierOne(c: byte): (s: seq<byte>)
    ensures |s| >= 1
  {
    if IsAlnum(c) then [c] else [UNDERSCORE] + FastHex(c)
  }

  function Identifier(name: seq<byte>): seq<byte> {
    if name == [] then [] else IdentifierOne(name[0]) + Identifier(name[1..])
  }

  lemma {:induction false} IdentifierSnoc(name: seq<byte>, n: nat)
    requires n < |name|
    ensures Identifier(name[..n + 1]) == Identifier(name[..n]) + IdentifierOne(name[n])
  {
    hide IdentifierOne;
    if n == 0 {
      assert name[..1][1..] == [] && name[..0] == [];
      assert IdentifierOne(name[0]) + [] == [] + IdentifierOne(name[0]);
    } else {
      IdentifierSnoc(name[1..], n - 1);
      assert name[..n + 1][1..] == name[1..][..n] && name[..n][1..] == name[1..][..n - 1];
      var a, b, c := IdentifierOne(name[0]), Identifier(name[1..][..n - 1]), IdentifierOne(name[n]);
      assert a + (b + c) == (a + b) + c;
    }
  }

  /** FilenameIdentifier */
  method FilenameIdentifier(filename: seq<byte>) returns (result: seq<byte>)
    ensures result == Identifier(filename)
  {
    result := [];
    for i := 0 to |filename|
      invariant result == Identifier(filename[..i])
    {
      IdentifierSnoc(filename, i);
      if IsAlnum(filename[i]) {
        result := result + [filename[i]];
      } else {
        result := result + [UNDERSCORE];
        result := result + FastHex(filename[i]);
      }
    }
    assert filename[..|filename|] == filename;
  }

  ghost predicate Over(alphabet: set<byte>, s: seq<byte>) {
    forall i :: 0 <= i < |s| ==> s[i] in alphabet
  }

  /**
   Byte `c` has one hexadecimal digit, and the alphabet also has the digit of `v` and a byte whose two
   digits are those of `c` and `v`.
   */
  predicate Clash(alphabet: set<byte>, c: byte, v: nat) {
    && 1 <= c < 16 && v < 16
    && c in alphabet && HexDigit(v) in alphabet && 16 * c + v in alphabet && !IsAlnum(16 * c + v)
  }

  lemma HexDigitsDiffer(a: nat, b: nat)
    requires a < 16 && b < 16
    ensures IsAlnum(HexDigit(a)) && HexDigit(a) != UNDERSCORE
    ensures HexDigit(a) == HexDigit(b) ==> a == b
  {}

  lemma IdentifierStarts(s: seq<byte>)
    requires s != []
    ensures Identifier(s) != [] && Identifier(s)[0] == if IsAlnum(s[0]) then s[0] else UNDERSCORE
  {}

  /** A byte below 16 is not taken for another one, unless it clashes. */
  lemma SmallIsFound(alphabet: set<byte>, a: seq<byte>, b: seq<byte>)
    requires Over(alphabet, a) && Over(alphabet, b) && a != [] && b != [] && Identifier(a) == Identifier(b)
    requires !IsAlnum(a[0]) && !IsAlnum(b[0]) && a[0] < 16 && b[0] >= 16
    ensures Clash(alphabet, a[0], b[0] % 16) && a[0] == b[0] / 16
  {
    hide HexDigit, IsAlnum, Identifier;
    var high: nat, low: nat := b[0] / 16, b[0] % 16;
    Unfold(a);
    Unfold(b);
    HexDigitsDiffer(a[0], high);
    HexDigitsDiffer(low, 0);
    HeadTail(HexDigit(a[0]), Identifier(a[1..]), HexDigit(high), HexDigit(low), Identifier(b[1..]));
    IdentifierOf();
    IdentifierStarts(a[1..]);
  }

  lemma HeadTail(c: byte, x: seq<byte>, d: byte, e: byte, y: seq<byte>)
    requires [UNDERSCORE, c] + x == [UNDERSCORE, d, e] + y
    ensures c == d && x == [e] + y
  {
    var r := [UNDERSCORE, c] + x;
    assert r[1] == c && r == [UNDERSCORE, d] + ([e] + y);
    assert r[2..] == x && r[2..] == [e] + y;
  }

  lemma IdentifierOf()
    ensures Identifier([]) == []
  {}

  lemma Unfold(s: seq<byte>)
    requires s != [] && !IsAlnum(s[0])
    ensures s[0] < 16 ==> Identifier(s) == [UNDERSCORE, HexDigit(s[0])] + Identifier(s[1..])
    ensures s[0] >= 16 ==> Identifier(s) == [UNDERSCORE, HexDigit(s[0] / 16), HexDigit(s[0] % 16)] + Identifier(s[1..])
  {
    hide HexDigit, IsAlnum, IdentifierOne;
    NumberOf(s[0]);
  }

  lemma NumberOf(c: byte)
    requires !IsAlnum(c)
    ensures c < 16 ==> IdentifierOne(c) == [UNDERSCORE, HexDigit(c)]
    ensures c >= 16 ==> IdentifierOne(c) == [UNDERSCORE, HexDigit(c / 16), HexDigit(c % 16)]
  {
    hide HexDigit, IsAlnum;
  }

  lemma FirstByteFound(alphabet: set<byte>, a: seq<byte>, b: seq<byte>)
    requires Over(alphabet, a) && Over(alphabet, b) && a != [] && b != [] && Identifier(a) == Identifier(b)
    requires forall c: byte, v: nat :: !Clash(alphabet, c, v)
    ensures a[0] == b[0] && Identifier(a[1..]) == Identifier(b[1..])
  {
    hide HexDigit, IsAlnum, Clash;
    IdentifierStarts(a);
    IdentifierStarts(b);
    UnderscoreIsNoAlnum();
    var r, c, d := Identifier(a), a[0], b[0];
    if !IsAlnum(c) {
      if c < 16 && d >= 16 { SmallIsFound(alphabet, a, b); }
      if d < 16 && c >= 16 { SmallIsFound(alphabet, b, a); }
      if c < 16 {
        HexDigitsDiffer(c, d);
        assert r[1] == HexDigit(c) == HexDigit(d);
      } else {
        HexDigitsDiffer(c / 16, d / 16);
        HexDigitsDiffer(c % 16, d % 16);
        assert r[1] == HexDigit(c / 16) == HexDigit(d / 16) && r[2] == HexDigit(c % 16) == HexDigit(d % 16);
      }
    }
    assert IdentifierOne(c) + Identifier(a[1..]) == IdentifierOne(c) + Identifier(b[1..]);
    assert (IdentifierOne(c) + Identifier(a[1..]))[|IdentifierOne(c)|..] == Identifier(a[1..]);
  }

  lemma UnderscoreIsNoAlnum()
    ensures !IsAlnum(UNDERSCORE)
  {}

  lemma {:induction false} Injective(alphabet: set<byte>, a: seq<byte>, b: seq<byte>)
    requires Over(alphabet, a) && Over(alphabet, b) && Identifier(a) == Identifier(b)
    requires forall c: byte, v: nat :: !Clash(alphabet, c, v)
    ensures a == b
  {
    if a != [] && b != [] {
      FirstByteFound(alphabet, a, b);
      Injective(alphabet, a[1..], b[1..]);
      assert a == [a[0]] + a[1..] && b == [b[0]] + b[1..];
    }
  }

  /** A clash is a collision: the small byte followed by the digit reads like the other byte. */
  lemma ClashCollides(c: byte, v: nat)
    requires 1 <= c < 16 && v < 16 && !IsAlnum(16 * c + v)
    ensures Identifier([c, HexDigit(v)]) == Identifier([16 * c + v])
  {
    var a, b := [c, HexDigit(v)], [16 * c + v];
    assert a[1..] == [HexDigit(v)] && a[1..][1..] == [] && b[1..] == [];
    assert Identifier(a[1..]) == [HexDigit(v)] + [];
    assert IdentifierOne(c) == [UNDERSCORE, HexDigit(c)];
    assert (16 * c + v) / 16 == c && (16 * c + v) % 16 == v;
  }

  /** Names over an alphabet never share an identifier exactly if nothing in the alphabet clashes. */
  lemma InjectiveExactly(alphabet: set<byte>)
    ensures (forall a: seq<byte>, b: seq<byte> ::
               Over(alphabet, a) && Over(alphabet, b) && Identifier(a) == Identifier(b) ==> a == b)
       <==> forall c: byte, v: nat :: !Clash(alphabet, c, v)
  {
    hide Identifier, HexDigit, IsAlnum;
    if forall c: byte, v: nat :: !Clash(alphabet, c, v) {
      forall a: seq<byte>, b: seq<byte> | Over(alphabet, a) && Over(alphabet, b) && Identifier(a) == Identifier(b)
        ensures a == b
      {
        Injective(alphabet, a, b);
      }
    } else {
      var c: byte, v: nat :| Clash(alphabet, c, v);
      ClashCollides(c, v);
      var a, b := [c, HexDigit(v)], [16 * c + v];
      assert Over(alphabet, a) && Over(alphabet, b) && |a| != |b|;
    }
  }

  predicate IsNulOrWide(c: byte) { c == 0 || c >= 16 }

  /** So it is for all names whose bytes are NUL or at least 16. */
  lemma IdentifierInjective(a: seq<byte>, b: seq<byte>)
    requires forall i :: 0 <= i < |a| ==> IsNulOrWide(a[i])
    requires forall i :: 0 <= i < |b| ==> IsNulOrWide(b[i])
    requires Identifier(a) == Identifier(b)
    ensures a == b
  {
    hide Identifier, HexDigit, IsAlnum;
    var alphabet := set c: byte | IsNulOrWide(c);
    InjectiveExactly(alphabet);
    assert Over(alphabet, a) && Over(alphabet, b);
  }

  /** With all bytes there are clashes: a tab and a digit read like a byte. */
  lemma SmallBytesCollide()
    ensures Identifier([9, 0x30]) == Identifier([0x90])
  {
    ClashCollides(9, 0);
  }

  // ---- SplitStringUsing -----------------------------------------------------------------------

  /** The number of bytes before the first delimiter. */
  function RunLength(s: seq<byte>, delims: seq<byte>): (n: nat)
    ensures n <= |s|
    ensures forall i :: 0 <= i < n ==> s[i] !in delims
    ensures n < |s| ==> s[n] in delims
  {
    if s == [] || s[0] in delims then 0 else 1 + RunLength(s[1..], delims)
  }

  /** The maximal pieces of `s` without delimiters. */
  function Pieces(s: seq<byte>, delims: seq<byte>): seq<seq<byte>>
    decreases |s|
  {
    if s == [] then []
    else if s[0] in delims then Pieces(s[1..], delims)
    else
      var n := RunLength(s, delims);
      [s[..n]] + Pieces(s[n..], delims)
  }

  lemma {:induction false} RunLengthIs(s: seq<byte>, delims: seq<byte>, n: nat)
    requires n <= |s| && (forall i :: 0 <= i < n ==> s[i] !in delims) && (n < |s| ==> s[n] in delims)
    ensures RunLength(s, delims) == n
  {
    if n > 0 { RunLengthIs(s[1..], delims, n - 1); }
  }

  /** The fast path of SplitStringToIteratorUsing, for one delimiter. */
  method SplitAtOne(full: seq<byte>, c: byte) returns (result: seq<seq<byte>>)
    ensures result == Pieces(full, [c])
  {
    result := [];
    var p := 0;
    assert full[0..] == full;
    while p != |full|
      invariant 0 <= p <= |full| && result + Pieces(full[p..], [c]) == Pieces(full, [c])
      decreases |full| - p
    {
      if full[p] == c {
        assert full[p..][1..] == full[p + 1..];
        p := p + 1;
      } else {
        var start := p;
        p := p + 1;
        while p != |full| && full[p] != c
          invariant start < p <= |full| && forall i :: start <= i < p ==> full[i] != c
        {
          p := p + 1;
        }
        PieceFound(full, start, p, [c], result);
        result := result + [full[start..p]];
      }
    }
    assert full[|full|..] == [];
  }

  lemma PieceFound(full: seq<byte>, start: nat, end: nat, delims: seq<byte>, result: seq<seq<byte>>)
    requires start < end <= |full| && (forall i :: start <= i < end ==> full[i] !in delims)
    requires end < |full| ==> full[end] in delims
    ensures result + Pieces(full[start..], delims) == (result + [full[start..end]]) + Pieces(full[end..], delims)
  {
    RunLengthIs(full[start..], delims, end - start);
    assert full[start..][..end - start] == full[start..end] && full[start..][end - start..] == full[end..];
  }

  /** find_first_not_of and find_first_of: the first position from `from` on, or the length. */
  method FindFirst(s: seq<byte>, delims: seq<byte>, from: nat, isDelim: bool) returns (i: nat)
    requires from <= |s|
    ensures from <= i <= |s| && (i < |s| ==> (s[i] in delims) == isDelim)
    ensures forall k :: from <= k < i ==> (s[k] in delims) != isDelim
  {
    i := from;
    while i < |s| && (s[i] in delims) != isDelim
      invariant from <= i <= |s|
      invariant forall k :: from <= k < i ==> (s[k] in delims) != isDelim
    {
      i := i + 1;
    }
  }

  lemma {:induction false} DelimsSkipped(s: seq<byte>, delims: seq<byte>, from: nat, to: nat)
    requires from <= to <= |s| && forall k :: from <= k < to ==> s[k] in delims
    ensures Pieces(s[from..], delims) == Pieces(s[to..], delims)
    decreases |s| - from
  {
    if from < to {
      assert s[from..][1..] == s[from + 1..];
      DelimsSkipped(s, delims, from + 1, to);
    }
  }

  /** SplitStringToIteratorUsing: both paths split into the same pieces. */
  method SplitStringUsing(full: seq<byte>, delims: seq<byte>) returns (result: seq<seq<byte>>)
    ensures result == Pieces(full, delims)
  {
    if |delims| == 1 {
      result := SplitAtOne(full, delims[0]);
      assert delims == [delims[0]];
      return;
    }
    result := [];
    assert full[0..] == full;
    var begin := FindFirst(full, delims, 0, false);
    DelimsSkipped(full, delims, 0, begin);
    while begin < |full|
      invariant begin <= |full| && (begin < |full| ==> full[begin] !in delims)
      invariant result + Pieces(full[begin..], delims) == Pieces(full, delims)
      decreases |full| - begin
    {
      var end := FindFirst(full, delims, begin, true);
      PieceFound(full, begin, end, delims, result);
      if end == |full| {
        assert full[end..] == [] && full[begin..] == full[begin..end];
        result := result + [full[begin..]];
        return;
      }
      result := result + [full[begin..end]];
      begin := FindFirst(full, delims, end, false);
      DelimsSkipped(full, delims, end, begin);
    }
    assert full[|full|..] == [];
  }

  /** The pieces are all that is not a delimiter, in order; none is empty or has a delimiter. */
  lemma {:induction false} PiecesAreTheRest(s: seq<byte>, delims: seq<byte>)
    ensures Joined(Pieces(s, delims)) == Without(s, delims)
    ensures forall k :: 0 <= k < |Pieces(s, delims)| ==> Pieces(s, delims)[k] != []
    decreases |s|
  {
    if s != [] {
      if s[0] in delims {
        PiecesAreTheRest(s[1..], delims);
      } else {
        var n := RunLength(s, delims);
        PiecesAreTheRest(s[n..], delims);
        WithoutRun(s, delims, n);
        var p := Pieces(s, delims);
        assert p[0] == s[..n] && p[1..] == Pieces(s[n..], delims);
      }
    }
  }

  function Joined(pieces: seq<seq<byte>>): seq<byte> {
    if pieces == [] then [] else pieces[0] + Joined(pieces[1..])
  }

  function Without(s: seq<byte>, delims: seq<byte>): seq<byte> {
    if s == [] then [] else (if s[0] in delims then [] else [s[0]]) + Without(s[1..], delims)
  }

  lemma {:induction false} WithoutRun(s: seq<byte>, delims: seq<byte>, n: nat)
    requires n <= |s| && forall i :: 0 <= i < n ==> s[i] !in delims
    ensures Without(s, delims) == s[..n] + Without(s[n..], delims)
  {
    if n > 0 {
      WithoutRun(s[1..], delims, n - 1);
      assert s[1..][n - 1..] == s[n..] && s[..n] == [s[0]] + s[1..][..n - 1];
    } else {
      assert s[0..] == s && s[..0] == [];
    }
  }
}
