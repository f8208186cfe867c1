/**
 Bytes, machine words and text, shared by the other modules.

 A Rust `str` is its UTF-8 bytes: its length, its comparisons and its slices all
 count bytes, so text is modelled as a sequence of bytes.
 */
module Bytes {

  type byte = b: int | 0 <= b < 0x100
  type u16 = x: int | 0 <= x < 0x1_0000
  type u32 = x: int | 0 <= x < 0x1_0000_0000
  type u64 = x: int | 0 <= x < 0x1_0000_0000_0000_0000

  const U16_MAX: u16 := 0xFFFF
  const U32_MAX: u32 := 0xFFFF_FFFF
  const U64_MODULUS: nat := 0x1_0000_0000_0000_0000

  type str = seq<byte>

  function Min(a: int, b: int): int { if a <= b then a else b }

  function Max(a: int, b: int): int { if a >= b then a else b }

  /** `u32::saturating_add`. */
  function SaturatingAdd32(a: u32, b: u32): u32 { if a + b > U32_MAX then U32_MAX else a + b }

  /** `u16::saturating_add`. */
  function SaturatingAdd16(a: u16, b: u16): u16 { if a + b > U16_MAX then U16_MAX else a + b }

  /** The bytes of a text literal. */
  function Ascii(text: string): (s: str)
    requires forall i | 0 <= i < |text| :: text[i] < 128 as char
    ensures |s| == |text|
  {
    seq(|text|, i requires 0 <= i < |text| => text[i] as int)
  }

  function Zeros(n: nat): (s: seq<byte>)
    ensures |s| == n
  {
    seq(n, _ => 0)
  }

  // ---------- little-endian words ----------

  function Pow256(width: nat): (p: nat)
    ensures p > 0
  {
    if width == 0 then 1 else 256 * Pow256(width - 1)
  }

  /** `to_le_bytes` for a word of `width` bytes. */
  function ToLittleEndian(value: nat, width: nat): (bytes: seq<byte>)
    ensures |bytes| == width
  {
    if width == 0 then [] else [value % 256] + ToLittleEndian(value / 256, width - 1)
  }

  /** `from_le_bytes`. */
  function FromLittleEndian(bytes: seq<byte>): (value: nat)
    ensures value < Pow256(|bytes|)
  {
    if bytes == [] then 0 else
      assert Pow256(|bytes|) == 256 * Pow256(|bytes| - 1);
      bytes[0] + 256 * FromLittleEndian(bytes[1..])
  }

  lemma {:induction false} LittleEndianRoundTrip(value: nat, width: nat)
    requires value < Pow256(width)
    ensures FromLittleEndian(ToLittleEndian(value, width)) == value
  {
    if width > 0 {
      LittleEndianRoundTrip(value / 256, width - 1);
      assert ToLittleEndian(value, width)[1..] == ToLittleEndian(value / 256, width - 1);
    }
  }

  lemma {:induction false} LittleEndianInverse(bytes: seq<byte>)
    ensures ToLittleEndian(FromLittleEndian(bytes), |bytes|) == bytes
  {
    if bytes != [] {
      LittleEndianInverse(bytes[1..]);
      var rest := FromLittleEndian(bytes[1..]);
      assert (bytes[0] + 256 * rest) % 256 == bytes[0] && (bytes[0] + 256 * rest) / 256 == rest;
    }
  }

  lemma WordSizes()
    ensures Pow256(1) == 0x100 && Pow256(2) == 0x1_0000
    ensures Pow256(4) == 0x1_0000_0000
    ensures Pow256(8) == U64_MODULUS
  {
    assert Pow256(3) == 0x100_0000;
    assert Pow256(6) == 0x1_0000_0000_0000;
  }

  function Le16(x: u16): (b: seq<byte>)
    ensures |b| == 2 && FromLittleEndian(b) == x
  {
    WordSizes(); LittleEndianRoundTrip(x, 2); ToLittleEndian(x, 2)
  }

  function Le32(x: u32): (b: seq<byte>)
    ensures |b| == 4 && FromLittleEndian(b) == x
  {
    WordSizes(); LittleEndianRoundTrip(x, 4); ToLittleEndian(x, 4)
  }

  function Le64(x: u64): (b: seq<byte>)
    ensures |b| == 8 && FromLittleEndian(b) == x
  {
    WordSizes(); LittleEndianRoundTrip(x, 8); ToLittleEndian(x, 8)
  }

  // ---------- UTF-8 ----------

  /** Length of the well-formed UTF-8 character that starts `s`, or 0 when there is none. */
  function CharLen(s: str): (n: nat)
    ensures n <= |s| && n <= 4
  {
    if |s| == 0 then 0
    else if s[0] < 0x80 then 1
    else if |s| >= 2 && 0xC2 <= s[0] <= 0xDF && Tail(s[1]) then 2
    else if |s| >= 3 && 0xE0 <= s[0] <= 0xEF && Tail(s[1]) && Tail(s[2])
      && (s[0] == 0xE0 ==> s[1] >= 0xA0) && (s[0] == 0xED ==> s[1] <= 0x9F) then 3
    else if |s| >= 4 && 0xF0 <= s[0] <= 0xF4 && Tail(s[1]) && Tail(s[2]) && Tail(s[3])
      && (s[0] == 0xF0 ==> s[1] >= 0x90) && (s[0] == 0xF4 ==> s[1] <= 0x8F) then 4
    else 0
  }

  predicate Tail(b: byte) { 0x80 <= b <= 0xBF }

  /** `core::str::from_utf8(s).is_ok()`. */
  predicate ValidUtf8(s: str)
    decreases |s|
  {
    s == [] || (CharLen(s) > 0 && ValidUtf8(s[CharLen(s)..]))
  }

  predicate IsAscii(s: str) { forall i | 0 <= i < |s| :: s[i] < 0x80 }

  lemma {:induction false} AsciiIsUtf8(s: str)
    requires IsAscii(s)
    ensures ValidUtf8(s)
  {
    if s != [] {
      AsciiIsUtf8(s[1..]);
    }
  }

  // ---------- `str::trim` ----------

  /** Length of the White_Space character at the front of `s`, or 0. */
  function SpaceAtFront(s: str): (n: nat)
    ensures n <= |s| && n <= 3
    ensures n > 0 ==> s[0] in {9, 10, 11, 12, 13, 32, 0xC2, 0xE1, 0xE2, 0xE3}
  {
    if |s| >= 1 && IsSpace(s[..1]) then 1
    else if |s| >= 2 && IsSpace(s[..2]) then 2
    else if |s| >= 3 && IsSpace(s[..3]) then 3
    else 0
  }

  /** Length of the White_Space character at the back of `s`, or 0. */
  function SpaceAtBack(s: str): (n: nat)
    ensures n <= |s| && n <= 3
    ensures n > 0 ==> s[|s| - 1] <= 32 || s[|s| - 1] >= 0x80
  {
    if |s| >= 1 && IsSpace(s[|s| - 1..]) then 1
    else if |s| >= 2 && IsSpace(s[|s| - 2..]) then 2
    else if |s| >= 3 && IsSpace(s[|s| - 3..]) then 3
    else 0
  }

  /** The UTF-8 encodings of the characters with the Unicode property White_Space. */
  predicate IsSpace(c: str)
    ensures IsSpace(c) ==> |c| > 0 && c[0] in {9, 10, 11, 12, 13, 32, 0xC2, 0xE1, 0xE2, 0xE3}
    ensures IsSpace(c) ==> c[|c| - 1] <= 32 || c[|c| - 1] >= 0x80
  {
    || (|c| == 1 && (9 <= c[0] <= 13 || c[0] == 32))
    || c == [0xC2, 0x85]
    || c == [0xC2, 0xA0]
    || c == [0xE1, 0x9A, 0x80]
    || (|c| == 3 && c[0] == 0xE2 && c[1] == 0x80 &&
        (0x80 <= c[2] <= 0x8A || c[2] in {0xA8, 0xA9, 0xAF}))
    || c == [0xE2, 0x81, 0x9F]
    || c == [0xE3, 0x80, 0x80]
  }

  function TrimStart(s: str): (t: str)
    ensures |t| <= |s|
    decreases |s|
  {
    if SpaceAtFront(s) > 0 then TrimStart(s[SpaceAtFront(s)..]) else s
  }

  function TrimEnd(s: str): (t: str)
    ensures |t| <= |s|
    decreases |s|
  {
    if SpaceAtBack(s) > 0 then TrimEnd(s[..|s| - SpaceAtBack(s)]) else s
  }

  function Trim(s: str): (t: str)
    ensures |t| <= |s|
  {
    TrimEnd(TrimStart(s))
  }

  /** A byte that neither starts nor ends a White_Space character. */
  lemma TrimStartPrintable(s: str)
    requires s != [] && Printable(s[0])
    ensures TrimStart(s) == s
  {
    hide IsSpace;
  }

  lemma BackIsSpace(s: str)
    requires SpaceAtBack(s) > 0
    ensures var t := s[|s| - SpaceAtBack(s)..]; t != [] && t[0] in {9, 10, 11, 12, 13, 32, 0xC2, 0xE1, 0xE2, 0xE3}
  {
    hide IsSpace;
  }

  lemma BlankAtBack(s: str)
    requires s != [] && (s[|s| - 1] == 32 || s[|s| - 1] == 9)
    ensures SpaceAtBack(s) == 1
  {
    assert s[|s| - 1..] == [s[|s| - 1]];
  }

  predicate Printable(b: byte) { 33 <= b < 0x80 }

  /** Text that starts and ends with printable ASCII is left as it is. */
  lemma TrimIdentity(s: str)
    requires s == [] || (Printable(s[0]) && Printable(s[|s| - 1]))
    ensures Trim(s) == s
  {
  }

  // ---------- `str` order ----------

  /** `left < right` as Rust compares strings: byte by byte. */
  predicate StrLess(left: str, right: str) {
    right != [] && (left == [] || left[0] < right[0] || (left[0] == right[0] && StrLess(left[1..], right[1..])))
  }

  lemma {:induction false} PrefixLess(a: str, b: str)
    requires a < b
    ensures StrLess(a, b)
  {
    if a != [] {
      PrefixLess(a[1..], b[1..]);
    }
  }

  lemma {:induction false} StrLessTotal(a: str, b: str)
    ensures a == b || StrLess(a, b) || StrLess(b, a)
    ensures !(StrLess(a, b) && StrLess(b, a))
    ensures !StrLess(a, a)
  {
    if a != [] && b != [] {
      StrLessTotal(a[1..], b[1..]);
      if a[0] == b[0] && a[1..] == b[1..] {
        assert a == [a[0]] + a[1..] == [b[0]] + b[1..] == b;
      }
    }
    StrLessIrreflexive(a);
  }

  lemma {:induction false} StrLessIrreflexive(a: str)
    ensures !StrLess(a, a)
  {
    if a != [] {
      StrLessIrreflexive(a[1..]);
    }
  }

  lemma {:induction false} StrLessTransitive(a: str, b: str, c: str)
    requires StrLess(a, b) && StrLess(b, c)
    ensures StrLess(a, c)
  {
    if a != [] && a[0] == b[0] && b[0] == c[0] {
      StrLessTransitive(a[1..], b[1..], c[1..]);
    }
  }
}
