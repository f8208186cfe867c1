/**
 What text is: the check of section 4 of RFC 3629 accepts exactly the sequences of encoded
 Unicode scalar values. Names on disk and in the user database have to pass it
 (kernel/src/disk/format.rs, kernel/src/auth/users.rs).
 */
module Utf8 {
  import opened Bytes
  import opened Arith

  /** A code point that is not a surrogate. */
  predicate Scalar(c: nat) { c < 0xD800 || 0xE000 <= c < 0x11_0000 }

  predicate AllScalar(cs: seq<nat>) { forall i | 0 <= i < |cs| :: Scalar(cs[i]) }

  function Encoded(c: nat): (s: str)
    requires Scalar(c)
    ensures |s| > 0
  {
    if c < 0x80 then [c]
    else if c < 0x800 then [0xC0 + c / 64, 0x80 + c % 64]
    else if c < 0x1_0000 then [0xE0 + c / 4096, 0x80 + c / 64 % 64, 0x80 + c % 64]
    else [0xF0 + c / 0x4_0000, 0x80 + c / 4096 % 64, 0x80 + c / 64 % 64, 0x80 + c % 64]
  }

  function EncodedAll(cs: seq<nat>): str
    requires AllScalar(cs)
  {
    if cs == [] then [] else Encoded(cs[0]) + EncodedAll(cs[1..])
  }

  // ---------- numbers in groups of six bits ----------

  lemma TwoGroups(h: nat, l: nat)
    requires l < 64
    ensures (h * 64 + l) / 64 == h && (h * 64 + l) % 64 == l
  {
    DivisionUnique(h * 64 + l, 64, h);
  }

  lemma ThreeGroups(h: nat, m: nat, l: nat)
    requires m < 64 && l < 64
    ensures var c := h * 4096 + m * 64 + l; c / 4096 == h && c / 64 == h * 64 + m && c / 64 % 64 == m && c % 64 == l
  {
    var c := h * 4096 + m * 64 + l;
    DivisionUnique(c, 4096, h);
    DivisionUnique(c, 64, h * 64 + m);
    TwoGroups(h, m);
  }

  lemma FourGroups(h: nat, k: nat, m: nat, l: nat)
    requires k < 64 && m < 64 && l < 64
    ensures var c := h * 0x4_0000 + k * 4096 + m * 64 + l;
            c / 0x4_0000 == h && c / 4096 == h * 64 + k && c / 4096 % 64 == k && c / 64 % 64 == m && c % 64 == l
  {
    var c := h * 0x4_0000 + k * 4096 + m * 64 + l;
    DivisionUnique(c, 0x4_0000, h);
    ThreeGroups(h * 64 + k, m, l);
    TwoGroups(h, k);
  }

  // ---------- both directions ----------

  /** The bytes of an encoded character lie where the check wants them. */
  lemma EncodedBytes(c: nat)
    requires Scalar(c)
    ensures var e := Encoded(c);
            if c < 0x80 then |e| == 1 && e[0] < 0x80
            else if c < 0x800 then |e| == 2 && 0xC2 <= e[0] <= 0xDF && Tail(e[1])
            else if c < 0x1_0000 then
              && |e| == 3 && 0xE0 <= e[0] <= 0xEF && Tail(e[1]) && Tail(e[2])
              && (e[0] == 0xE0 ==> e[1] >= 0xA0) && (e[0] == 0xED ==> e[1] <= 0x9F)
            else
              && |e| == 4 && 0xF0 <= e[0] <= 0xF4 && Tail(e[1]) && Tail(e[2]) && Tail(e[3])
              && (e[0] == 0xF0 ==> e[1] >= 0x90) && (e[0] == 0xF4 ==> e[1] <= 0x8F)
  {
    var l, m, k := c % 64, c / 64 % 64, c / 4096 % 64;
    if 0x800 <= c < 0x1_0000 {
      assert c == c / 4096 * 4096 + m * 64 + l by { SplitThree(c); }
    } else if c >= 0x1_0000 {
      assert c == c / 0x4_0000 * 0x4_0000 + k * 4096 + m * 64 + l by { SplitFour(c); }
    }
  }

  lemma SplitThree(c: nat)
    ensures c == c / 4096 * 4096 + c / 64 % 64 * 64 + c % 64
  {
    DivisionUnique(c, 4096, c / 64 / 64);
  }

  lemma SplitFour(c: nat)
    ensures c == c / 0x4_0000 * 0x4_0000 + c / 4096 % 64 * 4096 + c / 64 % 64 * 64 + c % 64
  {
    SplitThree(c);
    DivisionUnique(c, 0x4_0000, c / 4096 / 64);
  }

  /** An encoded character is recognised whatever follows it. */
  lemma EncodedRead(c: nat, rest: str)
    requires Scalar(c)
    ensures CharLen(Encoded(c) + rest) == |Encoded(c)|
  {
    hide Encoded;
    EncodedBytes(c);
    var e := Encoded(c);
    assert forall i | 0 <= i < |e| :: (e + rest)[i] == e[i];
  }

  lemma {:induction false} EncodedIsText(cs: seq<nat>)
    requires AllScalar(cs)
    ensures ValidUtf8(EncodedAll(cs))
  {
    hide CharLen, Encoded;
    if cs != [] {
      EncodedIsText(cs[1..]);
      var e, rest := Encoded(cs[0]), EncodedAll(cs[1..]);
      EncodedRead(cs[0], rest);
      assert (e + rest)[|e|..] == rest;
    }
  }

  /** A recognised character is the encoding of a scalar value. */
  lemma ReadEncoded(s: str) returns (c: nat)
    requires CharLen(s) > 0
    ensures Scalar(c) && Encoded(c) == s[..CharLen(s)]
  {
    var n := CharLen(s);
    var a: int := s[0];
    if n == 1 {
      c := a;
    } else if n == 2 {
      var l: int := s[1];
      c := (a - 0xC0) * 64 + (l - 0x80);
      TwoGroups(a - 0xC0, l - 0x80);
    } else if n == 3 {
      var m: int, l: int := s[1], s[2];
      c := (a - 0xE0) * 4096 + (m - 0x80) * 64 + (l - 0x80);
      ThreeGroups(a - 0xE0, m - 0x80, l - 0x80);
    } else {
      var k: int, m: int, l: int := s[1], s[2], s[3];
      c := (a - 0xF0) * 0x4_0000 + (k - 0x80) * 4096 + (m - 0x80) * 64 + (l - 0x80);
      FourGroups(a - 0xF0, k - 0x80, m - 0x80, l - 0x80);
    }
  }

  lemma {:induction false} TextIsEncoded(s: str) returns (cs: seq<nat>)
    requires ValidUtf8(s)
    ensures AllScalar(cs) && EncodedAll(cs) == s
    decreases |s|
  {
    hide CharLen, Encoded;
    cs := [];
    if s != [] {
      var n := CharLen(s);
      var c := ReadEncoded(s);
      var rest := TextIsEncoded(s[n..]);
      cs := [c] + rest;
      assert cs[1..] == rest && s == s[..n] + s[n..];
    }
  }

  /** Text is what encodes some scalar values, and nothing else. */
  lemma TextExactly(s: str)
    ensures ValidUtf8(s) <==> exists cs :: AllScalar(cs) && EncodedAll(cs) == s
  {
    hide ValidUtf8, EncodedAll;
    if ValidUtf8(s) {
      var cs := TextIsEncoded(s);
    }
    if exists cs :: AllScalar(cs) && EncodedAll(cs) == s {
      var cs :| AllScalar(cs) && EncodedAll(cs) == s;
      EncodedIsText(cs);
    }
  }

  // ---------- white space ----------

  /** The code points with the property White_Space. */
  predicate WhiteSpace(c: nat) {
    || 9 <= c <= 13 || c == 0x20 || c == 0x85 || c == 0xA0 || c == 0x1680 || 0x2000 <= c <= 0x200A
    || c == 0x2028 || c == 0x2029 || c == 0x202F || c == 0x205F || c == 0x3000
  }

  /** What `trim` takes away at either end is exactly an encoded white space character. */
  lemma SpaceExactly(s: str)
    ensures IsSpace(s) <==> exists c :: WhiteSpace(c) && Encoded(c) == s
  {
    if IsSpace(s) {
      var c := SpaceRead(s);
    }
    if exists c :: WhiteSpace(c) && Encoded(c) == s {
      var c :| WhiteSpace(c) && Encoded(c) == s;
      SpaceEncoded(c);
    }
  }

  lemma SpaceEncoded(c: nat)
    requires WhiteSpace(c)
    ensures IsSpace(Encoded(c))
  {
  }

  lemma SpaceRead(s: str) returns (c: nat)
    requires IsSpace(s)
    ensures WhiteSpace(c) && Encoded(c) == s
  {
    if |s| == 1 {
      c := s[0];
    } else if |s| == 2 {
      var l: int := s[1];
      c := 2 * 64 + (l - 0x80);
    } else {
      var a: int, m: int, l: int := s[0], s[1], s[2];
      c := (a - 0xE0) * 4096 + (m - 0x80) * 64 + (l - 0x80);
      ThreeGroups(a - 0xE0, m - 0x80, l - 0x80);
    }
  }
}
