/**
 The IPv4 header checksum (kernel/src/net/ipv4.rs), as in section 3.1 of RFC 791 and
 section 1 of RFC 1071.
 */
module Checksum {
  import opened Bytes
  import opened Arith

  const WORD: nat := 0x1_0000
  const SUM: nat := 0x1_0000_0000

  /** The sum of the big-endian 16-bit words; an odd last byte is the high half of a word. */
  function WordSum(header: seq<byte>): nat {
    if header == [] then 0
    else if |header| == 1 then header[0] * 256
    else header[0] * 256 + header[1] + WordSum(header[2..])
  }

  /** End-around carry until the sum fits 16 bits. */
  function Folded(sum: nat): nat {
    if sum < WORD then sum else Folded(sum % WORD + sum / WORD)
  }

  /** The checksum of a header whose words add up to `sum`, in 32 bits. */
  function Complement(sum: nat): (c: int) { 0xFFFF - Folded(sum % SUM) }

  // ---------- the loops ----------

  /** `ipv4_checksum`: add up the words, fold, complement. */
  method Ipv4Checksum(header: seq<byte>) returns (r: u16)
    ensures r == Complement(WordSum(header))
  {
    var sum := AddWords(header);
    FoldExact(sum);
    var folded := Fold(sum);
    r := 0xFFFF - folded;
  }

  method AddWords(header: seq<byte>) returns (sum: u32)
    ensures sum == WordSum(header) % SUM
  {
    sum := 0;
    var i := 0;
    assert header[0..] == header;
    while i < |header|
      invariant 0 <= i <= |header|
      invariant (sum + WordSum(header[i..])) % SUM == WordSum(header) % SUM
    {
      var low: byte := if i + 1 < |header| then header[i + 1] else 0;
      var word := header[i] * 256 + low;
      SumHead(header, i);
      i := if i + 1 < |header| then i + 2 else i + 1;
      WrappingAdd(sum, word, WordSum(header[i..]));
      sum := (sum + word) % SUM;
    }
    assert header[i..] == [];
  }

  method Fold(start: u32) returns (sum: u32)
    ensures sum == Folded(start)
  {
    sum := start;
    while sum / WORD != 0
      invariant Folded(sum) == Folded(start)
      decreases sum
    {
      sum := sum % WORD + sum / WORD;
    }
  }

  lemma WrappingAdd(sum: nat, word: nat, rest: nat)
    ensures ((sum + word) % SUM + rest) % SUM == (sum + (word + rest)) % SUM
  {
  }

  lemma SumHead(header: seq<byte>, i: nat)
    requires i < |header|
    ensures WordSum(header[i..]) ==
              header[i] * 256 + (if i + 1 < |header| then header[i + 1] else 0)
              + WordSum(header[if i + 1 < |header| then i + 2 else i + 1..])
  {
    if i + 1 < |header| {
      assert header[i..][2..] == header[i + 2..];
    }
  }

  // ---------- what folding computes ----------

  /** Folding is reduction modulo 65535, with 65535 instead of 0 for a non-zero sum. */
  lemma {:induction false} FoldExact(sum: nat)
    ensures Folded(sum) < WORD
    ensures Folded(sum) == if sum == 0 then 0 else if sum % 0xFFFF == 0 then 0xFFFF else sum % 0xFFFF
    decreases sum
  {
    if sum >= WORD {
      var hi, lo := sum / WORD, sum % WORD;
      FoldExact(lo + hi);
      assert sum == hi * 0xFFFF + (lo + hi);
      RemainderPlus(hi, lo + hi);
    } else if sum < 0xFFFF {
      DivisionUnique(sum, 0xFFFF, 0);
    } else {
      DivisionUnique(sum, 0xFFFF, 1);
    }
  }

  lemma RemainderPlus(k: nat, x: nat)
    ensures (k * 0xFFFF + x) % 0xFFFF == x % 0xFFFF
  {
    var q := x / 0xFFFF;
    assert x == q * 0xFFFF + x % 0xFFFF;
    DivisionUnique(k * 0xFFFF + x, 0xFFFF, k + q);
  }

  /** Adding the complement completes the sum to a multiple of 65535 without leaving 32 bits. */
  lemma ComplementCompletes(sum: nat)
    ensures var t := sum % SUM;
            var c := Complement(sum);
            0 <= c <= 0xFFFF && 0 < t + c < SUM && (t + c) % 0xFFFF == 0
  {
    var t := sum % SUM;
    FoldExact(t);
    var q, r := t / 0xFFFF, t % 0xFFFF;
    assert t == q * 0xFFFF + r;
    if t > 0 && r > 0 {
      assert t + Complement(sum) == (q + 1) * 0xFFFF;
      DivisionUnique(t + Complement(sum), 0xFFFF, q + 1);
    } else if t == 0 {
      DivisionUnique(0xFFFF, 0xFFFF, 1);
    }
  }

  // ---------- self-verification ----------

  function WithChecksum(header: seq<byte>, at: nat, c: u16): seq<byte>
    requires at + 2 <= |header|
  {
    header[at := c / 256][at + 1 := c % 256]
  }

  lemma {:induction false} SumStored(header: seq<byte>, at: nat, c: u16)
    requires at % 2 == 0 && at + 2 <= |header| && header[at] == 0 && header[at + 1] == 0
    ensures WordSum(WithChecksum(header, at, c)) == WordSum(header) + c
    decreases at
  {
    var s := WithChecksum(header, at, c);
    if at == 0 {
      assert s[2..] == header[2..];
      assert (c / 256) * 256 + c % 256 == c;
    } else {
      SumStored(header[2..], at - 2, c);
      assert s[2..] == WithChecksum(header[2..], at - 2, c);
    }
  }

  /**
   For a header of any length with a zeroed field at an even offset, storing the computed
   checksum there makes the checksum of the result 0. The 32-bit sum may wrap on the way.
   */
  lemma StoredVerifies(header: seq<byte>, at: nat)
    requires at % 2 == 0 && at + 2 <= |header| && header[at] == 0 && header[at + 1] == 0
    ensures var c := Complement(WordSum(header));
            0 <= c <= 0xFFFF && Complement(WordSum(WithChecksum(header, at, c))) == 0
  {
    hide Complement, WordSum, Folded;
    var sum := WordSum(header);
    var c := Complement(sum);
    ComplementCompletes(sum);
    SumStored(header, at, c);
    CompletedIsZero(sum, c);
  }

  lemma CompletedIsZero(sum: nat, c: u16)
    requires var t := sum % SUM; 0 < t + c < SUM && (t + c) % 0xFFFF == 0
    ensures Complement(sum + c) == 0
  {
    hide Folded;
    var t, q := sum % SUM, sum / SUM;
    assert sum + c == q * SUM + (t + c);
    DivisionUnique(sum + c, SUM, q);
    assert (sum + c) % SUM == t + c;
    FoldExact(t + c);
  }

  // ---------- when the sum does not wrap ----------

  lemma {:induction false} SumBound(header: seq<byte>)
    ensures WordSum(header) <= (|header| / 2) * 0xFFFF + (if |header| % 2 == 1 then 0xFF00 else 0)
  {
    if |header| >= 2 {
      SumBound(header[2..]);
      assert (|header| / 2) == (|header[2..]| / 2) + 1;
      Spread(|header[2..]| / 2, 0xFFFF);
    }
  }

  predicate AllOnes(header: seq<byte>) { forall i | 0 <= i < |header| :: header[i] == 0xFF }

  lemma {:induction false} SumOfOnes(header: seq<byte>)
    requires AllOnes(header)
    ensures WordSum(header) == (|header| / 2) * 0xFFFF + (if |header| % 2 == 1 then 0xFF00 else 0)
  {
    if |header| >= 2 {
      SumOfOnes(header[2..]);
      assert (|header| / 2) == (|header[2..]| / 2) + 1;
      Spread(|header[2..]| / 2, 0xFFFF);
    }
  }

  ghost predicate NeverWraps(n: nat) {
    forall header: seq<byte> | |header| == n :: WordSum(header) < SUM
  }

  /** The 32-bit sum cannot wrap for headers of up to 131074 bytes, and can for longer ones. */
  lemma NoWrapExactly(n: nat)
    ensures NeverWraps(n) <==> n <= 131074
  {
    if n <= 131074 {
      forall header: seq<byte> | |header| == n
        ensures WordSum(header) < SUM
      {
        SumBound(header);
      }
    } else {
      var ones: seq<byte> := seq(n, _ => 0xFF);
      SumOfOnes(ones);
      assert WordSum(ones) >= SUM;
    }
  }

  /** Verification accepts exactly the headers whose words add up to a non-zero multiple of 65535. */
  lemma AcceptsExactly(header: seq<byte>)
    requires |header| <= 131074
    ensures Complement(WordSum(header)) == 0 <==> WordSum(header) > 0 && WordSum(header) % 0xFFFF == 0
  {
    NoWrapExactly(|header|);
    assert WordSum(header) < SUM;
    DivisionUnique(WordSum(header), SUM, 0);
    FoldExact(WordSum(header));
  }
}
