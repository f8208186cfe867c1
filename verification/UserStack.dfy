/**
 The initial user stack (kernel/src/exec/loader.rs): argument strings at the top, below them
 a 16-byte aligned frame of argc, the argument pointers and a null pointer.
 */
module UserStack {
  import opened Bytes

  type Memory = map<int, byte>

  // ---------- reading memory ----------

  predicate Mapped(memory: Memory, lo: int, hi: int) { forall a | lo <= a < hi :: a in memory }

  function ReadU64(memory: Memory, at: int): nat
    requires Mapped(memory, at, at + 8)
  {
    FromLittleEndian(seq(8, j requires 0 <= j < 8 => memory[at + j]))
  }

  /** The C string at `at`: the bytes up to the first NUL, looking no further than `limit`. */
  function CString(memory: Memory, at: int, limit: int): seq<byte>
    requires Mapped(memory, at, limit)
    decreases limit - at
  {
    if at >= limit || memory[at] == 0 then [] else [memory[at]] + CString(memory, at + 1, limit)
  }

  /** `text` and its terminating NUL are stored at `at`. */
  predicate Holds(memory: Memory, at: int, text: seq<byte>) {
    && Mapped(memory, at, at + |text| + 1)
    && (forall j | 0 <= j < |text| :: memory[at + j] == text[j])
    && memory[at + |text|] == 0
  }

  lemma {:induction false} NoZeroRead(memory: Memory, at: int, limit: int)
    requires Mapped(memory, at, limit)
    ensures 0 !in CString(memory, at, limit)
    decreases limit - at
  {
    if at < limit && memory[at] != 0 {
      NoZeroRead(memory, at + 1, limit);
    }
  }

  lemma {:induction false} HeldStringReads(memory: Memory, at: int, text: seq<byte>, limit: int)
    requires Holds(memory, at, text) && 0 !in text && at + |text| < limit && Mapped(memory, at, limit)
    ensures CString(memory, at, limit) == text
    decreases |text|
  {
    if text != [] {
      assert memory[at + 0] == text[0];
      assert forall j | 0 <= j < |text| - 1 :: memory[at + 1 + j] == text[1..][j] by {
        forall j | 0 <= j < |text| - 1
          ensures memory[at + 1 + j] == text[1..][j]
        {
          assert memory[at + (j + 1)] == text[j + 1];
        }
      }
      HeldStringReads(memory, at + 1, text[1..], limit);
    }
  }

  /** An argument with a NUL inside is read back cut there. */
  lemma NulCutsArgument(memory: Memory, at: int, limit: int)
    requires Holds(memory, at, [65, 0, 66]) && at + 3 < limit && Mapped(memory, at, limit)
    ensures CString(memory, at, limit) == [65]
  {
    var text: seq<byte> := [65, 0, 66];
    assert memory[at + 0] == text[0] && memory[at + 1] == text[1];
  }

  /** Only addresses in `[lo, hi)` may differ. */
  predicate OnlyWithin(before: Memory, after: Memory, lo: int, hi: int) {
    before.Keys == after.Keys && forall a | a in before && !(lo <= a < hi) :: after[a] == before[a]
  }

  lemma HoldsStill(before: Memory, after: Memory, lo: int, hi: int, at: int, text: seq<byte>)
    requires OnlyWithin(before, after, lo, hi) && Holds(before, at, text)
    requires hi <= at || at + |text| < lo
    ensures Holds(after, at, text)
  {
  }

  lemma WordStill(before: Memory, after: Memory, lo: int, hi: int, at: int)
    requires OnlyWithin(before, after, lo, hi) && Mapped(before, at, at + 8)
    requires hi <= at || at + 8 <= lo
    ensures ReadU64(after, at) == ReadU64(before, at)
  {
    assert seq(8, j requires 0 <= j < 8 => after[at + j]) == seq(8, j requires 0 <= j < 8 => before[at + j]);
  }

  lemma WordIs(memory: Memory, at: int, word: seq<byte>)
    requires Mapped(memory, at, at + 8) && |word| == 8 && forall j | 0 <= j < 8 :: memory[at + j] == word[j]
    ensures ReadU64(memory, at) == FromLittleEndian(word)
  {
    assert seq(8, j requires 0 <= j < 8 => memory[at + j]) == word;
  }

  // ---------- the layout ----------

  function Size(args: seq<seq<byte>>): nat {
    if args == [] then 0 else |args[0]| + 1 + Size(args[1..])
  }

  /** Where argument `i` ends up. */
  function Pointer(top: int, args: seq<seq<byte>>, i: nat): int
    requires i <= |args|
  {
    top - Size(args[i..])
  }

  /** The stack pointer handed to the program. */
  function FinalSp(top: int, args: seq<seq<byte>>): int {
    var below := top - Size(args) - 8 * (|args| + 2);
    below - below % 16
  }

  /** What the strings and the frame take. */
  function Room(args: seq<seq<byte>>): nat { Size(args) + 8 * (|args| + 2) }

  /** The frame starts at or above an aligned bottom exactly when the arguments fit above it. */
  lemma RoomExactly(bottom: int, top: int, args: seq<seq<byte>>)
    requires bottom % 16 == 0
    ensures bottom <= FinalSp(top, args) <==> Room(args) <= top - bottom
  {
    hide Size;
    AlignedBelow(top - Room(args), bottom);
  }

  lemma AlignedBelow(a: int, bottom: int)
    requires bottom % 16 == 0
    ensures bottom <= a - a % 16 <==> bottom <= a
  {
  }

  lemma PointerNext(top: int, args: seq<seq<byte>>, i: nat)
    requires i < |args|
    ensures Pointer(top, args, i) + |args[i]| + 1 == Pointer(top, args, i + 1)
  {
    assert args[i..][1..] == args[i + 1..];
  }

  lemma {:induction false} PointerOrder(top: int, args: seq<seq<byte>>, i: nat, j: nat)
    requires i <= j <= |args|
    ensures Pointer(top, args, i) <= Pointer(top, args, j) <= top
    decreases j - i
  {
    if i < j {
      PointerNext(top, args, i);
      PointerOrder(top, args, i + 1, j);
    }
  }

  lemma PointerEnds(top: int, args: seq<seq<byte>>)
    ensures Pointer(top, args, |args|) == top
    ensures Pointer(top, args, 0) == top - Size(args)
  {
    assert args[|args|..] == [] && args[0..] == args;
  }

  /** The arguments from the `i`th on are in place. */
  predicate StringsFrom(memory: Memory, top: int, args: seq<seq<byte>>, i: nat) {
    forall k | i <= k < |args| :: Holds(memory, Pointer(top, args, k), args[k])
  }

  /** Writing the `i`th string below the later ones leaves them alone. */
  lemma StringsStill(before: Memory, after: Memory, sp: int, top: int, args: seq<seq<byte>>, i: nat)
    requires i < |args| && sp == Pointer(top, args, i) && StringsFrom(before, top, args, i + 1)
    requires OnlyWithin(before, after, sp, sp + |args[i]| + 1) && Holds(after, sp, args[i])
    ensures StringsFrom(after, top, args, i)
  {
    hide Holds, Size;
    PointerNext(top, args, i);
    forall k | i < k < |args|
      ensures Holds(after, Pointer(top, args, k), args[k])
    {
      PointerOrder(top, args, i + 1, k);
      HoldsStill(before, after, sp, sp + |args[i]| + 1, Pointer(top, args, k), args[k]);
    }
  }

  function Reverse(s: seq<int>): (r: seq<int>)
    ensures |r| == |s| && forall i | 0 <= i < |s| :: r[i] == s[|s| - 1 - i]
  {
    if s == [] then [] else Reverse(s[1..]) + [s[0]]
  }

  /** The process image the entry contract promises. */
  predicate Laid(memory: Memory, sp: int, top: int, args: seq<seq<byte>>)
    requires Mapped(memory, sp, top) && sp + 8 * (|args| + 2) <= top
  {
    && ReadU64(memory, sp) == |args|
    && (forall i | 0 <= i < |args| ::
          var p := Pointer(top, args, i);
          && ReadU64(memory, sp + 8 + 8 * i) == p
          && sp + 8 * (|args| + 2) <= p < top
          && Holds(memory, p, args[i])
          && (CString(memory, p, top) == args[i] <==> 0 !in args[i]))
    && ReadU64(memory, sp + 8 + 8 * |args|) == 0
  }

  class UserMemory {
    var bytes: Memory

    constructor (bytes: Memory)
      ensures this.bytes == bytes
    {
      this.bytes := bytes;
    }

    method WriteU64(at: int, value: nat)
      requires Mapped(bytes, at, at + 8) && value < U64_MODULUS
      modifies this
      ensures OnlyWithin(old(bytes), bytes, at, at + 8)
      ensures ReadU64(bytes, at) == value
    {
      var word := ToLittleEndian(value, 8);
      for j := 0 to 8
        invariant OnlyWithin(old(bytes), bytes, at, at + 8)
        invariant forall i | 0 <= i < j :: bytes[at + i] == word[i]
      {
        bytes := bytes[at + j := word[j]];
      }
      WordIs(bytes, at, word);
      WordSizes();
      LittleEndianRoundTrip(value, 8);
    }

    method WriteString(at: int, text: seq<byte>)
      requires Mapped(bytes, at, at + |text| + 1)
      modifies this
      ensures OnlyWithin(old(bytes), bytes, at, at + |text| + 1)
      ensures Holds(bytes, at, text)
    {
      for j := 0 to |text|
        invariant OnlyWithin(old(bytes), bytes, at, at + |text| + 1)
        invariant forall i | 0 <= i < j :: bytes[at + i] == text[i]
      {
        bytes := bytes[at + j := text[j]];
      }
      bytes := bytes[at + |text| := 0];
    }

    /** The argument strings, last one highest. */
    method PushStrings(bottom: int, top: int, args: seq<seq<byte>>) returns (sp: int, pointers: seq<int>)
      requires 0 <= bottom && Mapped(bytes, bottom, top) && bottom <= top - Size(args)
      modifies this
      ensures sp == top - Size(args)
      ensures |pointers| == |args| && forall i | 0 <= i < |args| :: pointers[i] == Pointer(top, args, i)
      ensures OnlyWithin(old(bytes), bytes, sp, top)
      ensures StringsFrom(bytes, top, args, 0)
    {
      hide Size, Holds;
      sp := top;
      var pushed: seq<int> := [];
      var i := |args|;
      PointerEnds(top, args);
      while i > 0
        invariant 0 <= i <= |args|
        invariant sp == Pointer(top, args, i)
        invariant |pushed| == |args| - i
        invariant forall k | 0 <= k < |pushed| :: pushed[k] == Pointer(top, args, |args| - 1 - k)
        invariant OnlyWithin(old(bytes), bytes, sp, top)
        invariant StringsFrom(bytes, top, args, i)
      {
        i := i - 1;
        PointerNext(top, args, i);
        PointerOrder(top, args, 0, i);
        PointerOrder(top, args, i + 1, |args|);
        ghost var before := bytes;
        sp := Max(sp - (|args[i]| + 1), 0);
        WriteString(sp, args[i]);
        StringsStill(before, bytes, sp, top, args, i);
        pushed := pushed + [sp];
      }
      pointers := Reverse(pushed);
    }

    /** argc, the pointers, and the null pointer, upward from `sp`. */
    method PushFrame(sp: int, pointers: seq<int>)
      requires Mapped(bytes, sp, sp + 8 * (|pointers| + 2)) && |pointers| < U64_MODULUS
      requires forall i | 0 <= i < |pointers| :: 0 <= pointers[i] < U64_MODULUS
      modifies this
      ensures OnlyWithin(old(bytes), bytes, sp, sp + 8 * (|pointers| + 2))
      ensures ReadU64(bytes, sp) == |pointers|
      ensures forall i | 0 <= i < |pointers| :: ReadU64(bytes, sp + 8 + 8 * i) == pointers[i]
      ensures ReadU64(bytes, sp + 8 + 8 * |pointers|) == 0
    {
      hide ReadU64;
      var n := |pointers|;
      WriteU64(sp, n);
      for index := 0 to n
        invariant OnlyWithin(old(bytes), bytes, sp, sp + 8 * (n + 2))
        invariant ReadU64(bytes, sp) == n
        invariant forall i | 0 <= i < index :: ReadU64(bytes, sp + 8 + 8 * i) == pointers[i]
      {
        var at := sp + 8 + 8 * index;
        ghost var before := bytes;
        WriteU64(at, pointers[index]);
        WordStill(before, bytes, at, at + 8, sp);
        forall i | 0 <= i < index
          ensures ReadU64(bytes, sp + 8 + 8 * i) == pointers[i]
        {
          WordStill(before, bytes, at, at + 8, sp + 8 + 8 * i);
        }
      }
      var at := sp + 8 + 8 * n;
      ghost var before := bytes;
      WriteU64(at, 0);
      WordStill(before, bytes, at, at + 8, sp);
      forall i | 0 <= i < n
        ensures ReadU64(bytes, sp + 8 + 8 * i) == pointers[i]
      {
        WordStill(before, bytes, at, at + 8, sp + 8 + 8 * i);
      }
    }

    /**
     `setup_user_stack`, which looks at no size: memory is mapped from `lowest` on, the stack
     begins at `bottom`. The frame is aligned and below the strings; it starts inside the
     stack exactly when the arguments fit, and below it, on whatever lies there, when not.
     The program reads back exactly the arguments without a NUL inside.
     */
    method SetupUserStack(lowest: int, ghost bottom: int, top: int, args: seq<seq<byte>>) returns (sp: int)
      requires 0 <= lowest && top < U64_MODULUS && Mapped(bytes, lowest, top)
      requires lowest <= FinalSp(top, args)
      modifies this
      ensures sp == FinalSp(top, args) && sp % 16 == 0
      ensures bottom % 16 == 0 ==> (bottom <= sp <==> Room(args) <= top - bottom)
      ensures OnlyWithin(old(bytes), bytes, sp, top)
      ensures Mapped(bytes, sp, top) && sp + 8 * (|args| + 2) <= top
      ensures Laid(bytes, sp, top, args)
    {
      hide Size, Holds, CString, ReadU64;
      var strings, pointers := PushStrings(lowest, top, args);
      if bottom % 16 == 0 {
        RoomExactly(bottom, top, args);
      }
      var frameBytes := 8 * (|pointers| + 2);
      var below := Max(strings - frameBytes, 0);
      sp := below - below % 16;
      PointersInside(top, args);
      ghost var before := bytes;
      PushFrame(sp, pointers);
      StringsReadBack(before, bytes, sp, top, args);
    }
  }

  lemma PointersInside(top: int, args: seq<seq<byte>>)
    ensures forall i | 0 <= i < |args| ::
              top - Size(args) <= Pointer(top, args, i) && Pointer(top, args, i) + |args[i]| < top
  {
    PointerEnds(top, args);
    forall i | 0 <= i < |args|
      ensures top - Size(args) <= Pointer(top, args, i) && Pointer(top, args, i) + |args[i]| < top
    {
      PointerOrder(top, args, 0, i);
      PointerNext(top, args, i);
      PointerOrder(top, args, i + 1, |args|);
    }
  }

  /** Writing the frame below the strings leaves them readable. */
  lemma StringsReadBack(before: Memory, after: Memory, sp: int, top: int, args: seq<seq<byte>>)
    requires sp + 8 * (|args| + 2) <= top - Size(args) && Mapped(before, sp, top)
    requires OnlyWithin(before, after, sp, sp + 8 * (|args| + 2))
    requires StringsFrom(before, top, args, 0)
    ensures forall i | 0 <= i < |args| ::
              && sp <= Pointer(top, args, i) && Holds(after, Pointer(top, args, i), args[i])
              && (CString(after, Pointer(top, args, i), top) == args[i] <==> 0 !in args[i])
  {
    hide Size, Holds, CString;
    PointersInside(top, args);
    forall i | 0 <= i < |args|
      ensures sp <= Pointer(top, args, i) && Holds(after, Pointer(top, args, i), args[i])
      ensures CString(after, Pointer(top, args, i), top) == args[i] <==> 0 !in args[i]
    {
      var p := Pointer(top, args, i);
      HoldsStill(before, after, sp, sp + 8 * (|args| + 2), p, args[i]);
      NoZeroRead(after, p, top);
      if 0 !in args[i] {
        HeldStringReads(after, p, args[i], top);
      }
    }
  }
}
