/**
 The kernel framebuffer (kernel/src/display/framebuffer.rs). It draws straight into the
 hardware buffer, or into a shadow copy whose dirty rows are flushed when no batch is open.
 The buffer covers every visible row, as the boot protocol promises.
 */
module Shadow {
  import opened Errors
  import opened Bytes
  import opened Arith

  datatype PixelFormat =
    | Rgb | Bgr | U8 | Other
    | Unknown(redPosition: byte, greenPosition: byte, bluePosition: byte)

  datatype Info = Info(width: nat, height: nat, stride: nat, bytesPerPixel: nat, format: PixelFormat) {
    function Pixel(): (n: nat)
      ensures n > 0
    {
      Max(bytesPerPixel, 1)
    }

    function Pitch(): nat { Max(stride, width) }

    /** Bytes per row. */
    function Row(): nat { Pitch() * Pixel() }
  }

  // ---------- drawing on a plain buffer ----------

  function Red(color: u32): byte { (color / 0x1_0000) % 256 }
  function Green(color: u32): byte { (color / 0x100) % 256 }
  function Blue(color: u32): byte { color % 256 }
  function Luminance(color: u32): byte { (Red(color) + Green(color) + Blue(color)) / 3 }

  function Pow2(p: nat): (r: nat)
    ensures r > 0
  {
    if p == 0 then 1 else 2 * Pow2(p - 1)
  }

  /** The bits of either number, the lowest `bits` of them. */
  function Or(a: nat, b: nat, bits: nat): (r: nat)
    ensures r < Pow2(bits)
  {
    if bits == 0 then 0
    else 2 * Or(a / 2, b / 2, bits - 1) + if a % 2 == 1 || b % 2 == 1 then 1 else 0
  }

  /** Byte `i`, counted from the lowest, of a channel shifted to a position. */
  function ShiftedByte(channel: byte, position: nat, i: nat): byte { channel * Pow2(position) / Pow2(8 * i) % 256 }

  /** A byte of the three channels shifted to their positions, least significant first. */
  function RawByte(f: PixelFormat, color: u32, i: nat): byte
    requires f.Unknown?
  {
    assert Pow2(8) == 256;
    Or(Or(ShiftedByte(Red(color), f.redPosition % 32, i), ShiftedByte(Green(color), f.greenPosition % 32, i), 8),
       ShiftedByte(Blue(color), f.bluePosition % 32, i), 8)
  }

  /** What byte `i` of a pixel becomes when the pixel is drawn over `was`. */
  function NewByte(info: Info, color: u32, i: nat, was: byte): byte {
    if info.Pixel() == 4 && i == 3 then 0
    else
      match info.format
      case U8 => if i == 0 then Luminance(color) else was
      case Unknown(_, _, _) => if i < 4 then RawByte(info.format, color, i) else was
      case Bgr => if i == 0 then Blue(color) else if i == 1 then Green(color) else if i == 2 then Red(color) else was
      case _ => if i == 0 then Red(color) else if i == 1 then Green(color) else if i == 2 then Blue(color) else was
  }

  /** The buffer with one pixel drawn at a byte offset; a pixel that does not fit is not drawn. */
  function Put(info: Info, buf: seq<byte>, offset: nat, color: u32): (r: seq<byte>)
    ensures |r| == |buf|
  {
    if offset + info.Pixel() > |buf| then buf
    else
      seq(|buf|, i requires 0 <= i < |buf| =>
        if offset <= i < offset + info.Pixel() then NewByte(info, color, i - offset, buf[i]) else buf[i])
  }

  /** Pixels drawn from `offset` to the end. */
  function Fill(info: Info, buf: seq<byte>, offset: nat, color: u32): (r: seq<byte>)
    ensures |r| == |buf|
    decreases |buf| - offset
  {
    if offset >= |buf| then buf else Fill(info, Put(info, buf, offset, color), offset + info.Pixel(), color)
  }

  /** The contents moved up, the freed space filled. */
  function Scroll(info: Info, buf: seq<byte>, rows: nat, color: u32): (r: seq<byte>)
    ensures |r| == |buf|
  {
    var k := rows * info.Row();
    if info.Row() == 0 then buf
    else if k >= |buf| then Fill(info, buf, 0, color)
    else Fill(info, buf[k..] + buf[|buf| - k..], |buf| - k, color)
  }

  function PixelOffset(info: Info, x: nat, y: nat): nat { (y * info.Pitch() + x) * info.Pixel() }

  function PutPixel(info: Info, buf: seq<byte>, x: nat, y: nat, color: u32): (r: seq<byte>)
    ensures |r| == |buf|
  {
    if x >= info.width || y >= info.height then buf else Put(info, buf, PixelOffset(info, x, y), color)
  }

  // ---------- what is drawn, byte by byte ----------

  /** Bytes of one pixel. */
  function Size(info: Info): (n: nat)
    ensures n > 0
  {
    if info.bytesPerPixel == 0 then 1 else info.bytesPerPixel
  }

  /** Bytes of one row, visible or not. */
  function Span(info: Info): nat { (if info.stride < info.width then info.width else info.stride) * Size(info) }

  /** Byte `i` of a pixel is one that drawing it leaves alone. */
  predicate Spared(info: Info, i: nat) {
    && !(Size(info) == 4 && i == 3)
    && match info.format
       case U8 => i >= 1
       case Unknown(_, _, _) => i >= 4
       case _ => i >= 3
  }

  /**
   The pixel at byte `o` was drawn: red, green and blue in the order of the format, as far as
   the pixel has bytes for them, their mean, or the bytes of the channels at their positions; a fourth
   of four bytes is zero, and any others are as they were.
   */
  ghost predicate Drawn(info: Info, was: seq<byte>, now: seq<byte>, o: nat, color: u32)
    requires o + Size(info) <= |was| == |now|
  {
    var n, red, green, blue := Size(info), color / 65536 % 256, color / 256 % 256, color % 256;
    && (n == 4 ==> now[o + 3] == 0)
    && (forall i | 0 <= i < n && Spared(info, i) :: now[o + i] == was[o + i])
    && match info.format
       case U8 => now[o] == (red + green + blue) / 3
       case Bgr => now[o] == blue && (n > 1 ==> now[o + 1] == green) && (n > 2 ==> now[o + 2] == red)
       case Unknown(_, _, _) =>
         forall i | 0 <= i < n && i < 4 && !(n == 4 && i == 3) ::
           now[o + i] == RawByte(info.format, color, i)
       case _ => now[o] == red && (n > 1 ==> now[o + 1] == green) && (n > 2 ==> now[o + 2] == blue)
  }

  /** Whole pixels of `n` bytes lie between `start` and `o`. */
  predicate Apart(start: nat, o: nat, n: nat)
    requires n > 0
  {
    start <= o && (o - start) % n == 0
  }

  /** From byte `start` on every whole pixel was drawn, and nothing else changed. */
  ghost predicate DrawnFrom(info: Info, was: seq<byte>, now: seq<byte>, start: nat, color: u32) {
    && |now| == |was|
    && (forall o: nat | Apart(start, o, Size(info)) && o + Size(info) <= |was| :: Drawn(info, was, now, o, color))
    && (forall i | 0 <= i < start && i < |was| :: now[i] == was[i])
    && forall o: nat, i | Apart(start, o, Size(info)) && o <= i < |was| < o + Size(info) :: now[i] == was[i]
  }

  /** The contents moved up by so many rows, the freed space drawn; all of it, if nothing is left. */
  ghost predicate Scrolled(info: Info, was: seq<byte>, now: seq<byte>, rows: nat, color: u32) {
    var k := rows * Span(info);
    if Span(info) == 0 then now == was
    else if k >= |was| then DrawnFrom(info, was, now, 0, color)
    else
      && |now| == |was|
      && (forall i | 0 <= i < |was| - k :: now[i] == was[i + k])
      && (forall o: nat | Apart(|was| - k, o, Size(info)) && o + Size(info) <= |was| :: Drawn(info, was, now, o, color))
  }

  /** The pixel in column `x` of row `y` was drawn if it is on the screen, and nothing else changed. */
  ghost predicate PixelDrawn(info: Info, was: seq<byte>, now: seq<byte>, x: nat, y: nat, color: u32) {
    if x >= info.width || y >= info.height then now == was
    else
      var o := y * Span(info) + x * Size(info);
      && o + Size(info) <= |was| == |now| && Drawn(info, was, now, o, color)
      && forall i | 0 <= i < |was| && !(o <= i < o + Size(info)) :: now[i] == was[i]
  }

  lemma SameSizes(info: Info)
    ensures Size(info) == info.Pixel() && Span(info) == info.Row()
  {
  }

  lemma PutDraws(info: Info, buf: seq<byte>, o: nat, color: u32)
    requires o + Size(info) <= |buf|
    ensures var now := Put(info, buf, o, color);
            Drawn(info, buf, now, o, color) && forall i | 0 <= i < |buf| && !(o <= i < o + Size(info)) :: now[i] == buf[i]
  {
    hide RawByte;
    SameSizes(info);
  }

  /** Only the bytes of the pixel matter. */
  lemma DrawnThere(info: Info, was: seq<byte>, now: seq<byte>, was': seq<byte>, now': seq<byte>, o: nat, color: u32)
    requires o + Size(info) <= |was| == |now| == |was'| == |now'| && Drawn(info, was, now, o, color)
    requires forall i | o <= i < o + Size(info) :: was'[i] == was[i] && now'[i] == now[i]
    ensures Drawn(info, was', now', o, color)
  {
    hide RawByte;
  }

  lemma {:induction false} FillDraws(info: Info, buf: seq<byte>, start: nat, color: u32)
    ensures DrawnFrom(info, buf, Fill(info, buf, start, color), start, color)
    decreases |buf| - start
  {
    hide Put, Drawn, Apart, Span;
    SameSizes(info);
    var n := Size(info);
    if start + n <= |buf| {
      var b, now := Put(info, buf, start, color), Fill(info, buf, start, color);
      PutDraws(info, buf, start, color);
      FillDraws(info, b, start + n, color);
      FillJoins(info, buf, b, now, start, color);
    } else {
      NoRoomToFill(info, buf, start, color);
    }
  }

  /** One pixel drawn, and everything after it. */
  lemma FillJoins(info: Info, buf: seq<byte>, b: seq<byte>, now: seq<byte>, start: nat, color: u32)
    requires start + Size(info) <= |buf| == |b| && Drawn(info, buf, b, start, color)
    requires forall i | 0 <= i < |buf| && !(start <= i < start + Size(info)) :: b[i] == buf[i]
    requires DrawnFrom(info, b, now, start + Size(info), color)
    ensures DrawnFrom(info, buf, now, start, color)
  {
    hide Drawn, Apart;
    var n := Size(info);
    DrawnThere(info, buf, b, buf, now, start, color);
    forall o: nat | Apart(start, o, n) && o + n <= |buf|
      ensures Drawn(info, buf, now, o, color)
    {
      NextApart(start, o, n);
      if o != start {
        DrawnThere(info, b, now, buf, now, o, color);
      }
    }
    forall o: nat, i | Apart(start, o, n) && o <= i < |buf| < o + n
      ensures now[i] == buf[i]
    {
      NextApart(start, o, n);
    }
  }

  lemma NextApart(start: nat, o: nat, n: nat)
    requires n > 0 && Apart(start, o, n)
    ensures o == start || (o >= start + n && Apart(start + n, o, n))
  {
    if o > start {
      var q := (o - start) / n;
      assert o - start == q * n;
      assert q >= 1;
      Spread(q - 1, n);
      MultipleOrder(n, 1, q);
      DivisionUnique(o - start - n, n, q - 1);
    }
  }

  lemma NoRoomToFill(info: Info, buf: seq<byte>, start: nat, color: u32)
    requires start + Size(info) > |buf|
    ensures DrawnFrom(info, buf, Fill(info, buf, start, color), start, color)
  {
    hide Drawn;
    SameSizes(info);
    assert Fill(info, buf, start, color) == buf;
  }

  lemma ScrollDraws(info: Info, buf: seq<byte>, rows: nat, color: u32)
    ensures Scrolled(info, buf, Scroll(info, buf, rows, color), rows, color)
  {
    hide Put, Drawn, Fill, Apart;
    SameSizes(info);
    var n, k := Size(info), rows * Span(info);
    if Span(info) > 0 && k >= |buf| {
      FillDraws(info, buf, 0, color);
    } else if Span(info) > 0 {
      var at, moved, now := |buf| - k, buf[k..] + buf[|buf| - k..], Scroll(info, buf, rows, color);
      FillDraws(info, moved, at, color);
      MovedBytes(buf, k);
      forall o: nat | Apart(at, o, n) && o + n <= |buf|
        ensures Drawn(info, buf, now, o, color)
      {
        NextApart(at, o, n);
        DrawnThere(info, moved, now, buf, now, o, color);
      }
    }
  }

  lemma MovedBytes(buf: seq<byte>, k: nat)
    requires k <= |buf|
    ensures var moved := buf[k..] + buf[|buf| - k..];
            && (forall i | 0 <= i < |buf| - k :: moved[i] == buf[i + k])
            && forall i | |buf| - k <= i < |buf| :: moved[i] == buf[i]
  {
  }

  lemma PutPixelDraws(info: Info, buf: seq<byte>, x: nat, y: nat, color: u32)
    requires Visible(info) <= |buf|
    ensures PixelDrawn(info, buf, PutPixel(info, buf, x, y, color), x, y, color)
  {
    hide Put, Drawn;
    SameSizes(info);
    if x < info.width && y < info.height {
      var n, pitch := Size(info), info.Pitch();
      var o := y * Span(info) + x * n;
      assert PixelOffset(info, x, y) == o by { PixelPlace(y, pitch, x, n); }
      RowFits(info, x, y);
      PutDraws(info, buf, o, color);
    }
  }

  lemma PixelPlace(y: nat, pitch: nat, x: nat, n: nat)
    ensures (y * pitch + x) * n == y * (pitch * n) + x * n
  {
  }

  lemma RowFits(info: Info, x: nat, y: nat)
    requires x < info.width && y < info.height
    ensures y * Span(info) + x * Size(info) + Size(info) <= Visible(info)
  {
    SameSizes(info);
    var n, row := Size(info), info.Row();
    Spread(x, n);
    MultipleOrder(n, x + 1, info.Pitch());
    Spread(y, row);
    MultipleOrder(row, y + 1, info.height);
  }

  // ---------- channels at whole bytes ----------

  lemma {:induction false} OrNothing(a: nat, bits: nat)
    requires a < Pow2(bits)
    ensures Or(a, 0, bits) == a && Or(0, a, bits) == a
  {
    if bits > 0 {
      OrNothing(a / 2, bits - 1);
    }
  }

  lemma ShiftedWhole(channel: byte, a: nat, i: nat)
    requires a < 4 && i < 4
    ensures ShiftedByte(channel, 8 * a, i) == if a == i then channel else 0
  {
    hide Pow2;
    WholePowers();
    assert Pow2(8 * a) == Weight(a) && Pow2(8 * i) == Weight(i);
    if i == 0 {
      LowestByte(channel, a);
    } else if i == 1 {
      SecondByte(channel, a);
    } else if i == 2 {
      ThirdByte(channel, a);
    } else {
      FourthByte(channel, a);
    }
  }

  function Weight(a: nat): nat
    requires a < 4
  {
    match a case 0 => 1 case 1 => 0x100 case 2 => 0x1_0000 case _ => 0x100_0000
  }

  lemma LowestByte(c: byte, a: nat)
    requires a < 4
    ensures c * Weight(a) / 1 % 256 == if a == 0 then c else 0
  {
    match a
    case 0 => DivisionUnique(c * 1, 1, c);
    case 1 =>
      DivisionUnique(c * 0x100, 1, c * 0x100);
      DivisionUnique(c * 0x100, 256, c * 1);
    case 2 =>
      DivisionUnique(c * 0x1_0000, 1, c * 0x1_0000);
      DivisionUnique(c * 0x1_0000, 256, c * 0x100);
    case _ =>
      DivisionUnique(c * 0x100_0000, 1, c * 0x100_0000);
      DivisionUnique(c * 0x100_0000, 256, c * 0x1_0000);
  }

  lemma SecondByte(c: byte, a: nat)
    requires a < 4
    ensures c * Weight(a) / 0x100 % 256 == if a == 1 then c else 0
  {
    match a
    case 0 => DivisionUnique(c * 1, 0x100, 0);
    case 1 => DivisionUnique(c * 0x100, 0x100, c);
    case 2 =>
      DivisionUnique(c * 0x1_0000, 0x100, c * 0x100);
      DivisionUnique(c * 0x100, 256, c * 1);
    case _ =>
      DivisionUnique(c * 0x100_0000, 0x100, c * 0x1_0000);
      DivisionUnique(c * 0x1_0000, 256, c * 0x100);
  }

  lemma ThirdByte(c: byte, a: nat)
    requires a < 4
    ensures c * Weight(a) / 0x1_0000 % 256 == if a == 2 then c else 0
  {
    match a
    case 0 => DivisionUnique(c * 1, 0x1_0000, 0);
    case 1 => DivisionUnique(c * 0x100, 0x1_0000, 0);
    case 2 => DivisionUnique(c * 0x1_0000, 0x1_0000, c);
    case _ =>
      DivisionUnique(c * 0x100_0000, 0x1_0000, c * 0x100);
      DivisionUnique(c * 0x100, 256, c * 1);
  }

  lemma FourthByte(c: byte, a: nat)
    requires a < 4
    ensures c * Weight(a) / 0x100_0000 % 256 == if a == 3 then c else 0
  {
    match a
    case 0 => DivisionUnique(c * 1, 0x100_0000, 0);
    case 1 => DivisionUnique(c * 0x100, 0x100_0000, 0);
    case 2 => DivisionUnique(c * 0x1_0000, 0x100_0000, 0);
    case _ => DivisionUnique(c * 0x100_0000, 0x100_0000, c);
  }

  lemma WholePowers()
    ensures Pow2(0) == 1 && Pow2(8) == 0x100 && Pow2(16) == 0x1_0000 && Pow2(24) == 0x100_0000
  {
    assert Pow2(4) == 16;
    assert Pow2(8) == 0x100;
    assert Pow2(12) == 0x1000;
    assert Pow2(16) == 0x1_0000;
    assert Pow2(20) == 0x10_0000;
    assert Pow2(24) == 0x100_0000;
  }

  /** Channels at three different whole bytes come out at these, and the fourth is zero. */
  lemma WholeBytes(a: nat, b: nat, c: nat, color: u32, i: nat)
    requires a < 4 && b < 4 && c < 4 && i < 4 && a != b && b != c && a != c
    ensures RawByte(Unknown(8 * a, 8 * b, 8 * c), color, i) ==
            if i == a then color / 65536 % 256 else if i == b then color / 256 % 256 else if i == c then color % 256 else 0
  {
    hide ShiftedByte, Or, Pow2;
    ShiftedWhole(Red(color), a, i);
    ShiftedWhole(Green(color), b, i);
    ShiftedWhole(Blue(color), c, i);
    WholePowers();
    OrNothing(Red(color), 8);
    OrNothing(Green(color), 8);
    OrNothing(Blue(color), 8);
    OrNothing(0, 8);
  }

  // ---------- operations and runs ----------

  datatype Op = Clear(color: u32) | ScrollUp(rows: nat, color: u32) | Pixel(x: nat, y: nat, color: u32)
              | BeginBatch | EndBatch

  /** What direct drawing does with an operation; batches mean nothing to it. */
  function Direct(info: Info, buf: seq<byte>, op: Op): (r: seq<byte>)
    ensures |r| == |buf|
  {
    match op
    case Clear(color) => Fill(info, buf, 0, color)
    case ScrollUp(rows, color) => Scroll(info, buf, rows, color)
    case Pixel(x, y, color) => PutPixel(info, buf, x, y, color)
    case BeginBatch => buf
    case EndBatch => buf
  }

  function DirectAll(info: Info, buf: seq<byte>, ops: seq<Op>): (r: seq<byte>)
    ensures |r| == |buf|
  {
    if ops == [] then buf else Direct(info, DirectAll(info, buf, ops[..|ops| - 1]), ops[|ops| - 1])
  }

  /** How many batches are open. */
  function Depth(depth: u64, op: Op): u64 {
    match op
    case BeginBatch => if depth == U64_MODULUS - 1 then depth else depth + 1
    case EndBatch => if depth == 0 then 0 else depth - 1
    case _ => depth
  }

  function DepthAll(depth: u64, ops: seq<Op>): u64 {
    if ops == [] then depth else Depth(DepthAll(depth, ops[..|ops| - 1]), ops[|ops| - 1])
  }

  // ---------- rows ----------

  /** A pixel at a multiple of the pixel size lies within one row. */
  lemma PixelInRow(info: Info, offset: nat)
    requires info.Row() > 0 && offset % info.Pixel() == 0
    ensures var r := offset / info.Row();
            r * info.Row() <= offset && offset + info.Pixel() <= (r + 1) * info.Row()
  {
    var n, r, row := info.Pixel(), offset / info.Row(), info.Row();
    assert offset == r * row + offset % row;
    Spread(r, row);
    var a, b := offset / n, (r + 1) * info.Pitch();
    assert offset == a * n;
    assert (r + 1) * row == b * n;
    MultiplesApart(n, a, b);
  }

  lemma MultiplesApart(n: nat, a: nat, b: nat)
    requires n > 0 && a * n < b * n
    ensures a * n + n <= b * n
  {
    MultipleOrder(n, b, a);
    MultipleOrder(n, a + 1, b);
    Spread(a, n);
  }

  /** The bytes of the visible rows. */
  function Visible(info: Info): nat { info.height * info.Row() }

  class Framebuffer {
    const buffer: array<byte>
    const info: Info
    var shadow: Option<array<byte>>
    var batchDepth: u64
    var dirtyStart: Option<nat>
    var dirtyEnd: nat

    ghost predicate Shape()
      reads this
    {
      && Visible(info) <= buffer.Length
      && (shadow.Some? ==> shadow.value != buffer && shadow.value.Length == buffer.Length)
    }

    /** What the display is meant to show. */
    ghost function Active(): (s: seq<byte>)
      requires Shape()
      reads this, buffer, if shadow.Some? then {shadow.value} else {}
      ensures |s| == buffer.Length
    {
      if shadow.Some? then shadow.value[..] else buffer[..]
    }

    ghost predicate Dirty(i: int)
      reads this
    {
      dirtyStart.Some? && dirtyStart.value * info.Row() <= i < dirtyEnd * info.Row()
    }

    /** Outside the dirty rows, the visible part of the hardware buffer is up to date. */
    ghost predicate Synced()
      requires Shape()
      reads this, buffer, if shadow.Some? then {shadow.value} else {}
    {
      shadow.Some? ==> forall i | 0 <= i < Visible(info) :: buffer[i] == shadow.value[i] || Dirty(i)
    }

    ghost predicate Valid()
      reads this, buffer, if shadow.Some? then {shadow.value} else {}
    {
      Shape() && Synced() && (batchDepth == 0 || shadow.None? ==> dirtyStart.None?)
    }

    constructor (buffer: array<byte>, info: Info)
      requires Visible(info) <= buffer.Length
      ensures Valid() && this.buffer == buffer && this.info == info && shadow.None? && batchDepth == 0
    {
      this.buffer, this.info := buffer, info;
      shadow, batchDepth, dirtyStart, dirtyEnd := None, 0, None, 0;
    }

    // ---------- dirty rows ----------

    method MarkDirtyRows(startRow: nat, rowCount: nat)
      requires Shape()
      modifies `dirtyStart, `dirtyEnd
      ensures Shape()
      ensures forall i :: old(Dirty(i)) ==> Dirty(i)
      ensures old(Synced()) ==> Synced()
      ensures shadow.None? ==> dirtyStart == old(dirtyStart)
      ensures shadow.Some? ==> forall i | 0 <= i < Visible(info) ::
                startRow * info.Row() <= i < (startRow + rowCount) * info.Row() ==> Dirty(i)
    {
      if shadow.None? || rowCount == 0 {
        return;
      }
      var endRow := Min(startRow + rowCount, info.height);
      ghost var s, e := dirtyStart, dirtyEnd;
      dirtyEnd := Max(dirtyEnd, endRow);
      dirtyStart := Some(if dirtyStart.Some? then Min(dirtyStart.value, startRow) else startRow);
      MultipleOrder(info.Row(), e, dirtyEnd);
      MultipleOrder(info.Row(), endRow, dirtyEnd);
      MultipleOrder(info.Row(), dirtyStart.value, startRow);
      if s.Some? {
        MultipleOrder(info.Row(), dirtyStart.value, s.value);
      }
    }

    /** Copy the dirty rows to the hardware buffer; afterwards nothing is dirty. */
    method FlushDirty()
      requires Shape()
      modifies `dirtyStart, `dirtyEnd, buffer
      ensures Shape() && Active() == old(Active())
      ensures shadow.Some? ==> dirtyStart.None?
      ensures shadow.None? ==> dirtyStart == old(dirtyStart)
      ensures old(Synced()) ==> Synced()
    {
      if shadow.None? || dirtyStart.None? {
        return;
      }
      var startRow, endRow := dirtyStart.value, Min(dirtyEnd, info.height);
      ghost var e := dirtyEnd;
      dirtyStart, dirtyEnd := None, 0;
      MultipleOrder(info.Row(), startRow, endRow);
      MultipleOrder(info.Row(), endRow, startRow);
      MultipleOrder(info.Row(), endRow, info.height);
      MultipleOrder(info.Row(), info.height, e);
      if startRow >= endRow || info.Row() == 0 {
        return;
      }
      var start, end := startRow * info.Row(), Min(endRow * info.Row(), buffer.Length);
      Copy(start, end);
    }

    method Copy(start: nat, end: nat)
      requires Shape() && shadow.Some? && start <= end <= buffer.Length
      modifies buffer
      ensures Active() == old(Active())
      ensures forall i | 0 <= i < buffer.Length ::
                buffer[i] == if start <= i < end then shadow.value[i] else old(buffer[i])
    {
      var source := shadow.value;
      forall i | start <= i < end {
        buffer[i] := source[i];
      }
    }

    // ---------- drawing ----------

    method WriteColorBytes(target: array<byte>, offset: nat, color: u32)
      requires offset + info.Pixel() <= target.Length
      modifies target
      ensures target[..] == Put(info, old(target[..]), offset, color)
    {
      hide RawByte, Red, Green, Blue, Luminance;
      var n := info.Pixel();
      match info.format {
        case U8 =>
          target[offset] := Luminance(color);
        case Unknown(_, _, _) =>
          var count := Min(n, 4);
          forall i | offset <= i < offset + count {
            target[i] := RawByte(info.format, color, i - offset);
          }
        case Bgr =>
          WriteChannels(target, offset, Blue(color), Green(color), Red(color));
        case _ =>
          WriteChannels(target, offset, Red(color), Green(color), Blue(color));
      }
      if n == 4 {
        target[offset + 3] := 0;
      }
    }

    /** The first three bytes of the pixel, as far as it has them. */
    method WriteChannels(target: array<byte>, offset: nat, first: byte, second: byte, third: byte)
      requires offset + info.Pixel() <= target.Length
      modifies target
      ensures forall i | 0 <= i < target.Length ::
                target[i] == if offset <= i < offset + Min(info.Pixel(), 3) then [first, second, third][i - offset]
                             else old(target[i])
    {
      target[offset] := first;
      if info.Pixel() > 1 {
        target[offset + 1] := second;
      }
      if info.Pixel() > 2 {
        target[offset + 2] := third;
      }
    }

    /** Draw one pixel. At a pixel boundary the dirty rows keep track of it. */
    method WriteColorAtOffset(offset: nat, color: u32)
      requires Shape()
      modifies `dirtyStart, `dirtyEnd, buffer, if shadow.Some? then {shadow.value} else {}
      ensures Shape() && Active() == Put(info, old(Active()), offset, color)
      ensures old(Synced()) && offset % info.Pixel() == 0 ==> Synced()
      ensures (batchDepth == 0 || shadow.None?) && old(dirtyStart.None?) ==> dirtyStart.None?
      ensures batchDepth > 0 && shadow.Some? ==> buffer[..] == old(buffer[..])
    {
      if offset + info.Pixel() > buffer.Length {
        return;
      }
      if shadow.None? {
        WriteColorBytes(buffer, offset, color);
        return;
      }
      MarkDirtyOffset(offset);
      DrawShadow(offset, color);
      if batchDepth == 0 {
        FlushDirty();
      }
    }

    method MarkDirtyOffset(offset: nat)
      requires Shape() && shadow.Some?
      modifies `dirtyStart, `dirtyEnd
      ensures Shape()
      ensures old(Synced()) ==> Synced()
      ensures offset % info.Pixel() == 0 ==>
                forall i | offset <= i < offset + info.Pixel() && i < Visible(info) :: Dirty(i)
    {
      if info.Row() == 0 {
        return;
      }
      var row := offset / info.Row();
      if offset % info.Pixel() == 0 {
        PixelInRow(info, offset);
      }
      MarkDirtyRows(row, 1);
    }

    method DrawShadow(offset: nat, color: u32)
      requires Shape() && shadow.Some? && offset + info.Pixel() <= buffer.Length
      modifies shadow.value
      ensures Shape() && Active() == Put(info, old(Active()), offset, color)
      ensures old(Synced()) && (forall i | offset <= i < offset + info.Pixel() && i < Visible(info) :: Dirty(i)) ==> Synced()
    {
      WriteColorBytes(shadow.value, offset, color);
      assert forall i | 0 <= i < buffer.Length && !(offset <= i < offset + info.Pixel()) ::
               shadow.value[..][i] == old(shadow.value[..])[i];
    }

    /** The body of `clear`, and of the fill that ends a scroll. */
    method FillFrom(start: nat, color: u32)
      requires Shape()
      modifies `dirtyStart, `dirtyEnd, buffer, if shadow.Some? then {shadow.value} else {}
      ensures Shape() && Active() == Fill(info, old(Active()), start, color)
      ensures old(Synced()) && start % info.Pixel() == 0 ==> Synced()
      ensures (batchDepth == 0 || shadow.None?) && old(dirtyStart.None?) ==> dirtyStart.None?
      ensures batchDepth > 0 && shadow.Some? ==> buffer[..] == old(buffer[..])
    {
      hide Put, Visible;
      var offset := start;
      while offset < buffer.Length
        invariant Shape() && start <= offset
        invariant Fill(info, Active(), offset, color) == Fill(info, old(Active()), start, color)
        invariant old(Synced()) && start % info.Pixel() == 0 ==> Synced() && offset % info.Pixel() == 0
        invariant (batchDepth == 0 || shadow.None?) && old(dirtyStart.None?) ==> dirtyStart.None?
        invariant batchDepth > 0 && shadow.Some? ==> buffer[..] == old(buffer[..])
      {
        WriteColorAtOffset(offset, color);
        NextMultiple(offset, info.Pixel());
        offset := offset + info.Pixel();
      }
    }

    method Clear(color: u32)
      requires Valid()
      modifies this, buffer, if shadow.Some? then {shadow.value} else {}
      ensures Valid() && shadow == old(shadow) && batchDepth == old(batchDepth)
      ensures Active() == Fill(info, old(Active()), 0, color)
      ensures DrawnFrom(info, old(Active()), Active(), 0, color)
      ensures batchDepth > 0 && shadow.Some? ==> buffer[..] == old(buffer[..])
    {
      FillDraws(info, Active(), 0, color);
      FillFrom(0, color);
    }

    method ScrollUp(rows: nat, color: u32)
      requires Valid()
      modifies this, buffer, if shadow.Some? then {shadow.value} else {}
      ensures Valid() && shadow == old(shadow) && batchDepth == old(batchDepth)
      ensures Active() == Scroll(info, old(Active()), rows, color)
      ensures Scrolled(info, old(Active()), Active(), rows, color)
      ensures batchDepth > 0 && shadow.Some? ==> buffer[..] == old(buffer[..])
    {
      hide Fill, Visible, Put, Scrolled;
      ScrollDraws(info, Active(), rows, color);
      if info.Row() == 0 {
        return;
      }
      var k := rows * info.Row();
      if k >= buffer.Length {
        FillFrom(0, color);
        return;
      }
      CopyWithin(k);
      FillFrom(buffer.Length - k, color);
      if shadow.Some? {
        PublishAll();
      }
    }

    method PublishAll()
      requires Shape() && shadow.Some?
      modifies `dirtyStart, `dirtyEnd, buffer
      ensures Valid() && Active() == old(Active())
      ensures batchDepth > 0 ==> buffer[..] == old(buffer[..])
    {
      MarkAll();
      if batchDepth == 0 {
        FlushDirty();
      }
    }

    /** With every visible row dirty, the buffers may differ in any way. */
    method MarkAll()
      requires Shape() && shadow.Some?
      modifies `dirtyStart, `dirtyEnd
      ensures Shape() && Synced()
    {
      MarkDirtyRows(0, info.height);
      assert (0 + info.height) * info.Row() == Visible(info);
    }

    /** `copy_within(k.., 0)` on the active buffer. */
    method CopyWithin(k: nat)
      requires Shape() && k <= buffer.Length
      modifies buffer, if shadow.Some? then {shadow.value} else {}
      ensures Shape() && Active() == old(Active())[k..] + old(Active())[buffer.Length - k..]
      ensures shadow.Some? ==> buffer[..] == old(buffer[..])
    {
      var target := if shadow.Some? then shadow.value else buffer;
      forall i | 0 <= i < target.Length - k {
        target[i] := target[i + k];
      }
      assert Active() == old(Active())[k..] + old(Active())[buffer.Length - k..];
    }

    method WritePixel(x: nat, y: nat, color: u32)
      requires Valid()
      modifies this, buffer, if shadow.Some? then {shadow.value} else {}
      ensures Valid() && shadow == old(shadow) && batchDepth == old(batchDepth)
      ensures Active() == PutPixel(info, old(Active()), x, y, color)
      ensures PixelDrawn(info, old(Active()), Active(), x, y, color)
      ensures batchDepth > 0 && shadow.Some? ==> buffer[..] == old(buffer[..])
    {
      hide Put, PixelDrawn;
      PutPixelDraws(info, Active(), x, y, color);
      if x >= info.width || y >= info.height {
        return;
      }
      MultipleOf(y * info.Pitch() + x, info.Pixel());
      WriteColorAtOffset(PixelOffset(info, x, y), color);
    }

    method BeginBatch()
      requires Valid()
      modifies `batchDepth
      ensures Valid() && Active() == old(Active()) && buffer[..] == old(buffer[..])
      ensures batchDepth == if old(batchDepth) == 0xFFFF_FFFF_FFFF_FFFF then old(batchDepth) else old(batchDepth) + 1
    {
      batchDepth := if batchDepth == U64_MODULUS - 1 then batchDepth else batchDepth + 1;
    }

    method EndBatch()
      requires Valid()
      modifies this, buffer
      ensures Valid() && shadow == old(shadow) && Active() == old(Active())
      ensures batchDepth == if old(batchDepth) == 0 then 0 else old(batchDepth) - 1
      ensures batchDepth > 0 ==> buffer[..] == old(buffer[..])
    {
      if batchDepth == 0 {
        return;
      }
      batchDepth := batchDepth - 1;
      if batchDepth == 0 {
        FlushDirty();
      }
    }

    method Perform(op: Op)
      requires Valid()
      modifies this, buffer, if shadow.Some? then {shadow.value} else {}
      ensures Valid() && shadow == old(shadow) && batchDepth == Depth(old(batchDepth), op)
      ensures Active() == Direct(info, old(Active()), op)
    {
      match op
      case Clear(color) => Clear(color);
      case ScrollUp(rows, color) => ScrollUp(rows, color);
      case Pixel(x, y, color) => WritePixel(x, y, color);
      case BeginBatch => BeginBatch();
      case EndBatch => EndBatch();
    }

    /** Any sequence of operations leaves what direct drawing would leave. */
    method PerformAll(ops: seq<Op>)
      requires Valid()
      modifies this, buffer, if shadow.Some? then {shadow.value} else {}
      ensures Valid() && shadow == old(shadow) && batchDepth == DepthAll(old(batchDepth), ops)
      ensures Active() == DirectAll(info, old(Active()), ops)
    {
      for k := 0 to |ops|
        invariant Valid() && shadow == old(shadow) && batchDepth == DepthAll(old(batchDepth), ops[..k])
        invariant Active() == DirectAll(info, old(Active()), ops[..k])
      {
        Perform(ops[k]);
        assert ops[..k + 1][..k] == ops[..k];
      }
      assert ops[..|ops|] == ops;
    }

    /** Switch to the shadow buffer, which starts as a copy; `fits` is the heap check. */
    method EnableShadowBuffer(fits: bool) returns (ok: bool)
      requires Valid()
      modifies this, buffer
      ensures Valid() && Active() == old(Active()) && batchDepth == old(batchDepth)
      ensures shadow.Some? && old(shadow.None?) ==> fresh(shadow.value)
      ensures old(shadow.Some?) ==> shadow == old(shadow)
      ensures ok == (old(shadow.Some?) || fits) && (ok ==> shadow.Some?) && (!ok ==> shadow.None?)
    {
      if shadow.Some? {
        return true;
      }
      if !fits {
        return false;
      }
      var copy := new byte[buffer.Length](i requires 0 <= i < buffer.Length reads buffer => buffer[i]);
      shadow := Some(copy);
      assert Active() == old(Active());
      MarkAll();
      FlushDirty();
      return true;
    }
  }

  /**
   Shadow mode refines direct mode: after the same operations the shadow is what the direct
   buffer is, and whenever no batch is open every visible row on the screen is too.
   */
  method SideBySide(shadowed: Framebuffer, direct: Framebuffer, ops: seq<Op>)
    requires shadowed.Valid() && direct.Valid() && shadowed != direct && shadowed.info == direct.info
    requires shadowed.shadow.Some? && direct.shadow.None?
    requires direct.buffer != shadowed.buffer && direct.buffer != shadowed.shadow.value
    requires shadowed.Active() == direct.Active()
    modifies shadowed, direct, shadowed.buffer, shadowed.shadow.value, direct.buffer
    ensures shadowed.Valid() && direct.Valid()
    ensures shadowed.shadow == old(shadowed.shadow) && direct.shadow.None?
    ensures shadowed.shadow.value[..] == direct.buffer[..]
    ensures direct.buffer[..] == DirectAll(direct.info, old(direct.buffer[..]), ops)
    ensures DepthAll(old(shadowed.batchDepth), ops) == 0 ==>
              forall i | 0 <= i < Visible(direct.info) :: shadowed.buffer[i] == direct.buffer[i]
  {
    shadowed.PerformAll(ops);
    direct.PerformAll(ops);
    if shadowed.batchDepth == 0 {
      ScreenUpToDate(shadowed);
    }
    assert shadowed.shadow.value[..] == direct.buffer[..];
    assert forall i | 0 <= i < direct.buffer.Length :: shadowed.shadow.value[..][i] == direct.buffer[..][i];
  }

  lemma ScreenUpToDate(f: Framebuffer)
    requires f.Valid() && f.shadow.Some? && f.batchDepth == 0
    ensures forall i | 0 <= i < Visible(f.info) :: f.buffer[i] == f.shadow.value[i]
  {
  }

  lemma NextMultiple(a: nat, n: nat)
    requires n > 0
    ensures a % n == 0 ==> (a + n) % n == 0
  {
    if a % n == 0 {
      Spread(a / n, n);
      DivisionUnique(a + n, n, a / n + 1);
    }
  }

  lemma MultipleOf(q: nat, n: nat)
    requires n > 0
    ensures (q * n) % n == 0
  {
    DivisionUnique(q * n, n, q);
  }
}
