/**
 Decoding of a chunked HTTP body (kernel/src/net/http.rs), against the encoding of section
 7.1 of RFC 9112.
 */
module Chunked {
  import opened Bytes
  import opened Errors

  const CR: byte := 13
  const LF: byte := 10
  const PLUS: byte := 43
  const SEMICOLON: byte := 59
  const CRLF: seq<byte> := [13, 10]

  datatype BodyError = InvalidBody | InvalidSize | ChunkTooLong

  // ---------- the pieces of the decoder ----------

  predicate CrlfAt(bytes: seq<byte>, i: int) {
    0 <= i < |bytes| - 1 && bytes[i] == CR && bytes[i + 1] == LF
  }

  /** Position of the first CR LF at or after `from`. */
  function FindCrlf(bytes: seq<byte>, from: nat): (r: Option<nat>)
    ensures r.Some? ==> from <= r.value && CrlfAt(bytes, r.value)
    ensures forall i | from <= i < (if r.Some? then r.value else |bytes|) :: !CrlfAt(bytes, i)
    decreases |bytes| - from
  {
    if from >= |bytes| then None
    else if CrlfAt(bytes, from) then Some(from)
    else FindCrlf(bytes, from + 1)
  }

  function HexDigit(b: byte): Option<nat> {
    if 48 <= b <= 57 then Some(b - 48)
    else if 97 <= b <= 102 then Some(b - 87)
    else if 65 <= b <= 70 then Some(b - 55)
    else None
  }

  /** The digits read so far, refused at a bad digit or when 64 bits no longer suffice. */
  function HexDigits(s: str): Option<nat> {
    if s == [] then Some(0)
    else
      match (HexDigits(s[..|s| - 1]), HexDigit(s[|s| - 1]))
      case (Some(v), Some(d)) => if v * 16 + d < U64_MODULUS then Some(v * 16 + d) else None
      case _ => None
  }

  /** `usize::from_str_radix(s, 16)`: one leading plus sign is allowed. */
  function ParseHex(s: str): Option<nat> {
    if s == [] || s == [PLUS] then None
    else if s[0] == PLUS then HexDigits(s[1..])
    else HexDigits(s)
  }

  // ---------- the decoder ----------

  /** A size line: the size, and where the data starts. */
  datatype Line = Line(size: nat, start: nat)

  function SizeLine(bytes: seq<byte>, cursor: nat): (r: Result<Line, BodyError>)
    requires cursor <= |bytes|
    ensures r.Ok? ==> cursor < r.value.start <= |bytes|
  {
    var end := FindCrlf(bytes, cursor);
    if end.None? then Err(InvalidBody)
    else if !ValidUtf8(bytes[cursor..end.value]) then Err(InvalidSize)
    else
      var size := ParseHex(Trim(bytes[cursor..end.value]));
      if size.None? then Err(InvalidSize) else Ok(Line(size.value, end.value + 2))
  }

  function Decode(bytes: seq<byte>, cursor: nat): Result<seq<byte>, BodyError>
    decreases |bytes| - cursor
  {
    if cursor >= |bytes| then Ok([])
    else
      var line :- SizeLine(bytes, cursor);
      if line.size == 0 then Ok([])
      else if line.start + line.size > |bytes| then Err(ChunkTooLong)
      else
        var rest :- Decode(bytes, line.start + line.size + 2);
        Ok(bytes[line.start..line.start + line.size] + rest)
  }

  /** `body` so far and the rest still to decode make up the whole result. */
  predicate Prefixed(whole: Result<seq<byte>, BodyError>, body: seq<byte>, rest: Result<seq<byte>, BodyError>) {
    whole == if rest.Ok? then Ok(body + rest.value) else rest
  }

  lemma PrefixedNext(whole: Result<seq<byte>, BodyError>, body: seq<byte>, data: seq<byte>, rest: Result<seq<byte>, BodyError>)
    requires Prefixed(whole, body, if rest.Ok? then Ok(data + rest.value) else rest)
    ensures Prefixed(whole, body + data, rest)
  {
    assert rest.Ok? ==> body + (data + rest.value) == (body + data) + rest.value;
  }

  /** `decode_chunked_body`: the loop ends and stays within the input on every input. */
  method DecodeChunkedBody(bytes: seq<byte>) returns (r: Result<seq<byte>, BodyError>)
    ensures r == Decode(bytes, 0)
  {
    hide SizeLine;
    var cursor := 0;
    var body: seq<byte> := [];
    ghost var whole := Decode(bytes, 0);
    assert whole.Ok? ==> body + whole.value == whole.value;
    while cursor < |bytes|
      invariant Prefixed(whole, body, Decode(bytes, cursor))
      decreases |bytes| - cursor
    {
      var line :- SizeLine(bytes, cursor);
      cursor := line.start;
      if line.size == 0 {
        assert body + [] == body;
        return Ok(body);
      }
      var end := cursor + line.size;
      if end > |bytes| {
        return Err(ChunkTooLong);
      }
      PrefixedNext(whole, body, bytes[cursor..end], Decode(bytes, end + 2));
      body := body + bytes[cursor..end];
      cursor := end + 2;
    }
    assert body + [] == body;
    return Ok(body);
  }

  // ---------- hexadecimal numbers ----------

  /** Digit `d` is written so, in either case. */
  predicate Writes(b: byte, d: nat) {
    d < 16 && (b == Ascii("0123456789abcdef")[d] || b == Ascii("0123456789ABCDEF")[d])
  }

  predicate AreDigits(s: str, digits: seq<nat>) {
    |digits| == |s| && forall i | 0 <= i < |s| :: Writes(s[i], digits[i])
  }

  function Pow16(n: nat): nat { if n == 0 then 1 else 16 * Pow16(n - 1) }

  /** The number with these digits, the first one weighing most. */
  function Positional(digits: seq<nat>): nat {
    if digits == [] then 0 else digits[0] * Pow16(|digits| - 1) + Positional(digits[1..])
  }

  /** The text is a hexadecimal spelling of the number. */
  ghost predicate Spelled(s: str, n: nat) {
    exists digits :: AreDigits(s, digits) && Positional(digits) == n
  }

  lemma WritesExactly(b: byte, d: nat)
    ensures Writes(b, d) <==> HexDigit(b) == Some(d)
  {
    if d < 16 {
      var lower, upper := Ascii("0123456789abcdef"), Ascii("0123456789ABCDEF");
      assert lower[d] == if d < 10 then 48 + d else 87 + d;
      assert upper[d] == if d < 10 then 48 + d else 55 + d;
    }
  }

  lemma {:induction false} PositionalLast(digits: seq<nat>)
    requires digits != []
    ensures Positional(digits) == 16 * Positional(digits[..|digits| - 1]) + digits[|digits| - 1]
  {
    var n := |digits| - 1;
    if n == 0 {
      assert digits[1..] == [] && digits[..0] == [];
    } else {
      PositionalLast(digits[1..]);
      assert digits[1..][..n - 1] == digits[..n][1..];
      assert digits[0] * Pow16(n) == 16 * (digits[0] * Pow16(n - 1));
    }
  }

  /** The parser reads exactly the hexadecimal numbers that fit 64 bits. */
  lemma {:induction false} HexDigitsExactly(s: str, digits: seq<nat>)
    requires AreDigits(s, digits)
    ensures HexDigits(s) == if Positional(digits) < 0x1_0000_0000_0000_0000 then Some(Positional(digits)) else None
  {
    hide Writes, HexDigit;
    if s != [] {
      var n := |s| - 1;
      HexDigitsExactly(s[..n], digits[..n]);
      PositionalLast(digits);
      WritesExactly(s[n], digits[n]);
    }
  }

  lemma NoDigitFails(s: str, k: nat)
    requires k < |s| && forall d :: !Writes(s[k], d)
    ensures HexDigits(s).None?
  {
    hide Writes;
    if HexDigit(s[k]).Some? {
      WritesExactly(s[k], HexDigit(s[k]).value);
    }
    BadDigit(s, k);
  }

  lemma SpelledReads(s: str, n: nat)
    requires Spelled(s, n) && n < U64_MODULUS
    ensures HexDigits(s) == Some(n)
  {
    hide HexDigits;
    var digits :| AreDigits(s, digits) && Positional(digits) == n;
    HexDigitsExactly(s, digits);
  }

  // ---------- the encoding ----------

  /** One chunk: any hexadecimal spelling of its size, what else stands on that line, its data. */
  datatype Chunk = Chunk(size: str, extension: str, data: seq<byte>)

  /** How many spaces and tabs there are in front. */
  function Blanks(e: str): (k: nat)
    ensures k <= |e| && (forall i | 0 <= i < k :: e[i] == 32 || e[i] == 9)
    ensures k < |e| ==> e[k] != 32 && e[k] != 9
  {
    if e == [] || (e[0] != 32 && e[0] != 9) then 0
    else
      var k := Blanks(e[1..]);
      assert forall i | 1 <= i < |e| :: e[i] == e[1..][i - 1];
      1 + k
  }

  /** Nothing but white space after the size. */
  predicate Bare(e: str) { Blanks(e) == |e| }

  /** White space, and then nothing or an extension, as section 7.1.1 of RFC 9112 has it. */
  predicate GoodExtension(e: str) { CR !in e && (Bare(e) || e[Blanks(e)] == SEMICOLON) }

  ghost predicate GoodChunk(c: Chunk) {
    c.size != [] && 0 < |c.data| < U64_MODULUS && Spelled(c.size, |c.data|) && GoodExtension(c.extension)
  }

  /** The last chunk is one or more zeros. */
  predicate GoodLast(c: Chunk) {
    c.size != [] && (forall i | 0 <= i < |c.size| :: c.size[i] == 48) && GoodExtension(c.extension)
  }

  function Encode(chunks: seq<Chunk>, last: Chunk, after: seq<byte>): seq<byte> {
    if chunks == [] then last.size + last.extension + CRLF + after
    else chunks[0].size + chunks[0].extension + CRLF + chunks[0].data + CRLF + Encode(chunks[1..], last, after)
  }

  function Body(chunks: seq<Chunk>): seq<byte> {
    if chunks == [] then [] else chunks[0].data + Body(chunks[1..])
  }

  predicate Plain(chunks: seq<Chunk>, last: Chunk) {
    Bare(last.extension) && forall i | 0 <= i < |chunks| :: Bare(chunks[i].extension)
  }

  // ---------- size lines ----------

  predicate HexByte(b: byte) { HexDigit(b).Some? }

  lemma {:induction false} HexDigitsBytes(s: str)
    requires HexDigits(s).Some?
    ensures forall i | 0 <= i < |s| :: HexByte(s[i])
  {
    if s != [] {
      HexDigitsBytes(s[..|s| - 1]);
    }
  }

  lemma {:induction false} BadDigit(s: str, k: nat)
    requires k < |s| && !HexByte(s[k])
    ensures HexDigits(s).None?
  {
    if k < |s| - 1 {
      BadDigit(s[..|s| - 1], k);
    }
  }

  lemma {:induction false} ZerosAreZero(s: str)
    requires forall i | 0 <= i < |s| :: s[i] == 48
    ensures HexDigits(s) == Some(0)
  {
    if s != [] {
      ZerosAreZero(s[..|s| - 1]);
    }
  }

  lemma {:induction false} TrimEndBlanks(s: str, e: str)
    requires s != [] && Printable(s[|s| - 1]) && forall i | 0 <= i < |e| :: e[i] == 32 || e[i] == 9
    ensures TrimEnd(s + e) == s
    decreases |e|
  {
    hide SpaceAtBack, IsSpace;
    var line := s + e;
    if e == [] {
      assert line == s;
    } else {
      var n := |e| - 1;
      BlankAtBack(line);
      assert line[..|line| - 1] == s + e[..n];
      TrimEndBlanks(s, e[..n]);
    }
  }

  /** A size with nothing but white space after it parses to its value. */
  lemma PlainSizeParses(s: str, e: str)
    requires s != [] && HexDigits(s).Some? && Bare(e)
    ensures ValidUtf8(s + e) && ParseHex(Trim(s + e)) == HexDigits(s)
  {
    hide ValidUtf8, HexDigits, TrimEnd;
    HexDigitsBytes(s);
    assert HexByte(s[0]) && HexByte(s[|s| - 1]);
    var line := s + e;
    assert forall i | 0 <= i < |s| :: HexByte(s[i]) ==> s[i] < 0x80;
    AsciiIsUtf8(line);
    assert line[0] == s[0];
    TrimStartPrintable(line);
    TrimEndBlanks(s, e);
  }

  lemma {:induction false} TrimEndKeeps(s: str, k: nat)
    requires k < |s| && Printable(s[k])
    ensures k < |TrimEnd(s)| && TrimEnd(s) == s[..|TrimEnd(s)|]
    decreases |s|
  {
    if SpaceAtBack(s) > 0 {
      SpaceNotPrintable(s, k);
      TrimEndKeeps(s[..|s| - SpaceAtBack(s)], k);
    }
  }

  lemma SpaceNotPrintable(s: str, k: nat)
    requires k < |s| && Printable(s[k])
    ensures k < |s| - SpaceAtBack(s)
  {
    var n := SpaceAtBack(s);
    if n > 0 {
      var tail := s[|s| - n..];
      assert IsSpace(tail);
      SpaceBytes(tail);
      assert forall i | |s| - n <= i < |s| :: s[i] == tail[i - (|s| - n)];
    }
  }

  lemma SpaceBytes(c: str)
    requires IsSpace(c)
    ensures forall i | 0 <= i < |c| :: !Printable(c[i])
  {
  }

  /** A size line with an extension never parses. */
  lemma ExtendedSizeFails(s: str, e: str)
    requires s != [] && HexDigits(s).Some? && !Bare(e) && e[Blanks(e)] == SEMICOLON
    ensures ParseHex(Trim(s + e)).None?
  {
    hide HexDigits, TrimStart, TrimEnd, Blanks;
    HexDigitsBytes(s);
    assert HexByte(s[0]);
    var line, k := s + e, |s| + Blanks(e);
    assert line[0] == s[0] && line[k] == SEMICOLON;
    TrimStartPrintable(line);
    TrimEndKeeps(line, k);
    var t := Trim(line);
    assert t[k] == SEMICOLON && t[0] == s[0];
    BadDigit(t, k);
  }

  /** The size line at the cursor ends where the encoder ended it. */
  lemma LineFound(bytes: seq<byte>, c: nat, line: str)
    requires c + |line| <= |bytes| && bytes[c..c + |line|] == line
    requires CrlfAt(bytes, c + |line|) && CR !in line
    ensures FindCrlf(bytes, c) == Some(c + |line|)
  {
    forall i | c <= i < c + |line|
      ensures !CrlfAt(bytes, i)
    {
      assert bytes[i] == line[i - c];
    }
  }

  lemma NoReturn(s: str)
    requires HexDigits(s).Some?
    ensures CR !in s
  {
    HexDigitsBytes(s);
    assert !HexByte(CR);
  }

  lemma SizeLineReads(bytes: seq<byte>, c: nat, size: str, extension: str)
    requires size != [] && HexDigits(size).Some? && GoodExtension(extension)
    requires c + |size| + |extension| <= |bytes|
    requires bytes[c..c + |size| + |extension|] == size + extension
    requires CrlfAt(bytes, c + |size| + |extension|)
    ensures SizeLine(bytes, c).Ok? <==> Bare(extension)
    ensures Bare(extension) ==> SizeLine(bytes, c).value == Line(HexDigits(size).value, c + |size| + |extension| + 2)
  {
    hide Trim, ValidUtf8, ParseHex, HexDigits;
    NoReturn(size);
    LineFound(bytes, c, size + extension);
    if Bare(extension) {
      PlainSizeParses(size, extension);
    } else {
      ExtendedSizeFails(size, extension);
    }
  }

  /** Where the pieces of a concatenation stand. */
  lemma Pieces(bytes: seq<byte>, c: nat, a: seq<byte>, b: seq<byte>)
    requires c <= |bytes| && bytes[c..] == a + b
    ensures c + |a| <= |bytes| && bytes[c..c + |a|] == a && bytes[c + |a|..] == b
  {
    assert bytes[c..c + |a|] == bytes[c..][..|a|];
    assert bytes[c + |a|..] == bytes[c..][|a|..];
  }

  // ---------- round trip ----------

  lemma LastDecodes(bytes: seq<byte>, c: nat, last: Chunk, after: seq<byte>)
    requires GoodLast(last) && c <= |bytes| && bytes[c..] == Encode([], last, after)
    ensures if Bare(last.extension) then Decode(bytes, c) == Ok([]) else Decode(bytes, c).Err?
  {
    ZerosAreZero(last.size);
    var line := last.size + last.extension;
    assert Encode([], last, after) == line + (CRLF + after);
    Pieces(bytes, c, line, CRLF + after);
    assert bytes[c + |line|] == bytes[c + |line|..][0] && bytes[c + |line| + 1] == bytes[c + |line|..][1];
    SizeLineReads(bytes, c, last.size, last.extension);
  }

  lemma FirstDecodes(bytes: seq<byte>, c: nat, chunk: Chunk, post: seq<byte>) returns (next: nat)
    requires GoodChunk(chunk) && c <= |bytes|
    requires bytes[c..] == chunk.size + chunk.extension + CRLF + chunk.data + CRLF + post
    ensures next <= |bytes| && bytes[next..] == post
    ensures var rest := Decode(bytes, next);
            if !Bare(chunk.extension) then Decode(bytes, c).Err?
            else Decode(bytes, c) == if rest.Err? then rest else Ok(chunk.data + rest.value)
  {
    hide SizeLine, HexDigits, GoodExtension, FindCrlf, Spelled;
    var line, data := chunk.size + chunk.extension, chunk.data;
    ChunkPieces(bytes, c, line, data, post);
    next := c + |line| + 2 + |data| + 2;
    SpelledReads(chunk.size, |data|);
    SizeLineReads(bytes, c, chunk.size, chunk.extension);
  }

  /** Where the parts of a chunk lie. */
  lemma ChunkPieces(bytes: seq<byte>, c: nat, line: seq<byte>, data: seq<byte>, post: seq<byte>)
    requires c <= |bytes| && bytes[c..] == line + CRLF + data + CRLF + post
    ensures var e := c + |line|;
            && e + 2 + |data| + 2 <= |bytes| && bytes[c..e] == line && CrlfAt(bytes, e)
            && bytes[e + 2..e + 2 + |data|] == data && bytes[e + 2 + |data| + 2..] == post
  {
    var e := c + |line|;
    assert bytes[c..] == line + (CRLF + (data + (CRLF + post)));
    Pieces(bytes, c, line, CRLF + (data + (CRLF + post)));
    Pieces(bytes, e, CRLF, data + (CRLF + post));
    assert bytes[e] == bytes[e..e + 2][0] && bytes[e + 1] == bytes[e..e + 2][1];
    Pieces(bytes, e + 2, data, CRLF + post);
    Pieces(bytes, e + 2 + |data|, CRLF, post);
  }

  /**
   Decoding inverts the encoding, whatever spelling the sizes have, with or without white
   space after them, and whatever follows the last chunk (trailers included), exactly when no
   chunk carries an extension.
   */
  lemma {:induction false} DecodeInvertsEncode(bytes: seq<byte>, c: nat, chunks: seq<Chunk>, last: Chunk, after: seq<byte>)
    requires (forall i | 0 <= i < |chunks| :: GoodChunk(chunks[i])) && GoodLast(last)
    requires c <= |bytes| && bytes[c..] == Encode(chunks, last, after)
    ensures if Plain(chunks, last) then Decode(bytes, c) == Ok(Body(chunks)) else Decode(bytes, c).Err?
    decreases |chunks|
  {
    if chunks == [] {
      LastDecodes(bytes, c, last, after);
    } else {
      var next := FirstDecodes(bytes, c, chunks[0], Encode(chunks[1..], last, after));
      DecodeInvertsEncode(bytes, next, chunks[1..], last, after);
      PlainSplit(chunks, last);
    }
  }

  lemma PlainSplit(chunks: seq<Chunk>, last: Chunk)
    requires chunks != []
    ensures Plain(chunks, last) <==> Bare(chunks[0].extension) && Plain(chunks[1..], last)
  {
    assert forall i | 1 <= i < |chunks| :: chunks[i] == chunks[1..][i - 1];
  }

  // ---------- exactly what is accepted ----------

  /** A chunk as the decoder takes it: the line its size stands on, its data, and the bytes it skips. */
  datatype Taken = Taken(line: str, data: seq<byte>, skipped: seq<byte>)

  /** A line that ends at the first CR LF and gives this size. */
  predicate Gives(line: str, size: nat) {
    && (forall i | 0 <= i < |line| :: !CrlfAt(line + CRLF, i))
    && ValidUtf8(line) && ParseHex(Trim(line)) == Some(size)
  }

  function Sent(ts: seq<Taken>, tail: seq<byte>): seq<byte> {
    if ts == [] then tail else ts[0].line + (CRLF + (ts[0].data + (ts[0].skipped + Sent(ts[1..], tail))))
  }

  function Gathered(ts: seq<Taken>): seq<byte> {
    if ts == [] then [] else ts[0].data + Gathered(ts[1..])
  }

  /** Nothing, or a line of size zero and whatever follows it. */
  ghost predicate Closing(tail: seq<byte>) {
    tail == [] || exists line, after :: Gives(line, 0) && tail == line + (CRLF + after)
  }

  /** Two bytes are skipped after each chunk, fewer only where the input ends. */
  ghost predicate Takes(ts: seq<Taken>, tail: seq<byte>) {
    && Closing(tail)
    && forall i | 0 <= i < |ts| ::
         && ts[i].data != [] && Gives(ts[i].line, |ts[i].data|)
         && (|ts[i].skipped| == 2 || (|ts[i].skipped| < 2 && i == |ts| - 1 && tail == []))
  }

  /** A line stands ahead, up to the first CR LF. */
  lemma LineEnds(bytes: seq<byte>, c: nat, line: str, rest: seq<byte>)
    requires c <= |bytes| && bytes[c..] == line + (CRLF + rest) && forall i | 0 <= i < |line| :: !CrlfAt(line + CRLF, i)
    ensures c + |line| + 2 <= |bytes| && bytes[c..c + |line|] == line && bytes[c + |line| + 2..] == rest
    ensures FindCrlf(bytes, c) == Some(c + |line|)
  {
    Pieces(bytes, c, line, CRLF + rest);
    var e := c + |line|;
    Pieces(bytes, e, CRLF, rest);
    assert bytes[e] == bytes[e..e + 2][0] && bytes[e + 1] == bytes[e..e + 2][1];
    forall i | c <= i < e
      ensures !CrlfAt(bytes, i)
    {
      assert bytes[c..][i - c] == bytes[i] && bytes[c..][i - c + 1] == bytes[i + 1];
      assert !CrlfAt(line + CRLF, i - c);
    }
    assert CrlfAt(bytes, e);
    FirstCrlf(bytes, c, e);
  }

  lemma LineAhead(bytes: seq<byte>, c: nat, line: str, size: nat, rest: seq<byte>)
    requires c <= |bytes| && bytes[c..] == line + (CRLF + rest) && Gives(line, size)
    ensures c + |line| + 2 <= |bytes| && bytes[c + |line| + 2..] == rest
    ensures SizeLine(bytes, c) == Ok(Line(size, c + |line| + 2))
  {
    hide ValidUtf8, ParseHex, Trim, FindCrlf, CrlfAt;
    LineEnds(bytes, c, line, rest);
  }

  lemma FirstCrlf(bytes: seq<byte>, c: nat, e: nat)
    requires c <= e < |bytes| && CrlfAt(bytes, e) && forall i | c <= i < e :: !CrlfAt(bytes, i)
    ensures FindCrlf(bytes, c) == Some(e)
  {
    hide CrlfAt;
    var r := FindCrlf(bytes, c);
    assert r.Some? ==> c <= r.value && CrlfAt(bytes, r.value);
  }

  /** Such an input is decoded to its data. */
  lemma {:induction false} TakenDecodes(bytes: seq<byte>, c: nat, ts: seq<Taken>, tail: seq<byte>)
    requires c <= |bytes| && bytes[c..] == Sent(ts, tail) && Takes(ts, tail)
    ensures Decode(bytes, c) == Ok(Gathered(ts))
    decreases |ts|
  {
    hide SizeLine, Gives;
    if ts == [] {
      if tail != [] {
        var line, after :| Gives(line, 0) && tail == line + (CRLF + after);
        LineAhead(bytes, c, line, 0, after);
      }
    } else {
      var t, rest := ts[0], Sent(ts[1..], tail);
      LineAhead(bytes, c, t.line, |t.data|, t.data + (t.skipped + rest));
      var d := c + |t.line| + 2;
      Pieces(bytes, d, t.data, t.skipped + rest);
      Pieces(bytes, d + |t.data|, t.skipped, rest);
      if |t.skipped| == 2 {
        assert Takes(ts[1..], tail);
        TakenDecodes(bytes, d + |t.data| + 2, ts[1..], tail);
      } else {
        assert ts[1..] == [];
        assert t.data + [] == t.data;
      }
    }
  }

  lemma LineBehind(bytes: seq<byte>, c: nat) returns (line: str)
    requires c <= |bytes| && SizeLine(bytes, c).Ok?
    ensures var l := SizeLine(bytes, c).value;
            Gives(line, l.size) && l.start == c + |line| + 2 && bytes[c..] == line + (CRLF + bytes[l.start..])
  {
    hide ValidUtf8, ParseHex, Trim;
    var e := FindCrlf(bytes, c).value;
    line := bytes[c..e];
    assert bytes[c..] == line + ([bytes[e], bytes[e + 1]] + bytes[e + 2..]);
    forall i | 0 <= i < |line|
      ensures !CrlfAt(line + CRLF, i)
    {
      assert !CrlfAt(bytes, c + i);
      assert (line + CRLF)[i] == bytes[c + i];
      assert (line + CRLF)[i + 1] == if i + 1 < |line| then line[i + 1] else CR;
      assert i + 1 == |line| ==> bytes[c + i + 1] == CR;
    }
  }

  /** Whatever is decoded is such an input. */
  lemma {:induction false} DecodedIsTaken(bytes: seq<byte>, c: nat) returns (ts: seq<Taken>, tail: seq<byte>)
    requires c <= |bytes| && Decode(bytes, c).Ok?
    ensures Takes(ts, tail) && bytes[c..] == Sent(ts, tail) && Decode(bytes, c).value == Gathered(ts)
    decreases |bytes| - c
  {
    hide SizeLine, Gives, Closing, Takes, Sent, Gathered;
    ts, tail := [], [];
    NoneTaken([]);
    if c < |bytes| {
      var l := SizeLine(bytes, c).value;
      var line := LineBehind(bytes, c);
      if l.size == 0 {
        tail := bytes[c..];
        ClosedBy(line, bytes[l.start..]);
        NoneTaken(tail);
      } else {
        var end := l.start + l.size;
        var data, next := bytes[l.start..end], if end + 2 <= |bytes| then end + 2 else |bytes|;
        if end + 2 <= |bytes| {
          ts, tail := DecodedIsTaken(bytes, end + 2);
        }
        var first := Taken(line, data, bytes[end..next]);
        ThreeParts(bytes, l.start, end, next);
        Prepend(first, ts, tail);
        ts := [first] + ts;
      }
    }
  }

  lemma ThreeParts(bytes: seq<byte>, a: nat, b: nat, c: nat)
    requires a <= b <= c <= |bytes|
    ensures bytes[a..] == bytes[a..b] + (bytes[b..c] + bytes[c..])
  {
  }

  lemma NoneTaken(tail: seq<byte>)
    ensures Closing([])
    ensures Closing(tail) ==> Takes([], tail)
    ensures Sent([], tail) == tail && Gathered([]) == []
  {
  }

  lemma ClosedBy(line: str, after: seq<byte>)
    requires Gives(line, 0)
    ensures Closing(line + (CRLF + after))
  {
  }

  lemma Prepend(t: Taken, ts: seq<Taken>, tail: seq<byte>)
    requires Takes(ts, tail) && t.data != [] && Gives(t.line, |t.data|)
    requires |t.skipped| == 2 || (|t.skipped| < 2 && ts == [] && tail == [])
    ensures Takes([t] + ts, tail)
    ensures Sent([t] + ts, tail) == t.line + (CRLF + (t.data + (t.skipped + Sent(ts, tail))))
    ensures Gathered([t] + ts) == t.data + Gathered(ts)
  {
    hide Gives, Closing;
    assert ([t] + ts)[1..] == ts;
  }

  // ---------- which error ----------

  /** Without a line end ahead the body is broken. */
  lemma NoLineAhead(bytes: seq<byte>, c: nat)
    requires c < |bytes| && forall i | c <= i :: !CrlfAt(bytes, i)
    ensures Decode(bytes, c) == Err(InvalidBody)
  {
    hide CrlfAt, FindCrlf;
  }

  /** A line that gives no size is reported as such. */
  lemma NoSizeAhead(bytes: seq<byte>, c: nat, line: str, rest: seq<byte>)
    requires c <= |bytes| && bytes[c..] == line + (CRLF + rest) && forall i | 0 <= i < |line| :: !CrlfAt(line + CRLF, i)
    requires !ValidUtf8(line) || ParseHex(Trim(line)).None?
    ensures Decode(bytes, c) == Err(InvalidSize)
  {
    hide ValidUtf8, ParseHex, Trim, CrlfAt, SizeLine;
    assert |bytes[c..]| > 0;
    BadSizeLine(bytes, c, line, rest);
  }

  lemma BadSizeLine(bytes: seq<byte>, c: nat, line: str, rest: seq<byte>)
    requires c <= |bytes| && bytes[c..] == line + (CRLF + rest) && forall i | 0 <= i < |line| :: !CrlfAt(line + CRLF, i)
    requires !ValidUtf8(line) || ParseHex(Trim(line)).None?
    ensures SizeLine(bytes, c) == Err(InvalidSize)
  {
    hide ValidUtf8, ParseHex, Trim, FindCrlf, CrlfAt;
    LineEnds(bytes, c, line, rest);
  }

  /** A size beyond the end of the input is too long. */
  lemma DataCutShort(bytes: seq<byte>, c: nat, line: str, size: nat, rest: seq<byte>)
    requires c <= |bytes| && bytes[c..] == line + (CRLF + rest) && Gives(line, size) && size > |rest|
    ensures Decode(bytes, c) == Err(ChunkTooLong)
  {
    hide SizeLine, Gives;
    LineAhead(bytes, c, line, size, rest);
  }

  // ---------- every chunk has an encoding ----------

  /** The upper-case spelling of a size. */
  function UpperText(n: nat): (s: str)
    ensures s != []
  {
    var d := n % 16;
    var digit := Ascii("0123456789ABCDEF")[d];
    if n < 16 then [digit] else UpperText(n / 16) + [digit]
  }

  lemma {:induction false} UpperTextValue(n: nat)
    requires n < U64_MODULUS
    ensures HexDigits(UpperText(n)) == Some(n)
  {
    hide HexDigit, Ascii;
    var s := UpperText(n);
    UpperDigit(n % 16);
    if n >= 16 {
      UpperTextValue(n / 16);
      assert s[..|s| - 1] == UpperText(n / 16);
    } else {
      assert s[..|s| - 1] == [];
    }
  }

  lemma UpperDigit(d: nat)
    requires d < 16
    ensures HexDigit(Ascii("0123456789ABCDEF")[d]) == Some(d)
  {
    WritesExactly(Ascii("0123456789ABCDEF")[d], d);
  }

  function HexText(n: nat): (s: str)
    ensures s != []
  {
    var d := n % 16;
    var digit := if d < 10 then 48 + d else 87 + d;
    if n < 16 then [digit] else HexText(n / 16) + [digit]
  }

  lemma {:induction false} HexTextValue(n: nat)
    requires n < U64_MODULUS
    ensures HexDigits(HexText(n)) == Some(n)
  {
    var s := HexText(n);
    if n >= 16 {
      HexTextValue(n / 16);
      assert s[..|s| - 1] == HexText(n / 16);
    } else {
      assert s[..|s| - 1] == [];
    }
  }

  /** The five bytes "hello" in one chunk, with and without an extension. */
  function Hello(extension: str): Chunk { Chunk([53], extension, Ascii("hello")) }

  function End(): Chunk { Chunk([48], [], []) }

  /** A body of one chunk decodes, and no longer does once the chunk is given the extension ";a". */
  lemma ExtensionBreaksHello()
    ensures Decode(Encode([Hello([])], End(), CRLF), 0) == Ok(Ascii("hello"))
    ensures Decode(Encode([Hello([SEMICOLON, 97])], End(), CRLF), 0).Err?
  {
    hide Decode, Encode, Ascii;
    HelloGood([]);
    HelloGood([SEMICOLON, 97]);
    var plain, extended := [Hello([])], [Hello([SEMICOLON, 97])];
    assert plain[1..] == [] && extended[1..] == [];
    assert Body(plain) == Ascii("hello") + [] == Ascii("hello");
    assert !Bare(extended[0].extension);
    DecodeInvertsEncode(Encode(plain, End(), CRLF), 0, plain, End(), CRLF);
    DecodeInvertsEncode(Encode(extended, End(), CRLF), 0, extended, End(), CRLF);
  }

  lemma HelloGood(extension: str)
    requires extension == [] || extension == [SEMICOLON, 97]
    ensures GoodChunk(Hello(extension)) && GoodLast(End())
  {
    var size: str := [53];
    assert |Ascii("hello")| == 5;
    WritesExactly(53, 5);
    assert AreDigits(size, [5]);
    assert [5][1..] == [] && Positional([5]) == 5;
  }
}
