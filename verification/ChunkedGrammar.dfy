/** The chunked coding of section 3.6.1 of RFC 2616 as a grammar, and its agreement with the
    chunked-body parser: every encoded body is read to its exact end under any segmentation, and
    whatever the parser accepts is an encoded body. */
module ChunkedGrammar {
  import opened Machine
  import opened Text
  import opened ChunkedSpec

  /** One chunk: its header line without CRLF (size and any extension), and its data, which may
      contain CRLF. */
  datatype ChunkText = ChunkText(header: string, data: string)

  predicate IsHeader(header: string, size: nat) {
    Free(header, CRLF) && ChunkSize(header + CRLF) == Some(size)
  }

  predicate IsChunk(k: ChunkText) {
    0 < |k.data| < TWO32 - 2 && IsHeader(k.header, |k.data|)
  }

  predicate AllChunks(ks: seq<ChunkText>) {
    forall k :: k in ks ==> IsChunk(k)
  }

  function EncodeChunk(k: ChunkText): string {
    k.header + CRLF + k.data + CRLF
  }

  function Encode(ks: seq<ChunkText>): string {
    if ks == [] then "" else EncodeChunk(ks[0]) + Encode(ks[1..])
  }

  function NeedleFor(trailers: bool): string {
    if trailers then CRLF + CRLF else CRLF
  }

  /** What follows the last-chunk line: it ends at its first terminator. */
  predicate IsTail(tail: string, trailers: bool) {
    Find(tail, NeedleFor(trailers)) != -1
    && Find(tail, NeedleFor(trailers)) + |NeedleFor(trailers)| == |tail|
  }

  function BodyText(ks: seq<ChunkText>, last: string, tail: string): string {
    Encode(ks) + (last + CRLF + tail)
  }

  predicate IsBody(ks: seq<ChunkText>, last: string, tail: string, trailers: bool) {
    AllChunks(ks) && IsHeader(last, 0) && IsTail(tail, trailers)
  }

  // ---------------------------------------------------------------- one unit at a time

  lemma HeaderRead(c: ChunkState, header: string, size: nat, rest: string)
    requires c.phase.ChunkHdr? && IsHeader(header, size) && c.buffer == header + CRLF + rest
    ensures Step(c) == Next(c.(size := size, phase := if size == 0 then Trailer else Chunk,
                               parsed := c.parsed + |header| + 2, buffer := rest))
  {
    hide ChunkSize, Find;
    LineEnd(header, rest);
    assert c.buffer[..|header| + 2] == header + CRLF;
    assert c.buffer[|header| + 2..] == rest;
  }

  lemma DataRead(c: ChunkState, data: string, rest: string)
    requires c.phase.Chunk? && c.size == |data| < TWO32 - 2 && c.buffer == data + CRLF + rest
    ensures Step(c) == Next(c.(phase := ChunkHdr, parsed := c.parsed + |data| + 2, buffer := rest))
  {
    assert c.buffer[|data|..|data| + 2] == CRLF;
    assert c.buffer[|data| + 2..] == rest;
  }

  lemma ChunkRead(c: ChunkState, ck: ChunkText, rest: string)
    requires c.phase.ChunkHdr? && IsChunk(ck) && c.buffer == EncodeChunk(ck) + rest
    ensures var d := c.(size := |ck.data|, parsed := c.parsed + |EncodeChunk(ck)|, buffer := rest);
      Tame(d) ==> Tame(c)
    ensures var d := c.(size := |ck.data|, parsed := c.parsed + |EncodeChunk(ck)|, buffer := rest);
      forall k :: Loop(c, k) == Loop(d, k)
  {
    hide Step, ChunkSize, Find;
    var after := ck.data + CRLF + rest;
    assert c.buffer == ck.header + CRLF + after;
    HeaderRead(c, ck.header, |ck.data|, after);
    var c1 := Step(c).c;
    DataRead(c1, ck.data, rest);
    StepDecreases(c);
    StepDecreases(c1);
    assert Step(c1).c == c.(size := |ck.data|, parsed := c.parsed + |EncodeChunk(ck)|, buffer := rest);
  }

  // ---------------------------------------------------------------- completeness

  /** The state after the last-chunk line, with `rest` still unread. */
  function AtTrailer(c: ChunkState, ks: seq<ChunkText>, last: string, rest: string): ChunkState {
    c.(size := 0, phase := Trailer, parsed := c.parsed + |Encode(ks)| + |last| + 2, buffer := rest)
  }

  lemma {:induction false} ChunksRead(c: ChunkState, k: nat, ks: seq<ChunkText>, last: string, rest: string)
    requires c.phase.ChunkHdr? && AllChunks(ks) && IsHeader(last, 0)
    requires c.buffer == Encode(ks) + (last + CRLF + rest)
    ensures Tame(c) && Loop(c, k) == Loop(AtTrailer(c, ks, last, rest), k)
    decreases |ks|
  {
    hide Step, ChunkSize, Find;
    if ks == [] {
      assert c.buffer == last + CRLF + rest;
      HeaderRead(c, last, 0, rest);
      StepDecreases(c);
      TrailerIsTame(Step(c).c);
    } else {
      var after := Encode(ks[1..]) + (last + CRLF + rest);
      assert c.buffer == EncodeChunk(ks[0]) + after;
      ChunkRead(c, ks[0], after);
      var d := c.(size := |ks[0].data|, parsed := c.parsed + |EncodeChunk(ks[0])|, buffer := after);
      ChunksRead(d, k, ks[1..], last, rest);
      assert AtTrailer(d, ks[1..], last, rest) == AtTrailer(c, ks, last, rest);
    }
  }

  lemma TrailerIsTame(c: ChunkState)
    requires c.phase.Trailer?
    ensures Tame(c)
  {
  }

  /** The trailer state stops exactly after `tail` when that is where its terminator first ends. */
  lemma TrailerStops(c: ChunkState, k: nat, tail: string, suffix: string)
    requires c.phase.Trailer? && c.acked <= c.parsed && c.buffer == tail + suffix
    ensures (Loop(c, k).Done? && Loop(c, k).n == c.parsed - c.acked + |tail|) <==> IsTail(tail, c.trailers)
  {
    var needle := NeedleFor(c.trailers);
    FindExtend(tail, suffix, needle);
    var r := Find(tail + suffix, needle);
    if r != -1 && r + |needle| == |tail| { AtExtend(tail, suffix, needle, r); }
  }

  /** From a chunk boundary, an encoded body is consumed to its last byte and no further. */
  lemma BodyRead(c: ChunkState, k: nat, ks: seq<ChunkText>, last: string, tail: string, suffix: string)
    requires c.phase.ChunkHdr? && c.acked <= c.parsed
    requires AllChunks(ks) && IsHeader(last, 0)
    requires c.buffer == BodyText(ks, last, tail) + suffix
    ensures Tame(c)
    ensures (Loop(c, k).Done? && Loop(c, k).n == c.parsed - c.acked + |BodyText(ks, last, tail)|)
            <==> IsTail(tail, c.trailers)
  {
    hide Step, Loop, ChunkSize, Find, IsTail;
    assert c.buffer == Encode(ks) + (last + CRLF + (tail + suffix));
    ChunksRead(c, k, ks, last, tail + suffix);
    TrailerStops(AtTrailer(c, ks, last, tail + suffix), k, tail, suffix);
  }

  /** The segments handed over by successive calls until the body ends: their `npos` lengths plus
      the final answer, or `None` if the parser fails or is left waiting. */
  function Consumed(c: ChunkState, segments: seq<string>): Option<nat>
    decreases |segments|
  {
    if segments == [] then None
    else match Read(c, segments[0])
      case Fail(_) => None
      case Done(n, _) => Some(n)
      case More(d) =>
        match Consumed(d, segments[1..])
        case None => None
        case Some(n) => Some(|segments[0]| + n)
  }

  lemma {:induction false} ConsumedIsRead(c: ChunkState, segments: seq<string>)
    requires Valid(c) && Tame(Append(c, Concat(segments)))
    ensures match Read(c, Concat(segments))
      case Done(n, _) => Consumed(c, segments) == Some(n)
      case _ => Consumed(c, segments) == None
    decreases |segments|
  {
    hide Step, Quiet, Loop;
    if segments == [] {
      Idle(c);
    } else {
      var x, y := segments[0], Concat(segments[1..]);
      assert c.buffer + (x + y) == c.buffer + x + y;
      TamePrefix(Append(c, x), y);
      ReadAppend(c, x, y);
      ReadSafe(c, x);
      if Read(c, x).More? {
        TameRest(Append(c, x), |x|, y);
        ConsumedIsRead(Read(c, x).c, segments[1..]);
      }
    }
  }

  /** A call without input changes nothing between calls. */
  lemma Idle(c: ChunkState)
    requires Valid(c)
    ensures Read(c, "") == More(c)
  {
    LoopStarts(c, "");
    assert c.buffer + "" == c.buffer;
    LoopSafe(c, 0);
    if c.buffer != "" { assert Step(c) == Wait; }
  }

  /** Decoding inverts encoding: however an encoded body and what follows it are cut into
      segments, the bytes handed over are exactly the encoded body. */
  lemma DecodeInvertsEncode(trailers: bool, ks: seq<ChunkText>, last: string, tail: string,
                            suffix: string, segments: seq<string>)
    requires IsBody(ks, last, tail, trailers)
    requires Concat(segments) == BodyText(ks, last, tail) + suffix
    ensures Consumed(Fresh(trailers), segments) == Some(|BodyText(ks, last, tail)|)
  {
    hide Step, Loop, Find, ChunkSize;
    var c := Append(Fresh(trailers), Concat(segments));
    assert c.buffer == BodyText(ks, last, tail) + suffix;
    BodyRead(c, |Concat(segments)|, ks, last, tail, suffix);
    ConsumedIsRead(Fresh(trailers), segments);
  }

  // ---------------------------------------------------------------- soundness

  lemma HeaderSound(c: ChunkState) returns (header: string, rest: string)
    requires c.phase.ChunkHdr? && Step(c).Next?
    ensures c.buffer == header + CRLF + rest && IsHeader(header, Step(c).c.size)
    ensures Step(c).c.buffer == rest && Step(c).c.trailers == c.trailers
    ensures Step(c).c.phase == if Step(c).c.size == 0 then Trailer else Chunk
  {
    hide ChunkSize, Find;
    var it := Find(c.buffer, CRLF);
    header, rest := c.buffer[..it], c.buffer[it + 2..];
    assert c.buffer == header + c.buffer[it..];
    FindExtend(header, c.buffer[it..], CRLF);
    assert c.buffer[..it + 2] == header + CRLF;
  }

  lemma ChunkSound(c: ChunkState) returns (ck: ChunkText, rest: string)
    requires c.phase.ChunkHdr? && Step(c).Next? && Step(c).c.phase.Chunk? && Step(Step(c).c).Next?
    requires Step(c).c.size + 2 < TWO32
    ensures IsChunk(ck) && c.buffer == EncodeChunk(ck) + rest
    ensures var d := Step(Step(c).c).c; d.buffer == rest && d.phase.ChunkHdr? && d.trailers == c.trailers
  {
    hide Step, IsHeader;
    var header, after := HeaderSound(c);
    StepDecreases(c);
    var c1 := Step(c).c;
    rest := DataSound(c1);
    ck := ChunkText(header, c1.buffer[..c1.size]);
    ChunkHasSize(c);
  }

  lemma ChunkHasSize(c: ChunkState)
    requires c.phase.ChunkHdr? && Step(c).Next? && Step(c).c.phase.Chunk?
    ensures Step(c).c.size > 0
  {
    hide Find, ChunkSize;
  }

  /** A buffer of less than 2^32 bytes has no room for the data of a wide chunk. */
  lemma {:induction false} AcceptedShortIsTame(c: ChunkState, k: nat)
    requires Loop(c, k).Done? && |c.buffer| < TWO32
    ensures Tame(c)
    decreases Measure(c)
  {
    hide Step;
    if c.phase.Chunk? {
      NotWaiting(c);
      DataFits(c);
    }
    if Step(c).Next? {
      StepDecreases(c);
      AcceptedShortIsTame(Step(c).c, k);
    }
  }

  lemma DataFits(c: ChunkState)
    requires c.phase.Chunk? && |c.buffer| < TWO32 && Step(c).Next?
    ensures c.size + 2 < TWO32
  {
    WideSize(c.size);
  }

  /** Whatever the parser accepts from a chunk boundary, without a wide chunk, is an encoded body. */
  lemma {:induction false} BodySound(c: ChunkState, k: nat)
    returns (ks: seq<ChunkText>, last: string, tail: string, suffix: string)
    requires c.phase.ChunkHdr? && Loop(c, k).Done? && Tame(c)
    ensures IsBody(ks, last, tail, c.trailers)
    ensures c.buffer == BodyText(ks, last, tail) + suffix
    decreases |c.buffer|
  {
    hide Step, IsChunk, IsHeader, IsTail, EncodeChunk;
    NotWaiting(c);
    StepDecreases(c);
    var c1 := Step(c).c;
    var header, rest := HeaderSound(c);
    if c1.phase.Trailer? {
      tail, suffix := TailSound(c1);
      ks, last := [], header;
      assert c.buffer == BodyText(ks, last, tail) + suffix;
    } else {
      NotWaiting(c1);
      StepDecreases(c1);
      var ck, after := ChunkSound(c);
      ks, last, tail, suffix := BodySound(Step(c1).c, k);
      OneMore(ck, ks, last, tail, suffix);
      ks := [ck] + ks;
    }
  }

  lemma OneMore(ck: ChunkText, ks: seq<ChunkText>, last: string, tail: string, suffix: string)
    ensures EncodeChunk(ck) + (BodyText(ks, last, tail) + suffix) == BodyText([ck] + ks, last, tail) + suffix
  {
    hide EncodeChunk;
    assert ([ck] + ks)[1..] == ks;
  }

  lemma NotWaiting(c: ChunkState)
    requires !c.phase.Trailer? && exists k :: Loop(c, k).Done?
    ensures Step(c).Next?
  {
  }

  lemma TailSound(c: ChunkState) returns (tail: string, suffix: string)
    requires c.phase.Trailer? && exists k :: Loop(c, k).Done?
    ensures IsTail(tail, c.trailers) && c.buffer == tail + suffix
  {
    hide Find;
    var n := Find(c.buffer, Needle(c)) + |Needle(c)|;
    tail, suffix := c.buffer[..n], c.buffer[n..];
    TailPrefix(c.buffer, Needle(c));
  }

  lemma TailPrefix(s: string, needle: string)
    requires Find(s, needle) != -1
    ensures var n := Find(s, needle) + |needle|; Find(s[..n], needle) == Find(s, needle)
  {
    hide Find;
    var n := Find(s, needle) + |needle|;
    assert s == s[..n] + s[n..];
    FindExtend(s[..n], s[n..], needle);
    assert At(s[..n], needle, n - |needle|) by { AtExtend(s[..n], s[n..], needle, n - |needle|); }
  }

  lemma DataSound(c: ChunkState) returns (rest: string)
    requires c.phase.Chunk? && c.size + 2 < TWO32 && Step(c).Next?
    ensures c.size <= |c.buffer|
    ensures c.buffer == c.buffer[..c.size] + CRLF + rest
    ensures Step(c).c.buffer == rest && Step(c).c.phase.ChunkHdr? && Step(c).c.trailers == c.trailers
  {
    WideSize(c.size);
    rest := c.buffer[c.size + 2..];
  }

  lemma AcceptsOnly(trailers: bool, input: string)
    returns (ks: seq<ChunkText>, last: string, tail: string)
    requires Read(Fresh(trailers), input).Done? && Tame(Append(Fresh(trailers), input))
    ensures IsBody(ks, last, tail, trailers)
    ensures BodyText(ks, last, tail) <= input
    ensures Read(Fresh(trailers), input).n == |BodyText(ks, last, tail)|
  {
    hide Step, Loop, ChunkSize, Find, IsHeader, IsChunk;
    var c := Append(Fresh(trailers), input);
    assert c.buffer == input;
    var suffix;
    ks, last, tail, suffix := BodySound(c, |input|);
    BodyRead(c, |input|, ks, last, tail, suffix);
  }

  lemma Accepts(trailers: bool, input: string, ks: seq<ChunkText>, last: string, tail: string)
    requires IsBody(ks, last, tail, trailers) && BodyText(ks, last, tail) <= input
    ensures Read(Fresh(trailers), input).Done? && Tame(Append(Fresh(trailers), input))
    ensures Read(Fresh(trailers), input).n == |BodyText(ks, last, tail)|
  {
    hide Step, Loop, ChunkSize, Find, IsHeader, IsChunk;
    var c := Append(Fresh(trailers), input);
    var suffix := input[|BodyText(ks, last, tail)|..];
    assert c.buffer == input == BodyText(ks, last, tail) + suffix;
    BodyRead(c, |input|, ks, last, tail, suffix);
  }

  /** `text` is an encoded body. */
  ghost predicate IsBodyText(text: string, trailers: bool) {
    exists ks, last, tail :: IsBody(ks, last, tail, trailers) && text == BodyText(ks, last, tail)
  }

  /** The parser accepts exactly the encoded bodies: it reports n bytes, without coming to a chunk size of
      2^32-2 or more, if and only if the first n bytes are one. On an input of less than 2^32 bytes it
      cannot accept such a chunk. */
  lemma AcceptsExactly(trailers: bool, input: string, n: nat)
    requires n <= |input|
    ensures var r := Read(Fresh(trailers), input);
      (r.Done? && r.n == n && Tame(Append(Fresh(trailers), input))) <==> IsBodyText(input[..n], trailers)
    ensures Read(Fresh(trailers), input).Done? && |input| < TWO32 ==> Tame(Append(Fresh(trailers), input))
  {
    hide Loop, IsBody, BodyText, Tame;
    var c := Append(Fresh(trailers), input);
    if Read(Fresh(trailers), input).Done? && Tame(c) {
      var ks, last, tail := AcceptsOnly(trailers, input);
      assert input[..|BodyText(ks, last, tail)|] == BodyText(ks, last, tail);
    }
    if IsBodyText(input[..n], trailers) {
      var ks, last, tail :| IsBody(ks, last, tail, trailers) && input[..n] == BodyText(ks, last, tail);
      Accepts(trailers, input, ks, last, tail);
    }
    if Read(Fresh(trailers), input).Done? && |input| < TWO32 {
      assert c.buffer == input;
      AcceptedShortIsTame(c, |input|);
    }
  }

  // ---------------------------------------------------------------- trailers (section 3.6.1 of RFC 2616)

  /** Where two CRLFs in a row can be: inside the rest, or across the first line end. */
  lemma BlankLineSplit(line: string, rest: string, k: nat)
    requires Free(line, CRLF) && At(line + CRLF + rest, CRLF + CRLF, k)
    ensures if k < |line| + 2 then k == |line| && At(rest, CRLF, 0)
            else At(rest, CRLF + CRLF, k - |line| - 2)
  {
    hide Find;
    var s, prefix := line + CRLF + rest, line + CRLF;
    LineEnd(line, rest);
    AtDouble(s, k);
    assert s[|line| + 1] == '\n' && s[k] == s[k..k + 2][0];
    if k == |line| {
      AtShift(prefix, rest, CRLF, 0);
    } else if k >= |line| + 2 {
      AtShift(prefix, rest, CRLF + CRLF, k - |line| - 2);
    }
  }

  lemma {:induction false} BlankLineIsAt(lines: seq<string>)
    requires lines != []
    ensures At(Block(lines), CRLF + CRLF, |Block(lines)| - 4)
  {
    var prefix, rest := lines[0] + CRLF, Block(lines[1..]);
    if lines[1..] == [] {
      assert rest == CRLF;
      var s := Block(lines);
      assert s == lines[0] + (CRLF + CRLF) + "";
      AtShift(lines[0], CRLF + CRLF, CRLF + CRLF, 0);
    } else {
      BlankLineIsAt(lines[1..]);
      AtShift(prefix, rest, CRLF + CRLF, |rest| - 4);
    }
  }

  /** Two CRLFs in a row first occur at the end of a nonempty trailer section. */
  lemma {:induction false} BlankLineAt(lines: seq<string>)
    requires BlockLines(lines) && lines != []
    ensures Find(Block(lines), CRLF + CRLF) == |Block(lines)| - 4
  {
    hide Find;
    var rest := Block(lines[1..]);
    var r := Find(Block(lines), CRLF + CRLF);
    BlankLineIsAt(lines);
    BlankLineSplit(lines[0], rest, r);
    BlockHead(lines, "");
    FirstLineEnd(lines[1..], "");
    assert rest + "" == rest;
    if r >= |lines[0]| + 2 && lines[1..] != [] { BlankLineAt(lines[1..]); }
  }

  lemma BlockIsTail(lines: seq<string>, trailers: bool)
    requires BlockLines(lines)
    ensures IsTail(Block(lines), trailers) <==> (trailers <==> lines != [])
  {
    FirstLineEnd(lines, "");
    assert Block(lines) + "" == Block(lines);
    if lines != [] { BlankLineAt(lines); }
  }

  /** A body with the trailer section the RFC describes is read to its exact end if and only if the
      parser expects trailers just when there is at least one trailer line. */
  lemma RfcTrailersExactly(trailers: bool, ks: seq<ChunkText>, last: string, lines: seq<string>, suffix: string)
    requires AllChunks(ks) && IsHeader(last, 0) && BlockLines(lines)
    ensures var body := BodyText(ks, last, Block(lines));
      var r := Read(Fresh(trailers), body + suffix);
      (r.Done? && r.n == |body|) <==> (trailers <==> lines != [])
  {
    hide Step, Loop, ChunkSize, Find;
    var body := BodyText(ks, last, Block(lines));
    var c := Append(Fresh(trailers), body + suffix);
    assert c.buffer == body + suffix;
    BlockIsTail(lines, trailers);
    BodyRead(c, |body + suffix|, ks, last, Block(lines), suffix);
  }

  // ---------------------------------------------------------------- the usual encoder

  /** The size in hexadecimal, with or without an extension, is a valid chunk header. */
  lemma PlainEncoding(size: nat, extension: string)
    requires size < TWO32 - 2 && Free(extension, CRLF) && (extension == "" || extension[0] == ';')
    ensures IsHeader(Numeral(size, 16) + extension, size)
  {
    hide Numeral, ValueOf;
    var digits := Numeral(size, 16);
    var line := digits + extension;
    AtoiNumeral(size, 16);
    NumeralValue(size, 16);
    PlainHeader(digits, size);
    if extension == "" {
      assert line == digits;
      NoDigit(digits, CRLF, 16);
    } else {
      ExtendedHeader(digits, extension, size);
    }
  }

  lemma ExtendedHeader(digits: string, extension: string, v: nat)
    requires Atoi(digits, 16) == Some(v) && v < TWO32 && AllDigits(digits, 16)
    requires Free(extension, CRLF) && extension != "" && extension[0] == ';'
    ensures IsHeader(digits + extension, v)
  {
    hide Atoi, ValueOf, Find;
    var line := digits + extension;
    ExtendedFree(digits, extension);
    var header := line + CRLF;
    NoDigit(digits, ";", 16);
    NoDigit(digits, " ", 16);
    assert header[|digits|..|digits| + 1] == ";";
    assert At(header, ";", |digits|);
    assert header == digits + (extension + CRLF);
    FindExtend(digits, extension + CRLF, ";");
    assert header[..|digits|] == digits;
  }

  lemma ExtendedFree(digits: string, extension: string)
    requires AllDigits(digits, 16) && Free(extension, CRLF) && extension != "" && extension[0] == ';'
    ensures Free(digits + extension, CRLF)
  {
    var line := digits + extension;
    NoDigit(digits, CRLF, 16);
    forall k | At(line, CRLF, k) ensures At(extension, CRLF, k - |digits|) {
      assert line[k] == line[k..k + 2][0] && line[k + 1] == line[k..k + 2][1];
      if k + 2 <= |digits| { AtExtend(digits, extension, CRLF, k); }
      assert k >= |digits|;
      assert line[k..k + 2] == extension[k - |digits|..k - |digits| + 2];
    }
  }

  // ---------------------------------------------------------------- the size line

  /** What follows the digits and comes before an extension: nothing, or anything from a space on. */
  predicate IsPad(pad: string) {
    pad == "" || (pad[0] == ' ' && ';' !in pad)
  }

  predicate IsExtension(ext: string) {
    ext == "" || ext[0] == ';'
  }

  /** The digits of a line, its padding and its extension. */
  predicate SizeLineParts(line: string, digits: string, pad: string, ext: string) {
    line == digits + pad + ext && digits != "" && IsPad(pad) && IsExtension(ext)
  }

  /** A size line: the hexadecimal numeral, in either case, of a number within the range of `long`, which
      is cut to 32 bits. */
  ghost predicate IsSizeLine(line: string, size: nat) {
    Free(line, CRLF)
    && exists digits, pad, ext, n: nat ::
         SizeLineParts(line, digits, pad, ext) && NumeralOf(digits, 16, n)
         && n <= 0x7FFF_FFFF_FFFF_FFFF && size == n % 0x1_0000_0000
  }

  /** The part of the line that is read as a number. */
  lemma SizePart(line: string) returns (digits: string, pad: string, ext: string)
    requires Free(line, CRLF)
    ensures line == digits + pad + ext && IsPad(pad) && IsExtension(ext)
    ensures ChunkSize(line + CRLF)
            == match Atoi(digits, 16) case None => None case Some(v) => Some(Wrap32(v))
  {
    hide Find, Atoi;
    var header := line + CRLF;
    var semi := Find(header, ";");
    CutFound(header, ';');
    LineEnd(line, "");
    assert header + "" == header;
    var pos := if semi == -1 then |line| else semi;
    assert pos <= |line|;
    var hex := line[..pos];
    assert hex == header[..pos];
    ext := line[pos..];
    CutFound(hex, ' ');
    var space := Find(hex, " ");
    if space == -1 {
      digits, pad := hex, "";
    } else {
      digits, pad := hex[..space], hex[space..];
    }
    assert hex == digits + pad;
  }

  /** The parts of a line are read as they are. */
  lemma SizePartsRead(line: string, digits: string, pad: string, ext: string)
    requires Free(line, CRLF) && SizeLineParts(line, digits, pad, ext) && AllDigits(digits, 16)
    ensures ChunkSize(line + CRLF)
            == match Atoi(digits, 16) case None => None case Some(v) => Some(Wrap32(v))
  {
    hide Find, Atoi;
    var header, hex := line + CRLF, digits + pad;
    assert ';' !in digits && ' ' !in digits;
    LineEnd(line, "");
    assert header + "" == header;
    assert ';' !in hex;
    if ext == "" {
      assert line == hex;
      CutAt(header, "", ';');
      assert Find(header, ";") == -1 && Find(header, CRLF) == |hex|;
    } else {
      assert header == hex + (ext + CRLF);
      CutAt(hex, ext + CRLF, ';');
      assert Find(header, ";") == |hex|;
    }
    assert header[..|hex|] == hex;
    CutAt(digits, pad, ' ');
    assert hex[..|digits|] == digits;
    assert Find(hex, " ") == if pad == "" then -1 else |digits|;
    assert pad == "" ==> hex == digits;
  }

  /** The code reads a chunk header exactly if it is a size line, and then reads that size. */
  lemma SizeLineExactly(line: string, size: nat)
    ensures IsHeader(line, size) <==> IsSizeLine(line, size)
  {
    hide Find, ChunkSize, Atoi, ValueOf, DigitValue, NumeralOf;
    if IsHeader(line, size) {
      var digits, pad, ext := SizePart(line);
      var n := Atoi(digits, 16).value;
      AtoiExactly(digits, 16, n);
      assert digits != "" by { assert NumeralOf(digits, 16, n); NumeralNonempty(digits, n); }
      assert SizeLineParts(line, digits, pad, ext);
    }
    if IsSizeLine(line, size) {
      var digits, pad, ext, n: nat :|
        SizeLineParts(line, digits, pad, ext) && NumeralOf(digits, 16, n)
        && n <= 0x7FFF_FFFF_FFFF_FFFF && size == n % 0x1_0000_0000;
      AtoiExactly(digits, 16, n);
      NumeralDigits(digits, n);
      SizePartsRead(line, digits, pad, ext);
    }
  }

  lemma NumeralNonempty(s: string, n: nat)
    requires NumeralOf(s, 16, n)
    ensures s != ""
  {
  }

  lemma NumeralDigits(s: string, n: nat)
    requires NumeralOf(s, 16, n)
    ensures AllDigits(s, 16)
  {
    hide DigitValue;
    var ds :| Spells(s, ds, 16) && Horner(ds, 16) == n;
    SpellsValue(s, ds, 16);
  }
}
