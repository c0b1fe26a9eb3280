/** How many bytes a call may have before it matters where it is cut: the bound of `ParseSplit` is exact,
    as a response with a chunk of 2^32-2 bytes shows. */
module SequenceThreshold {
  import opened Machine
  import opened Text
  import opened HttpHeader
  import opened Tokenize
  import opened MessageSpec
  import opened SequenceSpec
  import opened SequenceGrammar
  import Chunk = ChunkedSpec

  const STATUS_LINE := "HTTP/1.1 200 OK"
  const ENCODING := "Transfer-ENCODING"
  const SIZE_LINE := "FFFFFFFE" + CRLF

  /** A response whose first chunk has 2^32-2 bytes, up to that chunk's data. */
  function WideResponse(): string {
    Render(RawMessage(STATUS_LINE, [ENCODING + ": chunked"], SIZE_LINE))
  }

  lemma StatusIs200()
    ensures StatusCode(STATUS_LINE) == Some("200")
  {
    var ts := ["HTTP/1.1", "200", "OK"];
    assert ts[1..] == ["200", "OK"] && ts[1..][1..] == ["OK"];
    assert Join(ts[1..], ' ') == "200 OK";
    assert Join(ts, ' ') == STATUS_LINE;
    TokensUnique(ts, ' ');
  }

  lemma OneToken(s: string, sep: char)
    requires sep !in s
    ensures Tokens(s, sep) == [s]
  {
    TokensUnique([s], sep);
  }

  lemma FramedByChunks()
    ensures FramingOf(Response, STATUS_LINE, [Header(ENCODING, "chunked")], false) == ByChunks(false)
  {
    hide StatusCode, Tokens;
    StatusIs200();
    OneToken("chunked", ',');
    var headers := [Header(ENCODING, "chunked")];
    assert headers[1..] == [];
    assert Lookup(headers, "Transfer-ENCODING") == Some("chunked");
    NotTrailer();
    assert Lookup(headers, "Trailer") == None;
  }

  lemma NotTrailer()
    ensures !Equivalent(ENCODING, "Trailer")
  {
  }

  lemma NoCarriageReturn(s: string)
    requires '\r' !in s
    ensures Free(s, CRLF)
  {
    hide Find;
    FreeByte(s, '\r');
    FreeLonger(s, CRLF);
  }

  lemma StatusLineIsFree()
    ensures Free(STATUS_LINE, CRLF)
  {
    hide Find;
    NoCarriageReturn(STATUS_LINE);
  }

  lemma EncodingLineIsFree()
    ensures Free(ENCODING + ": chunked", CRLF)
  {
    hide Find;
    NoCarriageReturn(ENCODING + ": chunked");
  }

  lemma EncodingIsRead()
    ensures ParseHeader(ENCODING + ": chunked") == Some(Header(ENCODING, "chunked"))
  {
    hide Find, ParseHeader;
    FreeByte(ENCODING, ':');
    var h := Header(ENCODING, "chunked");
    HeaderRoundTrip(h);
    assert PrintHeader(h) == ENCODING + ": chunked";
  }

  lemma OneHeader(line: string, h: Header)
    requires line != "" && Free(line, CRLF) && ParseHeader(line) == Some(h)
    ensures HeaderLines([line]) && Headers([line]) == [h]
  {
    hide Find, ParseHeader;
    assert [line][1..] == [] && [h] + [] == [h];
  }

  /** The parser after that text: the body has begun, and its chunk parser waits for the data. */
  function Waiting(c: Chunk.ChunkState): Parser {
    Parser(Response, "",
           Message(Response, BodyPending, STATUS_LINE, [Header(ENCODING, "chunked")], SIZE_LINE,
                   false, NPOS, false, Chunked(c)),
           [], [])
  }

  /** The parser before the size line has been read. */
  function Begun(): Parser {
    var p := Waiting(Chunk.Fresh(false));
    p.(buffer := SIZE_LINE, msg := p.msg.(body := ""))
  }

  lemma HeadRead()
    ensures Parse(NewParser(Response, [false]), WideResponse())
            == Run(Begun())
  {
    hide NoWideChunk, Step, Find, FramingOf, ParseHeader, Block, Headers, HeaderLines;
    StatusLineIsFree();
    FramedByChunks();
    EncodingLineIsFree();
    EncodingIsRead();
    var line, h := ENCODING + ": chunked", Header(ENCODING, "chunked");
    OneHeader(line, h);
    var r := RawMessage(STATUS_LINE, [line], SIZE_LINE);
    var p := Feed(NewParser(Response, [false]), WideResponse());
    var after := Block(r.lines) + r.body;
    assert p.buffer == r.first + CRLF + after;
    RenderNonempty(r);
    LineRead(p, r.first, after);
    var p1 := StartMessage(p, r.first, after);
    StepDecreases(p);
    assert Run(p) == Run(p1);
    HeadersRead(p1, [line], SIZE_LINE);
    assert [] + [h] == [h];
    var p2 := p1.(buffer := CRLF + SIZE_LINE, msg := p1.msg.(headers := [h]));
    BlankRead(p2, SIZE_LINE, DoneWithHeaders(p2.msg).value);
    assert [false][1..] == [];
  }

  /** A stopped body read that took everything. */
  lemma ChunkStops(p: Parser, c: Chunk.ChunkState, d: Chunk.ChunkState)
    requires p.msg.state.BodyPending? && !p.msg.sizeKnown && p.msg.parser == Chunked(c)
    requires Chunk.Read(c, p.buffer) == Chunk.More(d)
    ensures Run(p) == Ok(p.(buffer := "", msg := p.msg.(body := p.msg.body + p.buffer, parser := Chunked(d))))
  {
    hide Chunk.Read;
    assert p.buffer[|p.buffer|..] == "";
  }

  lemma ChunkFails(p: Parser, c: Chunk.ChunkState)
    requires p.msg.state.BodyPending? && !p.msg.sizeKnown && p.msg.parser == Chunked(c)
    requires Chunk.Read(c, p.buffer).Fail?
    ensures Run(p) == Error
  {
    hide Chunk.Read;
  }

  ghost predicate ParsesInTwo(p: Parser, a: string, b: string) {
    Parse(p, a + b) == Then(Parse(p, a), b)
  }

  /** After such a response the next 2^32 bytes of its body are accepted whole, but rejected when the first
      of them comes alone. */
  lemma WideResponseDiffers() returns (p: Parser, a: string, b: string)
    ensures Parse(NewParser(Response, [false]), WideResponse()) == Ok(p)
    ensures Ready(p) && a != "" && b != "" && Pending(p) + |a| + |b| == TWO32
    ensures !ParsesInTwo(p, a, b)
  {
    hide Run, Chunk.Read, Chunk.Valid, WideResponse;
    var c;
    c, a, b := Chunk.WideChunkDiffers();
    p := Waiting(c);
    HeadRead();
    var begun := Begun();
    ChunkStops(begun, Chunk.Fresh(false), c);
    assert "" + SIZE_LINE == SIZE_LINE;
    assert "" + a == a && "" + (a + b) == a + b;
    ChunkFails(Feed(p, a), c);
    ChunkStops(Feed(p, a + b), c, Chunk.Read(c, a + b).c);
  }

  /** It never matters where a call is cut, with up to n bytes pending and arriving, exactly when n is
      below 2^32. */
  lemma ParseSplitThreshold(n: nat)
    ensures (forall p, a, b :: Ready(p) && a != "" && b != "" && Pending(p) + |a| + |b| <= n ==> ParsesInTwo(p, a, b))
            <==> n < TWO32
  {
    hide Ready, ParsesInTwo;
    if n < TWO32 {
      forall p, a, b | Ready(p) && a != "" && b != "" && Pending(p) + |a| + |b| <= n ensures ParsesInTwo(p, a, b) {
        ShortSplits(p, a, b);
      }
    } else {
      var p, a, b := WideResponseDiffers();
      assert !ParsesInTwo(p, a, b);
    }
  }

  lemma ShortSplits(p: Parser, a: string, b: string)
    requires Ready(p) && a != "" && b != "" && Pending(p) + |a| + |b| < TWO32
    ensures ParsesInTwo(p, a, b)
  {
    hide Parse, Ready;
    ParseSplit(p, a, b);
  }
}
