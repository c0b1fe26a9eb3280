/** The grammar of a pipelined message stream, its agreement with the parser, and the round trip
    between the printer and the parser. */
module SequenceGrammar {
  import opened Text
  import opened HttpHeader
  import opened MessageSpec
  import opened SequenceSpec
  import Chunk = ChunkedSpec
  import Grammar = ChunkedGrammar

  /** The text of one message: its first line, its header lines, and its body. */
  datatype RawMessage = RawMessage(first: string, lines: seq<string>, body: string)

  function Render(r: RawMessage): string {
    r.first + CRLF + (Block(r.lines) + r.body)
  }

  function RenderAll(rs: seq<RawMessage>): string {
    if rs == [] then "" else Render(rs[0]) + RenderAll(rs[1..])
  }

  predicate HeaderLines(lines: seq<string>) {
    forall i :: 0 <= i < |lines| ==>
      lines[i] != "" && Free(lines[i], CRLF) && ParseHeader(lines[i]).Some?
  }

  function Headers(lines: seq<string>): seq<Header>
    requires HeaderLines(lines)
  {
    if lines == [] then [] else [ParseHeader(lines[0]).value] + Headers(lines[1..])
  }

  /** The body has the extent its framing prescribes. A body that lasts until the connection closes
      has no end in the text. */
  ghost predicate BodyFits(f: Framing, body: string) {
    match f
    case Known(n) => |body| == n
    case ByChunks(trailers) => Grammar.IsBodyText(body, trailers)
    case UntilClose => false
    case Unsupported => false
  }

  ghost predicate WellFormed(kind: Kind, head: bool, r: RawMessage) {
    Free(r.first, CRLF) && HeaderLines(r.lines)
    && BodyFits(FramingOf(kind, r.first, Headers(r.lines), head), r.body)
  }

  /** What a well-formed text means. */
  function MessageOf(kind: Kind, head: bool, r: RawMessage): Message
    requires HeaderLines(r.lines)
  {
    var headers := Headers(r.lines);
    var f := FramingOf(kind, r.first, headers, head);
    Message(kind, Complete, r.first, headers, r.body, f.Known?, if f.Known? then f.n else NPOS, head, NoParser)
  }

  /** Whether the next message answers a HEAD request; never the case for a request. */
  predicate NextHead(kind: Kind, heads: seq<bool>) {
    kind == Response && heads != [] && heads[0]
  }

  function Rest(kind: Kind, heads: seq<bool>): seq<bool> {
    if kind == Response && heads != [] then heads[1..] else heads
  }

  ghost predicate AllWellFormed(kind: Kind, heads: seq<bool>, rs: seq<RawMessage>)
    decreases |rs|
  {
    rs == [] || ((kind == Response ==> heads != []) && WellFormed(kind, NextHead(kind, heads), rs[0])
                 && AllWellFormed(kind, Rest(kind, heads), rs[1..]))
  }

  function Messages(kind: Kind, heads: seq<bool>, rs: seq<RawMessage>): seq<Message>
    requires forall i :: 0 <= i < |rs| ==> HeaderLines(rs[i].lines)
    decreases |rs|
  {
    if rs == [] then []
    else [MessageOf(kind, NextHead(kind, heads), rs[0])] + Messages(kind, Rest(kind, heads), rs[1..])
  }

  lemma {:induction false} AllHaveLines(kind: Kind, heads: seq<bool>, rs: seq<RawMessage>)
    requires AllWellFormed(kind, heads, rs)
    ensures forall i :: 0 <= i < |rs| ==> HeaderLines(rs[i].lines)
    decreases |rs|
  {
    hide HeaderLines, BodyFits, FramingOf, Free;
    if rs != [] {
      AllHaveLines(kind, Rest(kind, heads), rs[1..]);
      assert forall i :: 0 < i < |rs| ==> rs[i] == rs[1..][i - 1];
    }
  }

  /** The heads left after n messages. */
  function RestAfter(kind: Kind, heads: seq<bool>, n: nat): seq<bool> {
    if n == 0 then heads else RestAfter(kind, Rest(kind, heads), n - 1)
  }

  /** A parser between two messages. */
  predicate AtBoundary(p: Parser) {
    p.msg == NewMessage(p.kind)
  }

  // ---------------------------------------------------------------- completeness

  /** The run from p comes to q without meeting a wide chunk on the way. */
  ghost predicate LeadsTo(p: Parser, q: Parser) {
    Run(p) == Run(q) && (NoWideChunk(q) <==> NoWideChunk(p))
  }

  lemma LineRead(p: Parser, line: string, rest: string)
    requires p.buffer == line + CRLF + rest && Free(line, CRLF)
    ensures p.msg.state.FirstLinePending? && (p.kind == Response ==> p.heads != [])
            ==> Step(p) == Go(StartMessage(p, line, rest))
    ensures p.msg.state.HeadersPending? ==> Step(p) == HeaderLine(p, line, rest)
  {
    hide Find;
    LineEnd(line, rest);
    assert p.buffer[..|line|] == line && p.buffer[|line| + 2..] == rest;
  }

  lemma HeaderRead(p: Parser, line: string, rest: string, h: Header)
    requires p.msg.state.HeadersPending? && p.buffer == line + CRLF + rest
    requires line != "" && Free(line, CRLF) && ParseHeader(line) == Some(h)
    ensures LeadsTo(p, p.(buffer := rest, msg := p.msg.(headers := p.msg.headers + [h])))
  {
    hide Step, Find, Free, ParseHeader;
    LineRead(p, line, rest);
    StepDecreases(p);
  }

  lemma {:induction false} HeadersRead(p: Parser, lines: seq<string>, rest: string)
    requires p.msg.state.HeadersPending? && HeaderLines(lines) && p.buffer == Block(lines) + rest
    ensures var q := p.(buffer := CRLF + rest, msg := p.msg.(headers := p.msg.headers + Headers(lines)));
      LeadsTo(p, q)
    decreases |lines|
  {
    hide Run, NoWideChunk, Find, Free, ParseHeader;
    if lines == [] {
      assert p.msg.headers + [] == p.msg.headers;
    } else {
      var after := Block(lines[1..]) + rest;
      var h := ParseHeader(lines[0]).value;
      assert p.buffer == lines[0] + CRLF + after;
      HeaderRead(p, lines[0], after, h);
      var p1 := p.(buffer := after, msg := p.msg.(headers := p.msg.headers + [h]));
      HeadersRead(p1, lines[1..], rest);
      assert p1.msg.headers + Headers(lines[1..]) == p.msg.headers + Headers(lines);
    }
  }

  lemma BlankRead(p: Parser, rest: string, m: Message)
    requires p.msg.state.HeadersPending? && p.buffer == CRLF + rest
    requires DoneWithHeaders(p.msg) == Some(m)
    ensures LeadsTo(p, p.(buffer := rest, msg := m))
  {
    hide Find, DoneWithHeaders;
    EmptyIsFree();
    assert p.buffer == "" + CRLF + rest;
    LineRead(p, "", rest);
    StepDecreases(p);
  }

  lemma EmptyIsFree()
    ensures Free("", CRLF)
  {
  }

  /** A body of the prescribed extent is read whole, whatever follows it. */
  lemma BodyComplete(m: Message, body: string, rest: string)
    requires m.state.HeadersPending? && m.body == "" && m.parser == NoParser
    requires BodyFits(FramingOf(m.kind, m.firstLine, m.headers, m.wasHead), body)
    ensures DoneWithHeaders(m).Some?
    ensures var f := FramingOf(m.kind, m.firstLine, m.headers, m.wasHead);
      ReadInBody(DoneWithHeaders(m).value, body + rest)
        == Got(|body|, m.(state := Complete, body := body, sizeKnown := f.Known?,
                          size := if f.Known? then f.n else NPOS))
    ensures var parser := DoneWithHeaders(m).value.parser;
      parser.Chunked? ==> Chunk.Tame(Chunk.Append(parser.c, body + rest))
  {
    hide FramingOf, Chunk.Tame, Chunk.Read, Grammar.IsBody, Grammar.BodyText;
    var f := FramingOf(m.kind, m.firstLine, m.headers, m.wasHead);
    assert (body + rest)[..|body|] == body;
    assert "" + body == body;
    match f
    case Known(n) =>
    case ByChunks(t) =>
      var ks, last, tail :| Grammar.IsBody(ks, last, tail, t) && body == Grammar.BodyText(ks, last, tail);
      Grammar.Accepts(t, body + rest, ks, last, tail);
  }

  lemma BodyRun(p: Parser, n: nat, m: Message)
    requires p.msg.state.BodyPending? && ReadInBody(p.msg, p.buffer) == Got(n, m)
    requires m.state.Complete? && n <= |p.buffer| && TameHere(p)
    ensures LeadsTo(p, p.(buffer := p.buffer[n..], msg := NewMessage(p.kind), complete := p.complete + [m]))
  {
    hide ReadInBody, Chunk.Tame;
    StepDecreases(p);
    var q := p.(buffer := p.buffer[n..], msg := m);
    assert Step(p) == Go(q);
    StepDecreases(q);
    assert LeadsTo(q, Step(q).p);
    assert LeadsTo(p, q);
  }

  /** One well-formed message at a boundary is taken off the buffer whole, and nothing more is. */
  lemma MessageRead(p: Parser, r: RawMessage, rest: string)
    requires AtBoundary(p) && (p.kind == Response ==> p.heads != [])
    requires WellFormed(p.kind, NextHead(p.kind, p.heads), r) && p.buffer == Render(r) + rest
    ensures LeadsTo(p, p.(buffer := rest, heads := Rest(p.kind, p.heads),
                          complete := p.complete + [MessageOf(p.kind, NextHead(p.kind, p.heads), r)]))
  {
    hide Step, Find, Free, HeaderLines, Headers, FramingOf, Block, BodyFits, ReadInBody, DoneWithHeaders, Chunk.Tame;
    var head := NextHead(p.kind, p.heads);
    var after := Block(r.lines) + (r.body + rest);
    assert p.buffer == r.first + CRLF + after;
    LineRead(p, r.first, after);
    StepDecreases(p);
    var p1 := StartMessage(p, r.first, after);
    assert LeadsTo(p, p1);
    HeadersRead(p1, r.lines, r.body + rest);
    var m2 := p1.msg.(headers := p1.msg.headers + Headers(r.lines));
    assert [] + Headers(r.lines) == Headers(r.lines);
    var p2 := p1.(buffer := CRLF + (r.body + rest), msg := m2);
    BodyComplete(m2, r.body, rest);
    BlankRead(p2, r.body + rest, DoneWithHeaders(m2).value);
    var p3 := p2.(buffer := r.body + rest, msg := DoneWithHeaders(m2).value);
    assert p3.buffer[|r.body|..] == rest;
    StartsBody(m2);
    BodyRun(p3, |r.body|, MessageOf(p.kind, head, r));
  }

  lemma StartsBody(m: Message)
    requires DoneWithHeaders(m).Some?
    ensures DoneWithHeaders(m).value.state.BodyPending?
  {
    hide FramingOf;
  }

  lemma PipelineFirst(kind: Kind, heads: seq<bool>, rs: seq<RawMessage>, rest: string)
    requires rs != [] && AllWellFormed(kind, heads, rs)
    requires forall i :: 0 <= i < |rs| ==> HeaderLines(rs[i].lines)
    ensures (kind == Response ==> heads != []) && WellFormed(kind, NextHead(kind, heads), rs[0])
    ensures AllWellFormed(kind, Rest(kind, heads), rs[1..])
    ensures RenderAll(rs) + rest == Render(rs[0]) + (RenderAll(rs[1..]) + rest)
    ensures Messages(kind, heads, rs)
            == [MessageOf(kind, NextHead(kind, heads), rs[0])] + Messages(kind, Rest(kind, heads), rs[1..])
    ensures RestAfter(kind, heads, |rs|) == RestAfter(kind, Rest(kind, heads), |rs[1..]|)
  {
    hide HeaderLines, WellFormed, MessageOf, Render;
  }

  lemma {:induction false} PipelineRead(p: Parser, rs: seq<RawMessage>, rest: string)
    requires AtBoundary(p) && AllWellFormed(p.kind, p.heads, rs) && p.buffer == RenderAll(rs) + rest
    ensures forall i :: 0 <= i < |rs| ==> HeaderLines(rs[i].lines)
    ensures LeadsTo(p, p.(buffer := rest, heads := RestAfter(p.kind, p.heads, |rs|),
                          complete := p.complete + Messages(p.kind, p.heads, rs)))
    decreases |rs|
  {
    hide Run, NoWideChunk, HeaderLines, WellFormed, MessageOf, Render;
    AllHaveLines(p.kind, p.heads, rs);
    if rs == [] {
      assert p.complete + [] == p.complete && "" + rest == rest;
    } else {
      hide AllWellFormed, RenderAll, Messages, RestAfter;
      PipelineFirst(p.kind, p.heads, rs, rest);
      var after := RenderAll(rs[1..]) + rest;
      MessageRead(p, rs[0], after);
      var m := MessageOf(p.kind, NextHead(p.kind, p.heads), rs[0]);
      var q := p.(buffer := after, heads := Rest(p.kind, p.heads), complete := p.complete + [m]);
      PipelineRead(q, rs[1..], rest);
      assert p.complete + [m] + Messages(q.kind, q.heads, rs[1..]) == p.complete + Messages(p.kind, p.heads, rs);
    }
  }

  lemma EmptyStops(p: Parser)
    requires AtBoundary(p) && p.buffer == ""
    ensures Run(p) == Ok(p) && NoWideChunk(p)
  {
    EmptyIsFree();
  }

  /** Any list of well-formed messages, sent back to back, is parsed into exactly that list, with an
      empty buffer and the parser waiting for a first line. */
  lemma PipelineParse(kind: Kind, heads: seq<bool>, rs: seq<RawMessage>)
    requires AllWellFormed(kind, heads, rs) && rs != []
    ensures forall i :: 0 <= i < |rs| ==> HeaderLines(rs[i].lines)
    ensures Parse(NewParser(kind, heads), RenderAll(rs))
            == Ok(Parser(kind, "", NewMessage(kind), Messages(kind, heads, rs), RestAfter(kind, heads, |rs|)))
    ensures NoWideChunk(Feed(NewParser(kind, heads), RenderAll(rs)))
  {
    hide Run, NoWideChunk, HeaderLines, WellFormed;
    var p := Feed(NewParser(kind, heads), RenderAll(rs));
    assert p.buffer == RenderAll(rs) + "";
    PipelineRead(p, rs, "");
    assert RenderAll(rs) != "";
    var q := Parser(kind, "", NewMessage(kind), Messages(kind, heads, rs), RestAfter(kind, heads, |rs|));
    assert [] + Messages(kind, heads, rs) == Messages(kind, heads, rs);
    EmptyStops(q);
  }

  /** The same however the stream is cut into segments. */
  lemma PipelineAnySegmentation(kind: Kind, heads: seq<bool>, rs: seq<RawMessage>, segments: seq<string>)
    requires AllWellFormed(kind, heads, rs) && rs != []
    requires Concat(segments) == RenderAll(rs) && forall i :: 0 <= i < |segments| ==> segments[i] != ""
    ensures forall i :: 0 <= i < |rs| ==> HeaderLines(rs[i].lines)
    ensures ParseAll(Ok(NewParser(kind, heads)), segments)
            == Ok(Parser(kind, "", NewMessage(kind), Messages(kind, heads, rs), RestAfter(kind, heads, |rs|)))
  {
    hide Parse, HeaderLines, WellFormed, NoWideChunk;
    PipelineParse(kind, heads, rs);
    var p, whole := NewParser(kind, heads), [RenderAll(rs)];
    assert Concat(whole) == RenderAll(rs) by { assert RenderAll(rs) + "" == RenderAll(rs); }
    assert RenderAll(rs) != "" by { RenderNonempty(rs[0]); }
    NoWideChunkAll(p, segments);
    NoWideChunkAll(p, whole);
    SegmentationIndependence(p, segments, whole);
    assert whole[1..] == [];
    assert ParseAll(Ok(p), whole) == ParseAll(Then(Ok(p), whole[0]), whole[1..]);
  }

  // ---------------------------------------------------------------- bodies that last until the end

  /** A body that only the end of the input can finish: nothing announces its length, or its chunks have
      not come to their end. */
  predicate Unended(f: Framing, body: string) {
    match f
    case UntilClose => true
    case ByChunks(trailers) => Chunk.Read(Chunk.Fresh(trailers), body).More?
    case _ => false
  }

  /** The body parser that waits for the rest of it. */
  function OpenParser(f: Framing, body: string): BodyParser
    requires Unended(f, body)
  {
    match f
    case UntilClose => Rule5
    case ByChunks(trailers) => Chunked(Chunk.Read(Chunk.Fresh(trailers), body).c)
  }

  predicate WellFormedToEnd(kind: Kind, head: bool, r: RawMessage) {
    Free(r.first, CRLF) && HeaderLines(r.lines) && Unended(FramingOf(kind, r.first, Headers(r.lines), head), r.body)
  }

  /** The message before the end of the input has finished it. */
  function OpenMessage(kind: Kind, head: bool, r: RawMessage): Message
    requires WellFormedToEnd(kind, head, r)
  {
    var parser := OpenParser(FramingOf(kind, r.first, Headers(r.lines), head), r.body);
    MessageOf(kind, head, r).(state := BodyPending, parser := parser)
  }

  lemma ToEndRead(p: Parser, r: RawMessage)
    requires AtBoundary(p) && (p.kind == Response ==> p.heads != []) && p.buffer == Render(r)
    requires WellFormedToEnd(p.kind, NextHead(p.kind, p.heads), r)
    ensures var m := OpenMessage(p.kind, NextHead(p.kind, p.heads), r);
      Run(p) == Ok(p.(buffer := "", heads := Rest(p.kind, p.heads), msg := m))
  {
    hide Step, Find, Free, HeaderLines, Headers, FramingOf, Block, Chunk.Read;
    var after := Block(r.lines) + r.body;
    assert p.buffer == r.first + CRLF + after;
    LineRead(p, r.first, after);
    StepDecreases(p);
    var p1 := StartMessage(p, r.first, after);
    HeadersRead(p1, r.lines, r.body);
    var m := p1.msg.(headers := p1.msg.headers + Headers(r.lines));
    assert [] + Headers(r.lines) == Headers(r.lines);
    var p2 := p1.(buffer := CRLF + r.body, msg := m);
    var m3 := DoneWithHeaders(m).value;
    BlankRead(p2, r.body, m3);
    var p3 := p2.(buffer := r.body, msg := m3);
    OpenRun(p3, FramingOf(p.kind, r.first, Headers(r.lines), NextHead(p.kind, p.heads)));
    assert "" + r.body == r.body;
  }

  lemma OpenRun(p: Parser, f: Framing)
    requires p.msg.state.BodyPending? && !p.msg.sizeKnown && Unended(f, p.buffer)
    requires p.msg.parser == match f case ByChunks(trailers) => Chunked(Chunk.Fresh(trailers)) case _ => Rule5
    ensures var m := p.msg.(body := p.msg.body + p.buffer, parser := OpenParser(f, p.buffer));
      Run(p) == Ok(p.(buffer := "", msg := m))
  {
    hide Chunk.Read;
    assert p.buffer[|p.buffer|..] == "";
  }

  /** A response whose length nothing announces, or whose chunks break off, is finished by the end of the
      input, with everything received as its body; the messages before it are unaffected. */
  lemma UntilCloseParse(kind: Kind, heads: seq<bool>, rs: seq<RawMessage>, r: RawMessage)
    requires AllWellFormed(kind, heads, rs)
    requires var hs := RestAfter(kind, heads, |rs|);
      (kind == Response ==> hs != []) && WellFormedToEnd(kind, NextHead(kind, hs), r)
    ensures forall i :: 0 <= i < |rs| ==> HeaderLines(rs[i].lines)
    ensures var hs := RestAfter(kind, heads, |rs|);
      Then(Parse(NewParser(kind, heads), RenderAll(rs) + Render(r)), "")
      == Ok(Parser(kind, "", NewMessage(kind), Messages(kind, heads, rs) + [MessageOf(kind, NextHead(kind, hs), r)],
                   Rest(kind, hs)))
  {
    hide Run, Find, HeaderLines, FramingOf, AllWellFormed, Headers, Render, Chunk.Read;
    var hs := RestAfter(kind, heads, |rs|);
    var text := RenderAll(rs) + Render(r);
    var p := Feed(NewParser(kind, heads), text);
    assert p.buffer == text;
    PipelineRead(p, rs, Render(r));
    assert [] + Messages(kind, heads, rs) == Messages(kind, heads, rs);
    var q := Parser(kind, Render(r), NewMessage(kind), Messages(kind, heads, rs), hs);
    ToEndRead(q, r);
    assert text != "" by { RenderNonempty(r); }
    var m := MessageOf(kind, NextHead(kind, hs), r);
    OnlyResponses(kind, r.first, Headers(r.lines), NextHead(kind, hs));
    var q1 := q.(buffer := "", heads := Rest(kind, hs), msg := OpenMessage(kind, NextHead(kind, hs), r));
    assert Parse(NewParser(kind, heads), text) == Ok(q1);
    assert Eof(q1.msg) == Some(m);
    CompleteRun(q1.(msg := m));
  }

  lemma OnlyResponses(kind: Kind, first: string, headers: seq<Header>, head: bool)
    ensures var f := FramingOf(kind, first, headers, head); f.UntilClose? || f.ByChunks? ==> kind == Response
  {
    hide Lookup, Atoi;
  }

  lemma RenderNonempty(r: RawMessage)
    ensures Render(r) != ""
  {
    assert |Render(r)| >= 2;
  }

  lemma CompleteRun(p: Parser)
    requires p.msg.state.Complete? && p.buffer == ""
    ensures Run(p) == Ok(p.(complete := p.complete + [p.msg], msg := NewMessage(p.kind)))
  {
    StepDecreases(p);
    EmptyStops(Step(p).p);
  }
}
