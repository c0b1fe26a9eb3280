/** Streams that the parser rejects, after any number of messages that it accepts: what follows them has no
    request to answer, or a header line without a colon, or no length by the rules, or is cut short. */
module SequenceErrors {
  import opened Text
  import opened HttpHeader
  import opened MessageSpec
  import opened SequenceSpec
  import opened SequenceGrammar

  /** The parser after a pipeline of messages, with this text still to read. */
  function AfterPipeline(kind: Kind, heads: seq<bool>, rs: seq<RawMessage>, text: string): Parser
    requires forall i :: 0 <= i < |rs| ==> HeaderLines(rs[i].lines)
  {
    Parser(kind, text, NewMessage(kind), Messages(kind, heads, rs), RestAfter(kind, heads, |rs|))
  }

  lemma PipelineThen(kind: Kind, heads: seq<bool>, rs: seq<RawMessage>, text: string)
    requires AllWellFormed(kind, heads, rs) && text != ""
    ensures forall i :: 0 <= i < |rs| ==> HeaderLines(rs[i].lines)
    ensures Parse(NewParser(kind, heads), RenderAll(rs) + text) == Run(AfterPipeline(kind, heads, rs, text))
  {
    hide Run, NoWideChunk, HeaderLines, WellFormed, AllWellFormed;
    var p := Feed(NewParser(kind, heads), RenderAll(rs) + text);
    assert p.buffer == RenderAll(rs) + text;
    PipelineRead(p, rs, text);
    assert [] + Messages(kind, heads, rs) == Messages(kind, heads, rs);
  }

  /** A response when no request is waiting for one. */
  lemma UnexpectedResponse(heads: seq<bool>, rs: seq<RawMessage>, line: string, rest: string)
    requires AllWellFormed(Response, heads, rs) && RestAfter(Response, heads, |rs|) == [] && Free(line, CRLF)
    ensures Parse(NewParser(Response, heads), RenderAll(rs) + (line + CRLF + rest)) == Error
  {
    hide Find, Messages, RestAfter, AllWellFormed, HeaderLines;
    PipelineThen(Response, heads, rs, line + CRLF + rest);
    LineEnd(line, rest);
  }

  /** The first line of a message has been read. */
  lemma FirstLineThen(p: Parser, first: string, rest: string) returns (q: Parser)
    requires AtBoundary(p) && (p.kind == Response ==> p.heads != []) && p.buffer == first + CRLF + rest
    requires Free(first, CRLF)
    ensures q == StartMessage(p, first, rest) && Run(p) == Run(q) && Sound(q)
  {
    hide Find, Free;
    LineRead(p, first, rest);
    StepDecreases(p);
    q := StartMessage(p, first, rest);
  }

  lemma {:induction false} BadLineRead(p: Parser, lines: seq<string>, bad: string, rest: string)
    requires p.msg.state.HeadersPending? && p.buffer == Block(lines + [bad]) + rest
    requires HeaderLines(lines) && bad != "" && Free(bad, CRLF) && ':' !in bad
    ensures Run(p) == Error
    decreases |lines|
  {
    hide Find, ParseHeader, NoWideChunk;
    if lines == [] {
      assert lines + [bad] == [bad] && [bad][1..] == [];
      assert p.buffer == bad + CRLF + (CRLF + rest);
      LineRead(p, bad, CRLF + rest);
      NoColon(bad);
    } else {
      var all := lines + [bad];
      assert all[0] == lines[0] && all[1..] == lines[1..] + [bad];
      var after := Block(all[1..]) + rest;
      assert p.buffer == lines[0] + CRLF + after;
      var h := ParseHeader(lines[0]).value;
      HeaderRead(p, lines[0], after, h);
      BadLineRead(p.(buffer := after, msg := p.msg.(headers := p.msg.headers + [h])), lines[1..], bad, rest);
    }
  }

  lemma NoColon(line: string)
    requires ':' !in line
    ensures ParseHeader(line) == None
  {
    FreeByte(line, ':');
  }

  /** A header line without a colon. */
  lemma BadHeaderLine(kind: Kind, heads: seq<bool>, rs: seq<RawMessage>, first: string, lines: seq<string>,
                      bad: string, rest: string)
    requires AllWellFormed(kind, heads, rs) && (kind == Response ==> RestAfter(kind, heads, |rs|) != [])
    requires Free(first, CRLF) && HeaderLines(lines) && bad != "" && Free(bad, CRLF) && ':' !in bad
    ensures Parse(NewParser(kind, heads), RenderAll(rs) + (first + CRLF + (Block(lines + [bad]) + rest))) == Error
  {
    hide Run, Find, Messages, RestAfter, AllWellFormed, HeaderLines, Block;
    var after := Block(lines + [bad]) + rest;
    PipelineThen(kind, heads, rs, first + CRLF + after);
    var q := FirstLineThen(AfterPipeline(kind, heads, rs, first + CRLF + after), first, after);
    BadLineRead(q, lines, bad, rest);
  }

  /** A message to which the rules give no length, at the end of its headers. */
  lemma NoLength(kind: Kind, heads: seq<bool>, rs: seq<RawMessage>, first: string, lines: seq<string>, rest: string)
    requires AllWellFormed(kind, heads, rs)
    requires var hs := RestAfter(kind, heads, |rs|);
      (kind == Response ==> hs != []) && Free(first, CRLF) && HeaderLines(lines)
      && FramingOf(kind, first, Headers(lines), NextHead(kind, hs)).Unsupported?
    ensures Parse(NewParser(kind, heads), RenderAll(rs) + (first + CRLF + (Block(lines) + rest))) == Error
  {
    hide Run, NoWideChunk, Find, FramingOf, Messages, RestAfter, AllWellFormed, HeaderLines, Headers, Block, Free;
    var hs, after := RestAfter(kind, heads, |rs|), Block(lines) + rest;
    PipelineThen(kind, heads, rs, first + CRLF + after);
    var q := FirstLineThen(AfterPipeline(kind, heads, rs, first + CRLF + after), first, after);
    HeadersRead(q, lines, rest);
    assert [] + Headers(lines) == Headers(lines);
    BlankFails(q.(buffer := CRLF + rest, msg := q.msg.(headers := Headers(lines))), rest);
  }

  lemma BlankFails(p: Parser, rest: string)
    requires p.msg.state.HeadersPending? && p.buffer == CRLF + rest && DoneWithHeaders(p.msg).None?
    ensures Run(p) == Error
  {
    hide Find, DoneWithHeaders;
    EmptyIsFree();
    assert p.buffer == "" + CRLF + rest;
    LineRead(p, "", rest);
  }

  /** The end of the input before the headers have ended. */
  lemma CutInHeaders(kind: Kind, heads: seq<bool>, rs: seq<RawMessage>, first: string, part: string)
    requires AllWellFormed(kind, heads, rs) && (kind == Response ==> RestAfter(kind, heads, |rs|) != [])
    requires Free(first, CRLF) && Free(part, CRLF)
    ensures Then(Parse(NewParser(kind, heads), RenderAll(rs) + (first + CRLF + part)), "") == Error
  {
    hide Find, Messages, RestAfter, AllWellFormed, HeaderLines;
    PipelineThen(kind, heads, rs, first + CRLF + part);
    var q := FirstLineThen(AfterPipeline(kind, heads, rs, first + CRLF + part), first, part);
    assert Step(q) == Stop(q) && Run(q) == Ok(q);
  }

  /** The end of the input in a body of known length. */
  lemma CutInBody(kind: Kind, heads: seq<bool>, rs: seq<RawMessage>, first: string, lines: seq<string>,
                  part: string, n: nat)
    requires AllWellFormed(kind, heads, rs) && |part| < n
    requires var hs := RestAfter(kind, heads, |rs|);
      (kind == Response ==> hs != []) && Free(first, CRLF) && HeaderLines(lines)
      && FramingOf(kind, first, Headers(lines), NextHead(kind, hs)) == Known(n)
    ensures Then(Parse(NewParser(kind, heads), RenderAll(rs) + (first + CRLF + (Block(lines) + part))), "") == Error
  {
    hide Run, NoWideChunk, Find, FramingOf, Messages, RestAfter, AllWellFormed, HeaderLines, Headers, Block, Free;
    var hs, after := RestAfter(kind, heads, |rs|), Block(lines) + part;
    PipelineThen(kind, heads, rs, first + CRLF + after);
    var q := FirstLineThen(AfterPipeline(kind, heads, rs, first + CRLF + after), first, after);
    HeadersRead(q, lines, part);
    assert [] + Headers(lines) == Headers(lines);
    var q1 := q.(buffer := CRLF + part, msg := q.msg.(headers := Headers(lines)));
    var m := DoneWithHeaders(q1.msg).value;
    BlankRead(q1, part, m);
    ShortBody(q1.(buffer := part, msg := m));
  }

  lemma ShortBody(p: Parser)
    requires p.msg.state.BodyPending? && p.msg.sizeKnown && p.msg.parser == NoParser
    requires |p.msg.body| + |p.buffer| < p.msg.size
    ensures Then(Run(p), "") == Error
  {
    assert ReadInBody(p.msg, p.buffer).n == |p.buffer|;
    assert Step(p).Stop?;
  }
}
