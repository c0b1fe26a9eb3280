/** Whatever the parser completes was written in the stream: the converse of the grammar's
    completeness, and what happens to a message that is printed and parsed again. */
module SequenceSoundness {
  import opened Machine
  import opened Text
  import opened HttpHeader
  import opened MessageSpec
  import opened SequenceSpec
  import opened SequenceGrammar
  import Chunk = ChunkedSpec
  import Grammar = ChunkedGrammar

  /** The run from `p` finishes at least one message. */
  predicate Completes(p: Parser) {
    Run(p).Ok? && |Run(p).p.complete| > |p.complete|
  }

  /** The run from `p` comes at least to the body of a message. */
  predicate ReachesBody(p: Parser) {
    Completes(p) || (Run(p).Ok? && Run(p).p.msg.state.BodyPending?)
  }

  lemma LineSplit(s: string) returns (line: string, rest: string)
    requires Find(s, CRLF) != -1
    ensures s == line + CRLF + rest && Free(line, CRLF)
    ensures line == s[..Find(s, CRLF)] && rest == s[Find(s, CRLF) + 2..]
  {
    hide Find;
    var it := Find(s, CRLF);
    line, rest := s[..it], s[it + 2..];
    assert s == line + s[it..];
    FindExtend(line, s[it..], CRLF);
  }

  lemma NeedsLine(p: Parser)
    requires ReachesBody(p) && (p.msg.state.FirstLinePending? || p.msg.state.HeadersPending?)
    ensures Find(p.buffer, CRLF) != -1
    ensures Step(p).Go? && LeadsTo(p, Step(p).p)
  {
    hide Find, ParseHeader, DoneWithHeaders;
    if Step(p).Go? { StepDecreases(p); }
  }

  lemma {:induction false} HeadersSound(p: Parser) returns (lines: seq<string>, rest: string, m: Message)
    requires p.msg.state.HeadersPending? && ReachesBody(p)
    ensures HeaderLines(lines) && p.buffer == Block(lines) + rest
    ensures DoneWithHeaders(p.msg.(headers := p.msg.headers + Headers(lines))) == Some(m)
    ensures LeadsTo(p, p.(buffer := rest, msg := m))
    decreases |p.buffer|
  {
    hide Find, ParseHeader, DoneWithHeaders, Run, NoWideChunk;
    NeedsLine(p);
    var line, after := LineSplit(p.buffer);
    assert Step(p) == HeaderLine(p, line, after);
    if line == "" {
      lines, rest, m := [], after, DoneWithHeaders(p.msg).value;
      assert p.msg.headers + [] == p.msg.headers;
    } else {
      var h := ParseHeader(line).value;
      var p1 := p.(buffer := after, msg := p.msg.(headers := p.msg.headers + [h]));
      var tail;
      tail, rest, m := HeadersSound(p1);
      lines := [line] + tail;
      assert lines[1..] == tail;
      assert p1.msg.headers + Headers(tail) == p.msg.headers + Headers(lines);
      assert p.buffer == Block(lines) + rest;
    }
  }

  /** No chunk in the run is so wide that its size could wrap: the buffer is too short for one, or none
      is announced. */
  ghost predicate NoWrap(p: Parser) {
    |p.buffer| < TWO32 || NoWideChunk(p)
  }

  lemma BodySound(p: Parser, m: Message) returns (n: nat)
    requires Completes(p) && (|p.buffer| < TWO32 || TameHere(p))
    requires m.state.HeadersPending? && m.body == "" && m.parser == NoParser
    requires DoneWithHeaders(m) == Some(p.msg)
    ensures n <= |p.buffer| && BodyFits(FramingOf(m.kind, m.firstLine, m.headers, m.wasHead), p.buffer[..n])
  {
    hide FramingOf, Chunk.Read, Chunk.Tame, Grammar.IsBodyText;
    var f := FramingOf(m.kind, m.firstLine, m.headers, m.wasHead);
    assert Step(p) == BodyBytes(p) && Step(p).Go?;
    n := ReadInBody(p.msg, p.buffer).n;
    match f
    case ByChunks(t) =>
      assert "" + p.buffer == p.buffer;
      Grammar.AcceptsExactly(t, p.buffer, n);
    case _ =>
  }

  lemma TameFirst(p: Parser)
    requires NoWideChunk(p)
    ensures TameHere(p)
  {
    hide TameHere;
  }

  lemma FirstMessageSound(p: Parser) returns (r: RawMessage, rest: string)
    requires AtBoundary(p) && Completes(p) && NoWrap(p)
    ensures p.kind == Response ==> p.heads != []
    ensures WellFormed(p.kind, NextHead(p.kind, p.heads), r) && p.buffer == Render(r) + rest
  {
    hide Find, Run, NoWideChunk, TameHere, ReadInBody, DoneWithHeaders, HeaderLines, Headers, FramingOf, BodyFits;
    NeedsLine(p);
    var first, after := LineSplit(p.buffer);
    var p1 := StartMessage(p, first, after);
    assert Step(p) == Go(p1);
    var lines, text, m := HeadersSound(p1);
    var m1 := p1.msg.(headers := p1.msg.headers + Headers(lines));
    assert [] + Headers(lines) == Headers(lines);
    var p2 := p1.(buffer := text, msg := m);
    if NoWideChunk(p2) { TameFirst(p2); }
    var n := BodySound(p2, m1);
    r, rest := RawMessage(first, lines, text[..n]), text[n..];
    assert text == r.body + rest;
    assert p.buffer == Render(r) + rest;
  }

  /** The finished messages of a run are exactly the well-formed messages the stream begins with,
      in order, and what is left finishes none. */
  lemma {:induction false} StreamSound(p: Parser) returns (rs: seq<RawMessage>, rest: string)
    requires AtBoundary(p) && Run(p).Ok? && NoWrap(p)
    ensures AllWellFormed(p.kind, p.heads, rs) && p.buffer == RenderAll(rs) + rest
    ensures forall i :: 0 <= i < |rs| ==> HeaderLines(rs[i].lines)
    ensures Run(p).p.complete == p.complete + Messages(p.kind, p.heads, rs)
    ensures Run(p) == Run(p.(buffer := rest, heads := RestAfter(p.kind, p.heads, |rs|), complete := Run(p).p.complete))
    decreases |p.buffer|
  {
    hide Run, NoWideChunk, WellFormed, HeaderLines, MessageOf, Render;
    RunSound(p);
    if Completes(p) {
      hide AllWellFormed, Messages, RestAfter, RenderAll;
      var r, after := FirstMessageSound(p);
      MessageRead(p, r, after);
      LinesOf(p.kind, NextHead(p.kind, p.heads), r);
      var m := MessageOf(p.kind, NextHead(p.kind, p.heads), r);
      var q := p.(buffer := after, heads := Rest(p.kind, p.heads), complete := p.complete + [m]);
      RenderShort(r);
      var tail;
      tail, rest := StreamSound(q);
      rs := [r] + tail;
      StreamCons(p.kind, p.heads, r, tail, rest);
      assert p.complete + [m] + Messages(q.kind, q.heads, tail) == p.complete + Messages(p.kind, p.heads, rs);
    } else {
      rs, rest := [], p.buffer;
      assert "" + rest == rest && p.complete + [] == p.complete;
    }
  }

  lemma RenderShort(r: RawMessage)
    ensures |Render(r)| > 0
  {
  }

  lemma StreamCons(kind: Kind, heads: seq<bool>, r: RawMessage, tail: seq<RawMessage>, rest: string)
    requires (kind == Response ==> heads != []) && WellFormed(kind, NextHead(kind, heads), r)
    requires AllWellFormed(kind, Rest(kind, heads), tail)
    requires HeaderLines(r.lines) && forall i :: 0 <= i < |tail| ==> HeaderLines(tail[i].lines)
    ensures var rs := [r] + tail;
      AllWellFormed(kind, heads, rs) && (forall i :: 0 <= i < |rs| ==> HeaderLines(rs[i].lines))
      && RenderAll(rs) + rest == Render(r) + (RenderAll(tail) + rest)
      && Messages(kind, heads, rs)
         == [MessageOf(kind, NextHead(kind, heads), r)] + Messages(kind, Rest(kind, heads), tail)
      && RestAfter(kind, heads, |rs|) == RestAfter(kind, Rest(kind, heads), |tail|)
  {
    hide WellFormed, HeaderLines, MessageOf, Render;
    var rs := [r] + tail;
    assert rs[1..] == tail;
    AllHaveLines(kind, heads, rs);
  }

  lemma LinesOf(kind: Kind, head: bool, r: RawMessage)
    requires WellFormed(kind, head, r)
    ensures HeaderLines(r.lines)
  {
  }

  // ---------------------------------------------------------------- responses and their requests

  /** What happens to a response parser: input arrives, the empty string being its end, or a request goes
      out whose response is to come. */
  datatype Event = Arrives(text: string) | Sent(isHead: bool)

  function Handle(o: Outcome, events: seq<Event>): Outcome
    decreases |events|
  {
    if events == [] || o.Error? then o
    else match events[0]
      case Arrives(text) => Handle(Parse(o.p, text), events[1..])
      case Sent(isHead) => Handle(Ok(o.p.(heads := o.p.heads + [isHead])), events[1..])
  }

  function Requests(events: seq<Event>): seq<bool> {
    if events == [] then []
    else (if events[0].Sent? then [events[0].isHead] else []) + Requests(events[1..])
  }

  function Inputs(segments: seq<string>): seq<Event> {
    seq(|segments|, i requires 0 <= i < |segments| => Arrives(segments[i]))
  }

  /** A response of which this is the request; to a HEAD it has no body, whatever its headers announce. */
  predicate Answers(m: Message, isHead: bool) {
    m.wasHead == isHead && (isHead ==> m.body == "")
  }

  /** Finished responses answer the first requests, the one in progress answers the next, and the queue
      holds those after it. */
  predicate Matched(p: Parser, requests: seq<bool>) {
    var n := |p.complete|;
    p.kind == Response && Sound(p) && n <= |requests|
    && (forall i :: 0 <= i < n ==> Answers(p.complete[i], requests[i]))
    && if p.msg.state.FirstLinePending? then p.msg == NewMessage(Response) && p.heads == requests[n..]
       else
         n < |requests| && Answers(p.msg, requests[n]) && p.heads == requests[n + 1..]
         && (requests[n] && !p.msg.state.HeadersPending? ==> p.msg.sizeKnown && p.msg.size == 0)
  }

  lemma StepMatched(p: Parser, requests: seq<bool>)
    requires Matched(p, requests)
    ensures match Step(p)
      case Go(q) => Matched(q, requests)
      case Stop(q) => Matched(q, requests)
      case Fail => true
  {
    hide Find, ParseHeader, FramingByHeaders, StatusCode, Valid, Chunk.Read;
    StepSound(p);
    if p.msg.state.BodyPending? {
      ReadInBodySafe(p.msg, p.buffer);
    }
  }

  lemma {:induction false} RunMatched(p: Parser, requests: seq<bool>)
    requires Matched(p, requests)
    ensures Run(p).Ok? ==> Matched(Run(p).p, requests)
    decreases |p.buffer|, Rank(p.msg.state)
  {
    hide Step, Matched;
    StepMatched(p, requests);
    if Step(p).Go? {
      StepDecreases(p);
      RunMatched(Step(p).p, requests);
    }
  }

  lemma ParseMatched(p: Parser, requests: seq<bool>, buf: string)
    requires Matched(p, requests)
    ensures Parse(p, buf).Ok? ==> Matched(Parse(p, buf).p, requests)
  {
    hide Run, Valid;
    if buf == "" {
      if Eof(p.msg).Some? {
        assert Valid(Eof(p.msg).value) by { EofValid(p.msg); }
        RunMatched(p.(msg := Eof(p.msg).value), requests);
      }
    } else {
      RunMatched(Feed(p, buf), requests);
    }
  }

  lemma EofValid(m: Message)
    requires Valid(m) && Eof(m).Some?
    ensures Valid(Eof(m).value)
  {
  }

  lemma RequestMatched(p: Parser, requests: seq<bool>, isHead: bool)
    requires Matched(p, requests)
    ensures Matched(p.(heads := p.heads + [isHead]), requests + [isHead])
  {
    hide Valid;
  }

  lemma {:induction false} HandleMatched(p: Parser, requests: seq<bool>, events: seq<Event>)
    requires Matched(p, requests)
    ensures var o := Handle(Ok(p), events); o.Ok? ==> Matched(o.p, requests + Requests(events))
    decreases |events|
  {
    hide Parse, Matched, Requests;
    RequestsSplit(requests, events);
    if events != [] {
      match events[0]
      case Arrives(text) =>
        ParseMatched(p, requests, text);
        if Parse(p, text).Ok? { HandleMatched(Parse(p, text).p, requests, events[1..]); }
      case Sent(isHead) =>
        RequestMatched(p, requests, isHead);
        HandleMatched(p.(heads := p.heads + [isHead]), requests + [isHead], events[1..]);
    }
  }

  lemma RequestsSplit(before: seq<bool>, events: seq<Event>)
    ensures before + Requests(events) ==
      if events == [] then before
      else if events[0].Arrives? then before + Requests(events[1..])
      else before + [events[0].isHead] + Requests(events[1..])
  {
    if events != [] && events[0].Sent? {
      assert Requests(events) == [events[0].isHead] + Requests(events[1..]);
    } else if events != [] {
      assert Requests(events) == [] + Requests(events[1..]) == Requests(events[1..]);
    }
  }

  /** Every response is matched with the request it answers: whatever arrives, in whatever segments, and
      however requests come in between, the i-th response finished knows whether the i-th request was a
      HEAD, and then its body is empty. */
  lemma ResponsesMatchRequests(heads: seq<bool>, events: seq<Event>)
    ensures var o := Handle(Ok(NewParser(Response, heads)), events);
      o.Ok? ==>
        var done, requests := o.p.complete, heads + Requests(events);
        |done| <= |requests| && forall i :: 0 <= i < |done| ==> Answers(done[i], requests[i])
  {
    assert Matched(NewParser(Response, heads), heads);
    HandleMatched(NewParser(Response, heads), heads, events);
  }

  /** With all requests known beforehand, whatever segments arrive. */
  lemma ResponsesMatchHeads(heads: seq<bool>, segments: seq<string>)
    ensures var o := ParseAll(Ok(NewParser(Response, heads)), segments);
      o.Ok? ==> |o.p.complete| <= |heads|
                && forall i :: 0 <= i < |o.p.complete| ==> Answers(o.p.complete[i], heads[i])
  {
    hide Handle, ParseAll, Answers;
    HandleInputs(Ok(NewParser(Response, heads)), segments);
    ResponsesMatchRequests(heads, Inputs(segments));
    assert heads + [] == heads;
  }

  /** That is parsing the segments one by one. */
  lemma {:induction false} HandleInputs(o: Outcome, segments: seq<string>)
    ensures Handle(o, Inputs(segments)) == ParseAll(o, segments) && Requests(Inputs(segments)) == []
    decreases |segments|
  {
    hide Parse;
    if segments != [] {
      var events := Inputs(segments);
      assert events[0] == Arrives(segments[0]) && events[1..] == Inputs(segments[1..]);
      HandleInputs(Then(o, segments[0]), segments[1..]);
      if o.Error? { ParseAllError(segments); }
    }
  }

  // ---------------------------------------------------------------- printing

  function PrintLines(headers: seq<Header>): seq<string> {
    if headers == [] then [] else [PrintHeader(headers[0])] + PrintLines(headers[1..])
  }

  function RawOf(m: Message): RawMessage {
    RawMessage(m.firstLine, PrintLines(m.headers), m.body)
  }

  predicate PrintableHeaders(headers: seq<Header>) {
    forall i :: 0 <= i < |headers| ==> Printable(headers[i]) && Free(PrintHeader(headers[i]), CRLF)
  }

  /** A finished message whose first line and headers the printer and the parser agree on. */
  predicate PrintableHead(kind: Kind, head: bool, m: Message) {
    var f := FramingOf(kind, m.firstLine, m.headers, head);
    && Free(m.firstLine, CRLF) && PrintableHeaders(m.headers)
    && m == Message(kind, Complete, m.firstLine, m.headers, m.body,
                    f.Known?, if f.Known? then f.n else NPOS, head, NoParser)
  }

  /** The same with a body of the prescribed extent. */
  ghost predicate PrintableMessage(kind: Kind, head: bool, m: Message) {
    PrintableHead(kind, head, m) && BodyFits(FramingOf(kind, m.firstLine, m.headers, head), m.body)
  }

  /** A finished response whose body lasted until the end of the input. */
  predicate PrintableToEnd(head: bool, m: Message) {
    PrintableHead(Response, head, m) && Unended(FramingOf(Response, m.firstLine, m.headers, head), m.body)
  }

  lemma {:induction false} PrintLinesAt(headers: seq<Header>)
    ensures |PrintLines(headers)| == |headers|
    ensures forall i :: 0 <= i < |headers| ==> PrintLines(headers)[i] == PrintHeader(headers[i])
  {
    hide PrintHeader;
    if headers != [] {
      PrintLinesAt(headers[1..]);
      assert forall i :: 0 < i < |headers| ==> headers[i] == headers[1..][i - 1];
    }
  }

  lemma {:induction false} PrintedText(m: Message)
    ensures Print(m) == Render(RawOf(m))
  {
    PrintedBlock(m.headers);
    assert Print(m) == m.firstLine + CRLF + (PrintHeaders(m.headers) + CRLF + m.body);
  }

  lemma {:induction false} PrintedBlock(headers: seq<Header>)
    ensures Block(PrintLines(headers)) == PrintHeaders(headers) + CRLF
  {
    hide PrintHeader;
    if headers != [] {
      PrintedBlock(headers[1..]);
      assert PrintLines(headers)[1..] == PrintLines(headers[1..]);
    }
  }

  lemma {:induction false} PrintedHeaders(headers: seq<Header>)
    requires PrintableHeaders(headers)
    ensures HeaderLines(PrintLines(headers)) && Headers(PrintLines(headers)) == headers
  {
    hide ParseHeader, Find, Printable;
    PrintLinesAt(headers);
    forall i | 0 <= i < |headers| ensures ParseHeader(PrintHeader(headers[i])) == Some(headers[i]) {
      HeaderRoundTrip(headers[i]);
    }
    if headers != [] {
      PrintedHeaders(headers[1..]);
      assert PrintLines(headers)[1..] == PrintLines(headers[1..]);
      assert headers == [headers[0]] + headers[1..];
    }
  }

  lemma RawOfPrintable(kind: Kind, head: bool, m: Message)
    requires PrintableHead(kind, head, m)
    ensures HeaderLines(RawOf(m).lines) && Headers(RawOf(m).lines) == m.headers && RawOf(m).first == m.firstLine
    ensures MessageOf(kind, head, RawOf(m)) == m && Print(m) == Render(RawOf(m))
    ensures PrintableMessage(kind, head, m) ==> WellFormed(kind, head, RawOf(m))
  {
    hide Find, FramingOf, BodyFits, PrintableHeaders, HeaderLines;
    PrintedHeaders(m.headers);
    PrintedText(m);
  }

  function PrintAll(ms: seq<Message>): string {
    if ms == [] then "" else Print(ms[0]) + PrintAll(ms[1..])
  }

  ghost predicate AllPrintable(kind: Kind, heads: seq<bool>, ms: seq<Message>)
    decreases |ms|
  {
    ms == [] || ((kind == Response ==> heads != []) && PrintableMessage(kind, NextHead(kind, heads), ms[0])
                 && AllPrintable(kind, Rest(kind, heads), ms[1..]))
  }

  function RawsOf(ms: seq<Message>): seq<RawMessage> {
    if ms == [] then [] else [RawOf(ms[0])] + RawsOf(ms[1..])
  }

  lemma {:induction false} RawsOfPrintable(kind: Kind, heads: seq<bool>, ms: seq<Message>)
    requires AllPrintable(kind, heads, ms)
    ensures AllWellFormed(kind, heads, RawsOf(ms)) && |RawsOf(ms)| == |ms|
    ensures forall i :: 0 <= i < |ms| ==> HeaderLines(RawsOf(ms)[i].lines)
    ensures Messages(kind, heads, RawsOf(ms)) == ms && PrintAll(ms) == RenderAll(RawsOf(ms))
    decreases |ms|
  {
    hide WellFormed, HeaderLines, MessageOf, Print, Render, RawOf, PrintableHead, BodyFits, FramingOf;
    if ms != [] {
      var rs := RawsOf(ms);
      RawOfPrintable(kind, NextHead(kind, heads), ms[0]);
      RawsOfPrintable(kind, Rest(kind, heads), ms[1..]);
      assert rs[0] == RawOf(ms[0]) && rs[1..] == RawsOf(ms[1..]);
      AllHaveLines(kind, heads, rs);
      assert ms == [ms[0]] + ms[1..];
    }
  }

  /** Parsing the concatenated printed forms of finished messages yields exactly those messages, an
      empty buffer, and a parser waiting for a first line. */
  lemma PrintParse(kind: Kind, heads: seq<bool>, ms: seq<Message>)
    requires AllPrintable(kind, heads, ms) && ms != []
    ensures Parse(NewParser(kind, heads), PrintAll(ms))
            == Ok(Parser(kind, "", NewMessage(kind), ms, RestAfter(kind, heads, |ms|)))
  {
    hide Parse, AllPrintable, AllWellFormed, HeaderLines;
    RawsOfPrintable(kind, heads, ms);
    PipelineParse(kind, heads, RawsOf(ms));
  }

  /** The same with a last response that ends where the input ends. */
  lemma PrintParseToEnd(heads: seq<bool>, ms: seq<Message>, last: Message)
    requires AllPrintable(Response, heads, ms)
    requires var hs := RestAfter(Response, heads, |ms|); hs != [] && PrintableToEnd(hs[0], last)
    ensures Then(Parse(NewParser(Response, heads), PrintAll(ms) + Print(last)), "")
            == Ok(Parser(Response, "", NewMessage(Response), ms + [last], RestAfter(Response, heads, |ms|)[1..]))
  {
    hide Parse, AllPrintable, AllWellFormed, HeaderLines, FramingOf, PrintableHeaders, Print, Headers, Find, Render,
      Unended;
    var hs := RestAfter(Response, heads, |ms|);
    RawsOfPrintable(Response, heads, ms);
    RawOfPrintable(Response, hs[0], last);
    UntilCloseParse(Response, heads, RawsOf(ms), RawOf(last));
  }

  /** When a request has the body its first line and headers call for. */
  lemma RequestBody(firstLine: string, headers: seq<Header>, body: string)
    ensures BodyFits(RequestFraming(firstLine, headers), body)
      <==> if "GET " <= firstLine || "HEAD " <= firstLine then body == ""
           else "POST " <= firstLine && Lookup(headers, "Content-Length").Some?
                && Atoi(Lookup(headers, "Content-Length").value, 10) == Some(|body|)
  {
    hide Lookup, Atoi;
  }

  /** A finished GET or HEAD without a body, or a POST with the body that its Content-Length announces. */
  predicate CompleteRequest(m: Message) {
    && Free(m.firstLine, CRLF) && PrintableHeaders(m.headers)
    && (if "GET " <= m.firstLine || "HEAD " <= m.firstLine then m.body == ""
        else "POST " <= m.firstLine && Lookup(m.headers, "Content-Length").Some?
             && Atoi(Lookup(m.headers, "Content-Length").value, 10) == Some(|m.body|))
    && m == Message(Request, Complete, m.firstLine, m.headers, m.body, true, |m.body|, false, NoParser)
  }

  lemma {:induction false} CompleteRequestsPrintable(heads: seq<bool>, ms: seq<Message>)
    requires forall m :: m in ms ==> CompleteRequest(m)
    ensures AllPrintable(Request, heads, ms) && RestAfter(Request, heads, |ms|) == heads
    decreases |ms|
  {
    hide Lookup, Atoi, PrintableHeaders, Find;
    if ms != [] {
      var m := ms[0];
      assert CompleteRequest(m);
      RequestBody(m.firstLine, m.headers, m.body);
      assert PrintableMessage(Request, false, m);
      CompleteRequestsPrintable(heads, ms[1..]);
    }
  }

  /** Any pipeline of complete requests, printed back to back, is parsed into exactly that list. */
  lemma RequestsPrintParse(ms: seq<Message>)
    requires ms != [] && forall m :: m in ms ==> CompleteRequest(m)
    ensures Parse(NewParser(Request, []), PrintAll(ms)) == Ok(Parser(Request, "", NewMessage(Request), ms, []))
  {
    hide Parse, CompleteRequest, AllPrintable;
    CompleteRequestsPrintable([], ms);
    PrintParse(Request, [], ms);
  }

  // ---------------------------------------------------------------- parse, print, parse

  lemma {:induction false} ParsedHeaders(lines: seq<string>)
    requires HeaderLines(lines)
    ensures |Headers(lines)| == |lines|
    ensures forall i :: 0 <= i < |lines| ==> ParseHeader(lines[i]) == Some(Headers(lines)[i])
  {
    hide ParseHeader, Find;
    if lines != [] {
      ParsedHeaders(lines[1..]);
      assert forall i :: 0 < i < |lines| ==> lines[i] == lines[1..][i - 1];
    }
  }

  /** A printed header has no CRLF if the line it came from had none. */
  lemma PrintedFree(line: string, h: Header)
    requires ParseHeader(line) == Some(h) && Free(line, CRLF)
    ensures Free(PrintHeader(h), CRLF)
  {
    hide Find, ParseHeader;
    var spaces := ParsedHeader(line, h);
    var text, n := PrintHeader(h), |h.key| + 2;
    assert text == h.key + ": " + h.value;
    var r := Find(text, CRLF);
    if r != -1 {
      assert text[r] == text[r..r + 2][0] && text[r + 1] == text[r..r + 2][1];
      assert text[n - 2] == ':' && text[n - 1] == ' ';
      if r < n - 2 {
        assert text == h.key + (": " + h.value);
        assert line == h.key + (":" + spaces + h.value);
        AtExtend(h.key, ": " + h.value, CRLF, r);
        AtExtend(h.key, ":" + spaces + h.value, CRLF, r);
      } else {
        AtShift(h.key + ": ", h.value, CRLF, r - n);
        AtShift(h.key + ":" + spaces, h.value, CRLF, r - n);
      }
    }
  }

  lemma ReprintLines(lines: seq<string>)
    requires HeaderLines(lines)
    ensures BlockLines(PrintLines(Headers(lines))) && |Headers(lines)| == |lines|
    ensures PrintableHeaders(Headers(lines))
            <==> forall i :: 0 <= i < |lines| ==> !Blank(Headers(lines)[i].value)
  {
    hide Find, ParseHeader, Printable, Blank;
    var hs := Headers(lines);
    ParsedHeaders(lines);
    PrintLinesAt(hs);
    forall i | 0 <= i < |hs|
      ensures Free(PrintHeader(hs[i]), CRLF) && (Printable(hs[i]) <==> !Blank(hs[i].value))
    {
      PrintedFree(lines[i], hs[i]);
      var spaces := ParsedHeader(lines[i], hs[i]);
    }
  }

  /** If printed headers are read back as themselves, each of them is printable. */
  lemma ReadBack(hs: seq<Header>)
    requires HeaderLines(PrintLines(hs)) && Headers(PrintLines(hs)) == hs
    ensures PrintableHeaders(hs)
  {
    hide Find, ParseHeader, Printable;
    ParsedHeaders(PrintLines(hs));
    PrintLinesAt(hs);
    forall i | 0 <= i < |hs| ensures Printable(hs[i]) { HeaderRoundTrip(hs[i]); }
  }

  function HeadsFor(kind: Kind, head: bool): seq<bool> {
    if kind == Response then [head] else []
  }

  lemma RenderUnique(r: RawMessage, x: string, s: RawMessage, y: string)
    requires Free(r.first, CRLF) && Free(s.first, CRLF) && BlockLines(r.lines) && BlockLines(s.lines)
    requires Render(r) + x == Render(s) + y
    ensures r.lines == s.lines
  {
    hide Find, Block, BlockLines;
    var rest, rest' := Block(r.lines) + (r.body + x), Block(s.lines) + (s.body + y);
    assert Render(r) + x == r.first + CRLF + rest;
    assert Render(s) + y == s.first + CRLF + rest';
    LineEnd(r.first, rest);
    LineEnd(s.first, rest');
    assert rest == (Render(r) + x)[|r.first| + 2..] && rest' == (Render(s) + y)[|s.first| + 2..];
    BlockUnique(r.lines, r.body + x, s.lines, s.body + y);
  }

  /** For a message whose text says where it ends. */
  lemma ReprintWellFormed(kind: Kind, head: bool, r: RawMessage)
    requires WellFormed(kind, head, r) && (head ==> kind == Response)
    ensures var m := MessageOf(kind, head, r);
      Parse(NewParser(kind, HeadsFor(kind, head)), Print(m)) == Ok(Parser(kind, "", NewMessage(kind), [m], []))
      <==> forall i :: 0 <= i < |m.headers| ==> !Blank(m.headers[i].value)
  {
    hide Find, FramingOf, BodyFits, Parse, HeaderLines, Print, PrintableHeaders, Blank, Block;
    var m := MessageOf(kind, head, r);
    ReprintLines(r.lines);
    if PrintableHeaders(m.headers) {
      IfPrintable(kind, head, r, m);
    } else if Parse(NewParser(kind, HeadsFor(kind, head)), Print(m))
              == Ok(Parser(kind, "", NewMessage(kind), [m], [])) {
      OnlyIfPrintable(kind, head, r, m);
    }
  }

  lemma IfPrintable(kind: Kind, head: bool, r: RawMessage, m: Message)
    requires WellFormed(kind, head, r) && (head ==> kind == Response) && m == MessageOf(kind, head, r)
    requires PrintableHeaders(m.headers)
    ensures Parse(NewParser(kind, HeadsFor(kind, head)), Print(m)) == Ok(Parser(kind, "", NewMessage(kind), [m], []))
  {
    hide Find, FramingOf, BodyFits, Parse, Headers, Print, PrintableHeaders, Block;
    var heads := HeadsFor(kind, head);
    assert PrintableMessage(kind, head, m);
    assert [m][1..] == [] && NextHead(kind, heads) == head && Rest(kind, heads) == [];
    assert AllPrintable(kind, Rest(kind, heads), [m][1..]);
    PrintParse(kind, heads, [m]);
    assert PrintAll([m]) == Print(m) + "" == Print(m);
    assert RestAfter(kind, heads, 1) == RestAfter(kind, [], 0);
  }

  /** The headers of the first message: the first one finished, or else the one in progress. */
  function FirstMessageHeaders(p: Parser): seq<Header>
    requires Run(p).Ok?
  {
    if Completes(p) then Run(p).p.complete[|p.complete|].headers else Run(p).p.msg.headers
  }

  /** They are the header lines that the buffer begins with. */
  lemma FirstHeaders(p: Parser) returns (first: string, lines: seq<string>, text: string)
    requires AtBoundary(p) && ReachesBody(p)
    ensures p.buffer == first + CRLF + (Block(lines) + text) && Free(first, CRLF) && HeaderLines(lines)
    ensures FirstMessageHeaders(p) == Headers(lines)
  {
    hide Find, Run, NoWideChunk, DoneWithHeaders, HeaderLines, Headers, Valid;
    NeedsLine(p);
    var after;
    first, after := LineSplit(p.buffer);
    var p1 := StartMessage(p, first, after);
    assert Step(p) == Go(p1);
    var m;
    lines, text, m := HeadersSound(p1);
    assert [] + Headers(lines) == Headers(lines);
    FreshValid();
    DoneKeeps(p1.msg.(headers := p1.msg.headers + Headers(lines)));
    FirstBody(p1.(buffer := text, msg := m));
  }

  lemma DoneKeeps(m: Message)
    requires DoneWithHeaders(m).Some? && m.body == "" && m.parser == NoParser
    ensures var d := DoneWithHeaders(m).value;
      d.state.BodyPending? && d.headers == m.headers && d.kind == m.kind && Valid(d)
  {
    hide FramingOf;
    FreshValid();
  }

  lemma FirstBody(p: Parser)
    requires Sound(p) && p.msg.state.BodyPending? && ReachesBody(p)
    ensures FirstMessageHeaders(p) == p.msg.headers
  {
    hide ReadInBody, Valid;
    assert Step(p) == BodyBytes(p);
    StepSound(p);
    BodyKeeps(p.msg, p.buffer);
    if Step(p).Go? {
      StepDecreases(p);
      var q := Step(p).p;
      StepSound(q);
      StepDecreases(q);
      assert Run(p) == Run(q) == Run(Step(q).p);
      RunSound(Step(q).p);
      assert Step(q).p.complete[|p.complete|].headers == p.msg.headers;
    }
  }

  lemma BodyKeeps(m: Message, input: string)
    ensures ReadInBody(m, input).Got? ==> ReadInBody(m, input).m.headers == m.headers
  {
    hide Chunk.Read;
  }

  lemma OnlyIfPrintable(kind: Kind, head: bool, r: RawMessage, m: Message)
    requires WellFormed(kind, head, r) && (head ==> kind == Response) && m == MessageOf(kind, head, r)
    requires Parse(NewParser(kind, HeadsFor(kind, head)), Print(m)) == Ok(Parser(kind, "", NewMessage(kind), [m], []))
    ensures PrintableHeaders(m.headers)
  {
    hide Find, FramingOf, BodyFits, Run, PrintableHeaders, Blank, Block, ParseHeader, Headers, Print;
    PrintedText(m);
    RenderNonempty(RawOf(m));
    var p := Feed(NewParser(kind, HeadsFor(kind, head)), Print(m));
    assert p.buffer == Print(m);
    HeadersReadBack(p, r.lines, m);
  }

  /** If the text of a parsed message gives a message with the same headers, they are printable. */
  lemma HeadersReadBack(p: Parser, lines: seq<string>, m: Message)
    requires AtBoundary(p) && ReachesBody(p) && FirstMessageHeaders(p) == m.headers
    requires HeaderLines(lines) && m.headers == Headers(lines) && Free(m.firstLine, CRLF)
    requires p.buffer == Print(m) == Render(RawOf(m))
    ensures PrintableHeaders(m.headers)
  {
    hide Find, Run, PrintableHeaders, Blank, Block, ParseHeader, Headers, Print, ReachesBody, FirstMessageHeaders;
    var first, found, text := FirstHeaders(p);
    var s := RawMessage(first, found, text);
    assert Render(RawOf(m)) + "" == Print(m) == Render(s) == Render(s) + "";
    ReprintLines(lines);
    RenderUnique(RawOf(m), "", s, "");
    ReadBack(m.headers);
  }

  // ---------------------------------------------------------------- up to the end of the input

  /** The proxy's own path: a message parsed from a stream, whether its text or the end of the input finished
      it, printed, and parsed again by the next hop up to the end of the input, comes out the same exactly
      when none of its header values is only spaces. If its text finished it, the end of the input is not
      needed. */
  lemma ReprintExactly(kind: Kind, head: bool, r: RawMessage)
    requires (WellFormed(kind, head, r) || WellFormedToEnd(kind, head, r)) && (head ==> kind == Response)
    ensures var m := MessageOf(kind, head, r);
      var o := Parse(NewParser(kind, HeadsFor(kind, head)), Print(m));
      var same := Ok(Parser(kind, "", NewMessage(kind), [m], []));
      var clean := forall i :: 0 <= i < |m.headers| ==> !Blank(m.headers[i].value);
      (Then(o, "") == same <==> clean) && (WellFormed(kind, head, r) ==> (o == same <==> clean))
  {
    hide Find, FramingOf, Parse, HeaderLines, Print, PrintableHeaders, Blank, Block, Headers, Unended, BodyFits;
    var m := MessageOf(kind, head, r);
    var o := Parse(NewParser(kind, HeadsFor(kind, head)), Print(m));
    var same := Parser(kind, "", NewMessage(kind), [m], []);
    ReprintLines(r.lines);
    if WellFormed(kind, head, r) {
      ReprintWellFormed(kind, head, r);
      IdleEnd(same);
    } else if PrintableHeaders(m.headers) {
      ToEndIfPrintable(kind, head, r, m);
    }
    if Then(o, "") == Ok(same) { ToEndOnlyIfPrintable(kind, head, r, m); }
  }

  lemma IdleEnd(p: Parser)
    requires AtBoundary(p) && p.buffer == ""
    ensures Parse(p, "") == Ok(p)
  {
    EmptyStops(p);
    assert p.(msg := p.msg) == p;
  }

  lemma ToEndIfPrintable(kind: Kind, head: bool, r: RawMessage, m: Message)
    requires WellFormedToEnd(kind, head, r) && m == MessageOf(kind, head, r) && PrintableHeaders(m.headers)
    ensures Then(Parse(NewParser(kind, HeadsFor(kind, head)), Print(m)), "")
            == Ok(Parser(kind, "", NewMessage(kind), [m], []))
  {
    hide Find, FramingOf, Parse, HeaderLines, Print, PrintableHeaders, Headers, Unended;
    OnlyResponsesToEnd(kind, head, r);
    assert PrintableToEnd(head, m);
    assert RestAfter(Response, [head], 0) == [head] && [head][1..] == [] && PrintAll([]) == "";
    PrintParseToEnd([head], [], m);
    assert "" + Print(m) == Print(m) && [] + [m] == [m];
  }

  lemma OnlyResponsesToEnd(kind: Kind, head: bool, r: RawMessage)
    requires WellFormedToEnd(kind, head, r)
    ensures kind == Response
  {
    hide FramingOf, HeaderLines, Find;
    OnlyResponses(kind, r.first, Headers(r.lines), head);
  }

  /** A run that stops before a first line has nothing left to do. */
  lemma {:induction false} StopsForGood(p: Parser)
    requires Run(p).Ok? && Run(p).p.msg.state.FirstLinePending?
    ensures Run(Run(p).p) == Run(p)
    decreases |p.buffer|, Rank(p.msg.state)
  {
    hide Find, ReadInBody, ParseHeader, DoneWithHeaders;
    match Step(p)
    case Go(q) =>
      StepDecreases(p);
      StopsForGood(q);
    case Stop(q) =>
    case Fail =>
  }

  /** What the end of the input leaves, if it leaves one message. */
  lemma OneAtEnd(p: Parser, m: Message)
    requires Sound(p) && p.complete == [] && Then(Run(p), "").Ok? && Then(Run(p), "").p.complete == [m]
    ensures ReachesBody(p) && FirstMessageHeaders(p) == m.headers
  {
    hide Run, Valid;
    RunSound(p);
    var q := Run(p).p;
    assert Eof(q.msg).Some?;
    match q.msg.state
    case FirstLinePending =>
      StopsForGood(p);
      assert q.(msg := q.msg) == q;
    case BodyPending =>
      var done := q.(msg := Eof(q.msg).value);
      EofValid(q.msg);
      StepDecreases(done);
      var next := Step(done).p;
      assert next.complete == q.complete + [done.msg];
      assert Run(done) == Run(next) by { RunsOn(done); }
      StepSound(done);
      RunSound(next);
      OnlyOne(q.complete, done.msg, Run(next).p.complete, m);
  }

  lemma OnlyOne(before: seq<Message>, x: Message, all: seq<Message>, m: Message)
    requires before + [x] <= all && all == [m]
    ensures before == [] && x == m
  {
    assert |before + [x]| <= 1;
    assert (before + [x])[0] == all[0];
  }

  lemma RunsOn(p: Parser)
    requires Step(p).Go?
    ensures Run(p) == Run(Step(p).p)
  {
    hide Step;
    StepDecreases(p);
  }

  lemma ToEndOnlyIfPrintable(kind: Kind, head: bool, r: RawMessage, m: Message)
    requires Free(r.first, CRLF) && HeaderLines(r.lines) && m == MessageOf(kind, head, r)
    requires var o := Then(Parse(NewParser(kind, HeadsFor(kind, head)), Print(m)), ""); o.Ok? && o.p.complete == [m]
    ensures PrintableHeaders(m.headers)
  {
    hide Find, FramingOf, Run, HeaderLines, PrintableHeaders, Block, Headers, Print, Eof;
    PrintedText(m);
    RenderNonempty(RawOf(m));
    var p := Feed(NewParser(kind, HeadsFor(kind, head)), Print(m));
    assert p.buffer == Print(m);
    OneAtEnd(p, m);
    HeadersReadBack(p, r.lines, m);
  }

  // ---------------------------------------------------------------- what the end of the input finishes

  /** A body in which the input ends, and which its end can finish, is what its framing leaves open. */
  lemma OpenBodySound(p: Parser, m: Message)
    requires m.state.HeadersPending? && m.body == "" && m.parser == NoParser && p.kind == m.kind
    requires DoneWithHeaders(m) == Some(p.msg) && Run(p).Ok? && !Completes(p)
    requires Run(p).p.msg.state.BodyPending? && Eof(Run(p).p.msg).Some?
    ensures Unended(FramingOf(m.kind, m.firstLine, m.headers, m.wasHead), p.buffer)
  {
    hide FramingOf, Chunk.Read;
    DoneKeeps(m);
    assert Step(p) == BodyBytes(p);
    StepSound(p);
    if Step(p).Go? {
      StepDecreases(p);
      var q := Step(p).p;
      StepSound(q);
      RunsOn(p);
      RunsOn(q);
      RunSound(Step(q).p);
    }
  }

  lemma OpenSound(p: Parser) returns (r: RawMessage)
    requires AtBoundary(p) && Run(p).Ok? && !Completes(p)
    requires Run(p).p.msg.state.BodyPending? && Eof(Run(p).p.msg).Some?
    ensures p.kind == Response ==> p.heads != []
    ensures WellFormedToEnd(p.kind, NextHead(p.kind, p.heads), r) && p.buffer == Render(r)
  {
    hide Find, Run, NoWideChunk, DoneWithHeaders, HeaderLines, Headers, FramingOf, Unended, Eof;
    NeedsLine(p);
    var first, after := LineSplit(p.buffer);
    var p1 := StartMessage(p, first, after);
    assert Step(p) == Go(p1);
    var lines, text, m := HeadersSound(p1);
    var m1 := p1.msg.(headers := p1.msg.headers + Headers(lines));
    assert [] + Headers(lines) == Headers(lines);
    OpenBodySound(p1.(buffer := text, msg := m), m1);
    r := RawMessage(first, lines, text);
    assert p.buffer == Render(r);
  }

  /** What the end of the input leaves: the well-formed messages that the stream begins with, and at most
      one more, which reaches to its end. */
  lemma StreamToEndSound(kind: Kind, heads: seq<bool>, text: string)
    returns (rs: seq<RawMessage>, last: Option<RawMessage>)
    requires text != "" && NoWrap(Feed(NewParser(kind, heads), text))
    requires Then(Parse(NewParser(kind, heads), text), "").Ok?
    ensures AllWellFormed(kind, heads, rs) && forall i :: 0 <= i < |rs| ==> HeaderLines(rs[i].lines)
    ensures var hs := RestAfter(kind, heads, |rs|);
      var done := Then(Parse(NewParser(kind, heads), text), "").p.complete;
      match last
      case None => RenderAll(rs) <= text && done == Messages(kind, heads, rs)
      case Some(r) => (
        (kind == Response ==> hs != []) && WellFormedToEnd(kind, NextHead(kind, hs), r)
        && text == RenderAll(rs) + Render(r)
        && done == Messages(kind, heads, rs) + [MessageOf(kind, NextHead(kind, hs), r)])
  {
    hide Run, NoWideChunk, AllWellFormed, HeaderLines, Eof, Unended, Render, RenderAll, FramingOf, Messages,
      MessageOf, RestAfter, WellFormedToEnd;
    var p := Feed(NewParser(kind, heads), text);
    assert p.buffer == text;
    assert Parse(NewParser(kind, heads), text) == Run(p);
    hide Parse;
    var rest;
    rs, rest := StreamSound(p);
    var ms := Messages(kind, heads, rs);
    assert [] + ms == ms;
    var q := p.(buffer := rest, heads := RestAfter(kind, heads, |rs|), complete := ms);
    assert Run(p) == Run(q);
    last := None;
    var o := Run(q).p;
    EndOfRun(p);
    if o.msg.state.BodyPending? {
      var r := OpenSound(q);
      last := Some(r);
      UntilCloseParse(kind, heads, rs, r);
    }
  }

  /** A run that the end of the input can follow stops between two messages, where that changes nothing,
      or in a body. */
  lemma EndOfRun(p: Parser)
    requires Sound(p) && Then(Run(p), "").Ok?
    ensures var q := Run(p).p;
      if q.msg.state.FirstLinePending? then Then(Run(p), "") == Ok(q) else q.msg.state.BodyPending? && Eof(q.msg).Some?
  {
    hide Run, Valid;
    RunSound(p);
    var q := Run(p).p;
    if q.msg.state.FirstLinePending? {
      StopsForGood(p);
      assert q.(msg := q.msg) == q;
    }
  }
}
