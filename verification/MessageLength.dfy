/** How long a message is, rule by rule as section 4.4 of RFC 2616 lists them, and what the parser makes of
    a message that follows them. */
module MessageLength {
  import opened Text
  import opened HttpHeader
  import opened Tokenize
  import opened MessageSpec
  import opened SequenceSpec
  import opened SequenceGrammar
  import opened SequenceErrors
  import Chunk = ChunkedSpec
  import Grammar = ChunkedGrammar

  // ---------------------------------------------------------------- the status line

  predicate StatusLine(first: string, version: string, code: string, reason: string) {
    first == version + " " + code + " " + reason && ' ' !in version && ' ' !in code
  }

  /** The code of a status line is its second word; a line with fewer than two spaces has none. */
  lemma StatusLineExactly(first: string, code: string)
    ensures StatusCode(first) == Some(code) <==> exists version, reason :: StatusLine(first, version, code, reason)
  {
    hide Tokens;
    if exists version, reason :: StatusLine(first, version, code, reason) {
      var version, reason :| StatusLine(first, version, code, reason);
      StatusLineTokens(first, version, code, reason);
    }
    if StatusCode(first) == Some(code) {
      var version, reason := StatusLineParts(first, code);
    }
  }

  lemma StatusLineTokens(first: string, version: string, code: string, reason: string)
    requires StatusLine(first, version, code, reason)
    ensures StatusCode(first) == Some(code)
  {
    hide Tokens;
    var rest := code + " " + reason;
    assert first == version + (" " + rest) && (" " + rest)[1..] == rest;
    FirstToken(first, ' ', version, " " + rest);
    assert rest == code + (" " + reason) && (" " + reason)[1..] == reason;
    FirstToken(rest, ' ', code, " " + reason);
  }

  lemma StatusLineParts(first: string, code: string) returns (version: string, reason: string)
    requires StatusCode(first) == Some(code)
    ensures StatusLine(first, version, code, reason)
  {
    hide Tokens;
    var after;
    version, after := FirstSplits(first, ' ');
    FirstToken(first, ' ', version, after);
    var second, last := FirstSplits(after[1..], ' ');
    FirstToken(after[1..], ' ', second, last);
    reason := last[1..];
    assert after == " " + after[1..] && last == " " + reason;
    assert second == code;
    assert first == version + " " + code + " " + reason;
  }

  // ---------------------------------------------------------------- the rules

  /** Rule 1: no body, whatever the headers say. */
  predicate NeverHasBody(code: string, head: bool)
    requires code != ""
  {
    code[0] == '1' || code == "204" || code == "304" || head
  }

  /** Rule 2: the last transfer coding is the chunked one. */
  ghost predicate IsChunked(headers: seq<Header>) {
    var value := Lookup(headers, "Transfer-Encoding");
    value.Some? && exists before, last :: IsLast(value.value, ',', before, last) && SameName(last, "chunked")
  }

  predicate HasTrailers(headers: seq<Header>) {
    Lookup(headers, "Trailer").Some?
  }

  /** Rule 3: without a transfer coding, a content length counts. */
  predicate HasLength(headers: seq<Header>) {
    Lookup(headers, "Transfer-Encoding").None? && Lookup(headers, "Content-Length").Some?
  }

  ghost predicate LengthIs(headers: seq<Header>, n: nat) {
    Lookup(headers, "Content-Length").Some?
    && NumeralOf(Lookup(headers, "Content-Length").value, 10, n) && n <= 0x7FFF_FFFF_FFFF_FFFF
  }

  /** Rule 4: a media type that delimits itself, which is not supported; nor is an empty one. */
  ghost predicate IsMultipart(headers: seq<Header>) {
    var value := Lookup(headers, "Content-Type");
    value.Some? && exists mime, after :: IsFirst(value.value, ';', mime, after)
                                         && (mime == "" || SameName(mime, "multipart/byteranges"))
  }

  /** The body of a response ends with this text. */
  ghost predicate ResponseBodyIs(code: string, headers: seq<Header>, head: bool, body: string)
    requires code != ""
  {
    if NeverHasBody(code, head) then body == ""
    else if IsChunked(headers) then Grammar.IsBodyText(body, HasTrailers(headers))
    else HasLength(headers) && LengthIs(headers, |body|)
  }

  /** This text is a body of the response to which more can be added until the input ends. */
  ghost predicate ResponseBodyOpen(code: string, headers: seq<Header>, head: bool, body: string)
    requires code != ""
  {
    !NeverHasBody(code, head)
    && if IsChunked(headers) then Chunk.Read(Chunk.Fresh(HasTrailers(headers)), body).More?
       else !HasLength(headers) && !IsMultipart(headers)
  }

  /** The rules give the response no length. */
  ghost predicate ResponseRejected(code: string, headers: seq<Header>, head: bool)
    requires code != ""
  {
    !NeverHasBody(code, head) && !IsChunked(headers)
    && if HasLength(headers) then forall n: nat :: !LengthIs(headers, n) else IsMultipart(headers)
  }

  lemma ChunkedExactly(value: string)
    ensures LastTokenIs(value, "chunked")
            <==> exists before, last :: IsLast(value, ',', before, last) && SameName(last, "chunked")
  {
    hide Tokens, Equivalent, SameName;
    var before, last := LastSplits(value, ',');
    LastToken(value, ',', before, last);
    EquivalentExactly(last, "chunked");
    if exists b, l :: IsLast(value, ',', b, l) && SameName(l, "chunked") {
      var b, l :| IsLast(value, ',', b, l) && SameName(l, "chunked");
      LastToken(value, ',', b, l);
    }
  }

  lemma MultipartExactly(value: string)
    ensures HasNoLength(Tokens(value, ';')[0])
            <==> exists mime, after :: IsFirst(value, ';', mime, after)
                                       && (mime == "" || SameName(mime, "multipart/byteranges"))
  {
    hide Tokens, Equivalent, SameName;
    var mime, after := FirstSplits(value, ';');
    FirstToken(value, ';', mime, after);
    EquivalentExactly(mime, "multipart/byteranges");
    if exists m, a :: IsFirst(value, ';', m, a) && (m == "" || SameName(m, "multipart/byteranges")) {
      var m, a :| IsFirst(value, ';', m, a) && (m == "" || SameName(m, "multipart/byteranges"));
      FirstToken(value, ';', m, a);
    }
  }

  lemma LengthExactly(value: string)
    ensures forall n: nat :: Atoi(value, 10) == Some(n) <==> NumeralOf(value, 10, n) && n <= 0x7FFF_FFFF_FFFF_FFFF
  {
    hide Atoi, NumeralOf;
    forall n: nat ensures Atoi(value, 10) == Some(n) <==> NumeralOf(value, 10, n) && n <= 0x7FFF_FFFF_FFFF_FFFF {
      AtoiExactly(value, 10, n);
    }
  }

  lemma HeaderRules(headers: seq<Header>)
    ensures var f := FramingByHeaders(headers);
      if IsChunked(headers) then f == ByChunks(HasTrailers(headers))
      else if HasLength(headers) then
        (forall n: nat :: f == Known(n) <==> LengthIs(headers, n)) && (f.Known? || f.Unsupported?)
      else f == if IsMultipart(headers) then Unsupported else UntilClose
  {
    hide Lookup, Atoi, NumeralOf, LastTokenIs, HasNoLength, Tokens, SameName;
    var e, l := Lookup(headers, "Transfer-Encoding"), Lookup(headers, "Content-Length");
    var t := Lookup(headers, "Content-Type");
    if e.Some? { ChunkedExactly(e.value); }
    if l.Some? { LengthExactly(l.value); }
    if t.Some? { MultipartExactly(t.value); }
  }

  /** What the parser takes for the body of a response is what the rules say. */
  lemma ResponseBody(first: string, version: string, code: string, reason: string,
                     headers: seq<Header>, head: bool, body: string)
    requires StatusLine(first, version, code, reason) && code != ""
    ensures var f := FramingOf(Response, first, headers, head);
      && (BodyFits(f, body) <==> ResponseBodyIs(code, headers, head, body))
      && (Unended(f, body) <==> ResponseBodyOpen(code, headers, head, body))
      && (f.Unsupported? <==> ResponseRejected(code, headers, head))
  {
    hide Tokens, FramingByHeaders, IsChunked, HasLength, LengthIs, IsMultipart, HasTrailers, Grammar.IsBodyText,
      Chunk.Read;
    StatusLineTokens(first, version, code, reason);
    HeaderRules(headers);
  }

  /** Without a status code there is no length either. */
  lemma NoStatusCode(first: string, headers: seq<Header>, head: bool)
    requires forall version, code, reason :: StatusLine(first, version, code, reason) ==> code == ""
    ensures FramingOf(Response, first, headers, head) == Unsupported
  {
    hide Tokens, FramingByHeaders;
    var o := StatusCode(first);
    if o.Some? { StatusLineExactly(first, o.value); }
  }

  // ---------------------------------------------------------------- parsing

  /** A response that follows the rules is finished with just this body, whatever comes after it. */
  lemma ResponseRead(version: string, code: string, reason: string, lines: seq<string>, body: string,
                     heads: seq<bool>, rest: string)
    requires code != "" && heads != [] && HeaderLines(lines)
    requires var first := version + " " + code + " " + reason;
      StatusLine(first, version, code, reason) && Free(first, CRLF)
    requires ResponseBodyIs(code, Headers(lines), heads[0], body)
    ensures var first := version + " " + code + " " + reason;
      var text := Render(RawMessage(first, lines, body));
      exists m: Message ::
        m.state == Complete && m.firstLine == first && m.headers == Headers(lines) && m.body == body
        && m.wasHead == heads[0]
        && Parse(NewParser(Response, heads), text + rest)
           == Run(Parser(Response, rest, NewMessage(Response), [m], heads[1..]))
  {
    hide Run, NoWideChunk, FramingOf, Headers, HeaderLines, Find, ResponseBodyIs, BodyFits, Render;
    var first := version + " " + code + " " + reason;
    var r := RawMessage(first, lines, body);
    ResponseBody(first, version, code, reason, Headers(lines), heads[0], body);
    var p := Feed(NewParser(Response, heads), Render(r) + rest);
    assert p.buffer == Render(r) + rest;
    RenderNonempty(r);
    MessageRead(p, r, rest);
    var m := MessageOf(Response, heads[0], r);
    assert [] + [m] == [m];
    assert p.(buffer := rest, heads := heads[1..], complete := [] + [m])
           == Parser(Response, rest, NewMessage(Response), [m], heads[1..]);
  }

  /** For a response: a status line without a code, or one of the rejecting rules. */
  lemma ResponseRejectedParse(first: string, lines: seq<string>, heads: seq<bool>, rest: string)
    requires Free(first, CRLF) && HeaderLines(lines) && heads != []
    requires forall version, code, reason :: StatusLine(first, version, code, reason) && code != ""
               ==> ResponseRejected(code, Headers(lines), heads[0])
    ensures Parse(NewParser(Response, heads), Render(RawMessage(first, lines, rest))) == Error
  {
    hide Parse, FramingOf, Headers, HeaderLines, Find, ResponseRejected, StatusLine, Render;
    if version, code, reason :| StatusLine(first, version, code, reason) && code != "" {
      ResponseBody(first, version, code, reason, Headers(lines), heads[0], "");
    } else {
      NoStatusCode(first, Headers(lines), heads[0]);
    }
    NoLength(Response, heads, [], first, lines, rest);
    AloneText(first, lines, rest);
  }

  lemma AloneText(first: string, lines: seq<string>, rest: string)
    ensures RenderAll([]) + (first + CRLF + (Block(lines) + rest)) == Render(RawMessage(first, lines, rest))
  {
    hide Block;
  }

  /** A request with another method than GET, HEAD and POST, or a POST without a content length. */
  predicate RequestRejected(first: string, headers: seq<Header>) {
    !("GET " <= first) && !("HEAD " <= first)
    && !("POST " <= first && Lookup(headers, "Content-Length").Some?
         && Atoi(Lookup(headers, "Content-Length").value, 10).Some?)
  }

  lemma RequestRejectedParse(first: string, lines: seq<string>, rest: string)
    requires Free(first, CRLF) && HeaderLines(lines) && RequestRejected(first, Headers(lines))
    ensures Parse(NewParser(Request, []), Render(RawMessage(first, lines, rest))) == Error
  {
    hide Parse, Headers, HeaderLines, Find, Lookup, Atoi;
    NoLength(Request, [], [], first, lines, rest);
    AloneText(first, lines, rest);
  }
}
