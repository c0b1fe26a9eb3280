/** One HTTP request or response in progress, and the rules of section 4.4 of RFC 2616 for how
    long its body is. */
module MessageSpec {
  import opened Machine
  import opened Text
  import opened HttpHeader
  import opened Tokenize
  import Chunk = ChunkedSpec

  datatype Kind = Request | Response

  datatype Progress = FirstLinePending | HeadersPending | BodyPending | Complete

  datatype BodyParser = NoParser | Rule5 | Chunked(c: Chunk.ChunkState)

  datatype Message = Message(
    kind: Kind, state: Progress, firstLine: string, headers: seq<Header>, body: string,
    sizeKnown: bool, size: nat, wasHead: bool, parser: BodyParser)

  const NPOS := 0xFFFF_FFFF_FFFF_FFFF

  function NewMessage(kind: Kind): Message {
    Message(kind, FirstLinePending, "", [], "", false, NPOS, false, NoParser)
  }

  // ---------------------------------------------------------------- message length

  /** How the end of a body is found; `Unsupported` where the code throws. */
  datatype Framing = Known(n: nat) | ByChunks(trailers: bool) | UntilClose | Unsupported

  function ContentLength(value: string): Framing {
    match Atoi(value, 10)
    case None => Unsupported
    case Some(n) => Known(n)
  }

  function RequestFraming(firstLine: string, headers: seq<Header>): Framing {
    if "GET " <= firstLine || "HEAD " <= firstLine then Known(0)
    else if "POST " <= firstLine then
      match Lookup(headers, "Content-Length")
      case None => Unsupported
      case Some(value) => ContentLength(value)
    else Unsupported
  }

  function StatusCode(firstLine: string): Option<string> {
    var tokens := Tokens(firstLine, ' ');
    if |tokens| < 3 then None else Some(tokens[1])
  }

  function ResponseFraming(firstLine: string, headers: seq<Header>, wasHead: bool): Framing {
    match StatusCode(firstLine)
    case None => Unsupported
    case Some(code) =>
      if code == "" then Unsupported
      else if code[0] == '1' || code == "204" || code == "304" || wasHead then Known(0)
      else FramingByHeaders(headers)
  }

  /** Rules 2 to 5. */
  function FramingByHeaders(headers: seq<Header>): Framing {
    var encoding := Lookup(headers, "Transfer-Encoding");
    var length := Lookup(headers, "Content-Length");
    if encoding.Some? && LastTokenIs(encoding.value, "chunked") then
      ByChunks(Lookup(headers, "Trailer").Some?)
    else if encoding.None? && length.Some? then ContentLength(length.value)
    else
      match Lookup(headers, "Content-Type")
      case None => UntilClose
      case Some(value) => if HasNoLength(Tokens(value, ';')[0]) then Unsupported else UntilClose
  }

  predicate LastTokenIs(list: string, name: string) {
    var tokens := Tokens(list, ',');
    Equivalent(tokens[|tokens| - 1], name)
  }

  predicate HasNoLength(mimeType: string) {
    mimeType == "" || Equivalent(mimeType, "multipart/byteranges")
  }

  function FramingOf(kind: Kind, firstLine: string, headers: seq<Header>, wasHead: bool): Framing {
    match kind
    case Request => RequestFraming(firstLine, headers)
    case Response => ResponseFraming(firstLine, headers, wasHead)
  }

  // ---------------------------------------------------------------- updates

  /** The message at the start of its body, or `None` where an exception is thrown. */
  function DoneWithHeaders(m: Message): Option<Message> {
    match FramingOf(m.kind, m.firstLine, m.headers, m.wasHead)
    case Known(n) => Some(m.(state := BodyPending, sizeKnown := true, size := n))
    case ByChunks(t) =>
      Some(m.(state := BodyPending, sizeKnown := false, size := NPOS, parser := Chunked(Chunk.Fresh(t))))
    case UntilClose => Some(m.(state := BodyPending, sizeKnown := false, size := NPOS, parser := Rule5))
    case Unsupported => None
  }

  /** `Got(n, m)`: n bytes of the input belong to the body, and m is the message with them. */
  datatype BodyRead = Got(n: nat, m: Message) | Threw

  /** A complete message does not keep its body parser, which nothing reads again. */
  function Finish(m: Message): Message {
    m.(state := Complete, parser := NoParser)
  }

  function ReadInBody(m: Message, input: string): BodyRead {
    if m.sizeKnown then
      if |m.body| > m.size then Threw
      else
        var n := Min(m.size - |m.body|, |input|);
        var m' := m.(body := m.body + input[..n]);
        Got(n, if |m'.body| == m.size then Finish(m') else m')
    else
      match m.parser
      case NoParser => Threw
      case Rule5 => Got(|input|, m.(body := m.body + input))
      case Chunked(c) =>
        match Chunk.Read(c, input)
        case More(d) => Got(|input|, m.(body := m.body + input, parser := Chunked(d)))
        case Done(n, _) => if n <= |input| then Got(n, Finish(m.(body := m.body + input[..n]))) else Threw
        case Fail(_) => Threw
  }

  /** End of input: only a response whose length was not known in advance may end here. */
  function Eof(m: Message): Option<Message> {
    match m.state
    case FirstLinePending => Some(m)
    case HeadersPending => None
    case BodyPending => if m.kind == Response && m.parser != NoParser then Some(Finish(m)) else None
    case Complete => None
  }

  /** `str()`: the serialised message. */
  function Print(m: Message): string {
    m.firstLine + CRLF + PrintHeaders(m.headers) + CRLF + m.body
  }

  function PrintHeaders(headers: seq<Header>): string {
    if headers == [] then "" else PrintHeader(headers[0]) + CRLF + PrintHeaders(headers[1..])
  }

  /** The rules about the body parser and the body size that hold at every step. */
  predicate Valid(m: Message) {
    && (m.state.Complete? || m.state.FirstLinePending? || m.state.HeadersPending? ==> m.parser == NoParser)
    && (m.state.BodyPending? && m.sizeKnown ==> m.parser == NoParser && |m.body| <= m.size)
    && (m.state.BodyPending? && !m.sizeKnown ==> m.parser != NoParser)
    && (m.parser.Chunked? ==> Chunk.Valid(m.parser.c))
    && (!m.state.BodyPending? && !m.state.Complete? ==> m.body == "")
  }

  /** Reading in the body never throws on a size or acknowledgement assertion, never claims more
      than it was given, and takes everything unless the message is then complete. */
  lemma ReadInBodySafe(m: Message, input: string)
    requires Valid(m) && m.state.BodyPending?
    ensures m.sizeKnown || m.parser.Rule5? ==> ReadInBody(m, input).Got?
    ensures match ReadInBody(m, input)
      case Threw => (
        m.parser.Chunked? && Chunk.Read(m.parser.c, input).Fail?
        && Chunk.Read(m.parser.c, input).why != Chunk.AckAssert)
      case Got(n, m') => (
        Valid(m') && n <= |input| && m'.body == m.body + input[..n]
        && (n == |input| || m'.state.Complete?) && (m'.state.BodyPending? || m'.state.Complete?))
  {
    hide Chunk.Read, Chunk.Valid;
    match m.parser
    case Chunked(c) => Chunk.ReadSafe(c, input);
    case _ =>
  }
}
