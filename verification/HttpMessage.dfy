/** A request or response as the object that the parser updates piece by piece. */
module HttpMessages {
  import opened Machine
  import opened Text
  import opened HttpHeader
  import opened MessageSpec
  import Spec = MessageSpec
  import Tokenize
  import Chunk = ChunkedSpec
  import opened ChunkedParser

  /** The owned body parser, if any. */
  datatype BodyParserRef = Absent | UntilEof | ChunkedRef(parser: ChunkedBodyParser)

  datatype BodyAnswer = Took(n: nat) | BodyThrew

  class HttpMessage {
    const kind: Kind
    var state: Progress
    var firstLine: string
    var headers: seq<Header>
    var body: string
    var sizeKnown: bool
    var expectedBodySize: nat
    var requestWasHead: bool
    var bodyParser: BodyParserRef

    ghost function Repr(): set<object>
      reads this
    {
      {this} + (if bodyParser.ChunkedRef? then {bodyParser.parser} else {})
    }

    /** The message as a value. A complete message no longer has a use for its body parser. */
    ghost function View(): Message
      reads Repr()
    {
      Message(kind, state, firstLine, headers, body, sizeKnown, expectedBodySize, requestWasHead,
              if state.Complete? then NoParser
              else match bodyParser
                case Absent => NoParser
                case UntilEof => Rule5
                case ChunkedRef(p) => Chunked(p.View()))
    }

    constructor (kind: Kind)
      ensures View() == NewMessage(kind) && fresh(Repr())
    {
      this.kind := kind;
      state, firstLine, headers, body := FirstLinePending, "", [], "";
      sizeKnown, expectedBodySize, requestWasHead, bodyParser := false, NPOS, false, Absent;
    }

    method SetRequestWasHead()
      requires state.FirstLinePending?
      modifies this`requestWasHead
      ensures View() == old(View()).(wasHead := true)
    {
      requestWasHead := true;
    }

    method SetFirstLine(str: string)
      requires state.FirstLinePending?
      modifies this`firstLine, this`state
      ensures View() == old(View()).(firstLine := str, state := HeadersPending)
    {
      firstLine := str;
      state := HeadersPending;
    }

    /** False where the header constructor throws. */
    method AddHeader(str: string) returns (ok: bool)
      requires state.HeadersPending?
      modifies this`headers
      ensures match ParseHeader(str)
        case None => !ok
        case Some(h) => ok && View() == old(View()).(headers := old(headers) + [h])
    {
      var h := ParseHeader(str);
      ok := h.Some?;
      if ok { headers := headers + [h.value]; }
    }

    /** False where the body size cannot be determined and an exception is thrown. */
    method DoneWithHeaders() returns (ok: bool)
      requires state.HeadersPending?
      modifies this
      ensures match Spec.DoneWithHeaders(old(View()))
        case None => !ok
        case Some(m) => ok && View() == m && fresh(Repr() - old(Repr()))
    {
      hide RequestFraming, ResponseFraming;
      state := BodyPending;
      if kind == Request {
        ok := CalculateRequestBodySize();
      } else {
        ok := CalculateResponseBodySize();
      }
    }

    predicate FramedAs(f: Framing)
      reads this
    {
      match f
      case Known(n) => sizeKnown && expectedBodySize == n
      case ByChunks(_) => !sizeKnown && expectedBodySize == NPOS && bodyParser.ChunkedRef?
      case UntilClose => !sizeKnown && expectedBodySize == NPOS && bodyParser.UntilEof?
      case Unsupported => true
    }

    method CalculateRequestBodySize() returns (ok: bool)
      requires state.BodyPending?
      modifies this`sizeKnown, this`expectedBodySize
      ensures var f := RequestFraming(firstLine, headers);
        ok == !f.Unsupported? && FramedAs(f) && !f.ByChunks? && !f.UntilClose?
    {
      if "GET " <= firstLine || "HEAD " <= firstLine {
        sizeKnown, expectedBodySize := true, 0;
        ok := true;
      } else if "POST " <= firstLine {
        var length := GetHeaderValue("Content-Length");
        if length.None? { return false; }
        ok := SetContentLength(length.value);
      } else {
        ok := false;
      }
    }

    method SetContentLength(value: string) returns (ok: bool)
      modifies this`sizeKnown, this`expectedBodySize
      ensures var f := ContentLength(value);
        ok == f.Known? && (ok ==> sizeKnown && expectedBodySize == f.n)
    {
      var n := Atoi(value, 10);
      ok := n.Some?;
      if ok { sizeKnown, expectedBodySize := true, n.value; }
    }

    /** The rules of section 4.4 of RFC 2616, in order. */
    method CalculateResponseBodySize() returns (ok: bool)
      requires state.BodyPending?
      modifies this`sizeKnown, this`expectedBodySize, this`bodyParser
      ensures var f := ResponseFraming(firstLine, headers, requestWasHead);
        ok == !f.Unsupported? && FramedAs(f)
        && (f.Known? ==> bodyParser == old(bodyParser))
        && (f.ByChunks? ==> fresh(bodyParser.parser) && bodyParser.parser.View() == Chunk.Fresh(f.trailers))
    {
      hide FramingByHeaders;
      var tokens := Tokenize.Split(firstLine, ' ');
      if |tokens| < 3 || tokens[1] == "" { return false; }
      var code := tokens[1];
      if code[0] == '1' || code == "204" || code == "304" || requestWasHead {
        sizeKnown, expectedBodySize := true, 0;
        ok := true;
      } else {
        ok := CalculateSizeByHeaders();
      }
    }

    method CalculateSizeByHeaders() returns (ok: bool)
      modifies this`sizeKnown, this`expectedBodySize, this`bodyParser
      ensures var f := FramingByHeaders(headers);
        ok == !f.Unsupported? && FramedAs(f)
        && (f.Known? ==> bodyParser == old(bodyParser))
        && (f.ByChunks? ==> fresh(bodyParser.parser) && bodyParser.parser.View() == Chunk.Fresh(f.trailers))
    {
      hide Lookup, LastTokenIs, HasNoLength, Atoi;
      var encoding := GetHeaderValue("Transfer-Encoding");
      var chunked := false;
      if encoding.Some? { chunked := EndsWithToken(encoding.value, "chunked"); }
      if chunked {
        sizeKnown, expectedBodySize := false, NPOS;
        var trailers := HasHeader("Trailer");
        var parser := new ChunkedBodyParser(trailers);
        bodyParser := ChunkedRef(parser);
        return true;
      }
      var length := GetHeaderValue("Content-Length");
      if encoding.None? && length.Some? {
        ok := SetContentLength(length.value);
      } else {
        ok := CalculateSizeByType();
      }
    }

    /** Rules 4 and 5. */
    method CalculateSizeByType() returns (ok: bool)
      modifies this`sizeKnown, this`expectedBodySize, this`bodyParser
      ensures var value := Lookup(headers, "Content-Type");
        ok == !(value.Some? && HasNoLength(Tokenize.Tokens(value.value, ';')[0]))
        && (ok ==> FramedAs(UntilClose))
    {
      hide Lookup, Equivalent;
      var contentType := GetHeaderValue("Content-Type");
      if contentType.Some? {
        var parts := Tokenize.Split(contentType.value, ';');
        var multipart := EquivalentStrings(parts[0], "multipart/byteranges");
        if parts[0] == "" || multipart { return false; }
      }
      sizeKnown, expectedBodySize := false, NPOS;
      bodyParser := UntilEof;
      ok := true;
    }

    static method EndsWithToken(list: string, name: string) returns (r: bool)
      ensures r == LastTokenIs(list, name)
    {
      hide Equivalent;
      var tokens := Tokenize.Split(list, ',');
      r := EquivalentStrings(tokens[|tokens| - 1], name);
    }

    method ReadInBody(str: string) returns (r: BodyAnswer)
      requires state.BodyPending?
      modifies Repr()
      ensures match Spec.ReadInBody(old(View()), str)
        case Got(n, m) => r == Took(n) && View() == m && Repr() == old(Repr())
        case Threw => r == BodyThrew || (r.Took? && r.n > |str|)
    {
      hide Chunk.Read;
      if sizeKnown {
        if |body| > expectedBodySize { return BodyThrew; }
        var n := Min(expectedBodySize - |body|, |str|);
        body := body + str[..n];
        if |body| == expectedBodySize { state := Complete; }
        r := Took(n);
      } else {
        r := ReadInComplexBody(str);
      }
    }

    method ReadInComplexBody(str: string) returns (r: BodyAnswer)
      requires state.BodyPending? && !sizeKnown
      modifies Repr()
      ensures match Spec.ReadInBody(old(View()), str)
        case Got(n, m) => r == Took(n) && View() == m && Repr() == old(Repr())
        case Threw => r == BodyThrew || (r.Took? && r.n > |str|)
    {
      hide Chunk.Read;
      match bodyParser
      case Absent => r := BodyThrew;
      case UntilEof =>
        body := body + str;
        r := Took(|str|);
      case ChunkedRef(parser) =>
        var answer := parser.Read(str);
        match answer
        case Npos =>
          body := body + str;
          r := Took(|str|);
        case Bytes(n) =>
          body := body + str[..Min(n, |str|)];
          state := Complete;
          r := Took(n);
        case Threw(_) => r := BodyThrew;
    }

    /** End of input; false where an exception is thrown or an assertion fails. */
    method Eof() returns (ok: bool)
      modifies this`state
      ensures match Spec.Eof(old(View()))
        case None => !ok
        case Some(m) => ok && View() == m && Repr() == old(Repr())
    {
      match state
      case FirstLinePending => ok := true;
      case HeadersPending => ok := false;
      case BodyPending =>
        ok := kind == Response && !bodyParser.Absent?;
        if ok { state := Complete; }
      case Complete => ok := false;
    }

    // -------------------------------------------------------------- headers

    static method EquivalentStrings(a: string, b: string) returns (same: bool)
      ensures same == Equivalent(a, b)
    {
      var newA, newB := Strip(a), Strip(b);
      if |newA| != |newB| {
        assert |Lower(newA)| != |Lower(newB)|;
        return false;
      }
      for i := 0 to |newA|
        invariant forall j :: 0 <= j < i ==> ToLower(newA[j]) == ToLower(newB[j])
      {
        if ToLower(newA[i]) != ToLower(newB[i]) {
          assert Lower(newA)[i] != Lower(newB)[i];
          return false;
        }
      }
      assert Lower(newA) == Lower(newB);
      same := true;
    }

    method HasHeader(name: string) returns (found: bool)
      ensures found == Lookup(headers, name).Some?
    {
      var value := GetHeaderValue(name);
      found := value.Some?;
    }

    /** `None` where the lookup throws. */
    method GetHeaderValue(name: string) returns (value: Option<string>)
      ensures value == Lookup(headers, name)
    {
      for i := 0 to |headers|
        invariant Lookup(headers, name) == Lookup(headers[i..], name)
      {
        assert headers[i..][1..] == headers[i + 1..];
        var same := EquivalentStrings(headers[i].key, name);
        if same { return Some(headers[i].value); }
      }
      value := None;
    }
  }
}
