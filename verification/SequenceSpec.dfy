/** The pipelined message parser: unparsed bytes, the message in progress, the finished messages,
    and for responses the queue that says which of them answer a HEAD request. */
module SequenceSpec {
  import opened Machine
  import opened Text
  import opened HttpHeader
  import opened MessageSpec
  import Chunk = ChunkedSpec

  datatype Parser = Parser(
    kind: Kind, buffer: string, msg: Message, complete: seq<Message>, heads: seq<bool>)

  /** `Stop` waits for more input, `Go` continues, `Fail` is a thrown exception or failed assertion. */
  datatype StepResult = Stop(p: Parser) | Go(p: Parser) | Fail

  datatype Outcome = Ok(p: Parser) | Error

  function NewParser(kind: Kind, heads: seq<bool>): Parser {
    Parser(kind, "", NewMessage(kind), [], heads)
  }

  /** One turn through the parser. */
  function Step(p: Parser): StepResult {
    match p.msg.state
    case FirstLinePending =>
      var it := Find(p.buffer, CRLF);
      if it == -1 then Stop(p)
      else if p.kind == Response && p.heads == [] then Fail
      else Go(StartMessage(p, p.buffer[..it], p.buffer[it + 2..]))
    case HeadersPending =>
      var it := Find(p.buffer, CRLF);
      if it == -1 then Stop(p)
      else HeaderLine(p, p.buffer[..it], p.buffer[it + 2..])
    case BodyPending => BodyBytes(p)
    case Complete => Go(p.(complete := p.complete + [p.msg], msg := NewMessage(p.kind)))
  }

  function StartMessage(p: Parser, line: string, rest: string): Parser
    requires p.kind == Response ==> p.heads != []
  {
    p.(buffer := rest,
       msg := p.msg.(state := HeadersPending, firstLine := line,
                     wasHead := p.msg.wasHead || (p.kind == Response && p.heads[0])),
       heads := if p.kind == Response then p.heads[1..] else p.heads)
  }

  function HeaderLine(p: Parser, line: string, rest: string): StepResult {
    if line == "" then
      match DoneWithHeaders(p.msg)
      case None => Fail
      case Some(m) => Go(p.(buffer := rest, msg := m))
    else
      match ParseHeader(line)
      case None => Fail
      case Some(h) => Go(p.(buffer := rest, msg := p.msg.(headers := p.msg.headers + [h])))
  }

  function BodyBytes(p: Parser): StepResult {
    match ReadInBody(p.msg, p.buffer)
    case Threw => Fail
    case Got(n, m) =>
      if n > |p.buffer| || (n != |p.buffer| && !m.state.Complete?) then Fail
      else
        var q := p.(buffer := p.buffer[n..], msg := m);
        if m.state.Complete? then Go(q) else Stop(q)
  }

  function Rank(s: Progress): nat {
    match s
    case BodyPending => 2
    case Complete => 1
    case _ => 0
  }

  /** Every turn that asks for another one shortens the buffer, or keeps it and lowers the rank. */
  lemma StepDecreases(p: Parser)
    requires Step(p).Go?
    ensures |Step(p).p.buffer| < |p.buffer|
            || (|Step(p).p.buffer| == |p.buffer| && Rank(Step(p).p.msg.state) < Rank(p.msg.state))
  {
    hide Find, ReadInBody, ParseHeader, FramingOf;
  }

  /** Turns until one has to wait for more input or fails. */
  function Run(p: Parser): Outcome
    decreases |p.buffer|, Rank(p.msg.state)
  {
    match Step(p)
    case Stop(q) => Ok(q)
    case Go(q) => StepDecreases(p); Run(q)
    case Fail => Error
  }

  function Feed(p: Parser, s: string): Parser {
    p.(buffer := p.buffer + s)
  }

  /** `parse`: the empty string is the end of the input. */
  function Parse(p: Parser, buf: string): Outcome {
    if buf == "" then
      match Eof(p.msg)
      case None => Error
      case Some(m) => Run(p.(msg := m))
    else Run(Feed(p, buf))
  }

  // ---------------------------------------------------------------- invariants

  predicate Sound(p: Parser) {
    Valid(p.msg) && p.msg.kind == p.kind
  }

  /** Between calls the message in progress is never complete. */
  predicate Ready(p: Parser) {
    Sound(p) && !p.msg.state.Complete?
  }

  /** Bytes received for which the parser has not decided yet. */
  function Pending(p: Parser): nat {
    |p.buffer| + if p.msg.parser.Chunked? then |p.msg.parser.c.buffer| else 0
  }

  lemma StepSound(p: Parser)
    requires Sound(p)
    ensures match Step(p)
      case Go(q) => Sound(q) && Pending(q) <= Pending(p) && p.complete <= q.complete
      case Stop(q) => Ready(q) && Pending(q) <= Pending(p) && q.complete == p.complete
        && (q.msg.state.BodyPending? ==> q.buffer == "")
      case Fail => true
  {
    hide Find, ParseHeader, FramingOf, Chunk.Read, Chunk.Valid;
    FreshValid();
    if p.msg.state.BodyPending? {
      ReadInBodySafe(p.msg, p.buffer);
      if p.msg.parser.Chunked? { Chunk.ReadSafe(p.msg.parser.c, p.buffer); }
    }
  }

  lemma FreshValid()
    ensures forall t :: Chunk.Valid(Chunk.Fresh(t))
  {
  }

  lemma {:induction false} RunSound(p: Parser)
    requires Sound(p)
    ensures match Run(p)
      case Ok(q) => Ready(q) && Pending(q) <= Pending(p) && p.complete <= q.complete
      case Error => true
    decreases |p.buffer|, Rank(p.msg.state)
  {
    hide Step;
    StepSound(p);
    if Step(p).Go? {
      StepDecreases(p);
      RunSound(Step(p).p);
    }
  }

  /** Every call, at any point of any run, leaves the parser ready for the next: the message in
      progress is never complete, so the assertion in `eof` is unreachable. */
  lemma ParseSound(p: Parser, buf: string)
    requires Ready(p)
    ensures match Parse(p, buf)
      case Ok(q) => Ready(q) && Pending(q) <= Pending(p) + |buf| && p.complete <= q.complete
      case Error => true
  {
    hide Run;
    if buf == "" {
      if Eof(p.msg).Some? { RunSound(p.(msg := Eof(p.msg).value)); }
    } else {
      RunSound(Feed(p, buf));
    }
  }

  // ---------------------------------------------------------------- segmentation

  /** Input of n more bytes cannot change what the chunk parser makes of what is buffered. Only a chunk
      size of 2^32-2 or more could let that happen, in a buffer of at least 2^32 bytes. */
  ghost predicate Splits(m: Message, buffer: string, n: nat) {
    m.state.BodyPending? && m.parser.Chunked? ==> Chunk.NarrowRun(Chunk.Append(m.parser.c, buffer), n)
  }

  /** Having read `used` bytes, the body goes on reading the next segment unless it is finished. */
  function ReadOn(r: BodyRead, used: nat, y: string): BodyRead {
    if r.Threw? || r.m.state.Complete? then r
    else
      var more := ReadInBody(r.m, y);
      if more.Threw? then Threw else Got(used + more.n, more.m)
  }

  lemma ReadInBodyAppend(m: Message, x: string, y: string)
    requires Valid(m) && m.state.BodyPending? && Splits(m, x, |y|)
    ensures ReadInBody(m, x + y) == ReadOn(ReadInBody(m, x), |x|, y)
  {
    hide Chunk.Read, Chunk.Valid, Chunk.NarrowRun;
    ReadInBodySafe(m, x);
    match m.parser
    case Chunked(c) => ChunkedBodyAppend(m, c, x, y);
    case Rule5 => assert m.body + (x + y) == m.body + x + y;
    case NoParser => KnownBodyAppend(m, x, y);
  }

  /** What a body of known size takes of the input. */
  lemma KnownBodyRead(m: Message, input: string, n: nat)
    requires m.sizeKnown && |m.body| <= m.size && n == Min(m.size - |m.body|, |input|)
    ensures var r := m.(body := m.body + input[..n]);
      ReadInBody(m, input) == Got(n, if |m.body| + n == m.size then Finish(r) else r)
  {
    hide Chunk.Read;
  }

  lemma KnownBodyAppend(m: Message, x: string, y: string)
    requires m.sizeKnown && |m.body| <= m.size
    ensures var n := Min(m.size - |m.body|, |x|);
      if |m.body| + n == m.size then ReadInBody(m, x + y) == ReadInBody(m, x)
      else var k := ReadInBody(ReadInBody(m, x).m, y);
        k.Got? && ReadInBody(m, x + y) == Got(|x| + k.n, k.m)
  {
    hide ReadInBody, Finish;
    var n := Min(m.size - |m.body|, |x|);
    KnownBodyRead(m, x, n);
    if |m.body| + n == m.size {
      assert (x + y)[..n] == x[..n];
      KnownBodyRead(m, x + y, n);
    } else {
      var k := Min(m.size - |m.body| - n, |y|);
      assert x[..n] == x;
      SplitBody(m.body, x, y, k);
      KnownBodyRead(m, x + y, |x| + k);
      KnownBodyRead(m.(body := m.body + x), y, k);
    }
  }

  lemma SplitBody(body: string, x: string, y: string, k: nat)
    requires k <= |y|
    ensures body + (x + y)[..|x| + k] == body + x + y[..k]
  {
    assert (x + y)[..|x| + k] == x + y[..k];
  }

  lemma ChunkedBodyAppend(m: Message, c: Chunk.ChunkState, x: string, y: string)
    requires m.state.BodyPending? && !m.sizeKnown && m.parser == Chunked(c) && Chunk.Valid(c)
    requires Chunk.NarrowRun(Chunk.Append(c, x), |y|)
    ensures ReadInBody(m, x + y) == ReadOn(ReadInBody(m, x), |x|, y)
  {
    hide Chunk.Read, Chunk.Valid, Chunk.NarrowRun;
    Chunk.ReadSafe(c, x);
    Chunk.ReadAppend(c, x, y);
    match Chunk.Read(c, x)
    case Fail(_) =>
    case Done(n, _) => assert (x + y)[..n] == x[..n];
    case More(d) =>
      Chunk.ReadSafe(d, y);
      assert m.body + (x + y) == m.body + x + y;
      match Chunk.Read(d, y)
      case Done(k, _) => SplitBody(m.body, x, y, k);
      case _ =>
  }

  lemma StepFeed(p: Parser, y: string)
    requires Sound(p) && Splits(p.msg, p.buffer, |y|)
    ensures match Step(p)
      case Fail => Step(Feed(p, y)) == Fail
      case Go(q) => Step(Feed(p, y)) == Go(Feed(q, y))
      case Stop(q) => Step(Feed(p, y)) == Step(Feed(q, y)) && q.msg.state == p.msg.state
  {
    hide Find, ParseHeader, FramingOf, ReadInBody, Valid, Splits;
    match p.msg.state
    case Complete =>
    case BodyPending => BodyFeed(p, y);
    case _ =>
      FindExtend(p.buffer, y, CRLF);
      var it := Find(p.buffer, CRLF);
      if it != -1 {
        assert (p.buffer + y)[..it] == p.buffer[..it];
        assert (p.buffer + y)[it + 2..] == p.buffer[it + 2..] + y;
      }
  }

  lemma BodyFeed(p: Parser, y: string)
    requires Sound(p) && p.msg.state.BodyPending? && Splits(p.msg, p.buffer, |y|)
    ensures match BodyBytes(p)
      case Fail => BodyBytes(Feed(p, y)) == Fail
      case Go(q) => BodyBytes(Feed(p, y)) == Go(Feed(q, y))
      case Stop(q) => q.msg.state.BodyPending? && BodyBytes(Feed(p, y)) == BodyBytes(Feed(q, y))
  {
    hide ReadInBody, Valid, Splits;
    var x := p.buffer;
    ReadInBodySafe(p.msg, x);
    ReadInBodyAppend(p.msg, x, y);
    match ReadInBody(p.msg, x)
    case Threw =>
    case Got(n, m) =>
      if m.state.Complete? {
        assert (x + y)[n..] == x[n..] + y;
      } else {
        assert x[n..] + y == y;
        match ReadInBody(m, y)
        case Threw =>
        case Got(k, _) =>
          ReadInBodySafe(m, y);
          assert (x + y)[|x| + k..] == y[k..];
      }
  }

  /** `Splits` at every turn of the run. */
  ghost predicate SplitsRun(p: Parser, n: nat)
    decreases |p.buffer|, Rank(p.msg.state)
  {
    Splits(p.msg, p.buffer, n) && (Step(p).Go? ==> (StepDecreases(p); SplitsRun(Step(p).p, n)))
  }

  /** Running on a longer buffer is running on the prefix and then on what is left plus the rest. */
  lemma {:induction false} RunFeed(p: Parser, y: string)
    requires Sound(p) && SplitsRun(p, |y|)
    ensures Run(Feed(p, y)) == match Run(p) case Ok(q) => Run(Feed(q, y)) case Error => Error
    decreases |p.buffer|, Rank(p.msg.state)
  {
    hide Step, Sound, Splits;
    StepFeed(p, y);
    StepSound(p);
    if Step(p).Go? {
      StepDecreases(p);
      RunFeed(Step(p).p, y);
    }
  }

  // ---------------------------------------------------------------- when input splits

  /** So few bytes are pending and arriving that the size of a chunk cannot matter. */
  predicate Fits(p: Parser, n: nat) {
    Pending(p) + n < TWO32
  }

  lemma {:induction false} FitsSplits(p: Parser, n: nat)
    requires Sound(p) && Fits(p, n)
    ensures SplitsRun(p, n)
    decreases |p.buffer|, Rank(p.msg.state)
  {
    hide Step, Sound, Chunk.NarrowRun;
    if p.msg.parser.Chunked? { Chunk.ShortIsNarrow(Chunk.Append(p.msg.parser.c, p.buffer), n); }
    StepSound(p);
    if Step(p).Go? {
      StepDecreases(p);
      FitsSplits(Step(p).p, n);
    }
  }

  /** The run over this buffer comes to no chunk with a size of 2^32-2 or more. */
  ghost predicate NoWideChunk(p: Parser)
    decreases |p.buffer|, Rank(p.msg.state)
  {
    TameHere(p) && (Step(p).Go? ==> (StepDecreases(p); NoWideChunk(Step(p).p)))
  }

  ghost predicate TameHere(p: Parser) {
    p.msg.state.BodyPending? && p.msg.parser.Chunked? ==> Chunk.Tame(Chunk.Append(p.msg.parser.c, p.buffer))
  }

  lemma TameHereSplits(p: Parser, y: string)
    requires TameHere(Feed(p, y))
    ensures TameHere(p) && Splits(p.msg, p.buffer, |y|)
  {
    hide Chunk.Tame, Chunk.NarrowRun;
    if p.msg.state.BodyPending? && p.msg.parser.Chunked? {
      var c := p.msg.parser.c;
      assert c.buffer + (p.buffer + y) == c.buffer + p.buffer + y;
      Chunk.TamePrefix(Chunk.Append(c, p.buffer), y);
      Chunk.TameShorter(Chunk.Append(c, p.buffer), y);
    }
  }

  /** A stream without wide chunks can be split anywhere, and neither part has one. */
  lemma {:induction false} NoWideChunkSplits(p: Parser, y: string)
    requires Sound(p) && NoWideChunk(Feed(p, y))
    ensures SplitsRun(p, |y|) && NoWideChunk(p)
    ensures Run(p).Ok? ==> NoWideChunk(Feed(Run(p).p, y))
    decreases |p.buffer|, Rank(p.msg.state)
  {
    hide Step, Sound, Splits, TameHere;
    TameHereSplits(p, y);
    StepFeed(p, y);
    StepSound(p);
    match Step(p)
    case Go(q) =>
      StepDecreases(p);
      StepDecreases(Feed(p, y));
      NoWideChunkSplits(q, y);
    case Stop(q) => StoppedIsTame(p, q, y);
    case Fail =>
  }

  lemma StoppedIsTame(p: Parser, q: Parser, y: string)
    requires Sound(p) && Step(p) == Stop(q) && NoWideChunk(Feed(p, y)) && Step(Feed(p, y)) == Step(Feed(q, y))
    ensures NoWideChunk(Feed(q, y))
  {
    hide Find, ParseHeader, FramingOf, Chunk.Tame, Chunk.Loop, Valid;
    if p.msg.state.BodyPending? && p.msg.parser.Chunked? { StoppedInChunks(p, q, y); }
    if Step(Feed(q, y)).Go? { StepDecreases(Feed(q, y)); }
  }

  lemma StoppedInChunks(p: Parser, q: Parser, y: string)
    requires Sound(p) && p.msg.state.BodyPending? && p.msg.parser.Chunked?
    requires BodyBytes(p) == Stop(q) && TameHere(Feed(p, y))
    ensures TameHere(Feed(q, y))
  {
    hide Chunk.Tame, Chunk.Loop;
    var c, x := p.msg.parser.c, p.buffer;
    Chunk.ReadSafe(c, x);
    var d := Chunk.Loop(Chunk.Append(c, x), |x|);
    assert c.buffer + (x + y) == c.buffer + x + y;
    assert d.More? && q.msg.parser == Chunked(d.c) && q.buffer == "";
    Chunk.TameRest(Chunk.Append(c, x), |x|, y);
    assert "" + y == y;
  }

  /** A call that may be cut up: it is short, or it announces no wide chunk. */
  ghost predicate MaySplit(p: Parser, a: string) {
    Fits(p, |a|) || NoWideChunk(Feed(p, a))
  }

  lemma MaySplitRun(p: Parser, a: string, b: string)
    requires Ready(p) && MaySplit(p, a + b) && a != ""
    ensures SplitsRun(Feed(p, a), |b|)
    ensures Parse(p, a).Ok? ==> MaySplit(Parse(p, a).p, b)
  {
    hide SplitsRun, NoWideChunk, Run, Valid;
    assert p.buffer + (a + b) == p.buffer + a + b;
    if Fits(p, |a + b|) {
      FitsSplits(Feed(p, a), |b|);
      ParseSound(p, a);
    } else {
      NoWideChunkSplits(Feed(p, a), b);
    }
  }

  function Then(o: Outcome, buf: string): Outcome {
    match o
    case Error => Error
    case Ok(q) => Parse(q, buf)
  }

  /** Segmentation independence: one call with a + b ends in exactly the state (or error) of a call
      with a followed by a call with b. */
  lemma ParseSplit(p: Parser, a: string, b: string)
    requires Ready(p) && a != "" && b != "" && MaySplit(p, a + b)
    ensures Parse(p, a + b) == Then(Parse(p, a), b)
  {
    hide Run, MaySplit, SplitsRun, Valid;
    MaySplitRun(p, a, b);
    RunFeed(Feed(p, a), b);
    assert p.buffer + (a + b) == p.buffer + a + b;
  }

  // ---------------------------------------------------------------- whole streams

  function ParseAll(o: Outcome, segments: seq<string>): Outcome
    decreases |segments|
  {
    if segments == [] then o else ParseAll(Then(o, segments[0]), segments[1..])
  }

  /** Each segment is nonempty, and when it arrives it may be cut up. */
  ghost predicate AllMaySplit(o: Outcome, segments: seq<string>)
    decreases |segments|
  {
    segments == [] || o.Error?
    || (segments[0] != "" && MaySplit(o.p, segments[0]) && AllMaySplit(Then(o, segments[0]), segments[1..]))
  }

  /** In a stream without wide chunks every segment may be cut up. */
  lemma {:induction false} NoWideChunkAll(p: Parser, segments: seq<string>)
    requires Ready(p) && NoWideChunk(Feed(p, Concat(segments)))
    requires forall i :: 0 <= i < |segments| ==> segments[i] != ""
    ensures AllMaySplit(Ok(p), segments)
    decreases |segments|
  {
    hide NoWideChunk, Run, Valid;
    if segments != [] {
      var a, rest := segments[0], Concat(segments[1..]);
      assert p.buffer + (a + rest) == p.buffer + a + rest;
      NoWideChunkSplits(Feed(p, a), rest);
      ParseSound(p, a);
      if Parse(p, a).Ok? { NoWideChunkAll(Parse(p, a).p, segments[1..]); }
    }
  }

  /** The finest segmentation: one byte at a time. */
  function ParseBytes(o: Outcome, s: string): Outcome
    decreases |s|
  {
    if s == "" then o else ParseBytes(Then(o, s[..1]), s[1..])
  }

  lemma {:induction false} ParseBytesError(s: string)
    ensures ParseBytes(Error, s) == Error
  {
    if s != "" { ParseBytesError(s[1..]); }
  }

  lemma {:induction false} ParseAllError(segments: seq<string>)
    ensures ParseAll(Error, segments) == Error
  {
    if segments != [] { ParseAllError(segments[1..]); }
  }

  lemma {:induction false} SegmentIsBytes(p: Parser, a: string)
    requires Ready(p) && a != "" && MaySplit(p, a)
    ensures Parse(p, a) == ParseBytes(Ok(p), a)
    decreases |a|
  {
    hide Parse, Ready, MaySplit;
    if |a| == 1 {
      assert a[..1] == a;
    } else {
      assert a == a[..1] + a[1..];
      ParseSplit(p, a[..1], a[1..]);
      MaySplitRun(p, a[..1], a[1..]);
      ParseSound(p, a[..1]);
      match Parse(p, a[..1])
      case Error => ParseBytesError(a[1..]);
      case Ok(q) => SegmentIsBytes(q, a[1..]);
    }
  }

  lemma {:induction false} ParseBytesConcat(o: Outcome, s: string, t: string)
    ensures ParseBytes(o, s + t) == ParseBytes(ParseBytes(o, s), t)
    decreases |s|
  {
    if s == "" {
      assert s + t == t;
    } else {
      assert (s + t)[..1] == s[..1] && (s + t)[1..] == s[1..] + t;
      ParseBytesConcat(Then(o, s[..1]), s[1..], t);
    }
  }

  lemma {:induction false} StreamIsBytes(o: Outcome, segments: seq<string>)
    requires o.Ok? ==> Ready(o.p)
    requires AllMaySplit(o, segments)
    ensures ParseAll(o, segments) == ParseBytes(o, Concat(segments))
    decreases |segments|
  {
    hide Parse, Ready, MaySplit;
    if o.Error? {
      ParseAllError(segments);
      ParseBytesError(Concat(segments));
    } else if segments != [] {
      SegmentIsBytes(o.p, segments[0]);
      ParseSound(o.p, segments[0]);
      StreamIsBytes(Then(o, segments[0]), segments[1..]);
      ParseBytesConcat(o, segments[0], Concat(segments[1..]));
    }
  }

  /** Any two ways of cutting the same stream into segments end in the same state: the same finished
      messages, the same message in progress down to its chunk parser, or the same error. */
  lemma SegmentationIndependence(p: Parser, xs: seq<string>, ys: seq<string>)
    requires Ready(p) && Concat(xs) == Concat(ys)
    requires AllMaySplit(Ok(p), xs) && AllMaySplit(Ok(p), ys)
    ensures ParseAll(Ok(p), xs) == ParseAll(Ok(p), ys)
  {
    StreamIsBytes(Ok(p), xs);
    StreamIsBytes(Ok(p), ys);
  }
}
