/** The chunked-body parser as a function of its state: a buffered state machine that answers,
    segment by segment, how many bytes of the segment belong to the body. */
module ChunkedSpec {
  import opened Machine
  import opened Text

  datatype Phase = ChunkHdr | Chunk | Trailer

  /** `parsed` and `acked` are absolute byte counts from the start of the body: what the state
      machine has consumed, and what it has told its caller to hand over. */
  datatype ChunkState = ChunkState(
    buffer: string, size: nat, acked: nat, parsed: nat, phase: Phase, trailers: bool)

  datatype Fault = BadSize | MissingCrlf | AckAssert

  /** `More` is the `npos` answer; `Done(n, _)` says the body ends after n bytes of this input. */
  datatype ReadResult = More(c: ChunkState) | Done(n: nat, c: ChunkState) | Fail(why: Fault)

  function Fresh(trailers: bool): ChunkState {
    ChunkState("", 0, 0, 0, ChunkHdr, trailers)
  }

  /** The size in a chunk header line: what precedes the first ';' (or the CRLF), cut at the
      first space, read as hexadecimal and truncated to 32 bits. `None` where it throws. */
  function ChunkSize(header: string): Option<nat> {
    var semi := Find(header, ";");
    var pos := if semi == -1 then Find(header, CRLF) else semi;
    if pos == -1 then None
    else
      var hex := header[..pos];
      var space := Find(hex, " ");
      var digits := if space == -1 then hex else hex[..space];
      match Atoi(digits, 16)
      case None => None
      case Some(v) => Some(Wrap32(v))
  }

  function Needle(c: ChunkState): string {
    if c.trailers then CRLF + CRLF else CRLF
  }

  /** One turn of the `while` loop of `read`: it waits for more input, moves on, finds the end of
      the body (at an absolute count), or fails. */
  datatype Turn = Wait | Next(c: ChunkState) | Ends(parsed: nat) | Broken(why: Fault)

  function Step(c: ChunkState): Turn {
    if c.buffer == "" then Wait
    else match c.phase
      case ChunkHdr => HeaderTurn(c)
      case Chunk => DataTurn(c)
      case Trailer => TrailerTurn(c)
  }

  function HeaderTurn(c: ChunkState): Turn {
    var it := Find(c.buffer, CRLF);
    if it == -1 then Wait
    else match ChunkSize(c.buffer[..it + 2])
      case None => Broken(BadSize)
      case Some(n) => Next(AfterHeader(c, it, n))
  }

  function DataTurn(c: ChunkState): Turn {
    if |c.buffer| < Wrap32(c.size + 2) then Wait
    else if !At(c.buffer, CRLF, c.size) then Broken(MissingCrlf)
    else Next(AfterData(c))
  }

  function TrailerTurn(c: ChunkState): Turn {
    var loc := Find(c.buffer, Needle(c));
    if loc == -1 then Wait else Ends(c.parsed + loc + |Needle(c)|)
  }

  function Measure(c: ChunkState): nat {
    2 * |c.buffer| + if c.phase.Chunk? then 1 else 0
  }

  lemma StepDecreases(c: ChunkState)
    requires Step(c).Next?
    ensures Measure(Step(c).c) < Measure(c) && Step(c).c.acked == c.acked
  {
  }

  /** The loop, for a call whose input had `k` bytes. */
  function Loop(c: ChunkState, k: nat): ReadResult
    decreases Measure(c)
  {
    match Step(c)
    case Wait => More(c.(acked := c.acked + k))
    case Next(d) => StepDecreases(c); Loop(d, k)
    case Ends(parsed) =>
      if parsed > c.acked then Done(parsed - c.acked, c.(parsed := parsed)) else Fail(AckAssert)
    case Broken(why) => Fail(why)
  }

  function AfterHeader(c: ChunkState, it: nat, n: nat): ChunkState
    requires it + 2 <= |c.buffer|
  {
    c.(size := n, phase := if n == 0 then Trailer else Chunk,
       parsed := c.parsed + it + 2, buffer := c.buffer[it + 2..])
  }

  function AfterData(c: ChunkState): ChunkState
    requires Wrap32(c.size + 2) <= |c.buffer|
  {
    var need := Wrap32(c.size + 2);
    c.(phase := ChunkHdr, parsed := c.parsed + need, buffer := c.buffer[need..])
  }

  function Append(c: ChunkState, s: string): ChunkState {
    c.(buffer := c.buffer + s)
  }

  function Read(c: ChunkState, input: string): ReadResult {
    Loop(Append(c, input), |input|)
  }

  // ---------------------------------------------------------------- invariants

  /** The state machine could do nothing with `b` alone. */
  predicate Quiet(c: ChunkState, b: string) {
    b == "" || match c.phase
      case ChunkHdr => Free(b, CRLF)
      case Chunk => |b| < Wrap32(c.size + 2)
      case Trailer => Free(b, Needle(c))
  }

  /** Between calls: everything received was acknowledged, and what is buffered is not yet a
      complete unit. */
  predicate Valid(c: ChunkState) {
    c.parsed + |c.buffer| == c.acked && Quiet(c, c.buffer)
  }

  /** Inside a call with a k-byte input: either the parser has moved past the acknowledged bytes,
      or the acknowledged part of the buffer is still quiet. */
  predicate LoopInv(c: ChunkState, k: nat) {
    && c.parsed + |c.buffer| == c.acked + k
    && (c.parsed < c.acked ==> c.acked - c.parsed <= |c.buffer| && Quiet(c, c.buffer[..c.acked - c.parsed]))
  }

  lemma LoopStarts(c: ChunkState, input: string)
    requires Valid(c)
    ensures LoopInv(Append(c, input), |input|)
  {
    assert (c.buffer + input)[..|c.buffer|] == c.buffer;
  }

  /** What is quiet in a prefix can only be completed past that prefix. */
  lemma QuietPrefix(c: ChunkState, n: nat)
    requires n <= |c.buffer| && Quiet(c, c.buffer[..n])
    ensures Step(c).Next? ==> |Step(c).c.buffer| <= |c.buffer| - n
    ensures Step(c).Ends? ==> Step(c).parsed > c.parsed + n
  {
    assert c.buffer == c.buffer[..n] + c.buffer[n..];
    match c.phase
    case ChunkHdr => FindExtend(c.buffer[..n], c.buffer[n..], CRLF);
    case Chunk =>
    case Trailer => FindExtend(c.buffer[..n], c.buffer[n..], Needle(c));
  }

  lemma StepCounts(c: ChunkState)
    ensures Step(c).Next? ==> Step(c).c.parsed + |Step(c).c.buffer| == c.parsed + |c.buffer|
    ensures Step(c).Next? ==> c.parsed <= Step(c).c.parsed
    ensures Step(c).Ends? ==> c.parsed < Step(c).parsed <= c.parsed + |c.buffer|
    ensures Step(c).Wait? ==> Quiet(c, c.buffer)
  {
  }

  lemma StepKeepsInv(c: ChunkState, k: nat)
    requires LoopInv(c, k)
    ensures Step(c).Next? ==> LoopInv(Step(c).c, k) && Step(c).c.parsed >= c.acked
    ensures Step(c).Ends? ==> c.acked < Step(c).parsed <= c.acked + k
    ensures Step(c).Wait? ==> Valid(c.(acked := c.acked + k))
  {
    StepCounts(c);
    if Step(c).Next? { StepDecreases(c); }
    if c.parsed < c.acked { QuietPrefix(c, c.acked - c.parsed); }
  }

  /** The acknowledgement assertion cannot fail, an acknowledgement is positive and never exceeds
      the segment, and the invariant holds again when more input is wanted. */
  lemma {:induction false} LoopSafe(c: ChunkState, k: nat)
    requires LoopInv(c, k)
    ensures match Loop(c, k)
      case More(d) => Valid(d) && d.acked == c.acked + k && |d.buffer| <= |c.buffer|
      case Done(n, d) => 0 < n <= k && d.parsed == c.acked + n && d.acked == c.acked
      case Fail(why) => why != AckAssert
    decreases Measure(c)
  {
    StepKeepsInv(c, k);
    StepCounts(c);
    StepFault(c);
    if Step(c).Next? {
      StepDecreases(c);
      LoopSafe(Step(c).c, k);
    }
  }

  lemma StepFault(c: ChunkState)
    ensures Step(c).Broken? ==> Step(c).why != AckAssert
  {
  }

  lemma ReadSafe(c: ChunkState, input: string)
    requires Valid(c)
    ensures match Read(c, input)
      case More(d) => Valid(d) && d.acked == c.acked + |input| && |d.buffer| <= |c.buffer| + |input|
      case Done(n, d) => 0 < n <= |input| && d.parsed == c.acked + n
      case Fail(why) => why != AckAssert
  {
    LoopStarts(c, input);
    LoopSafe(Append(c, input), |input|);
  }

  // ---------------------------------------------------------------- splitting a segment

  /** The answer seen by a caller that had already acknowledged m bytes of the same segment. */
  function Shift(r: ReadResult, m: nat): ReadResult {
    match r
    case Done(n, d) => Done(n + m, d.(acked := if d.acked < m then 0 else d.acked - m))
    case _ => r
  }

  lemma StepIgnoresAcked(c: ChunkState, acked: nat)
    ensures Step(c.(acked := acked)) ==
      match Step(c) case Next(d) => Next(d.(acked := acked)) case t => t
  {
    hide ChunkSize, Find;
  }

  lemma {:induction false} AckShift(c: ChunkState, m: nat, k: nat)
    requires LoopInv(c.(acked := c.acked + m), k)
    ensures Loop(c, m + k) == Shift(Loop(c.(acked := c.acked + m), k), m)
    decreases Measure(c)
  {
    hide Step, Quiet;
    var c' := c.(acked := c.acked + m);
    StepIgnoresAcked(c, c'.acked);
    StepKeepsInv(c', k);
    if Step(c).Next? {
      StepDecreases(c);
      AckShift(Step(c).c, m, k);
    }
  }

  /** What a second call with y makes of the answer to a first call with m bytes. */
  function Continue(r: ReadResult, m: nat, y: string): ReadResult {
    match r
    case More(d) => Shift(Read(d, y), m)
    case Done(n, d) => Done(n, Append(d, y))
    case Fail(why) => r
  }

  lemma AppendStopped(c: ChunkState, m: nat, y: string)
    requires LoopInv(c, m) && Loop(c, m) == More(c.(acked := c.acked + m))
    ensures Loop(Append(c, y), m + |y|) == Continue(Loop(c, m), m, y)
  {
    hide Step, Quiet, Loop;
    LoopSafe(c, m);
    LoopStarts(c.(acked := c.acked + m), y);
    AckShift(Append(c, y), m, |y|);
  }

  /** No chunk size in the run over this buffer is wide: size + 2 does not wrap, unless the buffer
      stays so short, with n bytes more, that a wide chunk is rejected either way. */
  ghost predicate Narrow(c: ChunkState, n: nat) {
    && (c.phase.Chunk? ==> c.size + 2 < TWO32 || |c.buffer| + n < TWO32)
  }

  ghost predicate NarrowRun(c: ChunkState, n: nat)
    decreases Measure(c)
  {
    Narrow(c, n) && (Step(c).Next? ==> (StepDecreases(c); NarrowRun(Step(c).c, n)))
  }

  lemma {:induction false} ShortIsNarrow(c: ChunkState, n: nat)
    requires |c.buffer| + n < TWO32
    ensures NarrowRun(c, n)
    decreases Measure(c)
  {
    hide Step;
    if Step(c).Next? {
      StepCounts(c);
      StepDecreases(c);
      ShortIsNarrow(Step(c).c, n);
    }
  }

  lemma HeaderAppend(c: ChunkState, y: string)
    ensures HeaderTurn(c).Next? ==> HeaderTurn(Append(c, y)) == Next(Append(HeaderTurn(c).c, y))
    ensures HeaderTurn(c).Broken? ==> HeaderTurn(Append(c, y)) == HeaderTurn(c)
  {
    hide ChunkSize, Find;
    FindExtend(c.buffer, y, CRLF);
    var it := Find(c.buffer, CRLF);
    if it != -1 {
      assert (c.buffer + y)[..it + 2] == c.buffer[..it + 2];
      assert (c.buffer + y)[it + 2..] == c.buffer[it + 2..] + y;
    }
  }

  lemma DataAppend(c: ChunkState, y: string)
    requires c.size + 2 < TWO32 || 0 < |c.buffer| <= |c.buffer| + |y| < TWO32
    ensures DataTurn(c).Next? ==> DataTurn(Append(c, y)) == Next(Append(DataTurn(c).c, y))
    ensures DataTurn(c).Broken? ==> DataTurn(Append(c, y)) == DataTurn(c)
  {
    var need := Wrap32(c.size + 2);
    if need <= |c.buffer| {
      WideSize(c.size);
      if c.size + 2 <= |c.buffer| { AtExtend(c.buffer, y, CRLF, c.size); }
      assert (c.buffer + y)[need..] == c.buffer[need..] + y;
    }
  }

  lemma StepAppend(c: ChunkState, y: string)
    requires Narrow(c, |y|)
    ensures Step(c).Next? ==> Step(Append(c, y)) == Next(Append(Step(c).c, y))
    ensures Step(c).Ends? || Step(c).Broken? ==> Step(Append(c, y)) == Step(c)
  {
    if c.buffer != "" {
      match c.phase
      case ChunkHdr =>
        hide HeaderTurn;
        HeaderAppend(c, y);
      case Chunk =>
        hide DataTurn;
        DataAppend(c, y);
      case Trailer =>
        FindExtend(c.buffer, y, Needle(c));
    }
  }

  /** Running the loop on a longer buffer is running it on the prefix and then reading the rest. */
  lemma {:induction false} LoopAppend(c: ChunkState, m: nat, y: string)
    requires LoopInv(c, m) && NarrowRun(c, |y|)
    ensures Loop(Append(c, y), m + |y|) == Continue(Loop(c, m), m, y)
    decreases Measure(c)
  {
    hide Step, Quiet;
    StepAppend(c, y);
    StepKeepsInv(c, m);
    match Step(c)
    case Wait => AppendStopped(c, m, y);
    case Next(d) =>
      StepDecreases(c);
      LoopAppend(d, m, y);
    case _ =>
  }

  lemma WideSize(size: nat)
    ensures Wrap32(size + 2) == size + 2 || size + 2 >= TWO32
  {
  }

  /** Segmentation independence of the chunked parser: reading x and then y is reading x + y. */
  lemma ReadAppend(c: ChunkState, x: string, y: string)
    requires Valid(c) && NarrowRun(Append(c, x), |y|)
    ensures Read(c, x + y) == Continue(Read(c, x), |x|, y)
  {
    hide Step, Quiet, Loop;
    LoopStarts(c, x);
    LoopAppend(Append(c, x), |x|, y);
    assert c.buffer + (x + y) == c.buffer + x + y;
  }

  // ---------------------------------------------------------------- streams without wide chunks

  /** No chunk in the run over this buffer has a size of 2^32-2 or more. */
  ghost predicate Tame(c: ChunkState)
    decreases Measure(c)
  {
    (c.phase.Chunk? ==> c.size + 2 < TWO32)
    && (Step(c).Next? ==> (StepDecreases(c); Tame(Step(c).c)))
  }

  lemma {:induction false} TamePrefix(c: ChunkState, y: string)
    requires Tame(Append(c, y))
    ensures NarrowRun(c, |y|)
    decreases Measure(c)
  {
    hide Step;
    StepAppend(c, y);
    if Step(c).Next? {
      StepDecreases(c);
      StepDecreases(Append(c, y));
      TamePrefix(Step(c).c, y);
    }
  }

  lemma {:induction false} TameRest(c: ChunkState, k: nat, y: string)
    requires Tame(Append(c, y)) && Loop(c, k).More?
    ensures Tame(Append(Loop(c, k).c, y))
    decreases Measure(c)
  {
    hide Step;
    StepAppend(c, y);
    if Step(c).Next? {
      StepDecreases(c);
      StepDecreases(Append(c, y));
      TameRest(Step(c).c, k, y);
    } else {
      TameIgnoresAcked(Append(c, y), c.acked + k);
    }
  }

  lemma {:induction false} TameIgnoresAcked(c: ChunkState, acked: nat)
    requires Tame(c)
    ensures Tame(c.(acked := acked))
    decreases Measure(c)
  {
    hide Step;
    StepIgnoresAcked(c, acked);
    if Step(c).Next? {
      StepDecreases(c);
      TameIgnoresAcked(Step(c).c, acked);
    }
  }

  lemma {:induction false} TameShorter(c: ChunkState, y: string)
    requires Tame(Append(c, y))
    ensures Tame(c)
    decreases Measure(c)
  {
    hide Step;
    StepAppend(c, y);
    if Step(c).Next? {
      StepDecreases(c);
      StepDecreases(Append(c, y));
      TameShorter(Step(c).c, y);
    }
  }

  // ---------------------------------------------------------------- exactness of the bound

  ghost predicate SplitsAt(c: ChunkState, x: string, y: string) {
    Read(c, x + y) == Continue(Read(c, x), |x|, y)
  }

  function Zeros(n: nat): string { seq(n, i => '0') }

  lemma {:induction false} ZerosValue(n: nat)
    ensures ValueOf(Zeros(n), 16) == 0
  {
    if n > 0 {
      ZerosValue(n - 1);
      assert Zeros(n)[..n - 1] == Zeros(n - 1);
    }
  }

  /** A header of `digits` alone, followed by anything. */
  lemma PlainHeader(digits: string, v: nat)
    requires Atoi(digits, 16) == Some(v)
    ensures Find(digits + CRLF, CRLF) == |digits| && ChunkSize(digits + CRLF) == Some(Wrap32(v))
  {
    var header := digits + CRLF;
    NoDigit(digits, CRLF, 16);
    NoDigit(digits, " ", 16);
    NoDigit(digits, ";", 16);
    LineEnd(digits, "");
    assert digits + CRLF + "" == header;
    NoDigit(digits, ";", 16);
    assert ';' !in header;
    FreeByte(header, ';');
    assert header[..|digits|] == digits;
  }

  /** A buffered chunk header whose digits are all zero starts the trailer. */
  lemma ZeroHeaderStep(c: ChunkState, n: nat)
    requires c.phase.ChunkHdr? && c.buffer == Zeros(n) + CRLF && n > 0
    ensures Step(c) == Next(ChunkState("", 0, c.acked, c.parsed + n + 2, Trailer, c.trailers))
  {
    hide ChunkSize, Find;
    ZerosValue(n);
    PlainHeader(Zeros(n), 0);
    assert c.buffer[..n + 2] == c.buffer && c.buffer[n + 2..] == "";
  }

  /** With size + 2 wrapped to 0 the data is "skipped" without consuming a byte. */
  lemma WideStep(c: ChunkState)
    requires c.phase.Chunk? && c.size == TWO32 - 2 && At(c.buffer, CRLF, c.size)
    ensures Step(c) == Next(c.(phase := ChunkHdr))
  {
    hide Find;
    assert c.buffer[0..] == c.buffer;
  }

  lemma WideSplit(c: ChunkState, x: string, y: string, n: nat)
    requires c.phase.Chunk? && c.buffer == "" && c.size == n == TWO32 - 2
    requires |x| == 1 && x + y == Zeros(n) + CRLF
    ensures Read(c, x).Fail? && Read(c, x + y).More?
  {
    hide ChunkSize, Find, Step, Loop;
    var c1 := Append(c, x + y);
    assert c1.buffer == Zeros(n) + CRLF;
    assert c1.buffer[n..n + 2] == CRLF;
    WideStep(c1);
    var c2 := c1.(phase := ChunkHdr);
    ZeroHeaderStep(c2, n);
    var c3 := ChunkState("", 0, c.acked, c.parsed + n + 2, Trailer, c.trailers);
    assert Step(c3) == Wait by { Waiting(c3); }
    TwoTurns(c1, c2, c3, n + 2);
    EarlyByte(c, x);
  }

  lemma Waiting(c: ChunkState)
    requires c.buffer == ""
    ensures Step(c) == Wait
  {
  }

  lemma EarlyByte(c: ChunkState, x: string)
    requires c.phase.Chunk? && c.buffer == "" && c.size == TWO32 - 2 && |x| == 1
    ensures Read(c, x) == Fail(MissingCrlf)
  {
    hide Find, ChunkSize;
    assert Step(Append(c, x)) == Broken(MissingCrlf);
  }

  /** A chunk of size 2^32-2 read in one piece, or with its first byte alone: the first byte alone
      is rejected, because size + 2 wraps to 0, while the whole is accepted. */
  lemma WideChunkDiffers() returns (c: ChunkState, x: string, y: string)
    ensures Valid(c) && c.buffer == "" && |x| == 1 && |y| == TWO32 - 1
    ensures Read(c, x).Fail? && Read(c, x + y).More? && !SplitsAt(c, x, y)
    ensures Read(Fresh(false), "FFFFFFFE" + CRLF) == More(c)
  {
    hide Read, ChunkSize, Find, ValueOf;
    var n := TWO32 - 2;
    c := ChunkState("", n, 10, 10, Chunk, false);
    HexValue();
    PlainHeaderRead("FFFFFFFE", n);
    x, y := "0", Zeros(n - 1) + CRLF;
    assert x + y == Zeros(n) + CRLF;
    WideSplit(c, x, y, n);
  }

  lemma TwoTurns(c1: ChunkState, c2: ChunkState, c3: ChunkState, k: nat)
    requires Step(c1) == Next(c2) && Step(c2) == Next(c3) && Step(c3) == Wait
    ensures Loop(c1, k).More?
  {
    hide Step;
    StepDecreases(c1);
    StepDecreases(c2);
    assert Loop(c2, k) == Loop(c3, k);
  }

  lemma PlainHeaderRead(digits: string, v: nat)
    requires Atoi(digits, 16) == Some(v)
    ensures var n := |digits| + 2;
      Read(Fresh(false), digits + CRLF)
        == More(ChunkState("", Wrap32(v), n, n, if Wrap32(v) == 0 then Trailer else Chunk, false))
  {
    hide ChunkSize, Find, Atoi;
    var header := digits + CRLF;
    var n := |digits| + 2;
    PlainHeader(digits, v);
    var c0 := Append(Fresh(false), header);
    assert c0.buffer == header && header[..n] == header && header[n..] == "";
    var c1 := ChunkState("", Wrap32(v), 0, n, if Wrap32(v) == 0 then Trailer else Chunk, false);
    assert Step(c0) == Next(c1);
    assert Loop(c1, n) == More(c1.(acked := n));
  }

  lemma HexValue()
    ensures ValueOf("FFFFFFFE", 16) == TWO32 - 2
  {
    assert "FFFFFFFE"[..7] == "FFFFFFF";
    assert "FFFFFFF"[..6] == "FFFFFF";
    assert "FFFFFF"[..5] == "FFFFF";
    assert "FFFFF"[..4] == "FFFF";
    assert "FFFF"[..3] == "FFF";
    assert "FFF"[..2] == "FF";
    assert "FF"[..1] == "F";
    assert "F"[..0] == "";
  }

  /** Segmentation never matters for up to n buffered and incoming bytes exactly when n < 2^32. */
  lemma SplittingThreshold(n: nat)
    ensures (forall c, x, y :: Valid(c) && |c.buffer| + |x| + |y| <= n ==> SplitsAt(c, x, y))
            <==> n < TWO32
  {
    if n < TWO32 {
      forall c, x, y | Valid(c) && |c.buffer| + |x| + |y| <= n ensures SplitsAt(c, x, y) {
        ShortIsNarrow(Append(c, x), |y|);
        ReadAppend(c, x, y);
      }
    } else {
      var c, x, y := WideChunkDiffers();
      assert !SplitsAt(c, x, y);
    }
  }
}
