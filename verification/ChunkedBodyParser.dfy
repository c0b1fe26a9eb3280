/** The chunked-body parser as the object that updates its own buffer and counters. */
module ChunkedParser {
  import opened Machine
  import opened Text
  import Spec = ChunkedSpec
  import opened ChunkedSpec

  datatype Answer = Npos | Bytes(n: nat) | Threw(why: Fault)

  class ChunkedBodyParser {
    var parserBuffer: string
    var currentChunkSize: nat
    var ackedSoFar: nat
    var parsedSoFar: nat
    var state: Phase
    const trailersEnabled: bool

    function View(): ChunkState
      reads this
    {
      ChunkState(parserBuffer, currentChunkSize, ackedSoFar, parsedSoFar, state, trailersEnabled)
    }

    constructor (trailersEnabled: bool)
      ensures View() == Fresh(trailersEnabled)
    {
      parserBuffer, currentChunkSize, ackedSoFar, parsedSoFar, state := "", 0, 0, 0, ChunkHdr;
      this.trailersEnabled := trailersEnabled;
    }

    method Read(input: string) returns (r: Answer)
      modifies this
      ensures match Spec.Read(old(View()), input)
        case More(c) => r == Npos && View() == c
        case Done(n, c) => r == Bytes(n) && View() == c
        case Fail(why) => r == Threw(why)
    {
      hide ChunkSize, Find;
      parserBuffer := parserBuffer + input;
      ghost var c0 := View();
      while parserBuffer != ""
        invariant Loop(View(), |input|) == Loop(c0, |input|)
        decreases Measure(View())
      {
        ghost var c := View();
        match state
        case ChunkHdr =>
          var it := Find(parserBuffer, CRLF);
          if it != -1 {
            var size := ChunkSize(parserBuffer[..it + 2]);
            if size.None? {
              assert Step(c) == Broken(BadSize);
              return Threw(BadSize);
            }
            currentChunkSize := size.value;
            state := if currentChunkSize == 0 then Trailer else Chunk;
            parsedSoFar := parsedSoFar + (it + 2);
            parserBuffer := parserBuffer[it + 2..];
            assert Step(c) == HeaderTurn(c) == Next(View());
          } else {
            assert Step(c) == Wait;
            ackedSoFar := ackedSoFar + |input|;
            return Npos;
          }
        case Chunk =>
          var need := Wrap32(currentChunkSize + 2);
          if |parserBuffer| >= need {
            if !At(parserBuffer, CRLF, currentChunkSize) {
              assert Step(c) == Broken(MissingCrlf);
              return Threw(MissingCrlf);
            }
            state := ChunkHdr;
            parsedSoFar := parsedSoFar + need;
            parserBuffer := parserBuffer[need..];
            assert Step(c) == DataTurn(c) == Next(View());
          } else {
            assert Step(c) == Wait;
            ackedSoFar := ackedSoFar + |input|;
            return Npos;
          }
        case Trailer =>
          assert Step(c) == TrailerTurn(c);
          r := ComputeAckSize(parserBuffer, if trailersEnabled then CRLF + CRLF else CRLF, |input|);
          return;
      }
      ackedSoFar := ackedSoFar + |input|;
      r := Npos;
    }

    /** How much of the current input belongs to the body, or `npos` if all of it does. */
    method ComputeAckSize(haystack: string, needle: string, inputSize: nat) returns (r: Answer)
      modifies this`ackedSoFar, this`parsedSoFar
      ensures var loc := Find(haystack, needle);
        var parsed := old(parsedSoFar) + loc + |needle|;
        if loc == -1 then
          r == Npos && ackedSoFar == old(ackedSoFar) + inputSize && parsedSoFar == old(parsedSoFar)
        else
          ackedSoFar == old(ackedSoFar) && parsedSoFar == parsed
          && r == (if parsed > ackedSoFar then Bytes(parsed - ackedSoFar) else Threw(AckAssert))
    {
      var loc := Find(haystack, needle);
      if loc != -1 {
        parsedSoFar := parsedSoFar + loc + |needle|;
        if parsedSoFar <= ackedSoFar { return Threw(AckAssert); }
        r := Bytes(parsedSoFar - ackedSoFar);
      } else {
        ackedSoFar := ackedSoFar + inputSize;
        r := Npos;
      }
    }
  }
}
