/** The ring buffer between a file descriptor that is read and one that is written: a first-in,
    first-out stream of bytes under short reads and short writes. */
module ByteStreams {
  import opened Machine

  datatype PushResult = Success | EndOfFile

  /** `size_t` arithmetic. */
  function Wrap64(n: int): nat { n % TWO64 }

  function AvailableToPop(size: nat, push: nat, pop: nat): nat {
    Wrap64(push - pop + if pop > push then size else 0)
  }

  function AvailableToPush(size: nat, push: nat, pop: nat): nat {
    Wrap64(pop - push - 1 + if pop > push then 0 else size)
  }

  /** The number of bytes stored in a ring with these indices. */
  function Stored(size: nat, push: nat, pop: nat): int {
    if pop <= push then push - pop else size - pop + push
  }

  /** In spite of the wraparound of unsigned arithmetic, the two counts are the bytes stored and the
      bytes free, and one place always stays empty. */
  lemma CountsAreExact(size: nat, push: nat, pop: nat)
    requires push < size < TWO64 && pop < size
    ensures AvailableToPop(size, push, pop) == Stored(size, push, pop)
    ensures AvailableToPush(size, push, pop) == size - 1 - Stored(size, push, pop)
    ensures AvailableToPush(size, push, pop) + AvailableToPop(size, push, pop) == size - 1
  {
  }

  /** The bytes from index `pop` up to index `push`, around the end of the buffer. */
  function Ring(buffer: seq<char>, push: nat, pop: nat): (r: seq<char>)
    requires push < |buffer| && pop < |buffer|
    ensures |r| == Stored(|buffer|, push, pop)
  {
    if pop <= push then buffer[pop..push] else buffer[pop..] + buffer[..push]
  }

  function Next(index: nat, n: nat, size: nat): nat
    requires index + n <= size
  {
    if index + n == size then 0 else index + n
  }

  /** The buffer with a chunk written at an index. */
  function Overwrite(buffer: seq<char>, at: nat, chunk: seq<char>): (r: seq<char>)
    requires at + |chunk| <= |buffer|
    ensures |r| == |buffer|
  {
    buffer[..at] + chunk + buffer[at + |chunk|..]
  }

  lemma OverwriteOutside(buffer: seq<char>, at: nat, chunk: seq<char>, lo: nat, hi: nat)
    requires at + |chunk| <= |buffer| && lo <= hi <= |buffer| && (hi <= at || at + |chunk| <= lo)
    ensures Overwrite(buffer, at, chunk)[lo..hi] == buffer[lo..hi]
    ensures Overwrite(buffer, at, chunk)[at..at + |chunk|] == chunk
  {
  }

  /** Writing a chunk into free contiguous space at the push index appends it to the stream. */
  lemma PushAppends(buffer: seq<char>, push: nat, pop: nat, chunk: seq<char>)
    requires push < |buffer| && pop < |buffer| && push + |chunk| <= |buffer|
    requires |chunk| <= |buffer| - 1 - Stored(|buffer|, push, pop)
    ensures Ring(Overwrite(buffer, push, chunk), Next(push, |chunk|, |buffer|), pop) == Ring(buffer, push, pop) + chunk
  {
    hide Overwrite;
    var after, end, n := Overwrite(buffer, push, chunk), push + |chunk|, |buffer|;
    OverwriteOutside(buffer, push, chunk, 0, 0);
    if pop <= push {
      OverwriteOutside(buffer, push, chunk, pop, push);
      assert after[pop..end] == after[pop..push] + after[push..end];
    } else {
      OverwriteOutside(buffer, push, chunk, pop, n);
      OverwriteOutside(buffer, push, chunk, 0, push);
      assert after[..end] == after[0..push] + after[push..end];
      assert after[pop..] == after[pop..n] && buffer[pop..] == buffer[pop..n] && buffer[..push] == buffer[0..push];
    }
  }

  /** Advancing the pop index within the contiguous part takes bytes off the front of the stream. */
  lemma PopTakes(buffer: seq<char>, push: nat, pop: nat, n: nat)
    requires push < |buffer| && pop < |buffer| && n <= Stored(|buffer|, push, pop) && pop + n <= |buffer|
    ensures Ring(buffer, push, pop) == buffer[pop..pop + n] + Ring(buffer, push, Next(pop, n, |buffer|))
  {
    var size, end := |buffer|, pop + n;
    if pop <= push {
      assert buffer[pop..push] == buffer[pop..end] + buffer[end..push];
    } else if end < size {
      assert buffer[pop..] == buffer[pop..end] + buffer[end..];
      assert buffer[pop..end] + buffer[end..] + buffer[..push] == buffer[pop..end] + (buffer[end..] + buffer[..push]);
    } else {
      assert buffer[pop..] == buffer[pop..end] && buffer[0..push] == buffer[..push];
    }
  }

  /** The buffer and its two indices. */
  datatype RingState = RingState(buffer: seq<char>, push: nat, pop: nat)

  /** A read that returned some bytes, or a write that took some. */
  datatype Transfer = Read(chunk: seq<char>) | Write(n: nat)

  predicate InRange(s: RingState) {
    s.push < |s.buffer| < TWO64 && s.pop < |s.buffer|
  }

  /** A read is asked for at most the contiguous free space, a write is offered the contiguous bytes. */
  predicate Allowed(s: RingState, t: Transfer) {
    InRange(s) &&
    match t
    case Read(chunk) => s.push + |chunk| <= |s.buffer| && |chunk| <= AvailableToPush(|s.buffer|, s.push, s.pop)
    case Write(n) => s.pop + n <= |s.buffer| && n <= AvailableToPop(|s.buffer|, s.push, s.pop)
  }

  function Apply(s: RingState, t: Transfer): RingState
    requires Allowed(s, t)
  {
    match t
    case Read(chunk) => s.(buffer := Overwrite(s.buffer, s.push, chunk), push := Next(s.push, |chunk|, |s.buffer|))
    case Write(n) => s.(pop := Next(s.pop, n, |s.buffer|))
  }

  function Incoming(t: Transfer): seq<char> {
    if t.Read? then t.chunk else []
  }

  function Outgoing(s: RingState, t: Transfer): seq<char>
    requires Allowed(s, t)
  {
    if t.Write? then s.buffer[s.pop..s.pop + t.n] else []
  }

  predicate AllAllowed(s: RingState, ts: seq<Transfer>)
    decreases |ts|
  {
    ts == [] || (Allowed(s, ts[0]) && AllAllowed(Apply(s, ts[0]), ts[1..]))
  }

  function BytesIn(ts: seq<Transfer>): seq<char> {
    if ts == [] then [] else Incoming(ts[0]) + BytesIn(ts[1..])
  }

  function BytesOut(s: RingState, ts: seq<Transfer>): seq<char>
    requires AllAllowed(s, ts)
    decreases |ts|
  {
    if ts == [] then [] else Outgoing(s, ts[0]) + BytesOut(Apply(s, ts[0]), ts[1..])
  }

  function Final(s: RingState, ts: seq<Transfer>): RingState
    requires AllAllowed(s, ts)
    decreases |ts|
  {
    if ts == [] then s else Final(Apply(s, ts[0]), ts[1..])
  }

  lemma ApplyIsFifo(s: RingState, t: Transfer)
    requires Allowed(s, t)
    ensures var r := Apply(s, t);
      InRange(r) && Ring(s.buffer, s.push, s.pop) + Incoming(t) == Outgoing(s, t) + Ring(r.buffer, r.push, r.pop)
  {
    hide Ring, Overwrite;
    CountsAreExact(|s.buffer|, s.push, s.pop);
    match t
    case Read(chunk) => PushAppends(s.buffer, s.push, s.pop, chunk);
    case Write(n) => PopTakes(s.buffer, s.push, s.pop, n);
  }

  /** The ring refines an unbounded queue: through any sequence of short reads and short writes, what
      was stored and came in is, byte for byte and in order, what went out and is still stored. */
  lemma {:induction false} TransfersAreFifo(s: RingState, ts: seq<Transfer>)
    requires InRange(s) && AllAllowed(s, ts)
    ensures var f := Final(s, ts);
      InRange(f)
      && Ring(s.buffer, s.push, s.pop) + BytesIn(ts) == BytesOut(s, ts) + Ring(f.buffer, f.push, f.pop)
    decreases |ts|
  {
    hide Ring, Apply, Allowed, Outgoing, Incoming;
    var stored := Ring(s.buffer, s.push, s.pop);
    if ts == [] {
      assert stored + [] == [] + stored;
    } else {
      var r := Apply(s, ts[0]);
      ApplyIsFifo(s, ts[0]);
      TransfersAreFifo(r, ts[1..]);
      var f := Final(s, ts);
      assert stored + (Incoming(ts[0]) + BytesIn(ts[1..])) == stored + Incoming(ts[0]) + BytesIn(ts[1..]);
      assert Outgoing(s, ts[0]) + (BytesOut(r, ts[1..]) + Ring(f.buffer, f.push, f.pop))
             == Outgoing(s, ts[0]) + BytesOut(r, ts[1..]) + Ring(f.buffer, f.push, f.pop);
      assert Outgoing(s, ts[0]) + Ring(r.buffer, r.push, r.pop) + BytesIn(ts[1..])
             == Outgoing(s, ts[0]) + (Ring(r.buffer, r.push, r.pop) + BytesIn(ts[1..]));
    }
  }

  class ByteStreamQueue {
    const buffer: array<char>
    var nextByteToPush: nat
    var nextByteToPop: nat
    ghost var pushed: seq<char>
    ghost var popped: seq<char>

    /** Everything popped so far is a prefix of everything pushed, and the rest is in the ring. */
    ghost predicate Valid()
      reads this, buffer
    {
      && 1 < buffer.Length < TWO64 && nextByteToPush < buffer.Length && nextByteToPop < buffer.Length
      && pushed == popped + Contents()
    }

    ghost function Contents(): seq<char>
      requires nextByteToPush < buffer.Length && nextByteToPop < buffer.Length
      reads this, buffer
    {
      Ring(buffer[..], nextByteToPush, nextByteToPop)
    }

    constructor (size: nat)
      requires 1 < size < TWO64
      ensures Valid() && Contents() == [] && pushed == [] && buffer.Length == size && fresh(buffer)
    {
      buffer := new char[size](_ => '\0');
      nextByteToPush, nextByteToPop, pushed, popped := 0, 0, [], [];
    }

    method AvailableBytes() returns (n: nat)
      requires Valid()
      ensures n == |Contents()|
    {
      CountsAreExact(buffer.Length, nextByteToPush, nextByteToPop);
      n := AvailableToPop(buffer.Length, nextByteToPush, nextByteToPop);
    }

    method AvailableSpace() returns (n: nat)
      requires Valid()
      ensures n == buffer.Length - 1 - |Contents()|
    {
      CountsAreExact(buffer.Length, nextByteToPush, nextByteToPop);
      n := AvailableToPush(buffer.Length, nextByteToPush, nextByteToPop);
    }

    /** The most that one read may return. */
    method SpaceToPush() returns (space: nat)
      requires Valid() && |Contents()| < buffer.Length - 1
      ensures 0 < space <= buffer.Length - nextByteToPush && space <= buffer.Length - 1 - |Contents()|
    {
      space := AvailableSpace();
      if nextByteToPush + space >= buffer.Length {
        space := buffer.Length - nextByteToPush;
      }
    }

    /** Push what a read of at most `space` bytes returned; nothing at the end of the file. */
    method Push(newChunk: seq<char>, space: nat) returns (r: PushResult)
      requires Valid() && |newChunk| <= space
      requires space <= buffer.Length - nextByteToPush && space <= buffer.Length - 1 - |Contents()|
      modifies this`nextByteToPush, this`pushed, buffer
      ensures Valid() && Contents() == old(Contents()) + newChunk
      ensures pushed == old(pushed) + newChunk && popped == old(popped)
      ensures r == if newChunk == [] then EndOfFile else Success
    {
      if newChunk == [] {
        assert Contents() + newChunk == Contents();
        return EndOfFile;
      }
      ghost var before := buffer[..];
      PushAppends(before, nextByteToPush, nextByteToPop, newChunk);
      forall i | 0 <= i < |newChunk| {
        buffer[nextByteToPush + i] := newChunk[i];
      }
      assert buffer[..] == Overwrite(before, nextByteToPush, newChunk);
      nextByteToPush := nextByteToPush + |newChunk|;
      if nextByteToPush == buffer.Length { nextByteToPush := 0; }
      pushed := pushed + newChunk;
      assert popped + (old(Contents()) + newChunk) == popped + old(Contents()) + newChunk;
      r := Success;
    }

    /** The contiguous bytes offered to one write. */
    method BytesToPop() returns (bytes: seq<char>)
      requires Valid() && Contents() != []
      ensures 0 < |bytes| && bytes <= Contents() && nextByteToPop + |bytes| <= buffer.Length
    {
      var n := AvailableBytes();
      if nextByteToPop + n >= buffer.Length {
        n := buffer.Length - nextByteToPop;
      }
      PopTakes(buffer[..], nextByteToPush, nextByteToPop, n);
      bytes := buffer[nextByteToPop..nextByteToPop + n];
    }

    /** The write took the first `n` of the bytes offered. */
    method Pop(n: nat)
      requires Valid() && 0 < n <= |Contents()| && nextByteToPop + n <= buffer.Length
      modifies this`nextByteToPop, this`popped
      ensures Valid() && popped == old(popped) + old(Contents())[..n] && Contents() == old(Contents())[n..]
      ensures pushed == old(pushed)
    {
      hide Ring;
      ghost var before, all := Contents(), buffer[..];
      PopTakes(all, nextByteToPush, nextByteToPop, n);
      ghost var taken := all[nextByteToPop..nextByteToPop + n];
      nextByteToPop := nextByteToPop + n;
      if nextByteToPop == buffer.Length { nextByteToPop := 0; }
      assert before == taken + Contents();
      assert popped + before == popped + taken + Contents();
      popped := popped + taken;
    }
  }
}
