/** The packet queues as objects: the unlimited one, and the limited base class whose counters the
    droptail and drophead disciplines work on. */
module PacketQueues {
  import opened Text
  import opened Packets

  class InfinitePacketQueue {
    var internalQueue: seq<Packet>
    var queueSizeInBytes: nat
    var queueSizeInPackets: nat

    ghost predicate Valid()
      reads this
    {
      queueSizeInBytes == Bytes(internalQueue) && queueSizeInPackets == |internalQueue|
    }

    constructor ()
      ensures Valid() && internalQueue == []
    {
      internalQueue, queueSizeInBytes, queueSizeInPackets := [], 0, 0;
    }

    method Enqueue(p: Packet)
      requires Valid()
      modifies this
      ensures Valid() && internalQueue == old(internalQueue) + [p]
    {
      BytesConcat(internalQueue, [p]);
      queueSizeInBytes := queueSizeInBytes + p.Size();
      queueSizeInPackets := queueSizeInPackets + 1;
      internalQueue := internalQueue + [p];
    }

    method Dequeue() returns (p: Packet)
      requires Valid() && internalQueue != []
      modifies this
      ensures Valid() && [p] + internalQueue == old(internalQueue)
    {
      p := internalQueue[0];
      internalQueue := internalQueue[1..];
      queueSizeInBytes := queueSizeInBytes - p.Size();
      queueSizeInPackets := queueSizeInPackets - 1;
    }
  }

  class DroppingPacketQueue {
    var internalQueue: seq<Packet>
    var queueSizeInBytes: nat
    var queueSizeInPackets: nat
    const packetLimit: nat
    const byteLimit: nat

    function Limit(): Limits { Limits(packetLimit, byteLimit) }

    ghost predicate Valid()
      reads this
    {
      queueSizeInBytes == Bytes(internalQueue) && queueSizeInPackets == |internalQueue|
    }

    constructor (limits: Limits)
      ensures Valid() && internalQueue == [] && Limit() == limits
    {
      internalQueue, queueSizeInBytes, queueSizeInPackets := [], 0, 0;
      packetLimit, byteLimit := limits.packets, limits.bytes;
    }

    predicate IsGood()
      reads this
    {
      GoodWith(Limit(), queueSizeInBytes, queueSizeInPackets)
    }

    /** `None` where an assertion fails. */
    method Dequeue() returns (p: Option<Packet>)
      requires Valid()
      modifies this
      ensures Valid() && p == TakeFront(Limit(), old(internalQueue))
      ensures old(internalQueue) != [] ==> internalQueue == old(internalQueue)[1..]
    {
      if internalQueue == [] { return None; }
      var front := internalQueue[0];
      internalQueue := internalQueue[1..];
      queueSizeInBytes := queueSizeInBytes - front.Size();
      queueSizeInPackets := queueSizeInPackets - 1;
      p := if IsGood() then Some(front) else None;
    }

    method Accept(p: Packet)
      requires Valid()
      modifies this
      ensures Valid() && internalQueue == old(internalQueue) + [p]
    {
      BytesConcat(internalQueue, [p]);
      queueSizeInBytes := queueSizeInBytes + p.Size();
      queueSizeInPackets := queueSizeInPackets + 1;
      internalQueue := internalQueue + [p];
    }

    /** Droptail's enqueue, which CoDel shares; false where the assertion fails. */
    method EnqueueDropTail(p: Packet) returns (ok: bool)
      requires Valid()
      modifies this
      ensures Valid()
      ensures match DropTail(Limit(), old(internalQueue), p)
        case Some(q) => ok && internalQueue == q
        case None => !ok
    {
      if GoodWith(Limit(), queueSizeInBytes + p.Size(), queueSizeInPackets + 1) {
        Accept(p);
      }
      ok := IsGood();
    }

    /** Drophead's enqueue: accept, then drop from the head; false where an assertion fails. */
    method EnqueueDropHead(p: Packet) returns (ok: bool)
      requires Valid()
      modifies this
      ensures Valid()
      ensures match DropHead(Limit(), old(internalQueue), p)
        case Some(q) => ok && internalQueue == q
        case None => !ok
    {
      Accept(p);
      while !IsGood()
        invariant Valid()
        invariant DropUntilGood(Limit(), internalQueue) == DropHead(Limit(), old(internalQueue), p)
        decreases |internalQueue|
      {
        var dropped := Dequeue();
        if dropped.None? { return false; }
      }
      ok := true;
    }
  }
}
