/** The cell queue as the object that writes packets when their opportunity has come. */
module CellQueues {
  import opened Text
  import opened Packets
  import opened LinkSpec
  import opened CellSpec

  class CellQueue {
    const schedule: seq<nat>
    var nextDelivery: nat
    var baseTimestamp: nat
    var packetQueue: seq<CellPacket>
    /** What was written to the file descriptor. */
    var written: seq<string>

    predicate Valid()
      reads this
    {
      Trace(schedule) && nextDelivery < |schedule|
    }

    function Position(): Sched
      reads this
    {
      Sched(schedule, true, nextDelivery, baseTimestamp, false)
    }

    function View(): Cell
      reads this
    {
      Cell(Position(), packetQueue, written)
    }

    constructor (schedule: seq<nat>, now: nat)
      requires Trace(schedule)
      ensures Valid() && AtStart(Position()) && Position().schedule == schedule && baseTimestamp == now
      ensures packetQueue == [] && written == []
    {
      this.schedule := schedule;
      nextDelivery, baseTimestamp, packetQueue, written := 0, now, [], [];
    }

    method ReadPacket(contents: string)
      requires Valid()
      modifies this`packetQueue
      ensures Valid() && View() == old(View()).(queue := old(packetQueue) + [CellPacket(|contents|, contents)])
    {
      packetQueue := packetQueue + [CellPacket(|contents|, contents)];
    }

    function NextDeliveryTime(): (t: nat)
      requires Valid()
      reads this
      ensures t == NextTime(Position())
    {
      schedule[nextDelivery] + baseTimestamp
    }

    method UseADeliveryOpportunity()
      requires Valid()
      modifies this`nextDelivery, this`baseTimestamp
      ensures Valid() && Position() == Advance(old(Position()))
    {
      nextDelivery := (nextDelivery + 1) % |schedule|;
      if nextDelivery == 0 {
        baseTimestamp := baseTimestamp + schedule[|schedule| - 1];
      }
    }

    method WritePackets(now: nat)
      requires Valid() && now < MAX64
      modifies this
      ensures Valid() && View() == CellWrite(old(View()), now)
    {
      hide CellServe, Advance;
      ghost var start := View();
      while NextDeliveryTime() <= now
        invariant Valid() && CellWrite(View(), now) == CellWrite(start, now)
        decreases TimeLeft(Position(), now), |schedule| - nextDelivery
      {
        AdvanceDecreases(Position(), now);
        UseADeliveryOpportunity();
        SpendOpportunity();
      }
    }

    method SpendOpportunity()
      modifies this`packetQueue, this`written
      ensures var r := CellServe(old(packetQueue), PACKET_SIZE);
        packetQueue == r.queue && written == old(written) + r.written
    {
      ghost var queue0, written0 := packetQueue, written;
      var bytesLeft: nat := PACKET_SIZE;
      while bytesLeft > 0 && packetQueue != []
        invariant CellServe(packetQueue, bytesLeft).queue == CellServe(queue0, PACKET_SIZE).queue
        invariant written + CellServe(packetQueue, bytesLeft).written
                  == written0 + CellServe(queue0, PACKET_SIZE).written
        decreases |packetQueue|, bytesLeft
      {
        ghost var before, budget, out := packetQueue, bytesLeft, written;
        var left := packetQueue[0].bytes - bytesLeft;
        packetQueue := packetQueue[0 := packetQueue[0].(bytes := left)];
        bytesLeft := 0;
        if left <= 0 {
          bytesLeft := bytesLeft + (-left);
          written := written + [packetQueue[0].contents];
          packetQueue := packetQueue[1..];
          assert packetQueue == before[1..];
          assert out + ([before[0].contents] + CellServe(packetQueue, bytesLeft).written)
                 == written + CellServe(packetQueue, bytesLeft).written;
        } else {
          assert CellServe(before, budget) == CellServed(packetQueue, []);
        }
      }
      assert written + [] == written;
    }
  }
}
