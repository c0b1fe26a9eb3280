/** The link queue as the object that the event loop calls. The discipline behind it is held as a
    value. */
module LinkQueues {
  import opened Machine
  import opened Text
  import opened Packets
  import opened Disciplines
  import Spec = LinkSpec
  import opened LinkSpec

  datatype ReadAnswer = Accepted | Oversized | AssertionFailed

  class LinkQueue {
    const schedule: seq<nat>
    const repeat: bool
    var nextDelivery: nat
    var baseTimestamp: nat
    var finished: bool
    var packetQueue: Queue
    var packetInTransit: Packet
    var packetInTransitBytesLeft: nat
    var outputQueue: seq<string>
    // the log, what was written to the descriptor, and the number of dequeues so far
    ghost var departures: seq<Departure>
    ghost var discarded: seq<Packet>
    ghost var arrivals: seq<Packet>
    ghost var drops: seq<DropRecord>
    ghost var opportunities: seq<nat>
    ghost var written: seq<string>
    var dequeues: nat

    predicate Valid()
      reads this
    {
      Trace(schedule) && nextDelivery < |schedule|
    }

    function Position(): Sched
      reads this
    {
      Sched(schedule, repeat, nextDelivery, baseTimestamp, finished)
    }

    ghost function LineView(): Line
      reads this
    {
      Line(packetQueue, packetInTransit, packetInTransitBytesLeft, outputQueue, departures, discarded, dequeues)
    }

    ghost function View(): Link
      reads this
    {
      Link(Position(), LineView(), arrivals, drops, opportunities, written)
    }

    constructor (schedule: seq<nat>, repeat: bool, now: nat, queue: Queue)
      requires Trace(schedule)
      ensures Valid() && AtStart(Position()) && Position().schedule == schedule && Position().repeat == repeat
      ensures baseTimestamp == now && packetQueue == queue && packetInTransitBytesLeft == 0
      ensures outputQueue == [] && departures == [] && discarded == [] && arrivals == [] && drops == []
      ensures opportunities == [] && written == []
    {
      this.schedule, this.repeat := schedule, repeat;
      nextDelivery, baseTimestamp, finished := 0, now, false;
      packetQueue, packetInTransit, packetInTransitBytesLeft := queue, Packet(0, ""), 0;
      outputQueue, dequeues := [], 0;
      departures, discarded, arrivals, drops, opportunities, written := [], [], [], [], [], [];
    }

    function NextDeliveryTime(): (t: nat)
      requires Valid()
      reads this
      ensures t == NextTime(Position())
    {
      if finished then MAX64 else schedule[nextDelivery] + baseTimestamp
    }

    method UseADeliveryOpportunity()
      requires Valid()
      modifies this`nextDelivery, this`baseTimestamp, this`finished, this`opportunities
      ensures Valid() && Position() == Advance(old(Position()))
      ensures opportunities == old(opportunities) + [old(NextDeliveryTime())]
    {
      opportunities := opportunities + [NextDeliveryTime()];
      nextDelivery := (nextDelivery + 1) % |schedule|;
      if nextDelivery == 0 {
        if repeat {
          baseTimestamp := baseTimestamp + schedule[|schedule| - 1];
        } else {
          finished := true;
        }
      }
    }

    /** The inner loop of `rationalize`; false where an assertion fails. */
    method SpendOpportunity(time: nat, clock: Clock) returns (ok: bool)
      requires Valid()
      modifies this`packetQueue, this`packetInTransit, this`packetInTransitBytesLeft, this`outputQueue,
        this`departures, this`discarded, this`dequeues
      ensures match Serve(old(LineView()), PACKET_SIZE, time, clock)
        case Some(l) => ok && LineView() == l
        case None => !ok
    {
      hide Get;
      ghost var start := LineView();
      var bytesLeft: nat := PACKET_SIZE;
      while bytesLeft > 0
        invariant Serve(LineView(), bytesLeft, time, clock) == Serve(start, PACKET_SIZE, time, clock)
        decreases bytesLeft
      {
        ghost var before := LineView();
        if packetInTransitBytesLeft == 0 {
          if Contents(packetQueue) == [] { break; }
          var got := Get(packetQueue, clock(dequeues));
          if got.None? { return false; }
          packetQueue, packetInTransit := got.value.x, got.value.p;
          packetInTransitBytesLeft := packetInTransit.Size();
          discarded, dequeues := discarded + got.value.discarded, dequeues + 1;
        }
        ghost var loaded := LineView();
        assert Load(before, clock) == Some(loaded);

        if !(packetInTransit.arrival <= time && packetInTransitBytesLeft <= PACKET_SIZE
             && packetInTransitBytesLeft > 0 && packetInTransitBytesLeft <= packetInTransit.Size()) {
          return false;
        }
        var amount := Min(bytesLeft, packetInTransitBytesLeft);
        packetInTransitBytesLeft := packetInTransitBytesLeft - amount;
        bytesLeft := bytesLeft - amount;
        if packetInTransitBytesLeft == 0 {
          departures := departures + [Departure(time, packetInTransit)];
          outputQueue := outputQueue + [packetInTransit.contents];
        }
        assert LineView() == Send(loaded, amount, time);
      }
      ok := true;
    }

    /** Emulate the link up to `now`; false where an assertion fails. */
    method Rationalize(now: nat, clock: Clock) returns (ok: bool)
      requires Valid() && now < MAX64
      modifies this
      ensures match Spec.Rationalize(old(View()), now, clock)
        case Some(l) => ok && Valid() && View() == l
        case None => !ok
    {
      hide Serve, Advance;
      ghost var start := View();
      while NextDeliveryTime() <= now
        invariant Valid()
        invariant Spec.Rationalize(View(), now, clock) == Spec.Rationalize(start, now, clock)
        decreases TimeLeft(Position(), now), |schedule| - nextDelivery
      {
        AdvanceDecreases(Position(), now);
        var thisDeliveryTime := NextDeliveryTime();
        UseADeliveryOpportunity();
        ok := SpendOpportunity(thisDeliveryTime, clock);
        if !ok { return; }
      }
      ok := true;
    }

    /** `r` and `clock` are the readings that the discipline takes. */
    method ReadPacket(contents: string, now: nat, r: Reading, clock: Clock) returns (answer: ReadAnswer)
      requires Valid() && now < MAX64
      modifies this
      ensures match Spec.ReadPacket(old(View()), contents, now, r, clock)
        case Running(l) => answer == Accepted && Valid() && View() == l
        case TooLarge => answer == Oversized && View() == old(View())
        case Aborted => answer == AssertionFailed
    {
      hide Spec.Rationalize, Put;
      if |contents| > PACKET_SIZE { return Oversized; }
      var ok := Rationalize(now, clock);
      if !ok { return AssertionFailed; }

      var p := Packet(now, contents);
      arrivals := arrivals + [p];
      var bytesBefore, packetsBefore := Bytes(Contents(packetQueue)), |Contents(packetQueue)|;
      var queue := Put(packetQueue, p, r);
      if queue.None? { return AssertionFailed; }
      packetQueue := queue.value;
      var bytesAfter, packetsAfter := Bytes(Contents(packetQueue)), |Contents(packetQueue)|;
      if packetsAfter > packetsBefore + 1 || bytesAfter > bytesBefore + |contents| { return AssertionFailed; }
      var missingPackets := packetsBefore + 1 - packetsAfter;
      var missingBytes := bytesBefore + |contents| - bytesAfter;
      if missingPackets > 0 || missingBytes > 0 {
        drops := drops + [DropRecord(now, missingPackets, missingBytes)];
      } else {
        assert drops + [] == drops;
      }
      answer := Accepted;
    }

    /** The packets handed to the file descriptor, oldest first. */
    method WritePackets() returns (sent: seq<string>)
      modifies this`outputQueue, this`written
      ensures sent == old(outputQueue) && View() == Spec.WritePackets(old(View()))
    {
      sent := [];
      ghost var before := written;
      while outputQueue != []
        invariant sent + outputQueue == old(outputQueue) && written == before + sent
        decreases |outputQueue|
      {
        sent := sent + [outputQueue[0]];
        written := written + [outputQueue[0]];
        outputQueue := outputQueue[1..];
      }
      assert sent == old(outputQueue);
    }

    method WaitTime(now: nat, clock: Clock) returns (ok: bool, wait: nat)
      requires Valid() && now < MAX64
      modifies this
      ensures match Spec.Rationalize(old(View()), now, clock)
        case Some(l) => ok && Valid() && View() == l && wait == Spec.WaitTime(l, now)
        case None => !ok
    {
      wait := 0;
      ok := Rationalize(now, clock);
      if ok && NextDeliveryTime() > now { wait := (NextDeliveryTime() - now) % TWO32; }
    }
  }
}
