/** The older link emulator, which counts down the bytes of the packet at the front and lets the
    count go negative, and its agreement with the link queue. */
module CellSpec {
  import opened Text
  import opened Packets
  import opened Disciplines
  import opened LinkSpec
  import opened LinkFluid

  datatype CellPacket = CellPacket(bytes: int, contents: string)

  /** What is left of the queue, and what was written, after spending a budget. */
  datatype CellServed = CellServed(queue: seq<CellPacket>, written: seq<string>)

  /** The inner loop: charge the whole budget to the front packet, and take back what it did not
      need. */
  function CellServe(queue: seq<CellPacket>, budget: nat): CellServed
    decreases |queue|
  {
    if budget == 0 || queue == [] then CellServed(queue, [])
    else
      var left := queue[0].bytes - budget;
      if left > 0 then CellServed(queue[0 := queue[0].(bytes := left)], [])
      else
        var r := CellServe(queue[1..], -left);
        CellServed(r.queue, [queue[0].contents] + r.written)
  }

  datatype Cell = Cell(sched: Sched, queue: seq<CellPacket>, written: seq<string>)

  function CellTurn(cell: Cell): Cell
    requires WellFormed(cell.sched)
  {
    var r := CellServe(cell.queue, PACKET_SIZE);
    Cell(Advance(cell.sched), r.queue, cell.written + r.written)
  }

  /** `write_packets` at time `now`. The trace always repeats. */
  function CellWrite(cell: Cell, now: nat): Cell
    requires WellFormed(cell.sched) && cell.sched.repeat && now < MAX64
    decreases TimeLeft(cell.sched, now), |cell.sched.schedule| - cell.sched.next
  {
    if NextTime(cell.sched) > now then cell
    else AdvanceDecreases(cell.sched, now); CellWrite(CellTurn(cell), now)
  }

  /** Pending pieces as the cell queue holds them. */
  function AsCells(ps: seq<Piece>): seq<CellPacket> {
    if ps == [] then [] else [CellPacket(ps[0].rest, ps[0].packet.contents)] + AsCells(ps[1..])
  }

  lemma {:induction false} CellServeIsDrain(ps: seq<Piece>, budget: nat)
    requires AllFine(ps)
    ensures CellServe(AsCells(ps), budget) == CellServed(AsCells(Drain(ps, budget)), Payloads(Sent(ps, budget)))
    decreases |ps|
  {
    if budget == 0 || ps == [] {
    } else {
      assert Fine(ps[0]);
      var cells := AsCells(ps);
      assert cells[1..] == AsCells(ps[1..]);
      if ps[0].rest <= budget {
        CellServeIsDrain(ps[1..], budget - ps[0].rest);
        var sent := Sent(ps[1..], budget - ps[0].rest);
        assert [ps[0].packet.contents] + Payloads(sent) == Payloads([ps[0].packet] + sent);
      } else {
        var rest := [ps[0].(rest := ps[0].rest - budget)] + ps[1..];
        assert rest[1..] == ps[1..];
        assert AsCells(rest) == cells[0 := CellPacket(ps[0].rest - budget, ps[0].packet.contents)];
      }
    }
  }

  /** The same schedule position, and the same bytes pending of the same packets. */
  predicate Alike(link: Link, cell: Cell) {
    link.sched == cell.sched && cell.queue == AsCells(Pending(link.line))
  }

  /** The two ways of accounting agree: brought to the same instant, both emulators hand over the same
      packets and are alike again. This holds with every discipline but CoDel. */
  lemma {:induction false} SameDeliveries(link: Link, cell: Cell, now: nat, clock: Clock, arrivals: nat)
    returns (written: seq<string>)
    requires WellFormed(link.sched) && link.sched.repeat && now < MAX64 && Alike(link, cell)
    requires Keeps(link.line.queue, arrivals) && !link.line.queue.CoDelQueue?
    requires AllFine(Pending(link.line)) && ArrivedBefore(Pending(link.line), NextTime(link.sched))
    ensures match Rationalize(link, now, clock)
      case None => false
      case Some(l) => (
        Alike(l, CellWrite(cell, now))
        && l.line.output == link.line.output + written && CellWrite(cell, now).written == cell.written + written)
    decreases TimeLeft(link.sched, now), |link.sched.schedule| - link.sched.next
  {
    hide Serve, CellServe, Advance, Pending, Keeps, Drain, Sent, Fine, ArrivedBefore, AsCells;
    if NextTime(link.sched) > now {
      written := [];
      assert link.line.output + [] == link.line.output && cell.written + [] == cell.written;
    } else {
      var ps, t := Pending(link.line), NextTime(link.sched);
      AdvanceDecreases(link.sched, now);
      AdvanceLater(link.sched);
      ServeIsDrain(link.line, PACKET_SIZE, t, clock, arrivals);
      CellServeIsDrain(ps, PACKET_SIZE);
      DrainSends(ps, PACKET_SIZE);
      DrainKeepsArrivals(ps, PACKET_SIZE, t);
      var next := Turn(link, clock).value;
      LaterIsFine(Pending(next.line), t, NextTime(next.sched));
      var tail := SameDeliveries(next, CellTurn(cell), now, clock, arrivals);
      var now' := Payloads(Sent(ps, PACKET_SIZE));
      written := now' + tail;
      assert link.line.output + now' + tail == link.line.output + written;
      assert cell.written + now' + tail == cell.written + written;
    }
  }

  lemma LaterIsFine(ps: seq<Piece>, t: nat, u: nat)
    requires ArrivedBefore(ps, t) && t <= u
    ensures ArrivedBefore(ps, u)
  {
  }
}
