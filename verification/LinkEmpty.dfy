/** Packets that the link cannot send, above all those without bytes, which it accepts: an assertion fails
    at the opportunity that comes to one. This says exactly when. */
module LinkEmpty {
  import opened Machine
  import opened Text
  import opened Packets
  import opened Disciplines
  import opened LinkSpec
  import opened LinkFluid
  import opened LinkRuns
  import P = PieSpec

  // ---------------------------------------------------------------- one opportunity

  /** The bytes pending before packet j. */
  function BytesBefore(ps: seq<Piece>, j: nat): nat
    requires j <= |ps|
  {
    if j == 0 then 0 else ps[0].rest + BytesBefore(ps[1..], j - 1)
  }

  /** A piece that the link cannot send at time t: it is empty, longer than 1504 bytes or than its packet,
      or of a packet from the future. */
  predicate Unsendable(p: Piece, t: nat) {
    p.rest == 0 || p.rest > 1504 || p.rest > p.packet.Size() || p.packet.arrival > t
  }

  /** Piece j is one that the first `budget` bytes come to. */
  predicate UnsendableAt(ps: seq<Piece>, budget: nat, t: nat, j: nat) {
    j < |ps| && Unsendable(ps[j], t) && BytesBefore(ps, j) < budget
  }

  ghost predicate MeetsUnsendable(ps: seq<Piece>, budget: nat, t: nat) {
    exists j: nat :: UnsendableAt(ps, budget, t, j)
  }

  lemma MeetsStep(ps: seq<Piece>, budget: nat, t: nat)
    ensures MeetsUnsendable(ps, budget, t) <==>
      ps != [] && budget > 0
      && (Unsendable(ps[0], t) || (ps[0].rest < budget && MeetsUnsendable(ps[1..], budget - ps[0].rest, t)))
  {
    if MeetsUnsendable(ps, budget, t) {
      var j: nat :| UnsendableAt(ps, budget, t, j);
      if j > 0 { assert UnsendableAt(ps[1..], budget - ps[0].rest, t, j - 1); }
    }
    if ps != [] && budget > 0 {
      if Unsendable(ps[0], t) {
        assert UnsendableAt(ps, budget, t, 0);
      } else if ps[0].rest < budget && MeetsUnsendable(ps[1..], budget - ps[0].rest, t) {
        var j: nat :| UnsendableAt(ps[1..], budget - ps[0].rest, t, j);
        assert UnsendableAt(ps, budget, t, j + 1);
      }
    }
  }

  /** For every discipline but CoDel an opportunity fails an assertion exactly when some pending packet is
      one that cannot be sent, and fewer bytes than it carries are pending before that packet. */
  lemma {:induction false} ServeFailsExactly(l: Line, budget: nat, t: nat, clock: Clock, arrivals: nat)
    requires Keeps(l.queue, arrivals) && !l.queue.CoDelQueue?
    ensures Serve(l, budget, t, clock).None? <==> MeetsUnsendable(Pending(l), budget, t)
    decreases budget
  {
    hide Load, Send, Keeps, Drain, Sent, MeetsUnsendable;
    var ps := Pending(l);
    MeetsStep(ps, budget, t);
    if budget == 0 || ps == [] {
      if ps == [] { NothingPending(l); }
    } else {
      SomethingPending(l);
      LoadKeepsPending(l, clock, arrivals);
      var m := Load(l, clock).value;
      var tail := Whole(Contents(m.queue));
      assert ps[1..] == tail;
      if Sendable(m, t) {
        var amount := Min(budget, m.left);
        SendStep(m, amount, t, tail, budget);
        SendKeepsQueue(m, amount, t);
        var n := Send(m, amount, t);
        if m.left <= budget {
          ServeFailsExactly(n, budget - amount, t, clock, arrivals);
          MeetsStep(tail, 0, t);
        } else {
          assert Serve(n, 0, t, clock) == Some(n);
        }
      }
    }
  }

  // ---------------------------------------------------------------- a run

  /** An empty packet in front of the queue fails the assertion under every discipline. */
  lemma EmptyFront(l: Line, t: nat, budget: nat, clock: Clock, arrivals: nat)
    requires Keeps(l.queue, arrivals) && l.left == 0 && budget > 0
    requires Contents(l.queue) != [] && Contents(l.queue)[0].contents == ""
    ensures Serve(l, budget, t, clock) == None
  {
    hide Get, Keeps;
    GetKeeps(l.queue, clock(l.dequeues), arrivals);
  }

  /** An opportunity for which nothing is pending does nothing. */
  lemma {:induction false} IdleLine(l: Line, times: seq<nat>, clock: Clock)
    requires l.left == 0 && Contents(l.queue) == []
    ensures ServeAll(l, times, clock) == Some(l)
    decreases |times|
  {
    if times != [] { IdleLine(l, times[..|times| - 1], clock); }
  }

  lemma OnlyEmpty(l: Limits, p: Packet)
    requires p.contents == ""
    ensures Good(l, [p]) && Good(l, []) && [] + [p] == [p]
  {
    BytesOfNothing();
    BytesOfOne(p);
  }

  lemma HeadDropEmpty(l: Limits, p: Packet)
    requires p.contents == ""
    ensures Excess(l, [] + [p]) == 0 && DropHead(l, [], p) == Some([p])
  {
    hide DropHead, Good;
    OnlyEmpty(l, p);
    DropHeadExactly(l, [], p);
    assert [p][0..] == [p];
  }

  lemma PieEmpty(cfg: P.Config, s: P.Pie, p: Packet, r: Reading)
    requires s.q == [] && P.InBounds(cfg, s) && p.contents == ""
    ensures P.Enqueue(cfg, s, p, r.first, r.draw).Some? && P.Enqueue(cfg, s, p, r.first, r.draw).value.q == [p]
  {
    hide P.Enqueue, P.InBounds, Good;
    OnlyEmpty(cfg.limits, p);
    BytesOfNothing();
    P.TurnedAwayOnlyUnderPressure(cfg, s, p, r.first, r.draw);
    P.EnqueueKeeps(cfg, s, p, r.first, r.draw);
  }

  /** An empty queue takes an empty packet, under every discipline. */
  lemma PutEmpty(x: Queue, p: Packet, r: Reading)
    requires Keeps(x, 0) && Contents(x) == [] && p.contents == ""
    ensures var y := Put(x, p, r); y.Some? && Contents(y.value) == [p] && Keeps(y.value, 1)
  {
    hide P.Enqueue, DropHead, DropTail, Excess, Good;
    PutKeeps(x, p, r, 0);
    match x
    case Infinite(q) => OnlyEmpty(Limits(0, 0), p);
    case TailDrop(l, q) => OnlyEmpty(l, p); DropTailExactly(l, q, p);
    case HeadDrop(l, q) => HeadDropEmpty(l, p);
    case CoDelQueue(cfg, s) => OnlyEmpty(cfg.limits, p); DropTailExactly(cfg.limits, s.q, p);
    case PieQueue(cfg, s) => PieEmpty(cfg, s, p, r);
  }

  /** Some opportunity lies after a, and not after b. */
  ghost predicate OpportunityIn(d: Sched, a: nat, b: nat)
    requires WellFormed(d)
  {
    exists k: nat :: a < OpportunityTime(d, k) <= b
  }

  lemma NextAfter(d: Sched, end: nat, a: nat, b: nat)
    requires AtStart(d) && UsesUpTo(d, 0, end, a) && (d.repeat || d.base + Period(d) <= MAX64)
    ensures OpportunityIn(d, a, b) <==> OpportunityTime(d, end) <= b
  {
    hide OpportunityTime;
    if OpportunityIn(d, a, b) {
      var k: nat :| a < OpportunityTime(d, k) <= b;
      OpportunitiesInOrder(d, end, k);
    }
  }

  /** A fresh link that only catches up stays empty. */
  lemma FreshCatchesUp(start: Link, now: nat, clock: Clock) returns (end: nat)
    requires Fresh(start) && now < MAX64
    ensures UsesUpTo(start.sched, 0, end, now)
    ensures var o := Rationalize(start, now, clock);
      o.Some? && o.value.line == start.line && o.value.sched == Nth(start.sched, end)
  {
    hide Rationalize, Keeps, UsesUpTo;
    NoTimes(start.sched, 0);
    ServeNone(start.line, clock);
    end := RationalizeUses(start, start.sched, 0, 0, start.line, now, clock);
    IdleLine(start.line, Times(start.sched, 0, end), clock);
  }

  /** Only a packet of more than 1504 bytes is refused. */
  lemma TooLargeExactly(link: Link, contents: string, now: nat, r: Reading, clock: Clock)
    requires WellFormed(link.sched) && now < MAX64
    ensures ReadPacket(link, contents, now, r, clock) == TooLarge <==> |contents| > 1504
  {
    hide Rationalize, Put;
  }

  /** One turn decides what becomes of an empty packet that waits alone. */
  lemma EmptyWaits(link: Link, b: nat, clock: Clock, arrivals: nat)
    requires WellFormed(link.sched) && b < MAX64 && Keeps(link.line.queue, arrivals) && link.line.left == 0
    requires Contents(link.line.queue) != [] && Contents(link.line.queue)[0].contents == ""
    ensures Rationalize(link, b, clock) == if NextTime(link.sched) <= b then None else Some(link)
  {
    hide Serve, Keeps, Advance;
    EmptyFront(link.line, NextTime(link.sched), PACKET_SIZE, clock, arrivals);
  }

  /** The lower bound on packet sizes is needed, under every discipline: an empty packet passes
      `read_packet`, and the run aborts exactly when an opportunity lies between its arrival and the next
      time the link is brought up to date. */
  lemma EmptyPacketAborts(start: Link, a: nat, b: nat, r: Reading, clock: Clock)
    requires Fresh(start) && a < MAX64 && b < MAX64
    requires start.sched.repeat || start.sched.base + Period(start.sched) <= MAX64
    ensures Exec(start, [Arrive("", a, r), Tick(b)], clock) == Aborted <==> OpportunityIn(start.sched, a, b)
  {
    hide Rationalize, Keeps, Put, OpportunityTime, OpportunityIn, Bytes;
    var d, p := start.sched, Packet(a, "");
    var end := FreshCatchesUp(start, a, clock);
    var l := Rationalize(start, a, clock).value;
    PutEmpty(l.line.queue, p, r);
    BytesOfNothing();
    BytesOfOne(p);
    var ops := [Arrive("", a, r), Tick(b)];
    assert ops[..1] == [Arrive("", a, r)] && ops[..1][..0] == [];
    var o := ReadPacket(start, "", a, r, clock);
    assert o.Running? && o.link.sched == l.sched && o.link.line.left == 0;
    assert Exec(start, ops[..1], clock) == o;
    EmptyWaits(o.link, b, clock, 1);
    assert Possible(d, end);
    OpportunityIsNext(d, end);
    NextAfter(d, end, a, b);
  }
}
