/** The closed form of the link's nested loops: bytes drain from the pending packets like a fluid, one
    maximal packet's worth at each opportunity. */
module LinkFluid {
  import opened Machine
  import opened Text
  import opened Packets
  import opened Disciplines
  import opened LinkSpec

  /** A packet on its way, with the bytes of it still to be sent. */
  datatype Piece = Piece(packet: Packet, rest: nat)

  function Whole(q: seq<Packet>): seq<Piece> {
    if q == [] then [] else [Piece(q[0], q[0].Size())] + Whole(q[1..])
  }

  /** The packet in transit, if any, and the queue behind it. */
  function Pending(l: Line): seq<Piece> {
    (if l.left > 0 then [Piece(l.transit, l.left)] else []) + Whole(Contents(l.queue))
  }

  function Backlog(ps: seq<Piece>): nat {
    if ps == [] then 0 else ps[0].rest + Backlog(ps[1..])
  }

  /** The pieces after `budget` bytes have been sent. */
  function Drain(ps: seq<Piece>, budget: nat): seq<Piece> {
    if ps == [] || budget == 0 then ps
    else if ps[0].rest <= budget then Drain(ps[1..], budget - ps[0].rest)
    else [ps[0].(rest := ps[0].rest - budget)] + ps[1..]
  }

  /** The packets whose last byte is among the first `budget` bytes. */
  function Sent(ps: seq<Piece>, budget: nat): seq<Packet> {
    if ps == [] || budget == 0 then []
    else if ps[0].rest <= budget then [ps[0].packet] + Sent(ps[1..], budget - ps[0].rest)
    else []
  }

  predicate Fine(p: Piece) {
    0 < p.rest <= p.packet.Size() <= PACKET_SIZE
  }

  predicate AllFine(ps: seq<Piece>) {
    forall i :: 0 <= i < |ps| ==> Fine(ps[i])
  }

  predicate ArrivedBefore(ps: seq<Piece>, t: nat) {
    forall i :: 0 <= i < |ps| ==> ps[i].packet.arrival <= t
  }

  // ---------------------------------------------------------------- laws of the fluid

  /** Bytes are conserved: a budget sends what it can and leaves the rest. */
  lemma {:induction false} DrainSends(ps: seq<Piece>, budget: nat)
    requires AllFine(ps)
    ensures Backlog(Drain(ps, budget)) == if budget <= Backlog(ps) then Backlog(ps) - budget else 0
    ensures AllFine(Drain(ps, budget))
    decreases |ps|
  {
    if ps != [] && budget > 0 {
      if ps[0].rest <= budget {
        DrainSends(ps[1..], budget - ps[0].rest);
      } else {
        assert ([ps[0].(rest := ps[0].rest - budget)] + ps[1..])[1..] == ps[1..];
      }
    }
  }

  /** Draining a and then b bytes is draining a + b. */
  lemma {:induction false} DrainTwice(ps: seq<Piece>, a: nat, b: nat)
    requires AllFine(ps)
    ensures Drain(Drain(ps, a), b) == Drain(ps, a + b)
    ensures Sent(ps, a) + Sent(Drain(ps, a), b) == Sent(ps, a + b)
    decreases |ps|
  {
    if ps != [] && a > 0 {
      if ps[0].rest <= a {
        DrainTwice(ps[1..], a - ps[0].rest, b);
        assert [ps[0].packet] + Sent(ps[1..], a - ps[0].rest) + Sent(Drain(ps, a), b)
               == [ps[0].packet] + (Sent(ps[1..], a - ps[0].rest) + Sent(Drain(ps, a), b));
      } else {
        assert ([ps[0].(rest := ps[0].rest - a)] + ps[1..])[1..] == ps[1..];
        assert [] + Sent(Drain(ps, a), b) == Sent(Drain(ps, a), b);
      }
    } else {
      assert [] + Sent(ps, b) == Sent(ps, b);
    }
  }

  lemma {:induction false} DrainKeepsArrivals(ps: seq<Piece>, budget: nat, t: nat)
    requires ArrivedBefore(ps, t)
    ensures ArrivedBefore(Drain(ps, budget), t)
    decreases |ps|
  {
    if ps != [] && budget > 0 && ps[0].rest <= budget {
      DrainKeepsArrivals(ps[1..], budget - ps[0].rest, t);
    }
  }

  /** The bytes up to and including packet j. */
  function Cumulative(ps: seq<Piece>, j: nat): nat
    requires j < |ps|
  {
    ps[0].rest + if j == 0 then 0 else Cumulative(ps[1..], j - 1)
  }

  /** The packets sent are the longest prefix whose bytes fit the budget. */
  lemma {:induction false} SentIsPrefix(ps: seq<Piece>, budget: nat)
    requires AllFine(ps)
    ensures |Sent(ps, budget)| <= |ps|
    ensures forall j :: 0 <= j < |Sent(ps, budget)| ==> Sent(ps, budget)[j] == ps[j].packet
    ensures forall j :: 0 <= j < |ps| ==> (j < |Sent(ps, budget)| <==> Cumulative(ps, j) <= budget)
    decreases |ps|
  {
    if ps != [] {
      if 0 < budget && ps[0].rest <= budget {
        var tail := ps[1..];
        SentIsPrefix(tail, budget - ps[0].rest);
        var sent := Sent(ps, budget);
        assert sent == [ps[0].packet] + Sent(tail, budget - ps[0].rest);
        forall j | 0 < j < |ps| ensures j < |sent| <==> Cumulative(ps, j) <= budget {
          assert j - 1 < |Sent(tail, budget - ps[0].rest)| <==> Cumulative(tail, j - 1) <= budget - ps[0].rest;
        }
      } else {
        forall j | 0 <= j < |ps| ensures Cumulative(ps, j) > budget {
          CumulativePositive(ps, j);
        }
      }
    }
  }

  lemma {:induction false} CumulativePositive(ps: seq<Piece>, j: nat)
    requires j < |ps|
    ensures Cumulative(ps, j) >= ps[0].rest
  {
  }

  // ---------------------------------------------------------------- the inner loop

  /** Fetching the next packet changes nothing about what is pending. */
  lemma LoadKeepsPending(l: Line, clock: Clock, arrivals: nat)
    requires Keeps(l.queue, arrivals) && !l.queue.CoDelQueue? && Pending(l) != []
    ensures var m := Load(l, clock);
      m.Some? && Keeps(m.value.queue, arrivals) && !m.value.queue.CoDelQueue?
      && Pending(l) == [Piece(m.value.transit, m.value.left)] + Whole(Contents(m.value.queue))
      && m.value.departures == l.departures && m.value.output == l.output && m.value.discarded == l.discarded
  {
    hide Get, Keeps;
    if l.left == 0 {
      var q := Contents(l.queue);
      assert Pending(l) == Whole(q);
      GetKeeps(l.queue, clock(l.dequeues), arrivals);
      var g := Get(l.queue, clock(l.dequeues)).value;
      assert q == [g.p] + Contents(g.x);
      assert q[1..] == Contents(g.x);
    }
  }

  function Stamp(packets: seq<Packet>, t: nat): seq<Departure> {
    seq(|packets|, i requires 0 <= i < |packets| => Departure(t, packets[i]))
  }

  function Payloads(packets: seq<Packet>): seq<string> {
    seq(|packets|, i requires 0 <= i < |packets| => packets[i].contents)
  }

  /** What the inner loop must come to. */
  predicate Served(before: Line, budget: nat, t: nat, after: Line) {
    var ps := Pending(before);
    && Pending(after) == Drain(ps, budget)
    && after.departures == before.departures + Stamp(Sent(ps, budget), t)
    && after.output == before.output + Payloads(Sent(ps, budget))
    && after.discarded == before.discarded
  }

  lemma SendStep(m: Line, amount: nat, t: nat, tail: seq<Piece>, budget: nat)
    requires 0 < m.left && amount == Min(budget, m.left) && 0 < budget && tail == Whole(Contents(m.queue))
    ensures var ps := [Piece(m.transit, m.left)] + tail; var n := Send(m, amount, t);
      if m.left <= budget then
        Pending(n) == tail && n.departures == m.departures + [Departure(t, m.transit)]
        && n.output == m.output + [m.transit.contents]
        && Drain(ps, budget) == Drain(tail, budget - amount)
        && Sent(ps, budget) == [m.transit] + Sent(tail, budget - amount)
      else
        budget == amount && Pending(n) == Drain(ps, budget) && Sent(ps, budget) == []
        && n.departures == m.departures && n.output == m.output
  {
    var ps := [Piece(m.transit, m.left)] + tail;
    assert ps[1..] == tail;
    assert [] + tail == tail;
  }

  /** The loop with byte counting is the fluid: for every discipline but CoDel, none of its assertions
      fails, and it sends exactly the first `budget` pending bytes. */
  lemma {:induction false} ServeIsDrain(l: Line, budget: nat, t: nat, clock: Clock, arrivals: nat)
    requires Keeps(l.queue, arrivals) && !l.queue.CoDelQueue?
    requires AllFine(Pending(l)) && ArrivedBefore(Pending(l), t)
    ensures var r := Serve(l, budget, t, clock);
      r.Some? && Served(l, budget, t, r.value) && Keeps(r.value.queue, arrivals) && !r.value.queue.CoDelQueue?
    decreases budget
  {
    hide Load, Send, Keeps, Drain, Sent, Fine;
    var ps := Pending(l);
    if budget == 0 || ps == [] {
      NothingSent(ps, budget);
      assert l.departures + [] == l.departures && l.output + [] == l.output;
      if ps == [] { NothingPending(l); }
    } else {
      SomethingPending(l);
      LoadKeepsPending(l, clock, arrivals);
      var m := Load(l, clock).value;
      FirstFine(ps, t);
      var tail := Whole(Contents(m.queue));
      assert ps[1..] == tail;
      var amount := Min(budget, m.left);
      SendStep(m, amount, t, tail, budget);
      SendKeepsQueue(m, amount, t);
      var n := Send(m, amount, t);
      if m.left <= budget {
        ServeIsDrain(n, budget - amount, t, clock, arrivals);
        StampCons(m.transit, Sent(tail, budget - amount), t, l.departures, l.output);
      } else {
        assert l.departures + [] == l.departures && l.output + [] == l.output;
        assert Serve(n, 0, t, clock) == Some(n);
      }
    }
  }

  lemma NothingSent(ps: seq<Piece>, budget: nat)
    requires budget == 0 || ps == []
    ensures Drain(ps, budget) == ps && Sent(ps, budget) == []
  {
  }

  lemma NothingPending(l: Line)
    requires Pending(l) == []
    ensures l.left == 0 && Contents(l.queue) == []
  {
  }

  lemma SomethingPending(l: Line)
    requires Pending(l) != []
    ensures !(l.left == 0 && Contents(l.queue) == [])
  {
  }

  lemma FirstFine(ps: seq<Piece>, t: nat)
    requires ps != [] && AllFine(ps) && ArrivedBefore(ps, t)
    ensures 0 < ps[0].rest <= ps[0].packet.Size() <= PACKET_SIZE && ps[0].packet.arrival <= t
    ensures AllFine(ps[1..]) && ArrivedBefore(ps[1..], t)
  {
  }

  lemma SendKeepsQueue(m: Line, amount: nat, t: nat)
    requires amount <= m.left
    ensures Send(m, amount, t).queue == m.queue && Send(m, amount, t).discarded == m.discarded
  {
  }

  lemma StampCons(p: Packet, sent: seq<Packet>, t: nat, departures: seq<Departure>, output: seq<string>)
    ensures departures + [Departure(t, p)] + Stamp(sent, t) == departures + Stamp([p] + sent, t)
    ensures output + [p.contents] + Payloads(sent) == output + Payloads([p] + sent)
  {
  }

  // ---------------------------------------------------------------- many opportunities

  /** The opportunity, counted from 0, at which packet j leaves: the one that carries its last byte. */
  function Turns(ps: seq<Piece>, j: nat): nat
    requires j < |ps|
  {
    var c := Cumulative(ps, j);
    if c == 0 then 0 else (c - 1) / PACKET_SIZE
  }

  /** How many of the pending packets leave within n opportunities. */
  function Leaving(ps: seq<Piece>, n: nat): nat {
    |Sent(ps, PACKET_SIZE * n)|
  }

  /** The departures of packets `i` and later, among those that leave at these times. */
  function Schedule(ps: seq<Piece>, times: seq<nat>, i: nat): seq<Departure>
    requires AllFine(ps) && i <= Leaving(ps, |times|)
    decreases Leaving(ps, |times|) - i
  {
    SentIsPrefix(ps, PACKET_SIZE * |times|);
    if i == Leaving(ps, |times|) then []
    else
      TurnInRange(ps, i, |times|);
      [Departure(times[Turns(ps, i)], ps[i].packet)] + Schedule(ps, times, i + 1)
  }

  lemma TurnInRange(ps: seq<Piece>, j: nat, n: nat)
    requires AllFine(ps) && j < |ps| && j < Leaving(ps, n)
    ensures Turns(ps, j) < n
  {
    SentIsPrefix(ps, PACKET_SIZE * n);
    CumulativePositive(ps, j);
  }

  /** A packet leaves at opportunity n, counted from 0, exactly if its last byte is not within the
      first n opportunities but within n + 1: that is the ceiling of its cumulative bytes divided by
      the opportunity size, less one. */
  lemma TurnExactly(ps: seq<Piece>, j: nat, n: nat)
    requires AllFine(ps) && j < |ps|
    ensures Turns(ps, j) == n <==> Leaving(ps, n) <= j < Leaving(ps, n + 1)
  {
    SentIsPrefix(ps, PACKET_SIZE * n);
    SentIsPrefix(ps, PACKET_SIZE * (n + 1));
    CumulativePositive(ps, j);
  }

  lemma LeavingGrows(ps: seq<Piece>, n: nat)
    requires AllFine(ps)
    ensures Leaving(ps, n) <= Leaving(ps, n + 1) <= |ps|
    ensures Sent(ps, PACKET_SIZE * (n + 1)) == Sent(ps, PACKET_SIZE * n) + Sent(Drain(ps, PACKET_SIZE * n), PACKET_SIZE)
  {
    assert PACKET_SIZE * (n + 1) == PACKET_SIZE * n + PACKET_SIZE;
    DrainTwice(ps, PACKET_SIZE * n, PACKET_SIZE);
    SentIsPrefix(ps, PACKET_SIZE * (n + 1));
  }

  /** One more opportunity adds the packets that leave at it. */
  lemma {:induction false} ScheduleGrows(ps: seq<Piece>, times: seq<nat>, t: nat, i: nat)
    requires AllFine(ps) && i <= Leaving(ps, |times|)
    ensures var n := |times|; var after := times + [t];
      i <= Leaving(ps, n + 1)
      && Schedule(ps, after, i) == Schedule(ps, times, i) + Stamp(Sent(Drain(ps, PACKET_SIZE * n), PACKET_SIZE), t)
    decreases Leaving(ps, |times|) - i
  {
    hide Drain, Sent, Cumulative, Fine;
    var n, after := |times|, times + [t];
    LeavingGrows(ps, n);
    if i < Leaving(ps, n) {
      ScheduleGrows(ps, times, t, i + 1);
      SentIsPrefix(ps, PACKET_SIZE * n);
      TurnInRange(ps, i, n);
      TurnInRange(ps, i, n + 1);
      var k := Turns(ps, i);
      assert after[k] == times[k];
      var last := Stamp(Sent(Drain(ps, PACKET_SIZE * n), PACKET_SIZE), t);
      assert [Departure(times[k], ps[i].packet)] + (Schedule(ps, times, i + 1) + last)
             == [Departure(times[k], ps[i].packet)] + Schedule(ps, times, i + 1) + last;
    } else {
      LastTurn(ps, times, t, i);
    }
  }

  lemma {:induction false} LastTurn(ps: seq<Piece>, times: seq<nat>, t: nat, i: nat)
    requires AllFine(ps) && Leaving(ps, |times|) <= i <= Leaving(ps, |times| + 1)
    ensures var now := Sent(Drain(ps, PACKET_SIZE * |times|), PACKET_SIZE);
      var k := i - Leaving(ps, |times|);
      k <= |now| && Schedule(ps, times + [t], i) == Stamp(now[k..], t)
    decreases Leaving(ps, |times| + 1) - i
  {
    hide Drain, Sent, Cumulative, Fine;
    var n, after := |times|, times + [t];
    var now := Sent(Drain(ps, PACKET_SIZE * n), PACKET_SIZE);
    var k := i - Leaving(ps, n);
    LeavingGrows(ps, n);
    if i < Leaving(ps, n + 1) {
      LastTurn(ps, times, t, i + 1);
      TurnExactly(ps, i, n);
      SentIsPrefix(ps, PACKET_SIZE * (n + 1));
      assert now[k] == Sent(ps, PACKET_SIZE * (n + 1))[i] == ps[i].packet;
      assert now[k..] == [now[k]] + now[k + 1..];
      assert Stamp(now[k..], t) == [Departure(t, now[k])] + Stamp(now[k + 1..], t);
    } else {
      assert now[k..] == [];
    }
  }

  /** The closed form: n opportunities with no arrivals between send min(backlog, 1504 n) bytes, and
      each pending packet departs, in order, at the opportunity that carries its last byte. */
  lemma {:induction false} ServeAllClosedForm(l: Line, times: seq<nat>, clock: Clock, arrivals: nat)
    requires Keeps(l.queue, arrivals) && !l.queue.CoDelQueue?
    requires AllFine(Pending(l)) && forall i :: 0 <= i < |times| ==> ArrivedBefore(Pending(l), times[i])
    ensures var r := ServeAll(l, times, clock);
      r.Some? && Keeps(r.value.queue, arrivals) && !r.value.queue.CoDelQueue?
      && Pending(r.value) == Drain(Pending(l), PACKET_SIZE * |times|)
      && r.value.departures == l.departures + Schedule(Pending(l), times, 0)
      && r.value.discarded == l.discarded
    decreases |times|
  {
    hide Serve, Keeps, Drain, Sent, Fine, ArrivedBefore;
    var ps := Pending(l);
    if times == [] {
      NothingSent(ps, 0);
      assert l.departures + [] == l.departures;
    } else {
      var n := |times| - 1;
      var before, t := times[..n], times[n];
      ServeAllClosedForm(l, before, clock, arrivals);
      var m := ServeAll(l, before, clock).value;
      DrainSends(ps, PACKET_SIZE * n);
      DrainKeepsArrivals(ps, PACKET_SIZE * n, t);
      ServeIsDrain(m, PACKET_SIZE, t, clock, arrivals);
      DrainTwice(ps, PACKET_SIZE * n, PACKET_SIZE);
      assert PACKET_SIZE * n + PACKET_SIZE == PACKET_SIZE * |times|;
      ScheduleGrows(ps, before, t, 0);
      assert before + [t] == times;
      var last := Stamp(Sent(Drain(ps, PACKET_SIZE * n), PACKET_SIZE), t);
      assert l.departures + Schedule(ps, before, 0) + last == l.departures + (Schedule(ps, before, 0) + last);
    }
  }

  /** n opportunities with no arrivals between send as many bytes as they can carry, or all there are. */
  lemma BytesSent(l: Line, times: seq<nat>, clock: Clock, arrivals: nat)
    requires Keeps(l.queue, arrivals) && !l.queue.CoDelQueue?
    requires AllFine(Pending(l)) && forall i :: 0 <= i < |times| ==> ArrivedBefore(Pending(l), times[i])
    ensures var r := ServeAll(l, times, clock);
      r.Some? && Backlog(Pending(l)) - Backlog(Pending(r.value)) == Min(Backlog(Pending(l)), PACKET_SIZE * |times|)
  {
    hide ServeAll, Pending, Drain, AllFine, ArrivedBefore, Keeps;
    ServeAllClosedForm(l, times, clock, arrivals);
    DrainSends(Pending(l), PACKET_SIZE * |times|);
  }

  lemma {:induction false} ScheduleAt(ps: seq<Piece>, times: seq<nat>, i: nat, j: nat)
    requires AllFine(ps) && i <= j < Leaving(ps, |times|)
    ensures j < |ps| && Turns(ps, j) < |times|
    ensures |Schedule(ps, times, i)| == Leaving(ps, |times|) - i
    ensures Schedule(ps, times, i)[j - i] == Departure(times[Turns(ps, j)], ps[j].packet)
    decreases Leaving(ps, |times|) - i
  {
    hide Drain, Sent, Cumulative, Fine;
    SentIsPrefix(ps, PACKET_SIZE * |times|);
    TurnInRange(ps, j, |times|);
    if i < j {
      ScheduleAt(ps, times, i + 1, j);
    } else if i + 1 < Leaving(ps, |times|) {
      ScheduleAt(ps, times, i + 1, i + 1);
    }
  }

  /** Between `before` and `after`, exactly the pending packets that leave within n opportunities from
      number `start` on have departed, in order, each at the time of its own opportunity. */
  ghost predicate DepartedInTurn(ps: seq<Piece>, d: Sched, start: nat, n: nat,
                                 before: seq<Departure>, after: seq<Departure>)
    requires WellFormed(d)
  {
    && |after| == |before| + Leaving(ps, n) && Leaving(ps, n) <= |ps|
    && after[..|before|] == before
    && forall j :: 0 <= j < Leaving(ps, n) ==>
         after[|before| + j] == Departure(OpportunityTime(d, start + Turns(ps, j)), ps[j].packet)
  }

  lemma ScheduleInTurn(ps: seq<Piece>, d: Sched, start: nat, end: nat, before: seq<Departure>)
    requires WellFormed(d) && AllFine(ps) && start <= end
    ensures |Times(d, start, end)| == end - start
    ensures DepartedInTurn(ps, d, start, end - start, before, before + Schedule(ps, Times(d, start, end), 0))
  {
    hide Drain, Sent, Fine, Turns, OpportunityTime, Times;
    var times, n := Times(d, start, end), end - start;
    TimesLength(d, start, end);
    ScheduleLength(ps, times);
    forall j | 0 <= j < Leaving(ps, n)
      ensures j < |ps| && Schedule(ps, times, 0)[j] == Departure(OpportunityTime(d, start + Turns(ps, j)), ps[j].packet)
    {
      ScheduleAt(ps, times, 0, j);
      TimesAt(d, start, end, Turns(ps, j));
    }
  }

  /** The link brought up to `now` with no arrivals between: the j-th pending packet leaves at
      opportunity number `start` plus the ceiling of C_j / 1504 less one, for exactly those packets
      for which that opportunity has come; its time is given by the trace. */
  lemma RationalizeClosedForm(link: Link, d: Sched, start: nat, now: nat, clock: Clock, arrivals: nat)
    returns (end: nat)
    requires AtStart(d) && Possible(d, start) && link.sched == Nth(d, start) && now < MAX64
    requires d.repeat || d.base + Period(d) <= MAX64
    requires Keeps(link.line.queue, arrivals) && !link.line.queue.CoDelQueue?
    requires AllFine(Pending(link.line)) && ArrivedBefore(Pending(link.line), NextTime(link.sched))
    ensures start <= end && UsesUpTo(d, start, end, now)
    ensures match Rationalize(link, now, clock)
      case None => false
      case Some(r) => (
        r.sched == Nth(d, end)
        && r.opportunities == link.opportunities + Times(d, start, end)
        && Pending(r.line) == Drain(Pending(link.line), PACKET_SIZE * (end - start))
        && DepartedInTurn(Pending(link.line), d, start, end - start, link.line.departures, r.line.departures))
  {
    hide Serve, Rationalize, Keeps, Pending, Drain, Fine, ArrivedBefore, OpportunityTime, DepartedInTurn,
      Times, UsesUpTo, ServeAll, Schedule;
    var ps := Pending(link.line);
    NoTimes(d, start);
    ServeNone(link.line, clock);
    end := RationalizeUses(link, d, start, start, link.line, now, clock);
    var times := Times(d, start, end);
    forall i | 0 <= i < |times| ensures ArrivedBefore(ps, times[i]) {
      LaterArrived(d, start, end, i, ps);
    }
    ServeAllClosedForm(link.line, times, clock, arrivals);
    ScheduleInTurn(ps, d, start, end, link.line.departures);
  }

  lemma ServeNone(l: Line, clock: Clock)
    ensures ServeAll(l, [], clock) == Some(l)
  {
  }

  lemma ScheduleLength(ps: seq<Piece>, times: seq<nat>)
    requires AllFine(ps)
    ensures |Schedule(ps, times, 0)| == Leaving(ps, |times|) <= |ps|
  {
    SentIsPrefix(ps, PACKET_SIZE * |times|);
    if Leaving(ps, |times|) > 0 { ScheduleAt(ps, times, 0, 0); }
  }

  lemma LaterArrived(d: Sched, start: nat, end: nat, i: nat, ps: seq<Piece>)
    requires AtStart(d) && Possible(d, start) && start <= end && (d.repeat || d.base + Period(d) <= MAX64)
    requires i < |Times(d, start, end)| && ArrivedBefore(ps, NextTime(Nth(d, start)))
    ensures ArrivedBefore(ps, Times(d, start, end)[i])
  {
    hide OpportunityTime;
    OpportunityIsNext(d, start);
    TimesLength(d, start, end);
    TimesAt(d, start, end, i);
    OpportunitiesInOrder(d, start, start + i);
  }

  lemma TimesLength(d: Sched, start: nat, end: nat)
    requires WellFormed(d) && start <= end
    ensures |Times(d, start, end)| == end - start
  {
    if start < end { TimesAt(d, start, end, 0); }
  }
}
