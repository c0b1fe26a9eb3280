/** Whole runs of the link: conservation of packets and bytes, and causality, for every discipline and
    whatever the clock does. */
module LinkRuns {
  import opened Machine
  import opened Text
  import opened Packets
  import opened Disciplines
  import opened LinkSpec
  import opened LinkFluid

  /** The packets behind a list of departures. */
  function Departed(ds: seq<Departure>): seq<Packet> {
    seq(|ds|, i requires 0 <= i < |ds| => ds[i].packet)
  }

  function DroppedPackets(drops: seq<DropRecord>): nat {
    if drops == [] then 0 else drops[|drops| - 1].packets + DroppedPackets(drops[..|drops| - 1])
  }

  function DroppedBytes(drops: seq<DropRecord>): nat {
    if drops == [] then 0 else drops[|drops| - 1].bytes + DroppedBytes(drops[..|drops| - 1])
  }

  /** The packet in transit, if there is one. */
  function InTransit(l: Line): seq<Packet> {
    if l.left > 0 then [l.transit] else []
  }

  /** Everything that has left the queue or is still in it, in the order in which it was queued,
      without the packets CoDel discards. */
  function OnTheWay(l: Line): seq<Packet> {
    InTransit(l) + Contents(l.queue)
  }

  // ---------------------------------------------------------------- the invariant

  predicate GoodPacket(p: Packet, before: nat) {
    0 < p.Size() <= PACKET_SIZE && p.arrival < before
  }

  predicate AllGood(q: seq<Packet>, before: nat) {
    forall i :: 0 <= i < |q| ==> GoodPacket(q[i], before)
  }

  lemma AllGoodConcat(a: seq<Packet>, b: seq<Packet>, t: nat)
    ensures AllGood(a + b, t) <==> AllGood(a, t) && AllGood(b, t)
  {
    var all := a + b;
    if AllGood(all, t) {
      assert forall i :: 0 <= i < |a| ==> a[i] == all[i];
      assert forall i :: 0 <= i < |b| ==> b[i] == all[|a| + i];
    }
  }

  /** What holds of the line when the next opportunity is at time `t`. */
  ghost predicate LineInv(l: Line, t: nat, arrivals: nat) {
    && Keeps(l.queue, arrivals)
    && AllGood(OnTheWay(l), t)
    && (l.left > 0 ==> l.left <= l.transit.Size())
    && (forall i :: 0 <= i < |l.departures| ==> l.departures[i].packet.arrival < l.departures[i].time)
    && (l.discarded != [] ==> l.queue.CoDelQueue?)
    && l.dequeues == |l.departures| + |InTransit(l)|
  }

  /** The totals of the line, in packets and in bytes. */
  function LinePackets(l: Line): nat {
    |l.departures| + |OnTheWay(l)| + |l.discarded|
  }

  function LineBytes(l: Line): nat {
    Bytes(Departed(l.departures)) + Bytes(OnTheWay(l)) + Bytes(l.discarded)
  }

  lemma LoadConserves(l: Line, clock: Clock, t: nat, arrivals: nat)
    requires LineInv(l, t, arrivals) && OnTheWay(l) != []
    ensures var m := Load(l, clock);
      m.Some? && LineInv(m.value, t, arrivals) && m.value.left > 0 && Sendable(m.value, t)
      && LinePackets(m.value) == LinePackets(l) && LineBytes(m.value) == LineBytes(l)
      && m.value.departures == l.departures && m.value.output == l.output
      && (m.value.queue.HeadDrop? <==> l.queue.HeadDrop?)
      && (l.queue.HeadDrop? ==> m.value.queue.limits == l.queue.limits)
  {
    hide Get, Keeps, Bytes, AllGood;
    FirstGood(OnTheWay(l), t);
    if l.left == 0 {
      assert OnTheWay(l) == Contents(l.queue);
      GetKeeps(l.queue, clock(l.dequeues), arrivals);
      var g := Get(l.queue, clock(l.dequeues)).value;
      AllGoodConcat([g.p] + g.discarded, Contents(g.x), t);
      AllGoodConcat([g.p], g.discarded, t);
      AllGoodConcat([g.p], Contents(g.x), t);
      SplitBytes(g.p, g.discarded, Contents(g.x));
      BytesConcat(l.discarded, g.discarded);
    } else {
      assert OnTheWay(l)[0] == l.transit;
    }
  }

  lemma FirstGood(q: seq<Packet>, t: nat)
    requires q != [] && AllGood(q, t)
    ensures GoodPacket(q[0], t)
  {
  }

  lemma SplitBytes(p: Packet, d: seq<Packet>, q: seq<Packet>)
    ensures Bytes([p] + d + q) == Bytes([p] + q) + Bytes(d)
  {
    BytesConcat([p] + d, q);
    BytesConcat([p], d);
    BytesConcat([p], q);
  }

  lemma SendConserves(m: Line, amount: nat, t: nat, arrivals: nat)
    requires LineInv(m, t, arrivals) && m.left > 0 && amount <= m.left
    ensures var n := Send(m, amount, t);
      LineInv(n, t, arrivals) && LinePackets(n) == LinePackets(m) && LineBytes(n) == LineBytes(m)
      && n.queue == m.queue
  {
    hide Keeps, Bytes, AllGood;
    var n := Send(m, amount, t);
    FirstGood(OnTheWay(m), t);
    assert OnTheWay(m)[0] == m.transit;
    if n.left == 0 {
      assert OnTheWay(n) == Contents(m.queue);
      AllGoodConcat([m.transit], Contents(m.queue), t);
      assert Departed(n.departures) == Departed(m.departures) + [m.transit];
      BytesConcat(Departed(m.departures), [m.transit]);
      BytesConcat([m.transit], Contents(m.queue));
    } else {
      assert OnTheWay(n) == OnTheWay(m);
    }
  }

  /** An opportunity at time t: no assertion fails, nothing is lost, and whatever departs does so at t,
      strictly after it arrived. */
  lemma {:induction false} ServeConserves(l: Line, budget: nat, t: nat, clock: Clock, arrivals: nat)
    requires LineInv(l, t, arrivals)
    ensures var r := Serve(l, budget, t, clock);
      r.Some? && LineInv(r.value, t, arrivals)
      && LinePackets(r.value) == LinePackets(l) && LineBytes(r.value) == LineBytes(l)
      && (r.value.queue.HeadDrop? <==> l.queue.HeadDrop?)
      && (l.queue.HeadDrop? ==> r.value.queue.limits == l.queue.limits)
    decreases budget
  {
    hide Load, Send, LineInv, LinePackets, LineBytes;
    if budget > 0 && !(l.left == 0 && Contents(l.queue) == []) {
      assert OnTheWay(l) != [];
      LoadConserves(l, clock, t, arrivals);
      var m := Load(l, clock).value;
      var amount := Min(budget, m.left);
      SendConserves(m, amount, t, arrivals);
      ServeConserves(Send(m, amount, t), budget - amount, t, clock, arrivals);
    }
  }

  /** What has been written and what is ready to be written are the departed packets, in order. */
  predicate AllOut(l: Line, written: seq<string>) {
    written + l.output == Payloads(Departed(l.departures))
  }

  lemma SendOutputs(m: Line, amount: nat, t: nat, written: seq<string>)
    requires amount <= m.left && AllOut(m, written)
    ensures AllOut(Send(m, amount, t), written)
  {
    var n := Send(m, amount, t);
    if n.left == 0 {
      assert Payloads(Departed(n.departures)) == Payloads(Departed(m.departures)) + [m.transit.contents];
      assert written + (m.output + [m.transit.contents]) == written + m.output + [m.transit.contents];
    }
  }

  lemma {:induction false} ServeOutputs(l: Line, budget: nat, t: nat, clock: Clock, written: seq<string>)
    requires AllOut(l, written) && Serve(l, budget, t, clock).Some?
    ensures AllOut(Serve(l, budget, t, clock).value, written)
    decreases budget
  {
    hide Get, Send, AllOut;
    if budget > 0 && !(l.left == 0 && Contents(l.queue) == []) {
      var m := Load(l, clock).value;
      LoadOutputs(l, m, clock, written);
      var amount := Min(budget, m.left);
      SendOutputs(m, amount, t, written);
      ServeOutputs(Send(m, amount, t), budget - amount, t, clock, written);
    }
  }

  lemma LoadOutputs(l: Line, m: Line, clock: Clock, written: seq<string>)
    requires AllOut(l, written) && Load(l, clock) == Some(m)
    ensures AllOut(m, written)
  {
    hide Get;
  }

  /** What holds of the link between calls. */
  ghost predicate LinkInv(link: Link) {
    && WellFormed(link.sched)
    && LineInv(link.line, NextTime(link.sched), |link.arrivals|)
    && |link.arrivals| == LinePackets(link.line) + DroppedPackets(link.drops)
    && Bytes(link.arrivals) == LineBytes(link.line) + DroppedBytes(link.drops)
    && AllOut(link.line, link.written)
  }

  lemma LaterLine(l: Line, t: nat, u: nat, arrivals: nat)
    requires LineInv(l, t, arrivals) && t <= u
    ensures LineInv(l, u, arrivals)
  {
    hide Keeps;
    forall i | 0 <= i < |OnTheWay(l)| ensures GoodPacket(OnTheWay(l)[i], u) {
      assert GoodPacket(OnTheWay(l)[i], t);
    }
  }

  /** The same discipline with the same limits. */
  predicate SameKind(x: Queue, y: Queue) {
    (x.HeadDrop? <==> y.HeadDrop?) && (x.HeadDrop? ==> x.limits == y.limits)
  }

  lemma {:induction false} RationalizeKeeps(link: Link, now: nat, clock: Clock)
    requires LinkInv(link) && now < MAX64
    ensures match Rationalize(link, now, clock)
      case None => false
      case Some(l) => (
        LinkInv(l) && NextTime(l.sched) > now && l.arrivals == link.arrivals && l.drops == link.drops
        && SameKind(l.line.queue, link.line.queue))
    decreases TimeLeft(link.sched, now), |link.sched.schedule| - link.sched.next
  {
    hide Serve, Advance, LineInv, LinePackets, LineBytes, DroppedPackets, DroppedBytes, Bytes, AllOut;
    if NextTime(link.sched) <= now {
      var t := NextTime(link.sched);
      AdvanceDecreases(link.sched, now);
      AdvanceLater(link.sched);
      ServeConserves(link.line, PACKET_SIZE, t, clock, |link.arrivals|);
      ServeOutputs(link.line, PACKET_SIZE, t, clock, link.written);
      var next := Turn(link, clock).value;
      LaterLine(next.line, t, NextTime(next.sched), |link.arrivals|);
      RationalizeKeeps(next, now, clock);
    }
  }

  // ---------------------------------------------------------------- arrivals

  lemma PutBytes(before: seq<Packet>, p: Packet, after: seq<Packet>)
    requires AfterPut(before, p, after)
    ensures |after| <= |before| + 1 && Bytes(after) <= Bytes(before) + p.Size()
  {
    var all := before + [p];
    BytesConcat(before, [p]);
    assert Bytes([p]) == p.Size();
    if after != before {
      var k := |before| + 1 - |after|;
      assert all == all[..k] + all[k..];
      BytesConcat(all[..k], all[k..]);
    }
  }

  lemma PutGood(before: seq<Packet>, p: Packet, after: seq<Packet>, t: nat)
    requires AfterPut(before, p, after) && AllGood(before, t) && GoodPacket(p, t)
    ensures AllGood(after, t)
  {
    AllGoodConcat(before, [p], t);
    if after != before {
      var all, k := before + [p], |before| + 1 - |after|;
      assert all == all[..k] + after;
      AllGoodConcat(all[..k], after, t);
    }
  }

  lemma PutInv(l: Line, p: Packet, queue: Queue, t: nat, arrivals: nat)
    requires LineInv(l, t, arrivals) && GoodPacket(p, t) && Keeps(queue, arrivals + 1)
    requires AfterPut(Contents(l.queue), p, Contents(queue)) && (l.queue.CoDelQueue? <==> queue.CoDelQueue?)
    ensures LineInv(l.(queue := queue), t, arrivals + 1)
  {
    hide Keeps, AllGood, AfterPut;
    AllGoodConcat(InTransit(l), Contents(l.queue), t);
    PutGood(Contents(l.queue), p, Contents(queue), t);
    AllGoodConcat(InTransit(l), Contents(queue), t);
  }

  lemma PutTotals(l: Line, queue: Queue)
    ensures LinePackets(l.(queue := queue)) + |Contents(l.queue)| == LinePackets(l) + |Contents(queue)|
    ensures LineBytes(l.(queue := queue)) + Bytes(Contents(l.queue)) == LineBytes(l) + Bytes(Contents(queue))
  {
    BytesConcat(InTransit(l), Contents(l.queue));
    BytesConcat(InTransit(l), Contents(queue));
  }

  lemma DropsSnoc(drops: seq<DropRecord>, d: DropRecord)
    ensures DroppedPackets(drops + [d]) == DroppedPackets(drops) + d.packets
    ensures DroppedBytes(drops + [d]) == DroppedBytes(drops) + d.bytes
  {
    var all := drops + [d];
    assert all[..|all| - 1] == drops;
  }

  lemma EnqueueKeeps(link: Link, p: Packet, queue: Queue)
    requires LinkInv(link) && GoodPacket(p, NextTime(link.sched)) && Keeps(queue, |link.arrivals| + 1)
    requires AfterPut(Contents(link.line.queue), p, Contents(queue))
    requires link.line.queue.CoDelQueue? <==> queue.CoDelQueue?
    ensures var before, after := Contents(link.line.queue), Contents(queue);
      |after| <= |before| + 1 && Bytes(after) <= Bytes(before) + p.Size()
      && (var packets, bytes := |before| + 1 - |after|, Bytes(before) + p.Size() - Bytes(after);
          LinkInv(link.(line := link.line.(queue := queue), arrivals := link.arrivals + [p],
            drops := link.drops + if packets > 0 || bytes > 0 then [DropRecord(p.arrival, packets, bytes)] else [])))
  {
    hide Keeps, LineInv, LinePackets, LineBytes, DroppedPackets, DroppedBytes, Departed, AfterPut, Bytes,
      GoodPacket, NextTime;
    var before, after := Contents(link.line.queue), Contents(queue);
    PutBytes(before, p, after);
    PutInv(link.line, p, queue, NextTime(link.sched), |link.arrivals|);
    PutTotals(link.line, queue);
    var packets, bytes := |before| + 1 - |after|, Bytes(before) + p.Size() - Bytes(after);
    DropsSnoc(link.drops, DropRecord(p.arrival, packets, bytes));
    assert link.drops + [] == link.drops;
    BytesConcat(link.arrivals, [p]);
    BytesOfOne(p);
    StillOut(link.line, queue, link.written);
  }

  lemma StillOut(l: Line, queue: Queue, written: seq<string>)
    requires AllOut(l, written)
    ensures AllOut(l.(queue := queue), written)
  {
  }

  /** Under drophead, once the link is up to date, more than one packet would have to go for this one. */
  predicate PutOverflows(link: Link, contents: string, now: nat, clock: Clock)
    requires WellFormed(link.sched) && now < MAX64
  {
    var l := Rationalize(link, now, clock);
    l.Some? && l.value.line.queue.HeadDrop?
    && Excess(l.value.line.queue.limits, l.value.line.queue.q + [Packet(now, contents)]) > 1
  }

  /** The only thing that can go wrong with an arriving packet of a valid size is drophead's own
      assertion, and it does exactly when more than one packet would have to go. */
  lemma ReadPacketKeeps(link: Link, contents: string, now: nat, r: Reading, clock: Clock)
    requires LinkInv(link) && now < MAX64 && 0 < |contents| <= PACKET_SIZE && |link.arrivals| + 1 < TWO32
    ensures match ReadPacket(link, contents, now, r, clock)
      case Running(l) => (
        LinkInv(l) && l.arrivals == link.arrivals + [Packet(now, contents)]
        && SameKind(l.line.queue, link.line.queue))
      case TooLarge => false
      case Aborted => link.line.queue.HeadDrop?
    ensures ReadPacket(link, contents, now, r, clock) == Aborted <==> PutOverflows(link, contents, now, clock)
  {
    hide Rationalize, Put, Keeps, LineInv, LinePackets, LineBytes, DroppedPackets, DroppedBytes, Bytes, Excess,
      AfterPut, AllOut, NextTime;
    RationalizeKeeps(link, now, clock);
    var l := Rationalize(link, now, clock).value;
    var p := Packet(now, contents);
    InvKeeps(l.line, NextTime(l.sched), |l.arrivals|);
    PutKeeps(l.line.queue, p, r, |l.arrivals|);
    if Put(l.line.queue, p, r).Some? {
      EnqueueKeeps(l, p, Put(l.line.queue, p, r).value);
    }
  }

  lemma InvKeeps(l: Line, t: nat, arrivals: nat)
    requires LineInv(l, t, arrivals)
    ensures Keeps(l.queue, arrivals)
  {
  }

  // ---------------------------------------------------------------- all runs

  /** A packet arrives, the event loop asks for the wait time, or the finished output is written. The
      clock readings need not be in order. */
  datatype Op = Arrive(contents: string, now: nat, r: Reading) | Tick(now: nat) | Flush

  function Do(link: Link, op: Op, clock: Clock): (o: Outcome)
    requires WellFormed(link.sched)
    ensures o.Running? ==> WellFormed(o.link.sched)
  {
    match op
    case Arrive(contents, now, r) => if now < MAX64 then ReadPacket(link, contents, now, r, clock) else Aborted
    case Tick(now) =>
      if now >= MAX64 then Aborted
      else (match Rationalize(link, now, clock) case None => Aborted case Some(l) => Running(l))
    case Flush => Running(WritePackets(link))
  }

  /** Packets of 1 to 1504 bytes, fewer than 2^32 of them, and clock readings below 2^64 - 1. */
  predicate Valid(ops: seq<Op>) {
    |ops| < TWO32
    && (forall i :: 0 <= i < |ops| ==> ops[i].Arrive? ==> 0 < |ops[i].contents| <= PACKET_SIZE && ops[i].now < MAX64)
    && (forall i :: 0 <= i < |ops| ==> ops[i].Tick? ==> ops[i].now < MAX64)
  }

  /** A whole run. */
  function Exec(start: Link, ops: seq<Op>, clock: Clock): (o: Outcome)
    requires WellFormed(start.sched)
    ensures o.Running? ==> WellFormed(o.link.sched)
    decreases |ops|
  {
    if ops == [] then Running(start)
    else match Exec(start, ops[..|ops| - 1], clock)
      case Running(before) => Do(before, ops[|ops| - 1], clock)
      case o => o
  }

  predicate Fresh(link: Link) {
    && AtStart(link.sched) && link.written == []
    && link.arrivals == [] && link.drops == [] && link.opportunities == []
    && link.line.left == 0 && link.line.dequeues == 0
    && link.line.output == [] && link.line.departures == [] && link.line.discarded == []
    && Contents(link.line.queue) == [] && Keeps(link.line.queue, 0)
  }

  lemma FreshInv(link: Link)
    requires Fresh(link)
    ensures LinkInv(link)
  {
    hide Keeps;
    assert OnTheWay(link.line) == [];
    assert Departed([]) == [];
  }

  /** The one way in which an operation can abort. */
  predicate Overflows(link: Link, op: Op, clock: Clock)
    requires WellFormed(link.sched)
  {
    op.Arrive? && op.now < MAX64 && PutOverflows(link, op.contents, op.now, clock)
  }

  lemma DoKeeps(link: Link, op: Op, clock: Clock)
    requires LinkInv(link) && |link.arrivals| + 1 < TWO32
    requires op.Arrive? ==> 0 < |op.contents| <= PACKET_SIZE && op.now < MAX64
    requires op.Tick? ==> op.now < MAX64
    ensures match Do(link, op, clock)
      case Running(l) => (
        LinkInv(l) && SameKind(l.line.queue, link.line.queue)
        && |l.arrivals| == |link.arrivals| + if op.Arrive? then 1 else 0)
      case TooLarge => false
      case Aborted => op.Arrive? && link.line.queue.HeadDrop?
    ensures Do(link, op, clock) == Aborted <==> Overflows(link, op, clock)
  {
    hide Rationalize, ReadPacket, PutOverflows, LinePackets, LineBytes, DroppedPackets, DroppedBytes, Bytes;
    match op
    case Arrive(contents, now, r) => ReadPacketKeeps(link, contents, now, r, clock);
    case Tick(now) => RationalizeKeeps(link, now, clock);
    case Flush => FlushKeeps(link);
  }

  lemma FlushKeeps(link: Link)
    requires LinkInv(link)
    ensures LinkInv(WritePackets(link))
  {
    hide Keeps, Bytes, DroppedPackets, DroppedBytes;
    var l, n := link.line, WritePackets(link).line;
    assert OnTheWay(n) == OnTheWay(l);
    assert link.written + l.output + [] == link.written + l.output;
  }

  lemma {:induction false} ExecInv(start: Link, ops: seq<Op>, clock: Clock)
    requires Fresh(start) && Valid(ops)
    ensures match Exec(start, ops, clock)
      case Running(l) => LinkInv(l) && |l.arrivals| <= |ops| && SameKind(l.line.queue, start.line.queue)
      case TooLarge => false
      case Aborted => start.line.queue.HeadDrop?
    decreases |ops|
  {
    hide Do, LinkInv, Keeps, Overflows;
    if ops == [] {
      FreshInv(start);
    } else {
      ExecInv(start, ops[..|ops| - 1], clock);
      match Exec(start, ops[..|ops| - 1], clock)
      case Running(before) => DoKeeps(before, ops[|ops| - 1], clock);
      case _ =>
    }
  }

  /** The run comes to its i-th operation, and that one aborts it. */
  ghost predicate OverflowsAt(start: Link, ops: seq<Op>, clock: Clock, i: nat)
    requires WellFormed(start.sched)
  {
    i < |ops| && Exec(start, ops[..i], clock).Running? && Overflows(Exec(start, ops[..i], clock).link, ops[i], clock)
  }

  ghost predicate SomeOverflow(start: Link, ops: seq<Op>, clock: Clock)
    requires WellFormed(start.sched)
  {
    exists i: nat :: OverflowsAt(start, ops, clock, i)
  }

  lemma OverflowPrefix(start: Link, ops: seq<Op>, clock: Clock, i: nat)
    requires WellFormed(start.sched) && i < |ops| - 1
    ensures OverflowsAt(start, ops, clock, i) <==> OverflowsAt(start, ops[..|ops| - 1], clock, i)
  {
    hide Exec, Overflows;
    assert ops[..|ops| - 1][..i] == ops[..i];
  }

  lemma {:induction false} AbortsExactly(start: Link, ops: seq<Op>, clock: Clock)
    requires Fresh(start) && Valid(ops)
    ensures Exec(start, ops, clock) == Aborted <==> SomeOverflow(start, ops, clock)
    decreases |ops|
  {
    hide Do, LinkInv, Keeps, Overflows, Fresh;
    if ops != [] {
      var n := |ops| - 1;
      var before := ops[..n];
      assert Valid(before) by { hide Exec; }
      FreshStart(start);
      AbortsExactly(start, before, clock);
      ExecInv(start, before, clock);
      if Exec(start, before, clock).Running? {
        DoKeeps(Exec(start, before, clock).link, ops[n], clock);
        if Exec(start, ops, clock) == Aborted { assert OverflowsAt(start, ops, clock, n); }
      } else {
        var i: nat :| OverflowsAt(start, before, clock, i);
        OverflowPrefix(start, ops, clock, i);
      }
      if SomeOverflow(start, ops, clock) {
        var i: nat :| OverflowsAt(start, ops, clock, i);
        if i < n {
          OverflowPrefix(start, ops, clock, i);
          assert SomeOverflow(start, before, clock);
        }
      }
    }
  }

  lemma FreshStart(start: Link)
    requires Fresh(start)
    ensures WellFormed(start.sched)
  {
    hide Keeps;
  }

  /** As many packets have arrived as are departures, recorded drops, queued, in transit, or CoDel's own
      discards, which no log line records; and as many bytes. Only CoDel has such discards. The queue has
      been asked for a packet once for each departure and for the packet in transit. What was
      written and what is ready to be written are the departures, in order. */
  predicate Conserved(link: Link) {
    var l := link.line;
    && |link.arrivals| == |l.departures| + DroppedPackets(link.drops)
                          + |Contents(l.queue)| + |InTransit(l)| + |l.discarded|
    && Bytes(link.arrivals) == Bytes(Departed(l.departures)) + DroppedBytes(link.drops)
                               + Bytes(Contents(l.queue)) + Bytes(InTransit(l)) + Bytes(l.discarded)
    && (l.discarded != [] ==> l.queue.CoDelQueue?)
    && l.dequeues == |l.departures| + |InTransit(l)|
    && link.written + l.output == Payloads(Departed(l.departures))
  }

  /** Every departure is strictly later than the packet's arrival, and everything on the way arrived
      before the next opportunity. */
  predicate Causal(link: Link)
    requires WellFormed(link.sched)
  {
    && (forall i :: 0 <= i < |link.line.departures| ==>
          link.line.departures[i].packet.arrival < link.line.departures[i].time)
    && forall i :: 0 <= i < |OnTheWay(link.line)| ==> OnTheWay(link.line)[i].arrival < NextTime(link.sched)
  }

  /** Conservation, at every point of every run. */
  lemma Conservation(start: Link, ops: seq<Op>, clock: Clock)
    requires Fresh(start) && Valid(ops)
    ensures match Exec(start, ops, clock) case Running(l) => Conserved(l) case _ => true
  {
    hide Keeps, DroppedPackets, DroppedBytes, Bytes, Exec;
    ExecInv(start, ops, clock);
    match Exec(start, ops, clock)
    case Running(l) => BytesConcat(InTransit(l.line), Contents(l.line.queue));
    case _ =>
  }

  /** After the output has been written, every departed packet has, in order. */
  lemma FlushWritesAll(start: Link, ops: seq<Op>, clock: Clock)
    requires Fresh(start) && Valid(ops + [Flush])
    ensures Exec(start, ops + [Flush], clock).Running? <==> Exec(start, ops, clock).Running?
    ensures match Exec(start, ops + [Flush], clock)
      case Running(l) => l.line.output == [] && l.written == Payloads(Departed(l.line.departures))
      case _ => true
  {
    hide Keeps, DroppedPackets, DroppedBytes, Bytes, Rationalize, ReadPacket;
    var all := ops + [Flush];
    assert all[..|all| - 1] == ops;
    Conservation(start, all, clock);
    match Exec(start, all, clock)
    case Running(l) => assert l.written + [] == l.written;
    case _ =>
  }

  /** Causality, whatever the clock reads. A run fails no assertion of the link, and it aborts exactly when
      drophead's own assertion does: when it comes to an arriving packet for which more than one packet
      would have to go. */
  lemma Causality(start: Link, ops: seq<Op>, clock: Clock)
    requires Fresh(start) && Valid(ops)
    ensures match Exec(start, ops, clock)
      case Running(l) => Causal(l)
      case TooLarge => false
      case Aborted => start.line.queue.HeadDrop?
    ensures Exec(start, ops, clock) == Aborted <==> SomeOverflow(start, ops, clock)
  {
    hide Keeps, Bytes, Exec, SomeOverflow;
    ExecInv(start, ops, clock);
    AbortsExactly(start, ops, clock);
    match Exec(start, ops, clock)
    case Running(l) =>
      forall i | 0 <= i < |OnTheWay(l.line)| ensures OnTheWay(l.line)[i].arrival < NextTime(l.sched) {
        assert GoodPacket(OnTheWay(l.line)[i], NextTime(l.sched));
      }
    case _ =>
  }

  // ---------------------------------------------------------------- the closed form in every run

  /** After any run the schedule stands where the number of opportunities used says. */
  predicate InPosition(d: Sched, link: Link)
    requires WellFormed(d)
  {
    Possible(d, |link.opportunities|) && link.sched == Nth(d, |link.opportunities|)
  }

  lemma RationalizePosition(link: Link, d: Sched, now: nat, clock: Clock)
    requires AtStart(d) && InPosition(d, link) && now < MAX64
    ensures match Rationalize(link, now, clock) case None => true case Some(l) => InPosition(d, l)
  {
    hide Rationalize, Serve, ServeAll, Times, Nth, UsesUpTo;
    var k := |link.opportunities|;
    NoTimes(d, k);
    ServeNone(link.line, clock);
    var end := RationalizeUses(link, d, k, k, link.line, now, clock);
    TimesLength(d, k, end);
    UsesPossible(d, k, end, now);
  }

  lemma UsesPossible(d: Sched, start: nat, end: nat, now: nat)
    requires WellFormed(d) && UsesUpTo(d, start, end, now)
    ensures Possible(d, end)
  {
  }

  lemma {:induction false} ExecPosition(start: Link, ops: seq<Op>, clock: Clock)
    requires Fresh(start)
    ensures match Exec(start, ops, clock) case Running(l) => InPosition(start.sched, l) case _ => true
    decreases |ops|
  {
    hide Rationalize, Put, Keeps, InPosition;
    if ops == [] {
      NthZero(start.sched, start);
    } else {
      ExecPosition(start, ops[..|ops| - 1], clock);
      match Exec(start, ops[..|ops| - 1], clock)
      case Running(before) => DoPosition(start.sched, before, ops[|ops| - 1], clock);
      case _ =>
    }
  }

  lemma DoPosition(d: Sched, link: Link, op: Op, clock: Clock)
    requires AtStart(d) && WellFormed(link.sched) && InPosition(d, link)
    ensures match Do(link, op, clock) case Running(l) => InPosition(d, l) case _ => true
  {
    hide Rationalize, Put, InPosition;
    match op
    case Flush => SamePosition(d, link, WritePackets(link));
    case Tick(now) => if now < MAX64 { RationalizePosition(link, d, now, clock); }
    case Arrive(contents, now, r) =>
      if now < MAX64 {
        RationalizePosition(link, d, now, clock);
        var o := ReadPacket(link, contents, now, r, clock);
        if o.Running? { SamePosition(d, Rationalize(link, now, clock).value, o.link); }
      }
  }

  lemma NthZero(d: Sched, link: Link)
    requires AtStart(d) && link.sched == d && link.opportunities == []
    ensures InPosition(d, link)
  {
  }

  lemma SamePosition(d: Sched, link: Link, after: Link)
    requires WellFormed(d) && InPosition(d, link)
    requires after.sched == link.sched && after.opportunities == link.opportunities
    ensures InPosition(d, after)
  {
  }

  lemma {:induction false} WholeGood(q: seq<Packet>, t: nat)
    requires AllGood(q, t)
    ensures AllFine(Whole(q)) && ArrivedBefore(Whole(q), t)
  {
    if q != [] {
      assert GoodPacket(q[0], t);
      assert forall i :: 0 <= i < |q[1..]| ==> q[1..][i] == q[i + 1];
      WholeGood(q[1..], t);
    }
  }

  lemma InvLine(link: Link)
    requires LinkInv(link)
    ensures WellFormed(link.sched) && LineInv(link.line, NextTime(link.sched), |link.arrivals|)
    ensures Keeps(link.line.queue, |link.arrivals|)
  {
    hide Keeps;
  }

  lemma PendingGood(l: Line, t: nat, arrivals: nat)
    requires LineInv(l, t, arrivals)
    ensures AllFine(Pending(l)) && ArrivedBefore(Pending(l), t)
  {
    hide Keeps;
    AllGoodConcat(InTransit(l), Contents(l.queue), t);
    WholeGood(Contents(l.queue), t);
    if l.left > 0 { FirstGood(InTransit(l), t); }
  }

  /** From every state of every run with a discipline other than CoDel: bringing the link up to `now`
      sends the pending bytes like a fluid, and lets each pending packet depart, in order of arrival,
      at the opportunity that carries its last byte, numbered from the start of the trace. */
  lemma RunClosedForm(start: Link, ops: seq<Op>, clock: Clock, link: Link, now: nat) returns (end: nat)
    requires Fresh(start) && Valid(ops) && Exec(start, ops, clock) == Running(link)
    requires !link.line.queue.CoDelQueue?
    requires now < MAX64 && (start.sched.repeat || start.sched.base + Period(start.sched) <= MAX64)
    ensures WellFormed(link.sched)
    ensures |link.opportunities| <= end && UsesUpTo(start.sched, |link.opportunities|, end, now)
    ensures match Rationalize(link, now, clock)
      case None => false
      case Some(r) => (
        var ps, k := Pending(link.line), |link.opportunities|;
        r.opportunities == link.opportunities + Times(start.sched, k, end)
        && AllFine(ps) && Pending(r.line) == Drain(ps, PACKET_SIZE * (end - k))
        && DepartedInTurn(ps, start.sched, k, end - k, link.line.departures, r.line.departures))
  {
    hide Exec, Rationalize, Keeps, Pending, Drain, AllFine, ArrivedBefore, DepartedInTurn, UsesUpTo, Times,
      LinkInv, LineInv, Nth, Valid;
    ExecInv(start, ops, clock);
    ExecPosition(start, ops, clock);
    InvLine(link);
    PendingGood(link.line, NextTime(link.sched), |link.arrivals|);
    end := RationalizeClosedForm(link, start.sched, |link.opportunities|, now, clock, |link.arrivals|);
  }
}
