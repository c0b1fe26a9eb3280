/** The link is first in, first out: in every run the packets that departed, the one in transit and those
    queued come in the order in which they arrived. */
module LinkOrder {
  import opened Machine
  import opened Text
  import opened Packets
  import opened Disciplines
  import opened LinkSpec
  import opened LinkFluid
  import opened LinkRuns

  // ---------------------------------------------------------------- subsequences

  function Init<T>(s: seq<T>): seq<T>
    requires s != []
  {
    s[..|s| - 1]
  }

  function Last<T>(s: seq<T>): T
    requires s != []
  {
    s[|s| - 1]
  }

  /** `xs` is `ys` with some elements left out. */
  predicate Within<T(==)>(xs: seq<T>, ys: seq<T>)
    decreases |ys|
  {
    xs == []
    || (ys != [] && ((Last(xs) == Last(ys) && Within(Init(xs), Init(ys))) || Within(xs, Init(ys))))
  }

  lemma WithinSnoc<T>(xs: seq<T>, ys: seq<T>, x: T)
    requires Within(xs, ys)
    ensures Within(xs + [x], ys + [x]) && Within(xs, ys + [x])
  {
    assert Init(xs + [x]) == xs && Init(ys + [x]) == ys;
  }

  lemma {:induction false} WithinInit<T>(xs: seq<T>, ys: seq<T>)
    requires xs != [] && Within(xs, ys)
    ensures Within(Init(xs), ys)
    decreases |ys|
  {
    if Last(xs) == Last(ys) && Within(Init(xs), Init(ys)) {
      WithinSnoc(Init(xs), Init(ys), Last(ys));
      assert Init(ys) + [Last(ys)] == ys;
    } else {
      WithinInit(xs, Init(ys));
      if Init(xs) != [] {
        WithinSnoc(Init(xs), Init(ys), Last(ys));
        assert Init(ys) + [Last(ys)] == ys;
      }
    }
  }

  lemma WithinCases<T>(xs: seq<T>, ys: seq<T>)
    requires xs != [] && Within(xs, ys)
    ensures ys != [] && Init(ys) + [Last(ys)] == ys
    ensures (Last(xs) == Last(ys) && Within(Init(xs), Init(ys))) || Within(xs, Init(ys))
  {
  }

  lemma InitOfThree<T>(a: seq<T>, m: seq<T>, b: seq<T>)
    ensures b != [] ==>
      Init(a + m + b) == a + m + Init(b) && Last(a + m + b) == Last(b) && a + Init(b) + [Last(b)] == a + b
    ensures m != [] && b == [] ==> Init(a + m + b) == a + Init(m) + b
    ensures m == [] ==> a + m + b == a + b
  {
    var xs := a + m + b;
    if b != [] {
      assert xs == a + m + Init(b) + [Last(b)];
    } else if m != [] {
      assert xs == a + Init(m) + b + [Last(m)];
    }
  }

  /** Leaving out a middle part. */
  lemma {:induction false} WithinRemove<T>(a: seq<T>, m: seq<T>, b: seq<T>, ys: seq<T>)
    requires Within(a + m + b, ys)
    ensures Within(a + b, ys)
    decreases |ys|, |m|
  {
    hide Within, Init, Last;
    var xs := a + m + b;
    InitOfThree(a, m, b);
    if m != [] && b == [] {
      WithinInit(xs, ys);
      InitShorter(m);
      WithinRemove(a, Init(m), b, ys);
    } else if m != [] {
      WithinCases(xs, ys);
      InitShorter(ys);
      if Last(xs) == Last(ys) && Within(Init(xs), Init(ys)) {
        WithinRemove(a, m, Init(b), Init(ys));
        WithinSnoc(a + Init(b), Init(ys), Last(ys));
      } else {
        WithinRemove(a, m, b, Init(ys));
        WithinSnoc(a + b, Init(ys), Last(ys));
      }
    }
  }

  lemma InitShorter<T>(s: seq<T>)
    requires s != []
    ensures |Init(s)| < |s|
  {
  }

  // ---------------------------------------------------------------- the order along the link

  /** The departed packets, the one in transit, and the queue. */
  function Path(l: Line): seq<Packet> {
    Departed(l.departures) + OnTheWay(l)
  }

  lemma LoadInOrder(l: Line, clock: Clock, t: nat, arrivals: nat, ys: seq<Packet>)
    requires LineInv(l, t, arrivals) && OnTheWay(l) != [] && Within(Path(l), ys)
    ensures Load(l, clock).Some? && Within(Path(Load(l, clock).value), ys)
  {
    hide Get, Keeps, Within, LineInv, Departed;
    if l.left == 0 {
      LineKeeps(l, t, arrivals);
      assert OnTheWay(l) == Contents(l.queue);
      GetKeeps(l.queue, clock(l.dequeues), arrivals);
      var g := Get(l.queue, clock(l.dequeues)).value;
      LoadedPath(l, g.p, g.discarded, g.x);
      WithinRemove(Departed(l.departures) + [g.p], g.discarded, Contents(g.x), ys);
      LineSizes(l, t, arrivals);
      var m := Load(l, clock).value;
      assert InTransit(m) == [g.p];
    }
  }

  lemma LoadedPath(l: Line, p: Packet, discarded: seq<Packet>, rest: Queue)
    requires l.left == 0 && Contents(l.queue) == [p] + discarded + Contents(rest)
    ensures Path(l) == Departed(l.departures) + [p] + discarded + Contents(rest)
    ensures Departed(l.departures) + ([p] + Contents(rest)) == Departed(l.departures) + [p] + Contents(rest)
  {
    hide Departed;
  }

  lemma LineSizes(l: Line, t: nat, arrivals: nat)
    requires LineInv(l, t, arrivals) && OnTheWay(l) != []
    ensures OnTheWay(l)[0].Size() > 0
  {
    hide Keeps;
    FirstGood(OnTheWay(l), t);
  }

  lemma LineKeeps(l: Line, t: nat, arrivals: nat)
    requires LineInv(l, t, arrivals)
    ensures Keeps(l.queue, arrivals)
  {
    hide Keeps;
  }

  lemma SendInOrder(m: Line, amount: nat, t: nat)
    requires m.left > 0 && amount <= m.left
    ensures Path(Send(m, amount, t)) == Path(m)
  {
    hide Departed, Contents;
    var n := Send(m, amount, t);
    if n.left == 0 {
      DepartedSnoc(m.departures, Departure(t, m.transit));
      assert OnTheWay(n) == Contents(m.queue);
    }
  }

  lemma DepartedSnoc(ds: seq<Departure>, d: Departure)
    ensures Departed(ds + [d]) == Departed(ds) + [d.packet]
  {
  }

  lemma {:induction false} ServeInOrder(l: Line, budget: nat, t: nat, clock: Clock, arrivals: nat, ys: seq<Packet>)
    requires LineInv(l, t, arrivals) && Within(Path(l), ys)
    ensures var r := Serve(l, budget, t, clock); r.Some? && Within(Path(r.value), ys)
    decreases budget
  {
    hide Load, Send, LineInv, LinePackets, LineBytes, Path, Within;
    if budget > 0 && !(l.left == 0 && Contents(l.queue) == []) {
      assert OnTheWay(l) != [];
      LoadConserves(l, clock, t, arrivals);
      LoadInOrder(l, clock, t, arrivals, ys);
      var m := Load(l, clock).value;
      var amount := Min(budget, m.left);
      SendConserves(m, amount, t, arrivals);
      SendInOrder(m, amount, t);
      ServeInOrder(Send(m, amount, t), budget - amount, t, clock, arrivals, ys);
    }
  }

  ghost predicate InOrder(link: Link) {
    Within(Path(link.line), link.arrivals)
  }

  lemma {:induction false} RationalizeInOrder(link: Link, now: nat, clock: Clock)
    requires LinkInv(link) && InOrder(link) && now < MAX64
    ensures Rationalize(link, now, clock).Some? && InOrder(Rationalize(link, now, clock).value)
    decreases TimeLeft(link.sched, now), |link.sched.schedule| - link.sched.next
  {
    hide Serve, Advance, LineInv, LinePackets, LineBytes, DroppedPackets, DroppedBytes, Bytes, AllOut, Path, Within;
    if NextTime(link.sched) <= now {
      var t := NextTime(link.sched);
      TurnKeeps(link, clock, now);
      ServeInOrder(link.line, PACKET_SIZE, t, clock, |link.arrivals|, link.arrivals);
      RationalizeInOrder(Turn(link, clock).value, now, clock);
    }
  }

  lemma TurnKeeps(link: Link, clock: Clock, now: nat)
    requires LinkInv(link) && NextTime(link.sched) <= now < MAX64
    ensures Turn(link, clock).Some? && LinkInv(Turn(link, clock).value)
    ensures var d, e := link.sched, Advance(link.sched);
      TimeLeft(e, now) < TimeLeft(d, now)
      || (TimeLeft(e, now) == TimeLeft(d, now) && |d.schedule| - e.next < |d.schedule| - d.next)
  {
    hide Serve, Advance, LineInv, LinePackets, LineBytes, DroppedPackets, DroppedBytes, Bytes, AllOut;
    var t := NextTime(link.sched);
    AdvanceDecreases(link.sched, now);
    AdvanceLater(link.sched);
    ServeConserves(link.line, PACKET_SIZE, t, clock, |link.arrivals|);
    ServeOutputs(link.line, PACKET_SIZE, t, clock, link.written);
    var next := Turn(link, clock).value;
    LaterLine(next.line, t, NextTime(next.sched), |link.arrivals|);
  }

  /** Whether the discipline refuses the new packet or drops from the head, the order is kept. */
  lemma PutInOrder(l: Line, p: Packet, queue: Queue, ys: seq<Packet>)
    requires Within(Path(l), ys) && AfterPut(Contents(l.queue), p, Contents(queue))
    ensures Within(Path(l.(queue := queue)), ys + [p])
  {
    hide Within, Path;
    var before, after := Contents(l.queue), Contents(queue);
    var ahead := Departed(l.departures) + InTransit(l);
    SamePath(l, l.queue);
    SamePath(l, queue);
    assert l.(queue := l.queue) == l;
    WithinSnoc(Path(l), ys, p);
    if after != before {
      CutPath(ahead, before, p, after);
      WithinRemove(ahead, (before + [p])[..|before| + 1 - |after|], after, ys + [p]);
    }
  }

  lemma CutPath(ahead: seq<Packet>, before: seq<Packet>, p: Packet, after: seq<Packet>)
    requires AfterPut(before, p, after) && after != before
    ensures ahead + before + [p] == ahead + (before + [p])[..|before| + 1 - |after|] + after
  {
    var all, k := before + [p], |before| + 1 - |after|;
    assert all == all[..k] + all[k..];
  }

  lemma ReadPacketInOrder(link: Link, contents: string, now: nat, r: Reading, clock: Clock)
    requires LinkInv(link) && InOrder(link) && now < MAX64 && |link.arrivals| + 1 < TWO32
    ensures match ReadPacket(link, contents, now, r, clock) case Running(l) => InOrder(l) case _ => true
  {
    hide Rationalize, Put, Keeps, LineInv, LinePackets, LineBytes, DroppedPackets, DroppedBytes, Bytes, Path, Within;
    RationalizeKeeps(link, now, clock);
    RationalizeInOrder(link, now, clock);
    var l := Rationalize(link, now, clock).value;
    var p := Packet(now, contents);
    InvKeeps(l.line, NextTime(l.sched), |l.arrivals|);
    PutKeeps(l.line.queue, p, r, |l.arrivals|);
    if Put(l.line.queue, p, r).Some? {
      PutInOrder(l.line, p, Put(l.line.queue, p, r).value, l.arrivals);
      SamePath(l.line, Put(l.line.queue, p, r).value);
    }
  }

  lemma SamePath(l: Line, queue: Queue)
    ensures Path(l.(queue := queue)) == Departed(l.departures) + InTransit(l) + Contents(queue)
  {
  }

  lemma DoInOrder(link: Link, op: Op, clock: Clock)
    requires LinkInv(link) && InOrder(link) && |link.arrivals| + 1 < TWO32
    ensures match Do(link, op, clock) case Running(l) => InOrder(l) case _ => true
  {
    hide Rationalize, ReadPacket, LinkInv, InOrder;
    match op
    case Arrive(contents, now, r) => if now < MAX64 { ReadPacketInOrder(link, contents, now, r, clock); }
    case Tick(now) => if now < MAX64 { RationalizeInOrder(link, now, clock); }
    case Flush => FlushInOrder(link);
  }

  lemma FlushInOrder(link: Link)
    requires InOrder(link)
    ensures InOrder(WritePackets(link))
  {
    hide Within;
    assert OnTheWay(WritePackets(link).line) == OnTheWay(link.line);
  }

  /** In every run, for every discipline and whatever the clock reads, the departures followed by the
      packet in transit and the queue are the arrivals, in order, without those that were dropped. */
  lemma {:induction false} FirstInFirstOut(start: Link, ops: seq<Op>, clock: Clock)
    requires Fresh(start) && Valid(ops)
    ensures match Exec(start, ops, clock) case Running(l) => Within(Path(l.line), l.arrivals) case _ => true
    decreases |ops|
  {
    hide Do, LinkInv, Keeps;
    if ops == [] {
      assert Path(start.line) == [];
    } else {
      var before := ops[..|ops| - 1];
      ExecInv(start, before, clock);
      FirstInFirstOut(start, before, clock);
      match Exec(start, before, clock)
      case Running(l) => DoInOrder(l, ops[|ops| - 1], clock);
      case _ =>
    }
  }
}
