/** The trace-driven link: a schedule of delivery opportunities, each good for one maximal packet's
    worth of bytes, and the packets that cross on them. */
module LinkSpec {
  import opened Machine
  import opened Text
  import opened Packets
  import opened Disciplines

  const MAX64 := TWO64 - 1

  // ---------------------------------------------------------------- the schedule

  /** The position in the delivery trace. */
  datatype Sched = Sched(schedule: seq<nat>, repeat: bool, next: nat, base: nat, finished: bool)

  /** What the constructor checks of the trace file. */
  predicate Trace(schedule: seq<nat>) {
    |schedule| > 0 && schedule[|schedule| - 1] > 0
    && forall i, j :: 0 <= i < j < |schedule| ==> schedule[i] <= schedule[j]
  }

  predicate WellFormed(d: Sched) {
    Trace(d.schedule) && d.next < |d.schedule|
  }

  function Period(d: Sched): nat
    requires WellFormed(d)
  {
    d.schedule[|d.schedule| - 1]
  }

  function NextTime(d: Sched): nat
    requires WellFormed(d)
  {
    if d.finished then MAX64 else d.schedule[d.next] + d.base
  }

  /** `use_a_delivery_opportunity`. */
  function Advance(d: Sched): (r: Sched)
    requires WellFormed(d)
    ensures WellFormed(r) && r.schedule == d.schedule && r.repeat == d.repeat
  {
    var next := (d.next + 1) % |d.schedule|;
    if next != 0 then d.(next := next)
    else if d.repeat then d.(next := 0, base := d.base + Period(d))
    else d.(next := 0, finished := true)
  }

  // ---------------------------------------------------------------- one opportunity

  datatype Departure = Departure(time: nat, packet: Packet)

  /** The packets on their way: queued, the one in transit with its unsent bytes, and the finished
      output; with the record of departures, of what CoDel discards, and the count of dequeues. */
  datatype Line = Line(
    queue: Queue, transit: Packet, left: nat, output: seq<string>,
    departures: seq<Departure>, discarded: seq<Packet>, dequeues: nat)

  /** The readings a discipline takes at its n-th dequeue. */
  type Clock = nat -> Reading

  function Load(l: Line, clock: Clock): Option<Line> {
    if l.left != 0 then Some(l)
    else match Get(l.queue, clock(l.dequeues))
      case None => None
      case Some(g) => Some(l.(queue := g.x, transit := g.p, left := g.p.Size(),
                             discarded := l.discarded + g.discarded, dequeues := l.dequeues + 1))
  }

  /** The four assertions made of the packet in transit. */
  predicate Sendable(l: Line, t: nat) {
    l.transit.arrival <= t && 0 < l.left <= PACKET_SIZE && l.left <= l.transit.Size()
  }

  function Send(l: Line, amount: nat, t: nat): Line
    requires amount <= l.left
  {
    var left := l.left - amount;
    if left > 0 then l.(left := left)
    else l.(left := 0, departures := l.departures + [Departure(t, l.transit)],
            output := l.output + [l.transit.contents])
  }

  /** The inner loop: spend `budget` bytes of the opportunity at time t. `None` where an assertion
      fails. */
  function Serve(l: Line, budget: nat, t: nat, clock: Clock): Option<Line>
    decreases budget
  {
    if budget == 0 || (l.left == 0 && Contents(l.queue) == []) then Some(l)
    else match Load(l, clock)
      case None => None
      case Some(m) =>
        if !Sendable(m, t) then None
        else
          var amount := Min(budget, m.left);
          Serve(Send(m, amount, t), budget - amount, t, clock)
  }

  // ---------------------------------------------------------------- the link

  /** A line of the log about packets missing after an enqueue. */
  datatype DropRecord = DropRecord(time: nat, packets: nat, bytes: nat)

  datatype Link = Link(
    sched: Sched, line: Line, arrivals: seq<Packet>, drops: seq<DropRecord>, opportunities: seq<nat>,
    written: seq<string>)

  /** One turn of the outer loop. */
  function Turn(link: Link, clock: Clock): (r: Option<Link>)
    requires WellFormed(link.sched)
    ensures r.Some? ==> r.value.sched == Advance(link.sched)
  {
    var t := NextTime(link.sched);
    match Serve(link.line, PACKET_SIZE, t, clock)
    case None => None
    case Some(line) =>
      Some(link.(sched := Advance(link.sched), line := line, opportunities := link.opportunities + [t]))
  }

  function TimeLeft(d: Sched, now: nat): nat {
    if d.finished || d.base > now then 0 else now - d.base + 1
  }

  lemma AdvanceDecreases(d: Sched, now: nat)
    requires WellFormed(d) && NextTime(d) <= now < MAX64
    ensures TimeLeft(Advance(d), now) < TimeLeft(d, now)
            || (TimeLeft(Advance(d), now) == TimeLeft(d, now)
                && |d.schedule| - Advance(d).next < |d.schedule| - d.next)
  {
    hide Advance;
    AdvanceShape(d);
  }

  /** Using an opportunity never brings the next one closer. */
  lemma AdvanceLater(d: Sched)
    requires WellFormed(d) && (d.repeat || NextTime(d) <= MAX64)
    ensures NextTime(d) <= NextTime(Advance(d))
  {
    hide Advance;
    AdvanceShape(d);
  }

  lemma AdvanceShape(d: Sched)
    requires WellFormed(d)
    ensures Advance(d) ==
      if d.next + 1 < |d.schedule| then d.(next := d.next + 1)
      else if d.repeat then d.(next := 0, base := d.base + Period(d))
      else d.(next := 0, finished := true)
  {
    NextIndex(d.next, |d.schedule|);
  }

  lemma NextIndex(i: nat, n: nat)
    requires i < n
    ensures (i + 1) % n == if i + 1 == n then 0 else i + 1
  {
  }

  /** `rationalize`: use every opportunity up to `now`. */
  function Rationalize(link: Link, now: nat, clock: Clock): (r: Option<Link>)
    requires WellFormed(link.sched) && now < MAX64
    ensures r.Some? ==> WellFormed(r.value.sched)
    decreases TimeLeft(link.sched, now), |link.sched.schedule| - link.sched.next
  {
    if NextTime(link.sched) > now then Some(link)
    else match Turn(link, clock)
      case None => None
      case Some(next) => AdvanceDecreases(link.sched, now); Rationalize(next, now, clock)
  }

  /** Results of an arriving packet: it may be too large, or an assertion may fail. */
  datatype Outcome = Running(link: Link) | TooLarge | Aborted

  /** `read_packet`. */
  function ReadPacket(link: Link, contents: string, now: nat, r: Reading, clock: Clock): (o: Outcome)
    requires WellFormed(link.sched) && now < MAX64
    ensures o.Running? ==> WellFormed(o.link.sched)
  {
    if |contents| > PACKET_SIZE then TooLarge
    else match Rationalize(link, now, clock)
      case None => Aborted
      case Some(l) =>
        var p := Packet(now, contents);
        var before := Contents(l.line.queue);
        match Put(l.line.queue, p, r)
        case None => Aborted
        case Some(queue) =>
          var after := Contents(queue);
          if |after| > |before| + 1 || Bytes(after) > Bytes(before) + p.Size() then Aborted
          else
            var packets, bytes := |before| + 1 - |after|, Bytes(before) + p.Size() - Bytes(after);
            Running(l.(line := l.line.(queue := queue), arrivals := l.arrivals + [p],
                       drops := l.drops + if packets > 0 || bytes > 0 then [DropRecord(now, packets, bytes)] else []))
  }

  /** `write_packets`: hand the finished packets to the file descriptor, oldest first. */
  function WritePackets(link: Link): Link {
    link.(written := link.written + link.line.output, line := link.line.(output := []))
  }

  /** `wait_time`: how long until the next opportunity, after bringing the link up to date, cut to 32 bits.
      The caller never sleeps past the opportunity, and wakes up early only if it is 2^32 ms or more away. */
  function WaitTime(link: Link, now: nat): (wait: nat)
    requires WellFormed(link.sched)
    ensures NextTime(link.sched) <= now ==> wait == 0
    ensures NextTime(link.sched) > now ==>
      wait <= NextTime(link.sched) - now
      && (wait == NextTime(link.sched) - now <==> NextTime(link.sched) - now < TWO32)
  {
    var t := NextTime(link.sched);
    if t <= now then 0 else (t - now) % TWO32
  }

  // ---------------------------------------------------------------- the schedule in closed form

  /** At the start of a trace. */
  predicate AtStart(d: Sched) {
    WellFormed(d) && d.next == 0 && !d.finished
  }

  /** The schedule after k opportunities. */
  function Nth(d: Sched, k: nat): (r: Sched)
    requires WellFormed(d)
    ensures WellFormed(r) && r.schedule == d.schedule && r.repeat == d.repeat
    decreases k
  {
    if k == 0 then d else Advance(Nth(d, k - 1))
  }

  /** The base time of the lap of the trace that opportunity k belongs to, and its place there. */
  function LapStart(d: Sched, k: nat): nat
    requires WellFormed(d)
  {
    d.base + k / |d.schedule| * d.schedule[|d.schedule| - 1]
  }

  function Place(d: Sched, k: nat): (r: nat)
    requires WellFormed(d)
    ensures r < |d.schedule|
  {
    k % |d.schedule|
  }

  /** When opportunity k comes: a repeating trace starts over after its last entry, the other kind
      has no opportunity beyond its last entry. */
  function OpportunityTime(d: Sched, k: nat): nat
    requires WellFormed(d)
  {
    if d.repeat then LapStart(d, k) + d.schedule[Place(d, k)]
    else if k < |d.schedule| then d.base + d.schedule[k]
    else MAX64
  }

  predicate Possible(d: Sched, k: nat) {
    d.repeat || k <= |d.schedule|
  }

  lemma DivModStep(k: nat, n: nat)
    requires n > 0
    ensures if k % n + 1 == n then (k + 1) % n == 0 && (k + 1) / n == k / n + 1
            else (k + 1) % n == k % n + 1 && (k + 1) / n == k / n
  {
    var q, r := k / n, k % n;
    assert k == n * q + r;
    if r + 1 == n {
      assert k + 1 == n * (q + 1);
      DivModIs(k + 1, n, q + 1, 0);
    } else {
      DivModIs(k + 1, n, q, r + 1);
    }
  }

  lemma MultipleIsFar(n: nat, d: int)
    ensures d > 0 ==> n * d >= n
    ensures d < 0 ==> n * d + n <= 0
  {
  }

  lemma DivModIs(k: nat, n: nat, q: nat, r: nat)
    requires k == n * q + r && r < n
    ensures k / n == q && k % n == r
  {
    var d := k / n - q;
    assert k == n * (k / n) + k % n;
    assert n * (k / n) == n * q + n * d;
    assert n * d == r - k % n;
    MultipleIsFar(n, d);
  }

  lemma LapStep(d: Sched, k: nat)
    requires WellFormed(d)
    ensures Place(d, k + 1) == if Place(d, k) + 1 == |d.schedule| then 0 else Place(d, k) + 1
    ensures LapStart(d, k + 1) == LapStart(d, k) + if Place(d, k) + 1 == |d.schedule| then Period(d) else 0
  {
    var n, q := |d.schedule|, k / |d.schedule|;
    DivModStep(k, n);
    assert (q + 1) * Period(d) == q * Period(d) + Period(d);
  }

  lemma LapZero(d: Sched)
    requires WellFormed(d)
    ensures Place(d, 0) == 0 && LapStart(d, 0) == d.base
  {
    DivModIs(0, |d.schedule|, 0, 0);
  }

  lemma {:induction false} NthClosedForm(d: Sched, k: nat)
    requires AtStart(d) && Possible(d, k)
    ensures d.repeat ==> Nth(d, k) == d.(next := Place(d, k), base := LapStart(d, k))
    ensures !d.repeat ==> Nth(d, k) == if k < |d.schedule| then d.(next := k) else d.(next := 0, finished := true)
    decreases k
  {
    hide LapStart, Place, Advance, Trace;
    if k == 0 {
      LapZero(d);
    } else {
      NthClosedForm(d, k - 1);
      AdvanceShape(Nth(d, k - 1));
      if d.repeat { LapStep(d, k - 1); }
    }
  }

  /** Opportunity k is the one the link waits for after k of them. */
  lemma OpportunityIsNext(d: Sched, k: nat)
    requires AtStart(d) && Possible(d, k)
    ensures NextTime(Nth(d, k)) == OpportunityTime(d, k)
  {
    hide LapStart, Place;
    NthClosedForm(d, k);
  }

  /** The times never decrease, provided a trace that ends does so within the range of the clock. */
  lemma OpportunityStep(d: Sched, k: nat)
    requires AtStart(d) && (d.repeat || d.base + Period(d) <= MAX64)
    ensures OpportunityTime(d, k) <= OpportunityTime(d, k + 1)
  {
    hide LapStart, Place;
    if d.repeat { LapStep(d, k); }
  }

  lemma {:induction false} OpportunitiesInOrder(d: Sched, j: nat, k: nat)
    requires AtStart(d) && j <= k && (d.repeat || d.base + Period(d) <= MAX64)
    ensures OpportunityTime(d, j) <= OpportunityTime(d, k)
    decreases k
  {
    hide OpportunityTime;
    if j < k {
      OpportunitiesInOrder(d, j, k - 1);
      OpportunityStep(d, k - 1);
    }
  }

  /** `end` is the first opportunity after `now`, counting from `start`. */
  ghost predicate UsesUpTo(d: Sched, start: nat, end: nat, now: nat)
    requires WellFormed(d)
  {
    start <= end && Possible(d, end) && now < OpportunityTime(d, end)
    && forall j: nat :: start <= j < end ==> OpportunityTime(d, j) <= now
  }

  function Times(d: Sched, start: nat, end: nat): seq<nat>
    requires WellFormed(d) && start <= end
    decreases end
  {
    if start == end then [] else Times(d, start, end - 1) + [OpportunityTime(d, end - 1)]
  }

  lemma {:induction false} TimesHead(d: Sched, start: nat, end: nat)
    requires WellFormed(d) && start < end
    ensures Times(d, start, end) == [OpportunityTime(d, start)] + Times(d, start + 1, end)
    decreases end
  {
    hide OpportunityTime;
    if start + 1 < end { TimesHead(d, start, end - 1); }
  }

  lemma {:induction false} TimesAt(d: Sched, start: nat, end: nat, i: nat)
    requires WellFormed(d) && start <= end && i < end - start
    ensures |Times(d, start, end)| == end - start && Times(d, start, end)[i] == OpportunityTime(d, start + i)
    decreases end
  {
    hide OpportunityTime;
    if i < end - 1 - start {
      TimesAt(d, start, end - 1, i);
    } else if start < end - 1 {
      TimesAt(d, start, end - 1, 0);
    }
  }

  function ServeAll(l: Line, times: seq<nat>, clock: Clock): Option<Line>
    decreases |times|
  {
    if times == [] then Some(l)
    else
      match ServeAll(l, times[..|times| - 1], clock)
      case None => None
      case Some(m) => Serve(m, PACKET_SIZE, times[|times| - 1], clock)
  }

  /** `rationalize(now)` uses exactly the opportunities with time at most `now`, in order, and serves
      the line once at each. */
  lemma {:induction false} RationalizeUses(link: Link, d: Sched, done: nat, start: nat, line: Line,
                                           now: nat, clock: Clock)
    returns (end: nat)
    requires AtStart(d) && Possible(d, start) && link.sched == Nth(d, start) && now < MAX64
    requires done <= start && ServeAll(line, Times(d, done, start), clock) == Some(link.line)
    ensures start <= end && UsesUpTo(d, start, end, now)
    ensures match Rationalize(link, now, clock)
      case None => ServeAll(line, Times(d, done, end), clock) == None
      case Some(l) => (
        l.sched == Nth(d, end) && ServeAll(line, Times(d, done, end), clock) == Some(l.line)
        && l == link.(sched := l.sched, line := l.line,
                      opportunities := link.opportunities + Times(d, start, end)))
    decreases TimeLeft(link.sched, now), |link.sched.schedule| - link.sched.next
  {
    hide Serve, Advance, OpportunityTime, Times, ServeAll, TimeLeft, Trace;
    OpportunityIsNext(d, start);
    if NextTime(link.sched) > now {
      end := start;
      NoTimes(d, start);
      assert link.opportunities + [] == link.opportunities;
    } else {
      AdvanceDecreases(link.sched, now);
      StillPossible(d, start, now);
      ServeAllSnoc(d, done, start, line, clock);
      match Turn(link, clock)
      case None => end := NoneStays(d, done, start, line, now, clock);
      case Some(next) =>
        end := RationalizeUses(next, d, done, start + 1, line, now, clock);
        TimesHead(d, start, end);
        assert link.opportunities + [OpportunityTime(d, start)] + Times(d, start + 1, end)
               == link.opportunities + ([OpportunityTime(d, start)] + Times(d, start + 1, end));
    }
  }

  lemma NoTimes(d: Sched, k: nat)
    requires WellFormed(d)
    ensures Times(d, k, k) == []
  {
  }

  lemma ServeAllSnoc(d: Sched, done: nat, start: nat, line: Line, clock: Clock)
    requires WellFormed(d) && done <= start
    ensures ServeAll(line, Times(d, done, start + 1), clock) ==
      match ServeAll(line, Times(d, done, start), clock)
      case None => None
      case Some(m) => Serve(m, PACKET_SIZE, OpportunityTime(d, start), clock)
  {
    hide Serve, OpportunityTime;
    var times := Times(d, done, start + 1);
    assert times[..|times| - 1] == Times(d, done, start);
  }

  lemma StillPossible(d: Sched, k: nat, now: nat)
    requires AtStart(d) && Possible(d, k) && OpportunityTime(d, k) <= now < MAX64
    ensures Possible(d, k + 1)
  {
  }

  /** Once an assertion has failed, the remaining opportunities change nothing. */
  lemma {:induction false} NoneStays(d: Sched, done: nat, start: nat, line: Line, now: nat, clock: Clock)
    returns (end: nat)
    requires AtStart(d) && done <= start && Possible(d, start + 1) && OpportunityTime(d, start) <= now < MAX64
    requires ServeAll(line, Times(d, done, start + 1), clock) == None
    ensures start <= end && UsesUpTo(d, start, end, now)
    ensures ServeAll(line, Times(d, done, end), clock) == None
    decreases TimeLeft(Nth(d, start), now), |d.schedule| - Nth(d, start).next
  {
    hide Serve, ServeAll, Advance, OpportunityTime, NextTime, Times, TimeLeft, Trace, UsesUpTo;
    OpportunityIsNext(d, start);
    AdvanceDecreases(Nth(d, start), now);
    if OpportunityTime(d, start + 1) > now {
      end := start + 1;
      LastUse(d, start, now);
    } else {
      StillPossible(d, start + 1, now);
      ServeAllSnoc(d, done, start + 1, line, clock);
      end := NoneStays(d, done, start + 1, line, now, clock);
      EarlierUse(d, start, end, now);
    }
  }

  lemma LastUse(d: Sched, start: nat, now: nat)
    requires WellFormed(d) && Possible(d, start + 1)
    requires OpportunityTime(d, start) <= now < OpportunityTime(d, start + 1)
    ensures UsesUpTo(d, start, start + 1, now)
  {
    hide OpportunityTime;
  }

  lemma EarlierUse(d: Sched, start: nat, end: nat, now: nat)
    requires WellFormed(d) && UsesUpTo(d, start + 1, end, now) && OpportunityTime(d, start) <= now
    ensures start < end && UsesUpTo(d, start, end, now)
  {
    hide OpportunityTime;
  }

  /** Bringing the link up to date at an earlier instant first makes no difference, for any
      discipline that sees the same readings at the same dequeues. */
  lemma {:induction false} Batching(link: Link, a: nat, b: nat, clock: Clock)
    requires WellFormed(link.sched) && a <= b < MAX64
    ensures match Rationalize(link, a, clock)
      case None => Rationalize(link, b, clock) == None
      case Some(l) => WellFormed(l.sched) && Rationalize(link, b, clock) == Rationalize(l, b, clock)
    decreases TimeLeft(link.sched, a), |link.sched.schedule| - link.sched.next
  {
    hide Serve, Advance;
    if NextTime(link.sched) <= a {
      AdvanceDecreases(link.sched, a);
      AdvanceDecreases(link.sched, b);
      if Turn(link, clock).Some? { Batching(Turn(link, clock).value, a, b, clock); }
    }
  }
}
