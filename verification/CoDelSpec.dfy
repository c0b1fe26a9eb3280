/** The CoDel queue as the code computes it, in 32- and 64-bit unsigned arithmetic. */
module CoDelSpec {
  import opened Machine
  import opened Text
  import opened Packets

  datatype Config = Config(limits: Limits, target: nat, interval: nat)

  datatype CoDel = CoDel(
    q: seq<Packet>, firstAbove: nat, dropNext: nat, count: nat, lastCount: nat, dropping: bool)

  function Empty(): CoDel {
    CoDel([], 0, 0, 0, 0, false)
  }

  // ---------------------------------------------------------------- the control law

  /** The largest d at most `start` with d * d * count <= interval * interval. */
  function GapFrom(interval: nat, count: nat, start: nat): (d: nat)
    ensures d <= start
    ensures d * d * count <= interval * interval || d == 0
    ensures forall e: nat :: d < e <= start ==> e * e * count > interval * interval
    decreases start
  {
    if start == 0 || start * start * count <= interval * interval then start
    else GapFrom(interval, count, start - 1)
  }

  /** `interval / sqrt(count)` rounded down. */
  function Gap(interval: nat, count: nat): (d: nat)
    requires count > 0
    ensures d <= interval
  {
    GapFrom(interval, count, interval)
  }

  lemma GapIsFloor(interval: nat, count: nat, e: nat)
    requires count > 0
    ensures e <= Gap(interval, count) <==> e * e * count <= interval * interval
  {
    var d := Gap(interval, count);
    if e <= d {
      SquareMonotone(e, d, count);
    } else if e > interval {
      SquareAbove(e, interval, count);
    }
  }

  lemma SquareMonotone(e: nat, d: nat, c: nat)
    requires e <= d
    ensures e * e * c <= d * d * c
  {
    assert e * e <= e * d <= d * d;
    TimesMonotone(e * e, d * d, c);
  }

  lemma TimesMonotone(x: nat, y: nat, c: nat)
    requires x <= y
    ensures x * c <= y * c
  {
    assert y * c == x * c + (y - x) * c;
  }

  lemma SquareAbove(e: nat, i: nat, c: nat)
    requires e > i && c > 0
    ensures e * e * c > i * i
  {
    assert e * e > e * i >= i * i;
    TimesMonotone(1, c, e * e);
    assert 1 * (e * e) == e * e;
  }

  /** `control_law`: the time of the next drop. */
  function ControlLaw(interval: nat, t: nat, count: nat): nat
    requires count > 0
  {
    t + Gap(interval, count)
  }

  /** The next drop is not before t + e exactly while e * sqrt(count) is at most the interval. */
  lemma ControlLawExactly(interval: nat, t: nat, count: nat, e: nat)
    requires count > 0
    ensures t + e <= ControlLaw(interval, t, count) <==> e * e * count <= interval * interval
  {
    GapIsFloor(interval, count, e);
  }

  /** `next` is t plus the interval divided by the square root of the count, rounded down. */
  predicate IsNextDrop(interval: nat, t: nat, count: nat, next: nat) {
    t <= next
    && (next - t) * (next - t) * count <= interval * interval
    && (next - t + 1) * (next - t + 1) * count > interval * interval
  }

  lemma ControlLawIs(interval: nat, t: nat, count: nat, next: nat)
    requires count > 0
    ensures IsNextDrop(interval, t, count, next) <==> next == ControlLaw(interval, t, count)
  {
    var d := Gap(interval, count);
    GapIsFloor(interval, count, d);
    GapIsFloor(interval, count, d + 1);
    if IsNextDrop(interval, t, count, next) {
      GapIsFloor(interval, count, next - t);
      GapIsFloor(interval, count, next - t + 1);
    }
  }

  // ---------------------------------------------------------------- dequeue

  /** One inner dequeue, for the record: when it happened, the sojourn time of the packet, the bytes
      left behind, and whether dropping was allowed. */
  datatype Look = Look(now: nat, sojourn: nat, left: nat, ok: bool)

  datatype Inner = Inner(p: Packet, s: CoDel, look: Look)

  /** `dodequeue`; `None` where an assertion fails. */
  function DoDequeue(cfg: Config, s: CoDel, now: nat): Option<Inner> {
    if TakeFront(cfg.limits, s.q).None? then None
    else
      var p, rest := s.q[0], s.q[1..];
      var sojourn, left := Sub64(now, p.arrival), Bytes(rest);
      var look := Look(now, sojourn, left, false);
      var s1 := s.(q := rest);
      if rest == [] || sojourn < cfg.target || left <= PACKET_SIZE then
        Some(Inner(p, s1.(firstAbove := 0), look))
      else if s.firstAbove == 0 then Some(Inner(p, s1.(firstAbove := now + cfg.interval), look))
      else Some(Inner(p, s1, look.(ok := now >= s.firstAbove)))
  }

  datatype Dropped = Dropped(s: CoDel, packets: seq<Packet>, looks: seq<Look>)

  /** The loop that discards packets while the next drop is due. `None` where an assertion fails or
      the control law would divide by zero. */
  function DropLoop(cfg: Config, s: CoDel, now: nat): Option<Dropped>
    decreases |s.q|
  {
    if !(now >= s.dropNext && s.dropping) then Some(Dropped(s, [], []))
    else
      match DoDequeue(cfg, s, now)
      case None => None
      case Some(r) =>
        match AfterDrop(cfg, r)
        case None => None
        case Some(s1) =>
          match DropLoop(cfg, s1, now)
          case None => None
          case Some(d) => Some(Dropped(d.s, [r.p] + d.packets, [r.look] + d.looks))
  }

  /** One turn of the loop after its inner dequeue: count the drop, and either schedule the next one
      or leave the dropping state. */
  function AfterDrop(cfg: Config, r: Inner): (o: Option<CoDel>)
    ensures o.Some? ==> o.value.q == r.s.q
  {
    var count := (r.s.count + 1) % TWO32;
    var s1 := r.s.(count := count);
    if !r.look.ok then Some(s1.(dropping := false))
    else if count == 0 then None
    else Some(s1.(dropNext := ControlLaw(cfg.interval, s1.dropNext, count)))
  }

  /** The count on entering the dropping state, from the previous one. */
  function EntryCount(cfg: Config, s: CoDel, now: nat): nat {
    var delta := Sub32(s.count, s.lastCount);
    if delta > 1 && Sub64(now, s.dropNext) < 16 * cfg.interval % TWO32 then delta else 1
  }

  lemma EntryCountPositive(cfg: Config, s: CoDel, now: nat)
    ensures EntryCount(cfg, s, now) > 0
  {
  }

  /** The packet handed to the link, the state left, the packets discarded, and the inner dequeues. */
  datatype Result = Result(p: Packet, s: CoDel, discarded: seq<Packet>, looks: seq<Look>)

  function Dequeue(cfg: Config, s: CoDel, now: nat): Option<Result> {
    match DoDequeue(cfg, s, now)
    case None => None
    case Some(r) =>
      if s.dropping then
        match DropLoop(cfg, r.s.(dropping := r.look.ok), now)
        case None => None
        case Some(d) => Some(Result(r.p, d.s, d.packets, [r.look] + d.looks))
      else if r.look.ok then
        match DoDequeue(cfg, r.s, now)
        case None => None
        case Some(r2) =>
          EntryCountPositive(cfg, s, now);
          var count := EntryCount(cfg, s, now);
          var s2 := r2.s.(dropping := true, count := count, lastCount := count,
                          dropNext := ControlLaw(cfg.interval, now, count));
          Some(Result(r.p, s2, [r2.p], [r.look, r2.look]))
      else Some(Result(r.p, r.s, [], [r.look]))
  }

  function Enqueue(cfg: Config, s: CoDel, p: Packet): Option<CoDel> {
    match DropTail(cfg.limits, s.q, p)
    case None => None
    case Some(q) => Some(s.(q := q))
  }

  // ---------------------------------------------------------------- the invariant

  predicate ArrivedBy(q: seq<Packet>, t: nat) {
    forall i :: 0 <= i < |q| ==> q[i].arrival <= t
  }

  /** What holds between calls: `last` is the latest clock reading so far and `arrivals` the number
      of packets that ever arrived. */
  predicate Inv(cfg: Config, s: CoDel, last: nat, arrivals: nat) {
    && cfg.interval > 0 && Good(cfg.limits, s.q) && ArrivedBy(s.q, last)
    && s.dropNext <= last + cfg.interval
    && s.firstAbove <= last + cfg.interval
    && (!s.dropping && s.firstAbove != 0 ==> s.dropNext <= s.firstAbove)
    && (s.dropping && s.firstAbove != 0 ==> s.firstAbove <= last)
    && s.lastCount <= s.count && (s.dropping ==> s.count > 0)
    && s.count + |s.q| <= arrivals < TWO32
    && last < TWO64
  }

  /** After an inner dequeue that allowed a drop, more than one maximal packet is left. */
  predicate MayDrop(s: CoDel) {
    Bytes(s.q) > PACKET_SIZE
  }

  lemma DoDequeueKeeps(cfg: Config, s: CoDel, now: nat)
    requires s.q != [] && Good(cfg.limits, s.q) && ArrivedBy(s.q, now) && now < TWO64
    ensures var r := DoDequeue(cfg, s, now);
      r.Some? && r.value.p == s.q[0]
      && r.value.s == s.(q := s.q[1..], firstAbove := r.value.s.firstAbove)
      && Good(cfg.limits, s.q[1..]) && ArrivedBy(s.q[1..], now)
      && (r.value.look.ok ==> MayDrop(r.value.s) && s.firstAbove != 0 && s.firstAbove <= now
                              && r.value.s.firstAbove == s.firstAbove)
      && (!r.value.look.ok ==> r.value.s.firstAbove == 0
                               || (s.firstAbove == 0 && r.value.s.firstAbove == now + cfg.interval)
                               || (r.value.s.firstAbove == s.firstAbove > now))
      && r.value.look.sojourn == now - s.q[0].arrival && r.value.look.left == Bytes(s.q[1..])
  {
    GoodTail(cfg.limits, s.q);
  }

  predicate LoopInv(cfg: Config, s: CoDel, now: nat, arrivals: nat) {
    && cfg.interval > 0 && Good(cfg.limits, s.q) && ArrivedBy(s.q, now)
    && s.dropNext <= now + cfg.interval
    && (s.firstAbove <= now || s.firstAbove == now + cfg.interval)
    && (s.dropping ==> s.firstAbove <= now && MayDrop(s) && s.count > 0)
    && (!s.dropping && s.firstAbove != 0 ==> s.dropNext <= s.firstAbove)
    && s.lastCount <= s.count
    && s.count + |s.q| <= arrivals < TWO32
    && now < TWO64
  }

  lemma MayDropNonempty(s: CoDel)
    requires MayDrop(s)
    ensures s.q != []
  {
  }

  lemma TurnKeeps(cfg: Config, s: CoDel, now: nat, arrivals: nat)
    requires LoopInv(cfg, s, now, arrivals) && s.dropping && s.dropNext <= now
    ensures s.q != []
    ensures var r := DoDequeue(cfg, s, now);
      r.Some? && r.value.p == s.q[0]
      && (var o := AfterDrop(cfg, r.value);
          o.Some? && LoopInv(cfg, o.value, now, arrivals) && o.value.q == s.q[1..]
          && o.value.lastCount == s.lastCount)
  {
    hide DoDequeue, Good, ArrivedBy, Gap;
    MayDropNonempty(s);
    DoDequeueKeeps(cfg, s, now);
    var r := DoDequeue(cfg, s, now).value;
    assert (s.count + 1) % TWO32 == s.count + 1;
  }

  lemma {:induction false} DropLoopKeeps(cfg: Config, s: CoDel, now: nat, arrivals: nat)
    requires LoopInv(cfg, s, now, arrivals)
    ensures var d := DropLoop(cfg, s, now);
      d.Some? && LoopInv(cfg, d.value.s, now, arrivals) && d.value.s.lastCount == s.lastCount
      && (d.value.s.dropping ==> d.value.s.dropNext > now)
    decreases |s.q|
  {
    hide DoDequeue, AfterDrop, LoopInv;
    if now >= s.dropNext && s.dropping {
      TurnKeeps(cfg, s, now, arrivals);
      DropLoopKeeps(cfg, AfterDrop(cfg, DoDequeue(cfg, s, now).value).value, now, arrivals);
    }
  }

  lemma DoDequeueTakes(cfg: Config, s: CoDel, now: nat)
    requires DoDequeue(cfg, s, now).Some?
    ensures s.q != [] && DoDequeue(cfg, s, now).value.p == s.q[0] && DoDequeue(cfg, s, now).value.s.q == s.q[1..]
  {
  }

  /** What the loop discards comes off the front, in order. */
  lemma {:induction false} DropLoopSplits(cfg: Config, s: CoDel, now: nat)
    requires DropLoop(cfg, s, now).Some?
    ensures s.q == DropLoop(cfg, s, now).value.packets + DropLoop(cfg, s, now).value.s.q
    decreases |s.q|
  {
    hide DoDequeue, AfterDrop;
    if now >= s.dropNext && s.dropping {
      DoDequeueTakes(cfg, s, now);
      var r := DoDequeue(cfg, s, now).value;
      var s1 := AfterDrop(cfg, r).value;
      DropLoopSplits(cfg, s1, now);
      var d := DropLoop(cfg, s1, now).value;
      assert DropLoop(cfg, s, now) == Some(Dropped(d.s, [r.p] + d.packets, [r.look] + d.looks));
      assert [r.p] + d.packets + d.s.q == [r.p] + (d.packets + d.s.q);
    }
  }

  lemma LoopStarts(cfg: Config, s: CoDel, last: nat, now: nat, arrivals: nat)
    requires Inv(cfg, s, last, arrivals) && last <= now < TWO64 && s.q != [] && s.dropping
    ensures var r := DoDequeue(cfg, s, now);
      r.Some? && r.value.p == s.q[0] && r.value.s.q == s.q[1..]
      && LoopInv(cfg, r.value.s.(dropping := r.value.look.ok), now, arrivals)
  {
    hide DoDequeue, Good, MayDrop;
    DoDequeueKeeps(cfg, s, now);
  }

  lemma EntryKeeps(cfg: Config, s: CoDel, last: nat, now: nat, arrivals: nat)
    requires Inv(cfg, s, last, arrivals) && last <= now < TWO64 && s.q != [] && !s.dropping
    ensures var r := DoDequeue(cfg, s, now);
      r.Some? && r.value.p == s.q[0] && r.value.s.q == s.q[1..]
      && (!r.value.look.ok ==> Inv(cfg, r.value.s, now, arrivals))
      && (r.value.look.ok ==>
            s.dropNext <= now && s.q[1..] != []
            && (var t := Dequeue(cfg, s, now);
                t.Some? && Inv(cfg, t.value.s, now, arrivals) && t.value.p == s.q[0]
                && t.value.discarded == [s.q[1]] && t.value.s.q == s.q[2..]))
  {
    hide DoDequeue, Good, MayDrop, Gap, EntryCount;
    DoDequeueKeeps(cfg, s, now);
    var r := DoDequeue(cfg, s, now).value;
    if r.look.ok {
      MayDropNonempty(r.s);
      DoDequeueKeeps(cfg, r.s, now);
      EntryIsExact(cfg, s, now);
    }
  }

  /** Every dequeue on a nonempty queue, under a clock that does not go back, succeeds, keeps the
      invariant, and takes the delivered packet and the discarded ones off the front in order. */
  lemma DequeueKeeps(cfg: Config, s: CoDel, last: nat, now: nat, arrivals: nat)
    requires Inv(cfg, s, last, arrivals) && last <= now < TWO64 && s.q != []
    ensures var r := Dequeue(cfg, s, now);
      r.Some? && Inv(cfg, r.value.s, now, arrivals)
      && s.q == [r.value.p] + r.value.discarded + r.value.s.q
  {
    hide DoDequeue, EntryCount;
    assert s.q == [s.q[0]] + s.q[1..];
    if s.dropping {
      LoopStarts(cfg, s, last, now, arrivals);
      var r := DoDequeue(cfg, s, now).value;
      DropLoopKeeps(cfg, r.s.(dropping := r.look.ok), now, arrivals);
      DropLoopSplits(cfg, r.s.(dropping := r.look.ok), now);
      LoopEnds(cfg, DropLoop(cfg, r.s.(dropping := r.look.ok), now).value.s, now, arrivals);
    } else {
      EntryKeeps(cfg, s, last, now, arrivals);
    }
  }

  lemma LoopEnds(cfg: Config, s: CoDel, now: nat, arrivals: nat)
    requires LoopInv(cfg, s, now, arrivals)
    ensures Inv(cfg, s, now, arrivals)
  {
    hide Good, ArrivedBy;
  }

  /** On entering the dropping state neither unsigned subtraction wraps. */
  lemma EntryIsExact(cfg: Config, s: CoDel, now: nat)
    requires s.lastCount <= s.count < TWO32 && s.dropNext <= now < TWO64
    ensures Sub32(s.count, s.lastCount) == s.count - s.lastCount
    ensures Sub64(now, s.dropNext) == now - s.dropNext
    ensures 1 <= EntryCount(cfg, s, now) <= if s.count > 1 then s.count else 1
  {
  }

  lemma EnqueueKeeps(cfg: Config, s: CoDel, last: nat, now: nat, arrivals: nat, contents: string)
    requires Inv(cfg, s, last, arrivals) && last <= now < TWO64 && arrivals + 1 < TWO32
    ensures var p := Packet(now, contents); var r := Enqueue(cfg, s, p);
      r.Some? && Inv(cfg, r.value, now, arrivals + 1) && (r.value.q == s.q || r.value.q == s.q + [p])
  {
    hide Good;
    DropTailExactly(cfg.limits, s.q, Packet(now, contents));
  }

  // ---------------------------------------------------------------- discards

  /** Dropping never starves the link: if something was discarded and packets have at most the
      maximal size, a packet is still queued. */
  lemma {:induction false} DropLoopLeaves(cfg: Config, s: CoDel, now: nat, arrivals: nat)
    requires LoopInv(cfg, s, now, arrivals)
    requires forall i :: 0 <= i < |s.q| ==> s.q[i].Size() <= PACKET_SIZE
    ensures var d := DropLoop(cfg, s, now);
      d.Some? && (d.value.packets != [] ==> d.value.s.q != [])
    decreases |s.q|
  {
    hide DoDequeue, AfterDrop;
    if now >= s.dropNext && s.dropping {
      TurnKeeps(cfg, s, now, arrivals);
      var s1 := AfterDrop(cfg, DoDequeue(cfg, s, now).value).value;
      assert s1.q != [] by { assert Bytes(s.q) > PACKET_SIZE; }
      DropLoopLeaves(cfg, s1, now, arrivals);
    }
  }

  lemma NeverStarves(cfg: Config, s: CoDel, last: nat, now: nat, arrivals: nat)
    requires Inv(cfg, s, last, arrivals) && last <= now < TWO64 && s.q != []
    requires forall i :: 0 <= i < |s.q| ==> s.q[i].Size() <= PACKET_SIZE
    ensures var r := Dequeue(cfg, s, now);
      r.Some? && (r.value.discarded != [] ==> r.value.s.q != [])
  {
    hide DoDequeue, EntryCount;
    DequeueKeeps(cfg, s, last, now, arrivals);
    if s.dropping {
      LoopStarts(cfg, s, last, now, arrivals);
      var r := DoDequeue(cfg, s, now).value;
      DropLoopLeaves(cfg, r.s.(dropping := r.look.ok), now, arrivals);
    } else {
      EntryKeeps(cfg, s, last, now, arrivals);
      var r := DoDequeue(cfg, s, now).value;
      DoDequeueKeeps(cfg, s, now);
      if r.look.ok { assert Bytes(r.s.q) > PACKET_SIZE && s.q[1] == r.s.q[0]; }
    }
  }
}
