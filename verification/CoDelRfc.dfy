/** The dequeue routine of section 5.5 of RFC 8289, with its helper of section 5.6, and how the
    code's dequeue relates to it. */
module CoDelRfc {
  import opened Machine
  import opened Text
  import opened Packets
  import opened CoDelSpec

  /** The routine may find the queue empty; then there is no packet. */
  datatype Deque = Deque(p: Option<Packet>, ok: bool, s: CoDel)

  function RfcDoDequeue(cfg: Config, s: CoDel, now: nat): Deque {
    if s.q == [] then Deque(None, false, s.(firstAbove := 0))
    else
      var p, rest := s.q[0], s.q[1..];
      var s1 := s.(q := rest);
      if now - p.arrival < cfg.target || Bytes(rest) <= PACKET_SIZE then
        Deque(Some(p), false, s1.(firstAbove := 0))
      else if s.firstAbove == 0 then
        Deque(Some(p), false, s1.(firstAbove := now + cfg.interval))
      else
        Deque(Some(p), now >= s.firstAbove, s1)
  }

  /** The control law: the interval divided by the square root of the count, rounded down, after t. */
  ghost function RfcControlLaw(interval: nat, t: nat, count: nat): nat
    requires count > 0
  {
    ControlLawIs(interval, t, count, ControlLaw(interval, t, count));
    var next: nat :| IsNextDrop(interval, t, count, next);
    next
  }

  lemma SameLaw(interval: nat, t: nat, count: nat)
    requires count > 0
    ensures RfcControlLaw(interval, t, count) == ControlLaw(interval, t, count)
  {
    ControlLawIs(interval, t, count, RfcControlLaw(interval, t, count));
  }

  datatype RfcResult = RfcResult(p: Option<Packet>, s: CoDel, dropped: seq<Packet>)

  function Drop(p: Option<Packet>): seq<Packet> {
    match p
    case None => []
    case Some(x) => [x]
  }

  /** The while loop: drop the packet in hand, dequeue the next one, and reschedule or leave. */
  ghost function RfcLoop(cfg: Config, s: CoDel, now: nat, p: Option<Packet>, dropped: seq<Packet>): RfcResult
    decreases |s.q|, s.dropping
  {
    if !(now >= s.dropNext && s.dropping) then RfcResult(p, s, dropped)
    else
      var count := s.count + 1;
      var r := RfcDoDequeue(cfg, s.(count := count), now);
      if !r.ok then RfcLoop(cfg, r.s.(dropping := false), now, r.p, dropped + Drop(p))
      else RfcLoop(cfg, r.s.(dropNext := RfcControlLaw(cfg.interval, s.dropNext, count)), now, r.p, dropped + Drop(p))
  }

  function RfcEntryCount(cfg: Config, s: CoDel, now: nat): nat {
    var delta := s.count - s.lastCount;
    if delta > 1 && now - s.dropNext < 16 * cfg.interval then delta else 1
  }

  ghost function RfcDequeue(cfg: Config, s: CoDel, now: nat): RfcResult {
    var r := RfcDoDequeue(cfg, s, now);
    if s.dropping then
      RfcLoop(cfg, r.s.(dropping := r.ok), now, r.p, [])
    else if r.ok then
      var r2 := RfcDoDequeue(cfg, r.s, now);
      var count := RfcEntryCount(cfg, s, now);
      RfcResult(r2.p,
                r2.s.(dropping := true, count := count, lastCount := count,
                      dropNext := RfcControlLaw(cfg.interval, now, count)),
                Drop(r.p))
    else RfcResult(r.p, r.s, [])
  }

  // ---------------------------------------------------------------- refinement

  lemma SameInner(cfg: Config, s: CoDel, now: nat)
    requires s.q != [] && Good(cfg.limits, s.q) && ArrivedBy(s.q, now) && now < TWO64
    ensures var c := DoDequeue(cfg, s, now); var r := RfcDoDequeue(cfg, s, now);
      c.Some? && r.p == Some(c.value.p) && r.ok == c.value.look.ok && r.s == c.value.s
  {
    GoodTail(cfg.limits, s.q);
  }

  lemma {:induction false} SameLoop(cfg: Config, s: CoDel, now: nat, arrivals: nat, p: Packet, dropped: seq<Packet>)
    requires LoopInv(cfg, s, now, arrivals)
    ensures var c := DropLoop(cfg, s, now); var r := RfcLoop(cfg, s, now, Some(p), dropped);
      c.Some? && r.s == c.value.s && r.p.Some?
      && r.dropped + [r.p.value] == dropped + ([p] + c.value.packets)
    decreases |s.q|
  {
    hide DoDequeue, RfcDoDequeue, RfcControlLaw, Good, ArrivedBy, MayDrop;
    if now >= s.dropNext && s.dropping {
      TurnKeeps(cfg, s, now, arrivals);
      SameInner(cfg, s, now);
      var c := DoDequeue(cfg, s, now).value;
      var count := s.count + 1;
      assert count % TWO32 == count;
      CountPassesThrough(cfg, s, now, count);
      SameLaw(cfg.interval, s.dropNext, count);
      var s1 := AfterDrop(cfg, c).value;
      SameLoop(cfg, s1, now, arrivals, c.p, dropped + [p]);
      var d := DropLoop(cfg, s1, now).value;
      assert dropped + [p] + ([c.p] + d.packets) == dropped + ([p] + ([c.p] + d.packets));
    } else {
      assert dropped + ([p] + []) == dropped + [p];
    }
  }

  lemma CountPassesThrough(cfg: Config, s: CoDel, now: nat, count: nat)
    ensures var r := RfcDoDequeue(cfg, s, now);
      RfcDoDequeue(cfg, s.(count := count), now) == r.(s := r.s.(count := count))
    ensures RfcDoDequeue(cfg, s, now).s.count == s.count && RfcDoDequeue(cfg, s, now).s.dropNext == s.dropNext
  {
  }

  /** One dequeue of the code against one of the RFC: the same state afterwards, the same packets
      taken off the queue. The code delivers the first of them and discards the others; the RFC
      drops all but the last and delivers that. */
  ghost predicate RefinesAt(cfg: Config, s: CoDel, now: nat) {
    var c := Dequeue(cfg, s, now);
    var r := RfcDequeue(cfg, s, now);
    c.Some? && r.p.Some? && r.s == c.value.s
    && [c.value.p] + c.value.discarded == r.dropped + [r.p.value]
  }

  /** A dequeue that the invariant of all runs admits: the clock has not gone back, and there is a
      packet. */
  predicate CanTake(cfg: Config, s: CoDel, last: nat, now: nat, arrivals: nat) {
    Inv(cfg, s, last, arrivals) && last <= now < TWO64 && s.q != []
  }

  /** Whether a dequeue at `now` will discard: the front packet has waited for the target, more than one
      maximal packet is behind it, that has been so for an interval, and in the dropping state the next
      drop is due. */
  predicate WillDiscard(cfg: Config, s: CoDel, now: nat)
    requires s.q != []
  {
    && Sub64(now, s.q[0].arrival) >= cfg.target && Bytes(s.q[1..]) > PACKET_SIZE
    && s.firstAbove != 0 && now >= s.firstAbove
    && (s.dropping ==> now >= s.dropNext)
  }

  /** Whether the dequeue enters the dropping state at a time that is within 16 intervals of the last
      drop, but not within the 16 * interval that 32 bits hold. */
  predicate WrapMatters(cfg: Config, s: CoDel, now: nat)
    requires s.q != []
  {
    && WillDiscard(cfg, s, now) && !s.dropping && s.count > s.lastCount + 1
    && 16 * cfg.interval % TWO32 <= now - s.dropNext < 16 * cfg.interval
  }

  lemma FirstLook(cfg: Config, s: CoDel, last: nat, now: nat, arrivals: nat)
    requires CanTake(cfg, s, last, now, arrivals)
    ensures var c := DoDequeue(cfg, s, now);
      c.Some? && (WillDiscard(cfg, s, now) <==> c.value.look.ok && (s.dropping ==> now >= s.dropNext))
  {
    hide Good;
    DoDequeueKeeps(cfg, s, now);
    BytesOfNothing();
  }

  /** The routine takes the packets that the code takes. The states agree except, on entering the
      dropping state, for what follows from the new count. */
  lemma SameTaken(cfg: Config, s: CoDel, last: nat, now: nat, arrivals: nat)
    requires CanTake(cfg, s, last, now, arrivals)
    ensures var c := Dequeue(cfg, s, now); var r := RfcDequeue(cfg, s, now);
      c.Some? && r.p.Some?
      && [c.value.p] + c.value.discarded == r.dropped + [r.p.value]
      && (c.value.discarded != [] <==> WillDiscard(cfg, s, now))
      && (s.dropping || !WillDiscard(cfg, s, now) || EntryCount(cfg, s, now) == RfcEntryCount(cfg, s, now)
          ==> r.s == c.value.s)
      && (!s.dropping && WillDiscard(cfg, s, now)
          ==> s.dropNext <= now && c.value.s.count == EntryCount(cfg, s, now)
              && r.s.count == RfcEntryCount(cfg, s, now))
  {
    hide DoDequeue, RfcDoDequeue, RfcControlLaw, EntryCount, RfcEntryCount, Good, WillDiscard;
    FirstLook(cfg, s, last, now, arrivals);
    DoDequeueKeeps(cfg, s, now);
    SameInner(cfg, s, now);
    var r := DoDequeue(cfg, s, now).value;
    if s.dropping {
      LoopStarts(cfg, s, last, now, arrivals);
      SameLoop(cfg, r.s.(dropping := r.look.ok), now, arrivals, r.p, []);
      var c := Dequeue(cfg, s, now).value;
      assert [] + ([c.p] + c.discarded) == [c.p] + c.discarded;
      LoopDiscards(cfg, r.s.(dropping := r.look.ok), now, arrivals);
    } else if r.look.ok {
      MayDropNonempty(r.s);
      SameInner(cfg, r.s, now);
      EntryCountPositive(cfg, s, now);
      SameLaw(cfg.interval, now, EntryCount(cfg, s, now));
    }
  }

  /** Entering the dropping state, and each drop after it, puts the next drop at the interval divided by
      the square root of the new count. */
  lemma NextDropMoves(cfg: Config, s: CoDel, last: nat, now: nat, arrivals: nat)
    requires CanTake(cfg, s, last, now, arrivals)
    ensures var c := Dequeue(cfg, s, now);
      c.Some? && (!s.dropping && WillDiscard(cfg, s, now)
                  ==> IsNextDrop(cfg.interval, now, c.value.s.count, c.value.s.dropNext))
    ensures !(WillDiscard(cfg, s, now)) ==> Dequeue(cfg, s, now).value.s.dropNext == s.dropNext
  {
    hide DoDequeue, EntryCount, Good, WillDiscard, Gap, IsNextDrop;
    FirstLook(cfg, s, last, now, arrivals);
    DoDequeueKeeps(cfg, s, now);
    DequeueKeeps(cfg, s, last, now, arrivals);
    EntryCountPositive(cfg, s, now);
    var count := EntryCount(cfg, s, now);
    ControlLawIs(cfg.interval, now, count, ControlLaw(cfg.interval, now, count));
  }

  /** One turn of the loop, after an inner dequeue that allowed the drop. */
  lemma TurnMoves(cfg: Config, s: CoDel, now: nat, arrivals: nat)
    requires LoopInv(cfg, s, now, arrivals) && s.dropping && s.dropNext <= now
    ensures var r := DoDequeue(cfg, s, now);
      r.Some? && AfterDrop(cfg, r.value).Some?
      && (var next := AfterDrop(cfg, r.value).value;
          next.count == s.count + 1 && next.dropping == r.value.look.ok
          && if r.value.look.ok then IsNextDrop(cfg.interval, s.dropNext, s.count + 1, next.dropNext)
             else next.dropNext == s.dropNext)
  {
    hide DoDequeue, Good, ArrivedBy, Gap, IsNextDrop;
    MayDropNonempty(s);
    DoDequeueKeeps(cfg, s, now);
    assert (s.count + 1) % TWO32 == s.count + 1;
    ControlLawIs(cfg.interval, s.dropNext, s.count + 1, ControlLaw(cfg.interval, s.dropNext, s.count + 1));
  }

  lemma LoopDiscards(cfg: Config, s: CoDel, now: nat, arrivals: nat)
    requires LoopInv(cfg, s, now, arrivals)
    ensures var d := DropLoop(cfg, s, now);
      d.Some? && (d.value.packets != [] <==> s.dropping && now >= s.dropNext)
  {
    hide LoopInv;
    DropLoopKeeps(cfg, s, now, arrivals);
  }

  /** One dequeue refines the RFC's routine exactly when the wrap does not matter to it; where it
      matters the states differ. */
  lemma RefinesExactly(cfg: Config, s: CoDel, last: nat, now: nat, arrivals: nat)
    requires CanTake(cfg, s, last, now, arrivals)
    ensures RefinesAt(cfg, s, now) <==> !WrapMatters(cfg, s, now)
    ensures WrapMatters(cfg, s, now)
            ==> Dequeue(cfg, s, now).Some? && RfcDequeue(cfg, s, now).s != Dequeue(cfg, s, now).value.s
  {
    hide Dequeue, RfcDequeue, WillDiscard, Good;
    SameTaken(cfg, s, last, now, arrivals);
    if !s.dropping && WillDiscard(cfg, s, now) { EntryIsExact(cfg, s, now); }
  }

  /** With an interval for which 16 * interval fits 32 bits it always does. */
  lemma CodeRefinesRfc(cfg: Config, s: CoDel, last: nat, now: nat, arrivals: nat)
    requires Inv(cfg, s, last, arrivals) && last <= now < TWO64 && s.q != []
    requires 16 * cfg.interval < TWO32
    ensures RefinesAt(cfg, s, now)
  {
    hide RefinesAt, Inv, WillDiscard;
    RefinesExactly(cfg, s, last, now, arrivals);
  }

  /** The code delivers the front packet. The RFC delivers the packet that comes as far behind it as
      packets are discarded, which is another one exactly when the guard of discarding holds. */
  lemma DeliversExactly(cfg: Config, s: CoDel, last: nat, now: nat, arrivals: nat)
    requires CanTake(cfg, s, last, now, arrivals)
    ensures var c := Dequeue(cfg, s, now); var r := RfcDequeue(cfg, s, now);
      c.Some? && c.value.p == s.q[0]
      && (var k := |c.value.discarded|; k < |s.q| && r.p == Some(s.q[k]) && (k > 0 <==> WillDiscard(cfg, s, now)))
    ensures (forall i :: 0 < i < |s.q| ==> s.q[i] != s.q[0])
            ==> (RfcDequeue(cfg, s, now).p == Some(Dequeue(cfg, s, now).value.p) <==> !WillDiscard(cfg, s, now))
  {
    hide Dequeue, RfcDequeue, WillDiscard, Inv;
    SameTaken(cfg, s, last, now, arrivals);
    DequeueKeeps(cfg, s, last, now, arrivals);
    var c, r := Dequeue(cfg, s, now).value, RfcDequeue(cfg, s, now);
    var taken := [c.p] + c.discarded;
    assert taken == r.dropped + [r.p.value];
    assert taken[|taken| - 1] == r.p.value && s.q == taken + c.s.q;
    assert forall i :: 0 <= i < |taken| ==> taken[i] == s.q[i];
  }
}
