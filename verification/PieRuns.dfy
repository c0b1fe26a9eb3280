/** Whole runs of the PIE queue, and how its simulated timer compares with a real one. */
module PieRuns {
  import opened Machine
  import opened Text
  import opened Packets
  import opened PieSpec

  /** `Take` reads the clock twice, as the code does. */
  datatype Op = Arrive(contents: string, t: nat, draw: real) | Take(t: nat, later: nat)

  datatype Run = Run(s: Pie, last: nat, accepted: seq<Packet>, taken: seq<Packet>)

  function Begin(now: nat): Run {
    Run(Start(now), now, [], [])
  }

  /** `None` where an assertion fails. As its caller does, `Take` leaves an empty queue alone. */
  function Do(cfg: Config, run: Run, op: Op): Option<Run> {
    match op
    case Arrive(contents, t, draw) =>
      var p := Packet(t, contents);
      (match Enqueue(cfg, run.s, p, t, draw)
       case None => None
       case Some(s) =>
         Some(run.(s := s, last := t, accepted := run.accepted + if |s.q| > |run.s.q| then [p] else [])))
    case Take(t, later) =>
      if run.s.q == [] then Some(run.(last := later))
      else match Dequeue(cfg, run.s, t, later)
        case None => None
        case Some(r) => Some(run.(s := r.s, last := later, taken := run.taken + [r.p]))
  }

  function Exec(cfg: Config, run: Run, ops: seq<Op>): Option<Run>
    decreases |ops|
  {
    if ops == [] then Some(run)
    else match Do(cfg, run, ops[0])
      case None => None
      case Some(next) => Exec(cfg, next, ops[1..])
  }

  function Final(op: Op): nat {
    if op.Take? then op.later else op.t
  }

  /** 64-bit clock readings never decrease from `from` on. */
  predicate Sane(ops: seq<Op>, from: nat)
    decreases |ops|
  {
    from < TWO64 && (ops == [] || (from <= ops[0].t <= Final(ops[0]) && Sane(ops[1..], Final(ops[0]))))
  }

  /** What the constructor checks. */
  predicate Configured(cfg: Config) {
    cfg.qdelayRef > 0 && cfg.maxBurst > 0
  }

  // ---------------------------------------------------------------- the invariant of all runs

  /** The limits and bounds hold, packets leave in the order in which they were accepted, and the update
      clock is never ahead. */
  predicate RunInv(cfg: Config, run: Run) {
    && Good(cfg.limits, run.s.q) && InBounds(cfg, run.s) && run.s.lastUpdate <= run.last < TWO64
    && run.accepted == run.taken + run.s.q
  }

  lemma DoKeeps(cfg: Config, run: Run, op: Op)
    requires RunInv(cfg, run) && run.last <= op.t <= Final(op) < TWO64
    ensures Do(cfg, run, op).Some? && RunInv(cfg, Do(cfg, run, op).value)
    ensures Do(cfg, run, op).value.last == Final(op)
  {
    hide Good, InBounds, CatchUp, Estimate, DropEarly;
    match op
    case Arrive(contents, t, draw) =>
      EnqueueKeeps(cfg, run.s, Packet(t, contents), t, draw);
      CaughtUp(cfg, run.s, Bytes(run.s.q), t);
      assert run.taken + (run.s.q + [Packet(t, contents)]) == run.accepted + [Packet(t, contents)];
      assert run.accepted + [] == run.accepted;
    case Take(t, later) =>
      if run.s.q != [] {
        DequeueKeeps(cfg, run.s, t, later);
        var p, rest := run.s.q[0], run.s.q[1..];
        EstimateKeeps(cfg, run.s.(q := rest), p.Size(), Bytes(rest), t % TWO32);
        CaughtUp(cfg, Estimate(run.s.(q := rest), p.Size(), Bytes(rest), t % TWO32), Bytes(rest), later);
        assert run.taken + [p] + rest == run.taken + run.s.q;
      }
  }

  lemma {:induction false} ExecKeeps(cfg: Config, run: Run, ops: seq<Op>)
    requires RunInv(cfg, run) && Sane(ops, run.last)
    ensures Exec(cfg, run, ops).Some? && RunInv(cfg, Exec(cfg, run, ops).value)
    decreases |ops|
  {
    hide RunInv, Do;
    if ops != [] {
      assert Final(ops[0]) < TWO64 by { assert Sane(ops[1..], Final(ops[0])); }
      DoKeeps(cfg, run, ops[0]);
      ExecKeeps(cfg, Do(cfg, run, ops[0]).value, ops[1..]);
    }
  }

  /** In every run no assertion fails, the drop probability and the burst allowance stay in bounds, and
      every packet accepted has left in order or is still queued. */
  lemma EveryRun(cfg: Config, start: nat, ops: seq<Op>)
    requires cfg.maxBurst < 0x8000_0000 && Sane(ops, start)
    ensures var o := Exec(cfg, Begin(start), ops);
      o.Some? && InBounds(cfg, o.value.s) && Good(cfg.limits, o.value.s.q)
      && o.value.accepted == o.value.taken + o.value.s.q
  {
    hide Exec;
    assert RunInv(cfg, Begin(start));
    ExecKeeps(cfg, Begin(start), ops);
  }

  // ---------------------------------------------------------------- against a real timer

  /** Dequeue as a periodic timer would have it: the missed updates see the occupancy they would have
      seen, before the packet leaves. */
  function TimerDequeue(cfg: Config, s: Pie, now: nat): Option<Taken> {
    match TakeFront(cfg.limits, s.q)
    case None => None
    case Some(p) =>
      var t := CatchUp(cfg, s, Bytes(s.q), now);
      Some(Taken(p, Estimate(t.(q := s.q[1..]), p.Size(), Bytes(s.q[1..]), now % TWO32)))
  }

  predicate AsTimed(cfg: Config, s: Pie, now: nat) {
    Dequeue(cfg, s, now, now) == TimerDequeue(cfg, s, now)
  }

  lemma NoPeriodMissed(cfg: Config, s: Pie, now: nat)
    requires Sub64(now, s.lastUpdate) <= T_UPDATE
    ensures AsTimed(cfg, s, now)
  {
    hide Estimate, Update;
    if s.q != [] {
      var p, rest := s.q[0], s.q[1..];
      EstimateKeeps(cfg, s.(q := rest), p.Size(), Bytes(rest), now % TWO32);
    }
  }

  /** A state in which the size of the queue does not matter: no departure rate is known or being
      measured, and the drop probability is 0. */
  predicate Unmeasured(cfg: Config, s: Pie) {
    SmallParameters(cfg, s) && s.avgRate == 0 && s.dqCount == DQ_COUNT_INVALID && s.dropProb == 0.0
  }

  lemma UnmeasuredUpdate(cfg: Config, s: Pie, q: seq<Packet>, size: nat, other: nat)
    requires Unmeasured(cfg, s)
    ensures Unmeasured(cfg, Update(cfg, s, size))
    ensures Update(cfg, s.(q := q), other) == Update(cfg, s, size).(q := q)
  {
    SignedNegative(cfg.qdelayRef);
    SignedNegative(s.qdelay);
    assert Correction(cfg, 0, s.qdelay) <= 0.0;
    ScaleKeepsSign(Correction(cfg, 0, s.qdelay), Scale(0.0));
  }

  lemma {:induction false} UnmeasuredCatchUp(cfg: Config, s: Pie, q: seq<Packet>, size: nat, other: nat, now: nat)
    requires Unmeasured(cfg, s)
    ensures Unmeasured(cfg, CatchUp(cfg, s, size, now))
    ensures CatchUp(cfg, s.(q := q), other, now) == CatchUp(cfg, s, size, now).(q := q)
    decreases Sub64(now, s.lastUpdate)
  {
    hide Update, Unmeasured;
    if Sub64(now, s.lastUpdate) > T_UPDATE {
      UpdateClock(cfg, s, size, now);
      UnmeasuredUpdate(cfg, s, q, size, other);
      UpdateClock(cfg, s.(q := q), other, now);
      UnmeasuredCatchUp(cfg, Update(cfg, s, size), q, size, other, now);
    }
  }

  /** Then, and while a dequeue leaves too little to start measuring, missed periods make no difference. */
  lemma UnmeasuredAsTimed(cfg: Config, s: Pie, now: nat)
    requires Unmeasured(cfg, s) && s.q != [] && Bytes(s.q[1..]) < DQ_THRESHOLD
    ensures AsTimed(cfg, s, now)
  {
    hide CatchUp;
    UnmeasuredCatchUp(cfg, s, s.q[1..], Bytes(s.q), Bytes(s.q[1..]), now);
    EstimateIdle(s.(q := s.q[1..]), s.q[0].Size(), Bytes(s.q[1..]), now % TWO32);
    EstimateIdle(CatchUp(cfg, s, Bytes(s.q), now).(q := s.q[1..]), s.q[0].Size(), Bytes(s.q[1..]), now % TWO32);
  }

  lemma EstimateIdle(s: Pie, departed: nat, size: nat, now: nat)
    requires s.dqCount == DQ_COUNT_INVALID && size < DQ_THRESHOLD
    ensures Estimate(s, departed, size, now) == s
  {
  }

  // ---------------------------------------------------------------- a run with a slow departure rate

  function Arrivals(n: nat, t: nat): seq<Op> {
    if n == 0 then [] else [Arrive(FullPacket(n, t).contents, t, 0.0)] + Arrivals(n - 1, t)
  }

  function Takes(n: nat, t: nat): seq<Op> {
    if n == 0 then [] else [Take(t, t)] + Takes(n - 1, t)
  }

  /** Twelve packets arrive at once, ten leave at once and the eleventh 30 ms later. */
  function SlowRun(t: nat): seq<Op> {
    Arrivals(12, t) + (Takes(10, t) + [Take(t + T_UPDATE, t + T_UPDATE)])
  }

  lemma FullQueueFirst(n: nat, t: nat)
    requires n > 0
    ensures FullQueue(n, t)[0] == Packet(t, FullPacket(n, t).contents) && FullQueue(n, t)[1..] == FullQueue(n - 1, t)
  {
  }

  lemma ExecCons(cfg: Config, run: Run, op: Op, ops: seq<Op>, rest: seq<Op>)
    requires ops != [] && ops[0] == op && Do(cfg, run, op).Some?
    ensures Exec(cfg, run, ops + rest) == Exec(cfg, Do(cfg, run, op).value, ops[1..] + rest)
  {
    hide Do;
    assert (ops + rest)[0] == op && (ops + rest)[1..] == ops[1..] + rest;
  }

  /** Within a period of the last update, full packets are accepted and nothing else changes. */
  lemma {:induction false} Fill(cfg: Config, run: Run, n: nat, t: nat, rest: seq<Op>) returns (after: Run)
    requires cfg.limits == Limits(0, 0) && run.last == run.s.lastUpdate == t && run.s.dropProb == 0.0
    ensures after.s == run.s.(q := run.s.q + FullQueue(n, t)) && after.last == t
    ensures Exec(cfg, run, Arrivals(n, t) + rest) == Exec(cfg, after, rest)
    decreases n
  {
    hide Exec, FullQueue, FullPacket;
    if n == 0 {
      after := run;
      assert FullQueue(0, t) == [] by { assert |FullQueue(0, t)| == 0; }
      assert run.s.q + [] == run.s.q && [] + rest == rest;
    } else {
      var p := Packet(t, FullPacket(n, t).contents);
      FullQueueFirst(n, t);
      ExecCons(cfg, run, Arrive(p.contents, t, 0.0), Arrivals(n, t), rest);
      after := Fill(cfg, Do(cfg, run, Arrive(p.contents, t, 0.0)).value, n - 1, t, rest);
      assert run.s.q + [p] + FullQueue(n - 1, t) == run.s.q + FullQueue(n, t);
    }
  }

  lemma FullSize(n: nat, t: nat)
    requires n > 0
    ensures FullQueue(n, t)[0].Size() == PACKET_SIZE
  {
  }

  /** Within a period of the last update a dequeue is one turn of the rate estimator. */
  lemma QuickTake(cfg: Config, s: Pie, n: nat, t: nat, now: nat)
    requires cfg.limits == Limits(0, 0) && s.q == FullQueue(n, t) && n > 0 && Sub64(now, s.lastUpdate) <= T_UPDATE
    ensures Dequeue(cfg, s, now, now) == Some(Taken(s.q[0],
              Estimate(s.(q := FullQueue(n - 1, t)), PACKET_SIZE, (n - 1) * PACKET_SIZE, now % TWO32)))
  {
    hide FullQueue, FullPacket, Estimate, Update;
    FullQueueFirst(n, t);
    FullSize(n, t);
    var rest := FullQueue(n - 1, t);
    EstimateKeeps(cfg, s.(q := rest), PACKET_SIZE, Bytes(rest), now % TWO32);
  }

  /** The first packet to leave a long queue starts a measurement. */
  lemma FirstTake(cfg: Config, s: Pie, n: nat, t: nat)
    requires cfg.limits == Limits(0, 0) && s.lastUpdate == t && s.q == FullQueue(n, t) && n > 11
    requires s.dqCount == DQ_COUNT_INVALID
    ensures Dequeue(cfg, s, t, t) == Some(Taken(s.q[0],
              s.(q := FullQueue(n - 1, t), dqTstamp := t % TWO32, dqCount := PACKET_SIZE)))
  {
    hide FullQueue, Dequeue;
    QuickTake(cfg, s, n, t, t);
    assert (n - 1) * PACKET_SIZE >= DQ_THRESHOLD;
  }

  lemma NextTake(cfg: Config, s: Pie, n: nat, t: nat)
    requires cfg.limits == Limits(0, 0) && s.lastUpdate == t && s.q == FullQueue(n, t) && n > 0
    requires s.dqCount + PACKET_SIZE <= DQ_THRESHOLD
    ensures Dequeue(cfg, s, t, t)
            == Some(Taken(s.q[0], s.(q := FullQueue(n - 1, t), dqCount := s.dqCount + PACKET_SIZE)))
  {
    hide FullQueue, Dequeue;
    QuickTake(cfg, s, n, t, t);
  }

  /** At the same instant the packets that leave are only counted. */
  lemma {:induction false} Drain(cfg: Config, run: Run, n: nat, k: nat, t: nat, rest: seq<Op>) returns (after: Run)
    requires cfg.limits == Limits(0, 0) && run.last == run.s.lastUpdate == t && run.s.q == FullQueue(n, t) && k <= n
    requires run.s.dqTstamp == t % TWO32 && run.s.dqCount + k * PACKET_SIZE <= DQ_THRESHOLD
    ensures after.s == run.s.(q := FullQueue(n - k, t), dqCount := run.s.dqCount + k * PACKET_SIZE) && after.last == t
    ensures Exec(cfg, run, Takes(k, t) + rest) == Exec(cfg, after, rest)
    decreases k
  {
    hide Exec, Dequeue, FullQueue, FullPacket;
    if k == 0 {
      after := run;
      assert [] + rest == rest;
    } else {
      NextTake(cfg, run.s, n, t);
      assert run.s.q != [];
      ExecCons(cfg, run, Take(t, t), Takes(k, t), rest);
      after := Drain(cfg, Do(cfg, run, Take(t, t)).value, n - 1, k - 1, t, rest);
    }
  }

  /** The eleventh packet completes the measurement: 11 * 1504 bytes in 30 ms. */
  lemma LastTake(cfg: Config, s: Pie, t: nat)
    requires cfg.limits == Limits(0, 0) && s.lastUpdate == t && s.q == FullQueue(2, t) && t + T_UPDATE < TWO64
    requires s.dqTstamp == t % TWO32 && s.dqCount == 10 * PACKET_SIZE && s.avgRate == 0 && s.burst == 0
    ensures var now := t + T_UPDATE;
      Dequeue(cfg, s, now, now)
      == Some(Taken(s.q[0], s.(q := FullQueue(1, t), dqCount := DQ_COUNT_INVALID, avgRate := 551)))
  {
    hide FullQueue, Dequeue;
    ElapsedPeriod(t);
    QuickTake(cfg, s, 2, t, t + T_UPDATE);
    assert 11 * PACKET_SIZE / T_UPDATE == 551;
  }

  lemma ElapsedPeriod(t: nat)
    ensures Sub32((t + T_UPDATE) % TWO32, t % TWO32) == T_UPDATE
    ensures Sub64(t + T_UPDATE, t) == T_UPDATE
  {
  }

  /** One full packet is left, to be served at 551 bytes per ms. */
  function SlowState(t: nat): Pie {
    Start(t).(q := FullQueue(1, t), dqTstamp := t % TWO32, avgRate := 551)
  }

  lemma SlowRunReaches(cfg: Config, t: nat)
    requires cfg.limits == Limits(0, 0) && t + T_UPDATE < TWO64
    ensures Sane(SlowRun(t), t)
    ensures var o := Exec(cfg, Begin(t), SlowRun(t));
      o.Some? && o.value.s == SlowState(t) && o.value.last == t + T_UPDATE
  {
    hide Dequeue, FullQueue, FullPacket, Arrivals, Takes, Exec, Sane;
    SlowRunSane(t);
    var final := [Take(t + T_UPDATE, t + T_UPDATE)];
    var r1 := Fill(cfg, Begin(t), 12, t, Takes(10, t) + final);
    assert [] + FullQueue(12, t) == FullQueue(12, t);
    FirstTake(cfg, r1.s, 12, t);
    TakesFirst(10, t);
    ExecCons(cfg, r1, Take(t, t), Takes(10, t), final);
    var r2 := Do(cfg, r1, Take(t, t)).value;
    var r3 := Drain(cfg, r2, 11, 9, t, final);
    LastTake(cfg, r3.s, t);
    assert final[1..] + [] == [] && final + [] == final;
    ExecCons(cfg, r3, final[0], final, []);
    var r4 := Do(cfg, r3, final[0]).value;
    ExecNone(cfg, r4);
  }

  lemma ExecNone(cfg: Config, run: Run)
    ensures Exec(cfg, run, []) == Some(run)
  {
  }

  lemma TakesFirst(n: nat, t: nat)
    requires n > 0
    ensures Takes(n, t) != [] && Takes(n, t)[0] == Take(t, t) && Takes(n, t)[1..] == Takes(n - 1, t)
  {
  }

  lemma {:induction false} SaneTakes(n: nat, t: nat, rest: seq<Op>)
    requires Sane(rest, t) && t < TWO64
    ensures Sane(Takes(n, t) + rest, t)
    decreases n
  {
    if n == 0 {
      assert [] + rest == rest;
    } else {
      var ops := Takes(n, t);
      SaneTakes(n - 1, t, rest);
      assert (ops + rest)[0] == ops[0] && (ops + rest)[1..] == ops[1..] + rest;
    }
  }

  lemma {:induction false} SaneArrivals(n: nat, t: nat, rest: seq<Op>)
    requires Sane(rest, t) && t < TWO64
    ensures Sane(Arrivals(n, t) + rest, t)
    decreases n
  {
    hide FullPacket;
    if n == 0 {
      assert [] + rest == rest;
    } else {
      var ops := Arrivals(n, t);
      SaneArrivals(n - 1, t, rest);
      assert (ops + rest)[0] == ops[0] && (ops + rest)[1..] == ops[1..] + rest;
    }
  }

  lemma SaneFinal(t: nat)
    requires t + T_UPDATE < TWO64
    ensures Sane([Take(t + T_UPDATE, t + T_UPDATE)], t)
  {
    assert [Take(t + T_UPDATE, t + T_UPDATE)][1..] == [];
  }

  lemma SlowRunSane(t: nat)
    requires t + T_UPDATE < TWO64
    ensures Sane(SlowRun(t), t)
  {
    hide Sane, Takes, Arrivals;
    SaneFinal(t);
    SaneTakes(10, t, [Take(t + T_UPDATE, t + T_UPDATE)]);
    SaneArrivals(12, t, Takes(10, t) + [Take(t + T_UPDATE, t + T_UPDATE)]);
  }

  // ---------------------------------------------------------------- the last packet

  /** With a reference delay of 1 ms the rate is kept, and each update measures the delay. */
  lemma {:induction false} DelayUpdates(cfg: Config, s: Pie, size: nat, k: nat)
    requires cfg.qdelayRef == 1 && s.avgRate > 0 && k > 0
    ensures var u := Updates(cfg, s, size, k);
      u.avgRate == s.avgRate && u.qdelay == size / s.avgRate && u.dqCount == s.dqCount
    decreases k
  {
    hide NextProb;
    var next := Update(cfg, s, size);
    if k > 1 { DelayUpdates(cfg, next, size, k - 1); }
  }

  lemma PeriodMissed(cfg: Config, t: nat, now: nat)
    requires cfg.limits == Limits(0, 0) && cfg.qdelayRef == 1 && t + T_UPDATE < now < TWO64
    ensures !AsTimed(cfg, SlowState(t), now)
  {
    hide Update, Updates, CatchUp, Estimate, FullQueue, FullPacket;
    var s := SlowState(t);
    FullQueueFirst(1, t);
    var rest := FullQueue(0, t);
    assert Bytes(rest) == 0 && Bytes(s.q) == PACKET_SIZE;
    var k := Missed(s, now);
    assert Sub64(now, t) == now - t && k > 0;
    var s1 := s.(q := rest);
    EstimateIdle(s1, s.q[0].Size(), 0, now % TWO32);
    CatchUpIsUpdates(cfg, s1, 0, now);
    DelayUpdates(cfg, s1, 0, k);
    assert Dequeue(cfg, s, now, now).value.s.qdelay == 0;
    CatchUpIsUpdates(cfg, s, PACKET_SIZE, now);
    DelayUpdates(cfg, s, PACKET_SIZE, k);
    EstimateIdle(Updates(cfg, s, PACKET_SIZE, k).(q := rest), s.q[0].Size(), 0, now % TWO32);
    assert PACKET_SIZE / 551 == 2;
  }

  /** In every run, a dequeue that comes `gap` after the last update comes out as with a periodic timer
      exactly when that is at most one period: if one was missed, the code lets the departing packet
      disappear before the update that should have counted it. */
  lemma TimerThreshold(start: nat, gap: nat)
    requires start + gap < TWO64
    ensures (forall cfg: Config, ops: seq<Op>, now: nat ::
               Configured(cfg) && Sane(ops, start) && DueAfter(cfg, start, ops, now, gap)
               ==> AsTimed(cfg, Exec(cfg, Begin(start), ops).value.s, now))
            <==> gap <= T_UPDATE
  {
    hide AsTimed, Exec, Sane, SlowState;
    if gap <= T_UPDATE {
      forall cfg: Config, ops: seq<Op>, now: nat
        | Configured(cfg) && Sane(ops, start) && DueAfter(cfg, start, ops, now, gap)
        ensures AsTimed(cfg, Exec(cfg, Begin(start), ops).value.s, now)
      {
        NoPeriodMissed(cfg, Exec(cfg, Begin(start), ops).value.s, now);
      }
    } else {
      var cfg, ops, now := Config(Limits(0, 0), 1, 1), SlowRun(start), start + gap;
      SlowRunReaches(cfg, start);
      PeriodMissed(cfg, start, now);
      assert SlowState(start).lastUpdate == start by { SlowStateClock(start); }
      assert Sub64(now, start) == gap;
      assert DueAfter(cfg, start, ops, now, gap);
    }
  }

  lemma SlowStateClock(t: nat)
    ensures SlowState(t).lastUpdate == t
  {
  }

  /** After the run the clock can read `now`, which is `gap` after the last update. */
  predicate DueAfter(cfg: Config, start: nat, ops: seq<Op>, now: nat, gap: nat) {
    var o := Exec(cfg, Begin(start), ops);
    o.Some? && o.value.last <= now < TWO64 && Sub64(now, o.value.s.lastUpdate) == gap
  }
}
