/** Runs in which the code's dequeue and the RFC's part ways: over intervals of 2^28 ms and more, whose
    sixteenfold wraps in 32 bits, and in the packet that is delivered. */
module CoDelThreshold {
  import opened Machine
  import opened Text
  import opened Packets
  import opened CoDelSpec
  import opened CoDelRfc
  import opened CoDelRuns

  // ---------------------------------------------------------------- longer runs

  lemma {:induction false} ExecSnoc(cfg: Config, run: Run, ops: seq<Op>, op: Op)
    ensures Exec(cfg, run, ops + [op]) == match Exec(cfg, run, ops) case None => None case Some(r) => Do(cfg, r, op)
    decreases |ops|
  {
    hide Do;
    if ops == [] {
      assert [] + [op] == [op];
      assert [op][1..] == [];
    } else {
      assert (ops + [op])[0] == ops[0] && (ops + [op])[1..] == ops[1..] + [op];
      if Do(cfg, run, ops[0]).Some? { ExecSnoc(cfg, Do(cfg, run, ops[0]).value, ops[1..], op); }
    }
  }

  lemma {:induction false} RfcExecSnoc(cfg: Config, run: RfcRun, ops: seq<Op>, op: Op)
    ensures RfcExec(cfg, run, ops + [op]) == RfcDo(cfg, RfcExec(cfg, run, ops), op)
    decreases |ops|
  {
    hide RfcDo;
    if ops == [] {
      assert [] + [op] == [op];
      assert [op][1..] == [];
    } else {
      assert (ops + [op])[0] == ops[0] && (ops + [op])[1..] == ops[1..] + [op];
      RfcExecSnoc(cfg, RfcDo(cfg, run, ops[0]), ops[1..], op);
    }
  }

  function Counted(op: Op): nat {
    if op.Arrive? then 1 else 0
  }

  lemma DoCounts(cfg: Config, run: Run, op: Op)
    requires Do(cfg, run, op).Some?
    ensures Do(cfg, run, op).value.last == op.t
    ensures Do(cfg, run, op).value.arrivals == run.arrivals + Counted(op)
  {
    hide Dequeue, Enqueue;
  }

  lemma {:induction false} SaneSnoc(cfg: Config, run: Run, ops: seq<Op>, op: Op)
    requires Sane(ops, run.last, run.arrivals) && Exec(cfg, run, ops).Some?
    requires var r := Exec(cfg, run, ops).value; r.last <= op.t < TWO64 && r.arrivals + Counted(op) < TWO32
    ensures Sane(ops + [op], run.last, run.arrivals)
    decreases |ops|
  {
    hide Do;
    if ops == [] {
      assert [] + [op] == [op];
      assert [op][1..] == [];
      assert Sane([], op.t, run.arrivals + Counted(op));
    } else {
      assert (ops + [op])[0] == ops[0] && (ops + [op])[1..] == ops[1..] + [op];
      DoCounts(cfg, run, ops[0]);
      SaneSnoc(cfg, Do(cfg, run, ops[0]).value, ops[1..], op);
    }
  }

  // ---------------------------------------------------------------- reaching a state

  /** These operations lead the code to state s, and the RFC's routine with it. */
  ghost predicate Reaches(cfg: Config, ops: seq<Op>, s: CoDel, last: nat, arrivals: nat) {
    && cfg.interval > 0 && Sane(ops, 0, 0) && RefinesRun(cfg, ops)
    && var run := Exec(cfg, Start(), ops).value; run.s == s && run.last == last && run.arrivals == arrivals
  }

  lemma ReachedInv(cfg: Config, ops: seq<Op>, s: CoDel, last: nat, arrivals: nat)
    requires Reaches(cfg, ops, s, last, arrivals)
    ensures Inv(cfg, s, last, arrivals)
  {
    hide Exec, Inv, RfcExec;
    EveryRun(cfg, ops);
  }

  lemma ReachTake(cfg: Config, ops: seq<Op>, s: CoDel, last: nat, arrivals: nat, t: nat)
    requires Reaches(cfg, ops, s, last, arrivals) && s.q != [] && last <= t < TWO64
    requires !WrapMatters(cfg, s, t)
    ensures Dequeue(cfg, s, t).Some? && Reaches(cfg, ops + [Take(t)], Dequeue(cfg, s, t).value.s, t, arrivals)
  {
    hide Exec, Inv, RfcExec, Dequeue, RfcDequeue, WrapMatters, Sane;
    ReachedInv(cfg, ops, s, last, arrivals);
    var run := Exec(cfg, Start(), ops).value;
    RefinesExactly(cfg, s, last, t, arrivals);
    ExecSnoc(cfg, Start(), ops, Take(t));
    RfcExecSnoc(cfg, RfcRun(Empty(), 0), ops, Take(t));
    RunEnds(cfg, ops);
    SaneSnoc(cfg, Start(), ops, Take(t));
    var r := Dequeue(cfg, s, t).value;
    var all := run.results + [r];
    assert all[..|all| - 1] == run.results;
    var rfc := RfcDequeue(cfg, s, t);
    assert |[r.p] + r.discarded| == |rfc.dropped + [rfc.p.value]|;
  }

  lemma RunEnds(cfg: Config, ops: seq<Op>)
    requires cfg.interval > 0 && Sane(ops, 0, 0)
    ensures Exec(cfg, Start(), ops).Some? && Exec(cfg, Start(), ops).value.arrivals < TWO32
  {
    hide Exec, Sane;
    EveryRun(cfg, ops);
  }

  /** Where the wrap matters the next dequeue ends the agreement. */
  lemma ReachDiffers(cfg: Config, ops: seq<Op>, s: CoDel, last: nat, arrivals: nat, t: nat)
    requires Reaches(cfg, ops, s, last, arrivals) && s.q != [] && last <= t < TWO64
    requires WrapMatters(cfg, s, t)
    ensures Sane(ops + [Take(t)], 0, 0) && !RefinesRun(cfg, ops + [Take(t)])
  {
    hide Exec, Inv, RfcExec, Dequeue, RfcDequeue, WrapMatters, Sane;
    ReachedInv(cfg, ops, s, last, arrivals);
    RefinesExactly(cfg, s, last, t, arrivals);
    ExecSnoc(cfg, Start(), ops, Take(t));
    RfcExecSnoc(cfg, RfcRun(Empty(), 0), ops, Take(t));
    RunEnds(cfg, ops);
    SaneSnoc(cfg, Start(), ops, Take(t));
  }

  // ---------------------------------------------------------------- backlogs

  function Arrivals(n: nat, t: nat): seq<Op> {
    if n == 0 then [] else [Arrive(FullPacket(n, t).contents, t)] + Arrivals(n - 1, t)
  }

  /** The configuration without limits, for which every sojourn time of 1 ms or more is too long. */
  function Unlimited(interval: nat): Config {
    Config(Limits(0, 0), 1, interval)
  }

  lemma ReachArrive(cfg: Config, ops: seq<Op>, s: CoDel, last: nat, arrivals: nat, contents: string, t: nat)
    requires Reaches(cfg, ops, s, last, arrivals) && cfg.limits == Limits(0, 0) && last <= t < TWO64
    requires arrivals + 1 < TWO32
    ensures Reaches(cfg, ops + [Arrive(contents, t)], s.(q := s.q + [Packet(t, contents)]), t, arrivals + 1)
  {
    hide Exec, RfcExec, Sane;
    ExecSnoc(cfg, Start(), ops, Arrive(contents, t));
    RfcExecSnoc(cfg, RfcRun(Empty(), 0), ops, Arrive(contents, t));
    SaneSnoc(cfg, Start(), ops, Arrive(contents, t));
  }

  lemma {:induction false} ReachBacklog(cfg: Config, ops: seq<Op>, s: CoDel, last: nat, arrivals: nat, n: nat, t: nat)
    requires Reaches(cfg, ops, s, last, arrivals) && cfg.limits == Limits(0, 0) && last <= t < TWO64
    requires arrivals + n < TWO32 && n > 0
    ensures Reaches(cfg, ops + Arrivals(n, t), s.(q := s.q + FullQueue(n, t)), t, arrivals + n)
    decreases n
  {
    hide Reaches, FullPacket, Arrivals, FullQueue;
    var p := FullPacket(n, t);
    FirstArrival(ops, s.q, n, t);
    ReachArrive(cfg, ops, s, last, arrivals, p.contents, t);
    if n > 1 {
      ReachBacklog(cfg, ops + [Arrive(p.contents, t)], s.(q := s.q + [p]), t, arrivals + 1, n - 1, t);
    }
  }

  lemma FirstArrival(ops: seq<Op>, q: seq<Packet>, n: nat, t: nat)
    requires n > 0
    ensures var p := FullPacket(n, t);
      p == Packet(t, p.contents)
      && ops + Arrivals(n, t) == ops + [Arrive(p.contents, t)] + Arrivals(n - 1, t)
      && q + FullQueue(n, t) == q + [p] + FullQueue(n - 1, t)
    ensures n == 1 ==> ops + Arrivals(n, t) == ops + [Arrive(FullPacket(n, t).contents, t)]
                       && q + FullQueue(n, t) == q + [FullPacket(n, t)]
  {
    hide FullPacket;
    assert FullPacket(n, t).arrival == t by { PacketTime(n, t); }
  }

  lemma PacketTime(n: nat, t: nat)
    ensures FullPacket(n, t).arrival == t
  {
  }

  /** An inner dequeue from a backlog that has waited. */
  lemma InnerTake(cfg: Config, s: CoDel, n: nat, t: nat, now: nat)
    requires cfg == Unlimited(cfg.interval) && s.q == FullQueue(n, t) && n > 0 && t < now < TWO64
    ensures var r := DoDequeue(cfg, s, now); var left := FullQueue(n - 1, t);
      r.Some? && r.value.look.ok == (n > 2 && 0 < s.firstAbove <= now)
      && r.value.s == s.(q := left, firstAbove :=
           if n <= 2 then 0 else if s.firstAbove == 0 then now + cfg.interval else s.firstAbove)
  {
    assert s.q[0] == FullPacket(n, t) && s.q[1..] == FullQueue(n - 1, t);
    assert s.q[0].arrival == t;
  }

  // ---------------------------------------------------------------- the packet delivered

  /** A backlog of seven, looked at once. */
  function Looked(): seq<Op> {
    [] + Arrivals(7, 0) + [Take(1)]
  }

  lemma LookedState(cfg: Config)
    requires cfg == Unlimited(cfg.interval) && 0 < cfg.interval < TWO32
    ensures Reaches(cfg, Looked(), CoDel(FullQueue(6, 0), 1 + cfg.interval, 0, 0, 0, false), 1, 7)
  {
    hide Reaches, DoDequeue, WillDiscard, FullQueue;
    StartReached(cfg);
    var s0 := Empty().(q := [] + FullQueue(7, 0));
    ReachBacklog(cfg, [], Empty(), 0, 0, 7, 0);
    assert s0.q == FullQueue(7, 0);
    InnerTake(cfg, s0, 7, 0, 1);
    assert !WrapMatters(cfg, s0, 1);
    ReachTake(cfg, [] + Arrivals(7, 0), s0, 0, 7, 1);
  }

  lemma StartReached(cfg: Config)
    requires cfg.interval > 0
    ensures Reaches(cfg, [], Empty(), 0, 0)
  {
  }

  /** For every interval there is a run after which the code and the RFC deliver different packets. */
  lemma AnotherPacket(interval: nat) returns (cfg: Config, ops: seq<Op>, now: nat)
    requires 0 < interval < TWO32
    ensures cfg.interval == interval && cfg.target > 0 && Sane(ops + [Take(now)], 0, 0)
    ensures var o := Exec(cfg, Start(), ops);
      o.Some? && RefinesRun(cfg, ops) && CanTake(cfg, o.value.s, o.value.last, now, o.value.arrivals)
      && Dequeue(cfg, o.value.s, now).Some?
      && RfcDequeue(cfg, o.value.s, now).p != Some(Dequeue(cfg, o.value.s, now).value.p)
  {
    hide Exec, RfcExec, Inv, Dequeue, RfcDequeue, DoDequeue, Sane;
    cfg, ops, now := Unlimited(interval), Looked(), 1 + interval;
    LookedState(cfg);
    var s := CoDel(FullQueue(6, 0), 1 + interval, 0, 0, 0, false);
    ReachedInv(cfg, ops, s, 1, 7);
    SaneSnoc(cfg, Start(), ops, Take(now));
    DeliversExactly(cfg, s, 1, now, 7);
    InnerTake(cfg, s, 6, 0, now);
    EntryKeeps(cfg, s, 1, now, 7);
    var k := |Dequeue(cfg, s, now).value.discarded|;
    assert k == 1 && s.q[1] == FullQueue(5, 0)[0];
    assert s.q[0].contents[0] == 'x' && s.q[1].contents[0] == 'y';
  }

  // ---------------------------------------------------------------- wide intervals

  /** After the first drop, a late dequeue that empties the backlog leaves the dropping state with a
      count of 3; `due` is when the next drop would have been. */
  function Dropped3(interval: nat): seq<Op> {
    Looked() + [Take(1 + interval)] + [Take(1 + 3 * interval)] + [Take(1 + 3 * interval)]
  }

  function Due(interval: nat): (due: nat)
    ensures due <= 1 + 3 * interval
  {
    1 + interval + Gap(interval, 1) + Gap(interval, 2)
  }

  lemma EntersDropping(cfg: Config, s: CoDel)
    requires cfg == Unlimited(cfg.interval) && 0 < cfg.interval < TWO32
    requires s == CoDel(FullQueue(6, 0), 1 + cfg.interval, 0, 0, 0, false)
    ensures var now := 1 + cfg.interval;
      !WrapMatters(cfg, s, now) && Dequeue(cfg, s, now).Some?
      && Dequeue(cfg, s, now).value.s
         == CoDel(FullQueue(4, 0), now, now + Gap(cfg.interval, 1), 1, 1, true)
  {
    hide DoDequeue, WillDiscard, Gap, FullQueue;
    var now := 1 + cfg.interval;
    InnerTake(cfg, s, 6, 0, now);
    InnerTake(cfg, s.(q := FullQueue(5, 0)), 5, 0, now);
  }

  lemma LoopTurn(cfg: Config, s: CoDel, next: CoDel, now: nat)
    requires s.dropping && s.dropNext <= now && DoDequeue(cfg, s, now).Some?
    requires AfterDrop(cfg, DoDequeue(cfg, s, now).value) == Some(next) && DropLoop(cfg, next, now).Some?
    ensures DropLoop(cfg, s, now).Some? && DropLoop(cfg, s, now).value.s == DropLoop(cfg, next, now).value.s
  {
    hide DoDequeue, AfterDrop;
  }

  lemma LeavesDropping(cfg: Config, s: CoDel)
    requires cfg == Unlimited(cfg.interval) && 0 < cfg.interval < TWO32
    requires s == CoDel(FullQueue(4, 0), 1 + cfg.interval, 1 + cfg.interval + Gap(cfg.interval, 1), 1, 1, true)
    ensures var now := 1 + 3 * cfg.interval;
      !WrapMatters(cfg, s, now) && Dequeue(cfg, s, now).Some?
      && Dequeue(cfg, s, now).value.s == CoDel(FullQueue(1, 0), 0, Due(cfg.interval), 3, 1, false)
  {
    hide DoDequeue, WillDiscard, Gap, FullQueue, DropLoop;
    var now := 1 + 3 * cfg.interval;
    InnerTake(cfg, s, 4, 0, now);
    var s1 := s.(q := FullQueue(3, 0));
    InnerTake(cfg, s1, 3, 0, now);
    var s2 := s1.(q := FullQueue(2, 0), count := 2, dropNext := Due(cfg.interval));
    InnerTake(cfg, s2, 2, 0, now);
    var s3 := s2.(q := FullQueue(1, 0), count := 3, firstAbove := 0, dropping := false);
    LoopOver(cfg, s3, now);
    LoopTurn(cfg, s2, s3, now);
    LoopTurn(cfg, s1, s2, now);
  }

  lemma LoopOver(cfg: Config, s: CoDel, now: nat)
    requires !s.dropping
    ensures DropLoop(cfg, s, now) == Some(Dropped(s, [], []))
  {
  }

  lemma EmptiesQueue(cfg: Config, s: CoDel)
    requires cfg == Unlimited(cfg.interval) && 0 < cfg.interval < TWO32
    requires s == CoDel(FullQueue(1, 0), 0, Due(cfg.interval), 3, 1, false)
    ensures var now := 1 + 3 * cfg.interval;
      !WrapMatters(cfg, s, now) && Dequeue(cfg, s, now).Some? && Dequeue(cfg, s, now).value.s == s.(q := [])
  {
    hide DoDequeue, Due;
    InnerTake(cfg, s, 1, 0, 1 + 3 * cfg.interval);
  }

  lemma Dropped3State(cfg: Config)
    requires cfg == Unlimited(cfg.interval) && 0 < cfg.interval < TWO32
    ensures Reaches(cfg, Dropped3(cfg.interval), CoDel([], 0, Due(cfg.interval), 3, 1, false), 1 + 3 * cfg.interval, 7)
  {
    hide Reaches, Dequeue, WrapMatters, Due, Gap, Looked, FullQueue;
    var i := cfg.interval;
    LookedState(cfg);
    var s1 := CoDel(FullQueue(6, 0), 1 + i, 0, 0, 0, false);
    EntersDropping(cfg, s1);
    FullQueueNonempty(5); FullQueueNonempty(3); FullQueueNonempty(0);
    ReachTake(cfg, Looked(), s1, 1, 7, 1 + i);
    var s2 := Dequeue(cfg, s1, 1 + i).value.s;
    LeavesDropping(cfg, s2);
    ReachTake(cfg, Looked() + [Take(1 + i)], s2, 1 + i, 7, 1 + 3 * i);
    var s3 := Dequeue(cfg, s2, 1 + 3 * i).value.s;
    EmptiesQueue(cfg, s3);
    ReachTake(cfg, Looked() + [Take(1 + i)] + [Take(1 + 3 * i)], s3, 1 + 3 * i, 7, 1 + 3 * i);
  }

  lemma FullQueueNonempty(n: nat)
    ensures FullQueue(n + 1, 0) != []
  {
  }

  /** An interval of 2^28 ms or more makes 16 * interval wrap: some time after those drops a new backlog
      builds up, and the next entry into the dropping state falls between the wrapped and the true value
      of 16 * interval after the last drop was due. The code then starts from a count of 1, the RFC from
      a count of 2. */
  lemma WideIntervalDiffers(interval: nat) returns (cfg: Config, ops: seq<Op>)
    requires TWO32 <= 16 * interval && interval < TWO32
    ensures cfg.interval == interval && cfg.target > 0 && Sane(ops, 0, 0) && !RefinesRun(cfg, ops)
  {
    hide Reaches, Dequeue, RefinesRun, Due, Gap, Dropped3, DoDequeue, FullQueue, Sane;
    cfg := Unlimited(interval);
    var t, now := 1 + 3 * interval, Due(interval) + (16 * interval - 1);
    Dropped3State(cfg);
    var s := CoDel([], 0, Due(interval), 3, 1, false);
    ReachBacklog(cfg, Dropped3(interval), s, t, 7, 4, t);
    var s1, ops1 := s.(q := [] + FullQueue(4, t)), Dropped3(interval) + Arrivals(4, t);
    assert s1.q == FullQueue(4, t);
    SecondLook(cfg, s1, t);
    ReachTake(cfg, ops1, s1, t, 11, t + 1);
    var s2, ops2 := Dequeue(cfg, s1, t + 1).value.s, ops1 + [Take(t + 1)];
    SecondEntry(cfg, s2, t, now);
    ReachDiffers(cfg, ops2, s2, t + 1, 11, now);
    ops := ops2 + [Take(now)];
  }

  lemma SecondLook(cfg: Config, s: CoDel, t: nat)
    requires cfg == Unlimited(cfg.interval) && t + 1 < TWO64
    requires s.q == FullQueue(4, t) && s.firstAbove == 0 && !s.dropping
    ensures s.q != [] && !WrapMatters(cfg, s, t + 1) && Dequeue(cfg, s, t + 1).Some?
    ensures Dequeue(cfg, s, t + 1).value.s == s.(q := FullQueue(3, t), firstAbove := t + 1 + cfg.interval)
  {
    hide DoDequeue;
    InnerTake(cfg, s, 4, t, t + 1);
  }

  lemma SecondEntry(cfg: Config, s: CoDel, t: nat, now: nat)
    requires cfg == Unlimited(cfg.interval) && TWO32 <= 16 * cfg.interval
    requires s.q == FullQueue(3, t) && s.firstAbove == t + 1 + cfg.interval && !s.dropping
    requires s.count == 3 && s.lastCount == 1 && now == s.dropNext + (16 * cfg.interval - 1) < TWO64
    requires t + 1 + cfg.interval <= now
    ensures s.q != [] && WrapMatters(cfg, s, now)
  {
    assert s.q[0] == FullPacket(3, t) && s.q[1..] == FullQueue(2, t);
    assert s.q[0].arrival == t;
  }

  /** With a given interval every run refines the RFC exactly when the interval is below 2^28. */
  lemma IntervalThreshold(interval: nat)
    requires 0 < interval < TWO32
    ensures (forall cfg: Config, ops: seq<Op> ::
               cfg.interval == interval && cfg.target > 0 && Sane(ops, 0, 0) ==> RefinesRun(cfg, ops))
            <==> 16 * interval < TWO32
  {
    hide RefinesRun, Sane;
    if 16 * interval < TWO32 {
      forall cfg: Config, ops: seq<Op> | cfg.interval == interval && cfg.target > 0 && Sane(ops, 0, 0)
        ensures RefinesRun(cfg, ops)
      {
        RunRefinesRfc(cfg, ops);
      }
    } else {
      var cfg, ops := WideIntervalDiffers(interval);
      assert !RefinesRun(cfg, ops);
    }
  }
}
