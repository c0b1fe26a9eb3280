/** Whole runs of the CoDel queue: arrivals and dequeues under a clock that does not go back. */
module CoDelRuns {
  import opened Machine
  import opened Text
  import opened Packets
  import opened CoDelSpec
  import opened CoDelRfc

  datatype Op = Arrive(contents: string, t: nat) | Take(t: nat)

  /** The queue and what has happened to it: the packets it accepted, those taken off again (whether
      delivered or discarded), the results of its dequeues, and every inner dequeue. */
  datatype Run = Run(
    s: CoDel, arrivals: nat, last: nat, accepted: seq<Packet>, taken: seq<Packet>,
    results: seq<Result>, looks: seq<Look>)

  function Start(): Run {
    Run(Empty(), 0, 0, [], [], [], [])
  }

  /** `None` where an assertion fails. As its caller does, `Take` leaves an empty queue alone. */
  function Do(cfg: Config, run: Run, op: Op): Option<Run> {
    match op
    case Arrive(contents, t) =>
      var p := Packet(t, contents);
      (match Enqueue(cfg, run.s, p)
       case None => None
       case Some(s) => Some(run.(s := s, arrivals := run.arrivals + 1, last := t,
                                 accepted := run.accepted + (if |s.q| > |run.s.q| then [p] else []))))
    case Take(t) =>
      if run.s.q == [] then Some(run.(last := t))
      else match Dequeue(cfg, run.s, t)
        case None => None
        case Some(r) => Some(run.(s := r.s, last := t, taken := run.taken + ([r.p] + r.discarded),
                                  results := run.results + [r], looks := run.looks + r.looks))
  }

  function Exec(cfg: Config, run: Run, ops: seq<Op>): Option<Run>
    decreases |ops|
  {
    if ops == [] then Some(run)
    else match Do(cfg, run, ops[0])
      case None => None
      case Some(next) => Exec(cfg, next, ops[1..])
  }

  /** Fewer than 2^32 packets arrive, and 64-bit clock readings never decrease from `from` on. */
  predicate Sane(ops: seq<Op>, from: nat, arrivals: nat)
    decreases |ops|
  {
    arrivals < TWO32 && from < TWO64
    && (ops == [] || (from <= ops[0].t
                      && Sane(ops[1..], ops[0].t, arrivals + if ops[0].Arrive? then 1 else 0)))
  }

  // ---------------------------------------------------------------- persistent delay

  /** The sojourn time had reached the target, and more than one maximal packet was left. */
  predicate Above(cfg: Config, look: Look) {
    look.sojourn >= cfg.target && look.left > PACKET_SIZE
  }

  predicate AboveFrom(cfg: Config, looks: seq<Look>, i: int, to: int) {
    0 <= i <= to < |looks| && forall j :: i <= j <= to ==> Above(cfg, looks[j])
  }

  /** At inner dequeue k the delay had been above target at every inner dequeue over at least a whole
      interval. */
  ghost predicate Persistent(cfg: Config, looks: seq<Look>, k: nat) {
    exists i: nat :: AboveFrom(cfg, looks, i, k) && looks[i].now + cfg.interval <= looks[k].now
  }

  /** `first_above_time_`, when set, is one interval after an inner dequeue since which all were
      above target; and dropping was only ever allowed on persistent delay. */
  ghost predicate History(cfg: Config, firstAbove: nat, looks: seq<Look>) {
    && (firstAbove != 0 ==>
          exists i: nat :: AboveFrom(cfg, looks, i, |looks| - 1) && looks[i].now + cfg.interval == firstAbove)
    && forall k :: 0 <= k < |looks| && looks[k].ok ==> Persistent(cfg, looks, k)
  }

  lemma PersistentExtends(cfg: Config, looks: seq<Look>, look: Look, k: nat)
    requires k < |looks| && Persistent(cfg, looks, k)
    ensures Persistent(cfg, looks + [look], k)
  {
    var i: nat :| AboveFrom(cfg, looks, i, k) && looks[i].now + cfg.interval <= looks[k].now;
    assert AboveFrom(cfg, looks + [look], i, k);
  }

  lemma HistoryStep(cfg: Config, s: CoDel, looks: seq<Look>, now: nat)
    requires DoDequeue(cfg, s, now).Some? && History(cfg, s.firstAbove, looks)
    ensures var r := DoDequeue(cfg, s, now).value;
      r.look.now == now && History(cfg, r.s.firstAbove, looks + [r.look])
  {
    hide Persistent, Good;
    var r := DoDequeue(cfg, s, now).value;
    var after := looks + [r.look];
    forall k | 0 <= k < |looks| && looks[k].ok ensures Persistent(cfg, after, k) {
      PersistentExtends(cfg, looks, r.look, k);
    }
    if r.s.firstAbove != 0 {
      BytesOfNothing();
      assert Above(cfg, r.look);
      HistoryAbove(cfg, s.firstAbove, looks, r.look, r.s.firstAbove);
    }
  }

  lemma HistoryAbove(cfg: Config, before: nat, looks: seq<Look>, look: Look, firstAbove: nat)
    requires Above(cfg, look) && History(cfg, before, looks) && firstAbove != 0
    requires if before == 0 then firstAbove == look.now + cfg.interval && !look.ok
             else firstAbove == before && (look.ok ==> before <= look.now)
    ensures exists i: nat :: AboveFrom(cfg, looks + [look], i, |looks|)
              && (looks + [look])[i].now + cfg.interval == firstAbove
    ensures look.ok ==> Persistent(cfg, looks + [look], |looks|)
  {
    var after := looks + [look];
    if before == 0 {
      assert AboveFrom(cfg, after, |looks|, |looks|);
    } else {
      var i: nat :| AboveFrom(cfg, looks, i, |looks| - 1) && looks[i].now + cfg.interval == firstAbove;
      assert AboveFrom(cfg, after, i, |looks|);
    }
  }

  /** The inner dequeues before each discard all allowed dropping. */
  predicate Allowed(looks: seq<Look>, discards: nat) {
    discards <= |looks| && forall j :: 0 <= j < discards ==> looks[j].ok
  }

  lemma {:induction false} HistoryLoop(cfg: Config, s: CoDel, looks: seq<Look>, now: nat)
    requires DropLoop(cfg, s, now).Some? && History(cfg, s.firstAbove, looks)
    ensures var d := DropLoop(cfg, s, now).value;
      History(cfg, d.s.firstAbove, looks + d.looks) && |d.looks| == |d.packets|
      && (forall j :: 0 <= j < |d.looks| - 1 ==> d.looks[j].ok)
      && (forall j :: 0 <= j < |d.looks| ==> d.looks[j].now == now)
    decreases |s.q|
  {
    hide DoDequeue, History;
    if now >= s.dropNext && s.dropping {
      HistoryStep(cfg, s, looks, now);
      DoDequeueTakes(cfg, s, now);
      var r := DoDequeue(cfg, s, now).value;
      var s1 := AfterDrop(cfg, r).value;
      HistoryLoop(cfg, s1, looks + [r.look], now);
      var d := DropLoop(cfg, s1, now).value;
      assert looks + [r.look] + d.looks == looks + ([r.look] + d.looks);
      if !r.look.ok { assert d.looks == []; }
    } else {
      assert looks + [] == looks;
    }
  }

  lemma HistoryDequeue(cfg: Config, s: CoDel, looks: seq<Look>, now: nat)
    requires Dequeue(cfg, s, now).Some? && History(cfg, s.firstAbove, looks)
    ensures var r := Dequeue(cfg, s, now).value;
      History(cfg, r.s.firstAbove, looks + r.looks)
      && |r.looks| == |r.discarded| + 1 && Allowed(r.looks, |r.discarded|)
      && forall j :: 0 <= j < |r.looks| ==> r.looks[j].now == now
  {
    hide DoDequeue, History, EntryCount;
    HistoryStep(cfg, s, looks, now);
    var r := DoDequeue(cfg, s, now).value;
    if s.dropping {
      var s1 := r.s.(dropping := r.look.ok);
      HistoryLoop(cfg, s1, looks + [r.look], now);
      var d := DropLoop(cfg, s1, now).value;
      assert looks + [r.look] + d.looks == looks + ([r.look] + d.looks);
      if !r.look.ok { assert d.looks == []; }
    } else if r.look.ok {
      HistoryStep(cfg, r.s, looks + [r.look], now);
      var r2 := DoDequeue(cfg, r.s, now).value;
      assert looks + [r.look] + [r2.look] == looks + [r.look, r2.look];
    }
  }

  // ---------------------------------------------------------------- all runs

  ghost predicate RunInv(cfg: Config, run: Run) {
    && Inv(cfg, run.s, run.last, run.arrivals)
    && History(cfg, run.s.firstAbove, run.looks)
    && run.accepted == run.taken + run.s.q
    && (forall i :: 0 <= i < |run.results| ==> Allowed(run.results[i].looks, |run.results[i].discarded|))
  }

  lemma DoKeeps(cfg: Config, run: Run, op: Op)
    requires RunInv(cfg, run) && run.last <= op.t < TWO64
    requires run.arrivals + (if op.Arrive? then 1 else 0) < TWO32
    ensures Do(cfg, run, op).Some? && RunInv(cfg, Do(cfg, run, op).value)
    ensures Do(cfg, run, op).value.last == op.t
    ensures Do(cfg, run, op).value.arrivals == run.arrivals + if op.Arrive? then 1 else 0
  {
    hide Inv, History, Dequeue, Enqueue;
    match op
    case Arrive(contents, t) =>
      EnqueueKeeps(cfg, run.s, run.last, t, run.arrivals, contents);
      EnqueueOnlyAdds(cfg, run.s, Packet(t, contents));
      var s := Enqueue(cfg, run.s, Packet(t, contents)).value;
      assert run.accepted + [Packet(t, contents)] == run.taken + (run.s.q + [Packet(t, contents)]);
      assert run.accepted + [] == run.accepted;
    case Take(t) =>
      if run.s.q == [] {
        LaterInv(cfg, run.s, run.last, t, run.arrivals);
      } else {
        DequeueKeeps(cfg, run.s, run.last, t, run.arrivals);
        HistoryDequeue(cfg, run.s, run.looks, t);
        var r := Dequeue(cfg, run.s, t).value;
        assert run.taken + ([r.p] + r.discarded) + r.s.q == run.taken + ([r.p] + r.discarded + r.s.q);
      }
  }

  lemma EnqueueOnlyAdds(cfg: Config, s: CoDel, p: Packet)
    requires Enqueue(cfg, s, p).Some?
    ensures Enqueue(cfg, s, p).value.firstAbove == s.firstAbove
  {
  }

  lemma LaterInv(cfg: Config, s: CoDel, last: nat, now: nat, arrivals: nat)
    requires Inv(cfg, s, last, arrivals) && last <= now < TWO64 && s.q == []
    ensures Inv(cfg, s, now, arrivals)
  {
  }

  lemma {:induction false} ExecKeeps(cfg: Config, run: Run, ops: seq<Op>)
    requires RunInv(cfg, run) && Sane(ops, run.last, run.arrivals)
    ensures Exec(cfg, run, ops).Some? && RunInv(cfg, Exec(cfg, run, ops).value)
    decreases |ops|
  {
    hide RunInv, Do;
    if ops != [] {
      SaneFirst(ops, run.last, run.arrivals);
      DoKeeps(cfg, run, ops[0]);
      ExecKeeps(cfg, Do(cfg, run, ops[0]).value, ops[1..]);
    }
  }

  lemma SaneFirst(ops: seq<Op>, from: nat, arrivals: nat)
    requires ops != [] && Sane(ops, from, arrivals)
    ensures from <= ops[0].t < TWO64 && arrivals + (if ops[0].Arrive? then 1 else 0) < TWO32
  {
  }

  lemma StartInv(cfg: Config)
    requires cfg.interval > 0
    ensures RunInv(cfg, Start())
  {
  }

  /** In every run no assertion fails, the invariant holds, `first_above_time_` rests on its history, and
      every packet accepted was taken in order of arrival or is still queued. */
  lemma EveryRun(cfg: Config, ops: seq<Op>)
    requires cfg.interval > 0 && Sane(ops, 0, 0)
    ensures var o := Exec(cfg, Start(), ops);
      o.Some? && Inv(cfg, o.value.s, o.value.last, o.value.arrivals)
      && o.value.accepted == o.value.taken + o.value.s.q
      && History(cfg, o.value.s.firstAbove, o.value.looks)
  {
    hide Exec, Inv, History;
    StartInv(cfg);
    ExecKeeps(cfg, Start(), ops);
  }

  /** Each discard of this dequeue follows an inner dequeue at which the delay was persistent, in the
      history that `before` starts. */
  ghost predicate JustifiedDiscards(cfg: Config, before: seq<Look>, r: Result) {
    |r.looks| == |r.discarded| + 1
    && forall k :: |before| <= k < |before| + |r.discarded| ==> Persistent(cfg, before + r.looks, k)
  }

  /** In every run, from any point of it, every packet that the next dequeue discards is discarded on
      persistent delay: at the inner dequeue just before it, all inner dequeues over at least a whole
      interval had seen a sojourn time of at least the target and more than one maximal packet. */
  lemma DropsOnlyOnPersistentDelay(cfg: Config, ops: seq<Op>, now: nat)
    requires cfg.interval > 0 && Sane(ops + [Take(now)], 0, 0)
    ensures var o := Exec(cfg, Start(), ops);
      o.Some? && (o.value.s.q != [] ==>
        var r := Dequeue(cfg, o.value.s, now);
        r.Some? && JustifiedDiscards(cfg, o.value.looks, r.value))
  {
    hide Exec, Inv, Dequeue, Persistent;
    StartInv(cfg);
    SanePrefix(cfg, Start(), ops, Take(now), 0, 0);
    ExecKeeps(cfg, Start(), ops);
    var run := Exec(cfg, Start(), ops).value;
    if run.s.q != [] {
      DequeueKeeps(cfg, run.s, run.last, now, run.arrivals);
      HistoryDequeue(cfg, run.s, run.looks, now);
      var r := Dequeue(cfg, run.s, now).value;
      var looks := run.looks + r.looks;
      forall k | |run.looks| <= k < |run.looks| + |r.discarded| ensures Persistent(cfg, looks, k) {
        assert looks[k] == r.looks[k - |run.looks|];
      }
    }
  }

  lemma {:induction false} SanePrefix(cfg: Config, run: Run, ops: seq<Op>, op: Op, from: nat, arrivals: nat)
    requires Sane(ops + [op], from, arrivals) && run.last == from && run.arrivals == arrivals
    ensures Sane(ops, from, arrivals)
    ensures Exec(cfg, run, ops).Some? ==> Exec(cfg, run, ops).value.last <= op.t < TWO64
    decreases |ops|
  {
    if ops != [] {
      assert (ops + [op])[0] == ops[0] && (ops + [op])[1..] == ops[1..] + [op];
      var next := arrivals + if ops[0].Arrive? then 1 else 0;
      var after := match Do(cfg, run, ops[0]) case None => run.(last := ops[0].t, arrivals := next) case Some(r) => r;
      SanePrefix(cfg, after, ops[1..], op, ops[0].t, next);
    }
  }

  // ---------------------------------------------------------------- against the RFC

  datatype RfcRun = RfcRun(s: CoDel, drops: nat)

  ghost function RfcDo(cfg: Config, run: RfcRun, op: Op): RfcRun {
    match op
    case Arrive(contents, t) =>
      var p := Packet(t, contents);
      if Good(cfg.limits, run.s.q + [p]) then run.(s := run.s.(q := run.s.q + [p])) else run
    case Take(t) =>
      if run.s.q == [] then run
      else var r := RfcDequeue(cfg, run.s, t); RfcRun(r.s, run.drops + |r.dropped|)
  }

  ghost function RfcExec(cfg: Config, run: RfcRun, ops: seq<Op>): RfcRun
    decreases |ops|
  {
    if ops == [] then run else RfcExec(cfg, RfcDo(cfg, run, ops[0]), ops[1..])
  }

  function Discards(results: seq<Result>): nat {
    if results == [] then 0 else Discards(results[..|results| - 1]) + |results[|results| - 1].discarded|
  }

  lemma SameDo(cfg: Config, run: Run, op: Op)
    requires RunInv(cfg, run) && run.last <= op.t < TWO64 && 16 * cfg.interval < TWO32
    requires run.arrivals + (if op.Arrive? then 1 else 0) < TWO32
    ensures var o := Do(cfg, run, op);
      o.Some? && RfcDo(cfg, RfcRun(run.s, Discards(run.results)), op) == RfcRun(o.value.s, Discards(o.value.results))
  {
    hide Inv, History, Dequeue, RfcDequeue, Good;
    match op
    case Arrive(contents, t) =>
      InvGood(cfg, run.s, run.last, run.arrivals);
      DropTailExactly(cfg.limits, run.s.q, Packet(t, contents));
    case Take(t) =>
      if run.s.q != [] {
        DequeueKeeps(cfg, run.s, run.last, t, run.arrivals);
        CodeRefinesRfc(cfg, run.s, run.last, t, run.arrivals);
        var r := Dequeue(cfg, run.s, t).value;
        var all := run.results + [r];
        assert all[..|all| - 1] == run.results;
        var rfc := RfcDequeue(cfg, run.s, t);
        assert |[r.p] + r.discarded| == |rfc.dropped + [rfc.p.value]|;
      }
  }

  lemma InvGood(cfg: Config, s: CoDel, last: nat, arrivals: nat)
    requires Inv(cfg, s, last, arrivals)
    ensures Good(cfg.limits, s.q)
  {
  }

  lemma {:induction false} SameExec(cfg: Config, run: Run, ops: seq<Op>)
    requires RunInv(cfg, run) && Sane(ops, run.last, run.arrivals) && 16 * cfg.interval < TWO32
    ensures var o := Exec(cfg, run, ops);
      o.Some? && RfcExec(cfg, RfcRun(run.s, Discards(run.results)), ops)
                 == RfcRun(o.value.s, Discards(o.value.results))
    decreases |ops|
  {
    hide RunInv, Do, RfcDo;
    if ops != [] {
      SaneFirst(ops, run.last, run.arrivals);
      DoKeeps(cfg, run, ops[0]);
      SameDo(cfg, run, ops[0]);
      SameExec(cfg, Do(cfg, run, ops[0]).value, ops[1..]);
    }
  }

  /** The run of the code ends with the queue, the five state variables and the number of drops that
      the RFC's routine has on the same arrivals and dequeues. */
  ghost predicate RefinesRun(cfg: Config, ops: seq<Op>) {
    var o := Exec(cfg, Start(), ops);
    o.Some? && RfcExec(cfg, RfcRun(Empty(), 0), ops) == RfcRun(o.value.s, Discards(o.value.results))
  }

  lemma RunRefinesRfc(cfg: Config, ops: seq<Op>)
    requires cfg.interval > 0 && Sane(ops, 0, 0) && 16 * cfg.interval < TWO32
    ensures RefinesRun(cfg, ops)
  {
    hide Exec, RfcExec;
    StartInv(cfg);
    SameExec(cfg, Start(), ops);
  }
}
