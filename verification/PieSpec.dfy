/** The PIE queue: the drop probability that is brought up to date one 30 ms period at a time, the
    departure-rate estimator, and the early drop. Probabilities are reals. */
module PieSpec {
  import opened Machine
  import opened Text
  import opened Packets

  datatype Config = Config(limits: Limits, qdelayRef: nat, maxBurst: nat)

  datatype Pie = Pie(
    q: seq<Packet>, dropProb: real, burst: nat, qdelayOld: nat, qdelay: nat,
    dqCount: nat, dqTstamp: nat, avgRate: nat, lastUpdate: nat)

  const T_UPDATE := 30
  const DQ_THRESHOLD := 16384
  const DQ_COUNT_INVALID := TWO32 - 1

  function Start(now: nat): Pie {
    Pie([], 0.0, 0, 0, 0, DQ_COUNT_INVALID, 0, 0, now)
  }

  /** A 32-bit unsigned value read as signed. */
  function Signed32(x: nat): int {
    if x % TWO32 < 0x8000_0000 then x % TWO32 else x % TWO32 - TWO32
  }

  // ---------------------------------------------------------------- one period

  function QueueDelay(s: Pie, size: nat): nat {
    if s.avgRate > 0 then size / s.avgRate else 0
  }

  /** How much the probability changes, before scaling. */
  function Correction(cfg: Config, delay: nat, previous: nat): real {
    0.125 * (Signed32(Sub32(delay, cfg.qdelayRef)) as real) + 1.25 * (Signed32(Sub32(delay, previous)) as real)
  }

  function Scale(dropProb: real): (r: real)
    ensures r >= 16.0
  {
    if dropProb < 0.01 then 128.0 else if dropProb < 0.1 then 32.0 else 16.0
  }

  function Clamp(d: real): real {
    if d < 0.0 then 0.0 else if d > 1.0 then 1.0 else d
  }

  function NextProb(cfg: Config, s: Pie, size: nat): real {
    var delay := QueueDelay(s, size);
    var d := s.dropProb + Correction(cfg, delay, s.qdelay) / Scale(s.dropProb);
    var decay := delay == 0 && s.qdelay == 0 && size == 0 && d <= 1.0;
    if decay then Clamp(d) * 0.98 else Clamp(d)
  }

  /** One update of the drop probability with `size` bytes queued. */
  function Update(cfg: Config, s: Pie, size: nat): Pie {
    var delay := QueueDelay(s, size);
    var d := NextProb(cfg, s, size);
    var left := Signed32(s.burst) - T_UPDATE;
    var t := s.(qdelayOld := s.qdelay, qdelay := delay, dropProb := d,
                burst := if left > 0 then left else 0, lastUpdate := (s.lastUpdate + T_UPDATE) % TWO64);
    if d == 0.0 && delay < cfg.qdelayRef / 2 && s.qdelay < cfg.qdelayRef / 2 && s.avgRate > 0 then
      t.(dqCount := DQ_COUNT_INVALID, avgRate := 0, burst := cfg.maxBurst)
    else t
  }

  lemma UpdateClock(cfg: Config, s: Pie, size: nat, now: nat)
    requires Sub64(now, s.lastUpdate) > T_UPDATE
    ensures Sub64(now, Update(cfg, s, size).lastUpdate) == Sub64(now, s.lastUpdate) - T_UPDATE
    ensures Update(cfg, s, size).q == s.q
  {
    hide NextProb, QueueDelay;
    WrapStep(now, s.lastUpdate);
  }

  lemma WrapStep(now: int, last: int)
    requires (now - last) % TWO64 > T_UPDATE
    ensures (now - (last + T_UPDATE) % TWO64) % TWO64 == (now - last) % TWO64 - T_UPDATE
  {
    var d, e := (now - last) % TWO64, (last + T_UPDATE) % TWO64;
    var i, j := (now - last) / TWO64, (last + T_UPDATE) / TWO64;
    assert now - e == (i + j) * TWO64 + (d - T_UPDATE);
    RemainderIs(now - e, i + j, d - T_UPDATE);
  }

  lemma RemainderIs(n: int, k: int, r: int)
    requires n == k * TWO64 + r && 0 <= r < TWO64
    ensures n % TWO64 == r
  {
  }

  // ---------------------------------------------------------------- catching up

  /** `calculate_drop_prob`: the updates of all the periods missed before `now`. */
  function CatchUp(cfg: Config, s: Pie, size: nat, now: nat): Pie
    decreases Sub64(now, s.lastUpdate)
  {
    if Sub64(now, s.lastUpdate) > T_UPDATE then
      UpdateClock(cfg, s, size, now);
      CatchUp(cfg, Update(cfg, s, size), size, now)
    else s
  }

  function Updates(cfg: Config, s: Pie, size: nat, k: nat): Pie
    decreases k
  {
    if k == 0 then s else Updates(cfg, Update(cfg, s, size), size, k - 1)
  }

  /** How many periods a call at `now` has to catch up with: one for each full period before now. */
  function Missed(s: Pie, now: nat): nat {
    var gap := Sub64(now, s.lastUpdate);
    if gap == 0 then 0 else (gap - 1) / T_UPDATE
  }

  lemma {:induction false} CatchUpIsUpdates(cfg: Config, s: Pie, size: nat, now: nat)
    ensures CatchUp(cfg, s, size, now) == Updates(cfg, s, size, Missed(s, now))
    decreases Sub64(now, s.lastUpdate)
  {
    hide Update;
    if Sub64(now, s.lastUpdate) > T_UPDATE {
      UpdateClock(cfg, s, size, now);
      CatchUpIsUpdates(cfg, Update(cfg, s, size), size, now);
    }
  }

  /** With the occupancy unchanged, catching up at an earlier instant first makes no difference. */
  lemma {:induction false} CatchUpTwice(cfg: Config, s: Pie, size: nat, a: nat, b: nat)
    requires Sub64(a, s.lastUpdate) <= Sub64(b, s.lastUpdate)
    ensures CatchUp(cfg, CatchUp(cfg, s, size, a), size, b) == CatchUp(cfg, s, size, b)
    decreases Sub64(a, s.lastUpdate)
  {
    hide Update;
    if Sub64(a, s.lastUpdate) > T_UPDATE {
      UpdateClock(cfg, s, size, a);
      UpdateClock(cfg, s, size, b);
      CatchUpTwice(cfg, Update(cfg, s, size), size, a, b);
    }
  }

  function CatchUpAll(cfg: Config, s: Pie, size: nat, instants: seq<nat>): Pie
    decreases |instants|
  {
    if instants == [] then s else CatchUpAll(cfg, CatchUp(cfg, s, size, instants[0]), size, instants[1..])
  }

  predicate Nondecreasing(instants: seq<nat>, from: nat) {
    (forall i :: 0 <= i < |instants| ==> from <= instants[i] < TWO64)
    && forall i, j :: 0 <= i < j < |instants| ==> instants[i] <= instants[j]
  }

  lemma {:induction false} CaughtUp(cfg: Config, s: Pie, size: nat, now: nat)
    requires s.lastUpdate <= now < TWO64
    ensures s.lastUpdate <= CatchUp(cfg, s, size, now).lastUpdate <= now
    decreases now - s.lastUpdate
  {
    hide NextProb, QueueDelay;
    if Sub64(now, s.lastUpdate) > T_UPDATE {
      UpdateClock(cfg, s, size, now);
      CaughtUp(cfg, Update(cfg, s, size), size, now);
    }
  }

  /** Calls at any nondecreasing instants leave the same state as one call at the last of them. */
  lemma {:induction false} OnlyTheLastInstantMatters(cfg: Config, s: Pie, size: nat, instants: seq<nat>)
    requires instants != [] && Nondecreasing(instants, s.lastUpdate)
    ensures CatchUpAll(cfg, s, size, instants) == CatchUp(cfg, s, size, instants[|instants| - 1])
    decreases |instants|
  {
    hide CatchUp;
    var a, last := instants[0], instants[|instants| - 1];
    if |instants| == 1 {
      assert instants[1..] == [];
    } else {
      CaughtUp(cfg, s, size, a);
      OnlyTheLastInstantMatters(cfg, CatchUp(cfg, s, size, a), size, instants[1..]);
      CatchUpTwice(cfg, s, size, a, last);
    }
  }

  // ---------------------------------------------------------------- bounds

  predicate InBounds(cfg: Config, s: Pie) {
    0.0 <= s.dropProb <= 1.0 && s.burst <= cfg.maxBurst < 0x8000_0000
  }

  lemma UpdateInBounds(cfg: Config, s: Pie, size: nat)
    requires InBounds(cfg, s)
    ensures InBounds(cfg, Update(cfg, s, size))
  {
    hide QueueDelay, Correction, Scale;
  }

  lemma {:induction false} CatchUpInBounds(cfg: Config, s: Pie, size: nat, now: nat)
    requires InBounds(cfg, s)
    ensures InBounds(cfg, CatchUp(cfg, s, size, now))
    decreases Sub64(now, s.lastUpdate)
  {
    hide Update;
    if Sub64(now, s.lastUpdate) > T_UPDATE {
      UpdateClock(cfg, s, size, now);
      UpdateInBounds(cfg, s, size);
      CatchUpInBounds(cfg, Update(cfg, s, size), size, now);
    }
  }

  predicate SmallParameters(cfg: Config, s: Pie) {
    cfg.qdelayRef < 0x8000_0000 && s.qdelay < 0x8000_0000
  }

  /** With nothing queued each period takes at least qdelay_ref / 1024 off the drop probability. */
  lemma EmptyUpdate(cfg: Config, s: Pie)
    requires InBounds(cfg, s) && SmallParameters(cfg, s)
    ensures var step := cfg.qdelayRef as real / 1024.0;
      Update(cfg, s, 0).dropProb <= if s.dropProb > step then s.dropProb - step else 0.0
    ensures SmallParameters(cfg, Update(cfg, s, 0))
  {
    var delay := QueueDelay(s, 0);
    assert delay == 0;
    SignedNegative(cfg.qdelayRef);
    SignedNegative(s.qdelay);
    var c := Correction(cfg, 0, s.qdelay);
    assert c <= -0.125 * (cfg.qdelayRef as real);
    ScaledDown(c, cfg.qdelayRef, Scale(s.dropProb));
  }

  lemma SignedNegative(x: nat)
    requires x < 0x8000_0000
    ensures Signed32(Sub32(0, x)) == -(x as int)
  {
  }

  lemma ScaledDown(c: real, ref: nat, scale: real)
    requires c <= -0.125 * (ref as real) && (scale == 128.0 || scale == 32.0 || scale == 16.0)
    ensures c / scale <= -(ref as real / 1024.0)
  {
  }

  /** The drop probability of an empty queue is 0 after 1024 / qdelay_ref periods, rounded up. */
  lemma {:induction false} EmptyQueueForgets(cfg: Config, s: Pie, k: nat)
    requires InBounds(cfg, s) && SmallParameters(cfg, s)
    requires s.dropProb * 1024.0 <= (k * cfg.qdelayRef) as real
    ensures Updates(cfg, s, 0, k).dropProb == 0.0
    decreases k
  {
    hide Update;
    if k > 0 {
      EmptyUpdate(cfg, s);
      UpdateInBounds(cfg, s, 0);
      var next := Update(cfg, s, 0);
      assert (k - 1) * cfg.qdelayRef == k * cfg.qdelayRef - cfg.qdelayRef;
      EmptyQueueForgets(cfg, next, k - 1);
    }
  }

  /** So a call at `now`, at least that many periods after the last update, finds it at 0. */
  lemma EmptyQueueForgetsBy(cfg: Config, s: Pie, now: nat)
    requires InBounds(cfg, s) && SmallParameters(cfg, s) && 1024 <= Missed(s, now) * cfg.qdelayRef
    ensures CatchUp(cfg, s, 0, now).dropProb == 0.0
  {
    hide Updates, CatchUp;
    CatchUpIsUpdates(cfg, s, 0, now);
    EmptyQueueForgets(cfg, s, Missed(s, now));
  }

  // ---------------------------------------------------------------- the controller

  /** The correction pushes the right way: a delay at or above the reference that has not fallen never
      lowers the drop probability, one at or below it that has not risen never raises it. */
  lemma ControllerDirection(cfg: Config, s: Pie, size: nat)
    requires InBounds(cfg, s) && SmallParameters(cfg, s) && cfg.qdelayRef > 0 && size < 0x8000_0000
    ensures var delay := QueueDelay(s, size);
      (delay >= cfg.qdelayRef && delay >= s.qdelay ==> Update(cfg, s, size).dropProb >= s.dropProb)
      && (delay <= cfg.qdelayRef && delay <= s.qdelay ==> Update(cfg, s, size).dropProb <= s.dropProb)
  {
    hide Scale, QueueDelay;
    var delay := QueueDelay(s, size);
    DelayBound(s, size);
    SignedDifference(delay, cfg.qdelayRef);
    SignedDifference(delay, s.qdelay);
    var c := Correction(cfg, delay, s.qdelay);
    ScaleKeepsSign(c, Scale(s.dropProb));
  }

  lemma DelayBound(s: Pie, size: nat)
    ensures QueueDelay(s, size) <= size
  {
    if s.avgRate > 0 { QuotientBound(size, s.avgRate); }
  }

  lemma QuotientBound(n: nat, d: nat)
    requires d > 0
    ensures n / d <= n
  {
    var q := n / d;
    assert n == q * d + n % d;
    MultipleAtLeast(q, d);
  }

  lemma MultipleAtLeast(q: nat, d: nat)
    requires d > 0
    ensures q * d >= q
  {
  }

  lemma SignedDifference(x: nat, y: nat)
    requires x < 0x8000_0000 && y < 0x8000_0000
    ensures Signed32(Sub32(x, y)) == x - y
  {
  }

  lemma ScaleKeepsSign(c: real, scale: real)
    requires scale >= 16.0
    ensures c >= 0.0 ==> c / scale >= 0.0
    ensures c <= 0.0 ==> c / scale <= 0.0
  {
  }

  // ---------------------------------------------------------------- enqueue and dequeue

  /** `drop_early`, for a random draw in [0, 1). */
  predicate DropEarly(cfg: Config, s: Pie, draw: real) {
    s.burst == 0
    && !(s.qdelayOld < cfg.qdelayRef / 2 && s.dropProb < 0.2)
    && Bytes(s.q) >= 2 * PACKET_SIZE
    && draw < s.dropProb
  }

  /** `None` where the assertion fails. */
  function Enqueue(cfg: Config, s: Pie, p: Packet, now: nat, draw: real): Option<Pie> {
    var t := CatchUp(cfg, s, Bytes(s.q), now);
    if !GoodWith(cfg.limits, Bytes(t.q) + p.Size(), |t.q| + 1) then Some(t)
    else
      var u := if DropEarly(cfg, t, draw) then t else t.(q := t.q + [p]);
      if Good(cfg.limits, u.q) then Some(u) else None
  }

  /** The moving average of the departure rate after a sample of `bytes` in `time` milliseconds,
      which has weight one eighth. */
  function Average(rate: nat, bytes: nat, time: nat): nat
    requires time > 0
  {
    var sample := bytes / time;
    if rate == 0 then sample else rate - rate / 8 + sample / 8
  }

  /** The new average lies between the old one and the sample, in spite of the truncating divisions. */
  lemma AverageBetween(rate: nat, bytes: nat, time: nat)
    requires time > 0 && rate > 0
    ensures var sample := bytes / time; var a := Average(rate, bytes, time);
      if sample <= rate then sample <= a <= rate else rate <= a <= sample
  {
  }

  /** The rate estimator, for a departing packet of `departed` bytes with `size` bytes left. */
  function Estimate(s: Pie, departed: nat, size: nat, now: nat): Pie {
    var s1 := if size >= DQ_THRESHOLD && s.dqCount == DQ_COUNT_INVALID then s.(dqTstamp := now, dqCount := 0) else s;
    if s1.dqCount == DQ_COUNT_INVALID then s1
    else
      var s2 := s1.(dqCount := (s1.dqCount + departed) % TWO32);
      var dtime := Sub32(now, s2.dqTstamp);
      if s2.dqCount <= DQ_THRESHOLD || dtime == 0 then s2
      else
        var rate := Average(s2.avgRate, s2.dqCount, dtime);
        var s3 := if size < DQ_THRESHOLD then s2.(avgRate := rate, dqCount := DQ_COUNT_INVALID)
                  else s2.(avgRate := rate, dqCount := 0, dqTstamp := now);
        s3.(burst := if s3.burst > dtime then s3.burst - dtime else 0)
  }

  datatype Taken = Taken(p: Packet, s: Pie)

  /** `dequeue`, which reads the clock twice; `None` where an assertion fails. */
  function Dequeue(cfg: Config, s: Pie, now: nat, later: nat): Option<Taken> {
    match TakeFront(cfg.limits, s.q)
    case None => None
    case Some(p) =>
      var rest := s.q[1..];
      var t := Estimate(s.(q := rest), p.Size(), Bytes(rest), now % TWO32);
      Some(Taken(p, CatchUp(cfg, t, Bytes(rest), later)))
  }

  lemma {:induction false} CatchUpKeepsQueue(cfg: Config, s: Pie, size: nat, now: nat)
    ensures CatchUp(cfg, s, size, now).q == s.q
    decreases Sub64(now, s.lastUpdate)
  {
    hide Update;
    if Sub64(now, s.lastUpdate) > T_UPDATE {
      UpdateClock(cfg, s, size, now);
      CatchUpKeepsQueue(cfg, Update(cfg, s, size), size, now);
    }
  }

  lemma EstimateKeeps(cfg: Config, s: Pie, departed: nat, size: nat, now: nat)
    ensures Estimate(s, departed, size, now).q == s.q
    ensures InBounds(cfg, s) ==> InBounds(cfg, Estimate(s, departed, size, now))
    ensures Estimate(s, departed, size, now).lastUpdate == s.lastUpdate
  {
  }

  /** The queue itself is first in, first out, within its limits, and the control state stays in
      bounds. */
  lemma DequeueKeeps(cfg: Config, s: Pie, now: nat, later: nat)
    requires Good(cfg.limits, s.q) && InBounds(cfg, s) && s.q != []
    ensures var r := Dequeue(cfg, s, now, later);
      r.Some? && r.value.p == s.q[0] && r.value.s.q == s.q[1..]
      && Good(cfg.limits, r.value.s.q) && InBounds(cfg, r.value.s)
  {
    hide CatchUp, Estimate;
    GoodTail(cfg.limits, s.q);
    var rest := s.q[1..];
    EstimateKeeps(cfg, s.(q := rest), s.q[0].Size(), Bytes(rest), now % TWO32);
    var t := Estimate(s.(q := rest), s.q[0].Size(), Bytes(rest), now % TWO32);
    CatchUpKeepsQueue(cfg, t, Bytes(rest), later);
    CatchUpInBounds(cfg, t, Bytes(rest), later);
  }

  lemma EnqueueKeeps(cfg: Config, s: Pie, p: Packet, now: nat, draw: real)
    requires Good(cfg.limits, s.q) && InBounds(cfg, s)
    ensures var r := Enqueue(cfg, s, p, now, draw);
      r.Some? && (r.value.q == s.q || r.value.q == s.q + [p])
      && Good(cfg.limits, r.value.q) && InBounds(cfg, r.value)
  {
    hide CatchUp, DropEarly;
    CatchUpKeepsQueue(cfg, s, Bytes(s.q), now);
    CatchUpInBounds(cfg, s, Bytes(s.q), now);
    BytesConcat(s.q, [p]);
  }

  /** A packet for which there is room is turned away only after the burst allowance is used up, with
      at least two maximal packets queued, and with a draw below the current drop probability. */
  lemma TurnedAwayOnlyUnderPressure(cfg: Config, s: Pie, p: Packet, now: nat, draw: real)
    requires Good(cfg.limits, s.q) && InBounds(cfg, s) && Good(cfg.limits, s.q + [p])
    ensures var r := Enqueue(cfg, s, p, now, draw);
      r.Some? && (r.value.q != s.q + [p] ==>
        Bytes(s.q) >= 2 * PACKET_SIZE && r.value.burst == 0 && draw < r.value.dropProb
        && (r.value.qdelayOld >= cfg.qdelayRef / 2 || r.value.dropProb >= 0.2))
  {
    hide CatchUp;
    EnqueueKeeps(cfg, s, p, now, draw);
    CatchUpKeepsQueue(cfg, s, Bytes(s.q), now);
    BytesConcat(s.q, [p]);
  }
}
