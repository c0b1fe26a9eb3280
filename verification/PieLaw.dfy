/** The PIE controller in numbers: how far an update moves the drop probability, what a measurement does to
    the departure rate, and when an arriving packet is turned away. */
module PieLaw {
  import opened Machine
  import opened Text
  import opened Packets
  import opened PieSpec
  import opened PieRuns

  // ---------------------------------------------------------------- one update

  /** `a` is the difference d as a signed 32-bit number. */
  predicate Signed(a: int, d: int) {
    -0x8000_0000 <= a < 0x8000_0000 && (a - d) % 0x1_0000_0000 == 0
  }

  lemma SignedIs(x: int, y: int, a: int)
    ensures Signed(a, x - y) <==> a == Signed32(Sub32(x, y))
  {
    var n, d := Sub32(x, y), x - y;
    assert Signed32(n) == n || Signed32(n) == n - TWO32;
    Congruent(n, d);
    if Signed(a, d) {
      var b := Signed32(n);
      Apart(a, b, d);
    }
  }

  lemma Congruent(n: int, d: int)
    requires n == d % TWO32
    ensures (n - d) % TWO32 == 0 && (n - TWO32 - d) % TWO32 == 0
  {
    var q := d / TWO32;
    assert n - d == -q * TWO32 && n - TWO32 - d == (-q - 1) * TWO32;
    Multiple(-q);
    Multiple(-q - 1);
  }

  lemma Multiple(q: int)
    ensures q * TWO32 % TWO32 == 0
  {
  }

  /** Two such numbers are the same. */
  lemma Apart(a: int, b: int, d: int)
    requires Signed(a, d) && Signed(b, d)
    ensures a == b
  {
    var p, q := (a - d) / TWO32, (b - d) / TWO32;
    assert a - b == (p - q) * TWO32;
  }

  /** `delay` is the time that `size` bytes take at the departure rate, in whole milliseconds, or 0. */
  predicate DelayIs(rate: nat, size: nat, delay: nat) {
    if rate == 0 then delay == 0 else rate * delay <= size < rate * (delay + 1)
  }

  lemma DelayExactly(s: Pie, size: nat, delay: nat)
    ensures DelayIs(s.avgRate, size, delay) <==> delay == QueueDelay(s, size)
  {
    if s.avgRate > 0 {
      var q, r := size / s.avgRate, size % s.avgRate;
      assert size == s.avgRate * q + r && 0 <= r < s.avgRate;
      assert s.avgRate * (q + 1) == s.avgRate * q + s.avgRate;
      if delay < q { Rows(s.avgRate, delay + 1, q); }
      if q < delay { Rows(s.avgRate, q + 1, delay); }
    }
  }

  lemma Rows(rate: nat, x: nat, y: nat)
    requires x <= y
    ensures rate * x <= rate * y
  {
    assert rate * y == rate * x + rate * (y - x);
  }

  /** The divisor of the correction: smaller steps while the probability is small. */
  function Divisor(prob: real): int {
    if prob < 0.01 then 128 else if prob < 0.1 then 32 else 16
  }

  /** The probability before it is kept within [0, 1]: an eighth of the distance to the reference and ten
      eighths of the change of the delay, divided. */
  function Raw(prob: real, distance: int, change: int): real {
    prob + (distance + 10 * change) as real / (8 * Divisor(prob)) as real
  }

  /** The probability after an update. */
  predicate NextIs(raw: real, decays: bool, next: real) {
    if raw <= 0.0 then next == 0.0
    else if raw > 1.0 then next == 1.0
    else next == if decays then raw * 98.0 / 100.0 else raw
  }

  lemma ProbExactly(cfg: Config, s: Pie, size: nat, delay: nat, distance: int, change: int)
    requires DelayIs(s.avgRate, size, delay)
    requires Signed(distance, delay - cfg.qdelayRef) && Signed(change, delay - s.qdelay)
    ensures NextIs(Raw(s.dropProb, distance, change), delay == 0 && s.qdelay == 0 && size == 0,
                   Update(cfg, s, size).dropProb)
  {
    DelayExactly(s, size, delay);
    SignedIs(delay, cfg.qdelayRef, distance);
    SignedIs(delay, s.qdelay, change);
    Divide(distance, change, Divisor(s.dropProb), Scale(s.dropProb));
  }

  lemma Divide(distance: int, change: int, k: int, scale: real)
    requires (k == 128 && scale == 128.0) || (k == 32 && scale == 32.0) || (k == 16 && scale == 16.0)
    ensures (0.125 * (distance as real) + 1.25 * (change as real)) / scale
            == (distance + 10 * change) as real / (8 * k) as real
  {
  }

  /** The burst allowance after `elapsed` milliseconds. */
  function Spent(burst: nat, elapsed: nat): nat {
    if burst > elapsed then burst - elapsed else 0
  }

  /** One update: the probability as above; 30 ms off the burst allowance and on the clock; and where the
      probability is 0 and both delays are below half the reference, a known rate is forgotten and the
      burst allowance granted anew. */
  lemma UpdateExactly(cfg: Config, s: Pie, size: nat, delay: nat)
    requires DelayIs(s.avgRate, size, delay) && s.burst < 0x8000_0000
    ensures var u := Update(cfg, s, size);
      var calm := u.dropProb == 0.0 && s.avgRate > 0
                  && 2 * delay + 1 < cfg.qdelayRef && 2 * s.qdelay + 1 < cfg.qdelayRef;
      u == Pie(s.q, u.dropProb, if calm then cfg.maxBurst else Spent(s.burst, 30), s.qdelay, delay,
               if calm then 0xFFFF_FFFF else s.dqCount, s.dqTstamp, if calm then 0 else s.avgRate,
               (s.lastUpdate + 30) % 0x1_0000_0000_0000_0000)
  {
    hide NextProb;
    DelayExactly(s, size, delay);
    Half(cfg.qdelayRef, delay);
    Half(cfg.qdelayRef, s.qdelay);
  }

  lemma Half(reference: nat, delay: nat)
    ensures delay < reference / 2 <==> 2 * delay + 1 < reference
  {
  }

  /** How the controller responds: of two updates from the same probability that are neither cut off nor
      decayed, one moves it further than the other by 11/8 for each millisecond of delay, -1/8 for each of
      the reference and -5/4 for each of the previous delay, all over the divisor. At the reference with
      an unchanged delay it does not move. */
  lemma Response(cfg: Config, s: Pie, size: nat, delay: nat, cfg2: Config, s2: Pie, size2: nat, delay2: nat)
    requires DelayIs(s.avgRate, size, delay) && DelayIs(s2.avgRate, size2, delay2) && s.dropProb == s2.dropProb
    requires delay < 0x8000_0000 && s.qdelay < 0x8000_0000 && cfg.qdelayRef < 0x8000_0000
    requires delay2 < 0x8000_0000 && s2.qdelay < 0x8000_0000 && cfg2.qdelayRef < 0x8000_0000
    requires 0.0 < Update(cfg, s, size).dropProb < 1.0 && 0.0 < Update(cfg2, s2, size2).dropProb < 1.0
    requires size > 0 && size2 > 0
    ensures var p, p2 := Update(cfg, s, size).dropProb, Update(cfg2, s2, size2).dropProb;
      8.0 * Divisor(s.dropProb) as real * (p2 - p)
      == (11 * (delay2 - delay) - (cfg2.qdelayRef - cfg.qdelayRef) - 10 * (s2.qdelay - s.qdelay)) as real
    ensures delay == s.qdelay == cfg.qdelayRef ==> Update(cfg, s, size).dropProb == s.dropProb
  {
    hide Update;
    var x, y := delay - cfg.qdelayRef, delay - s.qdelay;
    var x2, y2 := delay2 - cfg2.qdelayRef, delay2 - s2.qdelay;
    ProbExactly(cfg, s, size, delay, x, y);
    ProbExactly(cfg2, s2, size2, delay2, x2, y2);
    RawTimes(s.dropProb, x, y);
    RawTimes(s.dropProb, x2, y2);
  }

  lemma RawTimes(prob: real, distance: int, change: int)
    ensures 8.0 * Divisor(prob) as real * (Raw(prob, distance, change) - prob) == (distance + 10 * change) as real
  {
  }

  // ---------------------------------------------------------------- measuring the departure rate

  /** An eighth of the sample replaces an eighth of the rate, each rounded down; the first sample is taken
      as it is. */
  predicate RateIs(previous: nat, sample: nat, rate: nat) {
    if previous == 0 then rate == sample
    else 8 * rate == 7 * previous + previous % 8 + sample - sample % 8
  }

  /** The same, for the sample of `bytes` in `time` milliseconds, rounded down. */
  ghost predicate RateAfter(previous: nat, bytes: nat, time: nat, rate: nat) {
    exists sample: nat :: time * sample <= bytes < time * (sample + 1) && RateIs(previous, sample, rate)
  }

  /** Whether a departure that leaves `size` bytes is being counted. */
  predicate Counting(s: Pie, size: nat) {
    size >= 16384 || s.dqCount != 0xFFFF_FFFF
  }

  /** A departure is not counted until 16384 bytes are left behind one. */
  lemma NotCounted(s: Pie, departed: nat, size: nat, now: nat)
    requires !Counting(s, size)
    ensures Estimate(s, departed, size, now) == s
  {
  }

  /** A counted departure adds its bytes, to a new count from now if there was none. Once the count is above
      16384 and time has passed, the bytes per millisecond are a sample of the rate, the time is taken off
      the burst allowance, and a new count starts if there are 16384 bytes left. */
  lemma Counted(s: Pie, departed: nat, size: nat, now: nat, since: nat, count: nat, time: nat)
    requires Counting(s, size)
    requires since == if s.dqCount == 0xFFFF_FFFF then now else s.dqTstamp
    requires count == ((if s.dqCount == 0xFFFF_FFFF then 0 else s.dqCount) + departed) % 0x1_0000_0000
    requires time == (now - since) % 0x1_0000_0000
    ensures var e := Estimate(s, departed, size, now);
      if count <= 16384 || time == 0 then e == s.(dqCount := count, dqTstamp := since)
      else
        e == s.(dqCount := if size < 16384 then 0xFFFF_FFFF else 0, dqTstamp := if size < 16384 then since else now,
                avgRate := e.avgRate, burst := Spent(s.burst, time))
        && RateAfter(s.avgRate, count, time, e.avgRate)
  {
    hide Estimate, Average, RateAfter;
    if count <= 16384 || time == 0 {
      OnlyCounted(s, departed, size, now, since, count, time);
    } else {
      Sampled(s, departed, size, now, since, count, time);
      AverageIs(s.avgRate, count, time);
    }
  }

  lemma OnlyCounted(s: Pie, departed: nat, size: nat, now: nat, since: nat, count: nat, time: nat)
    requires Counting(s, size)
    requires since == if s.dqCount == 0xFFFF_FFFF then now else s.dqTstamp
    requires count == ((if s.dqCount == 0xFFFF_FFFF then 0 else s.dqCount) + departed) % 0x1_0000_0000
    requires time == (now - since) % 0x1_0000_0000 && (count <= 16384 || time == 0)
    ensures Estimate(s, departed, size, now) == s.(dqCount := count, dqTstamp := since)
  {
    hide Average;
  }

  lemma Sampled(s: Pie, departed: nat, size: nat, now: nat, since: nat, count: nat, time: nat)
    requires Counting(s, size)
    requires since == if s.dqCount == 0xFFFF_FFFF then now else s.dqTstamp
    requires count == ((if s.dqCount == 0xFFFF_FFFF then 0 else s.dqCount) + departed) % 0x1_0000_0000
    requires time == (now - since) % 0x1_0000_0000 && count > 16384 && time > 0
    ensures Estimate(s, departed, size, now)
            == s.(dqCount := if size < 16384 then 0xFFFF_FFFF else 0, dqTstamp := if size < 16384 then since else now,
                  avgRate := Average(s.avgRate, count, time), burst := Spent(s.burst, time))
  {
    hide Average;
  }

  lemma Quotient(n: nat, d: nat)
    requires d > 0
    ensures d * (n / d) <= n < d * (n / d + 1)
  {
    assert n == d * (n / d) + n % d;
    assert d * (n / d + 1) == d * (n / d) + d;
  }

  lemma AverageIs(rate: nat, bytes: nat, time: nat)
    requires time > 0
    ensures RateAfter(rate, bytes, time, Average(rate, bytes, time))
  {
    var sample := bytes / time;
    Quotient(bytes, time);
    assert rate == 8 * (rate / 8) + rate % 8 && sample == 8 * (sample / 8) + sample % 8;
    assert RateIs(rate, sample, Average(rate, bytes, time));
  }

  // ---------------------------------------------------------------- turning packets away

  /** Whether the packet fits the limits, of which 0 is none. */
  predicate HasRoom(l: Limits, q: seq<Packet>, p: Packet) {
    (l.packets == 0 || |q| + 1 <= l.packets) && (l.bytes == 0 || Bytes(q) + |p.contents| <= l.bytes)
  }

  /** An arriving packet is turned away exactly if it does not fit, or at least two packets of 1504 bytes
      are queued, no burst allowance is left, the draw is below the drop probability, and that is at least
      0.2 or the delay before the last one was at least half the reference. The queue is otherwise only
      appended to. */
  lemma EnqueueExactly(cfg: Config, s: Pie, p: Packet, now: nat, draw: real)
    requires Good(cfg.limits, s.q) && InBounds(cfg, s)
    ensures var r := Enqueue(cfg, s, p, now, draw);
      r.Some?
      && (var dropped := Bytes(s.q) >= 2 * 1504 && r.value.burst == 0 && draw < r.value.dropProb
                         && (r.value.dropProb >= 0.2 || r.value.qdelayOld >= cfg.qdelayRef / 2);
          r.value.q == if HasRoom(cfg.limits, s.q, p) && !dropped then s.q + [p] else s.q)
      && r.value == CatchUp(cfg, s, Bytes(s.q), now).(q := r.value.q)
  {
    hide CatchUp;
    CatchUpKeepsQueue(cfg, s, Bytes(s.q), now);
    EnqueueKeeps(cfg, s, p, now, draw);
    BytesConcat(s.q, [p]);
    BytesOfOne(p);
  }

  /** So it is for the next arrival of every run. */
  lemma NextArrival(cfg: Config, start: nat, ops: seq<Op>, contents: string, now: nat, draw: real)
    requires cfg.maxBurst < 0x8000_0000 && Sane(ops, start)
    ensures var o := Exec(cfg, Begin(start), ops);
      o.Some?
      && (var q, p := o.value.s.q, Packet(now, contents);
          var r := Do(cfg, o.value, Arrive(contents, now, draw));
          r.Some?
          && (var s := r.value.s;
              var dropped := Bytes(q) >= 2 * 1504 && s.burst == 0 && draw < s.dropProb
                             && (s.dropProb >= 0.2 || s.qdelayOld >= cfg.qdelayRef / 2);
              s.q == if HasRoom(cfg.limits, q, p) && !dropped then q + [p] else q))
  {
    hide Exec, Enqueue, InBounds, Good;
    EveryRun(cfg, start, ops);
    EnqueueExactly(cfg, Exec(cfg, Begin(start), ops).value.s, Packet(now, contents), now, draw);
  }
}
