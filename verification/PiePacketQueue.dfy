/** The PIE queue as the object that the link enqueues to and dequeues from. */
module PieQueues {
  import opened Machine
  import opened Text
  import opened Packets
  import opened PacketQueues
  import Spec = PieSpec
  import opened PieSpec

  class PiePacketQueue {
    const queue: DroppingPacketQueue
    const qdelayRef: nat
    const maxBurst: nat
    var dropProb: real
    var burstAllowance: nat
    var qdelayOld: nat
    var currentQdelay: nat
    var dqCount: nat
    var dqTstamp: nat
    var avgDqRate: nat
    var lastUpdate: nat

    function Cfg(): Config { Config(queue.Limit(), qdelayRef, maxBurst) }

    ghost predicate Valid()
      reads this, queue
    {
      queue.Valid()
    }

    function View(): Pie
      reads this, queue
    {
      Pie(queue.internalQueue, dropProb, burstAllowance, qdelayOld, currentQdelay, dqCount, dqTstamp,
          avgDqRate, lastUpdate)
    }

    constructor (limits: Limits, qdelayRef: nat, maxBurst: nat, now: nat)
      ensures Valid() && View() == Start(now) && Cfg() == Config(limits, qdelayRef, maxBurst) && fresh(queue)
    {
      queue := new DroppingPacketQueue(limits);
      this.qdelayRef, this.maxBurst := qdelayRef, maxBurst;
      dropProb, burstAllowance, qdelayOld, currentQdelay := 0.0, 0, 0, 0;
      dqCount, dqTstamp, avgDqRate, lastUpdate := DQ_COUNT_INVALID, 0, 0, now;
    }

    /** The loop that makes up for the timer the process does not have. */
    method CalculateDropProb(now: nat)
      requires Valid()
      modifies this
      ensures Valid()
      ensures View() == CatchUp(Cfg(), old(View()), Bytes(queue.internalQueue), now)
    {
      ghost var s0 := View();
      var size := queue.queueSizeInBytes;
      while Sub64(now, lastUpdate) > T_UPDATE
        invariant Valid() && size == Bytes(queue.internalQueue)
        invariant CatchUp(Cfg(), View(), size, now) == CatchUp(Cfg(), s0, size, now)
        decreases Sub64(now, lastUpdate)
      {
        UpdateClock(Cfg(), View(), size, now);
        UpdateOnce(size);
      }
    }

    method UpdateOnce(size: nat)
      modifies this
      ensures View() == Update(Cfg(), old(View()), size)
    {
      hide NextProb, QueueDelay, Signed32;
      UpdateProbability(size);
      var left := Signed32(burstAllowance) - T_UPDATE;
      burstAllowance := if left > 0 then left else 0;
      lastUpdate := (lastUpdate + T_UPDATE) % TWO64;
      if dropProb == 0.0 && currentQdelay < qdelayRef / 2 && qdelayOld < qdelayRef / 2 && avgDqRate > 0 {
        dqCount, avgDqRate, burstAllowance := DQ_COUNT_INVALID, 0, maxBurst;
      }
    }

    method UpdateProbability(size: nat)
      modifies this`qdelayOld, this`currentQdelay, this`dropProb
      ensures qdelayOld == old(currentQdelay) && currentQdelay == QueueDelay(old(View()), size)
      ensures dropProb == NextProb(Cfg(), old(View()), size)
    {
      hide Correction, Scale;
      var updateProb := true;
      qdelayOld := currentQdelay;
      currentQdelay := if avgDqRate > 0 then size / avgDqRate else 0;
      if currentQdelay == 0 && size != 0 { updateProb := false; }

      dropProb := dropProb + Correction(Cfg(), currentQdelay, qdelayOld) / Scale(dropProb);
      if dropProb < 0.0 {
        dropProb := 0.0;
      } else if dropProb > 1.0 {
        dropProb := 1.0;
        updateProb := false;
      }
      if currentQdelay == 0 && qdelayOld == 0 && updateProb {
        dropProb := dropProb * 0.98;
      }
    }

    /** False where the assertion fails. */
    method Enqueue(p: Packet, now: nat, draw: real) returns (ok: bool)
      requires Valid()
      modifies this, queue
      ensures Valid()
      ensures match Spec.Enqueue(Cfg(), old(View()), p, now, draw)
        case Some(s) => ok && View() == s
        case None => !ok
    {
      hide CatchUp;
      CatchUpKeepsQueue(Cfg(), View(), Bytes(queue.internalQueue), now);
      CalculateDropProb(now);
      if !GoodWith(queue.Limit(), queue.queueSizeInBytes + p.Size(), queue.queueSizeInPackets + 1) {
        return true;
      }
      if !DropEarly(Cfg(), View(), draw) { queue.Accept(p); }
      ok := queue.IsGood();
    }

    /** The two clock readings are those of `dequeue` itself and of the catch-up at its end. */
    method Dequeue(now: nat, later: nat) returns (r: Option<Packet>)
      requires Valid()
      modifies this, queue
      ensures Valid()
      ensures match Spec.Dequeue(Cfg(), old(View()), now, later)
        case Some(t) => r == Some(t.p) && View() == t.s
        case None => r == None
    {
      hide CatchUp;
      var front := queue.Dequeue();
      if front.None? { return None; }
      EstimateRate(front.value.Size(), now % TWO32);
      CalculateDropProb(later);
      r := front;
    }

    method EstimateRate(departed: nat, now: nat)
      requires Valid()
      modifies this
      ensures View() == Estimate(old(View()), departed, Bytes(queue.internalQueue), now)
    {
      hide Average, Sub32;
      var size := queue.queueSizeInBytes;
      if size >= DQ_THRESHOLD && dqCount == DQ_COUNT_INVALID {
        dqTstamp, dqCount := now, 0;
      }
      if dqCount != DQ_COUNT_INVALID {
        dqCount := (dqCount + departed) % TWO32;
        if dqCount > DQ_THRESHOLD {
          var dtime := Sub32(now, dqTstamp);
          if dtime > 0 {
            avgDqRate := Average(avgDqRate, dqCount, dtime);
            if size < DQ_THRESHOLD {
              dqCount := DQ_COUNT_INVALID;
            } else {
              dqCount, dqTstamp := 0, now;
            }
            if burstAllowance > 0 {
              burstAllowance := if burstAllowance > dtime then burstAllowance - dtime else 0;
            }
          }
        }
      }
    }
  }
}
