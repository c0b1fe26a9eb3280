/** The CoDel queue as the object whose control state changes as packets are dequeued. */
module CoDelQueues {
  import opened Machine
  import opened Text
  import opened Packets
  import opened PacketQueues
  import Spec = CoDelSpec
  import opened CoDelSpec

  datatype InnerAnswer = InnerAnswer(p: Packet, okToDrop: bool)

  class CoDelPacketQueue {
    const queue: DroppingPacketQueue
    const target: nat
    const interval: nat
    var firstAboveTime: nat
    var dropNext: nat
    var count: nat
    var lastCount: nat
    var dropping: bool

    function Cfg(): Config { Config(queue.Limit(), target, interval) }

    ghost predicate Valid()
      reads this, queue
    {
      queue.Valid()
    }

    function View(): CoDel
      reads this, queue
    {
      CoDel(queue.internalQueue, firstAboveTime, dropNext, count, lastCount, dropping)
    }

    constructor (limits: Limits, target: nat, interval: nat)
      ensures Valid() && View() == Empty() && Cfg() == Config(limits, target, interval) && fresh(queue)
    {
      queue := new DroppingPacketQueue(limits);
      this.target, this.interval := target, interval;
      firstAboveTime, dropNext, count, lastCount, dropping := 0, 0, 0, 0, false;
    }

    /** False where an assertion fails. */
    method Enqueue(p: Packet) returns (ok: bool)
      requires Valid()
      modifies queue
      ensures Valid()
      ensures match Spec.Enqueue(Cfg(), old(View()), p)
        case Some(s) => ok && View() == s
        case None => !ok
    {
      ok := queue.EnqueueDropTail(p);
    }

    method DoDequeue(now: nat) returns (r: Option<InnerAnswer>)
      requires Valid()
      modifies this`firstAboveTime, queue
      ensures Valid()
      ensures match Spec.DoDequeue(Cfg(), old(View()), now)
        case Some(i) => r == Some(InnerAnswer(i.p, i.look.ok)) && View() == i.s
        case None => r == None
    {
      var front := queue.Dequeue();
      if front.None? { return None; }
      var p := front.value;
      if queue.internalQueue == [] {
        firstAboveTime := 0;
        return Some(InnerAnswer(p, false));
      }
      var okToDrop := false;
      var sojournTime := Sub64(now, p.arrival);
      if sojournTime < target || queue.queueSizeInBytes <= PACKET_SIZE {
        firstAboveTime := 0;
      } else if firstAboveTime == 0 {
        firstAboveTime := now + interval;
      } else if now >= firstAboveTime {
        okToDrop := true;
      }
      r := Some(InnerAnswer(p, okToDrop));
    }

    /** The packet for the link; `None` where an assertion fails or the control law divides by 0. */
    method Dequeue(now: nat) returns (p: Option<Packet>)
      requires Valid()
      modifies this, queue
      ensures Valid()
      ensures match Spec.Dequeue(Cfg(), old(View()), now)
        case Some(r) => p == Some(r.p) && View() == r.s
        case None => p == None
    {
      hide Spec.DoDequeue, Gap;
      var r := DoDequeue(now);
      if r.None? { return None; }
      if dropping {
        if !r.value.okToDrop { dropping := false; }
        var ok := DropWhileDue(now);
        if !ok { return None; }
      } else if r.value.okToDrop {
        var r2 := DoDequeue(now);
        if r2.None? { return None; }
        dropping := true;
        EntryCountPositive(Cfg(), View(), now);
        var delta := Sub32(count, lastCount);
        count := if delta > 1 && Sub64(now, dropNext) < 16 * interval % TWO32 then delta else 1;
        dropNext := ControlLaw(interval, now, count);
        lastCount := count;
      }
      p := Some(r.value.p);
    }

    /** The loop of the dropping state: the packets it dequeues are discarded. */
    method DropWhileDue(now: nat) returns (ok: bool)
      requires Valid()
      modifies this, queue
      ensures Valid()
      ensures match DropLoop(Cfg(), old(View()), now)
        case Some(d) => ok && View() == d.s
        case None => !ok
    {
      hide Spec.DoDequeue, Gap;
      ghost var s0 := View();
      while now >= dropNext && dropping
        invariant Valid()
        invariant DropLoop(Cfg(), View(), now).None? <==> DropLoop(Cfg(), s0, now).None?
        invariant DropLoop(Cfg(), s0, now).Some? ==>
          DropLoop(Cfg(), View(), now).value.s == DropLoop(Cfg(), s0, now).value.s
        decreases |queue.internalQueue|
      {
        ghost var s := View();
        var r := DoDequeue(now);
        if r.None? { return false; }
        ghost var inner := Spec.DoDequeue(Cfg(), s, now).value;
        DoDequeueTakes(Cfg(), s, now);
        count := (count + 1) % TWO32;
        if !r.value.okToDrop {
          dropping := false;
        } else {
          if count == 0 { return false; }
          dropNext := ControlLaw(interval, dropNext, count);
        }
        assert AfterDrop(Cfg(), inner) == Some(View());
      }
      ok := true;
    }
  }
}
