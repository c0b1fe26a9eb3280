/** The interchangeable queue disciplines behind the link, as values with one enqueue and one
    dequeue. */
module Disciplines {
  import opened Machine
  import opened Text
  import opened Packets
  import C = CoDelSpec
  import P = PieSpec

  datatype Queue =
    | Infinite(q: seq<Packet>)
    | TailDrop(limits: Limits, q: seq<Packet>)
    | HeadDrop(limits: Limits, q: seq<Packet>)
    | CoDelQueue(codelCfg: C.Config, codel: C.CoDel)
    | PieQueue(pieCfg: P.Config, pie: P.Pie)

  /** What a discipline may read when it is called: the clock, twice, and a random number. Nothing
      relates these readings to the link's own. */
  datatype Reading = Reading(first: nat, second: nat, draw: real)

  function Contents(x: Queue): seq<Packet> {
    match x
    case Infinite(q) => q
    case TailDrop(_, q) => q
    case HeadDrop(_, q) => q
    case CoDelQueue(_, s) => s.q
    case PieQueue(_, s) => s.q
  }

  /** `enqueue`; `None` where an assertion fails. */
  function Put(x: Queue, p: Packet, r: Reading): Option<Queue> {
    match x
    case Infinite(q) => Some(Infinite(q + [p]))
    case TailDrop(l, q) => (match DropTail(l, q, p) case None => None case Some(q') => Some(TailDrop(l, q')))
    case HeadDrop(l, q) => (match DropHead(l, q, p) case None => None case Some(q') => Some(HeadDrop(l, q')))
    case CoDelQueue(cfg, s) => (match C.Enqueue(cfg, s, p) case None => None case Some(s') => Some(CoDelQueue(cfg, s')))
    case PieQueue(cfg, s) =>
      (match P.Enqueue(cfg, s, p, r.first, r.draw) case None => None case Some(s') => Some(PieQueue(cfg, s')))
  }

  /** The packet handed over, the queue left, and the packets that disappear on the way. */
  datatype Got = Got(p: Packet, x: Queue, discarded: seq<Packet>)

  /** `dequeue`; `None` where an assertion fails. */
  function Get(x: Queue, r: Reading): Option<Got> {
    match x
    case Infinite(q) => if q == [] then None else Some(Got(q[0], Infinite(q[1..]), []))
    case TailDrop(l, q) =>
      (match TakeFront(l, q) case None => None case Some(p) => Some(Got(p, TailDrop(l, q[1..]), [])))
    case HeadDrop(l, q) =>
      (match TakeFront(l, q) case None => None case Some(p) => Some(Got(p, HeadDrop(l, q[1..]), [])))
    case CoDelQueue(cfg, s) =>
      (match C.Dequeue(cfg, s, r.first)
       case None => None
       case Some(t) => Some(Got(t.p, CoDelQueue(cfg, t.s), t.discarded)))
    case PieQueue(cfg, s) =>
      (match P.Dequeue(cfg, s, r.first, r.second)
       case None => None
       case Some(t) => Some(Got(t.p, PieQueue(cfg, t.s), [])))
  }

  // ---------------------------------------------------------------- what every discipline keeps

  /** The part of CoDel's invariant that does not depend on the clock. */
  predicate CoDelSafe(cfg: C.Config, s: C.CoDel, arrivals: nat) {
    && Good(cfg.limits, s.q)
    && s.lastCount <= s.count && (s.dropping ==> s.count > 0)
    && s.count + |s.q| <= arrivals < TWO32
  }

  predicate LoopSafe(cfg: C.Config, s: C.CoDel, arrivals: nat) {
    CoDelSafe(cfg, s, arrivals) && (s.dropping ==> C.MayDrop(s))
  }

  lemma InnerSafe(cfg: C.Config, s: C.CoDel, now: nat)
    requires s.q != [] && Good(cfg.limits, s.q)
    ensures var r := C.DoDequeue(cfg, s, now);
      r.Some? && r.value.p == s.q[0] && r.value.s == s.(q := s.q[1..], firstAbove := r.value.s.firstAbove)
      && Good(cfg.limits, s.q[1..]) && (r.value.look.ok ==> C.MayDrop(r.value.s))
  {
    GoodTail(cfg.limits, s.q);
  }

  lemma {:induction false} DropLoopSafe(cfg: C.Config, s: C.CoDel, now: nat, arrivals: nat)
    requires LoopSafe(cfg, s, arrivals)
    ensures C.DropLoop(cfg, s, now).Some? && CoDelSafe(cfg, C.DropLoop(cfg, s, now).value.s, arrivals)
    decreases |s.q|
  {
    hide C.DoDequeue, C.Gap, Good;
    if now >= s.dropNext && s.dropping {
      C.MayDropNonempty(s);
      InnerSafe(cfg, s, now);
      assert (s.count + 1) % TWO32 == s.count + 1;
      DropLoopSafe(cfg, C.AfterDrop(cfg, C.DoDequeue(cfg, s, now).value).value, now, arrivals);
    }
  }

  /** CoDel's dequeue on a nonempty queue succeeds whatever the clock says, and takes packets off the
      front in order. */
  lemma CoDelTakes(cfg: C.Config, s: C.CoDel, now: nat, arrivals: nat)
    requires CoDelSafe(cfg, s, arrivals) && s.q != []
    ensures var r := C.Dequeue(cfg, s, now);
      r.Some? && CoDelSafe(cfg, r.value.s, arrivals) && s.q == [r.value.p] + r.value.discarded + r.value.s.q
  {
    hide C.DoDequeue, C.EntryCount, C.Gap, Good;
    InnerSafe(cfg, s, now);
    var r := C.DoDequeue(cfg, s, now).value;
    assert s.q == [s.q[0]] + s.q[1..];
    if s.dropping {
      var s1 := r.s.(dropping := r.look.ok);
      DropLoopSafe(cfg, s1, now, arrivals);
      C.DropLoopSplits(cfg, s1, now);
    } else if r.look.ok {
      C.MayDropNonempty(r.s);
      InnerSafe(cfg, r.s, now);
      assert r.s.q == [r.s.q[0]] + r.s.q[1..];
      EntryBound(cfg, s, now);
    }
  }

  lemma EntryBound(cfg: C.Config, s: C.CoDel, now: nat)
    requires s.lastCount <= s.count < TWO32
    ensures 1 <= C.EntryCount(cfg, s, now) <= if s.count > 1 then s.count else 1
  {
  }

  /** What a queue keeps over any run in which `arrivals` packets have arrived. */
  predicate Keeps(x: Queue, arrivals: nat) {
    match x
    case Infinite(_) => true
    case TailDrop(l, q) => Good(l, q)
    case HeadDrop(l, q) => Good(l, q)
    case CoDelQueue(cfg, s) => CoDelSafe(cfg, s, arrivals)
    case PieQueue(cfg, s) => Good(cfg.limits, s.q) && P.InBounds(cfg, s)
  }

  /** Every dequeue of a nonempty queue succeeds, and takes packets off the front in order; only CoDel
      takes more than the one it hands over. */
  lemma GetKeeps(x: Queue, r: Reading, arrivals: nat)
    requires Keeps(x, arrivals) && Contents(x) != []
    ensures var g := Get(x, r);
      g.Some? && Keeps(g.value.x, arrivals) && (g.value.discarded != [] ==> x.CoDelQueue?)
      && Contents(x) == [g.value.p] + g.value.discarded + Contents(g.value.x)
      && (x.CoDelQueue? <==> g.value.x.CoDelQueue?) && (x.HeadDrop? <==> g.value.x.HeadDrop?)
      && (x.HeadDrop? ==> g.value.x.limits == x.limits)
  {
    hide C.Dequeue, P.Dequeue, Good;
    var all := Contents(x);
    assert all == [all[0]] + all[1..];
    match x
    case Infinite(q) =>
    case TailDrop(l, q) => GoodTail(l, q);
    case HeadDrop(l, q) => GoodTail(l, q);
    case CoDelQueue(cfg, s) => CoDelTakes(cfg, s, r.first, arrivals);
    case PieQueue(cfg, s) => P.DequeueKeeps(cfg, s, r.first, r.second);
  }

  /** What is in the queue after an enqueue: a suffix of the old contents and the new packet, or all
      of the old contents without it. */
  predicate AfterPut(before: seq<Packet>, p: Packet, after: seq<Packet>) {
    after == before || (|after| <= |before| + 1 && after == (before + [p])[|before| + 1 - |after|..])
  }

  /** An enqueue fails only for drophead, and there exactly when more than one packet has to go. */
  lemma PutKeeps(x: Queue, p: Packet, r: Reading, arrivals: nat)
    requires Keeps(x, arrivals) && arrivals + 1 < TWO32
    ensures Put(x, p, r).None? <==> x.HeadDrop? && Excess(x.limits, x.q + [p]) > 1
    ensures Put(x, p, r).Some? ==>
      var y := Put(x, p, r).value;
      Keeps(y, arrivals + 1) && AfterPut(Contents(x), p, Contents(y))
      && (x.CoDelQueue? <==> y.CoDelQueue?) && (x.HeadDrop? <==> y.HeadDrop?)
      && (x.HeadDrop? ==> y.limits == x.limits)
  {
    hide P.Enqueue, Good, Excess;
    var before := Contents(x);
    assert (before + [p])[0..] == before + [p];
    match x
    case Infinite(q) =>
    case TailDrop(l, q) => DropTailExactly(l, q, p);
    case HeadDrop(l, q) => HeadDropKeeps(l, q, p);
    case CoDelQueue(cfg, s) => DropTailExactly(cfg.limits, s.q, p);
    case PieQueue(cfg, s) => P.EnqueueKeeps(cfg, s, p, r.first, r.draw);
  }

  lemma HeadDropKeeps(l: Limits, q: seq<Packet>, p: Packet)
    ensures DropHead(l, q, p).None? <==> Excess(l, q + [p]) > 1
    ensures DropHead(l, q, p).Some? ==> Good(l, DropHead(l, q, p).value) && AfterPut(q, p, DropHead(l, q, p).value)
  {
    DropHeadExactly(l, q, p);
    ExcessIsLeast(l, q + [p]);
  }
}
