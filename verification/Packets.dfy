/** Queued packets, and the two disciplines that only drop when a limit is hit. */
module Packets {
  import opened Text

  datatype Packet = Packet(arrival: nat, contents: string) {
    function Size(): nat { |contents| }
  }

  /** The default maximum TUN payload size. */
  const PACKET_SIZE := 1504

  function Bytes(q: seq<Packet>): nat {
    if q == [] then 0 else q[0].Size() + Bytes(q[1..])
  }

  lemma BytesOfNothing()
    ensures Bytes([]) == 0
  {
  }

  lemma BytesOfOne(p: Packet)
    ensures Bytes([p]) == p.Size()
  {
  }

  lemma {:induction false} BytesConcat(q: seq<Packet>, r: seq<Packet>)
    ensures Bytes(q + r) == Bytes(q) + Bytes(r)
  {
    if q == [] {
      assert q + r == r;
    } else {
      assert (q + r)[1..] == q[1..] + r;
      BytesConcat(q[1..], r);
    }
  }

  /** A packet of the maximal size; the n-th and the one before it differ. */
  function FullPacket(n: nat, t: nat): Packet {
    Packet(t, seq(PACKET_SIZE, _ => if n % 2 == 0 then 'x' else 'y'))
  }

  /** n such packets, all arrived at t. */
  function FullQueue(n: nat, t: nat): (q: seq<Packet>)
    ensures |q| == n && Bytes(q) == n * PACKET_SIZE
  {
    if n == 0 then [] else [FullPacket(n, t)] + FullQueue(n - 1, t)
  }

  /** A limit of 0 is no limit. */
  datatype Limits = Limits(packets: nat, bytes: nat)

  predicate GoodWith(l: Limits, bytes: nat, packets: nat) {
    (l.bytes != 0 ==> bytes <= l.bytes) && (l.packets != 0 ==> packets <= l.packets)
  }

  predicate Good(l: Limits, q: seq<Packet>) {
    GoodWith(l, Bytes(q), |q|)
  }

  lemma GoodTail(l: Limits, q: seq<Packet>)
    requires q != [] && Good(l, q)
    ensures Good(l, q[1..])
  {
  }

  /** Taking the front packet; `None` where an assertion fails, on an empty queue or when the rest
      is still over a limit. */
  function TakeFront(l: Limits, q: seq<Packet>): Option<Packet> {
    if q == [] || !Good(l, q[1..]) then None else Some(q[0])
  }

  // ---------------------------------------------------------------- droptail

  /** The queue after droptail's enqueue; `None` where its assertion fails. */
  function DropTail(l: Limits, q: seq<Packet>, p: Packet): Option<seq<Packet>> {
    var r := if GoodWith(l, Bytes(q) + p.Size(), |q| + 1) then q + [p] else q;
    if Good(l, r) then Some(r) else None
  }

  function CanAcceptOne(l: Limits, q: seq<Packet>, size: nat): bool {
    (l.bytes != 0 ==> Bytes(q) + size <= l.bytes) && (l.packets != 0 ==> |q| + 1 <= l.packets)
  }

  /** Droptail never fails on a queue within its limits, and keeps the packet exactly when there is
      room for it, which is what `can_accept_one` announces. */
  lemma DropTailExactly(l: Limits, q: seq<Packet>, p: Packet)
    requires Good(l, q)
    ensures DropTail(l, q, p) == Some(if Good(l, q + [p]) then q + [p] else q)
    ensures Good(l, q + [p]) <==> CanAcceptOne(l, q, p.Size())
  {
    BytesConcat(q, [p]);
  }

  // ---------------------------------------------------------------- drophead

  /** Drophead's loop: `None` where the assertion at the end of a dequeue fails. */
  function DropUntilGood(l: Limits, q: seq<Packet>): Option<seq<Packet>>
    decreases |q|
  {
    if Good(l, q) then Some(q)
    else if TakeFront(l, q).None? then None
    else DropUntilGood(l, q[1..])
  }

  function DropHead(l: Limits, q: seq<Packet>, p: Packet): Option<seq<Packet>> {
    DropUntilGood(l, q + [p])
  }

  /** How many packets must go from the head before the rest is within the limits. */
  function Excess(l: Limits, q: seq<Packet>): nat {
    if q == [] || Good(l, q) then 0 else 1 + Excess(l, q[1..])
  }

  lemma {:induction false} ExcessIsLeast(l: Limits, q: seq<Packet>)
    ensures Excess(l, q) <= |q| && Good(l, q[Excess(l, q)..])
    ensures forall k :: 0 <= k < Excess(l, q) ==> !Good(l, q[k..])
  {
    if q != [] && !Good(l, q) {
      ExcessIsLeast(l, q[1..]);
      assert forall k :: 0 < k <= |q| ==> q[k..] == q[1..][k - 1..];
      assert q[0..] == q;
    }
  }

  /** Drophead keeps the longest suffix within the limits exactly when at most one packet has to go;
      otherwise the assertion inside its first dequeue fails. */
  lemma DropHeadExactly(l: Limits, q: seq<Packet>, p: Packet)
    ensures var k := Excess(l, q + [p]);
      k <= |q + [p]| && DropHead(l, q, p) == if k <= 1 then Some((q + [p])[k..]) else None
  {
    DropsAtMostOne(l, q + [p]);
  }

  lemma DropsAtMostOne(l: Limits, r: seq<Packet>)
    requires r != []
    ensures var k := Excess(l, r);
      k <= |r| && DropUntilGood(l, r) == if k <= 1 then Some(r[k..]) else None
  {
    ExcessIsLeast(l, r);
    assert Good(l, []);
    if Good(l, r) {
      assert r[0..] == r;
    } else if Good(l, r[1..]) {
      assert Excess(l, r[1..]) == 0;
      assert DropUntilGood(l, r[1..]) == Some(r[1..]);
    } else {
      assert Excess(l, r[1..]) >= 1;
      assert TakeFront(l, r) == None;
    }
  }

  /** With a packet limit only, drophead never fails. */
  lemma DropHeadByCount(l: Limits, q: seq<Packet>, p: Packet)
    requires Good(l, q) && l.bytes == 0
    ensures DropHead(l, q, p).Some?
  {
    DropHeadExactly(l, q, p);
    var r := q + [p];
    assert |r[1..]| == |q| && Good(l, r[1..]);
    assert Excess(l, r[1..]) == 0;
    assert Excess(l, r) <= 1;
  }

  /** With a byte limit a single large arrival can need two packets to go, and then it fails. */
  lemma DropHeadFails() returns (l: Limits, q: seq<Packet>, p: Packet)
    ensures Good(l, q) && p.Size() <= l.bytes && DropHead(l, q, p) == None
  {
    l := Limits(0, 3);
    var small := Packet(0, "a");
    q, p := [small, small, small], Packet(0, "abc");
    assert q[1..] == [small, small] && [small, small][1..] == [small];
    assert Bytes([small]) == 1 && Bytes([small, small]) == 2 && Bytes(q) == 3;
    var r := q + [p];
    var r1, r2 := r[1..], r[2..];
    assert r1 == [small, small, p] && r1[1..] == r2 == [small, p];
    assert r2 == [small] + [p] && r1 == [small, small] + [p];
    BytesConcat([small], [p]);
    BytesConcat([small, small], [p]);
    BytesConcat(q, [p]);
    assert Bytes([p]) == 3;
    assert Excess(l, r) >= 2;
    DropHeadExactly(l, q, p);
  }
}
