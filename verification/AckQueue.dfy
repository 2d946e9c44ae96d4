/** The receiving side of LpReliability: Acks waiting to be returned, piggybacked on outgoing
    packets or sent in IDLE packets when a timer expires. */
module AckQueueModel {
  import opened Wrappers
  import opened Sequence64
  import opened LpPackets
  import opened LpFragmenter
  import opened GenericLinkServiceModel

  /** The octets a packet may take; an unlimited MTU stands for the largest NDN packet. */
  function Limit(mtu: Option<nat>): nat {
    if mtu.Some? then mtu.value else MAX_NDN_PACKET_SIZE
  }

  /** Room for Acks next to a packet of this size. Two octets are kept for the TLV-LENGTH to grow,
      judged by the size of the whole packet. */
  function RemainingSpace(size: nat, mtu: Option<nat>): int {
    Limit(mtu) - (VarSize(MAX_NDN_PACKET_SIZE) - VarSize(size)) - size
  }

  /** How many Acks fit by that reckoning. */
  function AckRoom(size: nat, mtu: Option<nat>): nat {
    if RemainingSpace(size, mtu) < 0 then 0 else RemainingSpace(size, mtu) / ACK_SIZE
  }

  /** How many Acks a packet of this size takes from a queue. */
  function Taken(queued: nat, size: nat, mtu: Option<nat>): nat {
    if queued < AckRoom(size, mtu) then queued else AckRoom(size, mtu)
  }

  function WithAcks(p: LpPacket, acks: seq<Seq64>): LpPacket {
    p.(acks := p.acks + acks)
  }

  const IDLE_PACKET := EMPTY

  /** Room kept in fragments for a TxSequence. */
  const RESERVED_HEADER_SPACE := 3 + 1 + 8

  /** A congestion mark with value 1. */
  const MARK_SIZE := 3 + 1 + 1

  // ---------------------------------------------------------------- sizes

  lemma HeaderWithAcks(p: LpPacket, acks: seq<Seq64>)
    ensures HeaderSize(WithAcks(p, acks)) == HeaderSize(p) + ACK_SIZE * |acks|
  {
  }

  /** Octets inside the outer TLV. */
  function Contents(p: LpPacket): nat {
    HeaderSize(p) + FragmentSize(p)
  }

  /** Whether the packet with the Acks it takes, and `more` octets besides, is within the MTU: what is
      left over covers the outer TLV-TYPE and TLV-LENGTH. */
  predicate LeavesRoom(p: LpPacket, queued: nat, mtu: Option<nat>, more: nat) {
    var inner := Contents(p) + ACK_SIZE * Taken(queued, Size(p), mtu) + more;
    Limit(mtu) - inner >= 1 + VarSize(inner)
  }

  /** A packet that fitted still fits with its Acks exactly when it takes none or they leave room for
      the outer TLV-LENGTH. */
  lemma PiggybackSize(p: LpPacket, acks: seq<Seq64>, mtu: Option<nat>, queued: nat)
    requires Size(p) <= Limit(mtu) && |acks| == Taken(queued, Size(p), mtu)
    ensures Size(WithAcks(p, acks)) <= Limit(mtu) <==> |acks| == 0 || LeavesRoom(p, queued, mtu, 0)
  {
    HeaderWithAcks(p, acks);
    if acks == [] {
      assert WithAcks(p, acks) == p;
    }
  }

  /** Below 2^16 that fails for two sizes only, whose TLV-LENGTH is one octet where the reserve assumes
      three, when the Acks leave less than two octets. */
  predicate IsCorner(size: nat, queued: nat, mtu: Option<nat>) {
    var k := Taken(queued, size, mtu);
    (size == 253 || size == 254) && k > 0 && Limit(mtu) - size - ACK_SIZE * k < 2
  }

  lemma PiggybackCorner(p: LpPacket, mtu: Option<nat>, queued: nat)
    requires HeaderSize(p) > 0 && Size(p) <= Limit(mtu) <= 0xFFFF && Taken(queued, Size(p), mtu) > 0
    ensures LeavesRoom(p, queued, mtu, 0) <==> !IsCorner(Size(p), queued, mtu)
  {
    assert Size(p) == 1 + VarSize(Contents(p)) + Contents(p);
  }

  /** No Ack waits that would have fitted: when some are left behind, one more would leave less than the
      two octets kept in reserve. */
  lemma PiggybackIsMaximal(p: LpPacket, acks: seq<Seq64>, mtu: Option<nat>, queued: nat)
    requires HeaderSize(p) > 0 && Taken(queued, Size(p), mtu) < queued
    requires |acks| == Taken(queued, Size(p), mtu) + 1
    ensures Size(WithAcks(p, acks)) > Limit(mtu) - 2
  {
    HeaderWithAcks(p, acks);
    assert ACK_SIZE * |acks| > RemainingSpace(Size(p), mtu);
    GrowsByAcks(p, acks);
  }

  lemma GrowsByAcks(p: LpPacket, acks: seq<Seq64>)
    requires HeaderSize(p) > 0
    ensures Size(WithAcks(p, acks)) >= Size(p) + ACK_SIZE * |acks|
  {
    HeaderWithAcks(p, acks);
  }

  /** A network packet as the link service hands it on with reliability enabled: numbered twice. */
  function Reliable(payload: bytes, s: Seq64, tx: Seq64): LpPacket {
    EMPTY.(fragment := Some(payload), sequence := Some(s), txSequence := Some(tx))
  }

  /** The failing family is not empty: a network packet of 227 octets needs no fragmentation on a link
      with an MTU of 277, and becomes 279 octets when two Acks are waiting. */
  lemma PiggybackOverflows(payload: bytes, s: Seq64, tx: Seq64, acks: seq<Seq64>)
    requires |payload| == 227 && |acks| == 2
    ensures FitsUnfragmented(EMPTY.(fragment := Some(payload)), 277 - RESERVED_HEADER_SPACE)
    ensures Size(Reliable(payload, s, tx)) == 253 && Taken(2, 253, Some(277)) == 2
    ensures Size(WithAcks(Reliable(payload, s, tx), acks)) == 279
  {
    HeaderWithAcks(Reliable(payload, s, tx), acks);
  }

  /** An IDLE packet takes an Ack exactly when the MTU has room for one. */
  lemma IdleTakesOne(queued: nat, mtu: Option<nat>)
    requires queued > 0
    ensures Size(IDLE_PACKET) == 2
    ensures Taken(queued, Size(IDLE_PACKET), mtu) > 0 <==> Limit(mtu) >= 16
  {
  }

  /** A packet that fitted, and gets a congestion mark after its Acks, still fits exactly when they
      leave room for the mark. */
  lemma MarkedSize(p: LpPacket, acks: seq<Seq64>, mtu: Option<nat>, queued: nat)
    requires p.congestionMark.None? && |acks| == Taken(queued, Size(p), mtu)
    ensures Size(Marked(WithAcks(p, acks), true)) <= Limit(mtu) <==> LeavesRoom(p, queued, mtu, MARK_SIZE)
  {
    HeaderWithAcks(p, acks);
    var q := Marked(WithAcks(p, acks), true);
    assert HeaderSize(q) == HeaderSize(WithAcks(p, acks)) + MARK_SIZE;
  }

  /** For an IDLE packet: when the queue ran out before the room, or enough octets are left over. */
  lemma MarkedIdleFits(queued: nat, mtu: Option<nat>)
    requires 16 <= Limit(mtu) <= 0xFFFF
    ensures var spare := (Limit(mtu) - 4) % ACK_SIZE;
            LeavesRoom(IDLE_PACKET, queued, mtu, MARK_SIZE) <==>
              (queued < AckRoom(2, mtu) || spare >= if ACK_SIZE * AckRoom(2, mtu) + 5 < 253 then 3 else 5)
  {
    assert Limit(mtu) - 4 == ACK_SIZE * AckRoom(2, mtu) + (Limit(mtu) - 4) % ACK_SIZE;
  }

  /** With five Acks on a link with an MTU of 64 there is no room for a mark. */
  lemma MarkedIdleOverflows(acks: seq<Seq64>)
    requires |acks| == 5
    ensures |acks| == Taken(5, Size(IDLE_PACKET), Some(64))
    ensures Size(Marked(WithAcks(IDLE_PACKET, acks), true)) > 64
  {
    MarkedSize(IDLE_PACKET, acks, Some(64), 5);
  }

  lemma IdleFits(acks: seq<Seq64>, queued: nat, mtu: Option<nat>)
    requires 16 <= Limit(mtu) <= 0xFFFF && |acks| == Taken(queued, 2, mtu)
    ensures Size(WithAcks(IDLE_PACKET, acks)) <= Limit(mtu)
  {
    HeaderWithAcks(IDLE_PACKET, acks);
  }

  /** The loop stops at the computed number: the queue is exhausted or the room is. */
  lemma TakenIs(n: nat, queued: nat, size: nat, mtu: Option<nat>)
    requires n <= queued && (n > 0 ==> RemainingSpace(size, mtu) - ACK_SIZE * n >= 0)
    requires n == queued || RemainingSpace(size, mtu) - ACK_SIZE * n < ACK_SIZE
    ensures n == Taken(queued, size, mtu)
  {
  }

  // ---------------------------------------------------------------- the queue

  class AckQueue {
    var isEnabled: bool
    var ackQueue: seq<Seq64>
    var isTimerPending: bool
    ghost var queued: seq<Seq64>            // every Ack queued so far
    ghost var attached: seq<Seq64>          // every Ack attached to a packet so far

    /** Every Ack queued was attached once, in order, or still waits; and the idle timer is never
        pending while reliability is disabled. */
    ghost predicate Valid()
      reads this
    {
      && attached + ackQueue == queued
      && (isTimerPending ==> isEnabled)
    }

    constructor (isEnabled: bool)
      ensures Valid() && this.isEnabled == isEnabled && ackQueue == [] && !isTimerPending
    {
      this.isEnabled, ackQueue, isTimerPending := isEnabled, [], false;
      queued, attached := [], [];
    }

    method SetOptions(isEnabled: bool)
      requires Valid()
      modifies this`isEnabled, this`isTimerPending
      ensures Valid() && this.isEnabled == isEnabled
      ensures isTimerPending <==> old(isTimerPending) && isEnabled
    {
      if this.isEnabled && !isEnabled {
        isTimerPending := false;
      }
      this.isEnabled := isEnabled;
    }

    /** A received fragment with a TxSequence will be acknowledged. */
    method QueueAck(txSeq: Seq64)
      requires Valid() && isEnabled
      modifies this`ackQueue, this`isTimerPending, this`queued
      ensures Valid() && ackQueue == old(ackQueue) + [txSeq] && isTimerPending
      ensures queued == old(queued) + [txSeq]
    {
      queued := queued + [txSeq];
      ackQueue := ackQueue + [txSeq];
      if isTimerPending {
        return;
      }
      isTimerPending := true;
    }

    /** Attaches as many queued Acks as have room, oldest first. */
    method Piggyback(pkt: LpPacket, mtu: Option<nat>) returns (r: LpPacket)
      requires Valid() && isEnabled
      modifies this`ackQueue, this`attached
      ensures Valid()
      ensures var k := Taken(|old(ackQueue)|, Size(pkt), mtu);
              && r == WithAcks(pkt, old(ackQueue)[..k]) && ackQueue == old(ackQueue)[k..]
              && attached == old(attached) + old(ackQueue)[..k]
    {
      hide Size, Limit, Taken;
      var pktSize := Size(pkt);
      var reservedSpace := VarSize(MAX_NDN_PACKET_SIZE) - VarSize(pktSize);
      var remainingSpace := Limit(mtu) - reservedSpace - pktSize;
      r := pkt;
      ghost var n := 0;
      while ackQueue != []
        invariant n <= |old(ackQueue)| && ackQueue == old(ackQueue)[n..] && attached == old(attached)
        invariant r == WithAcks(pkt, old(ackQueue)[..n])
        invariant remainingSpace == RemainingSpace(pktSize, mtu) - ACK_SIZE * n
        invariant n > 0 ==> remainingSpace >= 0
        decreases |ackQueue|
      {
        if ACK_SIZE > remainingSpace {
          break;
        }
        r := r.(acks := r.acks + [ackQueue[0]]);
        assert old(ackQueue)[..n + 1] == old(ackQueue)[..n] + [ackQueue[0]];
        ackQueue := ackQueue[1..];
        remainingSpace := remainingSpace - ACK_SIZE;
        n := n + 1;
      }
      TakenIs(n, |old(ackQueue)|, pktSize, mtu);
      attached := attached + old(ackQueue)[..n];
      assert old(ackQueue)[..n] + ackQueue == old(ackQueue);
    }

    /** An IDLE packet with the Acks it has room for. */
    method MakeIdle(mtu: Option<nat>) returns (p: LpPacket)
      requires Valid() && isEnabled && ackQueue != [] && 16 <= Limit(mtu)
      modifies this`ackQueue, this`attached
      ensures Valid() && IsIdle(p) && p.acks + ackQueue == old(ackQueue) && |ackQueue| < |old(ackQueue)|
      ensures Limit(mtu) <= 0xFFFF && mtu.Some? ==> Size(p) <= mtu.value
    {
      IdleTakesOne(|ackQueue|, mtu);
      ghost var before := ackQueue;
      p := Piggyback(IDLE_PACKET, mtu);
      if Limit(mtu) <= 0xFFFF {
        IdleFits(p.acks, |before|, mtu);
      }
      assert p.acks + ackQueue == before;
    }

    /** The idle timer expires: IDLE packets are made until no Ack is left, each with at least one, in
        order. `mark` tells which of them the congestion check marks. A packet over the MTU is
        dropped, with its Acks. With less room than one Ack needs the loop would not end. */
    method OnIdleTimer(mtu: Option<nat>, mark: nat -> bool) returns (ghost made: seq<LpPacket>, sent: seq<LpPacket>)
      requires Valid() && isTimerPending && 16 <= Limit(mtu)
      modifies this`ackQueue, this`isTimerPending, this`attached
      ensures Valid() && ackQueue == [] && !isTimerPending && attached == queued
      ensures AcksOf(made) == old(ackQueue) && forall i :: 0 <= i < |made| ==> IsIdle(made[i])
      ensures sent == Transmitted(made, mark, mtu)
      ensures Limit(mtu) <= 0xFFFF && (forall i :: 0 <= i < |made| ==> !mark(i)) ==> sent == made
    {
      hide Size, Limit, Transmitted, AcksOf, IsIdle;
      isTimerPending := false;
      made, sent := [], [];
      var nMade := 0;
      NothingMade(mark, mtu);
      ghost var all := Limit(mtu) <= 0xFFFF;
      while ackQueue != []
        invariant Valid() && !isTimerPending && isEnabled && AcksOf(made) + ackQueue == old(ackQueue)
        invariant forall i :: 0 <= i < |made| ==> IsIdle(made[i])
        invariant nMade == |made| && sent == Transmitted(made, mark, mtu)
        invariant all && (forall i :: 0 <= i < |made| ==> !mark(i)) ==> sent == made
        decreases |ackQueue|
      {
        var p := MakeIdle(mtu);
        var q := Marked(p, mark(nMade));
        OneMade(made, p, mark, mtu);
        if !(mtu.Some? && Size(q) > mtu.value) {
          sent := sent + [q];
        }
        made := made + [p];
        nMade := nMade + 1;
      }
    }
  }

  /** A packet with nothing but Acks, at least one. */
  predicate IsIdle(p: LpPacket) {
    p == WithAcks(IDLE_PACKET, p.acks) && p.acks != []
  }

  /** The Acks carried by some packets, in order. */
  function AcksOf(ps: seq<LpPacket>): seq<Seq64> {
    if ps == [] then [] else AcksOf(ps[..|ps| - 1]) + ps[|ps| - 1].acks
  }

  /** What reaches the transport of the packets made: each marked or not, unless that is over the MTU. */
  function Transmitted(made: seq<LpPacket>, mark: nat -> bool, mtu: Option<nat>): seq<LpPacket> {
    if made == [] then []
    else
      var n := |made| - 1;
      var q := Marked(made[n], mark(n));
      Transmitted(made[..n], mark, mtu) + if mtu.Some? && Size(q) > mtu.value then [] else [q]
  }

  lemma NothingMade(mark: nat -> bool, mtu: Option<nat>)
    ensures Transmitted([], mark, mtu) == [] && AcksOf([]) == []
  {
  }

  lemma OneMade(made: seq<LpPacket>, p: LpPacket, mark: nat -> bool, mtu: Option<nat>)
    ensures var q := Marked(p, mark(|made|));
            Transmitted(made + [p], mark, mtu)
            == if mtu.Some? && Size(q) > mtu.value then Transmitted(made, mark, mtu) else Transmitted(made, mark, mtu) + [q]
    ensures AcksOf(made + [p]) == AcksOf(made) + p.acks
  {
    assert (made + [p])[..|made|] == made;
  }
}
