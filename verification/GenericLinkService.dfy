/** GenericLinkService with reliability off: how a network packet becomes link packets on the wire. */
module GenericLinkServiceModel {
  import opened Wrappers
  import opened Sequence64
  import opened LpPackets
  import opened LpFragmenter
  import opened CongestionMarking

  /** Room reserved for a CongestionMark with the largest value. */
  const CONGESTION_MARK_SIZE := 3 + 1 + 8

  function Marked(p: LpPacket, mark: bool): LpPacket {
    if mark then p.(congestionMark := Some(1)) else p
  }

  function Sequenced(p: LpPacket, begin: nat, i: nat): LpPacket {
    p.(sequence := Some(Wrap(begin + i)))
  }

  /** The reserved room is enough for a mark on a fragment that got its sequence number. */
  lemma MarkedFragmentFits(p: LpPacket, s: Seq64, mark: bool, mtu: nat)
    requires p.fragment.Some? && FitsWithSequence(p, mtu)
    ensures Size(Marked(p.(sequence := Some(s)), mark)) <= mtu + if mark then CONGESTION_MARK_SIZE else 0
  {
  }

  lemma MarkedWholeFits(p: LpPacket, mark: bool, mtu: nat)
    requires p.fragment.Some? && FitsUnfragmented(p, mtu)
    ensures Size(Marked(p, mark)) <= mtu
  {
  }

  /** `pkt` encodes within the MTU, with or without the mark it may get. */
  predicate FitsHowever(pkt: LpPacket, marking: bool, mtu: nat) {
    Size(pkt) <= mtu && (marking ==> Size(Marked(pkt, true)) <= mtu)
  }

  /** Which of the packets sent next get a mark, given the readings before them. */
  datatype Marking = Marking(allowed: bool, threshold: nat, base: nat, seen: seq<Reading>, readings: nat -> Reading)

  function Readings(m: Marking, i: nat): seq<Reading> {
    m.seen + if m.allowed then seq(i, j requires j >= 0 => m.readings(j)) else []
  }

  predicate IsMarked(m: Marking, i: nat) {
    m.allowed && ShouldMark(m.threshold, m.base, Readings(m, i), m.readings(i))
  }

  /** The wire grew by the given packets, in order, each marked or not. */
  ghost predicate AreSent(before: seq<LpPacket>, pkts: seq<LpPacket>, after: seq<LpPacket>, m: Marking) {
    && |after| == |before| + |pkts|
    && after[..|before|] == before
    && forall i :: 0 <= i < |pkts| ==> after[|before| + i] == Marked(pkts[i], IsMarked(m, i))
  }

  lemma NothingSent(wire: seq<LpPacket>, m: Marking)
    ensures AreSent(wire, [], wire, m) && Readings(m, 0) == m.seen
  {
  }

  lemma OneSent(wire: seq<LpPacket>, pkts: seq<LpPacket>, after: seq<LpPacket>, pkt: LpPacket, m: Marking)
    requires AreSent(wire, pkts, after, m)
    ensures AreSent(wire, pkts + [pkt], after + [Marked(pkt, IsMarked(m, |pkts|))], m)
  {
    hide IsMarked;
  }

  lemma OneMoreReading(m: Marking, i: nat)
    ensures Readings(m, i + 1) == if m.allowed then Readings(m, i) + [m.readings(i)] else Readings(m, i)
  {
  }

  /** `frags` is a fragmentation of `pkt` whose pieces carry consecutive sequence numbers. */
  ghost predicate Numbered(pkt: LpPacket, frags: seq<LpPacket>, begin: nat) {
    exists plain ::
      && IsFragmentation(pkt, plain) && |plain| == |frags|
      && forall i :: 0 <= i < |frags| ==> frags[i] == Sequenced(plain[i], begin, i)
  }

  lemma NumberedFits(pkt: LpPacket, plain: seq<LpPacket>, frags: seq<LpPacket>, begin: nat, room: nat, marking: bool)
    requires IsFragmentation(pkt, plain) && |plain| == |frags|
    requires forall i :: 0 <= i < |frags| ==> frags[i] == Sequenced(plain[i], begin, i)
    requires forall i :: 0 <= i < |plain| ==> FitsWithSequence(plain[i], room)
    ensures Numbered(pkt, frags, begin)
    ensures forall i :: 0 <= i < |frags| ==>
              FitsHowever(frags[i], marking, room + if marking then CONGESTION_MARK_SIZE else 0)
  {
    hide Size;
    forall i | 0 <= i < |frags|
      ensures FitsHowever(frags[i], marking, room + if marking then CONGESTION_MARK_SIZE else 0)
    {
      MarkedFragmentFits(plain[i], Wrap(begin + i), false, room);
      MarkedFragmentFits(plain[i], Wrap(begin + i), true, room);
    }
  }

  lemma WholeFits(pkt: LpPacket, room: nat, marking: bool)
    requires pkt.fragment.Some? && FitsUnfragmented(pkt, room)
    ensures FitsHowever(pkt, marking, room + if marking then CONGESTION_MARK_SIZE else 0)
  {
    MarkedWholeFits(pkt, false, room);
    MarkedWholeFits(pkt, true, room);
  }

  class GenericLinkService {
    const mtu: Option<nat>                 // effective MTU; None when unlimited
    const allowFragmentation: bool
    const allowCongestionMarking: bool
    const nMaxFragments: nat
    const defaultCongestionThreshold: nat
    const baseCongestionMarkingInterval: nat
    var lastSeqNo: Seq64
    var marker: Marker
    var nFragmentationErrors: nat
    var nOutOverMtu: nat
    var nCongestionMarked: nat
    var wire: seq<LpPacket>                // packets handed to the transport
    ghost var seen: seq<Reading>           // readings of the congestion check so far

    /** The marker is that of the run so far, whose marks keep the schedule. */
    ghost predicate Valid()
      reads this`marker, this`seen
    {
      var h := Run(defaultCongestionThreshold, baseCongestionMarkingInterval, seen);
      h.marker == marker && Scheduled(baseCongestionMarkingInterval, h)
    }

    ghost function Upcoming(readings: nat -> Reading): Marking
      reads this`seen
    {
      Marking(allowCongestionMarking, defaultCongestionThreshold, baseCongestionMarkingInterval, seen, readings)
    }

    constructor (mtu: Option<nat>, allowFragmentation: bool, allowCongestionMarking: bool, nMaxFragments: nat,
                 threshold: nat, interval: nat)
      ensures Valid() && lastSeqNo == MOD - 2 && wire == [] && seen == []
      ensures nFragmentationErrors == nOutOverMtu == nCongestionMarked == 0
      ensures this.mtu == mtu && this.allowFragmentation == allowFragmentation
      ensures this.allowCongestionMarking == allowCongestionMarking && this.nMaxFragments == nMaxFragments
      ensures defaultCongestionThreshold == threshold && baseCongestionMarkingInterval == interval
    {
      this.mtu, this.allowFragmentation, this.allowCongestionMarking := mtu, allowFragmentation, allowCongestionMarking;
      this.nMaxFragments := nMaxFragments;
      defaultCongestionThreshold, baseCongestionMarkingInterval := threshold, interval;
      lastSeqNo, marker, wire, seen := MOD - 2, IDLE, [], [];
      nFragmentationErrors, nOutOverMtu, nCongestionMarked := 0, 0, 0;
    }

    /** Claims a block of sequence numbers with one fetch_add, then numbers the packets from it. */
    method AssignSequences(pkts: seq<LpPacket>) returns (r: seq<LpPacket>)
      modifies this`lastSeqNo
      ensures lastSeqNo == Wrap(old(lastSeqNo) + |pkts|)
      ensures |r| == |pkts| && forall i :: 0 <= i < |pkts| ==> r[i] == Sequenced(pkts[i], old(lastSeqNo), i)
    {
      var beginSeq := lastSeqNo;
      ghost var begin := lastSeqNo;
      lastSeqNo := Wrap(lastSeqNo + |pkts|);
      r := pkts;
      for i := 0 to |pkts|
        invariant beginSeq == Wrap(begin + i) && lastSeqNo == Wrap(begin + |pkts|) && |r| == |pkts|
        invariant forall j :: 0 <= j < |pkts| ==> r[j] == if j < i then Sequenced(pkts[j], begin, j) else pkts[j]
      {
        r := r[i := r[i].(sequence := Some(beginSeq))];
        WrapNext(begin + i);
        beginSeq := Next(beginSeq);
      }
    }

    /** Marks the packet exactly when the readings so far say so. */
    method CheckCongestionLevel(pkt: LpPacket, reading: Reading) returns (r: LpPacket)
      requires Valid()
      modifies this`marker, this`nCongestionMarked, this`seen
      ensures Valid() && seen == old(seen) + [reading]
      ensures var marked := ShouldMark(defaultCongestionThreshold, baseCongestionMarkingInterval, old(seen), reading);
              r == Marked(pkt, marked) && nCongestionMarked == old(nCongestionMarked) + if marked then 1 else 0
    {
      hide ShouldMark, Interval, Run;
      MarksExactly(defaultCongestionThreshold, baseCongestionMarkingInterval, seen, reading);
      MarksAreSpaced(defaultCongestionThreshold, baseCongestionMarkingInterval, seen + [reading]);
      seen := seen + [reading];
      r := pkt;
      if reading.queueLength < 0 {
        return;
      }
      if reading.queueLength > defaultCongestionThreshold {
        if marker.next.None? {
          marker := marker.(next := Some(reading.now + baseCongestionMarkingInterval));
        } else if reading.now >= marker.next.value {
          r := r.(congestionMark := Some(1));
          nCongestionMarked := nCongestionMarked + 1;
          marker := marker.(nMarked := marker.nMarked + 1);
          marker := marker.(next := Some(marker.next.value + Interval(baseCongestionMarkingInterval, marker.nMarked + 1)));
        }
      } else if marker.next.Some? {
        marker := IDLE;
      }
    }

    method SendLpPacket(pkt: LpPacket, reading: Reading)
      requires Valid()
      modifies this`marker, this`nCongestionMarked, this`nOutOverMtu, this`wire, this`seen
      ensures Valid() && seen == if allowCongestionMarking then old(seen) + [reading] else old(seen)
      ensures var mark := allowCongestionMarking &&
                          ShouldMark(defaultCongestionThreshold, baseCongestionMarkingInterval, old(seen), reading);
              if mtu.Some? && Size(Marked(pkt, mark)) > mtu.value
              then wire == old(wire) && nOutOverMtu == old(nOutOverMtu) + 1
              else wire == old(wire) + [Marked(pkt, mark)] && nOutOverMtu == old(nOutOverMtu)
    {
      hide ShouldMark, Run, Valid;
      var p := pkt;
      if allowCongestionMarking {
        p := CheckCongestionLevel(pkt, reading);
      }
      if mtu.Some? && Size(p) > mtu.value {
        nOutOverMtu := nOutOverMtu + 1;
      } else {
        wire := wire + [p];
      }
    }

    /** The octets fragments may take, leaving room for a congestion mark. */
    function Room(): nat
      requires mtu.Some? && (allowCongestionMarking ==> mtu.value >= CONGESTION_MARK_SIZE)
    {
      mtu.value - if allowCongestionMarking then CONGESTION_MARK_SIZE else 0
    }

    /** Sends the packets in order. Packets that fit even when marked are all sent. */
    method SendAll(pkts: seq<LpPacket>, readings: nat -> Reading)
      requires Valid()
      requires mtu.Some? ==> forall i :: 0 <= i < |pkts| ==> FitsHowever(pkts[i], allowCongestionMarking, mtu.value)
      modifies this`marker, this`nCongestionMarked, this`nOutOverMtu, this`wire, this`seen
      ensures Valid() && seen == Readings(old(Upcoming(readings)), |pkts|)
      ensures nOutOverMtu == old(nOutOverMtu) && AreSent(old(wire), pkts, wire, old(Upcoming(readings)))
      ensures mtu.Some? ==> forall i :: |old(wire)| <= i < |wire| ==> Size(wire[i]) <= mtu.value
    {
      hide ShouldMark, Run, Valid, AreSent, Readings, Size;
      ghost var m := Upcoming(readings);
      NothingSent(wire, m);
      for k := 0 to |pkts|
        invariant Valid() && seen == Readings(m, k)
        invariant nOutOverMtu == old(nOutOverMtu) && AreSent(old(wire), pkts[..k], wire, m)
        invariant |wire| >= |old(wire)| && (mtu.Some? ==> forall i :: |old(wire)| <= i < |wire| ==> Size(wire[i]) <= mtu.value)
      {
        OneMoreReading(m, k);
        OneSent(old(wire), pkts[..k], wire, pkts[k], m);
        assert pkts[..k + 1] == pkts[..k] + [pkts[k]];
        SendLpPacket(pkts[k], readings(k));
      }
      assert pkts[..|pkts|] == pkts;
    }

    /** Whether packets of this face are fragmented at all. */
    predicate Fragments() {
      allowFragmentation && mtu.Some?
    }

    /** Fragments a network packet as needed, numbers the fragments and sends them all. On a face
        that fragments, nothing is ever dropped for being over the MTU. */
    method SendNetPacket(pkt: LpPacket, readings: nat -> Reading) returns (ghost frags: seq<LpPacket>)
      requires pkt.fragment.Some? && pkt.fragIndex.None? && pkt.fragCount.None?
      requires Valid() && (mtu.Some? && allowCongestionMarking ==> mtu.value >= CONGESTION_MARK_SIZE)
      modifies this
      ensures Valid() && seen == Readings(old(Upcoming(readings)), |frags|)
      ensures mtu.Some? ==> forall i :: |old(wire)| <= i < |wire| ==> Size(wire[i]) <= mtu.value
      ensures Fragments() ==> nOutOverMtu == old(nOutOverMtu) && AreSent(old(wire), frags, wire, old(Upcoming(readings)))
      ensures Fragments() && !FitsUnfragmented(pkt, Room()) && frags != [] ==>
                && lastSeqNo == Wrap(old(lastSeqNo) + |frags|) && 2 <= |frags| <= nMaxFragments
                && Numbered(pkt, frags, old(lastSeqNo))
      ensures !Fragments() || FitsUnfragmented(pkt, Room()) ==> frags == [pkt] && lastSeqNo == old(lastSeqNo)
      ensures !Fragments() ==>
                || (nOutOverMtu == old(nOutOverMtu) && AreSent(old(wire), frags, wire, old(Upcoming(readings))))
                || (nOutOverMtu == old(nOutOverMtu) + 1 && wire == old(wire) && mtu.Some? && !FitsHowever(pkt, allowCongestionMarking, mtu.value))
      ensures frags == [] <==>
                (&& Fragments() && !FitsUnfragmented(pkt, Room())
                 && !(Room() > MAX_FRAG_OVERHEAD + HeaderSize(pkt) && FragCount(pkt, Room()) <= nMaxFragments))
      ensures frags == [] ==> lastSeqNo == old(lastSeqNo)
      ensures nFragmentationErrors == old(nFragmentationErrors) + if frags == [] then 1 else 0
    {
      hide Size, HeaderSize, FragCount, IsFragmentation, AreSent, Check, Valid, Run, ShouldMark, Readings;
      ghost var m := Upcoming(readings);
      NothingSent(wire, m);
      var fs := [pkt];
      frags := fs;
      if allowFragmentation && mtu.Some? {
        hide FitsHowever;
        var ok;
        ok, fs := FragmentPacket(pkt, Room(), nMaxFragments);
        frags := fs;
        if !ok {
          nFragmentationErrors := nFragmentationErrors + 1;
          return;
        }
        if |fs| > 1 {
          var numbered := AssignSequences(fs);
          NumberedFits(pkt, fs, numbered, old(lastSeqNo), Room(), allowCongestionMarking);
          fs := numbered;
        } else {
          WholeFits(pkt, Room(), allowCongestionMarking);
        }
        frags := fs;
        SendAll(fs, readings);
      } else {
        OneMoreReading(m, 0);
        OneSent(old(wire), [], wire, pkt, m);
        assert [] + [pkt] == [pkt];
        SendLpPacket(pkt, readings(0));
      }
    }
  }
}
