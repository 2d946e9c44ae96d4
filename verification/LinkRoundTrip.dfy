/** The round trip between two link services: what the sender puts on the wire, with marks and the
    fields of reliability, is what the reassembler is promised to put together again. */
module LinkRoundTrip {
  import opened Wrappers
  import opened Sequence64
  import opened LpPackets
  import opened LpFragmenter
  import opened LpReassemblerModel
  import opened GenericLinkServiceModel
  import opened CongestionMarking
  import opened RoundTrip

  // ---------------------------------------------------------------- fields reassembly ignores

  /** The packet without the fields that may differ from one transmission to the next. */
  function Strip(p: LpPacket): LpPacket {
    p.(congestionMark := None, txSequence := None, acks := [])
  }

  function StripAll(ps: seq<LpPacket>): (r: seq<LpPacket>)
    ensures |r| == |ps| && forall i :: 0 <= i < |ps| ==> r[i] == Strip(ps[i])
  {
    if ps == [] then [] else StripAll(ps[..|ps| - 1]) + [Strip(ps[|ps| - 1])]
  }

  function StripParts(parts: PartialPackets): PartialPackets {
    map k | k in parts :: parts[k].(fragments := StripAll(parts[k].fragments))
  }

  function StripDelivery(d: Delivery): Delivery {
    if d.Nothing? then d else d.(firstFrag := Strip(d.firstFrag))
  }

  lemma {:induction false} StripPayloads(ps: seq<LpPacket>)
    ensures Payloads(StripAll(ps)) == Payloads(ps)
  {
    if ps != [] {
      StripPayloads(ps[..|ps| - 1]);
      assert StripAll(ps)[..|ps| - 1] == StripAll(ps[..|ps| - 1]);
    }
  }

  lemma StripUpdate(ps: seq<LpPacket>, i: nat, p: LpPacket)
    requires i < |ps|
    ensures StripAll(ps[i := p]) == StripAll(ps)[i := Strip(p)]
  {
  }

  lemma StripBlank(n: nat)
    ensures StripAll(Blank(n)) == Blank(n)
  {
  }

  lemma StripErase(parts: PartialPackets, key: Key)
    ensures StripParts(parts - {key}) == StripParts(parts) - {key}
  {
  }

  lemma StripPut(parts: PartialPackets, key: Key, pp: PartialPacket)
    ensures StripParts(parts[key := pp]) == StripParts(parts)[key := pp.(fragments := StripAll(pp.fragments))]
  {
  }

  lemma StripSlotted(parts: PartialPackets)
    requires Slotted(parts)
    ensures Slotted(StripParts(parts))
  {
  }

  /** Reassembly does the same with and without those fields. */
  lemma ReceiveStripped(parts: PartialPackets, nMaxFragments: nat, endpoint: nat, p: LpPacket)
    requires Slotted(parts)
    ensures Slotted(StripParts(parts))
    ensures var r := Receive(parts, nMaxFragments, endpoint, p);
            Receive(StripParts(parts), nMaxFragments, endpoint, Strip(p)) == (StripParts(r.0), StripDelivery(r.1))
  {
    hide StripParts, StripAll, Payloads, Minus, Blank, Strip, IndexOf, CountOf;
    StripSlotted(parts);
    StripKeys(parts);
    StripHeaders(p);
    if Acceptable(p, nMaxFragments) {
      var key := KeyOf(endpoint, p);
      var pp := if key in parts && parts[key].fragCount != 0 then parts[key] else NewPartial(CountOf(p));
      StripBlank(CountOf(p));
      var fs := pp.fragments;
      if pp.fragCount == CountOf(p) {
        StripAt(fs, IndexOf(p));
        StripHeaders(fs[IndexOf(p)]);
        fs := fs[IndexOf(p) := p];
        StripUpdate(pp.fragments, IndexOf(p), p);
        StripAt(fs, 0);
        StripPayloads(fs);
        StripErase(parts, key);
        StripPut(parts, key, PartialPacket(fs, pp.fragCount, pp.nReceivedFragments + 1));
      }
    }
  }

  lemma StripHeaders(p: LpPacket)
    ensures IndexOf(Strip(p)) == IndexOf(p) && CountOf(Strip(p)) == CountOf(p)
    ensures Strip(p).sequence == p.sequence && Payload(Strip(p)) == Payload(p)
  {
  }

  lemma StripKeys(parts: PartialPackets)
    ensures StripParts(parts).Keys == parts.Keys
    ensures forall k :: k in parts ==> StripParts(parts)[k] == parts[k].(fragments := StripAll(parts[k].fragments))
  {
  }

  lemma StripAt(ps: seq<LpPacket>, i: nat)
    requires i < |ps|
    ensures StripAll(ps)[i] == Strip(ps[i])
  {
  }

  // ---------------------------------------------------------------- a run over the link

  /** The packets that arrive are transmissions of the fragments that the events name. */
  ghost predicate Carried(reliable: bool, ms: seq<Message>, es: seq<Event>, packets: seq<LpPacket>)
    requires ValidEvents(ms, es)
  {
    && |packets| == |es|
    && forall i :: 0 <= i < |es| && ValidEvent(ms, es[i]) && es[i].Arrive? ==>
         Strip(packets[i]) == Strip(Wire(reliable, ms, es[i].message, es[i].index))
  }

  /** What the reassembler does with the packets that arrive. */
  function RunLink(reliable: bool, ms: seq<Message>, nMaxFragments: nat, es: seq<Event>, packets: seq<LpPacket>)
    : (r: (PartialPackets, seq<Delivery>))
    requires ValidEvents(ms, es) && |packets| == |es|
    ensures Slotted(r.0) && |r.1| == |es|
  {
    if es == [] then (map[], [])
    else
      var n := |es| - 1;
      var r := RunLink(reliable, ms, nMaxFragments, es[..n], packets[..n]);
      assert ValidEvent(ms, es[n]);
      var k := es[n].message;
      var s := if es[n].Timeout? then (r.0 - {KeyFor(reliable, ms, k)}, Nothing)
               else Receive(r.0, nMaxFragments, ms[k].endpoint, packets[n]);
      (s.0, r.1 + [s.1])
  }

  lemma {:induction false} RunsAlike(reliable: bool, ms: seq<Message>, nMaxFragments: nat, es: seq<Event>, packets: seq<LpPacket>)
    requires ValidEvents(ms, es) && Carried(reliable, ms, es, packets)
    ensures |RunActual(reliable, ms, nMaxFragments, es).1| == |es|
    ensures var a, b := RunLink(reliable, ms, nMaxFragments, es, packets), RunActual(reliable, ms, nMaxFragments, es);
            && StripParts(a.0) == StripParts(b.0)
            && forall i :: 0 <= i < |es| ==> StripDelivery(a.1[i]) == StripDelivery(b.1[i])
    decreases |es|
  {
    hide StripParts, Receive, Wire, KeyFor;
    if es != [] {
      var n := |es| - 1;
      assert ValidEvent(ms, es[n]);
      RunsAlike(reliable, ms, nMaxFragments, es[..n], packets[..n]);
      var a := RunLink(reliable, ms, nMaxFragments, es[..n], packets[..n]);
      var b := RunActual(reliable, ms, nMaxFragments, es[..n]);
      var k := es[n].message;
      if es[n].Timeout? {
        StripErase(a.0, KeyFor(reliable, ms, k));
        StripErase(b.0, KeyFor(reliable, ms, k));
      } else {
        ReceiveStripped(a.0, nMaxFragments, ms[k].endpoint, packets[n]);
        ReceiveStripped(b.0, nMaxFragments, ms[k].endpoint, Wire(reliable, ms, k, es[n].index));
      }
    }
  }

  /** The round trip on the link: whatever marks, TxSequences and Acks the transmissions carry, the
      reassembler delivers exactly the packets that the intended receiver delivers, when it does, with
      the header fields of their first fragments. */
  lemma LinkDeliversExactly(reliable: bool, ms: seq<Message>, nMaxFragments: nat, es: seq<Event>, packets: seq<LpPacket>)
    requires World(reliable, ms, nMaxFragments) && ValidEvents(ms, es) && Carried(reliable, ms, es, packets)
    ensures forall i :: 0 <= i < |es| ==>
              StripDelivery(RunLink(reliable, ms, nMaxFragments, es, packets).1[i])
              == StripDelivery(RunIntended(reliable, ms, es).1[i])
  {
    hide RunLink, RunActual, RunIntended, World, Carried, StripDelivery;
    RunsAlike(reliable, ms, nMaxFragments, es, packets);
    DeliversExactly(reliable, ms, nMaxFragments, es);
  }

  // ---------------------------------------------------------------- the sender

  /** The fragments of all messages, in the order of their numbers. */
  function AllWires(ms: seq<Message>): seq<LpPacket> {
    if ms == [] then [] else AllWires(ms[..|ms| - 1]) + Wires(false, ms, |ms| - 1)
  }

  /** The packets on the wire are the fragments of the messages, marked or not. */
  ghost predicate OnWire(wire: seq<LpPacket>, ms: seq<Message>) {
    StripAll(wire) == StripAll(AllWires(ms))
  }

  /** Every packet of the messages is some fragment of some message. */
  lemma {:induction false} WireOf(ms: seq<Message>, n: nat) returns (k: nat, i: nat)
    requires n < |AllWires(ms)|
    ensures k < |ms| && i < |ms[k].frags| && AllWires(ms)[n] == Wire(false, ms, k, i)
  {
    hide Claimed, Wrap, Claim;
    var last := |ms| - 1;
    var before := AllWires(ms[..last]);
    if n < |before| {
      k, i := WireOf(ms[..last], n);
      assert ms[..last][..k] == ms[..k];
    } else {
      k, i := last, n - |before|;
    }
  }

  /** So every packet that travels is a transmission of some fragment of some message. */
  lemma OnWireIsCarried(wire: seq<LpPacket>, ms: seq<Message>, n: nat) returns (k: nat, i: nat)
    requires OnWire(wire, ms) && n < |wire|
    ensures k < |ms| && i < |ms[k].frags| && Strip(wire[n]) == Strip(Wire(false, ms, k, i))
  {
    hide Strip, Wire, AllWires;
    assert |StripAll(wire)| == |StripAll(AllWires(ms))|;
    assert StripAll(wire)[n] == Strip(wire[n]) && StripAll(AllWires(ms))[n] == Strip(AllWires(ms)[n]);
    k, i := WireOf(ms, n);
  }

  lemma StripAppend(a: seq<LpPacket>, b: seq<LpPacket>)
    ensures StripAll(a + b) == StripAll(a) + StripAll(b)
  {
  }

  lemma AllWiresNext(ms: seq<Message>, m: Message)
    ensures AllWires(ms + [m]) == AllWires(ms) + Wires(false, ms + [m], |ms|)
  {
    assert (ms + [m])[..|ms|] == ms;
  }

  lemma SentStripped(before: seq<LpPacket>, pkts: seq<LpPacket>, after: seq<LpPacket>, m: Marking)
    requires AreSent(before, pkts, after, m)
    ensures StripAll(after) == StripAll(before) + StripAll(pkts)
  {
    hide IsMarked;
    forall i | 0 <= i < |after| ensures Strip(after[i]) == (StripAll(before) + StripAll(pkts))[i] {
      if i < |before| {
        assert after[i] == after[..|before|][i];
      } else {
        assert after[|before| + (i - |before|)] == Marked(pkts[i - |before|], IsMarked(m, i - |before|));
      }
    }
  }

  /** One more message on the wire. */
  lemma MessageSent(before: seq<LpPacket>, pkts: seq<LpPacket>, after: seq<LpPacket>, mk: Marking, ms: seq<Message>, m: Message)
    requires OnWire(before, ms) && AreSent(before, pkts, after, mk) && pkts == Wires(false, ms + [m], |ms|)
    ensures OnWire(after, ms + [m])
  {
    hide AreSent, Wires, StripAll;
    SentStripped(before, pkts, after, mk);
    AllWiresNext(ms, m);
    StripAppend(AllWires(ms), Wires(false, ms + [m], |ms|));
  }

  /** Numbered fragments travel as the wires of the message they belong to. */
  lemma NumberedWires(ms: seq<Message>, m: Message, frags: seq<LpPacket>, begin: nat)
    requires |m.frags| > 1 && |frags| == |m.frags| && begin == Wrap(FIRST_SEQ + Claimed(false, ms, m.endpoint))
    requires forall i :: 0 <= i < |frags| ==> frags[i] == Sequenced(m.frags[i], begin, i)
    ensures frags == Wires(false, ms + [m], |ms|)
  {
    hide Wrap, Claimed;
    assert (ms + [m])[..|ms|] == ms;
    forall i | 0 <= i < |frags| ensures frags[i] == Wire(false, ms + [m], |ms|, i) {
      WrapPlus(FIRST_SEQ + Claimed(false, ms, m.endpoint), i);
    }
  }

  lemma ClaimedSingle(ms: seq<Message>, m: Message)
    ensures Claimed(false, ms + [m], m.endpoint) == Claimed(false, ms, m.endpoint) + Claim(false, m)
  {
    assert (ms + [m])[..|ms|] == ms;
  }

  /** The messages of one host, as its link service made them. */
  ghost predicate Made(ms: seq<Message>, endpoint: nat, nMaxFragments: nat) {
    forall k :: 0 <= k < |ms| ==> ms[k].endpoint == endpoint && WellFormedMessage(ms[k], nMaxFragments)
  }

  ghost predicate IsNetPacket(p: LpPacket) {
    p.fragment.Some? && p.fragIndex.None? && p.fragCount.None?
  }

  /** What a packet handed to the link service adds to the messages of the host, if it is sent. */
  lemma NewMessage(s0: seq<LpPacket>, frags: seq<LpPacket>, s1: seq<LpPacket>, mk: Marking,
                   ms: seq<Message>, endpoint: nat, pkt: LpPacket, begin: nat, nMaxFragments: nat) returns (m: Message)
    requires IsNetPacket(pkt) && Made(ms, endpoint, nMaxFragments) && OnWire(s0, ms) && AreSent(s0, frags, s1, mk)
    requires begin == Wrap(FIRST_SEQ + Claimed(false, ms, endpoint))
    requires frags == [pkt] || Numbered(pkt, frags, begin)
    requires 1 <= |frags| <= nMaxFragments < MOD
    ensures m.packet == pkt && Made(ms + [m], endpoint, nMaxFragments) && OnWire(s1, ms + [m])
    ensures Claimed(false, ms + [m], endpoint) == Claimed(false, ms, endpoint) + if |frags| > 1 then |frags| else 0
  {
    hide Wrap, Claimed, OnWire, AreSent, Wire, IsFragmentation;
    if frags == [pkt] {
      m := Message(endpoint, pkt, [pkt]);
      SingleWire(ms, m);
    } else {
      var plain :| IsFragmentation(pkt, plain) && |plain| == |frags|
                   && forall i :: 0 <= i < |frags| ==> frags[i] == Sequenced(plain[i], begin, i);
      m := Message(endpoint, pkt, plain);
      AtLeastTwo(pkt, plain);
      NumberedWires(ms, m, frags, begin);
    }
    ClaimedSingle(ms, m);
    MessageSent(s0, frags, s1, mk, ms, m);
  }

  lemma AtLeastTwo(pkt: LpPacket, plain: seq<LpPacket>)
    requires IsFragmentation(pkt, plain)
    ensures |plain| >= 2
  {
  }

  lemma SingleWire(ms: seq<Message>, m: Message)
    requires m.frags == [m.packet]
    ensures Wires(false, ms + [m], |ms|) == [m.packet]
  {
  }

  /** The state of a sender that has put the messages `ms` on the wire. */
  ghost predicate HasSent(s: GenericLinkService, endpoint: nat, ms: seq<Message>)
    reads s
  {
    && s.Valid() && Made(ms, endpoint, s.nMaxFragments) && OnWire(s.wire, ms)
    && s.lastSeqNo == Wrap(FIRST_SEQ + Claimed(false, ms, endpoint))
  }

  ghost predicate CanSend(s: GenericLinkService) {
    && 1 <= s.nMaxFragments < MOD
    && (s.mtu.Some? && s.allowCongestionMarking ==> s.mtu.value >= CONGESTION_MARK_SIZE)
  }

  /** Sends one network packet: a further message, or one that is counted as failed or over the MTU. */
  method SendMessage(s: GenericLinkService, endpoint: nat, pkt: LpPacket, readings: nat -> Reading, ghost ms: seq<Message>)
    returns (ghost ms': seq<Message>)
    requires HasSent(s, endpoint, ms) && CanSend(s) && IsNetPacket(pkt)
    modifies s
    ensures HasSent(s, endpoint, ms')
    ensures ms' == ms || (|ms'| == |ms| + 1 && ms'[..|ms|] == ms && ms'[|ms|].packet == pkt)
    ensures |ms'| - |ms| + (s.nFragmentationErrors - old(s.nFragmentationErrors)) + (s.nOutOverMtu - old(s.nOutOverMtu)) == 1
  {
    hide Wrap, Claimed, OnWire, AreSent, Made, Numbered, FitsUnfragmented, FragCount, HeaderSize, FitsHowever, Size, Readings, s.Valid;
    ghost var mk := s.Upcoming(readings);
    ghost var begin := s.lastSeqNo;
    ghost var frags := s.SendNetPacket(pkt, readings);
    ms' := ms;
    if frags == [] {
      NothingMore(old(s.wire), s.wire, mk);
    } else if s.nOutOverMtu == old(s.nOutOverMtu) {
      ghost var m := NewMessage(old(s.wire), frags, s.wire, mk, ms, endpoint, pkt, begin, s.nMaxFragments);
      WrapPlus(FIRST_SEQ + Claimed(false, ms, endpoint), |frags|);
      ms' := ms + [m];
    }
  }

  lemma NothingMore(before: seq<LpPacket>, after: seq<LpPacket>, m: Marking)
    requires AreSent(before, [], after, m)
    ensures before == after
  {
    assert after == after[..|before|];
  }

  lemma NothingOnWire(s: GenericLinkService, endpoint: nat)
    requires s.Valid() && s.wire == [] && s.lastSeqNo == FIRST_SEQ
    ensures HasSent(s, endpoint, [])
  {
    hide s.Valid;
  }

  /** Sends network packets one after the other. What is then on the wire are the fragments, marked or
      not, of the messages of one host; the other packets failed to fragment or were over the MTU. */
  method SendMessages(s: GenericLinkService, endpoint: nat, pkts: seq<LpPacket>, readings: nat -> nat -> Reading)
    returns (ghost ms: seq<Message>)
    requires s.Valid() && s.wire == [] && s.lastSeqNo == FIRST_SEQ && CanSend(s)
    requires forall i :: 0 <= i < |pkts| ==> IsNetPacket(pkts[i])
    modifies s
    ensures HasSent(s, endpoint, ms)
    ensures |ms| + (s.nFragmentationErrors - old(s.nFragmentationErrors)) + (s.nOutOverMtu - old(s.nOutOverMtu)) == |pkts|
    ensures forall k :: 0 <= k < |ms| ==> ms[k].packet in pkts
  {
    hide HasSent, s.Valid, CanSend;
    ms := [];
    NothingOnWire(s, endpoint);
    for n := 0 to |pkts|
      invariant HasSent(s, endpoint, ms)
      invariant |ms| + (s.nFragmentationErrors - old(s.nFragmentationErrors)) + (s.nOutOverMtu - old(s.nOutOverMtu)) == n
      invariant forall k :: 0 <= k < |ms| ==> ms[k].packet in pkts
    {
      ms := SendMessage(s, endpoint, pkts[n], readings(n), ms);
    }
  }
}
