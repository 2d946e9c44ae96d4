/** What the reassembler guarantees for any fragments whatever, well-formed or not, from any number
    of endpoints: it delivers nothing but complete messages put together from fragments that came. */
module ReassemblySafety {
  import opened LpPackets
  import opened LpReassemblerModel

  /** A fragment and where it came from. */
  datatype Arrival = Arrival(endpoint: nat, packet: LpPacket)

  datatype Event = Arrives(arrival: Arrival) | Expires(key: Key)

  /** `p` is fragment i of n of a message, and came from its endpoint. */
  ghost predicate IsPiece(came: seq<Arrival>, key: Key, p: LpPacket, i: nat, n: nat) {
    && Arrival(key.endpoint, p) in came
    && p.sequence.Some? && IndexOf(p) == i && CountOf(p) == n && KeyOf(key.endpoint, p) == key
  }

  /** How many slots are taken. */
  function Filled(fs: seq<LpPacket>): (n: nat)
    ensures n <= |fs|
  {
    if fs == [] then 0
    else Filled(fs[..|fs| - 1]) + if fs[|fs| - 1].sequence.Some? then 1 else 0
  }

  /** A message of which some, but not all, fragments came. */
  ghost predicate IsPartial(came: seq<Arrival>, key: Key, pp: PartialPacket, nMaxFragments: nat) {
    && 1 < |pp.fragments| == pp.fragCount <= nMaxFragments
    && 0 < pp.nReceivedFragments == Filled(pp.fragments) < pp.fragCount
    && forall i :: 0 <= i < pp.fragCount && pp.fragments[i].sequence.Some? ==>
         IsPiece(came, key, pp.fragments[i], i, pp.fragCount)
  }

  ghost predicate AllPartial(came: seq<Arrival>, parts: PartialPackets, nMaxFragments: nat) {
    forall k :: k in parts ==> IsPartial(came, k, parts[k], nMaxFragments)
  }

  /** The fragments of a message, complete and in order. */
  ghost predicate IsMessage(came: seq<Arrival>, key: Key, fs: seq<LpPacket>, nMaxFragments: nat) {
    && 1 < |fs| <= nMaxFragments
    && forall i :: 0 <= i < |fs| ==> IsPiece(came, key, fs[i], i, |fs|)
  }

  /** A packet that is a whole message by itself. */
  ghost predicate IsWhole(p: LpPacket, nMaxFragments: nat) {
    IndexOf(p) == 0 && CountOf(p) == 1 <= nMaxFragments
  }

  /** What is delivered when `a` comes is that packet itself, or a complete message it belongs to. */
  ghost predicate IsSound(came: seq<Arrival>, a: Arrival, d: Delivery, nMaxFragments: nat) {
    d.Delivered? ==>
      || (IsWhole(a.packet, nMaxFragments) && d == Delivered(Payload(a.packet), a.packet))
      || exists fs :: && a.packet in fs && d == Delivered(Payloads(fs), fs[0])
                      && a.packet.sequence.Some? && IsMessage(came, KeyOf(a.endpoint, a.packet), fs, nMaxFragments)
  }

  // ---------------------------------------------------------------- slots

  lemma {:induction false} FillOne(fs: seq<LpPacket>, i: nat, p: LpPacket)
    requires i < |fs| && fs[i].sequence.None? && p.sequence.Some?
    ensures Filled(fs[i := p]) == Filled(fs) + 1
    decreases |fs|
  {
    var n := |fs| - 1;
    if i < n {
      assert fs[i := p][..n] == fs[..n][i := p];
      FillOne(fs[..n], i, p);
    } else {
      assert fs[i := p][..n] == fs[..n];
    }
  }

  lemma {:induction false} AllFilled(fs: seq<LpPacket>)
    requires Filled(fs) == |fs|
    ensures forall i :: 0 <= i < |fs| ==> fs[i].sequence.Some?
  {
    if fs != [] {
      var n := |fs| - 1;
      AllFilled(fs[..n]);
      assert forall i :: 0 <= i < n ==> fs[..n][i] == fs[i];
    }
  }

  lemma {:induction false} NoneFilled(fs: seq<LpPacket>)
    requires forall i :: 0 <= i < |fs| ==> fs[i] == EMPTY
    ensures Filled(fs) == 0
  {
    if fs != [] {
      NoneFilled(fs[..|fs| - 1]);
    }
  }

  // ---------------------------------------------------------------- one fragment

  /** Pieces stay pieces when more comes. */
  lemma MoreCame(came: seq<Arrival>, a: Arrival, parts: PartialPackets, nMaxFragments: nat)
    requires AllPartial(came, parts, nMaxFragments)
    ensures AllPartial(came + [a], parts, nMaxFragments)
  {
    forall k | k in parts ensures IsPartial(came + [a], k, parts[k], nMaxFragments) {
      assert IsPartial(came, k, parts[k], nMaxFragments);
    }
  }

  /** The slots a fragment is put into: those of its message so far, or new ones. */
  ghost predicate AreSlots(came: seq<Arrival>, key: Key, pp: PartialPacket, n: nat) {
    && 1 < |pp.fragments| == pp.fragCount == n && pp.nReceivedFragments == Filled(pp.fragments) < n
    && forall i :: 0 <= i < n && pp.fragments[i].sequence.Some? ==> IsPiece(came, key, pp.fragments[i], i, n)
  }

  lemma NewSlots(came: seq<Arrival>, key: Key, n: nat)
    requires n > 1
    ensures AreSlots(came, key, NewPartial(n), n)
  {
    NoneFilled(Blank(n));
  }

  /** Putting a fragment into its slot leaves a partial message, or completes it. */
  lemma PutIn(came: seq<Arrival>, a: Arrival, pp: PartialPacket, nMaxFragments: nat)
    requires a in came && Acceptable(a.packet, nMaxFragments)
    requires AreSlots(came, KeyOf(a.endpoint, a.packet), pp, CountOf(a.packet))
    requires pp.fragments[IndexOf(a.packet)].sequence.None?
    ensures var key := KeyOf(a.endpoint, a.packet);
            var fs := pp.fragments[IndexOf(a.packet) := a.packet];
            if pp.nReceivedFragments + 1 == pp.fragCount then IsMessage(came, key, fs, nMaxFragments)
            else IsPartial(came, key, PartialPacket(fs, pp.fragCount, pp.nReceivedFragments + 1), nMaxFragments)
  {
    var key := KeyOf(a.endpoint, a.packet);
    var i := IndexOf(a.packet);
    var fs := pp.fragments[i := a.packet];
    FillOne(pp.fragments, i, a.packet);
    assert IsPiece(came, key, a.packet, i, pp.fragCount);
    if pp.nReceivedFragments + 1 == pp.fragCount {
      AllFilled(fs);
    }
  }

  /** One fragment, of any shape: partial messages stay partial messages, and a delivery is sound. */
  lemma ReceiveIsSound(came: seq<Arrival>, a: Arrival, parts: PartialPackets, nMaxFragments: nat)
    requires Slotted(parts) && AllPartial(came, parts, nMaxFragments)
    ensures var r := Receive(parts, nMaxFragments, a.endpoint, a.packet);
            AllPartial(came + [a], r.0, nMaxFragments) && IsSound(came + [a], a, r.1, nMaxFragments)
  {
    hide IsPiece, Filled;
    MoreCame(came, a, parts, nMaxFragments);
    var p := a.packet;
    if Acceptable(p, nMaxFragments) {
      var key := KeyOf(a.endpoint, p);
      var pp := if key in parts && parts[key].fragCount != 0 then parts[key] else NewPartial(CountOf(p));
      if key !in parts {
        NewSlots(came + [a], key, CountOf(p));
      } else {
        assert IsPartial(came + [a], key, parts[key], nMaxFragments);
      }
      if pp.fragCount == CountOf(p) && pp.fragments[IndexOf(p)].sequence.None? {
        PutIn(came + [a], a, pp, nMaxFragments);
        var fs := pp.fragments[IndexOf(p) := p];
        assert fs[IndexOf(p)] == p;
      }
    }
  }

  /** A fragment changes nothing, and is dropped, if and only if it is malformed, of a message that is
      too large here, without a Sequence, or at odds with what is known of its message. */
  lemma DroppedIff(came: seq<Arrival>, a: Arrival, parts: PartialPackets, nMaxFragments: nat)
    requires Slotted(parts) && AllPartial(came, parts, nMaxFragments)
    ensures var p := a.packet;
            Receive(parts, nMaxFragments, a.endpoint, p) == (parts, Nothing) <==>
              || IndexOf(p) >= CountOf(p)
              || CountOf(p) > nMaxFragments
              || (CountOf(p) > 1 && p.sequence.None?)
              || (CountOf(p) > 1 && KeyOf(a.endpoint, p) in parts
                  && var pp := parts[KeyOf(a.endpoint, p)];
                     pp.fragCount != CountOf(p) || pp.fragments[IndexOf(p)].sequence.Some?)
  {
    hide IsPiece, Filled;
    var p := a.packet;
    if Acceptable(p, nMaxFragments) {
      var key := KeyOf(a.endpoint, p);
      if key in parts {
        assert IsPartial(came, key, parts[key], nMaxFragments);
      }
    }
  }

  // ---------------------------------------------------------------- runs

  function CameBy(es: seq<Event>): seq<Arrival> {
    if es == [] then []
    else
      var e := es[|es| - 1];
      CameBy(es[..|es| - 1]) + if e.Arrives? then [e.arrival] else []
  }

  /** The partial packets after any fragments and timeouts, and what the last event delivered. */
  function After(es: seq<Event>, nMaxFragments: nat): (r: (PartialPackets, Delivery))
    ensures Slotted(r.0)
  {
    if es == [] then (map[], Nothing)
    else
      var parts := After(es[..|es| - 1], nMaxFragments).0;
      match es[|es| - 1]
      case Arrives(a) => Receive(parts, nMaxFragments, a.endpoint, a.packet)
      case Expires(key) => (parts - {key}, Nothing)
  }

  /** In every run only partial messages are kept, each of fragments that came from one endpoint with
      consecutive Sequences and one FragCount, and only whole messages are delivered. */
  lemma {:induction false} RunIsSound(es: seq<Event>, nMaxFragments: nat)
    ensures AllPartial(CameBy(es), After(es, nMaxFragments).0, nMaxFragments)
    ensures After(es, nMaxFragments).1.Delivered? ==>
              es[|es| - 1].Arrives? && IsSound(CameBy(es), es[|es| - 1].arrival, After(es, nMaxFragments).1, nMaxFragments)
  {
    hide Receive, IsPartial, IsSound;
    if es != [] {
      var n := |es| - 1;
      RunIsSound(es[..n], nMaxFragments);
      if es[n].Arrives? {
        ReceiveIsSound(CameBy(es[..n]), es[n].arrival, After(es[..n], nMaxFragments).0, nMaxFragments);
      } else {
        assert CameBy(es) == CameBy(es[..n]);
      }
    }
  }
}
