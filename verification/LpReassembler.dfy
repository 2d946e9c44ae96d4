/** LpReassembler: collects the fragments of each message and delivers it when complete. */
module LpReassemblerModel {
  import opened Sequence64
  import opened LpPackets

  /** A message is identified by its sender and the Sequence of its first fragment. */
  datatype Key = Key(endpoint: nat, message: Seq64)
  datatype PartialPacket = PartialPacket(fragments: seq<LpPacket>, fragCount: nat, nReceivedFragments: nat)
  type PartialPackets = map<Key, PartialPacket>

  datatype Delivery = Nothing | Delivered(netPkt: bytes, firstFrag: LpPacket)

  /** Sequence minus FragIndex, in 64-bit arithmetic. */
  function Minus(s: Seq64, n: nat): Seq64 {
    Wrap(s + (MOD - n % MOD))
  }

  lemma MinusInverse(b: nat, i: nat)
    requires i < MOD
    ensures Minus(Wrap(b + i), i) == Wrap(b)
  {
    if Wrap(b) + i < MOD {
      WrapOf(b + i, b / MOD, Wrap(b) + i);
    } else {
      WrapOf(b + i, b / MOD + 1, Wrap(b) + i - MOD);
    }
  }

  function Blank(count: nat): (v: seq<LpPacket>)
    ensures |v| == count && forall i :: 0 <= i < count ==> v[i] == EMPTY
  {
    seq(count, i => EMPTY)
  }

  function NewPartial(count: nat): PartialPacket {
    PartialPacket(Blank(count), count, 0)
  }

  /** Each partial packet has one slot per fragment. */
  predicate Slotted(parts: PartialPackets) {
    forall k :: k in parts ==> |parts[k].fragments| == parts[k].fragCount
  }

  function IndexOf(p: LpPacket): nat {
    if p.fragIndex.Some? then p.fragIndex.value else 0
  }

  function CountOf(p: LpPacket): nat {
    if p.fragCount.Some? then p.fragCount.value else 1
  }

  /** A fragment that takes part in reassembly: numbered within its message, of a size allowed
      here, and carrying a Sequence. */
  predicate Acceptable(p: LpPacket, nMaxFragments: nat) {
    IndexOf(p) < CountOf(p) <= nMaxFragments && CountOf(p) > 1 && p.sequence.Some?
  }

  function KeyOf(endpoint: nat, p: LpPacket): Key
    requires p.sequence.Some?
  {
    Key(endpoint, Minus(p.sequence.value, IndexOf(p)))
  }

  /** What receiving one fragment does to the partial packets, and what it delivers. */
  function Receive(parts: PartialPackets, nMaxFragments: nat, endpoint: nat, p: LpPacket): (r: (PartialPackets, Delivery))
    requires Slotted(parts)
    ensures Slotted(r.0)
  {
    if IndexOf(p) == 0 && CountOf(p) == 1 && 1 <= nMaxFragments then (parts, Delivered(Payload(p), p))
    else if !Acceptable(p, nMaxFragments) then (parts, Nothing)
    else
      var key := KeyOf(endpoint, p);
      var pp := if key in parts && parts[key].fragCount != 0 then parts[key] else NewPartial(CountOf(p));
      if pp.fragCount != CountOf(p) || pp.fragments[IndexOf(p)].sequence.Some? then (parts, Nothing)
      else
        var fs := pp.fragments[IndexOf(p) := p];
        if pp.nReceivedFragments + 1 == pp.fragCount then (parts - {key}, Delivered(Payloads(fs), fs[0]))
        else (parts[key := PartialPacket(fs, pp.fragCount, pp.nReceivedFragments + 1)], Nothing)
  }

  lemma {:induction false} PayloadsPrefix(fs: seq<LpPacket>, k: nat)
    requires k <= |fs|
    ensures |Payloads(fs[..k])| <= |Payloads(fs)|
    decreases |fs|
  {
    if k < |fs| {
      assert fs[..|fs| - 1][..k] == fs[..k];
      PayloadsPrefix(fs[..|fs| - 1], k);
    } else {
      assert fs[..k] == fs;
    }
  }

  lemma PayloadsNext(fs: seq<LpPacket>, i: nat)
    requires i < |fs|
    ensures Payloads(fs[..i + 1]) == Payloads(fs[..i]) + Payload(fs[i])
    ensures |Payloads(fs[..i])| + |Payload(fs[i])| <= |Payloads(fs)|
  {
    assert fs[..i + 1][..i] == fs[..i];
    PayloadsPrefix(fs, i + 1);
  }

  class LpReassembler {
    const nMaxFragments: nat
    var partialPackets: PartialPackets
    var nTimeouts: nat

    constructor (nMaxFragments: nat)
      ensures this.nMaxFragments == nMaxFragments && partialPackets == map[] && nTimeouts == 0
    {
      this.nMaxFragments := nMaxFragments;
      partialPackets := map[];
      nTimeouts := 0;
    }

    /** std::copy: writes `payload` at position `start`; returns the position after it. */
    static method Copy(payload: bytes, buffer: array<byte>, start: nat) returns (it: nat)
      requires start + |payload| <= buffer.Length
      modifies buffer
      ensures it == start + |payload| && buffer[..it] == old(buffer[..start]) + payload
    {
      it := start;
      for j := 0 to |payload|
        invariant it == start + j && buffer[..it] == old(buffer[..start]) + payload[..j]
      {
        buffer[it] := payload[j];
        it := it + 1;
      }
      assert payload[..|payload|] == payload;
    }

    /** std::accumulate over the payload lengths. */
    static method PayloadSize(fragments: seq<LpPacket>) returns (size: nat)
      ensures size == |Payloads(fragments)|
    {
      size := 0;
      for i := 0 to |fragments|
        invariant size == |Payloads(fragments[..i])|
      {
        assert fragments[..i + 1][..i] == fragments[..i];
        size := size + |Payload(fragments[i])|;
      }
      assert fragments[..|fragments|] == fragments;
    }

    /** Concatenates the payloads of the fragments into one buffer. */
    static method DoReassembly(fragments: seq<LpPacket>) returns (netPkt: bytes)
      ensures netPkt == Payloads(fragments)
    {
      var payloadSize := PayloadSize(fragments);
      var buffer := new byte[payloadSize];
      var it: nat := 0;
      for i := 0 to |fragments|
        invariant it == |Payloads(fragments[..i])| <= buffer.Length && buffer[..it] == Payloads(fragments[..i])
      {
        PayloadsNext(fragments, i);
        it := Copy(Payload(fragments[i]), buffer, it);
      }
      assert fragments[..|fragments|] == fragments;
      netPkt := buffer[..];
    }

    method ReceiveFragment(endpoint: nat, packet: LpPacket) returns (r: Delivery)
      requires packet.fragment.Some? && Slotted(partialPackets)
      modifies this`partialPackets
      ensures Slotted(partialPackets)
      ensures (partialPackets, r) == Receive(old(partialPackets), nMaxFragments, endpoint, packet)
    {
      var fragIndex, fragCount := 0, 1;
      if packet.fragIndex.Some? {
        fragIndex := packet.fragIndex.value;
      }
      if packet.fragCount.Some? {
        fragCount := packet.fragCount.value;
      }
      if fragIndex >= fragCount {
        return Nothing;
      }
      if fragCount > nMaxFragments {
        return Nothing;
      }
      if fragIndex == 0 && fragCount == 1 {
        return Delivered(packet.fragment.value, packet);
      }
      if packet.sequence.None? {
        return Nothing;
      }
      var messageIdentifier := Minus(packet.sequence.value, fragIndex);
      var key := Key(endpoint, messageIdentifier);
      var pp := if key in partialPackets then partialPackets[key] else PartialPacket([], 0, 0);
      if pp.fragCount == 0 {
        pp := PartialPacket(Blank(fragCount), fragCount, 0);
      } else if fragCount != pp.fragCount {
        return Nothing;
      }
      if pp.fragments[fragIndex].sequence.Some? {
        return Nothing;
      }
      pp := PartialPacket(pp.fragments[fragIndex := packet], pp.fragCount, pp.nReceivedFragments + 1);
      if pp.nReceivedFragments == pp.fragCount {
        var reassembled := DoReassembly(pp.fragments);
        partialPackets := partialPackets - {key};
        return Delivered(reassembled, pp.fragments[0]);
      }
      partialPackets := partialPackets[key := pp];
      return Nothing;
    }

    /** The drop timer of a partial packet; it has no effect once the message is complete. */
    method TimeoutPartialPacket(key: Key)
      requires Slotted(partialPackets)
      modifies this`partialPackets, this`nTimeouts
      ensures Slotted(partialPackets) && partialPackets == old(partialPackets) - {key}
      ensures nTimeouts == old(nTimeouts) + if key in old(partialPackets) then 1 else 0
    {
      if key !in partialPackets {
        return;
      }
      nTimeouts := nTimeouts + 1;
      partialPackets := partialPackets - {key};
    }
  }
}
