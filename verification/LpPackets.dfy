/** NDNLPv2 packets: the fields the link service works with, and their encoded size. */
module LpPackets {
  import opened Wrappers
  import opened Sequence64

  type byte = n: nat | n < 256
  type bytes = seq<byte>

  /** `others` holds the encoded header fields the link service only carries along
      (PitToken, Nack, NextHopFaceId, IncomingFaceId, CachePolicy, NonDiscovery, PrefixAnnouncement). */
  datatype LpPacket = LpPacket(
    fragment: Option<bytes>,
    sequence: Option<Seq64>,
    fragIndex: Option<nat>,
    fragCount: Option<nat>,
    congestionMark: Option<nat>,
    txSequence: Option<Seq64>,
    acks: seq<Seq64>,
    others: bytes)

  const EMPTY := LpPacket(None, None, None, None, None, None, [], [])

  const MAX_NDN_PACKET_SIZE := 8800

  /** Size of a TLV VAR-NUMBER. */
  function VarSize(n: nat): (r: nat)
    ensures r == 1 || r == 3 || r == 5 || r == 9
  {
    if n < 253 then 1 else if n <= 0xFFFF then 3 else if n <= 0xFFFF_FFFF then 5 else 9
  }

  /** Size of a nonNegativeInteger. */
  function NniSize(n: nat): (r: nat)
    ensures 1 <= r <= 8
  {
    if n <= 0xFF then 1 else if n <= 0xFFFF then 2 else if n <= 0xFFFF_FFFF then 4 else 8
  }

  const ACK_SIZE := 3 + 1 + 8

  /** Size of all elements but the Fragment. */
  function HeaderSize(p: LpPacket): nat {
    (if p.sequence.Some? then 1 + 1 + 8 else 0) +
    (if p.fragIndex.Some? then 1 + 1 + NniSize(p.fragIndex.value) else 0) +
    (if p.fragCount.Some? then 1 + 1 + NniSize(p.fragCount.value) else 0) +
    (if p.congestionMark.Some? then 3 + 1 + NniSize(p.congestionMark.value) else 0) +
    (if p.txSequence.Some? then 3 + 1 + 8 else 0) +
    ACK_SIZE * |p.acks| +
    |p.others|
  }

  function FragmentSize(p: LpPacket): nat {
    if p.fragment.Some? then 1 + VarSize(|p.fragment.value|) + |p.fragment.value| else 0
  }

  /** Encoded size. A packet without headers is sent as the bare network packet. */
  function Size(p: LpPacket): nat {
    if p.fragment.Some? && HeaderSize(p) == 0 then |p.fragment.value|
    else
      var inner := HeaderSize(p) + FragmentSize(p);
      1 + VarSize(inner) + inner
  }

  function Payload(p: LpPacket): bytes {
    if p.fragment.Some? then p.fragment.value else []
  }

  /** The payloads of the packets, in order. */
  function Payloads(ps: seq<LpPacket>): bytes {
    if ps == [] then [] else Payloads(ps[..|ps| - 1]) + Payload(ps[|ps| - 1])
  }
}
