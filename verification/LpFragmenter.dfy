/** LpFragmenter: splits a packet into fragments that fit the MTU with a sequence number added. */
module LpFragmenter {
  import opened Wrappers
  import opened LpPackets

  /** LpPacket, Sequence and Fragment overhead of an unfragmented packet. */
  const MAX_SINGLE_FRAG_OVERHEAD := (1 + 9) + (1 + 1 + 8) + (1 + 9)

  /** LpPacket, Sequence, FragIndex, FragCount and Fragment overhead of a fragment. */
  const MAX_FRAG_OVERHEAD := (1 + 9) + (1 + 1 + 8) + (1 + 1 + 8) + (1 + 1 + 8) + (1 + 9)

  /** The number of fragments of size p that r octets need, as the source computes it. */
  function Pieces(r: nat, p: nat): nat
    requires p > 0
  {
    r / p + if r % p != 0 then 1 else 0
  }

  lemma PiecesStep(r: nat, p: nat)
    requires p > 0 && r > 0
    ensures Pieces(r, p) == 1 + Pieces(if r < p then 0 else r - p, p)
  {
    if r < p {
      DivMod(r, p, 0, r);
      DivMod(0, p, 0, 0);
    } else {
      var q, m := r / p, r % p;
      assert r == p * q + m;
      assert r - p == p * (q - 1) + m;
      DivMod(r - p, p, q - 1, m);
    }
  }

  lemma DivMod(n: nat, p: nat, q: nat, m: nat)
    requires p > 0 && n == p * q + m && m < p
    ensures n / p == q && n % p == m
  {
    var d := n / p - q;
    assert p * d == m - n % p;
  }

  /** Room for payload in the first fragment, next to the packet's own headers. */
  function FirstPayloadSize(packet: LpPacket, mtu: nat): nat
    requires mtu >= MAX_FRAG_OVERHEAD + HeaderSize(packet)
  {
    var room := mtu - HeaderSize(packet) - MAX_FRAG_OVERHEAD;
    if |Payload(packet)| < room then |Payload(packet)| else room
  }

  function FragCount(packet: LpPacket, mtu: nat): nat
    requires mtu > MAX_FRAG_OVERHEAD + HeaderSize(packet)
  {
    1 + Pieces(|Payload(packet)| - FirstPayloadSize(packet, mtu), mtu - MAX_FRAG_OVERHEAD)
  }

  predicate FitsUnfragmented(packet: LpPacket, mtu: nat) {
    MAX_SINGLE_FRAG_OVERHEAD + Size(packet) <= mtu
  }

  /** A packet that does not fit keeps more octets than the first fragment can carry. */
  lemma SlowPathSplits(packet: LpPacket, mtu: nat)
    requires packet.fragment.Some? && !FitsUnfragmented(packet, mtu)
    requires mtu > MAX_FRAG_OVERHEAD + HeaderSize(packet)
    ensures FirstPayloadSize(packet, mtu) == mtu - HeaderSize(packet) - MAX_FRAG_OVERHEAD < |Payload(packet)|
    ensures FragCount(packet, mtu) >= 2
  {
    PiecesStep(|Payload(packet)| - FirstPayloadSize(packet, mtu), mtu - MAX_FRAG_OVERHEAD);
  }

  /** The index-th of `count` fragments of `packet`, carrying `payload`. */
  function Piece(packet: LpPacket, index: nat, count: nat, payload: bytes): LpPacket {
    (if index == 0 then packet else EMPTY).(
      fragIndex := Some(index), fragCount := Some(count), fragment := Some(payload))
  }

  /** `frags` are non-empty numbered pieces of `packet`, whose payloads concatenate to its payload,
      and the packet's other fields are on the first piece. */
  ghost predicate IsFragmentation(packet: LpPacket, frags: seq<LpPacket>) {
    && |frags| >= 2
    && (forall i :: 0 <= i < |frags| ==>
          && frags[i] == Piece(packet, i, |frags|, Payload(frags[i]))
          && Payload(frags[i]) != [])
    && Payloads(frags) == Payload(packet)
  }

  /** Of the first n fragments, the first carries `first` octets, every other but the last `size`. */
  ghost predicate Sized(frags: seq<LpPacket>, n: nat, first: nat, size: nat) {
    forall i :: 0 <= i < n <= |frags| ==>
      && (i == 0 ==> |Payload(frags[i])| == first)
      && (0 < i < |frags| - 1 ==> |Payload(frags[i])| == size)
  }

  /** With a sequence number, fragment `p` encodes within the MTU. */
  predicate FitsWithSequence(p: LpPacket, mtu: nat) {
    Size(p.(sequence := Some(0))) <= mtu
  }

  lemma PieceFits(packet: LpPacket, mtu: nat, index: nat, count: nat, payload: bytes)
    requires packet.fragment.Some? && packet.fragIndex.None? && packet.fragCount.None?
    requires |payload| + MAX_FRAG_OVERHEAD + (if index == 0 then HeaderSize(packet) else 0) <= mtu
    ensures FitsWithSequence(Piece(packet, index, count, payload), mtu)
    ensures Size(Piece(packet, index, count, payload)) <= mtu
  {
  }

  /** The first n of `count` fragments are finished, the others as they were created. */
  ghost predicate Filled(packet: LpPacket, frags: seq<LpPacket>, n: nat, mtu: nat) {
    && (forall i :: n <= i < |frags| ==> frags[i] == if i == 0 then packet else EMPTY)
    && (forall i :: 0 <= i < n <= |frags| ==>
          && frags[i] == Piece(packet, i, |frags|, Payload(frags[i]))
          && Payload(frags[i]) != []
          && FitsWithSequence(frags[i], mtu) && Size(frags[i]) <= mtu)
  }

  lemma FillNext(packet: LpPacket, frags: seq<LpPacket>, n: nat, mtu: nat, payload: bytes, first: nat, size: nat)
    requires packet.fragment.Some? && packet.fragIndex.None? && packet.fragCount.None?
    requires n < |frags| && Filled(packet, frags, n, mtu) && payload != []
    requires |payload| + MAX_FRAG_OVERHEAD + (if n == 0 then HeaderSize(packet) else 0) <= mtu
    requires Sized(frags, n, first, size)
    requires (n == 0 ==> |payload| == first) && (0 < n < |frags| - 1 ==> |payload| == size)
    ensures var frag := frags[n].(fragIndex := Some(n), fragCount := Some(|frags|), fragment := Some(payload));
            && Sized(frags[n := frag], n + 1, first, size)
            && Filled(packet, frags[n := frag], n + 1, mtu)
            && Payloads(frags[n := frag][..n + 1]) == Payloads(frags[..n]) + payload
  {
    hide Size, HeaderSize;
    PieceFits(packet, mtu, n, |frags|, payload);
    PayloadsPush(frags, n, Piece(packet, n, |frags|, payload));
  }

  lemma PayloadsPush(frags: seq<LpPacket>, i: nat, p: LpPacket)
    requires i < |frags|
    ensures Payloads(frags[i := p][..i + 1]) == Payloads(frags[..i]) + Payload(p)
  {
    assert frags[i := p][..i + 1][..i] == frags[..i];
  }

  lemma FilledAtStart(packet: LpPacket, count: nat, mtu: nat, first: nat, size: nat)
    requires count > 0
    ensures Filled(packet, seq(count, i => EMPTY)[0 := packet], 0, mtu)
    ensures Sized(seq(count, i => EMPTY)[0 := packet], 0, first, size)
  {
  }

  lemma NoPieces(p: nat)
    requires p > 0
    ensures forall r: nat :: Pieces(r, p) == 0 <==> r == 0
  {
    DivMod(0, p, 0, 0);
    forall r: nat | r > 0 ensures Pieces(r, p) > 0 { PiecesStep(r, p); }
  }

  lemma FilledIsFragmentation(packet: LpPacket, frags: seq<LpPacket>, mtu: nat)
    requires |frags| >= 2 && Filled(packet, frags, |frags|, mtu) && Payloads(frags) == Payload(packet)
    ensures IsFragmentation(packet, frags)
    ensures forall i :: 0 <= i < |frags| ==> FitsWithSequence(frags[i], mtu) && Size(frags[i]) <= mtu
  {
  }

  /** The loop that fills the fragments; it uses exactly `fragCount` of them. */
  method Populate(packet: LpPacket, mtu: nat, firstPayloadSize: nat, fragCount: nat) returns (frags: seq<LpPacket>)
    requires packet.fragment.Some? && packet.fragIndex.None? && packet.fragCount.None? && mtu > MAX_FRAG_OVERHEAD
    requires 0 < firstPayloadSize < |packet.fragment.value|
    requires firstPayloadSize + HeaderSize(packet) + MAX_FRAG_OVERHEAD <= mtu
    requires fragCount == 1 + Pieces(|packet.fragment.value| - firstPayloadSize, mtu - MAX_FRAG_OVERHEAD) >= 2
    ensures |frags| == fragCount && IsFragmentation(packet, frags)
    ensures Sized(frags, |frags|, firstPayloadSize, mtu - MAX_FRAG_OVERHEAD)
    ensures forall i :: 0 <= i < |frags| ==> FitsWithSequence(frags[i], mtu) && Size(frags[i]) <= mtu
  {
    hide Size, HeaderSize, Pieces, Filled, Sized, Piece, IsFragmentation;
    var netPkt := packet.fragment.value;
    var payloadSize := mtu - MAX_FRAG_OVERHEAD;
    frags := seq(fragCount, i => EMPTY)[0 := packet];
    FilledAtStart(packet, fragCount, mtu, firstPayloadSize, payloadSize);
    var fragIndex := 0;
    var fragBegin, fragEnd := 0, firstPayloadSize;
    while fragBegin < |netPkt|
      invariant fragIndex <= fragCount == |frags|
      invariant fragBegin <= fragEnd <= |netPkt| && (fragBegin < |netPkt| ==> fragBegin < fragEnd)
      invariant fragIndex == 0 ==> fragBegin == 0 && fragEnd == firstPayloadSize
      invariant fragIndex > 0 ==> fragEnd == if |netPkt| < fragBegin + payloadSize then |netPkt| else fragBegin + payloadSize
      invariant fragIndex > 0 ==> fragCount - fragIndex == Pieces(|netPkt| - fragBegin, payloadSize)
      invariant Filled(packet, frags, fragIndex, mtu) && Sized(frags, fragIndex, firstPayloadSize, payloadSize)
      invariant Payloads(frags[..fragIndex]) == netPkt[..fragBegin]
      decreases |netPkt| - fragBegin
    {
      PiecesStep(|netPkt| - fragBegin, payloadSize);
      NoPieces(payloadSize);
      FillNext(packet, frags, fragIndex, mtu, netPkt[fragBegin..fragEnd], firstPayloadSize, payloadSize);
      assert netPkt[..fragEnd] == netPkt[..fragBegin] + netPkt[fragBegin..fragEnd];
      var frag := frags[fragIndex].(fragIndex := Some(fragIndex), fragCount := Some(fragCount),
                                    fragment := Some(netPkt[fragBegin..fragEnd]));
      frags := frags[fragIndex := frag];
      fragIndex := fragIndex + 1;
      fragBegin := fragEnd;
      fragEnd := if |netPkt| < fragBegin + payloadSize then |netPkt| else fragBegin + payloadSize;
    }
    NoPieces(payloadSize);
    assert frags[..fragCount] == frags && netPkt[..fragBegin] == netPkt;
    FilledIsFragmentation(packet, frags, mtu);
  }

  /** Fails exactly when the first fragment has no room for payload or there are too many fragments. */
  method FragmentPacket(packet: LpPacket, mtu: nat, nMaxFragments: nat) returns (ok: bool, frags: seq<LpPacket>)
    requires packet.fragment.Some? && packet.fragIndex.None? && packet.fragCount.None?
    ensures FitsUnfragmented(packet, mtu) ==> ok && frags == [packet]
    ensures !FitsUnfragmented(packet, mtu) ==>
              (ok <==> mtu > MAX_FRAG_OVERHEAD + HeaderSize(packet) && FragCount(packet, mtu) <= nMaxFragments)
    ensures !FitsUnfragmented(packet, mtu) && ok ==>
              && IsFragmentation(packet, frags)
              && |frags| == FragCount(packet, mtu)
              && Sized(frags, |frags|, FirstPayloadSize(packet, mtu), mtu - MAX_FRAG_OVERHEAD)
              && forall i :: 0 <= i < |frags| ==> FitsWithSequence(frags[i], mtu) && Size(frags[i]) <= mtu
    ensures !ok ==> frags == []
  {
    if MAX_SINGLE_FRAG_OVERHEAD + Size(packet) <= mtu {
      return true, [packet];
    }
    var netPkt := packet.fragment.value;
    var firstHeaderSize := HeaderSize(packet);
    if MAX_FRAG_OVERHEAD + firstHeaderSize + 1 > mtu {
      return false, [];
    }
    var room := mtu - firstHeaderSize - MAX_FRAG_OVERHEAD;
    var firstPayloadSize := if |netPkt| < room then |netPkt| else room;
    var payloadSize := mtu - MAX_FRAG_OVERHEAD;
    var fragCount := 1 + Pieces(|netPkt| - firstPayloadSize, payloadSize);
    if fragCount > nMaxFragments {
      return false, [];
    }
    SlowPathSplits(packet, mtu);
    frags := Populate(packet, mtu, firstPayloadSize, fragCount);
    ok := true;
  }
}
