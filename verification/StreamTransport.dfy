/** StreamTransport: cuts a byte stream, received in chunks of any size, into TLV elements. */
module StreamTransportModel {
  import opened Wrappers
  import opened LpPackets

  // ---------------------------------------------------------------- TLV elements

  function BigEndian(s: bytes): nat {
    if s == [] then 0 else 256 * BigEndian(s[..|s| - 1]) + s[|s| - 1]
  }

  /** Octets after the first one of a VAR-NUMBER. */
  function MoreOctets(first: byte): nat {
    if first < 253 then 0 else if first == 253 then 2 else if first == 254 then 4 else 8
  }

  datatype VarNumber = VarNumber(value: nat, size: nat)

  /** Reads a VAR-NUMBER from the front of `s`. */
  function ReadVarNumber(s: bytes): (r: Option<VarNumber>)
    ensures r.Some? ==> 1 <= r.value.size <= |s|
  {
    if s == [] then None
    else
      var n := MoreOctets(s[0]);
      if |s| < 1 + n then None
      else Some(VarNumber(if n == 0 then s[0] else BigEndian(s[1..1 + n]), 1 + n))
  }

  /** Size of the element at the front of `s`, if it is complete and its TLV-TYPE is legal. */
  function ElementSize(s: bytes): (r: Option<nat>)
    ensures r.Some? ==> 0 < r.value <= |s|
  {
    match ReadVarNumber(s)
    case None => None
    case Some(t) =>
      if t.value == 0 || t.value > 0xFFFF_FFFF then None
      else
        match ReadVarNumber(s[t.size..])
        case None => None
        case Some(len) =>
          if len.value > |s| - t.size - len.size then None else Some(t.size + len.size + len.value)
  }

  lemma ReadVarNumberStable(s: bytes, t: bytes)
    requires ReadVarNumber(s).Some?
    ensures ReadVarNumber(s + t) == ReadVarNumber(s)
  {
    var n := MoreOctets(s[0]);
    assert (s + t)[1..1 + n] == s[1..1 + n];
  }

  /** More bytes behind an element do not change it. */
  lemma ElementStable(s: bytes, t: bytes)
    requires ElementSize(s).Some?
    ensures ElementSize(s + t) == ElementSize(s)
  {
    var k := ReadVarNumber(s).value.size;
    ReadVarNumberStable(s, t);
    assert (s + t)[k..] == s[k..] + t;
    ReadVarNumberStable(s[k..], t);
  }

  lemma ReadVarNumberPrefix(s: bytes, n: nat)
    requires n <= |s| && ReadVarNumber(s).Some? && ReadVarNumber(s).value.size <= n
    ensures ReadVarNumber(s[..n]) == ReadVarNumber(s)
  {
    assert s[..n][1..ReadVarNumber(s).value.size] == s[1..ReadVarNumber(s).value.size];
  }

  /** An element is determined by its own bytes. */
  lemma ElementPrefix(s: bytes, n: nat)
    requires n <= |s| && ElementSize(s).Some? && ElementSize(s).value <= n
    ensures ElementSize(s[..n]) == ElementSize(s)
  {
    var k := ReadVarNumber(s).value.size;
    ReadVarNumberPrefix(s, n);
    assert s[..n][k..] == s[k..][..n - k];
    ReadVarNumberPrefix(s[k..], n - k);
  }

  // ---------------------------------------------------------------- one greedy parse

  datatype Parse = Parse(elements: seq<bytes>, rest: bytes)

  /** The part of a stream that fits into the receive buffer. */
  function Window(s: bytes): (w: bytes)
    ensures |w| <= |s|
  {
    if |s| <= MAX_NDN_PACKET_SIZE then s else s[..MAX_NDN_PACKET_SIZE]
  }

  /** Elements of a whole stream, looking no further than one buffer ahead. */
  function Greedy(s: bytes): (p: Parse)
    ensures p.rest == [] || ElementSize(Window(p.rest)).None?
    ensures |p.rest| <= |s| && (p.elements == [] ==> p.rest == s)
    decreases |s|
  {
    match ElementSize(Window(s))
    case None => Parse([], s)
    case Some(n) =>
      var p := Greedy(s[n..]);
      Parse([s[..n]] + p.elements, p.rest)
  }

  /** An element in sight stays in sight, and the same, when more bytes follow. */
  lemma WindowStable(s: bytes, t: bytes)
    requires ElementSize(Window(s)).Some?
    ensures ElementSize(Window(s + t)) == ElementSize(Window(s))
  {
    var n := ElementSize(Window(s)).value;
    if |s| <= MAX_NDN_PACKET_SIZE {
      ElementStable(s, t);
      if |s + t| > MAX_NDN_PACKET_SIZE {
        ElementPrefix(s + t, MAX_NDN_PACKET_SIZE);
      }
    } else {
      assert Window(s + t) == Window(s);
    }
  }

  /** A parse may be interrupted anywhere and taken up again from its rest. */
  lemma {:induction false} GreedyResumes(s: bytes, t: bytes)
    ensures var p := Greedy(s);
            var q := Greedy(p.rest + t);
            Greedy(s + t) == Parse(p.elements + q.elements, q.rest)
    decreases |s|
  {
    hide ElementSize, Window;
    match ElementSize(Window(s))
    case None =>
      assert Greedy(s) == Parse([], s);
      assert [] + Greedy(s + t).elements == Greedy(s + t).elements;
    case Some(n) =>
      WindowStable(s, t);
      assert (s + t)[n..] == s[n..] + t && (s + t)[..n] == s[..n];
      GreedyResumes(s[n..], t);
      var p := Greedy(s[n..]);
      var q := Greedy(p.rest + t);
      assert [s[..n]] + (p.elements + q.elements) == ([s[..n]] + p.elements) + q.elements;
  }

  /** With a full buffer and no element at its front, nothing that follows helps. */
  lemma StuckForever(s: bytes, t: bytes)
    requires |Greedy(s).rest| >= MAX_NDN_PACKET_SIZE
    ensures Greedy(s + t).elements == Greedy(s).elements
    ensures |Greedy(s + t).rest| >= MAX_NDN_PACKET_SIZE
  {
    GreedyResumes(s, t);
    var rest := Greedy(s).rest;
    assert Window(rest + t) == Window(rest);
  }

  // ---------------------------------------------------------------- runs of receives

  /** The transport between receives. */
  datatype Stream = Stream(buffer: bytes, delivered: seq<bytes>, failed: bool)

  const START := Stream([], [], false)

  /** One receive: the elements in the buffer are delivered; a full buffer without any is a failure. */
  function OnReceive(st: Stream, chunk: bytes): Stream {
    var p := Greedy(st.buffer + chunk);
    Stream(p.rest, st.delivered + p.elements, |p.rest| == MAX_NDN_PACKET_SIZE)
  }

  function Concat(chunks: seq<bytes>): bytes {
    if chunks == [] then [] else Concat(chunks[..|chunks| - 1]) + chunks[|chunks| - 1]
  }

  function Run(chunks: seq<bytes>): Stream {
    if chunks == [] then START else OnReceive(Run(chunks[..|chunks| - 1]), chunks[|chunks| - 1])
  }

  /** Each receive happens on a transport that is up and fills at most the free part of the buffer. */
  ghost predicate ValidChunks(chunks: seq<bytes>) {
    forall k :: 0 <= k < |chunks| ==>
      !Run(chunks[..k]).failed && |Run(chunks[..k]).buffer| + |chunks[k]| <= MAX_NDN_PACKET_SIZE
  }

  lemma GreedyNothing()
    ensures Greedy([]) == Parse([], [])
  {
  }

  lemma GreedyFront(s: bytes)
    requires |s| <= MAX_NDN_PACKET_SIZE
    ensures match ElementSize(s)
            case None => Greedy(s) == Parse([], s)
            case Some(n) => Greedy(s) == Parse([s[..n]] + Greedy(s[n..]).elements, Greedy(s[n..]).rest)
  {
  }

  /** However the stream was cut, what has been delivered and what is buffered are those of one
      greedy parse of all bytes received, and the transport failed exactly when a full buffer has
      no element at its front. */
  lemma {:induction false} RunIsGreedy(chunks: seq<bytes>)
    requires ValidChunks(chunks)
    ensures var p := Greedy(Concat(chunks));
            Run(chunks) == Stream(p.rest, p.elements, |p.rest| == MAX_NDN_PACKET_SIZE)
    ensures |Run(chunks).buffer| <= MAX_NDN_PACKET_SIZE
    ensures !Run(chunks).failed ==> MAX_NDN_PACKET_SIZE - |Run(chunks).buffer| > 0
  {
    hide Greedy;
    if chunks == [] {
      GreedyNothing();
    } else {
      var n := |chunks| - 1;
      var before := chunks[..n];
      assert ValidChunks(before) by {
        forall k | 0 <= k < |before|
          ensures !Run(before[..k]).failed && |Run(before[..k]).buffer| + |before[k]| <= MAX_NDN_PACKET_SIZE
        {
          assert before[..k] == chunks[..k];
        }
      }
      RunIsGreedy(before);
      GreedyResumes(Concat(before), chunks[n]);
    }
  }

  /** Chunk independence: two ways of cutting the same bytes lead to the same state. */
  lemma ChunkIndependence(chunks1: seq<bytes>, chunks2: seq<bytes>)
    requires ValidChunks(chunks1) && ValidChunks(chunks2) && Concat(chunks1) == Concat(chunks2)
    ensures Run(chunks1) == Run(chunks2)
  {
    RunIsGreedy(chunks1);
    RunIsGreedy(chunks2);
  }

  /** After a failure the elements delivered are all that the whole stream will ever have. */
  lemma FailureIsFinal(chunks: seq<bytes>, more: bytes)
    requires ValidChunks(chunks) && Run(chunks).failed
    ensures Greedy(Concat(chunks) + more).elements == Run(chunks).delivered
  {
    RunIsGreedy(chunks);
    StuckForever(Concat(chunks), more);
  }

  // ---------------------------------------------------------------- the transport

  datatype TransportState = Up | Failed

  class StreamTransport {
    const receiveBuffer: array<byte>
    var receiveBufferSize: nat
    var state: TransportState
    var received: seq<bytes>               // elements passed on, in order

    ghost predicate Valid()
      reads this
    {
      receiveBuffer.Length == MAX_NDN_PACKET_SIZE && receiveBufferSize <= MAX_NDN_PACKET_SIZE
    }

    /** The fields as a state between receives. */
    ghost function View(): Stream
      requires Valid()
      reads this, receiveBuffer
    {
      Stream(receiveBuffer[..receiveBufferSize], received, state == Failed)
    }

    constructor ()
      ensures Valid() && fresh(receiveBuffer) && View() == START
    {
      receiveBuffer := new byte[MAX_NDN_PACKET_SIZE];
      receiveBufferSize, state, received := 0, Up, [];
    }

    /** Delivers the elements at the front of the buffer; returns where the first incomplete one starts. */
    method ParseElements() returns (offset: nat, isOk: bool)
      requires Valid()
      modifies this`received
      ensures offset <= receiveBufferSize
      ensures var p := Greedy(receiveBuffer[..receiveBufferSize]);
              && receiveBuffer[offset..receiveBufferSize] == p.rest && received == old(received) + p.elements
              && (isOk <==> p.rest == [])
    {
      hide ElementSize, Greedy;
      offset, isOk := 0, true;
      var buffer := receiveBuffer[..receiveBufferSize];
      assert buffer[0..] == buffer;
      ghost var done: seq<bytes> := [];
      while receiveBufferSize - offset > 0
        invariant offset <= receiveBufferSize && isOk && received == old(received) + done
        invariant Greedy(buffer) == Parse(done + Greedy(buffer[offset..]).elements, Greedy(buffer[offset..]).rest)
        decreases receiveBufferSize - offset
      {
        var s := buffer[offset..];
        GreedyFront(s);
        var n := ElementSize(s);
        isOk := n.Some?;
        if !isOk {
          assert done + [] == done;
          break;
        }
        assert s[n.value..] == buffer[offset + n.value..];
        ghost var later := Greedy(s[n.value..]);
        assert done + ([s[..n.value]] + later.elements) == (done + [s[..n.value]]) + later.elements;
        received := received + [s[..n.value]];
        done := done + [s[..n.value]];
        offset := offset + n.value;
      }
      GreedyNothing();
      assert buffer[offset..] == receiveBuffer[offset..receiveBufferSize];
      assert done + [] == done;
    }

    /** std::copy of the rest of the buffer to its front. */
    method MoveToFront(offset: nat)
      requires Valid() && offset <= receiveBufferSize
      modifies receiveBuffer
      ensures receiveBuffer[..receiveBufferSize - offset] == old(receiveBuffer[offset..receiveBufferSize])
    {
      for i := 0 to receiveBufferSize - offset
        invariant receiveBuffer[..i] == old(receiveBuffer[offset..offset + i])
        invariant receiveBuffer[i..receiveBufferSize] == old(receiveBuffer[i..receiveBufferSize])
      {
        assert receiveBuffer[offset + i] == receiveBuffer[i..receiveBufferSize][offset];
        receiveBuffer[i] := receiveBuffer[offset + i];
      }
    }

    /** The socket writes bytes into the free part of the buffer. */
    method Append(chunk: bytes)
      requires Valid() && receiveBufferSize + |chunk| <= MAX_NDN_PACKET_SIZE
      modifies this`receiveBufferSize, receiveBuffer
      ensures Valid() && receiveBuffer[..receiveBufferSize] == old(receiveBuffer[..receiveBufferSize]) + chunk
    {
      var start := receiveBufferSize;
      for i := 0 to |chunk|
        invariant receiveBufferSize == start + i <= MAX_NDN_PACKET_SIZE
        invariant receiveBuffer[..receiveBufferSize] == old(receiveBuffer[..receiveBufferSize]) + chunk[..i]
      {
        receiveBuffer[receiveBufferSize] := chunk[i];
        receiveBufferSize := receiveBufferSize + 1;
      }
      assert chunk[..|chunk|] == chunk;
    }

    /** Bytes have arrived. */
    method HandleReceive(chunk: bytes)
      requires Valid() && state == Up && receiveBufferSize + |chunk| <= MAX_NDN_PACKET_SIZE
      modifies this, receiveBuffer
      ensures Valid() && View() == OnReceive(old(View()), chunk)
    {
      hide Greedy;
      Append(chunk);
      ghost var p := Greedy(receiveBuffer[..receiveBufferSize]);
      var offset, isOk := ParseElements();
      if !isOk && receiveBufferSize == MAX_NDN_PACKET_SIZE && offset == 0 {
        state := Failed;
        assert receiveBuffer[offset..receiveBufferSize] == receiveBuffer[..receiveBufferSize];
        return;
      }
      if offset > 0 {
        if offset != receiveBufferSize {
          MoveToFront(offset);
          receiveBufferSize := receiveBufferSize - offset;
        } else {
          receiveBufferSize := 0;
        }
      }
      assert receiveBuffer[..receiveBufferSize] == p.rest;
    }
  }
}
