/** What one end encodes, the other reads back: numbers, elements and streams of elements. */
module StreamRoundTrip {
  import opened Wrappers
  import opened LpPackets
  import opened StreamTransportModel

  // ---------------------------------------------------------------- numbers

  function Power256(k: nat): nat {
    if k == 0 then 1 else 256 * Power256(k - 1)
  }

  /** The last k octets of a number, most significant first. */
  function Octets(n: nat, k: nat): bytes {
    if k == 0 then [] else Octets(n / 256, k - 1) + [n % 256]
  }

  lemma {:induction false} OctetsReadBack(n: nat, k: nat)
    requires n < Power256(k)
    ensures |Octets(n, k)| == k && BigEndian(Octets(n, k)) == n
  {
    if k > 0 {
      OctetsReadBack(n / 256, k - 1);
      assert Octets(n, k)[..k - 1] == Octets(n / 256, k - 1);
    }
  }

  lemma Powers()
    ensures Power256(2) == 0x1_0000 && Power256(4) == 0x1_0000_0000 && Power256(8) == 0x1_0000_0000_0000_0000
  {
    assert Power256(2) == 256 * Power256(1);
    assert Power256(4) == 256 * Power256(3);
    assert Power256(6) == 256 * Power256(5);
    assert Power256(8) == 256 * Power256(7);
  }

  /** A VAR-NUMBER in the fewest octets. */
  function EncodeVarNumber(n: nat): bytes {
    if n < 253 then [n]
    else if n <= 0xFFFF then [253] + Octets(n, 2)
    else if n <= 0xFFFF_FFFF then [254] + Octets(n, 4)
    else [255] + Octets(n, 8)
  }

  lemma ReadLong(first: byte, octets: bytes, rest: bytes)
    requires first >= 253 && |octets| == MoreOctets(first)
    ensures ReadVarNumber([first] + octets + rest) == Some(VarNumber(BigEndian(octets), 1 + |octets|))
  {
    assert ([first] + octets + rest)[1..1 + |octets|] == octets;
  }

  /** A number written in its 1, 3, 5 or 9 octets is read back, whatever follows. */
  lemma VarNumberReadBack(n: nat, rest: bytes)
    requires n <= 0xFFFF_FFFF_FFFF_FFFF
    ensures |EncodeVarNumber(n)| == VarSize(n)
    ensures ReadVarNumber(EncodeVarNumber(n) + rest) == Some(VarNumber(n, VarSize(n)))
  {
    hide ReadVarNumber, Octets, BigEndian, Power256;
    Powers();
    if n < 253 {
      ReadShort(n, rest);
    } else if n <= 0xFFFF {
      OctetsReadBack(n, 2);
      ReadLong(253, Octets(n, 2), rest);
    } else if n <= 0xFFFF_FFFF {
      OctetsReadBack(n, 4);
      ReadLong(254, Octets(n, 4), rest);
    } else {
      OctetsReadBack(n, 8);
      ReadLong(255, Octets(n, 8), rest);
    }
  }

  lemma ReadShort(n: byte, rest: bytes)
    requires n < 253
    ensures ReadVarNumber([n] + rest) == Some(VarNumber(n, 1))
  {
  }

  // ---------------------------------------------------------------- elements

  datatype Element = Element(kind: nat, value: bytes)

  function Encode(e: Element): bytes {
    EncodeVarNumber(e.kind) + EncodeVarNumber(|e.value|) + e.value
  }

  /** The TLV-TYPE is legal and the element is no larger than a packet may be. */
  ghost predicate IsLegal(e: Element) {
    0 < e.kind <= 0xFFFF_FFFF && |Encode(e)| <= MAX_NDN_PACKET_SIZE
  }

  lemma ElementReadBack(e: Element)
    requires IsLegal(e)
    ensures ElementSize(Encode(e)) == Some(|Encode(e)|)
  {
    hide ReadVarNumber, EncodeVarNumber, VarSize;
    var length := EncodeVarNumber(|e.value|);
    VarNumberReadBack(e.kind, length + e.value);
    VarNumberReadBack(|e.value|, e.value);
    assert Encode(e) == EncodeVarNumber(e.kind) + (length + e.value);
    assert Encode(e)[VarSize(e.kind)..] == length + e.value;
  }

  // ---------------------------------------------------------------- streams

  function Encodings(es: seq<Element>): (r: seq<bytes>)
    ensures |r| == |es| && forall i :: 0 <= i < |es| ==> r[i] == Encode(es[i])
  {
    if es == [] then [] else Encodings(es[..|es| - 1]) + [Encode(es[|es| - 1])]
  }

  lemma ConcatNothing()
    ensures Concat([]) == []
  {
  }

  lemma {:induction false} ConcatFront(s: bytes, rest: seq<bytes>)
    ensures Concat([s] + rest) == s + Concat(rest)
  {
    var n := |rest|;
    if n == 0 {
      assert Concat([s]) == Concat([s][..0]) + s;
    } else {
      assert ([s] + rest)[..n] == [s] + rest[..n - 1];
      ConcatFront(s, rest[..n - 1]);
      assert s + Concat(rest[..n - 1]) + rest[n - 1] == s + (Concat(rest[..n - 1]) + rest[n - 1]);
    }
  }

  lemma Regroup(s: bytes, n: nat, a: bytes, b: bytes)
    requires n <= |s| && a + b == s[n..]
    ensures s[..n] + a + b == s
  {
    assert s[..n] + a + b == s[..n] + (a + b);
  }

  /** A parse loses no byte: the elements and the rest, in order, are the stream. */
  lemma {:induction false} GreedyKeepsBytes(s: bytes)
    ensures Concat(Greedy(s).elements) + Greedy(s).rest == s
    decreases |s|
  {
    hide ElementSize, Window, Concat;
    match ElementSize(Window(s))
    case None =>
      ConcatNothing();
    case Some(n) =>
      var p := Greedy(s[n..]);
      GreedyKeepsBytes(s[n..]);
      ConcatFront(s[..n], p.elements);
      Regroup(s, n, Concat(p.elements), p.rest);
  }

  lemma GreedyOne(e: Element)
    requires IsLegal(e)
    ensures Greedy(Encode(e)) == Parse([Encode(e)], [])
  {
    ElementReadBack(e);
    GreedyFront(Encode(e));
    assert Encode(e)[..|Encode(e)|] == Encode(e) && Encode(e)[|Encode(e)|..] == [];
    GreedyNothing();
  }

  /** A stream of legal elements is cut into exactly these elements. */
  lemma {:induction false} StreamReadBack(es: seq<Element>)
    requires forall e :: e in es ==> IsLegal(e)
    ensures Greedy(Concat(Encodings(es))) == Parse(Encodings(es), [])
  {
    hide Greedy, Encode, IsLegal;
    if es == [] {
      GreedyNothing();
    } else {
      var n := |es| - 1;
      StreamReadBack(es[..n]);
      assert Encodings(es)[..n] == Encodings(es[..n]);
      GreedyResumes(Concat(Encodings(es[..n])), Encode(es[n]));
      assert [] + Encode(es[n]) == Encode(es[n]);
      GreedyOne(es[n]);
    }
  }

  /** Bytes that begin with a whole legal element have it in sight. */
  lemma ElementInSight(e: Element, s: bytes)
    requires IsLegal(e) && Encode(e) <= s
    ensures ElementSize(Window(s)).Some?
  {
    hide ElementSize, Encode;
    ElementReadBack(e);
    GreedyFront(Encode(e));
    assert Encode(e) + s[|Encode(e)|..] == s;
    WindowStable(Encode(e), s[|Encode(e)|..]);
  }

  /** A stream of which a part has arrived: the elements that are complete, and the beginning of the
      next one. */
  ghost predicate IsSoFar(es: seq<Element>, st: Stream) {
    var n := |st.delivered|;
    && n <= |es| && st.delivered == Encodings(es)[..n] && !st.failed
    && (if n == |es| then st.buffer == [] else st.buffer < Encode(es[n]))
  }

  lemma {:induction false} ConcatSplit(a: seq<bytes>, b: seq<bytes>)
    ensures Concat(a + b) == Concat(a) + Concat(b)
    decreases |b|
  {
    if b == [] {
      assert a + b == a;
    } else {
      var n := |b| - 1;
      assert (a + b)[..|a| + n] == a + b[..n];
      ConcatSplit(a, b[..n]);
      assert Concat(a) + Concat(b[..n]) + b[n] == Concat(a) + (Concat(b[..n]) + b[n]);
    }
  }

  lemma Cancel(a: bytes, b: bytes, c: bytes, d: bytes)
    requires a + b + c == a + d
    ensures b + c == d
  {
    assert (a + b + c)[|a|..] == b + c;
    assert (a + d)[|a|..] == d;
  }

  lemma FrontOfRest(es: seq<Element>, n: nat, before: seq<bytes>, rest: bytes, t: bytes)
    requires n < |es| && before == Encodings(es)[..n] && Concat(before) + rest + t == Concat(Encodings(es))
    ensures Encode(es[n]) <= rest + t
  {
    hide Encode, Encodings, Concat;
    var later := Encodings(es)[n..];
    assert before + later == Encodings(es) && later == [Encode(es[n])] + later[1..];
    ConcatSplit(before, later);
    ConcatFront(Encode(es[n]), later[1..]);
    Cancel(Concat(before), rest, t, Concat(later));
  }

  lemma NeverStuck(es: seq<Element>, s: bytes, t: bytes)
    requires forall e :: e in es ==> IsLegal(e)
    requires s + t == Concat(Encodings(es))
    ensures |Greedy(s).rest| < MAX_NDN_PACKET_SIZE
  {
    hide Greedy, Encode, IsLegal, Encodings;
    StreamReadBack(es);
    if |Greedy(s).rest| >= MAX_NDN_PACKET_SIZE {
      StuckForever(s, t);
    }
  }

  /** The receiver of a stream of legal elements, cut into chunks anywhere, has at any time delivered
      exactly the elements that have arrived whole, and never fails. */
  lemma DeliversWhatWasSent(es: seq<Element>, chunks: seq<bytes>, t: bytes)
    requires forall e :: e in es ==> IsLegal(e)
    requires ValidChunks(chunks) && Concat(chunks) + t == Concat(Encodings(es))
    ensures IsSoFar(es, Run(chunks))
  {
    hide Greedy, Encode, IsLegal, ValidChunks, Run, Window, ElementSize, Concat;
    var s := Concat(chunks);
    var p := Greedy(s);
    var n := |p.elements|;
    RunIsGreedy(chunks);
    NeverStuck(es, s, t);
    StreamReadBack(es);
    GreedyResumes(s, t);
    assert Encodings(es)[..n] == p.elements;
    GreedyKeepsBytes(s);
    if n < |es| {
      FrontOfRest(es, n, p.elements, p.rest, t);
      if |p.rest| >= |Encode(es[n])| {
        assert Encode(es[n]) <= p.rest;
        ElementInSight(es[n], p.rest);
      }
    } else {
      AllArrived(es, s, t);
    }
  }

  /** If all elements have been delivered, nothing is left over. */
  lemma AllArrived(es: seq<Element>, s: bytes, t: bytes)
    requires s + t == Concat(Encodings(es)) && Greedy(s).elements == Encodings(es)
    ensures Greedy(s).rest == []
  {
    hide Greedy, Encodings, Concat;
    GreedyKeepsBytes(s);
    assert |Concat(Encodings(es))| + |Greedy(s).rest| == |s|;
  }
}
