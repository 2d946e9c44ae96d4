/** Fragmentation and reassembly undo each other: for every arrival order, interleaving, duplication
    and timeout, the reassembler delivers exactly the messages whose fragments are complete. */
module RoundTrip {
  import opened Wrappers
  import opened Sequence64
  import opened LpPackets
  import opened LpFragmenter
  import opened LpReassemblerModel

  /** A network packet as sent by the host at `endpoint`: its link packet and the fragments made of it. */
  datatype Message = Message(endpoint: nat, packet: LpPacket, frags: seq<LpPacket>)

  /** How many sequence numbers a message claims; unfragmented ones need none without reliability. */
  function Claim(reliable: bool, m: Message): nat {
    if reliable || |m.frags| > 1 then |m.frags| else 0
  }

  /** Numbers claimed by the messages of one host. */
  function Claimed(reliable: bool, ms: seq<Message>, endpoint: nat): nat {
    if ms == [] then 0
    else
      Claimed(reliable, ms[..|ms| - 1], endpoint) +
      if ms[|ms| - 1].endpoint == endpoint then Claim(reliable, ms[|ms| - 1]) else 0
  }

  /** The counter of each link service starts at -2. */
  const FIRST_SEQ: nat := MOD - 2

  /** The number claimed first by the k-th message, before wrapping. Messages are listed in the order
      in which their workers' fetch_add took effect. */
  function Begin(reliable: bool, ms: seq<Message>, k: nat): nat
    requires k < |ms|
  {
    FIRST_SEQ + Claimed(reliable, ms[..k], ms[k].endpoint)
  }

  /** The i-th fragment of the k-th message, as it travels. */
  function Wire(reliable: bool, ms: seq<Message>, k: nat, i: nat): LpPacket
    requires k < |ms| && i < |ms[k].frags|
  {
    if Claim(reliable, ms[k]) == 0 then ms[k].frags[i]
    else ms[k].frags[i].(sequence := Some(Wrap(Begin(reliable, ms, k) + i)))
  }

  ghost predicate WellFormedMessage(m: Message, nMaxFragments: nat) {
    && m.packet.fragment.Some? && m.packet.fragIndex.None? && m.packet.fragCount.None?
    && (m.frags == [m.packet] || IsFragmentation(m.packet, m.frags))
    && |m.frags| <= nMaxFragments < MOD
  }

  /** Messages as the fragmenter produces them, of sizes the receiver accepts, with at most 2^64
      sequence numbers claimed by each host. */
  ghost predicate World(reliable: bool, ms: seq<Message>, nMaxFragments: nat) {
    && (forall k :: 0 <= k < |ms| ==> WellFormedMessage(ms[k], nMaxFragments))
    && (forall e :: Claimed(reliable, ms, e) <= MOD)
  }

  // ---------------------------------------------------------------- claims

  lemma {:induction false} ClaimedMonotone(reliable: bool, ms: seq<Message>, k: nat, e: nat)
    requires k <= |ms|
    ensures Claimed(reliable, ms[..k], e) <= Claimed(reliable, ms, e)
    decreases |ms|
  {
    if k < |ms| {
      assert ms[..|ms| - 1][..k] == ms[..k];
      ClaimedMonotone(reliable, ms[..|ms| - 1], k, e);
    } else {
      assert ms[..k] == ms;
    }
  }

  lemma ClaimedNext(reliable: bool, ms: seq<Message>, k: nat)
    requires k < |ms|
    ensures Claimed(reliable, ms[..k + 1], ms[k].endpoint) ==
            Claimed(reliable, ms[..k], ms[k].endpoint) + Claim(reliable, ms[k])
  {
    assert ms[..k + 1][..k] == ms[..k];
  }

  /** Blocks of one host do not overlap, wrapped or not. */
  lemma BlocksDisjoint(reliable: bool, ms: seq<Message>, j: nat, k: nat, a: nat, b: nat)
    requires j < k < |ms| && ms[j].endpoint == ms[k].endpoint && Claimed(reliable, ms, ms[k].endpoint) <= MOD
    requires a < Claim(reliable, ms[j]) && b < Claim(reliable, ms[k])
    ensures Wrap(Begin(reliable, ms, j) + a) != Wrap(Begin(reliable, ms, k) + b)
  {
    hide Wrap, Claimed, Claim;
    var e := ms[k].endpoint;
    ClaimedNext(reliable, ms, j);
    ClaimedNext(reliable, ms, k);
    assert ms[..k][..j + 1] == ms[..j + 1];
    ClaimedMonotone(reliable, ms[..k], j + 1, e);
    ClaimedMonotone(reliable, ms, k + 1, e);
    if Wrap(Begin(reliable, ms, j) + a) == Wrap(Begin(reliable, ms, k) + b) {
      WrapInjective(Begin(reliable, ms, j) + a, Begin(reliable, ms, k) + b);
    }
  }

  function KeyFor(reliable: bool, ms: seq<Message>, k: nat): Key
    requires k < |ms|
  {
    Key(ms[k].endpoint, Wrap(Begin(reliable, ms, k)))
  }

  lemma KeysDistinct(reliable: bool, ms: seq<Message>, j: nat, k: nat)
    requires j < |ms| && k < |ms| && j != k && |ms[j].frags| > 1 && |ms[k].frags| > 1
    requires Claimed(reliable, ms, ms[k].endpoint) <= MOD
    ensures KeyFor(reliable, ms, j) != KeyFor(reliable, ms, k)
  {
    if ms[j].endpoint == ms[k].endpoint {
      if j < k {
        BlocksDisjoint(reliable, ms, j, k, 0, 0);
      } else {
        BlocksDisjoint(reliable, ms, k, j, 0, 0);
      }
    }
  }

  // ---------------------------------------------------------------- what should happen

  datatype Event = Arrive(message: nat, index: nat) | Timeout(message: nat)

  ghost predicate ValidEvent(ms: seq<Message>, e: Event) {
    && e.message < |ms|
    && (e.Arrive? ==> e.index < |ms[e.message].frags|)
    && (e.Timeout? ==> |ms[e.message].frags| > 1)
  }

  function Indices(n: nat): (r: set<nat>)
    ensures forall i: nat :: i in r <==> i < n
    ensures |r| == n
  {
    if n == 0 then {} else Indices(n - 1) + {n - 1}
  }

  /** The intended receiver: for each message the indices received since it was last delivered or
      timed out; a message is delivered when the last missing index arrives. */
  function Intended(reliable: bool, ms: seq<Message>, got: seq<set<nat>>, e: Event): (seq<set<nat>>, Delivery)
    requires |got| == |ms| && ValidEvent(ms, e)
  {
    var k := e.message;
    if e.Timeout? then (got[k := {}], Nothing)
    else if |ms[k].frags| == 1 then (got, Delivered(Payload(ms[k].packet), Wire(reliable, ms, k, 0)))
    else if e.index in got[k] then (got, Nothing)
    else if got[k] + {e.index} == Indices(|ms[k].frags|) then
      (got[k := {}], Delivered(Payload(ms[k].packet), Wire(reliable, ms, k, 0)))
    else (got[k := got[k] + {e.index}], Nothing)
  }

  /** What the reassembler does. */
  function Actual(reliable: bool, ms: seq<Message>, nMaxFragments: nat, parts: PartialPackets, e: Event): (PartialPackets, Delivery)
    requires ValidEvent(ms, e) && Slotted(parts)
  {
    var k := e.message;
    if e.Timeout? then (parts - {KeyFor(reliable, ms, k)}, Nothing)
    else Receive(parts, nMaxFragments, ms[k].endpoint, Wire(reliable, ms, k, e.index))
  }

  // ---------------------------------------------------------------- one message

  /** The partial packet holds exactly the received ones of the fragments `ws`. */
  ghost predicate Holds(pp: PartialPacket, ws: seq<LpPacket>, got: set<nat>) {
    && pp.fragCount == |ws| == |pp.fragments|
    && pp.nReceivedFragments == |got|
    && forall i :: 0 <= i < |ws| ==> pp.fragments[i] == if i in got then ws[i] else EMPTY
  }

  /** Under `key` the reassembler holds what has been received of `ws`. */
  ghost predicate Tracks(parts: PartialPackets, key: Key, ws: seq<LpPacket>, got: set<nat>) {
    && (key in parts <==> got != {})
    && (key in parts ==> Holds(parts[key], ws, got))
  }

  /** `ws` are the fragments of one message from `endpoint`, all leading to `key`. */
  ghost predicate SameMessage(ws: seq<LpPacket>, endpoint: nat, key: Key, nMaxFragments: nat) {
    && |ws| > 1
    && forall i :: 0 <= i < |ws| ==>
         Acceptable(ws[i], nMaxFragments) && IndexOf(ws[i]) == i && CountOf(ws[i]) == |ws| && KeyOf(endpoint, ws[i]) == key
  }

  lemma SubsetSize(a: set<nat>, n: nat)
    requires a <= Indices(n)
    ensures |a| <= n && (|a| == n <==> a == Indices(n))
  {
    var rest := Indices(n) - a;
    assert Indices(n) == a + rest && |Indices(n)| == |a| + |rest|;
  }

  ghost function Met(parts: PartialPackets, key: Key, n: nat): PartialPacket {
    if key in parts then parts[key] else NewPartial(n)
  }

  lemma MetHolds(parts: PartialPackets, key: Key, ws: seq<LpPacket>, got: set<nat>)
    requires Tracks(parts, key, ws, got)
    ensures Holds(Met(parts, key, |ws|), ws, got)
  {
  }

  lemma ReceiveInto(parts: PartialPackets, endpoint: nat, p: LpPacket, pp: PartialPacket, nMaxFragments: nat)
    requires Slotted(parts) && Acceptable(p, nMaxFragments)
    requires pp == Met(parts, KeyOf(endpoint, p), CountOf(p)) && pp.fragCount == CountOf(p)
    ensures |pp.fragments| == CountOf(p)
    ensures var key := KeyOf(endpoint, p);
            var fs := pp.fragments[IndexOf(p) := p];
            Receive(parts, nMaxFragments, endpoint, p) ==
              if pp.fragments[IndexOf(p)].sequence.Some? then (parts, Nothing)
              else if pp.nReceivedFragments + 1 == CountOf(p) then (parts - {key}, Delivered(Payloads(fs), fs[0]))
              else (parts[key := PartialPacket(fs, CountOf(p), pp.nReceivedFragments + 1)], Nothing)
  {
    hide Payloads, KeyOf;
  }

  lemma HoldsMore(pp: PartialPacket, ws: seq<LpPacket>, got: set<nat>, i: nat)
    requires Holds(pp, ws, got) && i < |ws| && i !in got && got < Indices(|ws|)
    ensures var fs := pp.fragments[i := ws[i]];
            && (pp.nReceivedFragments + 1 == |ws| <==> got + {i} == Indices(|ws|))
            && (got + {i} == Indices(|ws|) ==> fs == ws)
            && Holds(PartialPacket(fs, |ws|, pp.nReceivedFragments + 1), ws, got + {i})
  {
    SubsetSize(got + {i}, |ws|);
    assert |got + {i}| == |got| + 1;
  }

  /** Receiving fragment i of a message: a repeat changes nothing, the last missing one delivers the
      message, any other is kept. */
  lemma ReceiveOne(parts: PartialPackets, endpoint: nat, key: Key, ws: seq<LpPacket>, got: set<nat>, i: nat, nMaxFragments: nat)
    requires Slotted(parts) && SameMessage(ws, endpoint, key, nMaxFragments) && i < |ws|
    requires got < Indices(|ws|) && Tracks(parts, key, ws, got)
    ensures var r := Receive(parts, nMaxFragments, endpoint, ws[i]);
            && (i in got ==> r == (parts, Nothing))
            && (i !in got && got + {i} == Indices(|ws|) ==> r == (parts - {key}, Delivered(Payloads(ws), ws[0])))
            && (i !in got && got + {i} != Indices(|ws|) ==>
                  && r.1 == Nothing && key in r.0 && r.0 == parts[key := r.0[key]]
                  && Holds(r.0[key], ws, got + {i}))
  {
    hide Payloads, Receive, KeyOf, Tracks, Indices;
    var pp := Met(parts, key, |ws|);
    MetHolds(parts, key, ws, got);
    assert Acceptable(ws[i], nMaxFragments) && IndexOf(ws[i]) == i && CountOf(ws[i]) == |ws|;
    ReceiveInto(parts, endpoint, ws[i], pp, nMaxFragments);
    if i !in got {
      HoldsMore(pp, ws, got, i);
    }
  }

  // ---------------------------------------------------------------- all messages

  /** The fragments of message k as they travel. */
  function Wires(reliable: bool, ms: seq<Message>, k: nat): (ws: seq<LpPacket>)
    requires k < |ms|
    ensures |ws| == |ms[k].frags| && forall i :: 0 <= i < |ws| ==> ws[i] == Wire(reliable, ms, k, i)
  {
    seq(|ms[k].frags|, i requires 0 <= i < |ms[k].frags| => Wire(reliable, ms, k, i))
  }

  lemma WiresAreOneMessage(reliable: bool, ms: seq<Message>, k: nat, nMaxFragments: nat)
    requires k < |ms| && WellFormedMessage(ms[k], nMaxFragments) && |ms[k].frags| > 1
    ensures SameMessage(Wires(reliable, ms, k), ms[k].endpoint, KeyFor(reliable, ms, k), nMaxFragments)
  {
    hide Wrap, Minus, Payloads, Claimed;
    var ws := Wires(reliable, ms, k);
    forall i | 0 <= i < |ws|
      ensures && Acceptable(ws[i], nMaxFragments) && IndexOf(ws[i]) == i && CountOf(ws[i]) == |ws|
              && KeyOf(ms[k].endpoint, ws[i]) == KeyFor(reliable, ms, k)
    {
      assert ms[k].frags[i] == Piece(ms[k].packet, i, |ws|, Payload(ms[k].frags[i]));
      MinusInverse(Begin(reliable, ms, k), i);
    }
  }

  lemma {:induction false} PayloadsEqual(xs: seq<LpPacket>, ys: seq<LpPacket>)
    requires |xs| == |ys| && forall i :: 0 <= i < |xs| ==> Payload(xs[i]) == Payload(ys[i])
    ensures Payloads(xs) == Payloads(ys)
  {
    if xs != [] {
      PayloadsEqual(xs[..|xs| - 1], ys[..|ys| - 1]);
    }
  }

  /** The complete fragments reassemble to the packet that was fragmented. */
  lemma WiresAreOriginal(reliable: bool, ms: seq<Message>, k: nat, nMaxFragments: nat)
    requires k < |ms| && WellFormedMessage(ms[k], nMaxFragments) && |ms[k].frags| > 1
    ensures Payloads(Wires(reliable, ms, k)) == Payload(ms[k].packet)
  {
    PayloadsEqual(Wires(reliable, ms, k), ms[k].frags);
  }

  ghost predicate RelatedAt(reliable: bool, ms: seq<Message>, parts: PartialPackets, got: seq<set<nat>>, k: nat)
    requires k < |ms| == |got|
  {
    && got[k] < Indices(|ms[k].frags|)
    && (|ms[k].frags| > 1 ==> Tracks(parts, KeyFor(reliable, ms, k), Wires(reliable, ms, k), got[k]))
  }

  ghost predicate Related(reliable: bool, ms: seq<Message>, parts: PartialPackets, got: seq<set<nat>>) {
    && |got| == |ms| && Slotted(parts)
    && forall k :: 0 <= k < |ms| ==> RelatedAt(reliable, ms, parts, got, k)
  }

  /** A step that touches only the key of message k leaves the other messages alone. */
  lemma OthersUntouched(reliable: bool, ms: seq<Message>, parts: PartialPackets, parts': PartialPackets,
                        got: seq<set<nat>>, got': seq<set<nat>>, k: nat)
    requires Related(reliable, ms, parts, got) && k < |ms| && |ms[k].frags| > 1 && Slotted(parts')
    requires forall e :: Claimed(reliable, ms, e) <= MOD
    requires |got'| == |got| && forall j :: 0 <= j < |ms| && j != k ==> got'[j] == got[j]
    requires forall key :: key != KeyFor(reliable, ms, k) ==>
               (key in parts' <==> key in parts) && (key in parts ==> parts'[key] == parts[key])
    requires RelatedAt(reliable, ms, parts', got', k)
    ensures Related(reliable, ms, parts', got')
  {
    hide Indices, Wires, KeyFor, Holds, Claimed, Wrap;
    forall j | 0 <= j < |ms| ensures RelatedAt(reliable, ms, parts', got', j) {
      if j != k {
        assert RelatedAt(reliable, ms, parts, got, j);
        if |ms[j].frags| > 1 { KeysDistinct(reliable, ms, j, k); }
      }
    }
  }

  lemma ArriveStep(reliable: bool, ms: seq<Message>, parts: PartialPackets, got: seq<set<nat>>, k: nat, i: nat, nMaxFragments: nat)
    requires World(reliable, ms, nMaxFragments) && Related(reliable, ms, parts, got)
    requires k < |ms| && i < |ms[k].frags| && |ms[k].frags| > 1
    ensures Actual(reliable, ms, nMaxFragments, parts, Arrive(k, i)).1 == Intended(reliable, ms, got, Arrive(k, i)).1
    ensures Related(reliable, ms, Actual(reliable, ms, nMaxFragments, parts, Arrive(k, i)).0,
                    Intended(reliable, ms, got, Arrive(k, i)).0)
  {
    hide Indices, KeyFor, Holds, Claimed, Wrap, Wire, Receive, WellFormedMessage, Payloads, SameMessage;
    assert RelatedAt(reliable, ms, parts, got, k) && WellFormedMessage(ms[k], nMaxFragments);
    var ws := Wires(reliable, ms, k);
    WiresAreOneMessage(reliable, ms, k, nMaxFragments);
    WiresAreOriginal(reliable, ms, k, nMaxFragments);
    ReceiveOne(parts, ms[k].endpoint, KeyFor(reliable, ms, k), ws, got[k], i, nMaxFragments);
    var r := Actual(reliable, ms, nMaxFragments, parts, Arrive(k, i));
    var a := Intended(reliable, ms, got, Arrive(k, i));
    assert RelatedAt(reliable, ms, r.0, a.0, k) by { EmptyIsPart(|ws|); }
    OthersUntouched(reliable, ms, parts, r.0, got, a.0, k);
  }

  lemma EmptyIsPart(n: nat)
    requires n > 0
    ensures {} < Indices(n)
  {
    assert 0 in Indices(n);
  }

  lemma Step(reliable: bool, ms: seq<Message>, parts: PartialPackets, got: seq<set<nat>>, e: Event, nMaxFragments: nat)
    requires World(reliable, ms, nMaxFragments) && Related(reliable, ms, parts, got) && ValidEvent(ms, e)
    ensures Actual(reliable, ms, nMaxFragments, parts, e).1 == Intended(reliable, ms, got, e).1
    ensures Related(reliable, ms, Actual(reliable, ms, nMaxFragments, parts, e).0, Intended(reliable, ms, got, e).0)
  {
    hide Indices, KeyFor, Holds, Claimed, Wrap;
    var k := e.message;
    assert RelatedAt(reliable, ms, parts, got, k) && WellFormedMessage(ms[k], nMaxFragments);
    if e.Timeout? {
      EmptyIsPart(|ms[k].frags|);
      assert RelatedAt(reliable, ms, parts - {KeyFor(reliable, ms, k)}, got[k := {}], k);
      OthersUntouched(reliable, ms, parts, parts - {KeyFor(reliable, ms, k)}, got, got[k := {}], k);
    } else if |ms[k].frags| > 1 {
      ArriveStep(reliable, ms, parts, got, k, e.index, nMaxFragments);
    }
  }

  // ---------------------------------------------------------------- whole runs

  ghost predicate ValidEvents(ms: seq<Message>, es: seq<Event>) {
    forall i :: 0 <= i < |es| ==> ValidEvent(ms, es[i])
  }

  function RunActual(reliable: bool, ms: seq<Message>, nMaxFragments: nat, es: seq<Event>): (r: (PartialPackets, seq<Delivery>))
    requires ValidEvents(ms, es)
    ensures Slotted(r.0)
  {
    if es == [] then (map[], [])
    else
      var r := RunActual(reliable, ms, nMaxFragments, es[..|es| - 1]);
      var s := Actual(reliable, ms, nMaxFragments, r.0, es[|es| - 1]);
      (s.0, r.1 + [s.1])
  }

  function RunIntended(reliable: bool, ms: seq<Message>, es: seq<Event>): (r: (seq<set<nat>>, seq<Delivery>))
    requires ValidEvents(ms, es)
    ensures |r.0| == |ms| && |r.1| == |es|
  {
    if es == [] then (seq(|ms|, k => {}), [])
    else
      var r := RunIntended(reliable, ms, es[..|es| - 1]);
      var s := Intended(reliable, ms, r.0, es[|es| - 1]);
      (s.0, r.1 + [s.1])
  }

  /** The round trip: whatever arrives in whatever order, with repeats and timeouts, the reassembler
      delivers exactly what the intended receiver delivers, packet by packet. */
  lemma {:induction false} DeliversExactly(reliable: bool, ms: seq<Message>, nMaxFragments: nat, es: seq<Event>)
    requires World(reliable, ms, nMaxFragments) && ValidEvents(ms, es)
    ensures RunActual(reliable, ms, nMaxFragments, es).1 == RunIntended(reliable, ms, es).1
    ensures Related(reliable, ms, RunActual(reliable, ms, nMaxFragments, es).0, RunIntended(reliable, ms, es).0)
    decreases |es|
  {
    hide World, Actual, Intended, Tracks;
    if es == [] {
      NothingYet(reliable, ms, nMaxFragments);
    } else {
      var n := |es| - 1;
      DeliversExactly(reliable, ms, nMaxFragments, es[..n]);
      Step(reliable, ms, RunActual(reliable, ms, nMaxFragments, es[..n]).0, RunIntended(reliable, ms, es[..n]).0,
           es[n], nMaxFragments);
    }
  }

  lemma NothingYet(reliable: bool, ms: seq<Message>, nMaxFragments: nat)
    requires World(reliable, ms, nMaxFragments)
    ensures Related(reliable, ms, map[], seq(|ms|, k => {}))
  {
    hide KeyFor, Wires;
    var none: seq<set<nat>> := seq(|ms|, k => {});
    forall k | 0 <= k < |ms| ensures RelatedAt(reliable, ms, map[], none, k) {
      assert WellFormedMessage(ms[k], nMaxFragments);
      EmptyIsPart(|ms[k].frags|);
    }
  }

  /** The indices of message k that arrived. */
  function Arrived(es: seq<Event>, k: nat): set<nat> {
    if es == [] then {}
    else
      var e := es[|es| - 1];
      Arrived(es[..|es| - 1], k) + if e.Arrive? && e.message == k then {e.index} else {}
  }

  /** No delivery at an event of message k. */
  ghost predicate Silent(es: seq<Event>, out: seq<Delivery>, k: nat) {
    |out| == |es| && forall t :: 0 <= t < |es| && es[t].message == k ==> out[t] == Nothing
  }

  /** One event that leaves message k incomplete. */
  lemma StillIncomplete(reliable: bool, ms: seq<Message>, got: seq<set<nat>>, e: Event, k: nat)
    requires |got| == |ms| && ValidEvent(ms, e) && k < |ms| && |ms[k].frags| > 1 && e != Timeout(k)
    requires got[k] < Indices(|ms[k].frags|)
    requires e.Arrive? && e.message == k ==> got[k] + {e.index} != Indices(|ms[k].frags|)
    ensures Intended(reliable, ms, got, e).0[k] == got[k] + (if e.Arrive? && e.message == k then {e.index} else {})
    ensures Intended(reliable, ms, got, e).0[k] < Indices(|ms[k].frags|)
    ensures e.message == k ==> Intended(reliable, ms, got, e).1 == Nothing
  {
    hide Wire;
  }

  lemma {:induction false} IncompleteSoFar(reliable: bool, ms: seq<Message>, es: seq<Event>, k: nat)
    requires ValidEvents(ms, es) && k < |ms| && |ms[k].frags| > 1
    requires Timeout(k) !in es && Arrived(es, k) != Indices(|ms[k].frags|)
    ensures Arrived(es, k) < Indices(|ms[k].frags|)
    ensures RunIntended(reliable, ms, es).0[k] == Arrived(es, k)
    ensures Silent(es, RunIntended(reliable, ms, es).1, k)
    decreases |es|
  {
    hide Intended, Indices;
    if es == [] {
      EmptyIsPart(|ms[k].frags|);
    } else {
      var n := |es| - 1;
      assert ValidEvent(ms, es[n]) && es[n] in es && Timeout(k) !in es[..n];
      ArrivedGrows(ms, es, k);
      IncompleteSoFar(reliable, ms, es[..n], k);
      StillIncomplete(reliable, ms, RunIntended(reliable, ms, es[..n]).0, es[n], k);
    }
  }

  lemma ArrivedGrows(ms: seq<Message>, es: seq<Event>, k: nat)
    requires ValidEvents(ms, es) && es != [] && k < |ms|
    ensures Arrived(es[..|es| - 1], k) == Indices(|ms[k].frags|) ==> Arrived(es, k) == Indices(|ms[k].frags|)
  {
    assert ValidEvent(ms, es[|es| - 1]);
  }

  /** A fragmented message is delivered, with its original bytes and the headers of its first
      fragment, at the moment its last missing fragment arrives, and not before. */
  lemma DeliveredWhenComplete(reliable: bool, ms: seq<Message>, nMaxFragments: nat, es: seq<Event>, k: nat)
    requires World(reliable, ms, nMaxFragments) && ValidEvents(ms, es) && k < |ms| && |ms[k].frags| > 1
    requires es != [] && Timeout(k) !in es
    requires Arrived(es, k) == Indices(|ms[k].frags|) != Arrived(es[..|es| - 1], k)
    ensures var out := RunActual(reliable, ms, nMaxFragments, es).1;
            && |out| == |es|
            && out[|es| - 1] == Delivered(Payload(ms[k].packet), Wire(reliable, ms, k, 0))
            && Silent(es[..|es| - 1], out[..|es| - 1], k)
  {
    hide Wire, Payload, World, Related, Actual;
    var n := |es| - 1;
    var before := es[..n];
    assert Timeout(k) !in before;
    DeliversExactly(reliable, ms, nMaxFragments, es);
    IncompleteSoFar(reliable, ms, before, k);
    assert ValidEvent(ms, es[n]);
    var r := RunIntended(reliable, ms, before);
    var s := Intended(reliable, ms, r.0, es[n]);
    assert RunIntended(reliable, ms, es) == (s.0, r.1 + [s.1]);
    assert (r.1 + [s.1])[..n] == r.1;
  }
}
