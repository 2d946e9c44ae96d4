/** Two hosts joined by a point-to-point FIFO link, each of which forwarded the same Interest to the
    other and to upstreams of its own that all return Nacks. */
module NackExchange {
  import opened Wrappers
  import opened ProcessNack

  /** The face of each host towards the other one. */
  const PEER: Face := 0

  datatype Packet = Interest(nonce: Nonce) | Nack(nonce: Nonce, reason: Reason)

  /** The point-to-point faces of a host, a PIT entry, and what has happened to it: which downstreams were answered, whether the peer's
      Interest arrived, whether the peer was sent a Nack, and whether the last Nack from the other
      upstreams came while the peer was a downstream. */
  datatype Host = Host(
    p2p: set<Face>,
    ins: InRecords,
    outs: OutRecords,
    answered: set<Face>,
    arrived: bool,
    nackedPeer: bool,
    inTime: bool)

  /** `link[h]` holds the packets on their way to host h, oldest first. */
  datatype World = World(host: seq<Host>, link: seq<seq<Packet>>)

  datatype Step =
    | ReceiveInterest(h: nat)
    | ReceiveNack(h: nat, decision: Decision)
    | UpstreamNack(h: nat, face: Face, reason: Reason, decision: Decision)

  function Other(h: nat): nat
    requires h < 2
  {
    1 - h
  }

  ghost predicate TwoHosts(w: World) {
    |w.host| == 2 && |w.link| == 2
  }

  function Record(outs: OutRecords, f: Face, r: Reason): OutRecords
    requires f in outs
  {
    outs[f := outs[f].(nack := Some(r))]
  }

  /** The other upstreams have all returned Nacks. */
  ghost predicate OthersNacked(x: Host) {
    Pending(x.outs) <= {PEER}
  }

  /** Sending the Nacks decided on: on point-to-point faces the in-record is erased, and the peer's
      Nack carries its Nonce; other faces get no Nack and keep their in-record. */
  function Answer(x: Host, d: Decision): Host
    requires d.ToOne? ==> d.face in x.ins
  {
    match d
    case Wait => x
    case ToOne(f, _) =>
      if f !in x.p2p then x
      else x.(ins := x.ins - {f}, answered := x.answered + {f}, nackedPeer := x.nackedPeer || f == PEER)
    case ToAll(_) =>
      x.(ins := x.ins - x.p2p, answered := x.answered + x.ins.Keys * x.p2p,
         nackedPeer := x.nackedPeer || (PEER in x.ins && PEER in x.p2p))
  }

  function NackToPeer(x: Host, d: Decision): seq<Packet> {
    if PEER in x.ins && PEER in x.p2p && (d.ToAll? || (d.ToOne? && d.face == PEER)) then [Nack(x.ins[PEER], d.reason)] else []
  }

  ghost predicate Enabled(w: World, s: Step)
    requires TwoHosts(w)
  {
    && s.h < 2
    && var x := w.host[s.h];
       var queue := w.link[s.h];
       match s
       case ReceiveInterest(_) => queue != [] && queue[0].Interest?
       case ReceiveNack(_, d) =>
         && queue != [] && queue[0].Nack?
         && (PEER in x.outs && queue[0].nonce == x.outs[PEER].nonce ==>
               Decided(Record(x.outs, PEER, queue[0].reason), x.ins, d))
       case UpstreamNack(_, f, r, d) =>
         f != PEER && f in x.p2p && f in Pending(x.outs) && Decided(Record(x.outs, f, r), x.ins, d)
  }

  /** The incoming Interest and Nack pipelines. An Interest that arrives while the entry is pending is
      recorded and suppressed; a Nack with another Nonce than the out-record's is dropped. */
  ghost function Apply(w: World, s: Step): World
    requires TwoHosts(w) && Enabled(w, s)
  {
    var h := s.h;
    var x := w.host[h];
    match s
    case ReceiveInterest(_) =>
      World(w.host[h := x.(ins := x.ins[PEER := w.link[h][0].nonce], arrived := true)], w.link[h := w.link[h][1..]])
    case ReceiveNack(_, d) =>
      var p := w.link[h][0];
      var w' := w.(link := w.link[h := w.link[h][1..]]);
      if PEER in x.outs && p.nonce == x.outs[PEER].nonce
      then Process(w', h, x.(outs := Record(x.outs, PEER, p.reason)), d)
      else w'
    case UpstreamNack(_, f, r, d) =>
      var outs := Record(x.outs, f, r);
      Process(w, h, x.(outs := outs, inTime := x.inTime || (PEER in x.ins && Pending(outs) <= {PEER})), d)
  }

  ghost function Process(w: World, h: nat, x: Host, d: Decision): World
    requires TwoHosts(w) && h < 2 && (d.ToOne? ==> d.face in x.ins)
  {
    World(w.host[h := Answer(x, d)], w.link[Other(h) := w.link[Other(h)] + NackToPeer(x, d)])
  }

  // ---------------------------------------------------------------- start

  /** Each host has sent the Interest, with its own Nonce, to the peer and to its other upstreams, all
      point-to-point since they are to return Nacks, and has its own downstreams, of any kind; the
      two Interests are on the link. */
  ghost predicate Start(w: World, nonces: seq<Nonce>) {
    && TwoHosts(w) && |nonces| == 2 && nonces[0] != nonces[1]
    && forall h :: 0 <= h < 2 ==>
         var x := w.host[h];
         && PEER !in x.ins && PEER in x.outs && x.outs[PEER].nonce == nonces[h]
         && Pending(x.outs) == x.outs.Keys <= x.p2p
         && x.answered == {} && !x.arrived && !x.nackedPeer && !x.inTime
         && w.link[h] == [Interest(nonces[Other(h)])]
  }

  // ---------------------------------------------------------------- invariant

  /** What host x knows, and what is on the way to it, given its peer y. */
  ghost predicate HostInv(x: Host, y: Host, queue: seq<Packet>, nonce: Nonce, peerNonce: Nonce) {
    && PEER in x.outs && x.outs[PEER].nonce == nonce && x.outs.Keys <= x.p2p
    && (PEER in x.ins <==> x.arrived && !x.nackedPeer)
    && (PEER in x.ins ==> x.ins[PEER] == peerNonce)
    && (x.nackedPeer ==> x.arrived && OthersNacked(x))
    && (x.inTime ==> x.nackedPeer)
    && (PEER !in Pending(x.outs) ==> y.nackedPeer && x.arrived)
    && (Pending(x.outs) == {} ==> x.ins.Keys !! x.p2p)
    && Arriving(queue, x.arrived, y.nackedPeer && PEER in Pending(x.outs), nonce, peerNonce)
  }

  /** The peer's Interest, unless it arrived, and then the peer's Nack, if it is on its way. */
  ghost predicate Arriving(queue: seq<Packet>, arrived: bool, nackComing: bool, nonce: Nonce, peerNonce: Nonce) {
    var first := if arrived then [] else [Interest(peerNonce)];
    if nackComing then |queue| == |first| + 1 && queue[..|first|] == first && queue[|first|].Nack? && queue[|first|].nonce == nonce
    else queue == first
  }

  ghost predicate Inv(w: World, nonces: seq<Nonce>) {
    && TwoHosts(w) && |nonces| == 2
    && (forall h :: 0 <= h < 2 ==>
          HostInv(w.host[h], w.host[Other(h)], w.link[h], nonces[h], nonces[Other(h)]))
    && (w.host[0].nackedPeer || w.host[1].nackedPeer ==> w.host[0].inTime || w.host[1].inTime)
  }

  lemma StartInv(w: World, nonces: seq<Nonce>)
    requires Start(w, nonces)
    ensures Inv(w, nonces)
  {
  }

  /** A host that has just recorded a Nack and not yet answered. */
  ghost predicate Recorded(x: Host, y: Host, queue: seq<Packet>, nonce: Nonce, peerNonce: Nonce) {
    && PEER in x.outs && x.outs[PEER].nonce == nonce && x.outs.Keys <= x.p2p
    && (PEER in x.ins <==> x.arrived && !x.nackedPeer)
    && (PEER in x.ins ==> x.ins[PEER] == peerNonce)
    && (x.nackedPeer ==> x.arrived && OthersNacked(x))
    && (x.inTime ==> x.nackedPeer || (PEER in x.ins && OthersNacked(x)))
    && (PEER !in Pending(x.outs) ==> y.nackedPeer && x.arrived)
    && Arriving(queue, x.arrived, y.nackedPeer && PEER in Pending(x.outs), nonce, peerNonce)
  }

  lemma AnswerKeepsOwn(x: Host, y: Host, queue: seq<Packet>, nonce: Nonce, peerNonce: Nonce, d: Decision)
    requires Recorded(x, y, queue, nonce, peerNonce) && Decided(x.outs, x.ins, d)
    ensures HostInv(Answer(x, d), y, queue, nonce, peerNonce)
    ensures NackToPeer(x, d) == [] ==> Answer(x, d).nackedPeer == x.nackedPeer
    ensures NackToPeer(x, d) != [] ==>
              && !x.nackedPeer && Answer(x, d).nackedPeer && OthersNacked(x) && PEER in x.ins
              && |NackToPeer(x, d)| == 1 && NackToPeer(x, d)[0].Nack? && NackToPeer(x, d)[0].nonce == peerNonce
  {
    hide Arriving, IsLeastSevere, Pending;
    assert Answer(x, d).outs == x.outs;
  }

  /** The peer sees the Nack sent to it, if any, behind what was already on its way. */
  lemma AnswerKeepsPeer(y: Host, x: Host, x': Host, queue: seq<Packet>, sent: seq<Packet>, nonce: Nonce, peerNonce: Nonce)
    requires HostInv(y, x, queue, nonce, peerNonce)
    requires sent == [] ==> x'.nackedPeer == x.nackedPeer
    requires sent != [] ==> !x.nackedPeer && x'.nackedPeer && |sent| == 1 && sent[0].Nack? && sent[0].nonce == nonce
    ensures HostInv(y, x', queue + sent, nonce, peerNonce)
  {
    hide Pending, OthersNacked;
    if sent == [] {
      assert queue + sent == queue;
    } else {
      var first := if y.arrived then [] else [Interest(peerNonce)];
      assert queue == first;
      assert (queue + sent)[..|first|] == first && (queue + sent)[|first|] == sent[0];
    }
  }

  lemma ProcessKeepsInv(w: World, h: nat, x: Host, d: Decision, nonces: seq<Nonce>)
    requires TwoHosts(w) && |nonces| == 2 && h < 2 && Decided(x.outs, x.ins, d)
    requires Recorded(x, w.host[Other(h)], w.link[h], nonces[h], nonces[Other(h)])
    requires HostInv(w.host[Other(h)], x, w.link[Other(h)], nonces[Other(h)], nonces[h])
    requires w.host[Other(h)].nackedPeer || x.nackedPeer || (PEER in x.ins && OthersNacked(x)) ==>
               w.host[Other(h)].inTime || x.inTime
    ensures Inv(Process(w, h, x, d), nonces)
  {
    hide HostInv, Recorded, Pending;
    var g := Other(h);
    var w' := Process(w, h, x, d);
    AnswerKeepsOwn(x, w.host[g], w.link[h], nonces[h], nonces[g], d);
    AnswerKeepsPeer(w.host[g], x, Answer(x, d), w.link[g], NackToPeer(x, d), nonces[g], nonces[h]);
    assert w'.host[h] == Answer(x, d) && w'.host[g] == w.host[g];
    assert w'.link[h] == w.link[h] && w'.link[g] == w.link[g] + NackToPeer(x, d);
    assert h == 0 || h == 1;
  }

  lemma InterestKeepsOwn(x: Host, y: Host, queue: seq<Packet>, nonce: Nonce, peerNonce: Nonce)
    requires HostInv(x, y, queue, nonce, peerNonce) && queue != [] && queue[0].Interest?
    ensures HostInv(x.(ins := x.ins[PEER := queue[0].nonce], arrived := true), y, queue[1..], nonce, peerNonce)
    ensures !x.nackedPeer
  {
    hide Pending;
    var first := if x.arrived then [] else [Interest(peerNonce)];
    assert !x.arrived;
    assert queue[..1][0] == queue[0] == Interest(peerNonce);
  }

  lemma NackIsRecorded(x: Host, y: Host, queue: seq<Packet>, nonce: Nonce, peerNonce: Nonce)
    requires HostInv(x, y, queue, nonce, peerNonce) && queue != [] && queue[0].Nack?
    ensures queue[0].nonce == nonce && y.nackedPeer
    ensures Recorded(x.(outs := Record(x.outs, PEER, queue[0].reason)), y, queue[1..], nonce, peerNonce)
  {
    var first := if x.arrived then [] else [Interest(peerNonce)];
    assert queue[..1][0] == queue[0];
    assert x.arrived;
    assert Pending(Record(x.outs, PEER, queue[0].reason)) == Pending(x.outs) - {PEER};
  }

  lemma UpstreamIsRecorded(x: Host, y: Host, queue: seq<Packet>, nonce: Nonce, peerNonce: Nonce, f: Face, r: Reason)
    requires HostInv(x, y, queue, nonce, peerNonce) && f != PEER && f in Pending(x.outs)
    ensures f in x.outs
    ensures var outs := Record(x.outs, f, r);
            var inTime := x.inTime || (PEER in x.ins && Pending(outs) <= {PEER});
            && Recorded(x.(outs := outs, inTime := inTime), y, queue, nonce, peerNonce)
            && !x.nackedPeer && !x.inTime
  {
    assert Pending(Record(x.outs, f, r)) == Pending(x.outs) - {f};
  }

  lemma StepKeepsInv(w: World, s: Step, nonces: seq<Nonce>)
    requires Inv(w, nonces) && Enabled(w, s)
    ensures Inv(Apply(w, s), nonces)
  {
    hide HostInv, Recorded, Pending, Decided, Answer, NackToPeer, OthersNacked;
    var h, g := s.h, Other(s.h);
    var x, y := w.host[h], w.host[g];
    assert HostInv(x, y, w.link[h], nonces[h], nonces[g]) && HostInv(y, x, w.link[g], nonces[g], nonces[h]);
    assert h == 0 || h == 1;
    match s
    case ReceiveInterest(_) =>
      InterestKeepsOwn(x, y, w.link[h], nonces[h], nonces[g]);
      SameFlags(y, x, x.(ins := x.ins[PEER := w.link[h][0].nonce], arrived := true), w.link[g], nonces[g], nonces[h]);
    case ReceiveNack(_, d) =>
      NackIsRecorded(x, y, w.link[h], nonces[h], nonces[g]);
      PeerHasRecord(x, y, w.link[h], nonces[h], nonces[g]);
      var x' := x.(outs := Record(x.outs, PEER, w.link[h][0].reason));
      SameFlags(y, x, x', w.link[g], nonces[g], nonces[h]);
      ProcessKeepsInv(w.(link := w.link[h := w.link[h][1..]]), h, x', d, nonces);
    case UpstreamNack(_, f, r, d) =>
      UpstreamIsRecorded(x, y, w.link[h], nonces[h], nonces[g], f, r);
      var outs := Record(x.outs, f, r);
      var x' := x.(outs := outs, inTime := x.inTime || (PEER in x.ins && Pending(outs) <= {PEER}));
      SameFlags(y, x, x', w.link[g], nonces[g], nonces[h]);
      assert OthersNacked(x') == (Pending(outs) <= {PEER}) by { OthersDef(x'); }
      ProcessKeepsInv(w, h, x', d, nonces);
  }

  lemma OthersDef(x: Host)
    ensures OthersNacked(x) == (Pending(x.outs) <= {PEER})
  {
  }

  lemma PeerHasRecord(x: Host, y: Host, queue: seq<Packet>, nonce: Nonce, peerNonce: Nonce)
    requires HostInv(x, y, queue, nonce, peerNonce)
    ensures PEER in x.outs && x.outs[PEER].nonce == nonce
  {
  }

  /** Of its peer a host's invariant depends on one flag only. */
  lemma SameFlags(y: Host, x: Host, x': Host, queue: seq<Packet>, nonce: Nonce, peerNonce: Nonce)
    requires HostInv(y, x, queue, nonce, peerNonce) && x'.nackedPeer == x.nackedPeer
    ensures HostInv(y, x', queue, nonce, peerNonce)
  {
  }

  // ---------------------------------------------------------------- runs

  ghost predicate Reaches(start: World, steps: seq<Step>, w: World) {
    if steps == [] then w == start
    else
      exists v ::
        && Reaches(start, steps[..|steps| - 1], v) && TwoHosts(v)
        && Enabled(v, steps[|steps| - 1]) && w == Apply(v, steps[|steps| - 1])
  }

  /** Every downstream is still recorded or was answered, which only point-to-point ones are. */
  ghost predicate Accounted(start: World, w: World) {
    && TwoHosts(start) && TwoHosts(w)
    && forall h :: 0 <= h < 2 ==> AccountedAt(start.host[h], w.host[h])
  }

  ghost predicate AccountedAt(x: Host, y: Host) {
    y.p2p == x.p2p && x.ins.Keys <= y.ins.Keys + y.answered && y.answered <= y.p2p
  }

  lemma StepKeepsAccounted(start: World, w: World, s: Step)
    requires Accounted(start, w) && Enabled(w, s)
    ensures Accounted(start, Apply(w, s))
  {
    hide Decided, NackToPeer, Pending;
    var w' := Apply(w, s);
    forall h | 0 <= h < 2 ensures AccountedAt(start.host[h], w'.host[h]) {
      assert AccountedAt(start.host[h], w.host[h]);
    }
  }

  lemma {:induction false} RunKeepsInv(start: World, steps: seq<Step>, w: World, nonces: seq<Nonce>)
    requires Start(start, nonces) && Reaches(start, steps, w)
    ensures Inv(w, nonces) && Accounted(start, w)
    decreases |steps|
  {
    hide Start, Inv, Accounted, Enabled;
    if steps == [] {
      StartInv(start, nonces);
      StartAccounted(start, nonces);
    } else {
      var last := steps[|steps| - 1];
      var v :| Reaches(start, steps[..|steps| - 1], v) && TwoHosts(v) && Enabled(v, last) && w == Apply(v, last);
      RunKeepsInv(start, steps[..|steps| - 1], v, nonces);
      StepKeepsInv(v, last, nonces);
      StepKeepsAccounted(start, v, last);
    }
  }

  lemma StartAccounted(start: World, nonces: seq<Nonce>)
    requires Start(start, nonces)
    ensures Accounted(start, start)
  {
  }

  /** Nothing can happen any more. */
  ghost predicate Terminal(w: World)
    requires TwoHosts(w)
  {
    forall s :: !Enabled(w, s)
  }

  /** A packet on the link can be received, and an upstream without a Nack can return one. */
  lemma NextStep(w: World, h: nat) returns (s: Step)
    requires TwoHosts(w) && h < 2 && (w.link[h] != [] || !OthersNacked(w.host[h]))
    requires w.host[h].outs.Keys <= w.host[h].p2p
    ensures Enabled(w, s)
  {
    hide Decided;
    var x := w.host[h];
    if w.link[h] != [] {
      var p := w.link[h][0];
      if p.Interest? {
        s := ReceiveInterest(h);
      } else if PEER in x.outs {
        var d := HasDecision(Record(x.outs, PEER, p.reason), x.ins);
        s := ReceiveNack(h, d);
      } else {
        s := ReceiveNack(h, Wait);
      }
    } else {
      var f :| f in Pending(x.outs) && f != PEER;
      var d := HasDecision(Record(x.outs, f, NONE), x.ins);
      s := UpstreamNack(h, f, NONE, d);
    }
  }

  /** When nothing can happen, the link is empty and all other upstreams have returned Nacks. */
  lemma TerminalMeans(w: World, h: nat)
    requires TwoHosts(w) && Terminal(w) && h < 2 && w.host[h].outs.Keys <= w.host[h].p2p
    ensures w.link[h] == [] && OthersNacked(w.host[h])
  {
    if w.link[h] != [] || !OthersNacked(w.host[h]) {
      var s := NextStep(w, h);
    }
  }

  /** Host x is done: every upstream returned a Nack and no point-to-point downstream waits. */
  ghost predicate Done(x: Host) {
    Pending(x.outs) == {} && x.ins.Keys !! x.p2p
  }

  lemma NackGoesRound(x: Host, y: Host, nx: Nonce, ny: Nonce)
    requires HostInv(x, y, [], nx, ny) && HostInv(y, x, [], ny, nx) && OthersNacked(x) && OthersNacked(y)
    ensures x.nackedPeer ==> Done(x) && Done(y) && y.nackedPeer
  {
    if x.nackedPeer {
      assert PEER !in Pending(y.outs);
      assert Pending(y.outs) == {} && y.ins.Keys !! y.p2p;
      assert PEER !in Pending(x.outs);
      assert Pending(x.outs) == {};
    }
  }

  /** No live deadlock: when nothing more can happen, both hosts are done, and every downstream that
      is point-to-point was answered while the others are still recorded, exactly when at least one host received the last Nack from its other upstreams while
      the peer was already its downstream. */
  lemma NoLiveDeadlock(start: World, steps: seq<Step>, w: World, nonces: seq<Nonce>)
    requires Start(start, nonces) && Reaches(start, steps, w) && TwoHosts(w) && Terminal(w)
    ensures w.host[0].inTime || w.host[1].inTime <==> Done(w.host[0]) && Done(w.host[1])
    ensures w.host[0].inTime || w.host[1].inTime ==>
              forall h :: 0 <= h < 2 ==>
                start.host[h].ins.Keys * start.host[h].p2p <= w.host[h].answered
                && start.host[h].ins.Keys - start.host[h].p2p <= w.host[h].ins.Keys
    ensures w.host[0].inTime || w.host[1].inTime ==> w.host[0].nackedPeer && w.host[1].nackedPeer
    ensures !(w.host[0].inTime || w.host[1].inTime) ==>
              PEER in Pending(w.host[0].outs) && PEER in Pending(w.host[1].outs)
  {
    hide Start, Reaches, Terminal;
    RunKeepsInv(start, steps, w, nonces);
    var a, b := w.host[0], w.host[1];
    assert HostInv(a, b, w.link[0], nonces[0], nonces[1]) && HostInv(b, a, w.link[1], nonces[1], nonces[0]);
    TerminalMeans(w, 0);
    TerminalMeans(w, 1);
    NackGoesRound(a, b, nonces[0], nonces[1]);
    NackGoesRound(b, a, nonces[1], nonces[0]);
  }

  /** The other case exists. Each host has one more upstream, which returns its Nack before the
      Interest of the peer arrives; then each waits for the other. */
  lemma BothCanWait() returns (start: World, steps: seq<Step>, w: World)
    ensures Start(start, [1, 2]) && Reaches(start, steps, w) && TwoHosts(w) && Terminal(w)
    ensures !Done(w.host[0]) && !Done(w.host[1])
  {
    hide Enabled, Apply, Before, After, Both, Start, Reaches, Terminal, Done;
    start := World([Before(1), Before(2)], [[Interest(2)], [Interest(1)]]);
    StartsBefore();
    var a, b, c, d := UpstreamNack(0, 1, NONE, Wait), UpstreamNack(1, 1, NONE, Wait), ReceiveInterest(0), ReceiveInterest(1);
    var s1 := World(start.host[0 := After(1)], start.link);
    NackTooEarly(start, 0, 1);
    ReachesNext(start, [], start, a, s1);
    var s2 := World(s1.host[1 := After(2)], s1.link);
    NackTooEarly(s1, 1, 2);
    ReachesNext(start, [] + [a], s1, b, s2);
    var s3 := World(s2.host[0 := Both(s2.host[0], 2)], s2.link[0 := []]);
    InterestTooLate(s2, 0, 2);
    ReachesNext(start, [] + [a] + [b], s2, c, s3);
    w := World(s3.host[1 := Both(s3.host[1], 1)], s3.link[1 := []]);
    InterestTooLate(s3, 1, 1);
    ReachesNext(start, [] + [a] + [b] + [c], s3, d, w);
    steps := [] + [a] + [b] + [c] + [d];
    assert w == World([Both(After(1), 2), Both(After(2), 1)], [[], []]);
    Stuck(w);
  }

  lemma StartsBefore()
    ensures var start := World([Before(1), Before(2)], [[Interest(2)], [Interest(1)]]);
            Start(start, [1, 2]) && Reaches(start, [], start)
  {
    OnlyPeerPends(1);
    OnlyPeerPends(2);
  }

  /** The last other upstream returns its Nack while the peer is not yet a downstream. */
  lemma NackTooEarly(w: World, h: nat, nonce: Nonce)
    requires TwoHosts(w) && h < 2 && w.host[h] == Before(nonce)
    ensures var s := UpstreamNack(h, 1, NONE, Wait);
            Enabled(w, s) && Apply(w, s) == World(w.host[h := After(nonce)], w.link)
  {
    OnlyPeerPends(nonce);
    assert w.link[Other(h)] + [] == w.link[Other(h)];
  }

  lemma InterestTooLate(w: World, h: nat, nonce: Nonce)
    requires TwoHosts(w) && h < 2 && w.link[h] == [Interest(nonce)]
    ensures var s := ReceiveInterest(h);
            Enabled(w, s) && Apply(w, s) == World(w.host[h := Both(w.host[h], nonce)], w.link[h := []])
  {
    assert w.link[h][1..] == [];
  }

  lemma Stuck(w: World)
    requires w == World([Both(After(1), 2), Both(After(2), 1)], [[], []])
    ensures Terminal(w) && !Done(w.host[0]) && !Done(w.host[1])
  {
    OnlyPeerPends(1);
    OnlyPeerPends(2);
  }

  /** A host with a downstream of its own and one upstream besides the peer. */
  function Before(nonce: Nonce): Host {
    Host({PEER, 1, 2}, map[2 := 7], map[PEER := OutRecord(nonce, None), 1 := OutRecord(nonce, None)], {}, false, false, false)
  }

  function After(nonce: Nonce): Host {
    Before(nonce).(outs := map[PEER := OutRecord(nonce, None), 1 := OutRecord(nonce, Some(NONE))])
  }

  function Both(x: Host, peerNonce: Nonce): Host {
    x.(ins := x.ins[PEER := peerNonce], arrived := true)
  }

  lemma OnlyPeerPends(nonce: Nonce)
    ensures Pending(Before(nonce).outs) == {PEER, 1} == Before(nonce).outs.Keys
    ensures Record(Before(nonce).outs, 1, NONE) == After(nonce).outs && Pending(After(nonce).outs) == {PEER}
  {
  }

  lemma ReachesNext(start: World, steps: seq<Step>, v: World, s: Step, w: World)
    requires Reaches(start, steps, v) && TwoHosts(v) && Enabled(v, s) && w == Apply(v, s)
    ensures Reaches(start, steps + [s], w)
  {
    assert (steps + [s])[..|steps|] == steps;
  }

  /** A Nack from the peer always carries the Nonce of the out-record, so it is never dropped. */
  lemma NoncesMatch(start: World, steps: seq<Step>, w: World, nonces: seq<Nonce>, h: nat)
    requires Start(start, nonces) && Reaches(start, steps, w) && TwoHosts(w) && h < 2
    requires w.link[h] != [] && w.link[h][0].Nack?
    ensures PEER in w.host[h].outs && w.link[h][0].nonce == w.host[h].outs[PEER].nonce
  {
    hide Start, Reaches, HostInv;
    RunKeepsInv(start, steps, w, nonces);
    assert HostInv(w.host[h], w.host[Other(h)], w.link[h], nonces[h], nonces[Other(h)]);
    NackIsRecorded(w.host[h], w.host[Other(h)], w.link[h], nonces[h], nonces[Other(h)]);
    PeerHasRecord(w.host[h], w.host[Other(h)], w.link[h], nonces[h], nonces[Other(h)]);
  }

  // ---------------------------------------------------------------- every run ends

  ghost function HostWork(x: Host, queue: seq<Packet>): nat {
    |Pending(x.outs) - {PEER}| + (if x.nackedPeer then 0 else 2) + |queue|
  }

  ghost function Work(w: World): nat
    requires TwoHosts(w)
  {
    HostWork(w.host[0], w.link[0]) + HostWork(w.host[1], w.link[1])
  }

  /** Answering never makes work: a Nack to the peer is sent at most once. */
  lemma ProcessWork(w: World, h: nat, x: Host, d: Decision)
    requires TwoHosts(w) && h < 2 && (d.ToOne? ==> d.face in x.ins)
    requires PEER in x.ins ==> !x.nackedPeer
    ensures TwoHosts(Process(w, h, x, d))
    ensures Work(Process(w, h, x, d)) <= HostWork(x, w.link[h]) + HostWork(w.host[Other(h)], w.link[Other(h)])
  {
    hide Pending;
    assert h == 0 || h == 1;
    assert Answer(x, d).outs == x.outs;
  }

  lemma FewerPending(outs: OutRecords, f: Face, r: Reason)
    requires f in outs
    ensures Pending(Record(outs, f, r)) == Pending(outs) - {f}
    ensures f != PEER && f in Pending(outs) ==>
              |Pending(Record(outs, f, r)) - {PEER}| == |Pending(outs) - {PEER}| - 1
    ensures f == PEER ==> Pending(Record(outs, f, r)) - {PEER} == Pending(outs) - {PEER}
  {
    assert Pending(Record(outs, f, r)) - {PEER} == (Pending(outs) - {PEER}) - {f};
  }

  lemma OwnFlags(x: Host, y: Host, queue: seq<Packet>, nonce: Nonce, peerNonce: Nonce)
    requires HostInv(x, y, queue, nonce, peerNonce)
    ensures PEER in x.ins ==> !x.nackedPeer
  {
  }

  /** Every step leaves less to do, so every run ends. */
  lemma StepsRunOut(w: World, s: Step, nonces: seq<Nonce>)
    requires Inv(w, nonces) && Enabled(w, s)
    ensures TwoHosts(Apply(w, s)) && Work(Apply(w, s)) < Work(w)
  {
    hide HostInv, Recorded, Pending, Decided, Process, OthersNacked;
    var h, g := s.h, Other(s.h);
    var x, y := w.host[h], w.host[g];
    assert HostInv(x, y, w.link[h], nonces[h], nonces[g]);
    assert h == 0 || h == 1;
    OwnFlags(x, y, w.link[h], nonces[h], nonces[g]);
    match s
    case ReceiveInterest(_) =>
    case ReceiveNack(_, d) =>
      NackIsRecorded(x, y, w.link[h], nonces[h], nonces[g]);
      PeerHasRecord(x, y, w.link[h], nonces[h], nonces[g]);
      FewerPending(x.outs, PEER, w.link[h][0].reason);
      DecisionHasFace(Record(x.outs, PEER, w.link[h][0].reason), x.ins, d);
      ProcessWork(w.(link := w.link[h := w.link[h][1..]]), h, x.(outs := Record(x.outs, PEER, w.link[h][0].reason)), d);
    case UpstreamNack(_, f, r, d) =>
      UpstreamIsRecorded(x, y, w.link[h], nonces[h], nonces[g], f, r);
      var outs := Record(x.outs, f, r);
      FewerPending(x.outs, f, r);
      DecisionHasFace(outs, x.ins, d);
      ProcessWork(w, h, x.(outs := outs, inTime := x.inTime || (PEER in x.ins && Pending(outs) <= {PEER})), d);
  }

  lemma DecisionHasFace(outs: OutRecords, ins: InRecords, d: Decision)
    requires Decided(outs, ins, d)
    ensures d.ToOne? ==> d.face in ins
  {
  }

  // ---------------------------------------------------------------- reasons

  /** `r` is a reason some upstream gave, and no upstream besides the peer gave a less severe one. */
  ghost predicate FromUpstream(outs: OutRecords, r: Reason) {
    && (r != NONE ==> exists f :: f in outs && outs[f].nack == Some(r))
    && forall f :: f in outs && f != PEER && outs[f].nack.Some? ==> outs[f].nack.value == NONE || NONE != r <= outs[f].nack.value
  }

  ghost predicate ReasonsFit(outs: OutRecords, queue: seq<Packet>) {
    forall i :: 0 <= i < |queue| && queue[i].Nack? ==> FromUpstream(outs, queue[i].reason)
  }

  ghost predicate ReasonsInv(w: World) {
    TwoHosts(w) && ReasonsFit(w.host[1].outs, w.link[0]) && ReasonsFit(w.host[0].outs, w.link[1])
  }

  lemma SentReasonFits(x: Host, d: Decision, queue: seq<Packet>)
    requires Decided(x.outs, x.ins, d) && ReasonsFit(x.outs, queue)
    ensures ReasonsFit(x.outs, queue + NackToPeer(x, d))
  {
    hide Pending;
    assert !d.Wait? ==> FromUpstream(x.outs, d.reason);
  }

  lemma PeerReasonFits(outs: OutRecords, r: Reason, queue: seq<Packet>)
    requires PEER in Pending(outs) && ReasonsFit(outs, queue)
    ensures ReasonsFit(Record(outs, PEER, r), queue)
  {
    var outs' := Record(outs, PEER, r);
    forall i | 0 <= i < |queue| && queue[i].Nack? ensures FromUpstream(outs', queue[i].reason) {
      assert FromUpstream(outs, queue[i].reason);
      if queue[i].reason != NONE {
        var f :| f in outs && outs[f].nack == Some(queue[i].reason);
        assert outs'[f] == outs[f];
      }
    }
  }

  /** While another upstream has not answered, no Nack is on its way to the peer. */
  lemma NoNackYet(y: Host, x: Host, queue: seq<Packet>, nonce: Nonce, peerNonce: Nonce)
    requires HostInv(y, x, queue, nonce, peerNonce) && !x.nackedPeer
    ensures forall i :: 0 <= i < |queue| ==> queue[i].Interest?
  {
    hide Pending;
  }

  lemma PeerPends(x: Host, y: Host, queue: seq<Packet>, nonce: Nonce, peerNonce: Nonce)
    requires HostInv(x, y, queue, nonce, peerNonce) && queue != [] && queue[0].Nack?
    ensures PEER in Pending(x.outs)
  {
    hide Pending;
  }

  lemma StepKeepsReasons(w: World, s: Step, nonces: seq<Nonce>)
    requires Inv(w, nonces) && ReasonsInv(w) && Enabled(w, s)
    ensures ReasonsInv(Apply(w, s))
  {
    hide HostInv, Recorded, Pending, Decided, FromUpstream, NackToPeer, OthersNacked;
    var h, g := s.h, Other(s.h);
    var x, y := w.host[h], w.host[g];
    assert HostInv(x, y, w.link[h], nonces[h], nonces[g]) && HostInv(y, x, w.link[g], nonces[g], nonces[h]);
    assert h == 0 || h == 1;
    match s
    case ReceiveInterest(_) =>
    case ReceiveNack(_, d) =>
      NackIsRecorded(x, y, w.link[h], nonces[h], nonces[g]);
      PeerHasRecord(x, y, w.link[h], nonces[h], nonces[g]);
      PeerPends(x, y, w.link[h], nonces[h], nonces[g]);
      PeerReasonFits(x.outs, w.link[h][0].reason, w.link[g]);
      SentReasonFits(x.(outs := Record(x.outs, PEER, w.link[h][0].reason)), d, w.link[g]);
    case UpstreamNack(_, f, r, d) =>
      UpstreamIsRecorded(x, y, w.link[h], nonces[h], nonces[g], f, r);
      NoNackYet(y, x, w.link[g], nonces[g], nonces[h]);
      var outs := Record(x.outs, f, r);
      SentReasonFits(x.(outs := outs, inTime := x.inTime || (PEER in x.ins && Pending(outs) <= {PEER})), d, w.link[g]);
  }

  /** In every run a Nack from a host to its peer carries a reason that one of its upstreams gave, and
      none of its other upstreams gave a less severe one. */
  lemma {:induction false} ReasonsAreUpstreams(start: World, steps: seq<Step>, w: World, nonces: seq<Nonce>)
    requires Start(start, nonces) && Reaches(start, steps, w)
    ensures ReasonsInv(w)
    decreases |steps|
  {
    hide Inv, Accounted, Enabled, FromUpstream;
    if steps != [] {
      var last := steps[|steps| - 1];
      var v :| Reaches(start, steps[..|steps| - 1], v) && TwoHosts(v) && Enabled(v, last) && w == Apply(v, last);
      ReasonsAreUpstreams(start, steps[..|steps| - 1], v, nonces);
      RunKeepsInv(start, steps[..|steps| - 1], v, nonces);
      StepKeepsReasons(v, last, nonces);
    }
  }
}
