/** How the maps kept by `LpReliability` represent a state of the reliability protocol, and what
    each operation on them keeps. */
module LpReliabilityMaps {
  import opened Wrappers
  import opened Sequence64
  import opened SendWindow
  import opened ReliabilityProtocol
  import opened ReliabilityInvariants
  import opened ReliabilityRuns

  datatype UnackedFrag = UnackedFrag(pkt: FragId, netPkt: nat, retxCount: nat, nGreaterSeqAcks: nat)
  datatype NetPkt = NetPkt(unackedFrags: seq<Seq64>, didRetx: bool)

  ghost predicate Mirrors(f: UnackedFrag, s: Seq64, live: map<FragId, Frag>) {
    && f.pkt in live
    && Wrap(live[f.pkt].txNo) == s
    && f.netPkt == f.pkt.packet
    && f.retxCount == live[f.pkt].retx
    && f.nGreaterSeqAcks == live[f.pkt].laterAcks
  }

  ghost predicate MappedIn(id: FragId, live: map<FragId, Frag>, frags: map<Seq64, UnackedFrag>)
    requires id in live
  {
    Wrap(live[id].txNo) in frags && frags[Wrap(live[id].txNo)].pkt == id
  }

  /** The map of unacknowledged fragments holds exactly the live fragments of the protocol. */
  ghost predicate Coupled(frags: map<Seq64, UnackedFrag>, live: map<FragId, Frag>) {
    && (forall s :: s in frags ==> Mirrors(frags[s], s, live))
    && (forall id :: id in live ==> MappedIn(id, live, frags))
  }

  /** `v` lists, without repeats, exactly the map entries that point back to packet p. */
  ghost predicate Lists(v: seq<Seq64>, p: nat, frags: map<Seq64, UnackedFrag>) {
    && NoRepeats(v)
    && (forall s :: s in v <==> s in frags && frags[s].netPkt == p)
  }

  /** Index agreement between network packets and unacknowledged fragments. */
  ghost predicate IndexAgrees(pkts: map<nat, NetPkt>, frags: map<Seq64, UnackedFrag>) {
    && (forall p :: p in pkts ==> Lists(pkts[p].unackedFrags, p, frags))
    && (forall s :: s in frags ==> frags[s].netPkt in pkts)
  }

  /** The stored network packets are the pending ones, with the same retransmission flag. */
  ghost predicate PacketsAgree(pkts: map<nat, NetPkt>, packets: seq<Packet>) {
    && (forall p: nat :: p in pkts <==> p < |packets| && packets[p].status == Pending)
    && (forall p :: p in pkts ==> pkts[p].didRetx == packets[p].didRetx)
  }

  /** The counters count the packets of each class. */
  ghost predicate CountersAgree(handed: nat, acknowledged: nat, retransmitted: nat, exhausted: nat, packets: seq<Packet>) {
    && handed == |packets|
    && acknowledged == CountStatus(packets, Acknowledged)
    && retransmitted == CountStatus(packets, Retransmitted)
    && exhausted == CountStatus(packets, Exhausted)
  }

  // ---------------------------------------------------------------- the index vectors

  method Find(v: seq<Seq64>, s: Seq64) returns (i: nat)
    requires s in v
    ensures i < |v| && v[i] == s
  {
    i := 0;
    while v[i] != s
      invariant i < |v| && s !in v[..i]
      decreases |v| - i
    {
      assert v == v[..i + 1] + v[i + 1..];
      i := i + 1;
    }
  }

  /** `*it = back(); pop_back()` removes exactly the found element. */
  lemma SwapAndPop(v: seq<Seq64>, i: nat)
    requires i < |v| && NoRepeats(v)
    ensures var w := v[i := v[|v| - 1]][..|v| - 1];
            NoRepeats(w) && forall s :: s in w <==> s in v && s != v[i]
  {
    var n := |v| - 1;
    var w := v[i := v[n]][..n];
    forall s ensures s in w <==> s in v && s != v[i] {
      if s in v && s != v[i] {
        var k :| 0 <= k < |v| && v[k] == s;
        if k == n { assert w[i] == s; } else { assert w[k] == s; }
      }
      if s in w {
        var k :| 0 <= k < |w| && w[k] == s;
        assert s == if k == i then v[n] else v[k];
      }
    }
  }

  lemma ReplaceOne(v: seq<Seq64>, i: nat, x: Seq64)
    requires i < |v| && NoRepeats(v) && x !in v
    ensures NoRepeats(v[i := x]) && forall s :: s in v[i := x] <==> s == x || (s in v && s != v[i])
  {
    var w := v[i := x];
    forall s ensures s in w <==> s == x || (s in v && s != v[i]) {
      if s in v && s != v[i] {
        var k :| 0 <= k < |v| && v[k] == s;
        assert w[k] == s;
      }
      assert w[i] == x;
    }
  }

  // ---------------------------------------------------------------- the coupling

  /** The TxSequence of a live fragment determines the fragment. */
  lemma SameKey(st: State, a: FragId, b: FragId)
    requires TxOk(st.live, st.txLog) && a in st.live && b in st.live
    requires Wrap(st.live[a].txNo) == Wrap(st.live[b].txNo)
    ensures a == b
  {
    WrapInjective(st.live[a].txNo, st.live[b].txNo);
    assert st.txLog[st.live[a].txNo] == a;
  }

  lemma LastPlusOne(n: nat)
    ensures Next(Wrap(n + MOD - 1)) == Wrap(n)
  {
    WrapNext(n + MOD - 1);
  }

  /** The code's test against the first key throws exactly when the protocol's window is full. */
  lemma ThrowsIffFull(st: State, frags: map<Seq64, UnackedFrag>, first: Iter, last: Seq64)
    requires TxOk(st.live, st.txLog) && Coupled(frags, st.live)
    requires last == Wrap(|st.txLog| + MOD - 1) && IsFirst(first, frags.Keys, last)
    ensures first == At(Next(last)) <==> WindowFull(st)
    ensures Next(last) in frags <==> WindowFull(st)
    ensures Next(last) == Wrap(|st.txLog|)
  {
    LastPlusOne(|st.txLog|);
    OneTestIsEnough(first, frags.Keys, last);
    NewTxSequenceIsFresh(st);
    if Next(last) in frags {
      assert Mirrors(frags[Next(last)], Next(last), st.live);
      assert Carries(st, frags[Next(last)].pkt, Wrap(|st.txLog|));
    }
    if WindowFull(st) {
      var id :| Carries(st, id, Wrap(|st.txLog|));
      assert MappedIn(id, st.live, frags);
    }
  }

  /** A transmission adds one entry under a new key; a retransmission also drops the old one. */
  lemma CoupledTransmit(st: State, frags: map<Seq64, UnackedFrag>, id: FragId, retx: nat)
    requires TxOk(st.live, st.txLog) && Coupled(frags, st.live) && Wrap(|st.txLog|) !in frags
    ensures var f := UnackedFrag(id, id.packet, retx, 0);
            var live' := st.live[id := Frag(|st.txLog|, retx, 0)];
            var stale := if id in st.live then {Wrap(st.live[id].txNo)} else {};
            Coupled(frags[Wrap(|st.txLog|) := f] - stale, live')
  {
    var nx := Wrap(|st.txLog|);
    var live' := st.live[id := Frag(|st.txLog|, retx, 0)];
    var frags' := frags[nx := UnackedFrag(id, id.packet, retx, 0)] - if id in st.live then {Wrap(st.live[id].txNo)} else {};
    if id in st.live { assert MappedIn(id, st.live, frags); }
    forall s | s in frags' ensures Mirrors(frags'[s], s, live') {
      if s != nx {
        assert Mirrors(frags[s], s, st.live);
      }
    }
    forall j | j in live' ensures MappedIn(j, live', frags') {
      if j != id {
        assert MappedIn(j, st.live, frags);
        if id in st.live && Wrap(st.live[j].txNo) == Wrap(st.live[id].txNo) { SameKey(st, j, id); }
      }
    }
  }

  /** Erasing the entries of some fragments retires exactly those fragments. */
  lemma CoupledErase(st: State, frags: map<Seq64, UnackedFrag>, gone: set<FragId>, keys: set<Seq64>)
    requires TxOk(st.live, st.txLog) && Coupled(frags, st.live)
    requires forall s :: s in frags ==> (s in keys <==> frags[s].pkt in gone)
    ensures Coupled(frags - keys, st.live - gone)
  {
    forall s | s in frags - keys ensures Mirrors((frags - keys)[s], s, st.live - gone) {
      assert Mirrors(frags[s], s, st.live);
    }
    forall j | j in st.live - gone ensures MappedIn(j, st.live - gone, frags - keys) {
      assert MappedIn(j, st.live, frags);
    }
  }

  // ---------------------------------------------------------------- the index

  lemma IndexErase(pkts: map<nat, NetPkt>, frags: map<Seq64, UnackedFrag>, s: Seq64, v: seq<Seq64>)
    requires IndexAgrees(pkts, frags) && s in frags && frags[s].netPkt in pkts
    requires NoRepeats(v) && forall x :: x in v <==> x in pkts[frags[s].netPkt].unackedFrags && x != s
    ensures var p := frags[s].netPkt;
            IndexAgrees(if v == [] then pkts - {p} else pkts[p := pkts[p].(unackedFrags := v)], frags - {s})
  {
    var p := frags[s].netPkt;
    var pkts' := if v == [] then pkts - {p} else pkts[p := pkts[p].(unackedFrags := v)];
    forall q | q in pkts' ensures Lists(pkts'[q].unackedFrags, q, frags - {s}) {
      assert Lists(pkts[q].unackedFrags, q, frags);
    }
    assert Lists(pkts[p].unackedFrags, p, frags);
    forall x | x in frags - {s} ensures (frags - {s})[x].netPkt in pkts' {
      if frags[x].netPkt == p { assert x in v; }
    }
  }

  lemma IndexMove(pkts: map<nat, NetPkt>, frags: map<Seq64, UnackedFrag>, s: Seq64, nx: Seq64, f: UnackedFrag, i: nat)
    requires IndexAgrees(pkts, frags) && s in frags && nx !in frags && f.netPkt == frags[s].netPkt
    requires f.netPkt in pkts && i < |pkts[f.netPkt].unackedFrags| && pkts[f.netPkt].unackedFrags[i] == s
    ensures var pk := pkts[f.netPkt];
            IndexAgrees(pkts[f.netPkt := NetPkt(pk.unackedFrags[i := nx], true)], frags[nx := f] - {s})
  {
    var p := f.netPkt;
    var v := pkts[p].unackedFrags;
    assert Lists(v, p, frags);
    ReplaceOne(v, i, nx);
    var pkts' := pkts[p := NetPkt(v[i := nx], true)];
    var frags' := frags[nx := f] - {s};
    forall q | q in pkts' ensures Lists(pkts'[q].unackedFrags, q, frags') {
      assert Lists(pkts[q].unackedFrags, q, frags);
    }
  }

  lemma IndexPush(pkts: map<nat, NetPkt>, frags: map<Seq64, UnackedFrag>, nx: Seq64, f: UnackedFrag)
    requires IndexAgrees(pkts, frags) && nx !in frags && f.netPkt in pkts
    ensures var pk := pkts[f.netPkt];
            IndexAgrees(pkts[f.netPkt := pk.(unackedFrags := pk.unackedFrags + [nx])], frags[nx := f])
  {
    var pkts' := pkts[f.netPkt := pkts[f.netPkt].(unackedFrags := pkts[f.netPkt].unackedFrags + [nx])];
    var frags' := frags[nx := f];
    forall q | q in pkts' ensures Lists(pkts'[q].unackedFrags, q, frags') {
      assert Lists(pkts[q].unackedFrags, q, frags);
    }
  }

  lemma IndexEraseAll(pkts: map<nat, NetPkt>, frags: map<Seq64, UnackedFrag>, p: nat, keys: set<Seq64>)
    requires IndexAgrees(pkts, frags)
    requires forall s :: s in frags ==> (s in keys <==> frags[s].netPkt == p)
    ensures IndexAgrees(pkts - {p}, frags - keys)
  {
    forall q | q in pkts - {p} ensures Lists((pkts - {p})[q].unackedFrags, q, frags - keys) {
      assert Lists(pkts[q].unackedFrags, q, frags);
    }
  }

  // ---------------------------------------------------------------- walking the window

  /** `lost` lists the TxSequences of `ids`. */
  ghost predicate Named(lost: seq<Seq64>, ids: seq<FragId>, live: map<FragId, Frag>) {
    && |lost| == |ids|
    && forall i :: 0 <= i < |ids| ==> ids[i] in live && lost[i] == Wrap(live[ids[i]].txNo)
  }

  ghost function TxNo(s: Seq64, frags: map<Seq64, UnackedFrag>, live: map<FragId, Frag>): nat
    requires Coupled(frags, live) && s in frags
  {
    assert Mirrors(frags[s], s, live);
    live[frags[s].pkt].txNo
  }

  lemma TxNoDist(st: State, frags: map<Seq64, UnackedFrag>, s: Seq64)
    requires TxOk(st.live, st.txLog) && Coupled(frags, st.live) && s in frags
    ensures TxNo(s, frags, st.live) < |st.txLog| <= TxNo(s, frags, st.live) + MOD
    ensures Dist(s, Wrap(|st.txLog| + MOD - 1)) == |st.txLog| - 1 - TxNo(s, frags, st.live)
  {
    hide Wrap, MappedIn;
    assert Mirrors(frags[s], s, st.live);
    WrapDist(st.live[frags[s].pkt].txNo, |st.txLog| - 1);
    WrapPlusMod(|st.txLog| - 1);
  }

  lemma FirstIsOldest(st: State, frags: map<Seq64, UnackedFrag>, first: Seq64, s: Seq64)
    requires TxOk(st.live, st.txLog) && Coupled(frags, st.live) && s in frags && first in frags
    requires IsFirst(At(first), frags.Keys, Wrap(|st.txLog| + MOD - 1))
    ensures TxNo(first, frags, st.live) <= TxNo(s, frags, st.live)
  {
    TxNoDist(st, frags, first);
    TxNoDist(st, frags, s);
  }

  /** Stepping the iterator, with wrap-around, goes to the next transmission still outstanding. */
  lemma AroundIsNextTx(st: State, frags: map<Seq64, UnackedFrag>, k: Seq64, ack: Seq64, x: Seq64)
    requires TxOk(st.live, st.txLog) && Coupled(frags, st.live) && k in frags && ack in frags && x in frags
    requires TxNo(k, frags, st.live) < TxNo(ack, frags, st.live)
    ensures var n := Around(frags.Keys, k);
            && TxNo(k, frags, st.live) < TxNo(n, frags, st.live) <= TxNo(ack, frags, st.live)
            && (TxNo(k, frags, st.live) < TxNo(x, frags, st.live) ==> TxNo(n, frags, st.live) <= TxNo(x, frags, st.live))
  {
    hide Wrap, Coupled, TxOk, TxNo, Dist;
    var n := Around(frags.Keys, k);
    var last := Wrap(|st.txLog| + MOD - 1);
    TxNoDist(st, frags, k);
    TxNoDist(st, frags, ack);
    TxNoDist(st, frags, n);
    TxNoDist(st, frags, x);
    SameTxNo(st, frags, n, k);
    DistVia(k, n, last);
    DistVia(k, ack, last);
    DistVia(k, x, last);
  }

  lemma {:induction false} LostBeforeGap(live: map<FragId, Frag>, txLog: seq<FragId>, threshold: nat, lo: nat, hi: nat)
    requires lo <= hi <= |txLog|
    requires forall id :: id in live ==> !(lo <= live[id].txNo < hi)
    ensures LostBefore(live, txLog, threshold, hi) == LostBefore(live, txLog, threshold, lo)
    decreases hi
  {
    if lo < hi {
      LostBeforeGap(live, txLog, threshold, lo, hi - 1);
      assert !IsLost(live, threshold, txLog[hi - 1], hi - 1);
    }
  }

  ghost predicate DistinctBefore(ids: seq<FragId>, live: map<FragId, Frag>, a: nat) {
    && (forall i :: 0 <= i < |ids| ==> ids[i] in live && live[ids[i]].txNo < a)
    && (forall i, j :: 0 <= i < j < |ids| ==> ids[i] != ids[j])
  }

  /** Lost fragments are distinct and were transmitted before the acknowledged one. */
  lemma {:induction false} LostBeforeDistinct(live: map<FragId, Frag>, txLog: seq<FragId>, threshold: nat, a: nat)
    requires a <= |txLog|
    ensures DistinctBefore(LostBefore(live, txLog, threshold, a), live, a)
  {
    if a > 0 {
      LostBeforeDistinct(live, txLog, threshold, a - 1);
    }
  }

  /** The transmissions before the next stop of the walk are those before this stop, and this one. */
  lemma WalkOrder(st: State, frags: map<Seq64, UnackedFrag>, k: Seq64, ack: Seq64)
    requires TxOk(st.live, st.txLog) && Coupled(frags, st.live) && k in frags && ack in frags
    requires TxNo(k, frags, st.live) <= TxNo(ack, frags, st.live) && k != ack
    ensures var n := TxNo(Around(frags.Keys, k), frags, st.live);
            var t := TxNo(k, frags, st.live);
            && t < n <= TxNo(ack, frags, st.live)
            && forall s :: s in frags ==> (TxNo(s, frags, st.live) < n <==> TxNo(s, frags, st.live) < t || s == k)
  {
    hide TxOk, Coupled, Wrap;
    SameTxNo(st, frags, k, ack);
    var n := TxNo(Around(frags.Keys, k), frags, st.live);
    var t := TxNo(k, frags, st.live);
    AroundIsNextTx(st, frags, k, ack, k);
    forall x | x in frags ensures TxNo(x, frags, st.live) < n <==> TxNo(x, frags, st.live) < t || x == k {
      AroundIsNextTx(st, frags, k, ack, x);
      SameTxNo(st, frags, x, k);
    }
  }

  /** One step of the walk finds lost exactly the fragment it passes, if that reached the threshold. */
  lemma WalkLost(st: State, frags: map<Seq64, UnackedFrag>, k: Seq64, n: nat, a: nat, threshold: nat)
    requires TxOk(st.live, st.txLog) && Coupled(frags, st.live) && k in frags
    requires TxNo(k, frags, st.live) < n <= a <= |st.txLog|
    requires forall s :: s in frags ==> (TxNo(s, frags, st.live) < n <==> TxNo(s, frags, st.live) < TxNo(k, frags, st.live) || s == k)
    ensures var t := TxNo(k, frags, st.live);
            var counted := CountAck(st.live, a);
            var id := frags[k].pkt;
            && id in counted && Wrap(counted[id].txNo) == k
            && LostBefore(counted, st.txLog, threshold, n) ==
               LostBefore(counted, st.txLog, threshold, t) + if frags[k].nGreaterSeqAcks + 1 >= threshold then [id] else []
  {
    hide Wrap;
    var t := TxNo(k, frags, st.live);
    var counted := CountAck(st.live, a);
    assert Mirrors(frags[k], k, st.live);
    forall id | id in counted ensures !(t + 1 <= counted[id].txNo < n) {
      assert MappedIn(id, st.live, frags);
    }
    LostBeforeGap(counted, st.txLog, threshold, t + 1, n);
    assert st.txLog[t] == frags[k].pkt;
  }

  lemma SameTxNo(st: State, frags: map<Seq64, UnackedFrag>, a: Seq64, b: Seq64)
    requires TxOk(st.live, st.txLog) && Coupled(frags, st.live) && a in frags && b in frags
    ensures TxNo(a, frags, st.live) == TxNo(b, frags, st.live) ==> a == b
  {
    assert Mirrors(frags[a], a, st.live) && Mirrors(frags[b], b, st.live);
  }

  lemma WalkStart(st: State, frags: map<Seq64, UnackedFrag>, first: Seq64, ack: Seq64, threshold: nat)
    requires TxOk(st.live, st.txLog) && Coupled(frags, st.live) && first in frags && ack in frags
    requires IsFirst(At(first), frags.Keys, Wrap(|st.txLog| + MOD - 1))
    ensures TxNo(first, frags, st.live) <= TxNo(ack, frags, st.live) <= |st.txLog|
    ensures var counted := CountAck(st.live, TxNo(ack, frags, st.live));
            Named([], LostBefore(counted, st.txLog, threshold, TxNo(first, frags, st.live)), counted)
    ensures Walked(frags, frags, st.live, TxNo(first, frags, st.live))
  {
    forall s | s in frags ensures TxNo(first, frags, st.live) <= TxNo(s, frags, st.live) {
      FirstIsOldest(st, frags, first, s);
    }
    TxNoDist(st, frags, ack);
    var counted := CountAck(st.live, TxNo(ack, frags, st.live));
    forall id | id in counted ensures !(0 <= counted[id].txNo < TxNo(first, frags, st.live)) {
      assert MappedIn(id, st.live, frags);
    }
    LostBeforeGap(counted, st.txLog, threshold, 0, TxNo(first, frags, st.live));
  }

  function Bump(f: UnackedFrag, later: bool): UnackedFrag {
    if later then f.(nGreaterSeqAcks := f.nGreaterSeqAcks + 1) else f
  }

  /** Of the fragments in `frags`, exactly those transmitted before `t` have counted one more Ack. */
  ghost predicate Walked(frags': map<Seq64, UnackedFrag>, frags: map<Seq64, UnackedFrag>, live: map<FragId, Frag>, t: nat)
    requires Coupled(frags, live)
  {
    && frags'.Keys == frags.Keys
    && forall s :: s in frags ==> frags'[s] == Bump(frags[s], TxNo(s, frags, live) < t)
  }

  lemma WalkedStep(frags': map<Seq64, UnackedFrag>, frags: map<Seq64, UnackedFrag>, live: map<FragId, Frag>, k: Seq64, n: nat)
    requires Coupled(frags, live) && k in frags && Walked(frags', frags, live, TxNo(k, frags, live))
    requires forall s :: s in frags ==> (TxNo(s, frags, live) < n <==> TxNo(s, frags, live) < TxNo(k, frags, live) || s == k)
    ensures Walked(frags'[k := Bump(frags'[k], true)], frags, live, n)
  {
    hide Coupled, TxNo;
  }

  lemma MirrorsCount(f: UnackedFrag, s: Seq64, live: map<FragId, Frag>, a: nat)
    requires Mirrors(f, s, live)
    ensures Mirrors(Bump(f, live[f.pkt].txNo < a), s, CountAck(live, a))
  {
  }

  lemma MappedCount(id: FragId, frags: map<Seq64, UnackedFrag>, frags': map<Seq64, UnackedFrag>, live: map<FragId, Frag>, a: nat)
    requires Coupled(frags, live) && Walked(frags', frags, live, a) && id in live
    ensures MappedIn(id, CountAck(live, a), frags')
  {
    hide Wrap, Mirrors;
    assert MappedIn(id, live, frags);
  }

  lemma CoupledCount(st: State, frags: map<Seq64, UnackedFrag>, frags': map<Seq64, UnackedFrag>, a: nat)
    requires Coupled(frags, st.live) && Walked(frags', frags, st.live, a)
    ensures Coupled(frags', CountAck(st.live, a))
  {
    hide Wrap, MappedIn, Bump;
    var counted := CountAck(st.live, a);
    forall s | s in frags' ensures Mirrors(frags'[s], s, counted) {
      assert Mirrors(frags[s], s, st.live);
      assert frags'[s] == Bump(frags[s], st.live[frags[s].pkt].txNo < a);
      MirrorsCount(frags[s], s, st.live, a);
    }
    forall id | id in counted ensures MappedIn(id, counted, frags') {
      MappedCount(id, frags, frags', st.live, a);
    }
  }

  lemma IndexSamePackets(pkts: map<nat, NetPkt>, frags: map<Seq64, UnackedFrag>, frags': map<Seq64, UnackedFrag>)
    requires IndexAgrees(pkts, frags) && frags'.Keys == frags.Keys
    requires forall s :: s in frags ==> frags'[s].netPkt == frags[s].netPkt
    ensures IndexAgrees(pkts, frags')
  {
    forall p | p in pkts ensures Lists(pkts[p].unackedFrags, p, frags') {
      assert Lists(pkts[p].unackedFrags, p, frags);
    }
  }

  lemma NamedAppend(lost: seq<Seq64>, ids: seq<FragId>, live: map<FragId, Frag>, k: Seq64, id: FragId)
    requires Named(lost, ids, live) && id in live && Wrap(live[id].txNo) == k
    ensures Named(lost + [k], ids + [id], live) && Named(lost + [], ids + [], live)
  {
    assert lost + [] == lost && ids + [] == ids;
  }

  /** One iteration of the walk keeps what the loop has established. */
  lemma WalkOn(st: State, frags: map<Seq64, UnackedFrag>, frags': map<Seq64, UnackedFrag>, k: Seq64, ack: Seq64,
               lost: seq<Seq64>, threshold: nat)
    requires TxOk(st.live, st.txLog) && Coupled(frags, st.live) && k in frags && ack in frags
    requires TxNo(k, frags, st.live) <= TxNo(ack, frags, st.live) <= |st.txLog| && k != ack
    requires Walked(frags', frags, st.live, TxNo(k, frags, st.live))
    requires var counted := CountAck(st.live, TxNo(ack, frags, st.live));
             Named(lost, LostBefore(counted, st.txLog, threshold, TxNo(k, frags, st.live)), counted)
    ensures var n := TxNo(Around(frags.Keys, k), frags, st.live);
            var counted := CountAck(st.live, TxNo(ack, frags, st.live));
            var f := Bump(frags'[k], true);
            && TxNo(k, frags, st.live) < n <= TxNo(ack, frags, st.live)
            && Walked(frags'[k := f], frags, st.live, n)
            && Named(if f.nGreaterSeqAcks >= threshold then lost + [k] else lost,
                     LostBefore(counted, st.txLog, threshold, n), counted)
  {
    hide TxOk, Coupled, TxNo, LostBefore, CountAck, Named, Wrap;
    var n := TxNo(Around(frags.Keys, k), frags, st.live);
    var a := TxNo(ack, frags, st.live);
    var counted := CountAck(st.live, a);
    WalkOrder(st, frags, k, ack);
    WalkLost(st, frags, k, n, a, threshold);
    WalkedStep(frags', frags, st.live, k, n);
    NamedAppend(lost, LostBefore(counted, st.txLog, threshold, TxNo(k, frags, st.live)), counted, k, frags[k].pkt);
    assert lost + [] == lost;
  }

  lemma FirstExists(first: Iter, keys: set<Seq64>, last: Seq64)
    requires IsFirst(first, keys, last) && keys != {}
    ensures first.At? && first.key in keys
  {
  }

  /** Counting an Ack keeps fields and protocol state in step. */
  lemma CountKeepsMatch(st: State, frags: map<Seq64, UnackedFrag>, frags': map<Seq64, UnackedFrag>, pkts: map<nat, NetPkt>, a: nat)
    requires TxOk(st.live, st.txLog) && InvLive(st) && Coupled(frags, st.live) && IndexAgrees(pkts, frags)
    requires Walked(frags', frags, st.live, a)
    ensures var st' := st.(live := CountAck(st.live, a));
            TxOk(st'.live, st'.txLog) && InvLive(st') && Coupled(frags', st'.live) && IndexAgrees(pkts, frags')
  {
    hide Wrap, Mirrors, TxNo;
    assert TxOk(CountAck(st.live, a), st.txLog) by { hide Coupled, IndexAgrees, InvLive, Walked; }
    CoupledCount(st, frags, frags', a);
    IndexSamePackets(pkts, frags, frags');
  }

  // ---------------------------------------------------------------- what the operations keep

  /** The parts of `Matches` that speak of the two maps. */
  ghost predicate MapsMatch(st: State, frags: map<Seq64, UnackedFrag>, pkts: map<nat, NetPkt>) {
    && TxOk(st.live, st.txLog) && InvLive(st)
    && Coupled(frags, st.live) && IndexAgrees(pkts, frags) && PacketsAgree(pkts, st.packets)
  }

  /** A packet has another live fragment exactly when its vector keeps an element. */
  lemma VectorTellsLive(live: map<FragId, Frag>, frags: map<Seq64, UnackedFrag>, pkts: map<nat, NetPkt>, s: Seq64, v: seq<Seq64>)
    requires Coupled(frags, live) && IndexAgrees(pkts, frags) && s in frags && frags[s].netPkt in pkts
    requires forall x :: x in v <==> x in pkts[frags[s].netPkt].unackedFrags && x != s
    ensures v == [] <==> !HasLive(live - {frags[s].pkt}, frags[s].netPkt)
  {
    hide Wrap;
    var p := frags[s].netPkt;
    assert Lists(pkts[p].unackedFrags, p, frags) && Mirrors(frags[s], s, live);
    if v != [] {
      var x := v[0];
      assert x in v;
      assert Mirrors(frags[x], x, live);
    }
    if HasLive(live - {frags[s].pkt}, p) {
      var j :| j in live - {frags[s].pkt} && j.packet == p;
      assert MappedIn(j, live, frags);
      var x := Wrap(live[j].txNo);
      assert Mirrors(frags[x], x, live);
      assert x in pkts[p].unackedFrags && x != s;
    }
  }

  lemma RetireAgrees(st: State, pkts: map<nat, NetPkt>, id: FragId, v: seq<Seq64>)
    requires PacketsAgree(pkts, st.packets) && id in st.live && id.packet in pkts
    requires v == [] <==> !HasLive(st.live - {id}, id.packet)
    ensures PacketsAgree(if v == [] then pkts - {id.packet} else pkts[id.packet := pkts[id.packet].(unackedFrags := v)],
                         Retire(st, id, st.live).packets)
  {
    hide HasLive;
  }

  /** The facts a method needs about the entry it works on. */
  lemma EntryFacts(st: State, frags: map<Seq64, UnackedFrag>, pkts: map<nat, NetPkt>, s: Seq64)
    requires MapsMatch(st, frags, pkts) && s in frags
    ensures var f := frags[s];
            && Mirrors(f, s, st.live) && f.netPkt in pkts && f.netPkt < |st.packets|
            && st.packets[f.netPkt].status == Pending && pkts[f.netPkt].didRetx == st.packets[f.netPkt].didRetx
            && Lists(pkts[f.netPkt].unackedFrags, f.netPkt, frags) && s in pkts[f.netPkt].unackedFrags
  {
    hide Wrap, Mirrors, Lists;
    assert Mirrors(frags[s], s, st.live);
    EntryListed(pkts, frags, s);
    assert Lists(pkts[frags[s].netPkt].unackedFrags, frags[s].netPkt, frags);
  }

  lemma RetireMatches(st: State, frags: map<Seq64, UnackedFrag>, pkts: map<nat, NetPkt>, s: Seq64, v: seq<Seq64>)
    requires MapsMatch(st, frags, pkts) && s in frags && frags[s].netPkt in pkts && Mirrors(frags[s], s, st.live)
    requires frags[s].netPkt < |st.packets|
    requires NoRepeats(v) && forall x :: x in v <==> x in pkts[frags[s].netPkt].unackedFrags && x != s
    ensures var p := frags[s].netPkt;
            MapsMatch(Retire(st, frags[s].pkt, st.live), frags - {s},
                      if v == [] then pkts - {p} else pkts[p := pkts[p].(unackedFrags := v)])
    ensures v == [] <==> !HasLive(st.live - {frags[s].pkt}, frags[s].netPkt)
  {
    hide Wrap, TxOk, InvLive, Coupled, IndexAgrees, PacketsAgree, HasLive, NoRepeats;
    VectorTellsLive(st.live, frags, pkts, s, v);
    IndexErase(pkts, frags, s, v);
    CoupledEraseOne(st, frags, s);
    RetireKeepsTxAndLive(st, frags[s].pkt);
    RetireAgrees(st, pkts, frags[s].pkt, v);
  }

  lemma CoupledEraseOne(st: State, frags: map<Seq64, UnackedFrag>, s: Seq64)
    requires TxOk(st.live, st.txLog) && Coupled(frags, st.live) && s in frags
    ensures Coupled(frags - {s}, st.live - {frags[s].pkt})
  {
    hide Wrap;
    forall x | x in frags ensures x in {s} <==> frags[x].pkt in {frags[s].pkt} {
      assert Mirrors(frags[x], x, st.live) && Mirrors(frags[s], s, st.live);
    }
    CoupledErase(st, frags, {frags[s].pkt}, {s});
  }

  lemma RetireKeepsTxAndLive(st: State, id: FragId)
    requires TxOk(st.live, st.txLog) && InvLive(st) && id in st.live
    ensures TxOk(Retire(st, id, st.live).live, st.txLog) && InvLive(Retire(st, id, st.live))
  {
  }

  lemma EntryListed(pkts: map<nat, NetPkt>, frags: map<Seq64, UnackedFrag>, s: Seq64)
    requires IndexAgrees(pkts, frags) && s in frags
    ensures frags[s].netPkt in pkts && NoRepeats(pkts[frags[s].netPkt].unackedFrags)
    ensures s in pkts[frags[s].netPkt].unackedFrags
  {
    assert Lists(pkts[frags[s].netPkt].unackedFrags, frags[s].netPkt, frags);
  }

  lemma ExhaustAgrees(pkts: map<nat, NetPkt>, ps: seq<Packet>, p: nat)
    requires PacketsAgree(pkts, ps) && p in pkts
    ensures p < |ps| && PacketsAgree(pkts - {p}, ps[p := ps[p].(status := Exhausted)])
  {
  }

  lemma ExhaustKeepsTxAndLive(opt: Options, st: State, id: FragId)
    requires TxOk(st.live, st.txLog) && InvLive(st) && id in st.live && st.live[id].retx >= opt.maxRetx
    ensures TxOk(Lose(opt, st, id).state.live, st.txLog) && InvLive(Lose(opt, st, id).state)
    ensures Lose(opt, st, id).state.live == st.live - set j | j in st.live && j.packet == id.packet
  {
  }

  lemma ExhaustMatches(opt: Options, st: State, frags: map<Seq64, UnackedFrag>, pkts: map<nat, NetPkt>, s: Seq64, keys: set<Seq64>)
    requires MapsMatch(st, frags, pkts) && s in frags && Mirrors(frags[s], s, st.live) && frags[s].netPkt in pkts
    requires frags[s].netPkt < |st.packets| && frags[s].retxCount >= opt.maxRetx
    requires forall x :: x in frags ==> (x in keys <==> frags[x].netPkt == frags[s].netPkt)
    ensures Lose(opt, st, frags[s].pkt).Running?
    ensures MapsMatch(Lose(opt, st, frags[s].pkt).state, frags - keys, pkts - {frags[s].netPkt})
  {
    hide Wrap, TxOk, InvLive, IndexAgrees, PacketsAgree;
    var id := frags[s].pkt;
    var gone := set j | j in st.live && j.packet == id.packet;
    forall x | x in frags ensures x in keys <==> frags[x].pkt in gone {
      assert Mirrors(frags[x], x, st.live);
    }
    CoupledErase(st, frags, gone, keys);
    IndexEraseAll(pkts, frags, id.packet, keys);
    ExhaustAgrees(pkts, st.packets, id.packet);
    ExhaustKeepsTxAndLive(opt, st, id);
  }

  lemma ResendShape(opt: Options, st: State, id: FragId)
    requires id in st.live && id.packet < |st.packets| && st.live[id].retx < opt.maxRetx && !WindowFull(st)
    ensures Lose(opt, st, id).Running?
    ensures var st' := Lose(opt, st, id).state;
            && st'.live == st.live[id := Frag(|st.txLog|, st.live[id].retx + 1, 0)] && st'.txLog == st.txLog + [id]
            && st'.packets == st.packets[id.packet := st.packets[id.packet].(didRetx := true)]
            && st'.handed == st.handed && st'.acked == st.acked
    ensures Transmit(st, id, st.live[id].retx + 1).state.live == Lose(opt, st, id).state.live
    ensures Transmit(st, id, st.live[id].retx + 1).state.txLog == Lose(opt, st, id).state.txLog
  {
    var pk := st.packets[id.packet].(didRetx := true);
    var st0 := st.(packets := st.packets[id.packet := pk], nLosses := st.nLosses + 1);
    assert WindowFull(st0) == WindowFull(st);
  }

  lemma ResendKeepsTxAndLive(opt: Options, st: State, id: FragId)
    requires TxOk(st.live, st.txLog) && InvLive(st) && id in st.live && st.live[id].retx < opt.maxRetx
    requires !WindowFull(st)
    ensures Lose(opt, st, id).Running?
    ensures TxOk(Lose(opt, st, id).state.live, Lose(opt, st, id).state.txLog) && InvLive(Lose(opt, st, id).state)
  {
    hide TxOk, WindowFull, Lose;
    ResendShape(opt, st, id);
    TransmitKeepsTx(st, id, st.live[id].retx + 1);
  }

  lemma ResendMatches(opt: Options, st: State, frags: map<Seq64, UnackedFrag>, pkts: map<nat, NetPkt>, s: Seq64, i: nat)
    requires MapsMatch(st, frags, pkts) && s in frags && Mirrors(frags[s], s, st.live) && frags[s].netPkt in pkts
    requires frags[s].retxCount < opt.maxRetx && !WindowFull(st) && Wrap(|st.txLog|) !in frags
    requires i < |pkts[frags[s].netPkt].unackedFrags| && pkts[frags[s].netPkt].unackedFrags[i] == s
    requires frags[s].netPkt < |st.packets|
    ensures Lose(opt, st, frags[s].pkt).Running? && |Lose(opt, st, frags[s].pkt).state.txLog| == |st.txLog| + 1
    ensures |Lose(opt, st, frags[s].pkt).state.packets| == |st.packets|
    ensures forall x :: CountStatus(Lose(opt, st, frags[s].pkt).state.packets, x) == CountStatus(st.packets, x)
    ensures var nx := Wrap(|st.txLog|);
            var f := UnackedFrag(frags[s].pkt, frags[s].netPkt, frags[s].retxCount + 1, 0);
            var pk := pkts[f.netPkt];
            MapsMatch(Lose(opt, st, f.pkt).state, frags[nx := f] - {s}, pkts[f.netPkt := NetPkt(pk.unackedFrags[i := nx], true)])
  {
    hide Wrap, TxOk, InvLive, Coupled, IndexAgrees, WindowFull;
    var id := frags[s].pkt;
    var f := UnackedFrag(id, id.packet, frags[s].retxCount + 1, 0);
    CoupledTransmit(st, frags, id, frags[s].retxCount + 1);
    IndexMove(pkts, frags, s, Wrap(|st.txLog|), f, i);
    assert id.packet < |st.packets|;
    ResendShape(opt, st, id);
    ResendKeepsTxAndLive(opt, st, id);
    CountStatusSame(st.packets, id.packet, st.packets[id.packet].(didRetx := true));
  }

  /** `removed` names the entries that are gone; the others kept their value. */
  ghost predicate Erased(removed: seq<Seq64>, before: map<Seq64, UnackedFrag>, after: map<Seq64, UnackedFrag>) {
    && (forall s :: s in removed <==> s in before && s !in after)
    && (forall s :: s in before && s in after ==> after[s] == before[s])
  }

  lemma ErasedOne(frags: map<Seq64, UnackedFrag>, nx: Seq64, f: UnackedFrag, s: Seq64)
    requires s in frags && nx !in frags
    ensures Erased([s], frags, frags[nx := f] - {s})
  {
  }

  lemma ExhaustCounts(ps: seq<Packet>, p: nat)
    requires p < |ps| && ps[p].status == Pending
    ensures var ps' := ps[p := ps[p].(status := Exhausted)];
            && CountStatus(ps', Acknowledged) == CountStatus(ps, Acknowledged)
            && CountStatus(ps', Retransmitted) == CountStatus(ps, Retransmitted)
            && CountStatus(ps', Exhausted) == CountStatus(ps, Exhausted) + 1
  {
    CountStatusUpdate(ps, p, ps[p].(status := Exhausted), Acknowledged);
    CountStatusUpdate(ps, p, ps[p].(status := Exhausted), Retransmitted);
    CountStatusUpdate(ps, p, ps[p].(status := Exhausted), Exhausted);
  }

  lemma CountStatusSame(ps: seq<Packet>, p: nat, pk: Packet)
    requires p < |ps| && pk.status == ps[p].status
    ensures forall s :: CountStatus(ps[p := pk], s) == CountStatus(ps, s)
  {
    forall s ensures CountStatus(ps[p := pk], s) == CountStatus(ps, s) {
      CountStatusUpdate(ps, p, pk, s);
    }
  }

  /** Whether a resend throws, read off the two equivalent tests. */
  lemma ResendOutcome(opt: Options, st: State, frags: map<Seq64, UnackedFrag>, pkts: map<nat, NetPkt>, first: Iter, last: Seq64, s: Seq64)
    requires MapsMatch(st, frags, pkts) && s in frags && Mirrors(frags[s], s, st.live) && frags[s].netPkt < |st.packets|
    requires frags[s].retxCount < opt.maxRetx
    requires last == Wrap(|st.txLog| + MOD - 1) && IsFirst(first, frags.Keys, last)
    ensures Next(last) in frags <==> WindowFull(st)
    ensures Next(last) in frags <==> Lose(opt, st, frags[s].pkt).RangeExceeded?
    ensures Next(last) == Wrap(|st.txLog|) == Wrap(|st.txLog| + 1 + MOD - 1)
  {
    hide Coupled, TxOk, IsFirst, Wrap;
    ThrowsIffFull(st, frags, first, last);
    WrapPlusMod(|st.txLog|);
    var id := frags[s].pkt;
    var st0 := st.(packets := st.packets[id.packet := st.packets[id.packet].(didRetx := true)], nLosses := st.nLosses + 1);
    assert WindowFull(st0) == WindowFull(st);
  }

  /** Completing a pending packet raises exactly one counter. */
  lemma CompleteCounts(ps: seq<Packet>, p: nat)
    requires p < |ps| && ps[p].status == Pending
    ensures var ps' := ps[p := Complete(ps[p])];
            && CountStatus(ps', Acknowledged) == CountStatus(ps, Acknowledged) + (if ps[p].didRetx then 0 else 1)
            && CountStatus(ps', Retransmitted) == CountStatus(ps, Retransmitted) + (if ps[p].didRetx then 1 else 0)
            && CountStatus(ps', Exhausted) == CountStatus(ps, Exhausted)
  {
    CountStatusUpdate(ps, p, Complete(ps[p]), Acknowledged);
    CountStatusUpdate(ps, p, Complete(ps[p]), Retransmitted);
    CountStatusUpdate(ps, p, Complete(ps[p]), Exhausted);
  }

  // ---------------------------------------------------------------- several losses from one Ack

  /** Of the lost fragments still to handle, those erased meanwhile are no longer live and the
      others are where they were. */
  ghost predicate Outlook(lost: seq<Seq64>, ids: seq<FragId>, k: nat, gone: set<Seq64>,
                          live: map<FragId, Frag>, frags: map<Seq64, UnackedFrag>)
    requires |lost| == |ids|
  {
    forall i :: k <= i < |lost| ==>
      if lost[i] in gone then ids[i] !in live else lost[i] in frags && frags[lost[i]].pkt == ids[i]
  }

  /** A loss step touches no other fragment than the lost one and those of a packet given up. */
  lemma LoseOthers(opt: Options, st: State, id: FragId, j: FragId)
    requires id in st.live && id.packet < |st.packets| && Lose(opt, st, id).Running? && j != id
    ensures j in Lose(opt, st, id).state.live ==> j in st.live && Lose(opt, st, id).state.live[j] == st.live[j]
  {
  }

  lemma OutlookStep(opt: Options, st: State, frags: map<Seq64, UnackedFrag>, frags': map<Seq64, UnackedFrag>,
                    lost: seq<Seq64>, ids: seq<FragId>, k: nat, gone: set<Seq64>, removed: seq<Seq64>)
    requires |lost| == |ids| && k < |lost| && (forall i :: k < i < |lost| ==> ids[i] != ids[k])
    requires Outlook(lost, ids, k, gone, st.live, frags) && Coupled(frags, st.live)
    requires ids[k] in st.live && ids[k].packet < |st.packets| && Lose(opt, st, ids[k]).Running?
    requires Coupled(frags', Lose(opt, st, ids[k]).state.live) && Erased(removed, frags, frags')
    ensures Outlook(lost, ids, k + 1, gone + (set s | s in removed), Lose(opt, st, ids[k]).state.live, frags')
  {
    hide Wrap, Lose;
    var live' := Lose(opt, st, ids[k]).state.live;
    forall i | k + 1 <= i < |lost|
      ensures if lost[i] in gone + (set s | s in removed) then ids[i] !in live'
              else lost[i] in frags' && frags'[lost[i]].pkt == ids[i]
    {
      LoseOthers(opt, st, ids[k], ids[i]);
      if lost[i] !in gone { assert Mirrors(frags[lost[i]], lost[i], st.live); }
      if ids[i] in live' { assert MappedIn(ids[i], live', frags'); }
    }
  }

  /** The protocol step for an Ack or a timer concerns the fragment the map holds under that key. */
  lemma CarriesEntry(st: State, frags: map<Seq64, UnackedFrag>, s: Seq64, id: FragId)
    requires TxOk(st.live, st.txLog) && Coupled(frags, st.live)
    ensures Carries(st, id, s) <==> s in frags && frags[s].pkt == id
  {
    hide Wrap;
    if Carries(st, id, s) { assert MappedIn(id, st.live, frags); }
    if s in frags { assert Mirrors(frags[s], s, st.live); }
  }

  lemma RetireCounted(st: State, id: FragId, counted: map<FragId, Frag>)
    requires id in st.live && id in counted && counted[id].txNo == st.live[id].txNo && id.packet < |st.packets|
    ensures Retire(st.(live := counted), id, counted) == Retire(st, id, counted)
  {
  }

  /** Where the fragments found lost are, once the acknowledged one has been erased. */
  lemma OutlookStart(live: map<FragId, Frag>, frags: map<Seq64, UnackedFrag>, lost: seq<Seq64>, ids: seq<FragId>, s: Seq64, a: nat)
    requires Coupled(frags, live) && s in frags && Mirrors(frags[s], s, live) && live[frags[s].pkt].txNo == a
    requires Named(lost, ids, live) && DistinctBefore(ids, live, a)
    ensures Outlook(lost, ids, 0, {}, live - {frags[s].pkt}, frags - {s})
  {
    hide Wrap;
    forall i | 0 <= i < |lost| ensures lost[i] in frags - {s} && (frags - {s})[lost[i]].pkt == ids[i] {
      assert MappedIn(ids[i], live, frags);
    }
  }

  /** What the protocol does on an Ack, in terms of the map entry under its key. */
  lemma AckStep(opt: Options, st: State, frags: map<Seq64, UnackedFrag>, pkts: map<nat, NetPkt>, s: Seq64)
    requires Inv(opt, st) && MapsMatch(st, frags, pkts)
    ensures s !in frags ==> Step(opt, st, Ack(s)) == Running(st)
    ensures s in frags ==>
              && frags[s].pkt in st.live && frags[s].pkt.packet < |st.packets|
              && st.live[frags[s].pkt].txNo <= |st.txLog|
              && TxNo(s, frags, st.live) == st.live[frags[s].pkt].txNo
              && Step(opt, st, Ack(s)) == AckFrag(opt, st, frags[s].pkt)
  {
    hide Wrap, InvPackets, InvEffort, InvAcks, InvLoss, InvCount, AckFrag;
    forall id ensures Carries(st, id, s) <==> s in frags && frags[s].pkt == id {
      CarriesEntry(st, frags, s, id);
    }
    if s in frags {
      assert Mirrors(frags[s], s, st.live);
      assert Carries(st, frags[s].pkt, s);
    }
  }

  /** After the walk, the state is ready for retiring the acknowledged fragment and then losing
      the fragments found. */
  lemma AckReady(st0: State, st: State, frags: map<Seq64, UnackedFrag>, pkts: map<nat, NetPkt>,
                 lost: seq<Seq64>, ids: seq<FragId>, s: Seq64, threshold: nat)
    requires MapsMatch(st, frags, pkts) && s in frags && frags[s].pkt in st0.live && frags[s].pkt.packet < |st0.packets|
    requires var a := st0.live[frags[s].pkt].txNo;
             && a <= |st0.txLog| && st == st0.(live := CountAck(st0.live, a))
             && ids == LostBefore(st.live, st.txLog, threshold, a) && Named(lost, ids, st.live)
    ensures |lost| == |ids| && forall i, j :: 0 <= i < j < |ids| ==> ids[i] != ids[j]
    ensures Outlook(lost, ids, 0, {}, st.live - {frags[s].pkt}, frags - {s})
    ensures frags[s].pkt in st.live
    ensures Retire(st, frags[s].pkt, st.live) ==
            Retire(st0, frags[s].pkt, CountAck(st0.live, st0.live[frags[s].pkt].txNo))
    ensures Retire(st, frags[s].pkt, st.live).live == st.live - {frags[s].pkt}
  {
    hide Wrap, TxOk, IndexAgrees, PacketsAgree, InvLive, LostBefore, Outlook;
    var a := st0.live[frags[s].pkt].txNo;
    assert Mirrors(frags[s], s, st.live);
    LostBeforeDistinct(st.live, st.txLog, threshold, a);
    OutlookStart(st.live, frags, lost, ids, s, a);
    RetireCounted(st0, frags[s].pkt, st.live);
  }

  lemma RtoStep(opt: Options, st: State, frags: map<Seq64, UnackedFrag>, pkts: map<nat, NetPkt>, s: Seq64)
    requires Inv(opt, st) && MapsMatch(st, frags, pkts) && s in frags
    ensures frags[s].pkt in st.live && frags[s].pkt.packet < |st.packets|
    ensures Step(opt, st, Rto(s)) == Lose(opt, st, frags[s].pkt)
  {
    hide Wrap, InvPackets, InvEffort, InvAcks, InvLoss, InvCount, Lose;
    forall id ensures Carries(st, id, s) <==> s in frags && frags[s].pkt == id {
      CarriesEntry(st, frags, s, id);
    }
    assert Mirrors(frags[s], s, st.live);
    assert Carries(st, frags[s].pkt, s);
  }

  function AckEvents(acks: seq<Seq64>): (es: seq<Event>)
    ensures |es| == |acks| && forall i :: 0 <= i < |acks| ==> es[i] == Ack(acks[i])
  {
    seq(|acks|, i requires 0 <= i < |acks| => Ack(acks[i]))
  }

  lemma {:induction false} FailedPrefix(opt: Options, st: State, es: seq<Event>, k: nat)
    requires Inv(opt, st) && NonEmptyPackets(st) && k <= |es| && Steps(opt, st, es[..k]).RangeExceeded?
    ensures Steps(opt, st, es).RangeExceeded?
    decreases |es|
  {
    hide Inv, NonEmptyPackets, Step;
    if k == |es| {
      assert es[..k] == es;
    } else {
      var n := |es| - 1;
      assert es[..n][..k] == es[..k];
      FailedPrefix(opt, st, es[..n], k);
    }
  }

  // ---------------------------------------------------------------- first transmissions

  lemma AddPacketMatches(st: State, frags: map<Seq64, UnackedFrag>, pkts: map<nat, NetPkt>)
    requires MapsMatch(st, frags, pkts)
    ensures MapsMatch(AddPacket(st), frags, pkts[|st.packets| := NetPkt([], false)])
  {
    hide Wrap, TxOk;
    var p := |st.packets|;
    var pkts' := pkts[p := NetPkt([], false)];
    forall s | s in frags ensures frags[s].netPkt != p { assert Mirrors(frags[s], s, st.live); }
    forall q | q in pkts' ensures Lists(pkts'[q].unackedFrags, q, frags) {
      if q != p { assert Lists(pkts[q].unackedFrags, q, frags); }
    }
  }

  lemma AddPacketCounts(ps: seq<Packet>)
    ensures forall s :: s != Pending ==> CountStatus(ps + [Packet(0, false, Pending)], s) == CountStatus(ps, s)
  {
    assert (ps + [Packet(0, false, Pending)])[..|ps|] == ps;
  }

  lemma SendOneShape(st: State, p: nat)
    requires p < |st.packets| && !WindowFull(st)
    ensures SendOne(st, p).Running?
    ensures var st' := SendOne(st, p).state;
            var id := FragId(p, st.packets[p].nFrags);
            && st'.live == st.live[id := Frag(|st.txLog|, 0, 0)] && st'.txLog == st.txLog + [id]
            && st'.packets == st.packets[p := st.packets[p].(nFrags := st.packets[p].nFrags + 1)]
            && st'.handed == st.handed + {id} && st'.acked == st.acked
    ensures Transmit(st, FragId(p, st.packets[p].nFrags), 0).state.live == SendOne(st, p).state.live
    ensures Transmit(st, FragId(p, st.packets[p].nFrags), 0).state.txLog == SendOne(st, p).state.txLog
  {
    var pk := st.packets[p];
    var id := FragId(p, pk.nFrags);
    var st0 := st.(packets := st.packets[p := pk.(nFrags := pk.nFrags + 1)], handed := st.handed + {id});
    assert WindowFull(st0) == WindowFull(st);
  }

  lemma SendOneFull(st: State, p: nat)
    requires p < |st.packets| && WindowFull(st)
    ensures SendOne(st, p).RangeExceeded?
  {
    var pk := st.packets[p];
    var id := FragId(p, pk.nFrags);
    var st0 := st.(packets := st.packets[p := pk.(nFrags := pk.nFrags + 1)], handed := st.handed + {id});
    assert WindowFull(st0) == WindowFull(st);
  }

  lemma SendOneMatches(st: State, frags: map<Seq64, UnackedFrag>, pkts: map<nat, NetPkt>, p: nat)
    requires MapsMatch(st, frags, pkts) && InvHanded(st) && p in pkts && p < |st.packets|
    requires !WindowFull(st) && Wrap(|st.txLog|) !in frags
    ensures SendOne(st, p).Running? && |SendOne(st, p).state.txLog| == |st.txLog| + 1
    ensures |SendOne(st, p).state.packets| == |st.packets|
    ensures forall x :: CountStatus(SendOne(st, p).state.packets, x) == CountStatus(st.packets, x)
    ensures var nx := Wrap(|st.txLog|);
            MapsMatch(SendOne(st, p).state, frags[nx := UnackedFrag(FragId(p, st.packets[p].nFrags), p, 0, 0)],
                      pkts[p := pkts[p].(unackedFrags := pkts[p].unackedFrags + [nx])])
  {
    hide Wrap, TxOk, Coupled, IndexAgrees, WindowFull, SendOne;
    var id := FragId(p, st.packets[p].nFrags);
    SendOneShape(st, p);
    assert id !in st.handed && id !in st.live;
    CoupledTransmit(st, frags, id, 0);
    assert frags[Wrap(|st.txLog|) := UnackedFrag(id, p, 0, 0)] - {} == frags[Wrap(|st.txLog|) := UnackedFrag(id, p, 0, 0)];
    IndexPush(pkts, frags, Wrap(|st.txLog|), UnackedFrag(id, p, 0, 0));
    TransmitKeepsTx(st, id, 0);
    CountStatusSame(st.packets, p, st.packets[p].(nFrags := st.packets[p].nFrags + 1));
  }

  lemma SendOneOutcome(st: State, frags: map<Seq64, UnackedFrag>, pkts: map<nat, NetPkt>, first: Iter, last: Seq64, p: nat)
    requires MapsMatch(st, frags, pkts) && p < |st.packets|
    requires last == Wrap(|st.txLog| + MOD - 1) && IsFirst(first, frags.Keys, last)
    ensures Next(last) in frags <==> WindowFull(st)
    ensures Next(last) in frags <==> SendOne(st, p).RangeExceeded?
    ensures Next(last) == Wrap(|st.txLog|) == Wrap(|st.txLog| + 1 + MOD - 1)
  {
    hide Coupled, TxOk, IsFirst, Wrap, WindowFull, SendOne;
    ThrowsIffFull(st, frags, first, last);
    WrapPlusMod(|st.txLog|);
    if WindowFull(st) { SendOneFull(st, p); } else { SendOneShape(st, p); }
  }

  /** The map has one element after an insertion exactly when it was empty before. */
  lemma OnlyOne(frags: map<Seq64, UnackedFrag>, nx: Seq64, keys: set<Seq64>)
    requires nx !in frags && keys == frags.Keys + {nx}
    ensures |keys| == 1 <==> frags == map[]
    ensures frags == map[] ==> keys == {nx} && IsFirst(At(Begin(keys)), keys, nx)
  {
    assert |keys| == |frags.Keys| + 1;
  }

  lemma {:induction false} FailedSends(st: State, p: nat, k: nat, n: nat)
    requires p < |st.packets| && k <= n && SendFrags(st, p, k).RangeExceeded?
    ensures SendFrags(st, p, n).RangeExceeded?
    decreases n
  {
    if k < n { FailedSends(st, p, k, n - 1); }
  }

  ghost predicate ArePending(keys: set<nat>, ps: seq<Packet>) {
    forall p: nat :: p in keys <==> p < |ps| && ps[p].status == Pending
  }

  lemma {:induction false} PendingCount(keys: set<nat>, ps: seq<Packet>)
    requires ArePending(keys, ps)
    ensures |keys| == CountStatus(ps, Pending)
    decreases |ps|
  {
    if ps == [] {
      assert keys == {};
    } else {
      var n := |ps| - 1;
      assert ArePending(keys - {n}, ps[..n]);
      PendingCount(keys - {n}, ps[..n]);
      if n in keys {
        assert |keys| == |keys - {n}| + 1;
      } else {
        assert keys == keys - {n};
      }
    }
  }

  // ---------------------------------------------------------------- the fragments of a new packet

  /** The (i + 1)-th TxSequence after `last`. */
  function TxAfter(last: Seq64, i: nat): Seq64 {
    Wrap(last + 1 + i)
  }

  /** The map has gained the first n fragments of packet p, under the TxSequences that follow `last`, and
      nothing else. */
  ghost predicate Stored(before: map<Seq64, UnackedFrag>, after: map<Seq64, UnackedFrag>, last: Seq64, p: nat, n: nat) {
    && |after| == |before| + n
    && (forall s :: s in before ==> s in after && after[s] == before[s])
    && forall i :: 0 <= i < n ==> IsNew(before, after, TxAfter(last, i), FragId(p, i))
  }

  ghost predicate IsNew(before: map<Seq64, UnackedFrag>, after: map<Seq64, UnackedFrag>, s: Seq64, id: FragId) {
    s !in before && s in after && after[s] == UnackedFrag(id, id.packet, 0, 0)
  }

  lemma OneKeyMore(frags: map<Seq64, UnackedFrag>, s: Seq64, f: UnackedFrag)
    requires s !in frags
    ensures |frags[s := f]| == |frags| + 1
  {
    assert frags[s := f].Keys == frags.Keys + {s};
    assert |frags[s := f]| == |frags[s := f].Keys| && |frags| == |frags.Keys|;
  }

  lemma NothingStored(frags: map<Seq64, UnackedFrag>, last: Seq64, p: nat)
    ensures Stored(frags, frags, last, p, 0)
  {
  }

  lemma StoredNext(before: map<Seq64, UnackedFrag>, frags: map<Seq64, UnackedFrag>, last: Seq64, p: nat, n: nat)
    requires Stored(before, frags, last, p, n) && TxAfter(last, n) !in frags
    ensures Stored(before, frags[TxAfter(last, n) := UnackedFrag(FragId(p, n), p, 0, 0)], last, p, n + 1)
  {
    hide TxAfter;
    var s := TxAfter(last, n);
    var after := frags[s := UnackedFrag(FragId(p, n), p, 0, 0)];
    OneKeyMore(frags, s, UnackedFrag(FragId(p, n), p, 0, 0));
    forall i | 0 <= i < n + 1 ensures IsNew(before, after, TxAfter(last, i), FragId(p, i)) {
      if i < n {
        assert IsNew(before, frags, TxAfter(last, i), FragId(p, i));
      }
    }
  }
}
