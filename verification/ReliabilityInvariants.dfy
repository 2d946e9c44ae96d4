/** Safety of the reliability protocol over every run: each step keeps `Inv`. */
module ReliabilityInvariants {
  import opened Sequence64
  import opened ReliabilityProtocol

  // ---------------------------------------------------------------- counting

  lemma CountGreaterBelow(log: seq<nat>, n: nat)
    requires forall i :: 0 <= i < |log| ==> log[i] <= n
    ensures CountGreater(log, n) == 0
  {
  }

  lemma {:induction false} CountStatusUpdate(ps: seq<Packet>, p: nat, pk: Packet, s: Status)
    requires p < |ps|
    ensures CountStatus(ps[p := pk], s) ==
            CountStatus(ps, s) - (if ps[p].status == s then 1 else 0) + (if pk.status == s then 1 else 0)
  {
    var n := |ps| - 1;
    if p == n {
      assert ps[p := pk][..n] == ps[..n];
    } else {
      assert ps[p := pk][..n] == ps[..n][p := pk];
      CountStatusUpdate(ps[..n], p, pk, s);
    }
  }

  lemma {:induction false} CountStatusTotal(ps: seq<Packet>)
    ensures |ps| == CountStatus(ps, Pending) + CountStatus(ps, Acknowledged)
                  + CountStatus(ps, Retransmitted) + CountStatus(ps, Exhausted)
  {
    if ps != [] {
      CountStatusTotal(ps[..|ps| - 1]);
    }
  }

  lemma InitInv(opt: Options)
    ensures Inv(opt, INIT)
  {
    assert forall id :: Sent(INIT, id) == 0;
  }

  // ---------------------------------------------------------------- transmission

  /** A transmission is never given a number whose TxSequence a live fragment still carries. */
  lemma NewTxSequenceIsFresh(st: State)
    requires InvTx(st)
    ensures WindowFull(st) <==> exists id :: Carries(st, id, Wrap(|st.txLog|))
  {
    if id :| Carries(st, id, Wrap(|st.txLog|)) {
      var n := st.live[id].txNo;
      if n + MOD != |st.txLog| { WrapInjective(n, |st.txLog|); }
    }
    if WindowFull(st) {
      var id :| id in st.live && st.live[id].txNo + MOD == |st.txLog|;
      assert Wrap(st.live[id].txNo) == Wrap(|st.txLog|);
      assert Carries(st, id, Wrap(|st.txLog|));
    }
  }

  lemma TransmitKeepsTx(st: State, id: FragId, retx: nat)
    requires InvTx(st) && !WindowFull(st)
    ensures InvTx(Transmit(st, id, retx).state)
  {
    var st' := Transmit(st, id, retx).state;
    forall j | j in st'.live
      ensures st'.live[j].txNo < |st'.txLog| <= st'.live[j].txNo + MOD
      ensures st'.txLog[st'.live[j].txNo] == j
      ensures forall t :: st'.live[j].txNo < t < |st'.txLog| ==> st'.txLog[t] != j
    {
      if j != id {
        assert st.live[j].txNo + MOD != |st.txLog|;
      }
    }
  }

  lemma TransmitKeepsAcks(st: State, id: FragId, retx: nat)
    requires InvAcks(st) && !WindowFull(st)
    ensures InvAcks(Transmit(st, id, retx).state)
  {
    CountGreaterBelow(st.ackLog, |st.txLog|);
  }

  lemma TransmitSent(st: State, id: FragId, retx: nat)
    requires !WindowFull(st)
    ensures forall j :: Sent(Transmit(st, id, retx).state, j) == Sent(st, j) + if j == id then 1 else 0
  {
    assert multiset(st.txLog + [id]) == multiset(st.txLog) + multiset{id};
  }

  /** The next fragment of a packet is new, and only its transmission count changes. */
  lemma SendOneSent(st: State, p: nat)
    requires InvHanded(st) && p < |st.packets| && SendOne(st, p).Running?
    ensures FragId(p, st.packets[p].nFrags) !in st.handed && Sent(st, FragId(p, st.packets[p].nFrags)) == 0
    ensures forall j :: Sent(SendOne(st, p).state, j) ==
                        Sent(st, j) + if j == FragId(p, st.packets[p].nFrags) then 1 else 0
  {
    var pk := st.packets[p];
    var id := FragId(p, pk.nFrags);
    TransmitSent(st.(packets := st.packets[p := pk.(nFrags := pk.nFrags + 1)], handed := st.handed + {id}), id, 0);
    assert forall j :: Sent(SendOne(st, p).state, j) == Sent(st, j) + if j == id then 1 else 0;
    assert id !in st.handed;
  }

  lemma SendOneKeepsEffort(opt: Options, st: State, p: nat)
    requires InvEffort(opt, st) && InvLive(st) && p < |st.packets| && st.packets[p].status == Pending
    requires SendOne(st, p).Running?
    ensures InvEffort(opt, SendOne(st, p).state) && InvLive(SendOne(st, p).state)
  {
    hide WindowFull, Sent;
    SendOneSent(st, p);
  }

  lemma SendOneKeepsPackets(opt: Options, st: State, p: nat)
    requires InvEffort(opt, st) && InvLive(st) && InvPackets(opt, st)
    requires p < |st.packets| && st.packets[p].status == Pending
    requires SendOne(st, p).Running?
    ensures InvPackets(opt, SendOne(st, p).state)
  {
    var st' := SendOne(st, p).state;
    var id := FragId(p, st.packets[p].nFrags);
    SendOneSent(st, p);
    forall q | 0 <= q < |st'.packets| ensures InvPacket(opt, st', q) {
      assert InvPacket(opt, st, q);
      SamePacket(opt, st, st', q, id);
    }
  }

  /** Sending the new fragment `id` changes the class of no packet. */
  lemma SamePacket(opt: Options, st: State, st': State, q: nat, id: FragId)
    requires q < |st.packets| == |st'.packets| && InvPacket(opt, st, q)
    requires st'.packets[q].didRetx == st.packets[q].didRetx && st'.packets[q].status == st.packets[q].status
    requires q == id.packet ==> st.packets[q].status == Pending
    requires q != id.packet ==> st'.packets[q] == st.packets[q]
    requires st'.acked == st.acked && st'.handed == st.handed + {id} && id !in st.handed
    requires Sent(st, id) == 0 && (forall j: FragId :: Sent(st', j) == Sent(st, j) + if j == id then 1 else 0)
    requires st'.live.Keys == st.live.Keys + {id}
    ensures InvPacket(opt, st', q)
  {
    assert Resent(st, q) ==> Resent(st', q) by {
      if Resent(st, q) {
        var j: FragId :| j.packet == q && Sent(st, j) > 1;
        assert j.packet == q && Sent(st', j) > 1;
      }
    }
    assert Resent(st', q) ==> Resent(st, q) by {
      if Resent(st', q) {
        var j: FragId :| j.packet == q && Sent(st', j) > 1;
        assert j.packet == q && Sent(st, j) > 1;
      }
    }
    assert HasLive(st.live, q) ==> HasLive(st'.live, q) by {
      if HasLive(st.live, q) {
        var j :| j in st.live && j.packet == q;
        assert j in st'.live;
      }
    }
    assert id in st'.live;
    if st.packets[q].status == Exhausted {
      var j: FragId :| j.packet == q && j !in st.acked && Sent(st, j) == opt.maxRetx + 1;
      assert Sent(st', j) == opt.maxRetx + 1;
    }
  }

  lemma SendOneKeepsRest(opt: Options, st: State, p: nat)
    requires p < |st.packets| && SendOne(st, p).Running? && FragId(p, st.packets[p].nFrags) !in st.handed
    requires InvTx(st) && InvAcks(st) && InvCount(st) && InvLoss(opt, st, {})
    ensures InvTx(SendOne(st, p).state) && InvAcks(SendOne(st, p).state)
    ensures InvCount(SendOne(st, p).state) && InvLoss(opt, SendOne(st, p).state, {})
  {
    var pk := st.packets[p];
    var id := FragId(p, pk.nFrags);
    var st0 := st.(packets := st.packets[p := pk.(nFrags := pk.nFrags + 1)], handed := st.handed + {id});
    hide TxOk, AcksOk;
    TransmitKeepsTx(st0, id, 0);
    TransmitKeepsAcks(st0, id, 0);
    CountStatusUpdate(st.packets, p, pk.(nFrags := pk.nFrags + 1), Exhausted);
  }

  lemma SendOneKeepsInv(opt: Options, st: State, p: nat)
    requires Inv(opt, st) && p < |st.packets| && st.packets[p].status == Pending
    requires SendOne(st, p).Running?
    ensures Inv(opt, SendOne(st, p).state)
    ensures |SendOne(st, p).state.packets| == |st.packets|
    ensures SendOne(st, p).state.packets[p].status == Pending
  {
    hide InvTx, InvRetx, InvHanded, InvLive, InvPackets, InvAcks, InvCount, InvLoss;
    assert FragId(p, st.packets[p].nFrags) !in st.handed by { SendOneSent(st, p); }
    SendOneKeepsEffort(opt, st, p);
    SendOneKeepsPackets(opt, st, p);
    SendOneKeepsRest(opt, st, p);
  }

  lemma {:induction false} SendFragsKeepsInv(opt: Options, st: State, p: nat, n: nat)
    requires Inv(opt, st) && p < |st.packets| && st.packets[p].status == Pending
    ensures SendFrags(st, p, n).Running? ==>
              && Inv(opt, SendFrags(st, p, n).state)
              && |SendFrags(st, p, n).state.packets| == |st.packets|
              && SendFrags(st, p, n).state.packets[p].status == Pending
    decreases n
  {
    if n > 0 {
      SendFragsKeepsInv(opt, st, p, n - 1);
      var o := SendFrags(st, p, n - 1);
      if o.Running? && SendOne(o.state, p).Running? {
        SendOneKeepsInv(opt, o.state, p);
      }
    }
  }

  lemma AddPacketKeepsPackets(opt: Options, st: State)
    requires InvHanded(st) && InvPackets(opt, st)
    ensures InvPackets(opt, AddPacket(st)) && InvHanded(AddPacket(st))
  {
    var st' := AddPacket(st);
    var p := |st.packets|;
    assert forall id: FragId :: Sent(st', id) == Sent(st, id);
    forall q | 0 <= q < |st'.packets| ensures InvPacket(opt, st', q) {
      if q < p {
        assert InvPacket(opt, st, q);
        assert Resent(st, q) == Resent(st', q);
      } else {
        assert forall id: FragId :: id.packet == p ==> id !in st.handed && Sent(st, id) == 0;
      }
    }
  }

  lemma AddPacketKeepsInv(opt: Options, st: State)
    requires Inv(opt, st)
    ensures Inv(opt, AddPacket(st))
  {
    hide TxOk, AcksOk, LossOk, InvHanded, InvPackets;
    var st' := AddPacket(st);
    AddPacketKeepsPackets(opt, st);
    assert st'.packets[..|st.packets|] == st.packets;
    assert forall id: FragId :: Sent(st', id) == Sent(st, id);
    assert InvTx(st') && InvRetx(opt, st') && InvLive(st');
    assert InvAcks(st') && InvLoss(opt, st', {});
    assert InvCount(st');
  }

  // ---------------------------------------------------------------- loss

  /** What a loss step keeps: the bookkeeping, and every packet but the one concerned. */
  lemma OtherPacket(opt: Options, st: State, st': State, q: nat)
    requires q < |st.packets| == |st'.packets| && st'.packets[q] == st.packets[q] && InvPacket(opt, st, q)
    requires st'.handed == st.handed
    requires forall j: FragId :: j.packet == q ==>
               && Sent(st', j) == Sent(st, j) && (j in st'.acked <==> j in st.acked)
               && (j in st'.live <==> j in st.live)
    ensures InvPacket(opt, st', q)
  {
    assert Resent(st', q) == Resent(st, q);
    assert HasLive(st.live, q) ==> HasLive(st'.live, q) by {
      if HasLive(st.live, q) {
        var j :| j in st.live && j.packet == q;
        assert j in st'.live;
      }
    }
    if st.packets[q].status == Exhausted {
      var j: FragId :| j.packet == q && j !in st.acked && Sent(st, j) == opt.maxRetx + 1;
      assert Sent(st', j) == opt.maxRetx + 1;
    }
  }

  lemma ExhaustKeepsPackets(opt: Options, st: State, id: FragId)
    requires InvEffort(opt, st) && InvLive(st) && InvPackets(opt, st)
    requires id in st.live && st.live[id].retx >= opt.maxRetx
    ensures InvPackets(opt, Lose(opt, st, id).state)
  {
    var st' := Lose(opt, st, id).state;
    var p := id.packet;
    assert InvPacket(opt, st, p);
    assert forall j: FragId :: Sent(st', j) == Sent(st, j);
    forall q | 0 <= q < |st'.packets| ensures InvPacket(opt, st', q) {
      if q != p {
        assert InvPacket(opt, st, q);
        OtherPacket(opt, st, st', q);
      } else {
        assert Resent(st', p) == Resent(st, p);
        assert id !in st'.acked && Sent(st', id) == opt.maxRetx + 1;
      }
    }
  }

  lemma ExhaustKeepsEffort(opt: Options, st: State, id: FragId)
    requires id in st.live && id.packet < |st.packets| && st.live[id].retx >= opt.maxRetx
    requires InvEffort(opt, st) && InvLive(st)
    ensures InvEffort(opt, Lose(opt, st, id).state) && InvLive(Lose(opt, st, id).state)
  {
    var st' := Lose(opt, st, id).state;
    assert forall j: FragId :: Sent(st', j) == Sent(st, j);
  }

  lemma ExhaustKeepsRest(opt: Options, st: State, id: FragId, due: set<FragId>)
    requires id in st.live && id.packet < |st.packets| && st.live[id].retx >= opt.maxRetx
    requires st.packets[id.packet].status == Pending
    requires InvTx(st) && InvAcks(st) && InvCount(st) && InvLoss(opt, st, due)
    ensures var st' := Lose(opt, st, id).state;
            InvTx(st') && InvAcks(st') && InvCount(st') && InvLoss(opt, st', due - {id})
  {
    CountStatusUpdate(st.packets, id.packet, Lose(opt, st, id).state.packets[id.packet], Exhausted);
  }

  lemma ResendSent(opt: Options, st: State, id: FragId)
    requires id in st.live && id.packet < |st.packets| && st.live[id].retx < opt.maxRetx && Lose(opt, st, id).Running?
    ensures forall j :: Sent(Lose(opt, st, id).state, j) == Sent(st, j) + if j == id then 1 else 0
  {
    var st0 := st.(packets := st.packets[id.packet := st.packets[id.packet].(didRetx := true)], nLosses := st.nLosses + 1);
    TransmitSent(st0, id, st.live[id].retx + 1);
    assert forall j :: Sent(st0, j) == Sent(st, j);
  }

  lemma ResendKeepsEffort(opt: Options, st: State, id: FragId)
    requires InvEffort(opt, st) && InvLive(st) && id in st.live && st.live[id].retx < opt.maxRetx
    requires Lose(opt, st, id).Running?
    ensures InvEffort(opt, Lose(opt, st, id).state) && InvLive(Lose(opt, st, id).state)
  {
    hide WindowFull, Sent;
    ResendSent(opt, st, id);
  }

  lemma ResendKeepsPackets(opt: Options, st: State, id: FragId)
    requires InvEffort(opt, st) && InvLive(st) && InvPackets(opt, st)
    requires id in st.live && st.live[id].retx < opt.maxRetx
    requires Lose(opt, st, id).Running?
    ensures InvPackets(opt, Lose(opt, st, id).state)
  {
    var st' := Lose(opt, st, id).state;
    var p := id.packet;
    ResendSent(opt, st, id);
    assert InvPacket(opt, st, p);
    forall q | 0 <= q < |st'.packets| ensures InvPacket(opt, st', q) {
      if q != p {
        assert InvPacket(opt, st, q);
        OtherPacket(opt, st, st', q);
      } else {
        assert Sent(st', id) > 1;
        assert id in st'.live;
      }
    }
  }

  lemma ResendKeepsTx(opt: Options, st: State, id: FragId)
    requires id in st.live && id.packet < |st.packets| && st.live[id].retx < opt.maxRetx
    requires Lose(opt, st, id).Running?
    requires InvTx(st) && InvAcks(st)
    ensures InvTx(Lose(opt, st, id).state) && InvAcks(Lose(opt, st, id).state)
  {
    hide TxOk, AcksOk, WindowFull;
    var pk := st.packets[id.packet].(didRetx := true);
    var st0 := st.(packets := st.packets[id.packet := pk], nLosses := st.nLosses + 1);
    TransmitKeepsTx(st0, id, st.live[id].retx + 1);
    TransmitKeepsAcks(st0, id, st.live[id].retx + 1);
  }

  lemma ResendKeepsCount(opt: Options, st: State, id: FragId, due: set<FragId>)
    requires id in st.live && id.packet < |st.packets| && st.live[id].retx < opt.maxRetx
    requires Lose(opt, st, id).Running?
    requires InvCount(st) && InvLoss(opt, st, due)
    ensures InvCount(Lose(opt, st, id).state) && InvLoss(opt, Lose(opt, st, id).state, due - {id})
  {
    hide WindowFull;
    CountStatusUpdate(st.packets, id.packet, st.packets[id.packet].(didRetx := true), Exhausted);
  }

  lemma LoseKeepsInv(opt: Options, st: State, id: FragId, due: set<FragId>)
    requires InvBut(opt, st, due) && id in st.live
    requires id.packet < |st.packets| && st.packets[id.packet].status == Pending
    ensures Lose(opt, st, id).Running? ==> InvBut(opt, Lose(opt, st, id).state, due - {id})
  {
    hide InvTx, InvEffort, InvLive, InvPackets, InvAcks, InvCount, InvLoss;
    if st.live[id].retx >= opt.maxRetx {
      ExhaustKeepsPackets(opt, st, id);
      ExhaustKeepsEffort(opt, st, id);
      ExhaustKeepsRest(opt, st, id, due);
    } else if Lose(opt, st, id).Running? {
      ResendKeepsEffort(opt, st, id);
      ResendKeepsPackets(opt, st, id);
      ResendKeepsTx(opt, st, id);
      ResendKeepsCount(opt, st, id, due);
    }
  }

  lemma {:induction false} LoseAllKeepsInv(opt: Options, st: State, ids: seq<FragId>)
    requires InvBut(opt, st, set id | id in ids)
    ensures LoseAll(opt, st, ids).Running? ==> Inv(opt, LoseAll(opt, st, ids).state)
    decreases |ids|
  {
    if ids == [] {
    } else {
      var due := set id | id in ids;
      var rest := set id | id in ids[1..];
      assert due - {ids[0]} <= rest;
      if ids[0] in st.live {
        LoseKeepsInv(opt, st, ids[0], due);
        var o := Lose(opt, st, ids[0]);
        if o.Running? { LoseAllKeepsInv(opt, o.state, ids[1..]); }
      } else {
        LoseAllKeepsInv(opt, st, ids[1..]);
      }
    }
  }

  // ---------------------------------------------------------------- Ack

  lemma {:induction false} LostBeforeMember(live: map<FragId, Frag>, txLog: seq<FragId>, threshold: nat, a: nat, x: FragId)
    requires a <= |txLog|
    ensures x in LostBefore(live, txLog, threshold, a) <==>
            exists t :: 0 <= t < a && txLog[t] == x && IsLost(live, threshold, x, t)
  {
    if a > 0 {
      LostBeforeMember(live, txLog, threshold, a - 1, x);
    }
  }

  lemma RetireKeepsPackets(opt: Options, st: State, id: FragId, counted: map<FragId, Frag>)
    requires InvLive(st) && InvPackets(opt, st) && InvEffort(opt, st) && id in st.live && counted.Keys == st.live.Keys
    ensures InvPackets(opt, Retire(st, id, counted))
  {
    var st' := Retire(st, id, counted);
    var p := id.packet;
    assert forall j: FragId :: Sent(st', j) == Sent(st, j);
    assert InvPacket(opt, st, p);
    forall q | 0 <= q < |st'.packets| ensures InvPacket(opt, st', q) {
      assert InvPacket(opt, st, q);
      if q != p {
        OtherPacket(opt, st, st', q);
      } else {
        assert Resent(st', p) == Resent(st, p);
      }
    }
  }

  lemma RetireKeepsAcks(st: State, id: FragId)
    requires InvTx(st) && InvAcks(st) && id in st.live && id.packet < |st.packets|
    ensures InvAcks(Retire(st, id, CountAck(st.live, st.live[id].txNo)))
  {
    var st' := Retire(st, id, CountAck(st.live, st.live[id].txNo));
    assert st'.ackLog[..|st.ackLog|] == st.ackLog;
  }

  lemma RetireKeepsLoss(opt: Options, st: State, id: FragId)
    requires InvTx(st) && InvLoss(opt, st, {}) && id in st.live && id.packet < |st.packets|
    ensures var a := st.live[id].txNo;
            var counted := CountAck(st.live, a);
            InvLoss(opt, Retire(st, id, counted), set x | x in LostBefore(counted, st.txLog, opt.lossThreshold, a))
  {
    var a := st.live[id].txNo;
    var counted := CountAck(st.live, a);
    var st' := Retire(st, id, counted);
    var lost := LostBefore(counted, st.txLog, opt.lossThreshold, a);
    forall j | j in st'.live && j !in lost
      ensures opt.lossThreshold > 0 ==> st'.live[j].laterAcks < opt.lossThreshold
    {
      LostBeforeMember(counted, st.txLog, opt.lossThreshold, a, j);
      assert st.txLog[st.live[j].txNo] == j;
      if st.live[j].txNo < a {
        assert !IsLost(counted, opt.lossThreshold, j, st.live[j].txNo);
      }
    }
  }

  lemma RetireKeepsEffort(opt: Options, st: State, id: FragId)
    requires id in st.live && id.packet < |st.packets| && InvEffort(opt, st)
    ensures InvEffort(opt, Retire(st, id, CountAck(st.live, st.live[id].txNo)))
  {
    var st' := Retire(st, id, CountAck(st.live, st.live[id].txNo));
    assert forall j: FragId :: Sent(st', j) == Sent(st, j);
  }

  lemma RetireKeepsTx(st: State, id: FragId)
    requires id in st.live && id.packet < |st.packets| && InvTx(st)
    ensures InvTx(Retire(st, id, CountAck(st.live, st.live[id].txNo)))
  {
  }

  lemma RetireKeepsRest(opt: Options, st: State, id: FragId)
    requires id in st.live && InvLive(st) && InvCount(st)
    ensures var st' := Retire(st, id, CountAck(st.live, st.live[id].txNo));
            InvLive(st') && InvCount(st')
  {
    CountStatusUpdate(st.packets, id.packet, Complete(st.packets[id.packet]), Exhausted);
  }

  lemma AckKeepsInv(opt: Options, st: State, id: FragId)
    requires Inv(opt, st) && id in st.live
    ensures AckFrag(opt, st, id).Running? ==> Inv(opt, AckFrag(opt, st, id).state)
  {
    hide InvEffort, InvPackets, InvAcks, InvCount, InvLoss;
    var a := st.live[id].txNo;
    var counted := CountAck(st.live, a);
    RetireKeepsPackets(opt, st, id, counted);
    RetireKeepsAcks(st, id);
    RetireKeepsEffort(opt, st, id);
    RetireKeepsTx(st, id);
    RetireKeepsRest(opt, st, id);
    RetireKeepsLoss(opt, st, id);
    LoseAllKeepsInv(opt, Retire(st, id, counted), LostBefore(counted, st.txLog, opt.lossThreshold, a));
  }
}
