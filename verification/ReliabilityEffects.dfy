/** What each event of the reliability protocol does, in terms of the run so far: which fragments a
    packet hands over, what an Ack acknowledges and finds lost, and what a timeout leads to. */
module ReliabilityEffects {
  import opened Sequence64
  import opened ReliabilityProtocol
  import opened ReliabilityInvariants
  import opened ReliabilityRuns

  // ---------------------------------------------------------------- fragments handed over

  /** The number of fragments of the p-th packet sent. */
  function FragsOf(es: seq<Event>, p: nat): nat {
    if es == [] then 0
    else
      var n := |es| - 1;
      if es[n].Send? && es[n].nFrags > 0 && p == Sends(es[..n]) then es[n].nFrags else FragsOf(es[..n], p)
  }

  function TotalFrags(es: seq<Event>): nat {
    if es == [] then 0 else TotalFrags(es[..|es| - 1]) + if es[|es| - 1].Send? then es[|es| - 1].nFrags else 0
  }

  /** A Send adds a packet with all its fragments; no other event changes the size of a packet. */
  lemma PacketSizes(opt: Options, st: State, e: Event)
    requires Inv(opt, st) && Step(opt, st, e).Running?
    ensures var st' := Step(opt, st, e).state;
            && (forall p :: 0 <= p < |st.packets| ==> p < |st'.packets| && st'.packets[p].nFrags == st.packets[p].nFrags)
            && (if e.Send? && e.nFrags > 0 then |st'.packets| == |st.packets| + 1 && st'.packets[|st.packets|].nFrags == e.nFrags
                else |st'.packets| == |st.packets|)
  {
    hide InvTx, InvEffort, InvPackets, InvAcks, InvCount, InvLoss, AckFrag, Lose, SendFrags;
    match e
    case Send(n) =>
      if n > 0 { SendFragsSizes(AddPacket(st), |st.packets|, n); }
    case Ack(s) =>
      forall id | Carries(st, id, s) { AckSizes(opt, st, id); }
    case Rto(s) =>
      forall id | Carries(st, id, s) { LoseSizes(opt, st, id); }
  }

  lemma TxBound(st: State, id: FragId)
    requires InvTx(st) && id in st.live
    ensures st.live[id].txNo < |st.txLog|
  {
  }

  lemma AckSizes(opt: Options, st: State, id: FragId)
    requires InvTx(st) && InvLive(st) && id in st.live
    ensures st.live[id].txNo <= |st.txLog|
    ensures AckFrag(opt, st, id).Running? ==> SameSizes(st, AckFrag(opt, st, id).state)
  {
    hide InvTx, LostBefore, CountAck, LoseAll;
    TxBound(st, id);
    var a := st.live[id].txNo;
    var counted := CountAck(st.live, a);
    LoseAllSameSizes(opt, Retire(st, id, counted), LostBefore(counted, st.txLog, opt.lossThreshold, a));
  }

  lemma LoseSizes(opt: Options, st: State, id: FragId)
    requires InvLive(st) && id in st.live
    ensures Lose(opt, st, id).Running? ==> SameSizes(st, Lose(opt, st, id).state)
  {
  }

  ghost predicate SizesAre(es: seq<Event>, ps: seq<Packet>) {
    |ps| == Sends(es) && forall p :: 0 <= p < |ps| ==> ps[p].nFrags == FragsOf(es, p)
  }

  lemma {:induction false} RunSizes(opt: Options, es: seq<Event>)
    requires Run(opt, es).Running?
    ensures SizesAre(es, Run(opt, es).state.packets)
  {
    hide Inv, Step;
    if es != [] {
      var n := |es| - 1;
      RunSizes(opt, es[..n]);
      PacketSizes(opt, Run(opt, es[..n]).state, es[n]);
    }
  }

  ghost predicate HandedAre(ps: seq<Packet>, handed: set<FragId>) {
    forall id :: id in handed <==> id.packet < |ps| && id.index < ps[id.packet].nFrags
  }

  /** In every run the fragments handed over are all fragments of all packets sent, and no others. */
  lemma AllFragmentsHanded(opt: Options, es: seq<Event>, p: nat, i: nat)
    requires Run(opt, es).Running?
    ensures FragId(p, i) in Run(opt, es).state.handed <==> p < Sends(es) && i < FragsOf(es, p)
    ensures Sent(Run(opt, es).state, FragId(p, i)) > 0 <==> p < Sends(es) && i < FragsOf(es, p)
  {
    hide Run;
    RunSizes(opt, es);
    assert InvHanded(Run(opt, es).state);
  }

  function SumFrags(ps: seq<Packet>): nat {
    if ps == [] then 0 else SumFrags(ps[..|ps| - 1]) + ps[|ps| - 1].nFrags
  }

  lemma {:induction false} SizeOfHanded(ps: seq<Packet>, handed: set<FragId>)
    requires HandedAre(ps, handed)
    ensures |handed| == SumFrags(ps)
  {
    if ps == [] {
      assert handed == {};
    } else {
      var n := |ps| - 1;
      var last := set id | id in handed && id.packet == n;
      SizeOfHanded(ps[..n], handed - last);
      OnePacket(last, n, ps[n].nFrags);
      assert handed == (handed - last) + last && (handed - last) !! last;
      assert |handed| == |handed - last| + |last|;
    }
  }

  lemma {:induction false} OnePacket(ids: set<FragId>, p: nat, n: nat)
    requires forall id :: id in ids <==> id.packet == p && id.index < n
    ensures |ids| == n
  {
    if n == 0 {
      assert ids == {};
    } else {
      var x := FragId(p, n - 1);
      OnePacket(ids - {x}, p, n - 1);
      assert |ids| == |ids - {x}| + 1;
    }
  }

  lemma {:induction false} FragsStay(es: seq<Event>, ps: seq<Packet>)
    requires SizesAre(es, ps)
    ensures SumFrags(ps) == TotalFrags(es)
  {
    if es != [] {
      var n := |es| - 1;
      if es[n].Send? && es[n].nFrags > 0 {
        FragsStay(es[..n], ps[..|ps| - 1]);
      } else {
        FragsStay(es[..n], ps);
      }
    }
  }

  /** Their number is the sum over the packets sent. */
  lemma NumberOfFragments(opt: Options, es: seq<Event>)
    requires Run(opt, es).Running?
    ensures |Run(opt, es).state.handed| == TotalFrags(es)
  {
    hide Run;
    var st := Run(opt, es).state;
    assert InvHanded(st);
    RunSizes(opt, es);
    SizeOfHanded(st.packets, st.handed);
    FragsStay(es, st.packets);
  }

  // ---------------------------------------------------------------- losses

  lemma OneCarrier(st: State, a: FragId, b: FragId, s: Seq64)
    requires InvTx(st) && Carries(st, a, s) && Carries(st, b, s)
    ensures a == b
  {
    WrapInjective(st.live[a].txNo, st.live[b].txNo);
    assert st.txLog[st.live[a].txNo] == a;
  }

  /** The fragment is transmitted once more, as the newest transmission, and nothing else changes for
      the other fragments. */
  ghost predicate IsResent(st: State, st': State, id: FragId) {
    && st'.txLog == st.txLog + [id]
    && id in st'.live && st'.live[id].txNo == |st.txLog| && st'.live.Keys == st.live.Keys
    && forall j :: j in st.live && j != id ==> st'.live[j] == st.live[j]
  }

  /** The packet is given up with all its fragments, and nothing else changes. */
  ghost predicate IsGivenUp(st: State, st': State, p: nat) {
    && st'.txLog == st.txLog && |st'.packets| == |st.packets| && p < |st.packets| && st'.packets[p].status == Exhausted
    && (forall j :: j in st'.live <==> j in st.live && j.packet != p)
    && (forall j :: j in st'.live ==> st'.live[j] == st.live[j])
    && forall q :: 0 <= q < |st.packets| && q != p ==> st'.packets[q] == st.packets[q]
  }

  /** A timeout retransmits the fragment, or gives up on its packet when it was transmitted 1 + maxRetx
      times; one for a number that is not outstanding does nothing. */
  lemma TimeoutDoes(opt: Options, st: State, s: Seq64)
    requires Inv(opt, st)
    ensures forall id :: Carries(st, id, s) && Step(opt, st, Rto(s)).Running? ==>
              var st' := Step(opt, st, Rto(s)).state;
              && st'.acked == st.acked && st'.ackLog == st.ackLog
              && if Sent(st, id) <= opt.maxRetx then IsResent(st, st', id) else IsGivenUp(st, st', id.packet)
    ensures (forall id :: !Carries(st, id, s)) ==> Step(opt, st, Rto(s)) == Running(st)
  {
    hide InvHanded, InvPackets, InvAcks, InvCount, InvLoss, InvTx;
    forall id | Carries(st, id, s) && Step(opt, st, Rto(s)).Running?
      ensures var st' := Step(opt, st, Rto(s)).state;
              && st'.acked == st.acked && st'.ackLog == st.ackLog
              && if Sent(st, id) <= opt.maxRetx then IsResent(st, st', id) else IsGivenUp(st, st', id.packet)
    {
      forall j | Carries(st, j, s) ensures j == id { OneCarrier(st, id, j, s); }
      assert Step(opt, st, Rto(s)) == Lose(opt, st, id);
      assert Sent(st, id) == st.live[id].retx + 1;
    }
  }

  /** Some listed fragment of packet p has no retransmission left. */
  ghost predicate UsesUp(opt: Options, live: map<FragId, Frag>, ids: seq<FragId>, p: nat) {
    exists i :: i in ids && i in live && i.packet == p && live[i].retx >= opt.maxRetx
  }

  ghost predicate LossesDone(opt: Options, st: State, ids: seq<FragId>, st': State) {
    && st'.acked == st.acked && st'.ackLog == st.ackLog && |st'.txLog| >= |st.txLog|
    && (forall j :: j in st'.live ==> j in st.live)
    && forall j :: j in st.live ==>
         if UsesUp(opt, st.live, ids, j.packet) then j !in st'.live
         else j in st'.live && if j in ids then st'.live[j].txNo >= |st.txLog| && st'.live[j].retx == st.live[j].retx + 1
                               else st'.live[j] == st.live[j]
  }

  ghost predicate NoTwice(ids: seq<FragId>) {
    forall i, j :: 0 <= i < j < |ids| ==> ids[i] != ids[j]
  }

  lemma ResendDone(opt: Options, st: State, ids: seq<FragId>, st1: State, st': State)
    requires ids != [] && NoTwice(ids) && ids[0] in st.live && st.live[ids[0]].retx < opt.maxRetx
    requires st1.live == st.live[ids[0] := Frag(|st.txLog|, st.live[ids[0]].retx + 1, 0)]
    requires |st1.txLog| == |st.txLog| + 1 && st1.acked == st.acked && st1.ackLog == st.ackLog
    requires LossesDone(opt, st1, ids[1..], st')
    ensures LossesDone(opt, st, ids, st')
  {
    assert ids == [ids[0]] + ids[1..];
    assert ids[0] !in ids[1..];
    forall p: nat ensures UsesUp(opt, st.live, ids, p) <==> UsesUp(opt, st1.live, ids[1..], p) {
      if UsesUp(opt, st.live, ids, p) {
        var i :| i in ids && i in st.live && i.packet == p && st.live[i].retx >= opt.maxRetx;
        assert i in ids[1..] && st1.live[i] == st.live[i];
      }
      if UsesUp(opt, st1.live, ids[1..], p) {
        var i :| i in ids[1..] && i in st1.live && i.packet == p && st1.live[i].retx >= opt.maxRetx;
        assert i in ids && i != ids[0] && st.live[i] == st1.live[i];
      }
    }
  }

  lemma ExhaustDone(opt: Options, st: State, ids: seq<FragId>, st1: State, st': State)
    requires ids != [] && ids[0] in st.live && st.live[ids[0]].retx >= opt.maxRetx
    requires st1.live == map j | j in st.live && j.packet != ids[0].packet :: st.live[j]
    requires st1.txLog == st.txLog && st1.acked == st.acked && st1.ackLog == st.ackLog
    requires LossesDone(opt, st1, ids[1..], st')
    ensures LossesDone(opt, st, ids, st')
  {
    assert ids == [ids[0]] + ids[1..];
    assert UsesUp(opt, st.live, ids, ids[0].packet);
    forall p: nat | p != ids[0].packet ensures UsesUp(opt, st.live, ids, p) <==> UsesUp(opt, st1.live, ids[1..], p) {
      if UsesUp(opt, st.live, ids, p) {
        var i :| i in ids && i in st.live && i.packet == p && st.live[i].retx >= opt.maxRetx;
        assert i in ids[1..] && st1.live[i] == st.live[i];
      }
      if UsesUp(opt, st1.live, ids[1..], p) {
        var i :| i in ids[1..] && i in st1.live && i.packet == p && st1.live[i].retx >= opt.maxRetx;
        assert i in ids;
      }
    }
  }

  lemma SkipDone(opt: Options, st: State, ids: seq<FragId>, st': State)
    requires ids != [] && ids[0] !in st.live && LossesDone(opt, st, ids[1..], st')
    ensures LossesDone(opt, st, ids, st')
  {
    assert ids == [ids[0]] + ids[1..];
    forall p: nat ensures UsesUp(opt, st.live, ids, p) <==> UsesUp(opt, st.live, ids[1..], p) {
      if UsesUp(opt, st.live, ids[1..], p) {
        var i :| i in ids[1..] && i in st.live && i.packet == p && st.live[i].retx >= opt.maxRetx;
        assert i in ids;
      }
    }
  }

  lemma {:induction false} LoseAllDoes(opt: Options, st: State, ids: seq<FragId>)
    requires NoTwice(ids) && forall j :: j in st.live ==> j.packet < |st.packets|
    ensures LoseAll(opt, st, ids).Running? ==> LossesDone(opt, st, ids, LoseAll(opt, st, ids).state)
    decreases |ids|
  {
    if ids == [] {
      NothingLost(opt, st);
    } else if LoseAll(opt, st, ids).Running? {
      hide LossesDone;
      if ids[0] in st.live {
        var st1 := Lose(opt, st, ids[0]).state;
        LoseAllDoes(opt, st1, ids[1..]);
        if st.live[ids[0]].retx >= opt.maxRetx {
          ExhaustDone(opt, st, ids, st1, LoseAll(opt, st, ids).state);
        } else {
          ResendDone(opt, st, ids, st1, LoseAll(opt, st, ids).state);
        }
      } else {
        LoseAllDoes(opt, st, ids[1..]);
        SkipDone(opt, st, ids, LoseAll(opt, st, ids).state);
      }
    }
  }

  lemma NothingLost(opt: Options, st: State)
    ensures LossesDone(opt, st, [], st)
  {
  }

  // ---------------------------------------------------------------- Acks

  /** Fragment j was transmitted before the one acknowledged, and has now seen as many Acks for later
      transmissions as the loss threshold asks for. */
  ghost predicate Reached(opt: Options, st: State, id: FragId, j: FragId)
    requires id in st.live
  {
    && j in st.live && st.live[j].txNo < st.live[id].txNo
    && CountGreater(st.ackLog + [st.live[id].txNo], st.live[j].txNo) >= opt.lossThreshold
  }

  /** Some fragment of packet p that reached the threshold was transmitted 1 + maxRetx times. */
  ghost predicate PacketUsedUp(opt: Options, st: State, id: FragId, p: nat)
    requires id in st.live
  {
    exists i: FragId :: i.packet == p && Reached(opt, st, id, i) && Sent(st, i) == opt.maxRetx + 1
  }

  /** What an Ack does to fragment j. */
  ghost predicate FateOf(opt: Options, st: State, id: FragId, st': State, j: FragId)
    requires id in st.live && j in st.live && j != id
  {
    if PacketUsedUp(opt, st, id, j.packet) then j !in st'.live
    else
      && j in st'.live
      && if Reached(opt, st, id, j) then st'.live[j].txNo >= |st.txLog| && Sent(st', j) == Sent(st, j) + 1
         else st'.live[j].txNo == st.live[j].txNo && Sent(st', j) == Sent(st, j)
  }

  lemma CountGreaterNext(log: seq<nat>, a: nat, n: nat)
    ensures CountGreater(log + [a], n) == CountGreater(log, n) + if a > n then 1 else 0
  {
    assert (log + [a])[..|log|] == log;
  }

  lemma {:induction false} LostTwice(live: map<FragId, Frag>, txLog: seq<FragId>, threshold: nat, a: nat)
    requires a <= |txLog|
    ensures NoTwice(LostBefore(live, txLog, threshold, a))
  {
    if a > 0 {
      LostTwice(live, txLog, threshold, a - 1);
      LostBeforeMember(live, txLog, threshold, a - 1, txLog[a - 1]);
    }
  }

  lemma LostAreReached(opt: Options, st: State, id: FragId, j: FragId)
    requires InvTx(st) && InvAcks(st) && id in st.live
    ensures var a := st.live[id].txNo;
            j in LostBefore(CountAck(st.live, a), st.txLog, opt.lossThreshold, a) <==> Reached(opt, st, id, j)
  {
    var a := st.live[id].txNo;
    var counted := CountAck(st.live, a);
    LostBeforeMember(counted, st.txLog, opt.lossThreshold, a, j);
    if j in st.live {
      CountGreaterNext(st.ackLog, a, st.live[j].txNo);
      assert counted[j].txNo == st.live[j].txNo;
      if Reached(opt, st, id, j) {
        assert st.txLog[st.live[j].txNo] == j && IsLost(counted, opt.lossThreshold, j, st.live[j].txNo);
      }
    }
  }

  lemma UsesUpIs(opt: Options, st: State, id: FragId, p: nat)
    requires InvTx(st) && InvAcks(st) && InvRetx(opt, st) && id in st.live
    ensures st.live[id].txNo < |st.txLog|
    ensures var a := st.live[id].txNo;
            var counted := CountAck(st.live, a);
            UsesUp(opt, counted - {id}, LostBefore(counted, st.txLog, opt.lossThreshold, a), p) <==> PacketUsedUp(opt, st, id, p)
  {
    hide InvTx, InvAcks, Reached, LostBefore;
    TxBound(st, id);
    var a := st.live[id].txNo;
    var counted := CountAck(st.live, a);
    var ids := LostBefore(counted, st.txLog, opt.lossThreshold, a);
    if UsesUp(opt, counted - {id}, ids, p) {
      var i :| i in ids && i in counted - {id} && i.packet == p && counted[i].retx >= opt.maxRetx;
      LostAreReached(opt, st, id, i);
      assert Sent(st, i) == st.live[i].retx + 1;
    }
    if PacketUsedUp(opt, st, id, p) {
      var i: FragId :| i.packet == p && Reached(opt, st, id, i) && Sent(st, i) == opt.maxRetx + 1;
      LostAreReached(opt, st, id, i);
      NotItself(opt, st, id, i);
      assert i in counted - {id} && counted[i].retx >= opt.maxRetx;
    }
  }

  lemma NotItself(opt: Options, st: State, id: FragId, i: FragId)
    requires id in st.live && Reached(opt, st, id, i)
    ensures i in st.live && i != id
  {
  }

  /** An Ack for an outstanding fragment acknowledges it, and exactly the earlier fragments that have
      now reached the loss threshold are transmitted again, or given up with their packet; all others
      stay as they were. */
  lemma AckDoes(opt: Options, st: State, s: Seq64, id: FragId)
    requires Inv(opt, st) && Carries(st, id, s) && Step(opt, st, Ack(s)).Running?
    ensures var st' := Step(opt, st, Ack(s)).state;
            && st'.acked == st.acked + {id} && st'.ackLog == st.ackLog + [st.live[id].txNo] && id !in st'.live
            && forall j :: j in st.live && j != id ==> FateOf(opt, st, id, st', j)
  {
    hide InvHanded, InvPackets, InvCount, InvLoss, InvTx, InvAcks, CountGreater, LostBefore, Retire, LoseAll, CountAck, Reached, PacketUsedUp, Sent;
    forall j | Carries(st, j, s) ensures j == id { OneCarrier(st, id, j, s); }
    TxBound(st, id);
    assert Step(opt, st, Ack(s)) == AckFrag(opt, st, id);
    StepKeepsInv(opt, st, Ack(s));
    var a := st.live[id].txNo;
    var counted := CountAck(st.live, a);
    var ids := LostBefore(counted, st.txLog, opt.lossThreshold, a);
    var mid := Retire(st, id, counted);
    RetireDoes(st, id);
    LostTwice(counted, st.txLog, opt.lossThreshold, a);
    LoseAllDoes(opt, mid, ids);
    var st' := Step(opt, st, Ack(s)).state;
    forall j | j in st.live && j != id ensures FateOf(opt, st, id, st', j) {
      LostAreReached(opt, st, id, j);
      UsesUpIs(opt, st, id, j.packet);
      FateFollows(opt, st, id, mid, ids, st', j);
    }
  }

  lemma RetireDoes(st: State, id: FragId)
    requires InvLive(st) && id in st.live
    ensures var mid := Retire(st, id, CountAck(st.live, st.live[id].txNo));
            && mid.live == CountAck(st.live, st.live[id].txNo) - {id} && mid.txLog == st.txLog
            && mid.acked == st.acked + {id} && mid.ackLog == st.ackLog + [st.live[id].txNo] && |mid.packets| == |st.packets|
            && (forall j :: j in st.live && j != id ==> j in mid.live)
            && forall j :: j in mid.live ==> j.packet < |mid.packets| && j in st.live && j != id
                                             && mid.live[j].txNo == st.live[j].txNo && mid.live[j].retx == st.live[j].retx
  {
  }

  lemma FateFollows(opt: Options, st: State, id: FragId, mid: State, ids: seq<FragId>, st': State, j: FragId)
    requires InvRetx(opt, st) && InvRetx(opt, st') && id in st.live && j in st.live && j != id
    requires LossesDone(opt, mid, ids, st') && mid.txLog == st.txLog
    requires j in mid.live && mid.live[j].txNo == st.live[j].txNo && mid.live[j].retx == st.live[j].retx
    requires j in ids <==> Reached(opt, st, id, j)
    requires UsesUp(opt, mid.live, ids, j.packet) <==> PacketUsedUp(opt, st, id, j.packet)
    ensures FateOf(opt, st, id, st', j)
  {
    hide Reached, PacketUsedUp, UsesUp, Sent;
    assert Sent(st, j) == st.live[j].retx + 1;
    if j in st'.live {
      assert Sent(st', j) == st'.live[j].retx + 1;
    }
  }

  /** An Ack for a number that is not outstanding does nothing. */
  lemma StaleAckDoesNothing(opt: Options, st: State, s: Seq64)
    requires Inv(opt, st) && forall id :: !Carries(st, id, s)
    ensures Step(opt, st, Ack(s)) == Running(st)
  {
    hide Inv;
  }
}
