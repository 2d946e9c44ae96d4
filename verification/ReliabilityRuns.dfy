/** What holds after every run of the reliability protocol. */
module ReliabilityRuns {
  import opened Sequence64
  import opened ReliabilityProtocol
  import opened ReliabilityInvariants

  ghost predicate NonEmptyPackets(st: State) {
    forall p :: 0 <= p < |st.packets| ==> st.packets[p].nFrags > 0
  }

  /** Loss steps and Acks neither add packets nor change their size. */
  ghost predicate SameSizes(st: State, st': State) {
    && |st'.packets| == |st.packets|
    && forall p :: 0 <= p < |st.packets| ==> st'.packets[p].nFrags == st.packets[p].nFrags
  }

  lemma {:induction false} LoseAllSameSizes(opt: Options, st: State, ids: seq<FragId>)
    ensures LoseAll(opt, st, ids).Running? ==> SameSizes(st, LoseAll(opt, st, ids).state)
    decreases |ids|
  {
    if ids != [] {
      if ids[0] in st.live && ids[0].packet < |st.packets| {
        var o := Lose(opt, st, ids[0]);
        if o.Running? { LoseAllSameSizes(opt, o.state, ids[1..]); }
      } else {
        LoseAllSameSizes(opt, st, ids[1..]);
      }
    }
  }

  lemma {:induction false} SendFragsSizes(st: State, p: nat, n: nat)
    requires p < |st.packets|
    ensures SendFrags(st, p, n).Running? ==>
              var st' := SendFrags(st, p, n).state;
              && |st'.packets| == |st.packets|
              && st'.packets[p].nFrags == st.packets[p].nFrags + n
              && forall q :: 0 <= q < |st.packets| && q != p ==> st'.packets[q] == st.packets[q]
    decreases n
  {
    if n > 0 { SendFragsSizes(st, p, n - 1); }
  }

  lemma StepKeepsInv(opt: Options, st: State, e: Event)
    requires Inv(opt, st)
    ensures Step(opt, st, e).Running? ==> Inv(opt, Step(opt, st, e).state)
  {
    match e
    case Send(n) =>
      if n > 0 {
        AddPacketKeepsInv(opt, st);
        SendFragsKeepsInv(opt, AddPacket(st), |st.packets|, n);
      }
    case Ack(s) =>
      forall id | Carries(st, id, s) { AckKeepsInv(opt, st, id); }
    case Rto(s) =>
      forall id | Carries(st, id, s) { LoseKeepsInv(opt, st, id, {}); }
  }

  lemma StepSizes(opt: Options, st: State, e: Event)
    requires Inv(opt, st) && NonEmptyPackets(st)
    ensures Step(opt, st, e).Running? ==>
              && NonEmptyPackets(Step(opt, st, e).state)
              && |Step(opt, st, e).state.packets| == |st.packets| + if e.Send? && e.nFrags > 0 then 1 else 0
  {
    hide InvEffort, InvPackets, InvAcks, InvCount, InvLoss;
    match e
    case Send(n) =>
      if n > 0 { SendFragsSizes(AddPacket(st), |st.packets|, n); }
    case Ack(s) =>
      forall id | Carries(st, id, s)
        ensures AckFrag(opt, st, id).Running? ==> SameSizes(st, AckFrag(opt, st, id).state)
      {
        var a := st.live[id].txNo;
        var counted := CountAck(st.live, a);
        LoseAllSameSizes(opt, Retire(st, id, counted), LostBefore(counted, st.txLog, opt.lossThreshold, a));
      }
    case Rto(s) =>
  }

  function Sends(es: seq<Event>): nat {
    if es == [] then 0
    else Sends(es[..|es| - 1]) + if es[|es| - 1].Send? && es[|es| - 1].nFrags > 0 then 1 else 0
  }

  /** The state after the events `es`, in any order and number, from a state that satisfies `Inv`. */
  ghost function Steps(opt: Options, st: State, es: seq<Event>): (o: Outcome)
    requires Inv(opt, st) && NonEmptyPackets(st)
    ensures o.Running? ==>
              Inv(opt, o.state) && NonEmptyPackets(o.state) && |o.state.packets| == |st.packets| + Sends(es)
  {
    if es == [] then Running(st)
    else
      var o := Steps(opt, st, es[..|es| - 1]);
      if o.RangeExceeded? then o
      else
        StepKeepsInv(opt, o.state, es[|es| - 1]);
        StepSizes(opt, o.state, es[|es| - 1]);
        Step(opt, o.state, es[|es| - 1])
  }

  /** A run of the link from its start. */
  ghost function Run(opt: Options, es: seq<Event>): (o: Outcome)
    ensures o.Running? ==> Inv(opt, o.state) && NonEmptyPackets(o.state) && |o.state.packets| == Sends(es)
  {
    InitInv(opt);
    Steps(opt, INIT, es)
  }

  // ---------------------------------------------------------------- conservation

  /** Every packet handed to the link is in exactly one class, and the classes mean what the
      counters promise. */
  lemma PacketClasses(opt: Options, es: seq<Event>, p: nat)
    requires Run(opt, es).Running? && p < |Run(opt, es).state.packets|
    ensures var st := Run(opt, es).state;
            var status := st.packets[p].status;
            && (status == Pending <==> HasLive(st.live, p))
            && (status == Acknowledged <==> AllAcked(st, p) && !Resent(st, p))
            && (status == Retransmitted <==> AllAcked(st, p) && Resent(st, p))
            && (status == Exhausted <==> !AllAcked(st, p) && !HasLive(st.live, p))
            && (status == Exhausted ==> GaveUp(opt, st, p))
  {
    var st := Run(opt, es).state;
    assert InvPacket(opt, st, p);
    if st.packets[p].status == Pending {
      var id :| id in st.live && id.packet == p;
      assert id in st.handed && id !in st.acked;
    }
    if GaveUp(opt, st, p) {
      var id: FragId :| id.packet == p && id !in st.acked && Sent(st, id) == opt.maxRetx + 1;
      assert id in st.handed;
    }
  }

  /** The packets of a class, by what happened to them. */
  ghost function AckedAtOnce(st: State): set<nat> {
    set p | 0 <= p < |st.packets| && AllAcked(st, p) && !Resent(st, p)
  }

  ghost function AckedAfterResend(st: State): set<nat> {
    set p | 0 <= p < |st.packets| && AllAcked(st, p) && Resent(st, p)
  }

  ghost function NeverAcked(st: State): set<nat> {
    set p | 0 <= p < |st.packets| && !AllAcked(st, p) && !HasLive(st.live, p)
  }

  ghost function InFlight(st: State): set<nat> {
    set p | 0 <= p < |st.packets| && HasLive(st.live, p)
  }

  lemma {:induction false} CountIsSize(ps: seq<Packet>, s: Status, members: set<nat>)
    requires forall p :: p in members <==> 0 <= p < |ps| && ps[p].status == s
    ensures CountStatus(ps, s) == |members|
  {
    if ps == [] {
      assert members == {};
    } else {
      var n := |ps| - 1;
      CountIsSize(ps[..n], s, members - {n});
    }
  }

  /** Each counter is the number of packets to which what it promises happened, and together with the
      packets in flight they make up all packets handed to the link. */
  lemma Conservation(opt: Options, es: seq<Event>)
    requires Run(opt, es).Running?
    ensures var st := Run(opt, es).state;
            && CountStatus(st.packets, Acknowledged) == |AckedAtOnce(st)|
            && CountStatus(st.packets, Retransmitted) == |AckedAfterResend(st)|
            && CountStatus(st.packets, Exhausted) == |NeverAcked(st)|
            && Sends(es) == |AckedAtOnce(st)| + |AckedAfterResend(st)| + |NeverAcked(st)| + |InFlight(st)|
  {
    hide Run, Resent, HasLive, AllAcked, GaveUp, Inv;
    var st := Run(opt, es).state;
    forall p | 0 <= p < |st.packets|
      ensures p in AckedAtOnce(st) <==> st.packets[p].status == Acknowledged
      ensures p in AckedAfterResend(st) <==> st.packets[p].status == Retransmitted
      ensures p in NeverAcked(st) <==> st.packets[p].status == Exhausted
      ensures p in InFlight(st) <==> st.packets[p].status == Pending
    {
      PacketClasses(opt, es, p);
    }
    CountIsSize(st.packets, Acknowledged, AckedAtOnce(st));
    CountIsSize(st.packets, Retransmitted, AckedAfterResend(st));
    CountIsSize(st.packets, Exhausted, NeverAcked(st));
    CountIsSize(st.packets, Pending, InFlight(st));
    CountStatusTotal(st.packets);
  }

  // ---------------------------------------------------------------- bounded effort

  lemma {:induction false} MultisetBound(m: multiset<FragId>, ids: set<FragId>, k: nat)
    requires forall x :: x in m ==> x in ids && m[x] <= k
    ensures |m| <= |ids| * k
    decreases ids
  {
    if ids == {} {
      assert m == multiset{};
    } else {
      var x :| x in ids;
      var m' := m[x := 0];
      MultisetBound(m', ids - {x}, k);
      assert m == m' + multiset{}[x := m[x]];
      assert |ids| == |ids - {x}| + 1;
      assert |ids| * k == |ids - {x}| * k + k;
    }
  }

  lemma EffortBound(opt: Options, st: State)
    requires InvEffort(opt, st) && InvCount(st)
    ensures |st.txLog| <= |st.handed| * (1 + opt.maxRetx)
    ensures st.nLosses <= |st.handed| * opt.maxRetx + |st.packets|
  {
    assert forall id :: id in multiset(st.txLog) ==> Sent(st, id) > 0;
    MultisetBound(multiset(st.txLog), st.handed, 1 + opt.maxRetx);
    assert |st.handed| * (1 + opt.maxRetx) == |st.handed| + |st.handed| * opt.maxRetx;
    CountStatusTotal(st.packets);
  }

  /** No fragment is transmitted more than 1 + maxRetx times, and the number of losses a run can
      see is bounded by what was handed to the link, so without new packets losses end. */
  lemma BoundedEffort(opt: Options, es: seq<Event>)
    requires Run(opt, es).Running?
    ensures var st := Run(opt, es).state;
            && (forall id :: Sent(st, id) <= 1 + opt.maxRetx)
            && |st.txLog| <= |st.handed| * (1 + opt.maxRetx)
            && st.nLosses <= |st.handed| * opt.maxRetx + |st.packets|
  {
    hide InvTx, InvLive, InvPackets, InvAcks, InvCount, InvLoss;
    EffortBound(opt, Run(opt, es).state);
  }

  // ---------------------------------------------------------------- loss detection and the window

  /** In every reachable state each live fragment has counted exactly the Acks accepted for later
      transmissions, and none has reached the loss threshold. */
  lemma LossDetection(opt: Options, es: seq<Event>, id: FragId)
    requires Run(opt, es).Running? && id in Run(opt, es).state.live
    ensures var st := Run(opt, es).state;
            && st.live[id].laterAcks == CountGreater(st.ackLog, st.live[id].txNo)
            && (opt.lossThreshold > 0 ==> CountGreater(st.ackLog, st.live[id].txNo) < opt.lossThreshold)
  {
  }

  lemma CyclicOrder(st: State, oldest: FragId, a: FragId, b: FragId)
    requires InvTx(st) && oldest in st.live && a in st.live && b in st.live
    requires forall j :: j in st.live ==> st.live[oldest].txNo <= st.live[j].txNo
    ensures var o := Wrap(st.live[oldest].txNo);
            && (Wrap(st.live[a].txNo) == Wrap(st.live[b].txNo) <==> a == b)
            && (Dist(o, Wrap(st.live[a].txNo)) < Dist(o, Wrap(st.live[b].txNo)) <==>
                st.live[a].txNo < st.live[b].txNo)
            && Dist(o, Wrap(st.live[a].txNo)) <= Dist(o, Wrap(|st.txLog| - 1))
  {
    var o, m, n := st.live[oldest].txNo, st.live[a].txNo, st.live[b].txNo;
    assert st.txLog[m] == a && st.txLog[n] == b;
    WrapDist(o, m);
    WrapDist(o, n);
    WrapDist(o, |st.txLog| - 1);
  }

  /** Live TxSequences are distinct, and their cyclic order from the oldest one is the order of
      transmission, even after the 64-bit numbers wrap. */
  lemma WindowOrder(opt: Options, es: seq<Event>, oldest: FragId, a: FragId, b: FragId)
    requires Run(opt, es).Running?
    requires var live := Run(opt, es).state.live;
             && oldest in live && a in live && b in live
             && forall j :: j in live ==> live[oldest].txNo <= live[j].txNo
    ensures var live := Run(opt, es).state.live;
            var o := Wrap(live[oldest].txNo);
            && (Wrap(live[a].txNo) == Wrap(live[b].txNo) <==> a == b)
            && (Dist(o, Wrap(live[a].txNo)) < Dist(o, Wrap(live[b].txNo)) <==> live[a].txNo < live[b].txNo)
            && Dist(o, Wrap(live[a].txNo)) <= Dist(o, Wrap(|Run(opt, es).state.txLog| - 1))
  {
    hide Run, InvTx, InvEffort, InvLive, InvPackets, InvAcks, InvCount, InvLoss;
    CyclicOrder(Run(opt, es).state, oldest, a, b);
  }
}
