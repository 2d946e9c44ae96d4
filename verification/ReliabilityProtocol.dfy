/** The link reliability protocol, stated without wrap-around, window start or back index.
    Transmissions are numbered 0, 1, 2, ... without bound; the TxSequence of transmission n is
    n modulo 2^64. `LpReliability` (LpReliability.dfy) is proved to follow this protocol. */
module ReliabilityProtocol {
  import opened Sequence64

  datatype Options = Options(maxRetx: nat, lossThreshold: nat)

  /** The index-th fragment of the packet-th network packet handed to the link. */
  datatype FragId = FragId(packet: nat, index: nat)

  /** An unacknowledged fragment: number of its latest transmission, retransmissions so far,
      and Acks seen for later transmissions. */
  datatype Frag = Frag(txNo: nat, retx: nat, laterAcks: nat)

  datatype Status = Pending | Acknowledged | Retransmitted | Exhausted
  datatype Packet = Packet(nFrags: nat, didRetx: bool, status: Status)

  /** `live` and `packets` are the protocol state; the other fields record the run:
      every transmission, every accepted Ack (by transmission number), the fragments acknowledged,
      the fragments handed to the link, and how often a fragment was considered lost. */
  datatype State = State(
    live: map<FragId, Frag>,
    packets: seq<Packet>,
    txLog: seq<FragId>,
    ackLog: seq<nat>,
    acked: set<FragId>,
    handed: set<FragId>,
    nLosses: nat)

  /** `RangeExceeded` is the std::length_error that ends a run. */
  datatype Outcome = Running(state: State) | RangeExceeded

  datatype Event = Send(nFrags: nat) | Ack(txSeq: Seq64) | Rto(txSeq: Seq64)

  const INIT := State(map[], [], [], [], {}, {}, 0)

  /** The next transmission number would reuse the TxSequence of a live fragment. */
  ghost predicate WindowFull(st: State) {
    exists id :: id in st.live && st.live[id].txNo + MOD == |st.txLog|
  }

  ghost function Transmit(st: State, id: FragId, retx: nat): Outcome {
    if WindowFull(st) then RangeExceeded
    else Running(st.(live := st.live[id := Frag(|st.txLog|, retx, 0)], txLog := st.txLog + [id]))
  }

  /** First transmission of the next fragment of packet p. */
  ghost function SendOne(st: State, p: nat): Outcome
    requires p < |st.packets|
  {
    var pk := st.packets[p];
    var id := FragId(p, pk.nFrags);
    Transmit(st.(packets := st.packets[p := pk.(nFrags := pk.nFrags + 1)], handed := st.handed + {id}), id, 0)
  }

  ghost function SendFrags(st: State, p: nat, n: nat): Outcome
    requires p < |st.packets|
    decreases n
  {
    if n == 0 then Running(st)
    else
      var o := SendFrags(st, p, n - 1);
      if o.RangeExceeded? || p >= |o.state.packets| then o else SendOne(o.state, p)
  }

  ghost function AddPacket(st: State): State {
    st.(packets := st.packets + [Packet(0, false, Pending)])
  }

  /** Resend a lost fragment, or give up on its whole packet. */
  ghost function Lose(opt: Options, st: State, id: FragId): Outcome
    requires id in st.live && id.packet < |st.packets|
  {
    var p := id.packet;
    var pk := st.packets[p];
    if st.live[id].retx >= opt.maxRetx then
      Running(st.(live := map j | j in st.live && j.packet != p :: st.live[j],
                  packets := st.packets[p := pk.(status := Exhausted)],
                  nLosses := st.nLosses + 1))
    else
      Transmit(st.(packets := st.packets[p := pk.(didRetx := true)], nLosses := st.nLosses + 1),
               id, st.live[id].retx + 1)
  }

  /** Lose every listed fragment that is still outstanding. */
  ghost function LoseAll(opt: Options, st: State, ids: seq<FragId>): Outcome
    decreases |ids|
  {
    if ids == [] then Running(st)
    else if ids[0] in st.live && ids[0].packet < |st.packets| then
      var o := Lose(opt, st, ids[0]);
      if o.RangeExceeded? then o else LoseAll(opt, o.state, ids[1..])
    else LoseAll(opt, st, ids[1..])
  }

  /** Every fragment transmitted before transmission `a` has seen one more later Ack. */
  ghost function CountAck(live: map<FragId, Frag>, a: nat): map<FragId, Frag> {
    map j | j in live ::
      if live[j].txNo < a then live[j].(laterAcks := live[j].laterAcks + 1) else live[j]
  }

  ghost predicate IsLost(live: map<FragId, Frag>, threshold: nat, id: FragId, t: nat) {
    id in live && live[id].txNo == t && live[id].laterAcks >= threshold
  }

  /** The fragments whose latest transmission is before `a` and that reached the threshold,
      in transmission order. */
  ghost function LostBefore(live: map<FragId, Frag>, txLog: seq<FragId>, threshold: nat, a: nat): seq<FragId>
    requires a <= |txLog|
  {
    if a == 0 then []
    else
      LostBefore(live, txLog, threshold, a - 1) +
      (if IsLost(live, threshold, txLog[a - 1], a - 1) then [txLog[a - 1]] else [])
  }

  ghost predicate HasLive(live: map<FragId, Frag>, p: nat) {
    exists j :: j in live && j.packet == p
  }

  ghost function Complete(pk: Packet): Packet {
    pk.(status := if pk.didRetx then Retransmitted else Acknowledged)
  }

  /** The acknowledged fragment leaves the window; its packet completes with its last fragment. */
  ghost function Retire(st: State, id: FragId, counted: map<FragId, Frag>): State
    requires id in st.live && id.packet < |st.packets|
  {
    var rest := counted - {id};
    var p := id.packet;
    st.(live := rest,
        packets := if HasLive(rest, p) then st.packets else st.packets[p := Complete(st.packets[p])],
        ackLog := st.ackLog + [st.live[id].txNo],
        acked := st.acked + {id})
  }

  ghost function AckFrag(opt: Options, st: State, id: FragId): Outcome
    requires id in st.live && id.packet < |st.packets| && st.live[id].txNo <= |st.txLog|
  {
    var a := st.live[id].txNo;
    var counted := CountAck(st.live, a);
    LoseAll(opt, Retire(st, id, counted), LostBefore(counted, st.txLog, opt.lossThreshold, a))
  }

  ghost predicate Carries(st: State, id: FragId, s: Seq64) {
    id in st.live && Wrap(st.live[id].txNo) == s
  }

  // ---------------------------------------------------------------- invariants

  function Sent(st: State, id: FragId): nat {
    multiset(st.txLog)[id]
  }

  function CountGreater(log: seq<nat>, n: nat): nat {
    if log == [] then 0
    else CountGreater(log[..|log| - 1], n) + if log[|log| - 1] > n then 1 else 0
  }

  function CountStatus(ps: seq<Packet>, s: Status): nat {
    if ps == [] then 0 else CountStatus(ps[..|ps| - 1], s) + if ps[|ps| - 1].status == s then 1 else 0
  }

  /** A live fragment's number is that of its latest transmission, less than 2^64 ago. */
  ghost predicate TxOk(live: map<FragId, Frag>, txLog: seq<FragId>) {
    forall id :: id in live ==>
      && live[id].txNo < |txLog| <= live[id].txNo + MOD
      && txLog[live[id].txNo] == id
      && forall t :: live[id].txNo < t < |txLog| ==> txLog[t] != id
  }

  ghost predicate InvTx(st: State) {
    TxOk(st.live, st.txLog)
  }

  /** Retransmission counts are honest and bounded. */
  ghost predicate InvRetx(opt: Options, st: State) {
    && (forall id :: id in st.live ==> st.live[id].retx <= opt.maxRetx && Sent(st, id) == st.live[id].retx + 1)
    && (forall id :: Sent(st, id) <= opt.maxRetx + 1)
  }

  /** The fragments handed over are those of the packets, and exactly those were transmitted. */
  ghost predicate InvHanded(st: State) {
    && (forall id :: Sent(st, id) > 0 <==> id in st.handed)
    && (forall id :: id in st.handed <==> id.packet < |st.packets| && id.index < st.packets[id.packet].nFrags)
  }

  ghost predicate InvEffort(opt: Options, st: State) {
    InvRetx(opt, st) && InvHanded(st)
  }

  /** A fragment is live only while its packet is pending and it has not been acknowledged. */
  ghost predicate InvLive(st: State) {
    && st.acked <= st.handed
    && forall id :: id in st.live ==>
         id in st.handed && id !in st.acked && id.packet < |st.packets| && st.packets[id.packet].status == Pending
  }

  /** Some fragment of packet p was transmitted more than once. */
  ghost predicate Resent(st: State, p: nat) {
    exists id: FragId :: id.packet == p && Sent(st, id) > 1
  }

  /** Some unacknowledged fragment of packet p used up its transmissions. */
  ghost predicate GaveUp(opt: Options, st: State, p: nat) {
    exists id: FragId :: id.packet == p && id !in st.acked && Sent(st, id) == opt.maxRetx + 1
  }

  ghost predicate AllAcked(st: State, p: nat) {
    forall id :: id in st.handed && id.packet == p ==> id in st.acked
  }

  /** What each class of packet means. */
  ghost predicate InvPacket(opt: Options, st: State, p: nat)
    requires p < |st.packets|
  {
    var pk := st.packets[p];
    && (pk.didRetx <==> Resent(st, p))
    && match pk.status
       case Pending =>
         && (pk.nFrags > 0 ==> HasLive(st.live, p))
         && forall id :: id in st.handed && id.packet == p ==> id in st.live || id in st.acked
       case Acknowledged => AllAcked(st, p) && !pk.didRetx
       case Retransmitted => AllAcked(st, p) && pk.didRetx
       case Exhausted => GaveUp(opt, st, p)
  }

  ghost predicate InvPackets(opt: Options, st: State) {
    forall p :: 0 <= p < |st.packets| ==> InvPacket(opt, st, p)
  }

  /** `laterAcks` is exactly the number of accepted Acks for later transmissions. */
  ghost predicate AcksOk(live: map<FragId, Frag>, txLog: seq<FragId>, ackLog: seq<nat>) {
    && (forall i :: 0 <= i < |ackLog| ==> ackLog[i] < |txLog|)
    && (forall id :: id in live ==> live[id].laterAcks == CountGreater(ackLog, live[id].txNo))
  }

  ghost predicate InvAcks(st: State) {
    AcksOk(st.live, st.txLog, st.ackLog)
  }

  /** Outside `due`, no live fragment has reached the loss threshold. */
  ghost predicate LossOk(opt: Options, live: map<FragId, Frag>, due: set<FragId>) {
    opt.lossThreshold > 0 ==>
      forall id :: id in live && id !in due ==> live[id].laterAcks < opt.lossThreshold
  }

  ghost predicate InvLoss(opt: Options, st: State, due: set<FragId>) {
    LossOk(opt, st.live, due)
  }

  /** Every loss either retransmitted a fragment or exhausted a packet. */
  ghost predicate InvCount(st: State) {
    st.nLosses + |st.handed| == |st.txLog| + CountStatus(st.packets, Exhausted)
  }

  ghost predicate InvBut(opt: Options, st: State, due: set<FragId>) {
    && InvTx(st) && InvEffort(opt, st) && InvLive(st) && InvPackets(opt, st)
    && InvAcks(st) && InvLoss(opt, st, due) && InvCount(st)
  }

  ghost predicate Inv(opt: Options, st: State) {
    InvBut(opt, st, {})
  }

  ghost function Step(opt: Options, st: State, e: Event): Outcome
    requires Inv(opt, st)
  {
    match e
    case Send(n) => if n == 0 then Running(st) else SendFrags(AddPacket(st), |st.packets|, n)
    case Ack(s) =>
      if id :| Carries(st, id, s) then AckFrag(opt, st, id) else Running(st)
    case Rto(s) =>
      if id :| Carries(st, id, s) then Lose(opt, st, id) else Running(st)
  }
}
