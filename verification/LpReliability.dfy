/** LpReliability as the link service runs it: TxSequences modulo 2^64, an iterator at the first
    unacknowledged fragment, and for each network packet a vector of its unacknowledged fragments.
    Every method is proved to follow `ReliabilityProtocol`. */
module LpReliabilityModel {
  import opened Wrappers
  import opened Sequence64
  import opened SendWindow
  import opened ReliabilityProtocol
  import opened ReliabilityInvariants
  import opened ReliabilityRuns
  import opened LpReliabilityMaps

  class LpReliability {
    const opt: Options
    var unackedFrags: map<Seq64, UnackedFrag>
    var firstUnackedFrag: Iter
    var lastTxSeqNo: Seq64
    var netPkts: map<nat, NetPkt>
    var timers: set<Seq64>                  // fragments with a pending RTO timer
    var nHanded: nat                        // network packets handed over so far; names the next one
    var nAcknowledged: nat
    var nRetransmitted: nat
    var nRetxExhausted: nat
    ghost var st: State                     // the protocol state these fields represent

    /** The fields represent the protocol state `st`. */
    ghost predicate Matches()
      reads this
    {
      && MapsMatch(st, unackedFrags, netPkts)
      && lastTxSeqNo == Wrap(|st.txLog| + MOD - 1)
      && IsFirst(firstUnackedFrag, unackedFrags.Keys, lastTxSeqNo)
      && timers == unackedFrags.Keys
      && CountersAgree(nHanded, nAcknowledged, nRetransmitted, nRetxExhausted, st.packets)
    }

    ghost predicate Valid()
      reads this
    {
      Matches() && Inv(opt, st) && NonEmptyPackets(st)
    }

    constructor (options: Options)
      ensures Valid() && opt == options && st == INIT
    {
      hide InvBut;
      opt := options;
      unackedFrags, firstUnackedFrag, lastTxSeqNo := map[], End, MOD - 1;
      netPkts, timers := map[], {};
      nHanded, nAcknowledged, nRetransmitted, nRetxExhausted := 0, 0, 0, 0;
      st := INIT;
      InitInv(options);
    }

    /** Returns false for the length_error thrown when the TxSequence range is exceeded. */
    method AssignTxSequence() returns (ok: bool)
      requires IsFirst(firstUnackedFrag, unackedFrags.Keys, lastTxSeqNo)
      modifies this`lastTxSeqNo
      ensures lastTxSeqNo == Next(old(lastTxSeqNo))
      ensures ok <==> lastTxSeqNo !in unackedFrags
      ensures ok ==> IsFirst(firstUnackedFrag, unackedFrags.Keys, lastTxSeqNo)
      ensures ok && unackedFrags != map[] ==>
                IsFirst(firstUnackedFrag, unackedFrags.Keys + {lastTxSeqNo}, lastTxSeqNo)
    {
      OneTestIsEnough(firstUnackedFrag, unackedFrags.Keys, lastTxSeqNo);
      if Next(lastTxSeqNo) !in unackedFrags {
        AssignKeepsFirst(firstUnackedFrag, unackedFrags.Keys, lastTxSeqNo);
      }
      lastTxSeqNo := Next(lastTxSeqNo);
      ok := !(|unackedFrags| > 0 && firstUnackedFrag == At(lastTxSeqNo));
    }

    method DeleteUnackedFrag(s: Seq64)
      requires s in unackedFrags
      requires IsFirst(firstUnackedFrag, unackedFrags.Keys, lastTxSeqNo)
      modifies this`unackedFrags, this`firstUnackedFrag, this`timers
      ensures unackedFrags == old(unackedFrags) - {s} && timers == old(timers) - {s}
      ensures IsFirst(firstUnackedFrag, unackedFrags.Keys, lastTxSeqNo)
      ensures old(firstUnackedFrag) != At(s) ==> firstUnackedFrag == old(firstUnackedFrag)
    {
      var firstUnackedTxSeq := firstUnackedFrag.key;
      var keys := unackedFrags.Keys;
      unackedFrags := unackedFrags - {s};
      timers := timers - {s};
      assert unackedFrags.Keys == keys - {s};
      if unackedFrags != map[] && firstUnackedTxSeq == s {
        EraseKeepsFirst(s, keys, lastTxSeqNo);
        match After(unackedFrags.Keys, s)
        case End => firstUnackedFrag := At(Begin(unackedFrags.Keys));
        case At(k) => firstUnackedFrag := At(k);
      } else if unackedFrags == map[] {
        firstUnackedFrag := End;
      }
    }

    /** Walks the window from its first fragment to the acknowledged one. */
    method FindLostLpPackets(ackIt: Seq64) returns (lost: seq<Seq64>)
      requires Matches() && ackIt in unackedFrags
      modifies this`unackedFrags, this`st
      ensures Matches()
      ensures unackedFrags.Keys == old(unackedFrags.Keys)
      ensures unackedFrags[ackIt] == old(unackedFrags[ackIt])
      ensures var a := old(TxNo(ackIt, unackedFrags, st.live));
              && st == old(st).(live := CountAck(old(st).live, a))
              && a <= |st.txLog|
              && Named(lost, LostBefore(st.live, st.txLog, opt.lossThreshold, a), st.live)
    {
      hide Coupled, TxOk, IndexAgrees, PacketsAgree, InvLive, CountAck, TxNo, LostBefore, Wrap, IsFirst,
        Named, CountersAgree;
      ghost var frags, live, a := unackedFrags, st.live, TxNo(ackIt, unackedFrags, st.live);
      ghost var counted := CountAck(live, a);
      lost := [];
      var it := firstUnackedFrag;
      FirstExists(it, unackedFrags.Keys, lastTxSeqNo);
      ghost var k := it.key;
      WalkStart(st, frags, k, ackIt, opt.lossThreshold);
      while true
        invariant k in frags && k == if it.End? then Begin(frags.Keys) else it.key
        invariant st == old(st) && TxNo(k, frags, live) <= a <= |st.txLog|
        invariant Walked(unackedFrags, frags, live, TxNo(k, frags, live))
        invariant Named(lost, LostBefore(counted, st.txLog, opt.lossThreshold, TxNo(k, frags, live)), counted)
        decreases a - TxNo(k, frags, live)
      {
        if it.End? {
          it := At(Begin(unackedFrags.Keys));
        }
        if it.key == ackIt {
          break;
        }
        WalkOn(st, frags, unackedFrags, k, ackIt, lost, opt.lossThreshold);
        var f := unackedFrags[it.key];
        f := f.(nGreaterSeqAcks := f.nGreaterSeqAcks + 1);
        unackedFrags := unackedFrags[it.key := f];
        if f.nGreaterSeqAcks >= opt.lossThreshold {
          lost := lost + [it.key];
        }
        it := After(unackedFrags.Keys, it.key);
        k := Around(frags.Keys, k);
      }
      CountKeepsMatch(st, frags, unackedFrags, netPkts, a);
      st := st.(live := counted);
    }

    method OnLpPacketAcknowledged(s: Seq64)
      requires Matches() && s in unackedFrags
      modifies this`unackedFrags, this`firstUnackedFrag, this`timers, this`netPkts, this`nAcknowledged, this`nRetransmitted, this`st
      ensures Matches() && unackedFrags == old(unackedFrags) - {s}
      ensures old(unackedFrags[s].pkt in st.live && unackedFrags[s].pkt.packet < |st.packets|)
      ensures st == old(Retire(st, unackedFrags[s].pkt, st.live))
    {
      hide MapsMatch, IsFirst, Wrap, HasLive, CountStatus, NoRepeats;
      ghost var frags, pkts := unackedFrags, netPkts;
      EntryFacts(st, unackedFrags, netPkts, s);
      var p := unackedFrags[s].netPkt;
      var netPkt := netPkts[p];
      var i := Find(netPkt.unackedFrags, s);
      SwapAndPop(netPkt.unackedFrags, i);
      var v := netPkt.unackedFrags;
      v := v[i := v[|v| - 1]];
      v := v[..|v| - 1];
      RetireMatches(st, frags, pkts, s, v);
      if v == [] {
        CompleteCounts(st.packets, p);
        if netPkt.didRetx {
          nRetransmitted := nRetransmitted + 1;
        } else {
          nAcknowledged := nAcknowledged + 1;
        }
        netPkts := netPkts - {p};
      } else {
        netPkts := netPkts[p := netPkt.(unackedFrags := v)];
      }
      DeleteUnackedFrag(s);
      st := Retire(st, frags[s].pkt, st.live);
    }

    /** Deletes every fragment of a packet that gave up on `txSeq`, itself last. */
    method DeleteAll(v: seq<Seq64>, txSeq: Seq64) returns (removed: seq<Seq64>)
      requires NoRepeats(v) && txSeq in v && (forall s :: s in v ==> s in unackedFrags)
      requires IsFirst(firstUnackedFrag, unackedFrags.Keys, lastTxSeqNo)
      modifies this`unackedFrags, this`firstUnackedFrag, this`timers
      ensures unackedFrags == old(unackedFrags) - (set s | s in v)
      ensures timers == old(timers) - (set s | s in v)
      ensures IsFirst(firstUnackedFrag, unackedFrags.Keys, lastTxSeqNo)
      ensures forall s :: s in removed <==> s in v
    {
      hide IsFirst;
      removed := [];
      ghost var gone: set<Seq64> := {};
      for i := 0 to |v|
        invariant gone == (set s | s in v[..i]) - {txSeq}
        invariant unackedFrags == old(unackedFrags) - gone && timers == old(timers) - gone
        invariant IsFirst(firstUnackedFrag, unackedFrags.Keys, lastTxSeqNo)
        invariant forall s :: s in removed <==> s in gone
      {
        assert v[..i + 1] == v[..i] + [v[i]];
        assert v[i] !in v[..i];
        if v[i] != txSeq {
          removed := removed + [v[i]];
          DeleteUnackedFrag(v[i]);
          gone := gone + {v[i]};
        }
      }
      assert v[..|v|] == v;
      removed := removed + [txSeq];
      DeleteUnackedFrag(txSeq);
      assert gone + {txSeq} == set s | s in v;
    }

    /** The branch of onLpPacketLost taken when the fragment has no retransmissions left. */
    method GiveUp(txSeq: Seq64) returns (removed: seq<Seq64>)
      requires Matches() && txSeq in unackedFrags && unackedFrags[txSeq].retxCount >= opt.maxRetx
      modifies this`unackedFrags, this`firstUnackedFrag, this`netPkts, this`timers, this`nRetxExhausted, this`st
      ensures old(unackedFrags[txSeq].pkt in st.live && unackedFrags[txSeq].pkt.packet < |st.packets|)
      ensures old(Lose(opt, st, unackedFrags[txSeq].pkt)).Running?
      ensures Matches() && st == old(Lose(opt, st, unackedFrags[txSeq].pkt)).state
      ensures Erased(removed, old(unackedFrags), unackedFrags)
    {
      hide MapsMatch, IsFirst, Wrap, CountStatus, WindowFull;
      ghost var frags, pkts, s0 := unackedFrags, netPkts, st;
      EntryFacts(st, unackedFrags, netPkts, txSeq);
      timers := timers - {txSeq};
      var txFrag := unackedFrags[txSeq];
      var netPkt := netPkts[txFrag.netPkt];
      removed := DeleteAll(netPkt.unackedFrags, txSeq);
      ExhaustMatches(opt, st, frags, pkts, txSeq, set s | s in netPkt.unackedFrags);
      ExhaustCounts(st.packets, txFrag.netPkt);
      nRetxExhausted := nRetxExhausted + 1;
      netPkts := netPkts - {txFrag.netPkt};
      st := Lose(opt, st, txFrag.pkt).state;
    }

    /** Maps the fragment to its new TxSequence, also in the vector of its packet. */
    method Relocate(s: Seq64, nx: Seq64, f: UnackedFrag) returns (i: nat)
      requires s in unackedFrags && nx !in unackedFrags && IsFirst(firstUnackedFrag, unackedFrags.Keys + {nx}, lastTxSeqNo)
      requires f.netPkt in netPkts && s in netPkts[f.netPkt].unackedFrags
      modifies this`unackedFrags, this`firstUnackedFrag, this`timers, this`netPkts
      ensures unackedFrags == old(unackedFrags)[nx := f] - {s} && timers == old(timers) - {s}
      ensures IsFirst(firstUnackedFrag, unackedFrags.Keys, lastTxSeqNo)
      ensures old(i < |netPkts[f.netPkt].unackedFrags| && netPkts[f.netPkt].unackedFrags[i] == s)
      ensures netPkts == old(netPkts[f.netPkt := NetPkt(netPkts[f.netPkt].unackedFrags[i := nx], true)])
    {
      hide IsFirst;
      unackedFrags := unackedFrags[nx := f];
      assert unackedFrags.Keys == old(unackedFrags.Keys) + {nx};
      var netPkt := netPkts[f.netPkt];
      i := Find(netPkt.unackedFrags, s);
      netPkts := netPkts[f.netPkt := NetPkt(netPkt.unackedFrags[i := nx], true)];
      DeleteUnackedFrag(s);
    }

    /** The other branch: the fragment moves to a new TxSequence. */
    method Resend(txSeq: Seq64) returns (ok: bool, removed: seq<Seq64>)
      requires Matches() && txSeq in unackedFrags && unackedFrags[txSeq].retxCount < opt.maxRetx
      modifies this`unackedFrags, this`firstUnackedFrag, this`lastTxSeqNo, this`netPkts, this`timers, this`st
      ensures old(unackedFrags[txSeq].pkt in st.live && unackedFrags[txSeq].pkt.packet < |st.packets|)
      ensures ok <==> old(Lose(opt, st, unackedFrags[txSeq].pkt)).Running?
      ensures ok ==> Matches()
      ensures ok ==> st == old(Lose(opt, st, unackedFrags[txSeq].pkt)).state
      ensures ok ==> Erased(removed, old(unackedFrags), unackedFrags)
    {
      hide MapsMatch, IsFirst, Wrap, WindowFull, Lose, CountStatus, Lists, Erased;
      ghost var frags, pkts := unackedFrags, netPkts;
      EntryFacts(st, unackedFrags, netPkts, txSeq);
      ResendOutcome(opt, st, unackedFrags, netPkts, firstUnackedFrag, lastTxSeqNo, txSeq);
      timers := timers - {txSeq};
      var txFrag := unackedFrags[txSeq];
      removed := [];
      ok := AssignTxSequence();
      if ok {
        var f := UnackedFrag(txFrag.pkt, txFrag.netPkt, txFrag.retxCount + 1, 0);
        var i := Relocate(txSeq, lastTxSeqNo, f);
        ResendMatches(opt, st, frags, pkts, txSeq, i);
        removed := [txSeq];
        timers := timers + {lastTxSeqNo};
        ErasedOne(frags, lastTxSeqNo, f, txSeq);
        st := Lose(opt, st, txFrag.pkt).state;
      }
    }

    /** Resends a lost fragment, or gives up on its packet. `ok` is false for the length_error;
        `removed` lists the TxSequences erased. */
    method OnLpPacketLost(txSeq: Seq64) returns (ok: bool, removed: seq<Seq64>)
      requires Matches() && txSeq in unackedFrags
      modifies this`unackedFrags, this`firstUnackedFrag, this`lastTxSeqNo, this`netPkts, this`timers,
               this`nRetxExhausted, this`st
      ensures old(unackedFrags[txSeq].pkt in st.live && unackedFrags[txSeq].pkt.packet < |st.packets|)
      ensures ok <==> old(Lose(opt, st, unackedFrags[txSeq].pkt)).Running?
      ensures ok ==> Matches()
      ensures ok ==> st == old(Lose(opt, st, unackedFrags[txSeq].pkt)).state
      ensures ok ==> Erased(removed, old(unackedFrags), unackedFrags)
    {
      if unackedFrags[txSeq].retxCount >= opt.maxRetx {
        removed := GiveUp(txSeq);
        return true, removed;
      }
      ok, removed := Resend(txSeq);
    }

    /** The loop over the fragments found lost by one Ack. */
    method ResendOrFail(lost: seq<Seq64>, ghost ids: seq<FragId>) returns (ok: bool)
      requires Matches() && |lost| == |ids| && (forall i, j :: 0 <= i < j < |ids| ==> ids[i] != ids[j])
      requires Outlook(lost, ids, 0, {}, st.live, unackedFrags)
      modifies this`unackedFrags, this`firstUnackedFrag, this`lastTxSeqNo, this`netPkts, this`timers,
               this`nRetxExhausted, this`st
      ensures ok <==> LoseAll(opt, old(st), ids).Running?
      ensures ok ==> Matches() && st == LoseAll(opt, old(st), ids).state
    {
      hide IsFirst, Lose, Erased, CountStatus, Wrap, Coupled, TxOk, InvLive, IndexAgrees, PacketsAgree;
      var removedLpPackets: set<Seq64> := {};
      assert ids[0..] == ids;
      for k := 0 to |lost|
        invariant Matches()
        invariant LoseAll(opt, old(st), ids) == LoseAll(opt, st, ids[k..])
        invariant Outlook(lost, ids, k, removedLpPackets, st.live, unackedFrags)
      {
        assert ids[k..][1..] == ids[k + 1..] && ids[k..][0] == ids[k];
        if lost[k] !in removedLpPackets {
          ghost var st0, frags := st, unackedFrags;
          var removed;
          ok, removed := OnLpPacketLost(lost[k]);
          if !ok {
            return;
          }
          OutlookStep(opt, st0, frags, unackedFrags, lost, ids, k, removedLpPackets, removed);
          removedLpPackets := removedLpPackets + set s | s in removed;
        }
      }
      ok := true;
    }

    /** One Ack field of an incoming packet. */
    method ProcessAck(ackTxSeq: Seq64) returns (ok: bool)
      requires Valid()
      modifies this
      ensures ok <==> Step(opt, old(st), Ack(ackTxSeq)).Running?
      ensures ok ==> Valid() && st == Step(opt, old(st), Ack(ackTxSeq)).state
    {
      hide Coupled, TxOk, IndexAgrees, PacketsAgree, InvPackets, InvEffort, InvAcks, InvLoss, InvCount, IsFirst,
        CountersAgree, Wrap, Lose, LoseAll, Retire, CountAck, LostBefore, Named, Outlook, DistinctBefore, Carries;
      ghost var st0 := st;
      StepKeepsInv(opt, st, Ack(ackTxSeq));
      StepSizes(opt, st, Ack(ackTxSeq));
      AckStep(opt, st, unackedFrags, netPkts, ackTxSeq);
      if ackTxSeq !in unackedFrags {
        return true;
      }
      ghost var id := unackedFrags[ackTxSeq].pkt;
      ghost var a := st.live[id].txNo;
      var lost := FindLostLpPackets(ackTxSeq);
      ghost var ids := LostBefore(st.live, st.txLog, opt.lossThreshold, a);
      AckReady(st0, st, unackedFrags, netPkts, lost, ids, ackTxSeq, opt.lossThreshold);
      OnLpPacketAcknowledged(ackTxSeq);
      ok := ResendOrFail(lost, ids);
    }

    /** The Acks of an incoming packet, in order. */
    method ProcessAcks(acks: seq<Seq64>) returns (ok: bool)
      requires Valid()
      modifies this
      ensures ok <==> Steps(opt, old(st), AckEvents(acks)).Running?
      ensures ok ==> Valid() && st == Steps(opt, old(st), AckEvents(acks)).state
    {
      hide Valid, Step, Inv, NonEmptyPackets;
      assert old(Inv(opt, st) && NonEmptyPackets(st)) by { ValidGives(); }
      ghost var es := AckEvents(acks);
      for k := 0 to |acks|
        invariant Valid() && Steps(opt, old(st), es[..k]) == Running(st)
      {
        assert es[..k + 1][..k] == es[..k] && es[..k + 1][k] == Ack(acks[k]);
        ok := ProcessAck(acks[k]);
        if !ok {
          FailedPrefix(opt, old(st), es, k + 1);
          return;
        }
      }
      assert es[..|acks|] == es;
      ok := true;
    }

    lemma ValidGives()
      requires Valid()
      ensures Inv(opt, st) && NonEmptyPackets(st)
    {
    }

    /** The RTO timer of a fragment expires; only pending timers can. */
    method OnRtoTimer(txSeq: Seq64) returns (ok: bool)
      requires Valid() && txSeq in timers
      modifies this
      ensures ok <==> Step(opt, old(st), Rto(txSeq)).Running?
      ensures ok ==> Valid() && st == Step(opt, old(st), Rto(txSeq)).state
    {
      hide Coupled, TxOk, IndexAgrees, PacketsAgree, InvPackets, InvEffort, InvAcks, InvLoss, InvCount, IsFirst,
        CountersAgree, Wrap, Lose, Carries;
      StepKeepsInv(opt, st, Rto(txSeq));
      StepSizes(opt, st, Rto(txSeq));
      RtoStep(opt, st, unackedFrags, netPkts, txSeq);
      var removed;
      ok, removed := OnLpPacketLost(txSeq);
    }

    /** Stores a fragment under a new TxSequence, also in the vector of its packet. */
    method Emplace(txSeq: Seq64, f: UnackedFrag)
      requires txSeq !in unackedFrags && txSeq == lastTxSeqNo && f.netPkt in netPkts
      requires unackedFrags != map[] ==> IsFirst(firstUnackedFrag, unackedFrags.Keys + {txSeq}, lastTxSeqNo)
      modifies this`unackedFrags, this`firstUnackedFrag, this`timers, this`netPkts
      ensures unackedFrags == old(unackedFrags)[txSeq := f] && timers == old(timers) + {txSeq}
      ensures IsFirst(firstUnackedFrag, unackedFrags.Keys, lastTxSeqNo)
      ensures netPkts == old(netPkts[f.netPkt := netPkts[f.netPkt].(unackedFrags := netPkts[f.netPkt].unackedFrags + [txSeq])])
    {
      hide IsFirst;
      ghost var frags := unackedFrags;
      unackedFrags := unackedFrags[txSeq := f];
      assert unackedFrags.Keys == frags.Keys + {txSeq};
      timers := timers + {txSeq};
      OnlyOne(frags, txSeq, unackedFrags.Keys);
      if |unackedFrags| == 1 {
        firstUnackedFrag := At(Begin(unackedFrags.Keys));
      }
      netPkts := netPkts[f.netPkt := netPkts[f.netPkt].(unackedFrags := netPkts[f.netPkt].unackedFrags + [txSeq])];
    }

    /** One iteration of handleOutgoing: the index-th fragment of packet p. */
    method TransmitFirst(p: nat, index: nat) returns (ok: bool)
      requires Matches() && InvHanded(st) && p in netPkts && p < |st.packets| && st.packets[p].nFrags == index
      modifies this`unackedFrags, this`firstUnackedFrag, this`lastTxSeqNo, this`netPkts, this`timers, this`st
      ensures ok <==> old(SendOne(st, p)).Running?
      ensures ok ==> Matches() && p in netPkts && st == old(SendOne(st, p)).state
      ensures lastTxSeqNo == Next(old(lastTxSeqNo))
      ensures ok ==> lastTxSeqNo !in old(unackedFrags)
                     && unackedFrags == old(unackedFrags)[lastTxSeqNo := UnackedFrag(FragId(p, index), p, 0, 0)]
    {
      hide MapsMatch, IsFirst, Wrap, WindowFull, SendOne, CountStatus, InvHanded;
      ghost var frags, pkts := unackedFrags, netPkts;
      SendOneOutcome(st, unackedFrags, netPkts, firstUnackedFrag, lastTxSeqNo, p);
      ok := AssignTxSequence();
      if ok {
        SendOneMatches(st, frags, pkts, p);
        Emplace(lastTxSeqNo, UnackedFrag(FragId(p, index), p, 0, 0));
        st := SendOne(st, p).state;
      }
    }

    /** Stores the n fragments of a network packet and gives each a TxSequence, the n that follow the last
        one. */
    method HandleOutgoing(n: nat) returns (ok: bool)
      requires Valid() && n > 0
      modifies this
      ensures ok <==> Step(opt, old(st), Send(n)).Running?
      ensures ok ==> Valid() && st == Step(opt, old(st), Send(n)).state
      ensures ok ==> nHanded == old(nHanded) + 1 && lastTxSeqNo == Wrap(old(lastTxSeqNo) + n)
      ensures ok ==> Stored(old(unackedFrags), unackedFrags, old(lastTxSeqNo), old(nHanded), n)
    {
      hide Stored, Next, MapsMatch, Wrap, IsFirst, SendOne, WindowFull, CountStatus, InvTx, InvPackets, InvRetx, InvHanded, InvLive,
        InvAcks, InvLoss, InvCount;
      var p := nHanded;
      ghost var st1 := AddPacket(st);
      AddPacketKeepsInv(opt, st);
      StepSizes(opt, st, Send(n));
      AddPacketMatches(st, unackedFrags, netPkts);
      AddPacketCounts(st.packets);
      netPkts := netPkts[p := NetPkt([], false)];
      nHanded := nHanded + 1;
      st := st1;
      NothingStored(unackedFrags, lastTxSeqNo, p);
      WrapSmall(lastTxSeqNo);
      for i := 0 to n
        invariant nHanded == old(nHanded) + 1 && lastTxSeqNo == Wrap(old(lastTxSeqNo) + i)
        invariant Stored(old(unackedFrags), unackedFrags, old(lastTxSeqNo), p, i)
        invariant Matches() && p in netPkts && p < |st.packets| && st.packets[p].status == Pending
        invariant Inv(opt, st) && SendFrags(st1, p, i) == Running(st) && st.packets[p].nFrags == i
      {
        ghost var before := st;
        SendFragsSizes(st1, p, i + 1);
        WrapNext(old(lastTxSeqNo) + i);
        ghost var frags := unackedFrags;
        ok := TransmitFirst(p, i);
        if ok {
          assert lastTxSeqNo == TxAfter(old(lastTxSeqNo), i);
          StoredNext(old(unackedFrags), frags, old(lastTxSeqNo), p, i);
        }
        if !ok {
          FailedSends(st1, p, i + 1, n);
          return;
        }
        SendOneKeepsInv(opt, before, p);
      }
      ok := true;
    }

    /** Conservation, in the counters and the stored packets. */
    lemma CountersConserve()
      requires Valid()
      ensures nHanded == nAcknowledged + nRetransmitted + nRetxExhausted + |netPkts|
    {
      CountStatusTotal(st.packets);
      PendingCount(netPkts.Keys, st.packets);
    }
  }
}
