/** What each pipeline does to the PIT and which packets it sends, told face by face and entry by entry. */
module ForwardingEffects {
  import opened Wrappers
  import opened Faces
  import opened PitRecords
  import opened Forwarding
  import opened ForwardingSafety
  import opened DataDelivery

  // ---------------------------------------------------------------- actions of a strategy

  /** The action sends a Nack to f, if f waits. */
  predicate NacksTo(a: Action, f: Face) {
    a.SendNack? && a.egress == f && f.id != INVALID_FACEID && f.link == PointToPoint
  }

  /** The action transmits the Interest to f; one whose HopLimit is used up stays on local faces. */
  predicate SendsTo(a: Action, f: Face) {
    a.SendInterest? && a.egress == f && (a.interest.hopLimit == Some(0) ==> f.local)
  }

  predicate Nacked(actions: seq<Action>, f: Face) {
    actions != [] && (NacksTo(actions[|actions| - 1], f) || Nacked(actions[..|actions| - 1], f))
  }

  /** The last Interest transmitted to f. */
  function LastSend(actions: seq<Action>, f: Face): Option<Interest> {
    if actions == [] then None
    else
      var a := actions[|actions| - 1];
      if SendsTo(a, f) then Some(a.interest) else LastSend(actions[..|actions| - 1], f)
  }

  /** The out-record of f after a transmission: its Nonce and times are new, a Nack in it stays. */
  function Renewed(r: Option<FaceRecord>, i: Option<Interest>, f: Face, now: Time): Option<FaceRecord> {
    if i.None? then r
    else Some(FaceRecord(f, i.value.nonce, now, now + i.value.lifetime, if r.Some? then r.value.nack else None))
  }

  /** Which records are left, and which are new. */
  ghost predicate RecordsAfter(e: Entry, actions: seq<Action>, now: Time, e': Entry) {
    && e'.serial == e.serial && e'.satisfied == e.satisfied && Distinct(e'.ins) && Distinct(e'.outs)
    && (forall f :: RecordOf(e'.ins, f) == if Nacked(actions, f) then None else RecordOf(e.ins, f))
    && forall f :: RecordOf(e'.outs, f) == Renewed(RecordOf(e.outs, f), LastSend(actions, f), f, now)
  }

  /** Only entry k changes. */
  ghost predicate OnlyEntry(s: State, k: Key, s': State) {
    && s'.pit.Keys == s.pit.Keys && (forall l :: l in s.pit && l != k ==> s'.pit[l] == s.pit[l])
    && s'.created == s.created && s'.nSatisfied == s.nSatisfied && s'.nUnsatisfied == s.nUnsatisfied
    && s'.finalized == s.finalized && s'.arrived == s.arrived && s'.nextTimer >= s.nextTimer
  }

  lemma PerformRecords(s: State, k: Key, a: Action, now: Time)
    requires k in s.pit && Distinct(s.pit[k].ins) && Distinct(s.pit[k].outs)
    ensures OnlyEntry(s, k, Perform(s, k, a, now)) && RecordsAfter(s.pit[k], [a], now, Perform(s, k, a, now).pit[k])
  {
    hide Distinct, Upsert, Delete, RecordOf, IndexOf;
    var e := s.pit[k];
    var e' := Perform(s, k, a, now).pit[k];
    assert [a][..0] == [];
    forall f
      ensures RecordOf(e'.ins, f) == if Nacked([a], f) then None else RecordOf(e.ins, f)
      ensures RecordOf(e'.outs, f) == Renewed(RecordOf(e.outs, f), LastSend([a], f), f, now)
    {
      match a
      case SendInterest(_, egress, i) => UpsertRecords(e.outs, egress, i.nonce, now, i.lifetime, f);
      case SendNack(egress, _) =>
        DeleteRecords(e.ins, egress, f);
        NoRecord(e.ins, egress);
      case SetExpiryTimer =>
    }
    match a
    case SendInterest(_, egress, i) => UpsertRecords(e.outs, egress, i.nonce, now, i.lifetime, egress);
    case SendNack(egress, _) => DeleteRecords(e.ins, egress, egress);
    case SetExpiryTimer =>
  }

  lemma NoRecord(rs: seq<FaceRecord>, f: Face)
    ensures Has(rs, f) <==> RecordOf(rs, f).Some?
  {
  }

  lemma OneAction(a: Action, f: Face)
    ensures Nacked([a], f) <==> NacksTo(a, f)
    ensures LastSend([a], f) == if SendsTo(a, f) then Some(a.interest) else None
  {
    assert [a][..0] == [];
  }

  lemma {:induction false} ActionsRecords(s: State, k: Key, actions: seq<Action>, now: Time)
    requires k in s.pit && Distinct(s.pit[k].ins) && Distinct(s.pit[k].outs)
    ensures OnlyEntry(s, k, PerformAll(s, k, actions, now))
    ensures RecordsAfter(s.pit[k], actions, now, PerformAll(s, k, actions, now).pit[k])
  {
    hide Perform, Distinct, RecordOf, NacksTo, SendsTo;
    if actions != [] {
      var n := |actions| - 1;
      var a := actions[n];
      ActionsRecords(s, k, actions[..n], now);
      var s1 := PerformAll(s, k, actions[..n], now);
      PerformRecords(s1, k, a, now);
      var e1, e' := s1.pit[k], PerformAll(s, k, actions, now).pit[k];
      forall f
        ensures RecordOf(e'.ins, f) == if Nacked(actions, f) then None else RecordOf(s.pit[k].ins, f)
        ensures RecordOf(e'.outs, f) == Renewed(RecordOf(s.pit[k].outs, f), LastSend(actions, f), f, now)
      {
        OneAction(a, f);
        assert RecordOf(e'.ins, f) == if Nacked([a], f) then None else RecordOf(e1.ins, f);
        assert RecordOf(e'.outs, f) == Renewed(RecordOf(e1.outs, f), LastSend([a], f), f, now);
        assert RecordOf(e1.ins, f) == if Nacked(actions[..n], f) then None else RecordOf(s.pit[k].ins, f);
        assert RecordOf(e1.outs, f) == Renewed(RecordOf(s.pit[k].outs, f), LastSend(actions[..n], f), f, now);
      }
    }
  }

  // ---------------------------------------------------------------- what is sent

  /** The packet is what the action asks for. */
  ghost predicate IsRequested(k: Key, a: Action, p: Packet) {
    match a
    case SendInterest(inFace, egress, _) => SendsTo(a, egress) && p == InterestOut(k, inFace, egress)
    case SendNack(egress, reason) => NacksTo(a, egress) && p == NackOut(k, egress, reason)
    case SetExpiryTimer => false
  }

  /** Every packet is asked for by some action. */
  ghost predicate OnlyRequested(k: Key, actions: seq<Action>, sent: seq<Packet>) {
    forall i :: 0 <= i < |sent| ==> IsRequestedBy(k, actions, sent[i])
  }

  ghost predicate IsRequestedBy(k: Key, actions: seq<Action>, p: Packet) {
    exists j :: 0 <= j < |actions| && IsRequested(k, actions[j], p)
  }

  /** Every transmission asked for is made. */
  ghost predicate AllTransmitted(k: Key, actions: seq<Action>, sent: seq<Packet>) {
    forall j :: 0 <= j < |actions| && actions[j].SendInterest? && SendsTo(actions[j], actions[j].egress) ==>
      InterestOut(k, actions[j].inFace, actions[j].egress) in sent
  }

  /** Every downstream that waits and is to get a Nack gets one. */
  ghost predicate AllNacked(k: Key, ins: seq<FaceRecord>, actions: seq<Action>, sent: seq<Packet>) {
    forall f :: Nacked(actions, f) && RecordOf(ins, f).Some? ==> exists r :: NackOut(k, f, r) in sent
  }

  ghost predicate SentBy(before: seq<Packet>, k: Key, ins: seq<FaceRecord>, actions: seq<Action>, after: seq<Packet>) {
    && before <= after
    && OnlyRequested(k, actions, after[|before|..]) && AllTransmitted(k, actions, after[|before|..])
    && AllNacked(k, ins, actions, after[|before|..])
  }

  /** One action sends one packet, or none. */
  lemma PerformSends(s: State, k: Key, a: Action, now: Time) returns (sent: seq<Packet>)
    requires k in s.pit
    ensures Perform(s, k, a, now).sent == s.sent + sent && |sent| <= 1
    ensures sent != [] ==> IsRequested(k, a, sent[0])
    ensures a.SendInterest? && SendsTo(a, a.egress) ==> sent == [InterestOut(k, a.inFace, a.egress)]
    ensures a.SendNack? && NacksTo(a, a.egress) && RecordOf(s.pit[k].ins, a.egress).Some? ==> sent == [NackOut(k, a.egress, a.reason)]
  {
    hide Upsert, Delete;
    var s' := Perform(s, k, a, now);
    sent := s'.sent[|s.sent|..];
  }

  lemma RequestedNext(k: Key, actions: seq<Action>, a: Action, sent: seq<Packet>, more: seq<Packet>)
    requires OnlyRequested(k, actions, sent) && |more| <= 1 && (more != [] ==> IsRequested(k, a, more[0]))
    ensures OnlyRequested(k, actions + [a], sent + more)
  {
    hide IsRequested;
    var all, after := actions + [a], sent + more;
    forall i | 0 <= i < |after| ensures IsRequestedBy(k, all, after[i]) {
      if i < |sent| {
        assert IsRequestedBy(k, actions, sent[i]);
        var j :| 0 <= j < |actions| && IsRequested(k, actions[j], sent[i]);
        assert IsRequested(k, all[j], after[i]);
      } else {
        assert IsRequested(k, all[|actions|], after[i]);
      }
    }
  }

  lemma TransmittedNext(k: Key, actions: seq<Action>, a: Action, sent: seq<Packet>, more: seq<Packet>)
    requires AllTransmitted(k, actions, sent)
    requires a.SendInterest? && SendsTo(a, a.egress) ==> more == [InterestOut(k, a.inFace, a.egress)]
    ensures AllTransmitted(k, actions + [a], sent + more)
  {
    hide SendsTo;
    var all, after := actions + [a], sent + more;
    forall j | 0 <= j < |all| && all[j].SendInterest? && SendsTo(all[j], all[j].egress)
      ensures InterestOut(k, all[j].inFace, all[j].egress) in after
    {
      if j < |actions| {
        assert actions[j] == all[j];
        assert InterestOut(k, actions[j].inFace, actions[j].egress) in sent;
      } else {
        assert InterestOut(k, a.inFace, a.egress) in more;
      }
    }
  }

  lemma NackedNext(k: Key, ins: seq<FaceRecord>, actions: seq<Action>, a: Action, sent: seq<Packet>, more: seq<Packet>, ins1: seq<FaceRecord>)
    requires AllNacked(k, ins, actions, sent)
    requires a.SendNack? && NacksTo(a, a.egress) && RecordOf(ins1, a.egress).Some? ==> more == [NackOut(k, a.egress, a.reason)]
    requires forall f :: RecordOf(ins1, f) == if Nacked(actions, f) then None else RecordOf(ins, f)
    ensures AllNacked(k, ins, actions + [a], sent + more)
  {
    hide RecordOf, NacksTo;
    var all, after := actions + [a], sent + more;
    assert all[..|actions|] == actions;
    forall f | Nacked(all, f) && RecordOf(ins, f).Some? ensures exists r :: NackOut(k, f, r) in after {
      if Nacked(actions, f) {
        var r :| NackOut(k, f, r) in sent;
        assert NackOut(k, f, r) in after;
      } else {
        NackFace(a, f);
        assert NackOut(k, f, a.reason) in more;
        assert NackOut(k, f, a.reason) in after;
      }
    }
  }

  lemma SentByNext(before: seq<Packet>, k: Key, ins: seq<FaceRecord>, actions: seq<Action>, mid: seq<Packet>, a: Action,
                   more: seq<Packet>, ins1: seq<FaceRecord>)
    requires SentBy(before, k, ins, actions, mid) && |more| <= 1
    requires more != [] ==> IsRequested(k, a, more[0])
    requires a.SendInterest? && SendsTo(a, a.egress) ==> more == [InterestOut(k, a.inFace, a.egress)]
    requires a.SendNack? && NacksTo(a, a.egress) && RecordOf(ins1, a.egress).Some? ==> more == [NackOut(k, a.egress, a.reason)]
    requires forall f :: RecordOf(ins1, f) == if Nacked(actions, f) then None else RecordOf(ins, f)
    ensures SentBy(before, k, ins, actions + [a], mid + more)
  {
    hide RecordOf, IsRequested, NacksTo, SendsTo, OnlyRequested, AllTransmitted, AllNacked, Nacked;
    var sent := mid[|before|..];
    assert (mid + more)[|before|..] == sent + more;
    RequestedNext(k, actions, a, sent, more);
    TransmittedNext(k, actions, a, sent, more);
    NackedNext(k, ins, actions, a, sent, more, ins1);
  }

  lemma NackFace(a: Action, f: Face)
    requires NacksTo(a, f)
    ensures a.SendNack? && a.egress == f
  {
  }

  lemma {:induction false} ActionsSend(s: State, k: Key, actions: seq<Action>, now: Time)
    requires k in s.pit && Distinct(s.pit[k].ins) && Distinct(s.pit[k].outs)
    ensures SentBy(s.sent, k, s.pit[k].ins, actions, PerformAll(s, k, actions, now).sent)
  {
    hide Perform, Distinct, RecordOf, NacksTo, SendsTo, SentBy, IsRequested;
    if actions == [] {
      NothingAsked(s.sent, k, s.pit[k].ins);
    } else {
      var n := |actions| - 1;
      ActionsSend(s, k, actions[..n], now);
      ActionsRecords(s, k, actions[..n], now);
      var s1 := PerformAll(s, k, actions[..n], now);
      var sent := PerformSends(s1, k, actions[n], now);
      SentByNext(s.sent, k, s.pit[k].ins, actions[..n], s1.sent, actions[n], sent, s1.pit[k].ins);
      assert actions == actions[..n] + [actions[n]];
    }
  }

  lemma NothingAsked(sent: seq<Packet>, k: Key, ins: seq<FaceRecord>)
    ensures SentBy(sent, k, ins, [], sent)
  {
  }

  // ---------------------------------------------------------------- Interest

  datatype Outcome = Dropped | Looped | Hit | Missed

  /** A record has the Nonce, and it is not a retransmission by the same point-to-point downstream. */
  ghost predicate IsLoop(e: Entry, nonce: Nonce, ingress: Face) {
    && (exists r :: r in e.ins + e.outs && r.lastNonce == nonce)
    && (ingress.link == PointToPoint ==> forall r :: r in e.ins && r.face == ingress ==> r.lastNonce != nonce)
  }

  /** The entry of a key, or the one that is inserted for it. */
  function EntryFor(s: State, k: Key): Entry {
    if k in s.pit then s.pit[k] else Entry(s.created, [], [], false, None)
  }

  ghost function OutcomeOf(s: State, ingress: Face, interest: Interest, dead: bool, cached: Option<Data>): Outcome {
    var e := EntryFor(s, interest.key);
    if interest.hopLimit == Some(0) || (LOCALHOST <= interest.key.name && !ingress.local) then Dropped
    else if dead || IsLoop(e, interest.nonce, ingress) then Looped
    else if cached.Some? && e.ins == [] then Hit
    else Missed
  }

  /** Entry k is there afterwards with its serial number and a new timer; all others are unchanged. */
  ghost predicate Touched(s: State, k: Key, s': State) {
    && s'.pit.Keys == s.pit.Keys + {k} && (forall l :: l in s.pit && l != k ==> s'.pit[l] == s.pit[l])
    && s'.pit[k].serial == EntryFor(s, k).serial && s'.created == s.created + (if k in s.pit then 0 else 1)
    && s'.pit[k].timer.Some? && s'.pit[k].timer.value >= s.nextTimer
    && s'.nSatisfied == s.nSatisfied && s'.nUnsatisfied == s.nUnsatisfied && s'.finalized == s.finalized
  }

  /** The downstream is recorded with its Nonce and expiry. */
  ghost predicate IsRecorded(r: Option<FaceRecord>, f: Face, nonce: Nonce, expiry: Time) {
    r.Some? && r.value.face == f && r.value.lastNonce == nonce && r.value.expiry == expiry
  }

  ghost predicate MissDid(s: State, ingress: Face, interest: Interest, now: Time, actions: seq<Action>, s': State) {
    var k := interest.key;
    var e := EntryFor(s, k);
    && Touched(s, k, s') && s'.pit[k].satisfied == e.satisfied
    && (if Nacked(actions, ingress) then RecordOf(s'.pit[k].ins, ingress) == None
        else IsRecorded(RecordOf(s'.pit[k].ins, ingress), ingress, interest.nonce, now + interest.lifetime))
    && (forall f :: f != ingress ==> RecordOf(s'.pit[k].ins, f) == if Nacked(actions, f) then None else RecordOf(e.ins, f))
    && (forall f :: RecordOf(s'.pit[k].outs, f) == Renewed(RecordOf(e.outs, f), LastSend(actions, f), f, now))
    && Distinct(s'.pit[k].ins) && Distinct(s'.pit[k].outs)
  }

  /** What an incoming Interest does, by outcome. */
  ghost predicate InterestDid(
    s: State, ingress: Face, interest: Interest, dead: bool, cached: Option<Data>, now: Time, actions: seq<Action>, s': State)
  {
    var k := interest.key;
    && s'.arrived == s.arrived + {Origin(ingress, k)}
    && match OutcomeOf(s, ingress, interest, dead, cached)
       case Dropped => s' == s.(arrived := s'.arrived)
       case Looped =>
         s' == s.(arrived := s'.arrived, sent := s.sent + if ingress.link == PointToPoint then [NackOut(k, ingress, DUPLICATE)] else [])
       case Hit =>
         && Touched(s, k, s') && s'.pit[k].satisfied && s'.pit[k].ins == [] && s'.pit[k].outs == EntryFor(s, k).outs
         && s'.sent == s.sent + DataPackets(cached.value, ingress)
       case Missed =>
         && MissDid(s, ingress, interest, now, actions, s')
         && exists ins :: RecordOf(ins, ingress).Some? && (forall f :: f != ingress ==> RecordOf(ins, f) == RecordOf(EntryFor(s, k).ins, f))
                          && SentBy(s.sent, k, ins, actions, s'.sent)
  }

  lemma LoopIs(e: Entry, nonce: Nonce, ingress: Face)
    ensures HasDuplicateNonce(e, nonce, ingress) <==> IsLoop(e, nonce, ingress)
  {
    if HasNonce(e.ins, nonce) {
      var i :| 0 <= i < |e.ins| && e.ins[i].lastNonce == nonce;
      assert e.ins[i] in e.ins + e.outs;
    }
    if HasNonce(e.outs, nonce) {
      var i :| 0 <= i < |e.outs| && e.outs[i].lastNonce == nonce;
      assert e.outs[i] in e.ins + e.outs;
    }
    if r :| r in e.ins + e.outs && r.lastNonce == nonce {
      if r in e.ins {
        var i :| 0 <= i < |e.ins| && e.ins[i] == r;
      } else {
        var i :| 0 <= i < |e.outs| && e.outs[i] == r;
      }
    }
  }

  lemma MissDoes(s: State, ingress: Face, interest: Interest, now: Time, actions: seq<Action>)
    requires Distinct(EntryFor(s, interest.key).ins) && Distinct(EntryFor(s, interest.key).outs)
    ensures var k := interest.key;
            var s1 := Insert(Arrive(s, Origin(ingress, k)), k);
            var s' := ContentStoreMiss(s1, ingress, interest, now, actions);
            && s'.arrived == s.arrived + {Origin(ingress, k)} && MissDid(s, ingress, interest, now, actions, s')
            && exists ins :: RecordOf(ins, ingress).Some? && (forall f :: f != ingress ==> RecordOf(ins, f) == RecordOf(EntryFor(s, k).ins, f))
                             && SentBy(s.sent, k, ins, actions, s'.sent)
  {
    hide PerformAll, Distinct, RecordOf, Upsert, SentBy, Nacked, LastSend;
    var k := interest.key;
    var e := EntryFor(s, k);
    var s1 := Insert(Arrive(s, Origin(ingress, k)), k);
    var ins := Upsert(e.ins, ingress, interest.nonce, now, interest.lifetime);
    var s2 := SetTimer(Update(s1, k, e.(ins := ins)), k);
    var s' := PerformAll(s2, k, actions, now);
    assert s' == ContentStoreMiss(s1, ingress, interest, now, actions);
    UpsertRecords(e.ins, ingress, interest.nonce, now, interest.lifetime, ingress);
    forall f | f != ingress ensures RecordOf(ins, f) == RecordOf(e.ins, f) {
      UpsertRecords(e.ins, ingress, interest.nonce, now, interest.lifetime, f);
    }
    ActionsRecords(s2, k, actions, now);
    ActionsSend(s2, k, actions, now);
    ActionsTimer(s2, k, actions, now);
  }

  /** Actions leave the timer, or replace it by a later one. */
  lemma {:induction false} ActionsTimer(s: State, k: Key, actions: seq<Action>, now: Time)
    requires k in s.pit && s.pit[k].timer.Some?
    ensures var s' := PerformAll(s, k, actions, now);
            && s'.nextTimer >= s.nextTimer && s'.pit[k].timer.Some?
            && (s'.pit[k].timer == s.pit[k].timer || s'.pit[k].timer.value >= s.nextTimer)
    ensures SetExpiryTimer !in actions ==> PerformAll(s, k, actions, now).pit[k].timer == s.pit[k].timer
  {
    hide Upsert, Delete;
    if actions != [] {
      ActionsTimer(s, k, actions[..|actions| - 1], now);
    }
  }

  /** The incoming Interest pipeline, for every state and whatever the strategy does. */
  lemma InterestDoes(s: State, ingress: Face, interest: Interest, dead: bool, cached: Option<Data>, now: Time, actions: seq<Action>)
    requires Distinct(EntryFor(s, interest.key).ins) && Distinct(EntryFor(s, interest.key).outs)
    ensures InterestDid(s, ingress, interest, dead, cached, now, actions, IncomingInterest(s, ingress, interest, dead, cached, now, actions))
  {
    hide ContentStoreMiss, MissDid, SentBy, HasDuplicateNonce, IsLoop, RecordOf, Distinct;
    var k := interest.key;
    var e := EntryFor(s, k);
    LoopIs(e, interest.nonce, ingress);
    NewHasNoLoop(s, k, interest.nonce, ingress);
    match OutcomeOf(s, ingress, interest, dead, cached)
    case Missed => MissDoes(s, ingress, interest, now, actions);
    case Hit => HitDoes(s, ingress, interest, cached.value);
    case _ =>
  }

  lemma NewHasNoLoop(s: State, k: Key, nonce: Nonce, ingress: Face)
    ensures k !in s.pit ==> !IsLoop(EntryFor(s, k), nonce, ingress)
  {
  }

  lemma HitDoes(s: State, ingress: Face, interest: Interest, data: Data)
    requires EntryFor(s, interest.key).ins == []
    ensures var k := interest.key;
            var s' := ContentStoreHit(Insert(Arrive(s, Origin(ingress, k)), k), k, ingress, data);
            && s'.arrived == s.arrived + {Origin(ingress, k)}
            && Touched(s, k, s') && s'.pit[k].satisfied && s'.pit[k].ins == [] && s'.pit[k].outs == EntryFor(s, k).outs
            && s'.sent == s.sent + DataPackets(data, ingress)
  {
  }

  // ---------------------------------------------------------------- Nack

  /** The Nack answers the last transmission to the point-to-point face it comes from. */
  ghost predicate IsAccepted(s: State, ingress: Face, k: Key, nonce: Nonce) {
    && ingress.link == PointToPoint && k in s.pit
    && exists r :: r in s.pit[k].outs && r.face == ingress && r.lastNonce == nonce
  }

  /** The out-record of the face holds the Nack, every other record is as it was, and the timer is a new
      one exactly when no out-record is pending any more. */
  ghost predicate NackNoted(s: State, k: Key, ingress: Face, reason: Reason, now: Time, s1: State)
    requires k in s.pit
  {
    && OnlyEntry(s, k, s1) && s1.sent == s.sent && s1.pit[k].ins == s.pit[k].ins
    && s1.pit[k].serial == s.pit[k].serial && s1.pit[k].satisfied == s.pit[k].satisfied
    && Distinct(s1.pit[k].outs)
    && (forall f :: RecordOf(s1.pit[k].outs, f)
                    == if f == ingress && RecordOf(s.pit[k].outs, f).Some? then Some(RecordOf(s.pit[k].outs, f).value.(nack := Some(reason)))
                       else RecordOf(s.pit[k].outs, f))
    && if HasPending(s1.pit[k].outs, now) then s1.pit[k].timer == s.pit[k].timer else s1.pit[k].timer == Some(s.nextTimer)
  }

  ghost predicate NackDid(
    s: State, ingress: Face, k: Key, nonce: Nonce, reason: Reason, now: Time, actions: seq<Action>, s': State)
  {
    if IsAccepted(s, ingress, k, nonce) then
      exists s1 :: NackNoted(s, k, ingress, reason, now, s1) && s' == PerformAll(s1, k, actions, now)
    else s' == s
  }

  lemma AcceptedIs(s: State, ingress: Face, k: Key, nonce: Nonce)
    requires k in s.pit && Distinct(s.pit[k].outs)
    ensures (exists r :: r in s.pit[k].outs && r.face == ingress && r.lastNonce == nonce)
            <==> Has(s.pit[k].outs, ingress) && s.pit[k].outs[IndexOf(s.pit[k].outs, ingress)].lastNonce == nonce
  {
    var outs := s.pit[k].outs;
    if r :| r in outs && r.face == ingress && r.lastNonce == nonce {
      var i :| 0 <= i < |outs| && outs[i] == r;
      RecordAt(outs, i);
    }
    if Has(outs, ingress) {
      assert outs[IndexOf(outs, ingress)] in outs;
    }
  }

  /** The incoming Nack pipeline accepts exactly those Nacks, and changes nothing for any other. */
  lemma NackDoes(s: State, ingress: Face, k: Key, nonce: Nonce, reason: Reason, now: Time, actions: seq<Action>)
    requires k in s.pit ==> Distinct(s.pit[k].outs)
    ensures NackDid(s, ingress, k, nonce, reason, now, actions, IncomingNack(s, ingress, k, nonce, reason, now, actions))
  {
    hide PerformAll, Distinct, RecordOf, HasPending, SetNack, IndexOf, Has;
    if k in s.pit {
      AcceptedIs(s, ingress, k, nonce);
      if IsAccepted(s, ingress, k, nonce) {
        var s0 := RecordNack(s, k, ingress, reason);
        var s1 := if HasPending(s0.pit[k].outs, now) then s0 else SetTimer(s0, k);
        SetNackRecords(s.pit[k].outs, ingress, reason, ingress);
        forall f ensures RecordOf(s0.pit[k].outs, f)
                    == if f == ingress && RecordOf(s.pit[k].outs, f).Some? then Some(RecordOf(s.pit[k].outs, f).value.(nack := Some(reason)))
                       else RecordOf(s.pit[k].outs, f) {
          SetNackRecords(s.pit[k].outs, ingress, reason, f);
        }
        assert NackNoted(s, k, ingress, reason, now, s1);
      }
    }
  }

  /** So after an accepted Nack its out-record holds it, and no other record gains or loses a Nack. */
  lemma NackIsKept(s: State, ingress: Face, k: Key, nonce: Nonce, reason: Reason, now: Time, actions: seq<Action>, f: Face)
    requires k in s.pit && Distinct(s.pit[k].ins) && Distinct(s.pit[k].outs) && IsAccepted(s, ingress, k, nonce)
    ensures var outs' := IncomingNack(s, ingress, k, nonce, reason, now, actions).pit[k].outs;
            && RecordOf(outs', ingress).Some? && RecordOf(outs', ingress).value.nack == Some(reason)
            && (f != ingress && RecordOf(s.pit[k].outs, f).Some? ==>
                  RecordOf(outs', f).Some? && RecordOf(outs', f).value.nack == RecordOf(s.pit[k].outs, f).value.nack)
  {
    hide IncomingNack, Distinct, RecordOf, HasPending, LastSend, Nacked, PerformAll;
    NackDoes(s, ingress, k, nonce, reason, now, actions);
    var s' := IncomingNack(s, ingress, k, nonce, reason, now, actions);
    var s1 :| NackNoted(s, k, ingress, reason, now, s1) && s' == PerformAll(s1, k, actions, now);
    ActionsRecords(s1, k, actions, now);
    AcceptedHasRecord(s, ingress, k, nonce);
    assert RecordOf(s'.pit[k].outs, ingress) == Renewed(RecordOf(s1.pit[k].outs, ingress), LastSend(actions, ingress), ingress, now);
    assert RecordOf(s'.pit[k].outs, f) == Renewed(RecordOf(s1.pit[k].outs, f), LastSend(actions, f), f, now);
  }

  lemma AcceptedHasRecord(s: State, ingress: Face, k: Key, nonce: Nonce)
    requires IsAccepted(s, ingress, k, nonce) && Distinct(s.pit[k].outs)
    ensures RecordOf(s.pit[k].outs, ingress).Some?
  {
    AcceptedIs(s, ingress, k, nonce);
  }

  /** An Interest that was transmitted to a point-to-point face can be answered there by a Nack. */
  lemma TransmissionCanBeNacked(s: State, ingress: Face, interest: Interest, now: Time, actions: seq<Action>, s': State, f: Face)
    requires MissDid(s, ingress, interest, now, actions, s') && LastSend(actions, f).Some? && f.link == PointToPoint
    ensures IsAccepted(s', f, interest.key, LastSend(actions, f).value.nonce)
  {
    hide LastSend, Nacked, Distinct;
    var outs := s'.pit[interest.key].outs;
    assert RecordOf(outs, f) == Renewed(RecordOf(EntryFor(s, interest.key).outs, f), LastSend(actions, f), f, now);
    assert outs[IndexOf(outs, f)] in outs;
  }

  ghost predicate EntriesOk(s: State) {
    forall k :: k in s.pit ==> Distinct(s.pit[k].ins) && Distinct(s.pit[k].outs)
  }

  /** In a state that keeps the invariant no face has two records of a kind. */
  lemma InvGivesDistinct(s: State)
    requires Inv(s, {})
    ensures EntriesOk(s)
  {
    hide TimersOk, SerialsOk;
    forall k | k in s.pit ensures Distinct(s.pit[k].ins) && Distinct(s.pit[k].outs) {
      assert EntryOk(s.arrived, k, s.pit[k]);
    }
  }

  lemma NewIsDistinct(s: State, k: Key)
    requires EntriesOk(s)
    ensures Distinct(EntryFor(s, k).ins) && Distinct(EntryFor(s, k).outs)
  {
  }
}
