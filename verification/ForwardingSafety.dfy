/** What every run of a forwarder keeps: the life cycle of PIT entries, and the scope of packets. */
module ForwardingSafety {
  import opened Wrappers
  import opened Faces
  import opened PitRecords
  import opened Forwarding
  import opened DataDelivery

  // ---------------------------------------------------------------- invariant

  ghost predicate HasTimer(s: State, k: Key)
    requires k in s.pit
  {
    var e := s.pit[k];
    e.timer.Some? && e.timer.value in s.timers && s.timers[e.timer.value] == Ref(k, e.serial)
  }

  /** Every scheduled event is the timer of a live entry, and every entry has one, except those in
      `open`, which may have none yet. */
  ghost predicate TimersOk(s: State, open: set<Key>) {
    && (forall t :: t in s.timers ==> t < s.nextTimer && Live(s, s.timers[t]) && s.pit[s.timers[t].key].timer == Some(t))
    && forall k :: k in s.pit ==> HasTimer(s, k) || (k in open && s.pit[k].timer == None)
  }

  /** Serial numbers are never reused, and an entry is live or finalized once. */
  ghost predicate SerialsOk(s: State) {
    && LiveSerials(s.pit, s.finalized, s.created) && DeadSerials(s.finalized, s.created)
    && |s.finalized| == s.nSatisfied + s.nUnsatisfied
    && s.created == s.nSatisfied + s.nUnsatisfied + |s.pit|
  }

  ghost predicate LiveSerials(pit: map<Key, Entry>, finalized: seq<nat>, created: nat) {
    && (forall k :: k in pit ==> pit[k].serial < created && pit[k].serial !in finalized)
    && forall k, l :: k in pit && l in pit && k != l ==> pit[k].serial != pit[l].serial
  }

  ghost predicate DeadSerials(finalized: seq<nat>, created: nat) {
    && (forall i :: 0 <= i < |finalized| ==> finalized[i] < created)
    && forall i, j :: 0 <= i < j < |finalized| ==> finalized[i] != finalized[j]
  }

  ghost predicate AllLocal(rs: seq<FaceRecord>) {
    forall i :: 0 <= i < |rs| ==> rs[i].face.local
  }

  ghost predicate LocalRecords(k: Key, e: Entry) {
    LOCALHOST <= k.name ==> AllLocal(e.ins) && AllLocal(e.outs)
  }

  /** A packet within its scope; an Interest does not go back to the face it is sent for, unless the face
      is ad hoc. */
  ghost predicate Safe(p: Packet) {
    && (LOCALHOST <= NameOf(p) ==> p.egress.local)
    && (p.InterestOut? && LOCALHOP <= p.key.name && !p.cause.local ==> p.egress.local)
    && (p.InterestOut? ==> p.egress.id != p.cause.id || p.egress.link == AdHoc)
  }

  /** The face asked for the Data. */
  ghost predicate AskedFor(arrived: set<Origin>, data: Data, f: Face) {
    exists k :: Origin(f, k) in arrived && MatchesData(k, data)
  }

  /** An Interest is sent on behalf of a face from which it came; Data and Nacks go to faces that asked. */
  ghost predicate WasAsked(arrived: set<Origin>, p: Packet) {
    match p
    case InterestOut(k, cause, _) => Origin(cause, k) in arrived
    case DataOut(data, f) => AskedFor(arrived, data, f)
    case NackOut(k, f, _) => Origin(f, k) in arrived
  }

  /** The downstreams of an entry are faces from which its Interest came. */
  ghost predicate Known(arrived: set<Origin>, k: Key, ins: seq<FaceRecord>) {
    forall i :: 0 <= i < |ins| ==> Origin(ins[i].face, k) in arrived
  }

  ghost predicate EntryOk(arrived: set<Origin>, k: Key, e: Entry) {
    LocalRecords(k, e) && Known(arrived, k, e.ins) && Distinct(e.ins) && Distinct(e.outs)
  }

  ghost predicate PacketOk(arrived: set<Origin>, p: Packet) {
    Safe(p) && WasAsked(arrived, p)
  }

  ghost predicate ScopeOk(s: State) {
    && (forall k :: k in s.pit ==> EntryOk(s.arrived, k, s.pit[k]))
    && forall i :: 0 <= i < |s.sent| ==> PacketOk(s.arrived, s.sent[i])
  }

  ghost predicate Inv(s: State, open: set<Key>) {
    TimersOk(s, open) && SerialsOk(s) && ScopeOk(s)
  }

  // ---------------------------------------------------------------- primitive steps

  lemma EmitKeeps(s: State, p: Packet, open: set<Key>)
    requires Inv(s, open) && PacketOk(s.arrived, p)
    ensures Inv(Emit(s, p), open)
  {
    hide EntryOk, SerialsOk, PacketOk;
    var s' := Emit(s, p);
    SameTimers(s, s', open);
    SameSerials(s, s');
  }

  /** Rewriting an entry without its serial number or timer leaves the life cycle alone. */
  lemma UpdateLifeCycle(s: State, k: Key, e: Entry, open: set<Key>)
    requires TimersOk(s, open) && SerialsOk(s) && k in s.pit && e.serial == s.pit[k].serial && e.timer == s.pit[k].timer
    ensures TimersOk(Update(s, k, e), open) && SerialsOk(Update(s, k, e))
  {
    hide TimersOk, SerialsOk;
    var s' := Update(s, k, e);
    assert s'.pit.Keys == s.pit.Keys;
    SameKeys(s.pit, s'.pit);
    SameTimers(s, s', open);
    SameSerials(s, s');
  }

  ghost predicate SameLife(s: State, s': State) {
    s'.pit.Keys == s.pit.Keys && forall k :: k in s.pit ==> s'.pit[k].serial == s.pit[k].serial && s'.pit[k].timer == s.pit[k].timer
  }

  lemma SameKeys(m: map<Key, Entry>, m': map<Key, Entry>)
    requires m.Keys == m'.Keys
    ensures |m| == |m'|
  {
    assert |m| == |m.Keys| && |m'| == |m'.Keys|;
  }

  lemma SameTimers(s: State, s': State, open: set<Key>)
    requires TimersOk(s, open) && SameLife(s, s') && s'.timers == s.timers && s'.nextTimer == s.nextTimer
    ensures TimersOk(s', open)
  {
    forall k | k in s'.pit ensures HasTimer(s', k) || (k in open && s'.pit[k].timer == None) {
      assert k in s.pit;
    }
  }

  ghost predicate SameSerialNumbers(s: State, s': State) {
    s'.pit.Keys == s.pit.Keys && forall k :: k in s.pit ==> s'.pit[k].serial == s.pit[k].serial
  }

  lemma SameSerials(s: State, s': State)
    requires SerialsOk(s) && SameSerialNumbers(s, s') && |s'.pit| == |s.pit|
    requires s'.created == s.created && s'.finalized == s.finalized && s'.nSatisfied == s.nSatisfied && s'.nUnsatisfied == s.nUnsatisfied
    ensures SerialsOk(s')
  {
    assert forall k :: k in s'.pit ==> k in s.pit;
  }

  /** The records of an entry may change, as long as those under /localhost stay local. */
  lemma UpdateKeeps(s: State, k: Key, e: Entry, open: set<Key>)
    requires Inv(s, open) && k in s.pit && e.serial == s.pit[k].serial && e.timer == s.pit[k].timer && EntryOk(s.arrived, k, e)
    ensures Inv(Update(s, k, e), open)
  {
    hide TimersOk, SerialsOk, EntryOk, PacketOk;
    UpdateLifeCycle(s, k, e, open);
  }

  lemma SetTimerScope(s: State, k: Key)
    requires ScopeOk(s) && k in s.pit
    ensures ScopeOk(SetTimer(s, k))
  {
    hide AllLocal, PacketOk;
  }

  lemma SetTimerTimers(s: State, k: Key, open: set<Key>)
    requires TimersOk(s, open) && k in s.pit
    ensures TimersOk(SetTimer(s, k), open - {k})
  {
    var s' := SetTimer(s, k);
    assert s'.pit.Keys == s.pit.Keys;
    forall l | l in s'.pit ensures HasTimer(s', l) || (l in open - {k} && s'.pit[l].timer == None) {
      assert l != k ==> s'.pit[l] == s.pit[l];
      assert l != k && HasTimer(s, l) && s.pit[k].timer.Some? ==> s.pit[l].timer.value != s.pit[k].timer.value by {
        assert HasTimer(s, k) || s.pit[k].timer == None;
      }
    }
    forall t | t in s'.timers ensures t < s'.nextTimer && Live(s', s'.timers[t]) && s'.pit[s'.timers[t].key].timer == Some(t) {
      assert t != s.nextTimer ==> t in s.timers && s'.timers[t] == s.timers[t];
      assert t != s.nextTimer && s.pit[k].timer.Some? ==> t != s.pit[k].timer.value;
    }
  }

  lemma SetTimerKeeps(s: State, k: Key, open: set<Key>)
    requires Inv(s, open) && k in s.pit
    ensures Inv(SetTimer(s, k), open - {k})
    ensures SetTimer(s, k).pit.Keys == s.pit.Keys
  {
    hide TimersOk, SerialsOk, ScopeOk;
    SetTimerScope(s, k);
    SetTimerTimers(s, k, open);
    SameKeys(s.pit, SetTimer(s, k).pit);
    SameSerials(s, SetTimer(s, k));
  }

  lemma InsertTimers(s: State, k: Key)
    requires TimersOk(s, {}) && k !in s.pit
    ensures TimersOk(Insert(s, k), {k})
  {
    var s' := Insert(s, k);
    forall l | l in s'.pit ensures HasTimer(s', l) || (l in {k} && s'.pit[l].timer == None) {
      assert l != k ==> l in s.pit && HasTimer(s, l);
    }
  }

  lemma InsertLive(pit: map<Key, Entry>, finalized: seq<nat>, created: nat, k: Key, e: Entry)
    requires LiveSerials(pit, finalized, created) && DeadSerials(finalized, created) && k !in pit && e.serial == created
    ensures LiveSerials(pit[k := e], finalized, created + 1) && DeadSerials(finalized, created + 1)
  {
    var pit' := pit[k := e];
    assert created !in finalized;
    forall l | l in pit' && l != k ensures pit'[l].serial < created && pit'[l].serial !in finalized {
      assert l in pit;
    }
  }

  lemma OneMore(pit: map<Key, Entry>, k: Key, e: Entry)
    requires k !in pit
    ensures |pit[k := e]| == |pit| + 1
  {
    assert pit[k := e].Keys == pit.Keys + {k};
    assert |pit[k := e]| == |pit[k := e].Keys| && |pit| == |pit.Keys|;
  }

  lemma InsertSerials(s: State, k: Key)
    requires SerialsOk(s) && k !in s.pit
    ensures SerialsOk(Insert(s, k))
  {
    hide LiveSerials, DeadSerials;
    InsertLive(s.pit, s.finalized, s.created, k, Entry(s.created, [], [], false, None));
    OneMore(s.pit, k, Entry(s.created, [], [], false, None));
  }

  lemma InsertKeeps(s: State, k: Key)
    requires Inv(s, {})
    ensures Inv(Insert(s, k), {k}) && k in Insert(s, k).pit
    ensures k in s.pit ==> Inv(Insert(s, k), {})
  {
    hide SerialsOk, PacketOk;
    if k !in s.pit {
      InsertTimers(s, k);
      InsertSerials(s, k);
    }
  }

  lemma FinalizeTimers(s: State, k: Key)
    requires TimersOk(s, {}) && k in s.pit
    ensures TimersOk(Finalize(s, k), {})
  {
    var s' := Finalize(s, k);
    assert HasTimer(s, k);
    forall l | l in s'.pit ensures HasTimer(s', l) {
      assert l in s.pit && l != k && HasTimer(s, l);
    }
    forall t | t in s'.timers ensures t < s'.nextTimer && Live(s', s'.timers[t]) && s'.pit[s'.timers[t].key].timer == Some(t) {
      assert t in s.timers && t != s.pit[k].timer.value;
    }
  }

  lemma EraseLive(pit: map<Key, Entry>, finalized: seq<nat>, created: nat, k: Key)
    requires LiveSerials(pit, finalized, created) && DeadSerials(finalized, created) && k in pit
    ensures LiveSerials(pit - {k}, finalized + [pit[k].serial], created) && DeadSerials(finalized + [pit[k].serial], created)
    ensures |pit - {k}| == |pit| - 1
  {
    var pit' := pit - {k};
    assert pit'.Keys == pit.Keys - {k};
    assert |pit'| == |pit'.Keys| && |pit| == |pit.Keys|;
    forall l | l in pit' ensures pit'[l].serial !in finalized + [pit[k].serial] {
      assert l in pit && l != k;
    }
  }

  lemma FinalizeSerials(s: State, k: Key)
    requires SerialsOk(s) && k in s.pit
    ensures SerialsOk(Finalize(s, k))
  {
    hide LiveSerials, DeadSerials;
    EraseLive(s.pit, s.finalized, s.created, k);
  }

  lemma FinalizeScope(s: State, k: Key)
    requires ScopeOk(s) && k in s.pit
    ensures ScopeOk(Finalize(s, k))
  {
    hide EntryOk, PacketOk;
  }

  lemma FinalizeKeeps(s: State, k: Key)
    requires Inv(s, {}) && k in s.pit
    ensures Inv(Finalize(s, k), {})
  {
    hide TimersOk, SerialsOk, ScopeOk;
    FinalizeTimers(s, k);
    FinalizeSerials(s, k);
    FinalizeScope(s, k);
  }

  /** An Interest arrives. */
  lemma ArriveKeeps(s: State, o: Origin, open: set<Key>)
    requires Inv(s, open)
    ensures Inv(Arrive(s, o), open)
  {
    hide LocalRecords, SerialsOk, Safe;
    var s' := Arrive(s, o);
    SameTimers(s, s', open);
    SameSerials(s, s');
    forall k | k in s'.pit ensures EntryOk(s'.arrived, k, s'.pit[k]) {
      assert EntryOk(s.arrived, k, s.pit[k]);
    }
    forall i | 0 <= i < |s'.sent| ensures PacketOk(s'.arrived, s'.sent[i]) {
      assert PacketOk(s.arrived, s.sent[i]);
      if s.sent[i].DataOut? {
        var k :| Origin(s.sent[i].egress, k) in s.arrived && MatchesData(k, s.sent[i].data);
        assert Origin(s.sent[i].egress, k) in s'.arrived;
      }
    }
  }

  // ---------------------------------------------------------------- records

  lemma UpsertLocal(rs: seq<FaceRecord>, f: Face, nonce: Nonce, now: Time, lifetime: Time)
    requires AllLocal(rs) && f.local
    ensures AllLocal(Upsert(rs, f, nonce, now, lifetime))
  {
  }

  lemma DeleteLocal(rs: seq<FaceRecord>, f: Face)
    requires AllLocal(rs)
    ensures AllLocal(Delete(rs, f))
  {
  }

  lemma OutRecordOk(arrived: set<Origin>, k: Key, e: Entry, f: Face, nonce: Nonce, now: Time, lifetime: Time)
    requires EntryOk(arrived, k, e) && (LOCALHOST <= k.name ==> f.local)
    ensures EntryOk(arrived, k, e.(outs := Upsert(e.outs, f, nonce, now, lifetime)))
  {
    hide AllLocal, Upsert, Distinct;
    UpsertRecords(e.outs, f, nonce, now, lifetime, f);
    if LOCALHOST <= k.name {
      UpsertLocal(e.outs, f, nonce, now, lifetime);
    }
  }

  lemma InRecordOk(arrived: set<Origin>, k: Key, e: Entry, f: Face, nonce: Nonce, now: Time, lifetime: Time)
    requires EntryOk(arrived, k, e) && (LOCALHOST <= k.name ==> f.local) && Origin(f, k) in arrived
    ensures EntryOk(arrived, k, e.(ins := Upsert(e.ins, f, nonce, now, lifetime)))
  {
    hide AllLocal, Distinct;
    UpsertRecords(e.ins, f, nonce, now, lifetime, f);
    if LOCALHOST <= k.name {
      UpsertLocal(e.ins, f, nonce, now, lifetime);
    }
  }

  lemma DeletedInOk(arrived: set<Origin>, k: Key, e: Entry, f: Face)
    requires EntryOk(arrived, k, e)
    ensures EntryOk(arrived, k, e.(ins := Delete(e.ins, f)))
  {
    hide AllLocal, Distinct;
    DeleteRecords(e.ins, f, f);
    if LOCALHOST <= k.name {
      DeleteLocal(e.ins, f);
    }
  }

  lemma DeletedOutOk(arrived: set<Origin>, k: Key, e: Entry, f: Face)
    requires EntryOk(arrived, k, e)
    ensures EntryOk(arrived, k, e.(outs := Delete(e.outs, f)))
  {
    hide AllLocal, Delete, Distinct;
    DeleteRecords(e.outs, f, f);
    if LOCALHOST <= k.name {
      DeleteLocal(e.outs, f);
    }
  }

  // ---------------------------------------------------------------- pipelines

  /** All the faces on whose behalf a strategy may send have asked for the name. */
  ghost predicate Asked(s: State, k: Key, causes: set<Face>) {
    forall f :: f in causes ==> Origin(f, k) in s.arrived
  }

  lemma PerformKeeps(s: State, k: Key, causes: set<Face>, a: Action, now: Time)
    requires Inv(s, {}) && k in s.pit && Allowed(k, causes, a) && Asked(s, k, causes)
    ensures Inv(Perform(s, k, a, now), {})
  {
    hide Inv, EntryOk, Upsert, Delete, Update, Emit, SetTimer;
    var e := s.pit[k];
    EntryIsOk(s, k, {});
    match a
    case SendInterest(inFace, egress, interest) =>
      if !(interest.hopLimit == Some(0) && !egress.local) {
        var e' := e.(outs := Upsert(e.outs, egress, interest.nonce, now, interest.lifetime));
        OutRecordOk(s.arrived, k, e, egress, interest.nonce, now, interest.lifetime);
        UpdateKeeps(s, k, e', {});
        SameArrivals(s, k, e');
        EmitKeeps(Update(s, k, e'), InterestOut(k, inFace, egress), {});
      }
    case SendNack(egress, reason) =>
      NackKeeps(s, k, egress, reason);
    case SetExpiryTimer =>
      SetTimerKeeps(s, k, {});
      assert {} - {k} == {};
  }

  lemma SameArrivals(s: State, k: Key, e: Entry)
    ensures Update(s, k, e).arrived == s.arrived
  {
  }

  lemma NackKeeps(s: State, k: Key, egress: Face, reason: Reason)
    requires Inv(s, {}) && k in s.pit
    ensures Inv(OutgoingNack(s, k, egress, reason), {})
  {
    hide Inv, Delete, Update, Emit;
    var e := s.pit[k];
    EntryIsOk(s, k, {});
    DeletedInOk(s.arrived, k, e, egress);
    var e' := e.(ins := Delete(e.ins, egress));
    UpdateKeeps(s, k, e', {});
    SameArrivals(s, k, e');
    if Has(e.ins, egress) {
      assert Origin(e.ins[IndexOf(e.ins, egress)].face, k) in s.arrived;
      EmitKeeps(Update(s, k, e'), NackOut(k, egress, reason), {});
    }
  }

  lemma EntryIsOk(s: State, k: Key, open: set<Key>)
    requires Inv(s, open) && k in s.pit
    ensures EntryOk(s.arrived, k, s.pit[k])
  {
  }

  lemma {:induction false} PerformAllKeeps(s: State, k: Key, causes: set<Face>, actions: seq<Action>, now: Time)
    requires Inv(s, {}) && k in s.pit && AllAllowed(k, causes, actions) && Asked(s, k, causes)
    ensures Inv(PerformAll(s, k, actions, now), {})
  {
    hide Inv, Perform, Allowed;
    if actions != [] {
      PerformAllKeeps(s, k, causes, actions[..|actions| - 1], now);
      PerformKeeps(PerformAll(s, k, actions[..|actions| - 1], now), k, causes, actions[|actions| - 1], now);
    }
  }

  lemma OutgoingDataKeeps(s: State, data: Data, egress: Face)
    requires Inv(s, {}) && AskedFor(s.arrived, data, egress)
    ensures Inv(OutgoingData(s, data, egress), {})
  {
    hide Inv, AskedFor;
    if DataPackets(data, egress) == [] {
      assert OutgoingData(s, data, egress) == s;
    } else {
      EmitKeeps(s, DataOut(data, egress), {});
    }
  }

  lemma SendDataKeeps(s: State, k: Key, data: Data, egress: Face)
    requires Inv(s, {}) && k in s.pit && AskedFor(s.arrived, data, egress)
    ensures Inv(SendData(s, k, data, egress), {})
  {
    hide Inv, Delete, OutgoingData, EntryOk, AskedFor;
    var e := s.pit[k];
    EntryIsOk(s, k, {});
    DeletedInOk(s.arrived, k, e, egress);
    UpdateKeeps(s, k, e.(ins := Delete(e.ins, egress)), {});
    OutgoingDataKeeps(Update(s, k, e.(ins := Delete(e.ins, egress))), data, egress);
  }

  ghost predicate AllAskedFor(arrived: set<Origin>, data: Data, fs: seq<Face>) {
    forall i :: 0 <= i < |fs| ==> AskedFor(arrived, data, fs[i])
  }

  lemma {:induction false} SendDataToKeeps(s: State, k: Key, data: Data, fs: seq<Face>)
    requires Inv(s, {}) && k in s.pit && AllAskedFor(s.arrived, data, fs)
    ensures Inv(SendDataTo(s, k, data, fs), {})
  {
    hide Inv, SendData, AskedFor;
    if fs != [] {
      SendDataToKeeps(s, k, data, fs[..|fs| - 1]);
      SendDataKeeps(SendDataTo(s, k, data, fs[..|fs| - 1]), k, data, fs[|fs| - 1]);
    }
  }

  lemma {:induction false} OutgoingDataToKeeps(s: State, data: Data, fs: seq<Face>)
    requires Inv(s, {}) && AllAskedFor(s.arrived, data, fs)
    ensures Inv(OutgoingDataTo(s, data, fs), {})
  {
    hide Inv, OutgoingData, AskedFor;
    if fs != [] {
      OutgoingDataToKeeps(s, data, fs[..|fs| - 1]);
      OutgoingDataKeeps(OutgoingDataTo(s, data, fs[..|fs| - 1]), data, fs[|fs| - 1]);
    }
  }

  /** A downstream that waits in a matching entry asked for the Data. */
  lemma WaitingAsked(s: State, k: Key, data: Data, f: Face, now: Time)
    requires Inv(s, {}) && k in s.pit && MatchesData(k, data) && Waits(s.pit[k].ins, f, now)
    ensures AskedFor(s.arrived, data, f)
  {
    hide Inv;
    EntryIsOk(s, k, {});
    var i :| 0 <= i < |s.pit[k].ins| && s.pit[k].ins[i].face == f && s.pit[k].ins[i].expiry > now;
    assert Origin(f, k) in s.arrived;
  }

  lemma DownstreamsAsked(s: State, data: Data, matches: seq<Key>, ingress: Face, now: Time)
    requires Inv(s, {}) && forall k :: k in matches ==> k in s.pit && MatchesData(k, data)
    ensures AllAskedFor(s.arrived, data, Except(AllDownstreams(s, matches, now), ingress))
  {
    hide Inv, AskedFor, Waits, MatchesData, AllDownstreams, Except;
    var all := AllDownstreams(s, matches, now);
    var fs := Except(all, ingress);
    forall i | 0 <= i < |fs| ensures AskedFor(s.arrived, data, fs[i]) {
      AllDownstreamsAre(s, matches, now, fs[i]);
      ExceptIs(all, ingress, fs[i]);
      var k :| k in matches && Waits(s.pit[k].ins, fs[i], now);
      WaitingAsked(s, k, data, fs[i], now);
    }
  }

  lemma LoopKeeps(s: State, ingress: Face, k: Key)
    requires Inv(s, {}) && (LOCALHOST <= k.name ==> ingress.local) && Origin(ingress, k) in s.arrived
    ensures Inv(InterestLoop(s, ingress, k), {})
  {
    hide Inv;
    EmitKeeps(s, NackOut(k, ingress, DUPLICATE), {});
  }

  lemma HitKeeps(s: State, k: Key, ingress: Face, data: Data)
    requires Inv(s, {k}) && k in s.pit && AskedFor(s.arrived, data, ingress)
    ensures Inv(ContentStoreHit(s, k, ingress, data), {})
  {
    hide Inv, SendData, AllLocal, AskedFor;
    var s1 := Update(s, k, s.pit[k].(satisfied := true));
    EntryIsOk(s, k, {k});
    UpdateKeeps(s, k, s.pit[k].(satisfied := true), {k});
    SetTimerKeeps(s1, k, {k});
    assert {k} - {k} == {};
    SendDataKeeps(SetTimer(s1, k), k, data, ingress);
  }

  lemma MissKeeps(s: State, ingress: Face, interest: Interest, now: Time, actions: seq<Action>)
    requires Inv(s, {interest.key}) && interest.key in s.pit && AllAllowed(interest.key, {ingress}, actions)
    requires (LOCALHOST <= interest.key.name ==> ingress.local) && Origin(ingress, interest.key) in s.arrived
    ensures Inv(ContentStoreMiss(s, ingress, interest, now, actions), {})
  {
    hide Inv, PerformAll, EntryOk, Upsert, AllAllowed;
    var k := interest.key;
    var e := s.pit[k];
    var e' := e.(ins := Upsert(e.ins, ingress, interest.nonce, now, interest.lifetime));
    EntryIsOk(s, k, {k});
    InRecordOk(s.arrived, k, e, ingress, interest.nonce, now, interest.lifetime);
    UpdateKeeps(s, k, e', {k});
    SetTimerKeeps(Update(s, k, e'), k, {k});
    assert {k} - {k} == {};
    PerformAllKeeps(SetTimer(Update(s, k, e'), k), k, {ingress}, actions, now);
  }

  /** A new entry has no records, so an Interest that finds a duplicate Nonce finds an old entry. */
  lemma InterestKeeps(s: State, ingress: Face, interest: Interest, dead: bool, cached: Option<Data>, now: Time, actions: seq<Action>)
    requires Inv(s, {}) && AllAllowed(interest.key, {ingress}, actions)
    requires cached.Some? ==> MatchesData(interest.key, cached.value)
    ensures Inv(IncomingInterest(s, ingress, interest, dead, cached, now, actions), {})
  {
    hide Inv, ContentStoreHit, ContentStoreMiss, InterestLoop, AllAllowed;
    var k := interest.key;
    var s0 := Arrive(s, Origin(ingress, k));
    ArriveKeeps(s, Origin(ingress, k), {});
    if interest.hopLimit == Some(0) || (!ingress.local && LOCALHOST <= k.name) {
    } else if dead {
      LoopKeeps(s0, ingress, k);
    } else {
      var s1 := Insert(s0, k);
      InsertKeeps(s0, k);
      if HasDuplicateNonce(s1.pit[k], interest.nonce, ingress) {
        LoopKeeps(s1, ingress, k);
      } else if s1.pit[k].ins == [] && cached.Some? {
        assert Origin(ingress, k) in s1.arrived;
        HitKeeps(s1, k, ingress, cached.value);
      } else {
        MissKeeps(s1, ingress, interest, now, actions);
      }
    }
  }

  lemma SatisfiedKeeps(s: State, k: Key, ins: seq<FaceRecord>, ingress: Face)
    requires Inv(s, {}) && k in s.pit && (ins == s.pit[k].ins || ins == [])
    ensures Inv(Update(s, k, s.pit[k].(satisfied := true, ins := ins, outs := Delete(s.pit[k].outs, ingress))), {})
  {
    hide Inv, Delete;
    EntryIsOk(s, k, {});
    DeletedOutOk(s.arrived, k, s.pit[k], ingress);
    UpdateKeeps(s, k, s.pit[k].(satisfied := true, ins := ins, outs := Delete(s.pit[k].outs, ingress)), {});
  }

  lemma OneMatch(s: State, k: Key, now: Time)
    requires k in s.pit
    ensures AllDownstreams(s, [k], now) == Downstreams([], s.pit[k].ins, now)
  {
    assert [k][..0] == [];
  }

  lemma SatisfyOneKeeps(s: State, k: Key, ingress: Face, data: Data, now: Time)
    requires Inv(s, {}) && k in s.pit && MatchesData(k, data)
    ensures Inv(SatisfyOne(s, k, ingress, data, now), {})
  {
    hide Inv, SetTimer, SendDataTo, Delete, Update;
    var s1 := SetTimer(s, k);
    SetTimerKeeps(s, k, {});
    assert {} - {k} == {};
    var fs := Except(Downstreams([], s1.pit[k].ins, now), ingress);
    DownstreamsAsked(s1, data, [k], ingress, now);
    OneMatch(s1, k, now);
    SendDataToKeeps(s1, k, data, fs);
    var s2 := SendDataTo(s1, k, data, fs);
    SatisfiedKeeps(s2, k, s2.pit[k].ins, ingress);
    var e := s2.pit[k];
    assert e.(satisfied := true, outs := Delete(e.outs, ingress)) == e.(satisfied := true, ins := e.ins, outs := Delete(e.outs, ingress));
  }

  lemma {:induction false} SatisfyEachKeeps(s: State, matches: seq<Key>, ingress: Face)
    requires Inv(s, {}) && forall k :: k in matches ==> k in s.pit
    ensures Inv(SatisfyEach(s, matches, ingress), {})
  {
    hide Inv, SetTimer, Delete, Update;
    if matches != [] {
      var n := |matches| - 1;
      var k := matches[n];
      assert k in matches;
      SatisfyEachKeeps(s, matches[..n], ingress);
      var v := SatisfyEach(s, matches[..n], ingress);
      SetTimerKeeps(v, k, {});
      assert {} - {k} == {};
      SatisfiedKeeps(SetTimer(v, k), k, [], ingress);
    }
  }

  lemma DataKeeps(s: State, ingress: Face, data: Data, now: Time, matches: seq<Key>)
    requires Inv(s, {}) && forall k :: k in matches ==> k in s.pit && MatchesData(k, data)
    ensures Inv(IncomingData(s, ingress, data, now, matches), {})
  {
    hide Inv, SatisfyOne, SatisfyEach, OutgoingDataTo, Except, AllDownstreams;
    if |matches| == 1 {
      SatisfyOneKeeps(s, matches[0], ingress, data, now);
    } else if |matches| > 1 {
      SatisfyEachKeeps(s, matches, ingress);
      DownstreamsAsked(s, data, matches, ingress, now);
      OutgoingDataToKeeps(SatisfyEach(s, matches, ingress), data, Except(AllDownstreams(s, matches, now), ingress));
    }
  }

  lemma RecordNackKeeps(s: State, k: Key, ingress: Face, reason: Reason)
    requires Inv(s, {}) && k in s.pit && Has(s.pit[k].outs, ingress)
    ensures Inv(RecordNack(s, k, ingress, reason), {})
    ensures Causes(RecordNack(s, k, ingress, reason), k) == Causes(s, k)
  {
    hide Inv;
    EntryIsOk(s, k, {});
    SetNackRecords(s.pit[k].outs, ingress, reason, ingress);
    UpdateKeeps(s, k, s.pit[k].(outs := SetNack(s.pit[k].outs, ingress, reason)), {});
  }

  /** The downstreams of an entry have asked for its name. */
  lemma CausesAsked(s: State, k: Key)
    requires Inv(s, {}) && k in s.pit
    ensures Asked(s, k, Causes(s, k))
  {
    hide Inv;
    EntryIsOk(s, k, {});
  }

  lemma NackInKeeps(s: State, ingress: Face, k: Key, nonce: Nonce, reason: Reason, now: Time, actions: seq<Action>)
    requires Inv(s, {}) && AllAllowed(k, Causes(s, k), actions)
    ensures Inv(IncomingNack(s, ingress, k, nonce, reason, now, actions), {})
  {
    hide Inv, PerformAll, HasPending, AllAllowed, Causes;
    if k in s.pit && Has(s.pit[k].outs, ingress) {
      RecordNackKeeps(s, k, ingress, reason);
      var s1 := RecordNack(s, k, ingress, reason);
      CausesAsked(s, k);
      SetTimerKeeps(s1, k, {});
      assert {} - {k} == {};
      PerformAllKeeps(if HasPending(s1.pit[k].outs, now) then s1 else SetTimer(s1, k), k, Causes(s, k), actions, now);
    }
  }

  /** The scheduled events refer to live entries only. */
  lemma TimerIsLive(s: State, t: nat)
    requires Inv(s, {}) && t in s.timers
    ensures Live(s, s.timers[t])
  {
  }

  lemma StepKeepsInv(s: State, e: Event, s': State)
    requires Inv(s, {}) && Step(s, e, s')
    ensures Inv(s', {})
  {
    hide Inv, IncomingInterest, IncomingData, IncomingNack, PerformAll, Finalize, AllAllowed, Causes;
    match e
    case InterestIn(ingress, interest, dead, cached, now, actions) =>
      InterestKeeps(s, ingress, interest, dead, cached, now, actions);
    case DataIn(ingress, data, now, matches) =>
      DataKeeps(s, ingress, data, now, matches);
    case NackIn(ingress, k, nonce, reason, now, actions) =>
      NackInKeeps(s, ingress, k, nonce, reason, now, actions);
    case Own(k, now, actions) =>
      CausesAsked(s, k);
      PerformAllKeeps(s, k, Causes(s, k), actions, now);
    case Timer(t) =>
      TimerIsLive(s, t);
      FinalizeKeeps(s, s.timers[t].key);
  }

  lemma {:induction false} RunKeepsInv(events: seq<Event>, s: State)
    requires Reaches(events, s)
    ensures Inv(s, {})
    decreases |events|
  {
    hide Inv, Step;
    if events == [] {
      InitInv();
    } else {
      var n := |events| - 1;
      var v :| Reaches(events[..n], v) && Step(v, events[n], s);
      RunKeepsInv(events[..n], v);
      StepKeepsInv(v, events[n], s);
    }
  }

  lemma InitInv()
    ensures Inv(INIT, {})
  {
  }

  // ---------------------------------------------------------------- theorems

  /** Every PIT entry has exactly one pending expiry timer, and there are no others. */
  lemma OneTimerEach(events: seq<Event>, s: State)
    requires Reaches(events, s)
    ensures forall k :: k in s.pit ==>
              exists t :: t in s.timers && s.timers[t] == Ref(k, s.pit[k].serial)
                          && forall u :: u in s.timers && s.timers[u].key == k ==> u == t
    ensures forall t :: t in s.timers ==> Live(s, s.timers[t])
  {
    RunKeepsInv(events, s);
    forall k | k in s.pit
      ensures exists t :: t in s.timers && s.timers[t] == Ref(k, s.pit[k].serial)
                          && forall u :: u in s.timers && s.timers[u].key == k ==> u == t
    {
      assert HasTimer(s, k);
      var t := s.pit[k].timer.value;
      assert t in s.timers && s.timers[t] == Ref(k, s.pit[k].serial);
    }
  }

  /** Each inserted entry is live or was finalized, never both and never twice, and the counters add up. */
  lemma EntriesAreConserved(events: seq<Event>, s: State)
    requires Reaches(events, s)
    ensures s.created == s.nSatisfied + s.nUnsatisfied + |s.pit|
    ensures |s.finalized| == s.nSatisfied + s.nUnsatisfied
    ensures forall i, j :: 0 <= i < j < |s.finalized| ==> s.finalized[i] != s.finalized[j]
    ensures forall k :: k in s.pit ==> s.pit[k].serial !in s.finalized
  {
    RunKeepsInv(events, s);
  }

  /** Entries under /localhost hold local records only, and no packet under it leaves on a non-local face. */
  lemma LocalhostIsRespected(events: seq<Event>, s: State)
    requires Reaches(events, s)
    ensures forall k, i :: k in s.pit && LOCALHOST <= k.name && 0 <= i < |s.pit[k].ins| ==> s.pit[k].ins[i].face.local
    ensures forall k, i :: k in s.pit && LOCALHOST <= k.name && 0 <= i < |s.pit[k].outs| ==> s.pit[k].outs[i].face.local
    ensures forall p :: p in s.sent && LOCALHOST <= NameOf(p) ==> p.egress.local
  {
    RunKeepsInv(events, s);
    forall k | k in s.pit ensures LocalRecords(k, s.pit[k]) {
      assert EntryOk(s.arrived, k, s.pit[k]);
    }
    forall p | p in s.sent ensures Safe(p) {
      var i :| 0 <= i < |s.sent| && s.sent[i] == p;
      assert PacketOk(s.arrived, s.sent[i]);
    }
  }

  // ---------------------------------------------------------------- where Interests come from

  /** The origin of an incoming Interest. */
  function OriginOf(e: Event): set<Origin> {
    if e.InterestIn? then {Origin(e.ingress, e.interest.key)} else {}
  }

  lemma StepArrivals(s: State, e: Event, s': State)
    requires Inv(s, {}) && Step(s, e, s')
    ensures s'.arrived == s.arrived + OriginOf(e)
  {
    hide Inv, PerformAll, SendDataTo, SatisfyEach, OutgoingDataTo, AllAllowed;
    if e.Timer? {
      TimerIsLive(s, e.id);
    }
  }

  /** Some Interest with this origin arrived. */
  ghost predicate Arrived(events: seq<Event>, o: Origin) {
    exists j :: 0 <= j < |events| && o in OriginOf(events[j])
  }

  lemma {:induction false} ArrivalsAre(events: seq<Event>, s: State, o: Origin)
    requires Reaches(events, s)
    ensures o in s.arrived <==> Arrived(events, o)
    decreases |events|
  {
    hide Step, Inv;
    if events != [] {
      var n := |events| - 1;
      var v :| Reaches(events[..n], v) && Step(v, events[n], s);
      RunKeepsInv(events[..n], v);
      StepArrivals(v, events[n], s);
      ArrivalsAre(events[..n], v, o);
      if Arrived(events[..n], o) {
        var j :| 0 <= j < n && o in OriginOf(events[..n][j]);
        assert o in OriginOf(events[j]);
      }
    }
  }

  /** In every run an Interest is sent only on behalf of a face from which it arrived, and never back to
      it unless the face is ad hoc. One under /localhop leaves on a non-local face only if a local face
      asked for it; if only non-local faces did, it never does. */
  lemma InterestsAreAskedFor(events: seq<Event>, s: State, p: Packet)
    requires Reaches(events, s) && p in s.sent && p.InterestOut?
    ensures Arrived(events, Origin(p.cause, p.key))
    ensures p.egress.id != p.cause.id || p.egress.link == AdHoc
    ensures LOCALHOP <= p.key.name && !p.egress.local ==> p.cause.local
  {
    hide Reaches, Step, Arrived;
    RunKeepsInv(events, s);
    var i :| 0 <= i < |s.sent| && s.sent[i] == p;
    assert PacketOk(s.arrived, s.sent[i]);
    ArrivalsAre(events, s, Origin(p.cause, p.key));
  }

  /** In every run Data goes only to faces that asked, with a name that is a prefix of the Data name if
      the Interest allows that and the Data name otherwise, and fresh Data if it asked for that. */
  lemma DataIsAskedFor(events: seq<Event>, s: State, p: Packet) returns (k: Key)
    requires Reaches(events, s) && p in s.sent && p.DataOut?
    ensures Arrived(events, Origin(p.egress, k))
    ensures k.name <= p.data.name && (!k.canBePrefix ==> k.name == p.data.name) && (k.mustBeFresh ==> p.data.freshness > 0)
  {
    hide Reaches, Step, Arrived;
    RunKeepsInv(events, s);
    var i :| 0 <= i < |s.sent| && s.sent[i] == p;
    assert PacketOk(s.arrived, s.sent[i]);
    k :| Origin(p.egress, k) in s.arrived && MatchesData(k, p.data);
    ArrivalsAre(events, s, Origin(p.egress, k));
  }

  /** In every run a Nack goes only to a face from which the Interest arrived. */
  lemma NacksAreAskedFor(events: seq<Event>, s: State, p: Packet)
    requires Reaches(events, s) && p in s.sent && p.NackOut?
    ensures Arrived(events, Origin(p.egress, p.key))
  {
    hide Reaches, Step, Arrived;
    RunKeepsInv(events, s);
    var i :| 0 <= i < |s.sent| && s.sent[i] == p;
    assert PacketOk(s.arrived, s.sent[i]);
    ArrivalsAre(events, s, Origin(p.egress, p.key));
  }

  /** What was sent since. */
  ghost predicate SendsNoInterestAway(s: State, s': State) {
    s.sent <= s'.sent && forall i :: |s.sent| <= i < |s'.sent| && s'.sent[i].InterestOut? ==> s'.sent[i].egress.local
  }

  lemma PerformStaysLocal(s: State, k: Key, ingress: Face, a: Action, now: Time)
    requires k in s.pit && Allowed(k, {ingress}, a) && LOCALHOP <= k.name && !ingress.local
    ensures SendsNoInterestAway(s, Perform(s, k, a, now))
  {
    hide Upsert, Delete;
  }

  lemma {:induction false} ActionsStayLocal(s: State, k: Key, ingress: Face, actions: seq<Action>, now: Time)
    requires k in s.pit && AllAllowed(k, {ingress}, actions) && LOCALHOP <= k.name && !ingress.local
    ensures SendsNoInterestAway(s, PerformAll(s, k, actions, now))
  {
    hide Perform, Allowed;
    if actions != [] {
      var n := |actions| - 1;
      ActionsStayLocal(s, k, ingress, actions[..n], now);
      PerformStaysLocal(PerformAll(s, k, actions[..n], now), k, ingress, actions[n], now);
    }
  }

  /** Whatever the strategy does with an Interest under /localhop from a non-local face, it does not send
      it to a non-local face, even when local faces have asked for the same name. */
  lemma LocalhopStays(s: State, ingress: Face, interest: Interest, dead: bool, cached: Option<Data>, now: Time, actions: seq<Action>)
    requires AllAllowed(interest.key, {ingress}, actions) && LOCALHOP <= interest.key.name && !ingress.local
    ensures SendsNoInterestAway(s, IncomingInterest(s, ingress, interest, dead, cached, now, actions))
  {
    hide PerformAll, AllAllowed, Upsert, Delete, HasDuplicateNonce;
    var k := interest.key;
    var s1 := Insert(Arrive(s, Origin(ingress, k)), k);
    var e := s1.pit[k];
    var s2 := SetTimer(Update(s1, k, e.(ins := Upsert(e.ins, ingress, interest.nonce, now, interest.lifetime))), k);
    ActionsStayLocal(s2, k, ingress, actions, now);
  }
}
