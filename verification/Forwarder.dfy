/** The forwarder as it updates its tables in place. Its pipelines keep `Valid`: one expiry timer per
    PIT entry, the counters of entries, and the scope of records and packets. */
module ForwarderModel {
  import opened Wrappers
  import opened Faces
  import opened PitRecords
  import opened Forwarding
  import opened ForwardingSafety
  import opened ForwardingEffects
  import opened DataEffects

  class Forwarder {
    var pit: map<Key, Entry>
    var timers: map<nat, Ref>
    var nextTimer: nat
    var created: nat
    var nSatisfied: nat
    var nUnsatisfied: nat
    var sent: seq<Packet>
    ghost var finalized: seq<nat>
    ghost var arrived: set<Origin>

    ghost function Abs(): State
      reads this
    {
      State(pit, timers, nextTimer, created, nSatisfied, nUnsatisfied, sent, finalized, arrived)
    }

    ghost predicate Valid()
      reads this
    {
      Inv(Abs(), {})
    }

    constructor ()
      ensures Abs() == INIT
      ensures Valid()
    {
      pit, timers, nextTimer, created, nSatisfied, nUnsatisfied, sent := map[], map[], 0, 0, 0, 0, [];
      finalized, arrived := [], {};
      new;
      StartsValid();
    }

    lemma StartsValid()
      requires Abs() == INIT
      ensures Valid()
    {
      hide Inv;
      InitInv();
    }

    method SetExpiryTimer(k: Key)
      requires k in pit
      modifies this
      ensures Abs() == SetTimer(old(Abs()), k)
    {
      if pit[k].timer.Some? {
        timers := timers - {pit[k].timer.value};
      }
      timers := timers[nextTimer := Ref(k, pit[k].serial)];
      pit := pit[k := pit[k].(timer := Some(nextTimer))];
      nextTimer := nextTimer + 1;
    }

    method OnInterestFinalize(k: Key)
      requires k in pit
      modifies this
      ensures Abs() == Finalize(old(Abs()), k)
    {
      if pit[k].satisfied {
        nSatisfied := nSatisfied + 1;
      } else {
        nUnsatisfied := nUnsatisfied + 1;
      }
      if pit[k].timer.Some? {
        timers := timers - {pit[k].timer.value};
      }
      finalized := finalized + [pit[k].serial];
      pit := pit - {k};
    }

    method OnOutgoingInterest(k: Key, inFace: Face, egress: Face, interest: Interest, now: Time)
      requires k in pit
      modifies this
      ensures Abs() == OutgoingInterest(old(Abs()), k, inFace, egress, interest, now)
    {
      if interest.hopLimit == Some(0) && !egress.local {
        return;
      }
      pit := pit[k := pit[k].(outs := Upsert(pit[k].outs, egress, interest.nonce, now, interest.lifetime))];
      sent := sent + [InterestOut(k, inFace, egress)];
    }

    method OnOutgoingData(data: Data, egress: Face)
      modifies this`sent
      ensures Abs() == OutgoingData(old(Abs()), data, egress)
    {
      if egress.id == INVALID_FACEID {
        return;
      }
      if !egress.local && LOCALHOST <= data.name {
        return;
      }
      sent := sent + [DataOut(data, egress)];
    }

    method OnOutgoingNack(k: Key, egress: Face, reason: Reason)
      requires k in pit
      modifies this
      ensures Abs() == OutgoingNack(old(Abs()), k, egress, reason)
    {
      if egress.id == INVALID_FACEID {
        return;
      }
      if !Has(pit[k].ins, egress) {
        return;
      }
      if egress.link != PointToPoint {
        return;
      }
      pit := pit[k := pit[k].(ins := Delete(pit[k].ins, egress))];
      sent := sent + [NackOut(k, egress, reason)];
    }

    method OnInterestLoop(ingress: Face, k: Key)
      modifies this
      ensures Abs() == InterestLoop(old(Abs()), ingress, k)
    {
      if ingress.link != PointToPoint {
        return;
      }
      sent := sent + [NackOut(k, ingress, DUPLICATE)];
    }

    /** Runs what a strategy decides to do. */
    method Dispatch(k: Key, actions: seq<Action>, now: Time)
      requires k in pit
      modifies this
      ensures Abs() == PerformAll(old(Abs()), k, actions, now)
    {
      ghost var s := Abs();
      var i := 0;
      while i < |actions|
        invariant 0 <= i <= |actions| && k in pit
        invariant Abs() == PerformAll(s, k, actions[..i], now)
      {
        assert actions[..i + 1][..i] == actions[..i] && actions[..i + 1][i] == actions[i];
        match actions[i] {
          case SendInterest(inFace, egress, interest) =>
            OnOutgoingInterest(k, inFace, egress, interest, now);
          case SendNack(egress, reason) =>
            OnOutgoingNack(k, egress, reason);
          case SetExpiryTimer =>
            SetExpiryTimer(k);
        }
        i := i + 1;
      }
      assert actions[..i] == actions;
    }

    /** Searches the in-records and then the out-records of an entry. */
    method FindDuplicateNonce(e: Entry, nonce: Nonce, ingress: Face) returns (isLoop: bool)
      ensures isLoop == HasDuplicateNonce(e, nonce, ingress)
    {
      var found, inSame := false, false;
      var i := 0;
      while i < |e.ins|
        invariant 0 <= i <= |e.ins|
        invariant found == exists j :: 0 <= j < i && e.ins[j].lastNonce == nonce
        invariant inSame == exists j :: 0 <= j < i && e.ins[j].lastNonce == nonce && e.ins[j].face == ingress
      {
        if e.ins[i].lastNonce == nonce {
          found := true;
          if e.ins[i].face == ingress {
            inSame := true;
          }
        }
        i := i + 1;
      }
      i := 0;
      while i < |e.outs|
        invariant 0 <= i <= |e.outs|
        invariant found == (HasNonce(e.ins, nonce) || exists j :: 0 <= j < i && e.outs[j].lastNonce == nonce)
      {
        if e.outs[i].lastNonce == nonce {
          found := true;
        }
        i := i + 1;
      }
      isLoop := found;
      if ingress.link == PointToPoint {
        isLoop := isLoop && !inSame;
      }
    }

    method SendDataOn(k: Key, data: Data, egress: Face)
      requires k in pit
      modifies this
      ensures Abs() == SendData(old(Abs()), k, data, egress)
    {
      pit := pit[k := pit[k].(ins := Delete(pit[k].ins, egress))];
      OnOutgoingData(data, egress);
    }

    method OnContentStoreHit(k: Key, ingress: Face, data: Data)
      requires k in pit
      modifies this
      ensures Abs() == ContentStoreHit(old(Abs()), k, ingress, data)
    {
      pit := pit[k := pit[k].(satisfied := true)];
      SetExpiryTimer(k);
      SendDataOn(k, data, ingress);
    }

    method OnContentStoreMiss(ingress: Face, interest: Interest, now: Time, actions: seq<Action>)
      requires interest.key in pit
      modifies this
      ensures Abs() == ContentStoreMiss(old(Abs()), ingress, interest, now, actions)
    {
      var k := interest.key;
      pit := pit[k := pit[k].(ins := Upsert(pit[k].ins, ingress, interest.nonce, now, interest.lifetime))];
      SetExpiryTimer(k);
      Dispatch(k, actions, now);
    }

    /** The strategy acts on behalf of the face that the Interest came from. */
    method OnIncomingInterest(ingress: Face, interest: Interest, dead: bool, cached: Option<Data>, now: Time, actions: seq<Action>)
      requires Valid() && AllAllowed(interest.key, {ingress}, actions)
      requires cached.Some? ==> MatchesData(interest.key, cached.value)
      modifies this
      ensures Valid()
      ensures LOCALHOP <= interest.key.name && !ingress.local ==> SendsNoInterestAway(old(Abs()), Abs())
      ensures InterestDid(old(Abs()), ingress, interest, dead, cached, now, actions, Abs())
      ensures Abs() == IncomingInterest(old(Abs()), ingress, interest, dead, cached, now, actions)
    {
      hide Inv, InterestDid, IncomingInterest, SendsNoInterestAway;
      InterestKeeps(Abs(), ingress, interest, dead, cached, now, actions);
      InvGivesDistinct(Abs());
      NewIsDistinct(Abs(), interest.key);
      InterestDoes(Abs(), ingress, interest, dead, cached, now, actions);
      if LOCALHOP <= interest.key.name && !ingress.local {
        LocalhopStays(Abs(), ingress, interest, dead, cached, now, actions);
      }
      ReceiveInterest(ingress, interest, dead, cached, now, actions);
    }

    method ReceiveInterest(ingress: Face, interest: Interest, dead: bool, cached: Option<Data>, now: Time, actions: seq<Action>)
      modifies this
      ensures Abs() == IncomingInterest(old(Abs()), ingress, interest, dead, cached, now, actions)
    {
      var k := interest.key;
      arrived := arrived + {Origin(ingress, k)};
      if interest.hopLimit == Some(0) {
        return;
      }
      if !ingress.local && LOCALHOST <= k.name {
        return;
      }
      if dead {
        OnInterestLoop(ingress, k);
        return;
      }
      if k !in pit {
        pit := pit[k := Entry(created, [], [], false, None)];
        created := created + 1;
      }
      var isLoop := FindDuplicateNonce(pit[k], interest.nonce, ingress);
      if isLoop {
        OnInterestLoop(ingress, k);
        return;
      }
      if pit[k].ins == [] && cached.Some? {
        OnContentStoreHit(k, ingress, cached.value);
      } else {
        OnContentStoreMiss(ingress, interest, now, actions);
      }
    }

    method FindAllDataMatches(data: Data) returns (matches: seq<Key>)
      ensures IsMatchList(Abs(), data, matches)
    {
      matches := [];
      var left := pit.Keys;
      while left != {}
        invariant left <= pit.Keys
        invariant forall k :: k in matches <==> k in pit.Keys - left && MatchesData(k, data)
        invariant forall i, j :: 0 <= i < j < |matches| ==> matches[i] != matches[j]
        decreases |left|
      {
        var k :| k in left;
        left := left - {k};
        if MatchesData(k, data) {
          matches := matches + [k];
        }
      }
    }

    /** The faces of the pending in-records, added to those already there. */
    method Collect(fs: seq<Face>, ins: seq<FaceRecord>, now: Time) returns (r: seq<Face>)
      ensures r == Downstreams(fs, ins, now)
    {
      r := fs;
      var i := 0;
      while i < |ins|
        invariant 0 <= i <= |ins|
        invariant r == Downstreams(fs, ins[..i], now)
      {
        assert ins[..i + 1][..i] == ins[..i] && ins[..i + 1][i] == ins[i];
        if Pending(ins[i], now) {
          r := Add(r, ins[i].face);
        }
        i := i + 1;
      }
      assert ins[..i] == ins;
    }

    method SendDataToAll(k: Key, ingress: Face, data: Data, now: Time)
      requires k in pit
      modifies this
      ensures Abs() == SendDataTo(old(Abs()), k, data, Except(Downstreams([], old(pit[k].ins), now), ingress))
    {
      hide SendDataTo, Except, Downstreams, SendData;
      ghost var s := Abs();
      NothingYet(s, k, data, ingress);
      var all := Collect([], pit[k].ins, now);
      var i := 0;
      while i < |all|
        invariant 0 <= i <= |all| && k in pit
        invariant Abs() == SendDataTo(s, k, data, Except(all[..i], ingress))
      {
        ExceptNext(all, i, ingress);
        if !(all[i].id == ingress.id && all[i].link != AdHoc) {
          SendDataToNext(s, k, data, Except(all[..i], ingress), all[i]);
          SendDataOn(k, data, all[i]);
        }
        i := i + 1;
      }
      assert all[..i] == all;
    }

    method Satisfy(k: Key, ingress: Face)
      requires k in pit
      modifies this
      ensures Abs() == SatisfyEntry(old(Abs()), k, ingress)
    {
      SetExpiryTimer(k);
      pit := pit[k := pit[k].(satisfied := true)];
      pit := pit[k := pit[k].(ins := [])];
      pit := pit[k := pit[k].(outs := Delete(pit[k].outs, ingress))];
    }

    /** Several matching entries: their downstreams are remembered before the records are cleared. */
    method SatisfyMatches(matches: seq<Key>, ingress: Face, now: Time) returns (fs: seq<Face>)
      requires forall k :: k in matches ==> k in pit
      requires forall i, j :: 0 <= i < j < |matches| ==> matches[i] != matches[j]
      modifies this
      ensures Abs() == SatisfyEach(old(Abs()), matches, ingress)
      ensures fs == AllDownstreams(old(Abs()), matches, now)
    {
      ghost var s := Abs();
      fs := [];
      var i := 0;
      while i < |matches|
        invariant 0 <= i <= |matches|
        invariant Abs() == SatisfyEach(s, matches[..i], ingress)
        invariant fs == AllDownstreams(s, matches[..i], now)
      {
        assert matches[..i + 1][..i] == matches[..i] && matches[..i + 1][i] == matches[i];
        assert matches[i] in matches;
        Untouched(s, matches[..i], ingress, matches[i]);
        fs := Collect(fs, pit[matches[i]].ins, now);
        Satisfy(matches[i], ingress);
        i := i + 1;
      }
      assert matches[..i] == matches;
    }

    method SatisfySingle(k: Key, ingress: Face, data: Data, now: Time)
      requires k in pit
      modifies this
      ensures Abs() == SatisfyOne(old(Abs()), k, ingress, data, now)
    {
      hide SendDataTo, Except, Downstreams;
      SetExpiryTimer(k);
      SendDataToAll(k, ingress, data, now);
      pit := pit[k := pit[k].(satisfied := true)];
      pit := pit[k := pit[k].(outs := Delete(pit[k].outs, ingress))];
    }

    method SendToAll(fs: seq<Face>, ingress: Face, data: Data)
      modifies this`sent
      ensures Abs() == OutgoingDataTo(old(Abs()), data, Except(fs, ingress))
    {
      hide OutgoingDataTo, Except, OutgoingData;
      ghost var s := Abs();
      NoneYet(s, data, ingress);
      var i := 0;
      while i < |fs|
        invariant 0 <= i <= |fs|
        invariant Abs() == OutgoingDataTo(s, data, Except(fs[..i], ingress))
      {
        ExceptNext(fs, i, ingress);
        if !(fs[i].id == ingress.id && fs[i].link != AdHoc) {
          OutgoingDataToNext(s, data, Except(fs[..i], ingress), fs[i]);
          OnOutgoingData(data, fs[i]);
        }
        i := i + 1;
      }
      assert fs[..i] == fs;
    }

    method OnIncomingData(ingress: Face, data: Data, now: Time) returns (ghost matches: seq<Key>)
      requires Valid()
      modifies this
      ensures Valid() && IsMatchList(old(Abs()), data, matches)
      ensures DataDid(old(Abs()), ingress, data, now, matches, Abs())
      ensures Abs() == IncomingData(old(Abs()), ingress, data, now, matches)
    {
      hide SatisfyOne, SatisfyEach, AllDownstreams, Except, OutgoingDataTo;
      var found := FindAllDataMatches(data);
      matches := found;
      hide Inv, DataDid;
      DataKeeps(Abs(), ingress, data, now, found);
      InvGivesDistinct(Abs());
      DataDoes(Abs(), ingress, data, now, found);
      if !ingress.local && LOCALHOST <= data.name {
        return;
      }
      if |found| == 0 {
        return;
      }
      if |found| == 1 {
        SatisfySingle(found[0], ingress, data, now);
      } else {
        var fs := SatisfyMatches(found, ingress, now);
        SendToAll(fs, ingress, data);
      }
    }

    method OnIncomingNack(ingress: Face, k: Key, nonce: Nonce, reason: Reason, now: Time, actions: seq<Action>)
      requires Valid() && AllAllowed(k, Causes(Abs(), k), actions)
      modifies this
      ensures Valid() && NackDid(old(Abs()), ingress, k, nonce, reason, now, actions, Abs())
      ensures Abs() == IncomingNack(old(Abs()), ingress, k, nonce, reason, now, actions)
    {
      hide Inv, NackDid, IncomingNack;
      NackInKeeps(Abs(), ingress, k, nonce, reason, now, actions);
      InvGivesDistinct(Abs());
      NackDoes(Abs(), ingress, k, nonce, reason, now, actions);
      ReceiveNack(ingress, k, nonce, reason, now, actions);
    }

    method ReceiveNack(ingress: Face, k: Key, nonce: Nonce, reason: Reason, now: Time, actions: seq<Action>)
      modifies this
      ensures Abs() == IncomingNack(old(Abs()), ingress, k, nonce, reason, now, actions)
    {
      if ingress.link != PointToPoint {
        return;
      }
      if k !in pit {
        return;
      }
      var e := pit[k];
      var i := IndexOf(e.outs, ingress);
      if i == |e.outs| {
        return;
      }
      if nonce != e.outs[i].lastNonce {
        return;
      }
      pit := pit[k := e.(outs := e.outs[i := e.outs[i].(nack := Some(reason))])];
      var pending := HasPendingOutRecords(pit[k].outs, now);
      if !pending {
        SetExpiryTimer(k);
      }
      Dispatch(k, actions, now);
    }

    /** A strategy acts on an entry by itself, from a scheduled event or on a new nexthop. */
    method OnStrategyEvent(k: Key, actions: seq<Action>, now: Time)
      requires Valid() && k in pit && AllAllowed(k, Causes(Abs(), k), actions)
      modifies this
      ensures Valid() && Abs() == PerformAll(old(Abs()), k, actions, now)
    {
      CausesAsked(Abs(), k);
      PerformAllKeeps(Abs(), k, Causes(Abs(), k), actions, now);
      Dispatch(k, actions, now);
    }

    /** The scheduler runs an expiry timer. Its entry is still in the PIT, and goes; every other entry
        stays as it was. */
    method OnTimer(t: nat)
      requires Valid() && t in timers
      modifies this
      ensures Valid() && old(Live(Abs(), timers[t])) && pit == old(pit - {timers[t].key}) && timers == old(timers - {t})
      ensures finalized == old(finalized) + [old(timers[t].serial)]
      ensures nSatisfied + nUnsatisfied == old(nSatisfied + nUnsatisfied) + 1
      ensures nSatisfied > old(nSatisfied) <==> old(Abs().pit[timers[t].key].satisfied)
      ensures sent == old(sent) && created == old(created)
    {
      TimerIsLive(Abs(), t);
      FinalizeKeeps(Abs(), timers[t].key);
      OnInterestFinalize(timers[t].key);
    }
  }

  /** Satisfying some entries leaves the others alone. */
  lemma {:induction false} Untouched(s: State, matches: seq<Key>, ingress: Face, k: Key)
    requires (forall l :: l in matches ==> l in s.pit) && k !in matches && k in s.pit
    ensures SatisfyEach(s, matches, ingress).pit[k] == s.pit[k]
  {
    if matches != [] {
      Untouched(s, matches[..|matches| - 1], ingress, k);
    }
  }

  lemma ExceptNext(fs: seq<Face>, i: nat, ingress: Face)
    requires i < |fs|
    ensures Except(fs[..i + 1], ingress)
            == if GoesTo(fs[i], ingress) then Except(fs[..i], ingress) + [fs[i]] else Except(fs[..i], ingress)
  {
    assert fs[..i + 1][..i] == fs[..i];
  }

  lemma SendDataToNext(s: State, k: Key, data: Data, fs: seq<Face>, f: Face)
    requires k in s.pit
    ensures SendDataTo(s, k, data, fs + [f]) == SendData(SendDataTo(s, k, data, fs), k, data, f)
  {
    assert (fs + [f])[..|fs|] == fs;
  }

  lemma OutgoingDataToNext(s: State, data: Data, fs: seq<Face>, f: Face)
    ensures OutgoingDataTo(s, data, fs + [f]) == OutgoingData(OutgoingDataTo(s, data, fs), data, f)
  {
    assert (fs + [f])[..|fs|] == fs;
  }

  lemma NothingYet(s: State, k: Key, data: Data, ingress: Face)
    requires k in s.pit
    ensures SendDataTo(s, k, data, Except([], ingress)) == s
  {
  }

  lemma NoneYet(s: State, data: Data, ingress: Face)
    ensures OutgoingDataTo(s, data, Except([], ingress)) == s
  {
  }
}
