/** What whole runs of a forwarder do for its downstreams: Data that comes in time is returned, and the
    counters tell which entries were served. */
module Fulfilment {
  import opened Wrappers
  import opened Faces
  import opened PitRecords
  import opened Forwarding
  import opened ForwardingSafety
  import opened ForwardingEffects
  import opened DataDelivery
  import opened DataEffects

  /** A run with all its states. */
  ghost predicate Trace(events: seq<Event>, states: seq<State>) {
    && |states| == |events| + 1 && states[0] == INIT
    && forall i :: 0 <= i < |events| ==> Step(states[i], events[i], states[i + 1])
  }

  lemma {:induction false} TraceReaches(events: seq<Event>, states: seq<State>, n: nat)
    requires Trace(events, states) && n <= |events|
    ensures Reaches(events[..n], states[n])
  {
    hide Step;
    if n > 0 {
      TraceReaches(events, states, n - 1);
      assert events[..n][..n - 1] == events[..n - 1];
      assert Step(states[n - 1], events[n - 1], states[n]);
    }
  }

  lemma TraceInv(events: seq<Event>, states: seq<State>, n: nat)
    requires Trace(events, states) && n <= |events|
    ensures Inv(states[n], {}) && EntriesOk(states[n])
  {
    hide Reaches, Step;
    TraceReaches(events, states, n);
    RunKeepsInv(events[..n], states[n]);
    InvGivesDistinct(states[n]);
  }

  // ---------------------------------------------------------------- an in-record lasts

  /** The event may take the in-record of f from entry k, or renew it. */
  ghost predicate Releases(s: State, e: Event, k: Key, f: Face) {
    match e
    case InterestIn(ingress, interest, dead, cached, _, actions) =>
      interest.key == k && OutcomeOf(s, ingress, interest, dead, cached) == Missed && (ingress == f || Nacked(actions, f))
    case DataIn(ingress, data, _, _) => (ingress.local || !(LOCALHOST <= data.name)) && MatchesData(k, data)
    case NackIn(ingress, l, nonce, _, _, actions) => l == k && IsAccepted(s, ingress, k, nonce) && Nacked(actions, f)
    case Own(l, _, actions) => l == k && Nacked(actions, f)
    case Timer(t) => t in s.timers && s.timers[t].key == k
  }

  ghost predicate StillThere(s: State, k: Key, f: Face, s': State)
    requires k in s.pit
  {
    k in s'.pit && s'.pit[k].serial == s.pit[k].serial && RecordOf(s'.pit[k].ins, f) == RecordOf(s.pit[k].ins, f)
  }

  lemma InterestLeaves(s: State, e: Event, s': State, k: Key, f: Face)
    requires EntriesOk(s) && e.InterestIn? && Step(s, e, s') && k in s.pit && RecordOf(s.pit[k].ins, f).Some? && !Releases(s, e, k, f)
    ensures StillThere(s, k, f, s')
  {
    hide IncomingInterest, AllAllowed, Distinct, IsLoop, SentBy, Nacked, LastSend, MatchesData;
    assert Distinct(EntryFor(s, e.interest.key).ins) && Distinct(EntryFor(s, e.interest.key).outs) by { NewIsDistinct(s, e.interest.key); }
    InterestDoes(s, e.ingress, e.interest, e.dead, e.cached, e.now, e.actions);
    NotEmpty(s.pit[k].ins, f);
  }

  lemma NotEmpty(rs: seq<FaceRecord>, f: Face)
    requires RecordOf(rs, f).Some?
    ensures rs != []
  {
  }

  lemma ActionsLeave(s: State, l: Key, actions: seq<Action>, now: Time, k: Key, f: Face)
    requires EntriesOk(s) && l in s.pit && k in s.pit && !(l == k && Nacked(actions, f))
    ensures StillThere(s, k, f, PerformAll(s, l, actions, now))
  {
    hide Distinct, PerformAll, RecordOf, Nacked, LastSend;
    ActionsRecords(s, l, actions, now);
  }

  lemma NackLeaves(s: State, e: Event, s': State, k: Key, f: Face)
    requires EntriesOk(s) && e.NackIn? && Step(s, e, s') && k in s.pit && !Releases(s, e, k, f)
    ensures StillThere(s, k, f, s')
  {
    hide IncomingNack, AllAllowed, Distinct, PerformAll, RecordOf, Nacked, IsAccepted, LastSend, HasPending;
    NackDoes(s, e.ingress, e.key, e.nonce, e.reason, e.now, e.actions);
    if IsAccepted(s, e.ingress, e.key, e.nonce) {
      AcceptedEntry(s, e.ingress, e.key, e.nonce);
      var s1 :| NackNoted(s, e.key, e.ingress, e.reason, e.now, s1) && s' == PerformAll(s1, e.key, e.actions, e.now);
      assert EntriesOk(s1);
      ActionsLeave(s1, e.key, e.actions, e.now, k, f);
    }
  }

  lemma AcceptedEntry(s: State, ingress: Face, k: Key, nonce: Nonce)
    requires IsAccepted(s, ingress, k, nonce)
    ensures k in s.pit
  {
  }

  lemma DataLeaves(s: State, e: Event, s': State, k: Key, f: Face)
    requires EntriesOk(s) && e.DataIn? && Step(s, e, s') && k in s.pit && !Releases(s, e, k, f)
    ensures StillThere(s, k, f, s')
  {
    hide IncomingData, Distinct, RecordOf, IsSatisfied;
    DataDoes(s, e.ingress, e.data, e.now, e.matches);
  }

  /** Until one of those events, the in-record stays as it is. */
  lemma RecordLasts(s: State, e: Event, s': State, k: Key, f: Face)
    requires Inv(s, {}) && EntriesOk(s) && Step(s, e, s') && k in s.pit && RecordOf(s.pit[k].ins, f).Some? && !Releases(s, e, k, f)
    ensures StillThere(s, k, f, s')
  {
    match e
    case InterestIn(_, _, _, _, _, _) => InterestLeaves(s, e, s', k, f);
    case DataIn(_, _, _, _) => DataLeaves(s, e, s', k, f);
    case NackIn(_, _, _, _, _, _) => NackLeaves(s, e, s', k, f);
    case Own(l, now, actions) => ActionsLeave(s, l, actions, now, k, f);
    case Timer(t) => TimerIsLive(s, t);
  }

  lemma {:induction false} RecordLastsTo(events: seq<Event>, states: seq<State>, i: nat, j: nat, k: Key, f: Face)
    requires Trace(events, states) && i <= j <= |events| && k in states[i].pit && RecordOf(states[i].pit[k].ins, f).Some?
    requires forall m :: i <= m < j ==> !Releases(states[m], events[m], k, f)
    ensures StillThere(states[i], k, f, states[j])
    decreases j
  {
    hide Step, Inv, EntriesOk, Releases, RecordOf;
    if i < j {
      RecordLastsTo(events, states, i, j - 1, k, f);
      TraceInv(events, states, j - 1);
      assert Step(states[j - 1], events[j - 1], states[j]);
      RecordLasts(states[j - 1], events[j - 1], states[j], k, f);
    }
  }

  // ---------------------------------------------------------------- Data is returned

  lemma {:induction false} PacketsContain(data: Data, fs: seq<Face>, f: Face)
    requires f in fs && DataPackets(data, f) != []
    ensures DataOut(data, f) in Packets(data, fs)
  {
    var n := |fs| - 1;
    if fs[n] != f {
      PacketsContain(data, fs[..n], f);
    }
  }

  /** Interest i of a run came from f, found no cached Data and was not Nacked at once. */
  ghost predicate Asks(s: State, e: Event, k: Key, f: Face) {
    && e.InterestIn? && e.ingress == f && e.interest.key == k && !Nacked(e.actions, f)
    && OutcomeOf(s, f, e.interest, e.dead, e.cached) == Missed
  }

  lemma AskIsRecorded(s: State, e: Event, s': State, k: Key, f: Face)
    requires EntriesOk(s) && Step(s, e, s') && Asks(s, e, k, f)
    ensures k in s'.pit && IsRecorded(RecordOf(s'.pit[k].ins, f), f, e.interest.nonce, e.now + e.interest.lifetime)
  {
    hide IncomingInterest, AllAllowed, Distinct, IsLoop, SentBy, Nacked, LastSend, MatchesData;
    NewIsDistinct(s, k);
    InterestDoes(s, e.ingress, e.interest, e.dead, e.cached, e.now, e.actions);
  }

  lemma RecordWaits(ins: seq<FaceRecord>, f: Face, nonce: Nonce, expiry: Time, now: Time)
    requires IsRecorded(RecordOf(ins, f), f, nonce, expiry) && expiry > now
    ensures Waits(ins, f, now)
  {
    assert ins[IndexOf(ins, f)].face == f && ins[IndexOf(ins, f)].expiry > now;
  }

  lemma WaitingGetsData(s: State, e: Event, s': State, k: Key, f: Face)
    requires e.DataIn? && Step(s, e, s') && (e.ingress.local || !(LOCALHOST <= e.data.name))
    requires k in s.pit && MatchesData(k, e.data) && Waits(s.pit[k].ins, f, e.now)
    requires GoesTo(f, e.ingress) && DataPackets(e.data, f) != []
    ensures s.sent <= s'.sent && DataOut(e.data, f) in s'.sent[|s.sent|..]
  {
    hide IncomingData, Waits, Packets, MatchesData;
    var fs := DataReachesDownstreamsOnce(s, e.ingress, e.data, e.now, e.matches);
    assert k in e.matches;
    assert f in fs;
    PacketsContain(e.data, fs, f);
    assert s'.sent[|s.sent|..] == Packets(e.data, fs);
  }

  /** The Data has the name that was asked for, or a longer one if that is allowed, and is fresh if that
      was asked for. */
  ghost predicate Answers(data: Data, k: Key) {
    && k.name <= data.name && (data.name == k.name || k.canBePrefix)
    && (data.freshness > 0 || !k.mustBeFresh)
  }

  /** The promise to a downstream: when matching Data arrives before its Interest expires, it is sent to
      it, unless in between it was Nacked, served, asked again, or the entry expired. */
  lemma DataIsReturned(events: seq<Event>, states: seq<State>, i: nat, j: nat, k: Key, f: Face)
    requires Trace(events, states) && i < j < |events| && Asks(states[i], events[i], k, f)
    requires forall m :: i < m < j ==> !Releases(states[m], events[m], k, f)
    requires var d := events[j];
             && d.DataIn? && Answers(d.data, k) && d.now < events[i].now + events[i].interest.lifetime
             && (d.ingress.local || !(LOCALHOST <= d.data.name)) && (f.id != d.ingress.id || f.link == AdHoc)
             && f.id != INVALID_FACEID && (f.local || !(LOCALHOST <= d.data.name))
    ensures states[j].sent <= states[j + 1].sent && DataOut(events[j].data, f) in states[j + 1].sent[|states[j].sent|..]
  {
    hide Step, Inv, EntriesOk, Releases, RecordOf, OutcomeOf, Nacked, Waits;
    TraceInv(events, states, i);
    assert Step(states[i], events[i], states[i + 1]);
    AskIsRecorded(states[i], events[i], states[i + 1], k, f);
    RecordLastsTo(events, states, i + 1, j, k, f);
    RecordWaits(states[j].pit[k].ins, f, events[i].interest.nonce, events[i].now + events[i].interest.lifetime, events[j].now);
    assert Step(states[j], events[j], states[j + 1]);
    WaitingGetsData(states[j], events[j], states[j + 1], k, f);
  }

  // ---------------------------------------------------------------- what the counters count

  /** The event serves the entry with serial number x: matching Data arrives, or the Content Store has it. */
  ghost predicate Serves(s: State, e: Event, x: nat) {
    match e
    case InterestIn(ingress, interest, dead, cached, _, _) =>
      OutcomeOf(s, ingress, interest, dead, cached) == Hit && x == EntryFor(s, interest.key).serial
    case DataIn(ingress, data, _, _) =>
      && (ingress.local || !(LOCALHOST <= data.name))
      && exists k :: k in s.pit && s.pit[k].serial == x && MatchesData(k, data)
    case _ => false
  }

  ghost predicate Served(events: seq<Event>, states: seq<State>, n: nat, x: nat)
    requires n <= |events| && |states| == |events| + 1
  {
    exists i :: 0 <= i < n && Serves(states[i], events[i], x)
  }

  /** An entry is marked satisfied exactly when it was before or the event serves it. */
  ghost predicate FlagsFollow(s: State, e: Event, s': State) {
    && s'.created >= s.created
    && forall k :: k in s'.pit ==>
         && (k in s.pit ==> s'.pit[k].serial == s.pit[k].serial) && (k !in s.pit ==> s'.pit[k].serial == s.created)
         && (s'.pit[k].satisfied <==> Serves(s, e, s'.pit[k].serial) || (k in s.pit && s.pit[k].satisfied))
  }

  /** No other entry has the serial number of this one. */
  lemma OtherSerial(s: State, k: Key, l: Key)
    requires Inv(s, {}) && l in s.pit && l != k
    ensures s.pit[l].serial != EntryFor(s, k).serial
  {
    hide TimersOk, ScopeOk, DeadSerials;
  }

  lemma InterestFlags(s: State, e: Event, s': State)
    requires Inv(s, {}) && EntriesOk(s) && e.InterestIn? && Step(s, e, s')
    ensures FlagsFollow(s, e, s') && s'.finalized == s.finalized && s'.nSatisfied == s.nSatisfied
  {
    hide Inv, IncomingInterest, AllAllowed, Distinct, OutcomeOf, SentBy, Nacked, LastSend, MatchesData, RecordOf;
    var k := e.interest.key;
    NewIsDistinct(s, k);
    InterestDoes(s, e.ingress, e.interest, e.dead, e.cached, e.now, e.actions);
    forall l | l in s.pit && l != k ensures s.pit[l].serial != EntryFor(s, k).serial {
      OtherSerial(s, k, l);
    }
  }

  lemma DataFlags(s: State, e: Event, s': State)
    requires Inv(s, {}) && EntriesOk(s) && e.DataIn? && Step(s, e, s')
    ensures FlagsFollow(s, e, s') && s'.finalized == s.finalized && s'.nSatisfied == s.nSatisfied
  {
    hide IncomingData, Distinct, RecordOf, Waits, TimersOk, ScopeOk;
    DataDoes(s, e.ingress, e.data, e.now, e.matches);
    forall k | k in s'.pit ensures s'.pit[k].satisfied <==> Serves(s, e, s'.pit[k].serial) || (k in s.pit && s.pit[k].satisfied) {
      assert k in s.pit;
    }
  }

  lemma ActionFlags(s: State, k: Key, actions: seq<Action>, now: Time)
    requires EntriesOk(s) && k in s.pit
    ensures var s' := PerformAll(s, k, actions, now);
            && OnlyEntry(s, k, s') && s'.pit[k].serial == s.pit[k].serial && s'.pit[k].satisfied == s.pit[k].satisfied
  {
    hide Distinct, PerformAll, RecordOf, Nacked, LastSend;
    ActionsRecords(s, k, actions, now);
  }

  lemma NackFlags(s: State, e: Event, s': State)
    requires EntriesOk(s) && e.NackIn? && Step(s, e, s')
    ensures FlagsFollow(s, e, s') && s'.finalized == s.finalized && s'.nSatisfied == s.nSatisfied
  {
    hide IncomingNack, AllAllowed, Distinct, PerformAll, RecordOf, IsAccepted, HasPending;
    NackDoes(s, e.ingress, e.key, e.nonce, e.reason, e.now, e.actions);
    if IsAccepted(s, e.ingress, e.key, e.nonce) {
      AcceptedEntry(s, e.ingress, e.key, e.nonce);
      var s1 :| NackNoted(s, e.key, e.ingress, e.reason, e.now, s1) && s' == PerformAll(s1, e.key, e.actions, e.now);
      ActionFlags(s1, e.key, e.actions, e.now);
    }
  }

  /** Only a timer finalizes, and the entry is counted by its mark. */
  lemma StepFlags(s: State, e: Event, s': State)
    requires Inv(s, {}) && EntriesOk(s) && Step(s, e, s')
    ensures FlagsFollow(s, e, s')
    ensures if e.Timer? then
              exists k :: k in s.pit && s'.finalized == s.finalized + [s.pit[k].serial]
                          && s'.nSatisfied == s.nSatisfied + if s.pit[k].satisfied then 1 else 0
            else s'.finalized == s.finalized && s'.nSatisfied == s.nSatisfied
  {
    hide Inv, EntriesOk, IncomingInterest, IncomingData, IncomingNack, PerformAll, AllAllowed, FlagsFollow;
    match e
    case InterestIn(_, _, _, _, _, _) => InterestFlags(s, e, s');
    case DataIn(_, _, _, _) => DataFlags(s, e, s');
    case NackIn(_, _, _, _, _, _) => NackFlags(s, e, s');
    case Own(_, _, _) => OwnFlags(s, e, s');
    case Timer(t) => TimerFlags(s, e, s');
  }

  lemma OwnFlags(s: State, e: Event, s': State)
    requires EntriesOk(s) && e.Own? && Step(s, e, s')
    ensures FlagsFollow(s, e, s') && s'.finalized == s.finalized && s'.nSatisfied == s.nSatisfied
  {
    hide EntriesOk, PerformAll, AllAllowed;
    ActionFlags(s, e.key, e.actions, e.now);
  }

  lemma TimerFlags(s: State, e: Event, s': State)
    requires Inv(s, {}) && e.Timer? && Step(s, e, s')
    ensures FlagsFollow(s, e, s')
    ensures exists k :: k in s.pit && s'.finalized == s.finalized + [s.pit[k].serial]
                        && s'.nSatisfied == s.nSatisfied + if s.pit[k].satisfied then 1 else 0
  {
    hide Inv;
    TimerIsLive(s, e.id);
    var k := s.timers[e.id].key;
    assert s' == Finalize(s, k) && k in s.pit;
  }

  lemma ServedNext(events: seq<Event>, states: seq<State>, n: nat, x: nat)
    requires n < |events| && |states| == |events| + 1
    ensures Served(events, states, n + 1, x) <==> Served(events, states, n, x) || Serves(states[n], events[n], x)
  {
    hide Serves;
    if Served(events, states, n, x) {
      var i :| 0 <= i < n && Serves(states[i], events[i], x);
      assert Serves(states[i], events[i], x);
    }
  }

  /** What is served is live, or inserted by the event. */
  lemma ServesLive(s: State, e: Event, x: nat)
    requires Inv(s, {}) && Serves(s, e, x)
    ensures x !in s.finalized && x <= s.created
    ensures x == s.created ==> e.InterestIn? && e.interest.key !in s.pit
  {
    hide TimersOk, ScopeOk, OutcomeOf, MatchesData;
    assert s.created !in s.finalized by { assert DeadSerials(s.finalized, s.created); }
    assert LiveSerials(s.pit, s.finalized, s.created);
  }

  /** Nothing with a serial number not yet given out was ever served. */
  lemma {:induction false} ServedIsOld(events: seq<Event>, states: seq<State>, n: nat, x: nat)
    requires Trace(events, states) && n <= |events| && Served(events, states, n, x)
    ensures x < states[n].created
  {
    hide Step, Inv, EntriesOk, Serves, FlagsFollow;
    var i :| 0 <= i < n && Serves(states[i], events[i], x);
    ServedIsCreated(events, states, i, x);
    CreatedGrows(events, states, i + 1, n);
  }

  lemma ServedIsCreated(events: seq<Event>, states: seq<State>, i: nat, x: nat)
    requires Trace(events, states) && i < |events| && Serves(states[i], events[i], x)
    ensures x < states[i + 1].created
  {
    hide Step, Inv, EntriesOk, Served;
    TraceInv(events, states, i);
    ServesLive(states[i], events[i], x);
    assert Step(states[i], events[i], states[i + 1]);
    StepFlags(states[i], events[i], states[i + 1]);
    if x == states[i].created {
      HitCreates(states[i], events[i], states[i + 1]);
    }
  }

  lemma HitCreates(s: State, e: Event, s': State)
    requires EntriesOk(s) && Step(s, e, s') && e.InterestIn? && e.interest.key !in s.pit && Serves(s, e, s.created)
    ensures s'.created == s.created + 1
  {
    hide IncomingInterest, AllAllowed, Distinct, IsLoop, SentBy, MatchesData, RecordOf;
    NewIsDistinct(s, e.interest.key);
    InterestDoes(s, e.ingress, e.interest, e.dead, e.cached, e.now, e.actions);
  }

  lemma {:induction false} CreatedGrows(events: seq<Event>, states: seq<State>, i: nat, n: nat)
    requires Trace(events, states) && i <= n <= |events|
    ensures states[i].created <= states[n].created
    decreases n
  {
    hide Step, Inv, EntriesOk;
    if i < n {
      CreatedGrows(events, states, i, n - 1);
      TraceInv(events, states, n - 1);
      assert Step(states[n - 1], events[n - 1], states[n]);
      StepFlags(states[n - 1], events[n - 1], states[n]);
    }
  }

  /** In every run an entry is marked satisfied exactly when it was served. */
  lemma {:induction false} MarkedIsServed(events: seq<Event>, states: seq<State>, n: nat, k: Key)
    requires Trace(events, states) && n <= |events| && k in states[n].pit
    ensures states[n].pit[k].satisfied <==> Served(events, states, n, states[n].pit[k].serial)
    decreases n
  {
    hide Step, Inv, EntriesOk, Serves, Served;
    if n > 0 {
      var s, s' := states[n - 1], states[n];
      TraceInv(events, states, n - 1);
      assert Step(s, events[n - 1], s');
      StepFlags(s, events[n - 1], s');
      ServedNext(events, states, n - 1, s'.pit[k].serial);
      if k in s.pit {
        MarkedIsServed(events, states, n - 1, k);
      } else if Served(events, states, n - 1, s.created) {
        ServedIsOld(events, states, n - 1, s.created);
      }
    }
  }

  /** The entries finalized so far that were served. */
  ghost function ServedOnes(events: seq<Event>, states: seq<State>, n: nat): set<nat>
    requires n <= |events| && |states| == |events| + 1
  {
    set x | x in states[n].finalized && Served(events, states, n, x)
  }

  /** nSatisfiedInterests counts exactly the finalized entries that met matching Data or a Content Store
      hit while they were live; the others are nUnsatisfiedInterests. */
  lemma {:induction false} SatisfiedMeansServed(events: seq<Event>, states: seq<State>, n: nat)
    requires Trace(events, states) && n <= |events|
    ensures states[n].nSatisfied == |ServedOnes(events, states, n)|
    ensures states[n].nUnsatisfied == |states[n].finalized| - |ServedOnes(events, states, n)|
    decreases n
  {
    hide Step, Inv, EntriesOk, Serves, Served, FlagsFollow, Reaches;
    TraceReaches(events, states, n);
    EntriesAreConserved(events[..n], states[n]);
    if n == 0 {
      assert states[0] == INIT;
      assert ServedOnes(events, states, 0) == {};
    } else {
      SatisfiedMeansServed(events, states, n - 1);
      CountNext(events, states, n - 1);
    }
  }

  lemma CountNext(events: seq<Event>, states: seq<State>, n: nat)
    requires Trace(events, states) && n < |events| && states[n].nSatisfied == |ServedOnes(events, states, n)|
    ensures states[n + 1].nSatisfied == |ServedOnes(events, states, n + 1)|
  {
    hide Step, Inv, EntriesOk, Serves, Served, FlagsFollow;
    var s, e, s' := states[n], events[n], states[n + 1];
    var before, after := ServedOnes(events, states, n), ServedOnes(events, states, n + 1);
    TraceInv(events, states, n);
    assert Step(s, e, s');
    StepFlags(s, e, s');
    forall x ensures Served(events, states, n + 1, x) <==> Served(events, states, n, x) || Serves(s, e, x) {
      ServedNext(events, states, n, x);
    }
    forall x | x in s.finalized ensures !Serves(s, e, x) {
      if Serves(s, e, x) {
        ServesLive(s, e, x);
      }
    }
    if e.Timer? {
      var k :| k in s.pit && s'.finalized == s.finalized + [s.pit[k].serial]
               && s'.nSatisfied == s.nSatisfied + if s.pit[k].satisfied then 1 else 0;
      MarkedIsServed(events, states, n, k);
      LiveIsNotFinal(s, k);
      TimerServesNone(s, e, s.pit[k].serial);
      assert after == before + if s.pit[k].satisfied then {s.pit[k].serial} else {};
    } else {
      assert after == before;
    }
  }

  lemma LiveIsNotFinal(s: State, k: Key)
    requires Inv(s, {}) && k in s.pit
    ensures s.pit[k].serial !in s.finalized
  {
    hide TimersOk, ScopeOk;
  }

  lemma TimerServesNone(s: State, e: Event, x: nat)
    requires e.Timer?
    ensures !Serves(s, e, x)
  {
  }
}
