/** A Nack in an out-record outlives the transmission it answered: the outgoing Interest pipeline does
    not clear it. What that means for the strategy. */
module StaleNacks {
  import opened Wrappers
  import opened Faces
  import opened PitRecords
  import opened BestRoute
  import opened Rotation

  // ---------------------------------------------------------------- all runs

  /** A Nack here is one whose Nonce was accepted. */
  ghost predicate AnyStep(c: Config, s: State, e: Event, s': State) {
    match e
    case Interest(a, act) => Transition(c, s, a, s', act)
    case Nack(f, reason) => s' == s.(outs := SetNack(s.outs, f, reason))
  }

  /** Runs from s0, with no condition on the clock, the records or the Nacks. */
  ghost predicate Leads(c: Config, s0: State, events: seq<Event>, s: State) {
    if events == [] then s == s0
    else
      var n := |events| - 1;
      exists v :: Leads(c, s0, events[..n], v) && AnyStep(c, v, events[n], s)
  }

  ghost predicate AnyRun(c: Config, events: seq<Event>, s: State) {
    Leads(c, State([], Unset), events, s)
  }

  // ---------------------------------------------------------------- what the Nack in a record means

  predicate IsSend(e: Event, f: Face) {
    e.Interest? && e.action == Sent(f)
  }

  predicate IsNack(e: Event, f: Face) {
    e.Nack? && e.face == f
  }

  predicate SentTo(events: seq<Event>, f: Face) {
    events != [] && (IsSend(events[|events| - 1], f) || SentTo(events[..|events| - 1], f))
  }

  /** A Nack came since the first transmission to f. */
  predicate EverNacked(events: seq<Event>, f: Face) {
    events != [] &&
    var n := |events| - 1;
    EverNacked(events[..n], f) || (IsNack(events[n], f) && SentTo(events[..n], f))
  }

  /** A Nack came since the last transmission to f, which is what the record is documented to tell. */
  predicate LastNacked(events: seq<Event>, f: Face) {
    events != [] &&
    var n := |events| - 1;
    !IsSend(events[n], f) && (LastNacked(events[..n], f) || (IsNack(events[n], f) && SentTo(events[..n], f)))
  }

  ghost predicate HasNack(outs: seq<FaceRecord>, f: Face) {
    exists i :: 0 <= i < |outs| && outs[i].face == f && outs[i].nack.Some?
  }

  /** The records as the history tells: one per face transmitted to, with a Nack if one ever came. */
  ghost predicate Tells(events: seq<Event>, outs: seq<FaceRecord>) {
    && Distinct(outs)
    && (forall f :: HasRecord(outs, f) <==> SentTo(events, f))
    && forall f :: HasNack(outs, f) <==> EverNacked(events, f)
  }

  /** Where the old records are after a transmission. */
  lemma RenewShifts(outs: seq<FaceRecord>, f: Face, a: Arrival) returns (shift: nat)
    ensures |Renew(outs, f, a)| == |outs| + shift
    ensures forall j :: 0 <= j < |outs| ==>
              Renew(outs, f, a)[j + shift].face == outs[j].face && Renew(outs, f, a)[j + shift].nack == outs[j].nack
    ensures shift == 0 ==> HasRecord(outs, f)
    ensures shift > 0 ==> shift == 1 && Renew(outs, f, a)[0].face == f && Renew(outs, f, a)[0].nack.None?
  {
    var i := IndexOf(outs, f);
    shift := if i < |outs| then 0 else 1;
  }

  lemma RenewTells(outs: seq<FaceRecord>, f: Face, a: Arrival, g: Face)
    requires Distinct(outs)
    ensures Distinct(Renew(outs, f, a))
    ensures HasRecord(Renew(outs, f, a), g) <==> g == f || HasRecord(outs, g)
    ensures HasNack(Renew(outs, f, a), g) <==> HasNack(outs, g)
  {
    hide Renew, Distinct;
    RenewDistinct(outs, f, a);
    var shift := RenewShifts(outs, f, a);
    var outs' := Renew(outs, f, a);
    assert forall j :: shift <= j < |outs'| ==> outs'[j].face == outs[j - shift].face && outs'[j].nack == outs[j - shift].nack;
  }

  lemma SetNackTells(outs: seq<FaceRecord>, f: Face, reason: Reason, g: Face)
    requires Distinct(outs)
    ensures Distinct(SetNack(outs, f, reason))
    ensures HasRecord(SetNack(outs, f, reason), g) <==> HasRecord(outs, g)
    ensures HasNack(SetNack(outs, f, reason), g) <==> HasNack(outs, g) || (g == f && HasRecord(outs, f))
  {
    var outs', i := SetNack(outs, f, reason), IndexOf(outs, f);
    assert forall j :: 0 <= j < |outs| ==> outs'[j].face == outs[j].face;
    assert forall j :: 0 <= j < |outs| && j != i ==> outs'[j] == outs[j];
    if i < |outs| {
      assert outs'[i].face == f && outs'[i].nack.Some?;
      assert outs[i].face == f;
    }
  }

  lemma StepTells(c: Config, events: seq<Event>, s: State, e: Event, s': State)
    requires Tells(events, s.outs) && AnyStep(c, s, e, s')
    ensures Tells(events + [e], s'.outs)
  {
    hide Decides, Chosen, NoneEligible, Renew, SetNack, HasRecord, HasNack, Distinct;
    var es := events + [e];
    assert es[..|events|] == events;
    match e
    case Nack(f, reason) =>
      SetNackTells(s.outs, f, reason, f);
      forall g ensures HasRecord(s'.outs, g) <==> SentTo(es, g) ensures HasNack(s'.outs, g) <==> EverNacked(es, g) {
        SetNackTells(s.outs, f, reason, g);
      }
    case Interest(a, act) =>
      var r :| Decides(s, a, r, s'.interval) && Follows(c, s, a, r, s', act);
      if act.Sent? {
        RenewTells(s.outs, act.face, a, act.face);
        forall g ensures HasRecord(s'.outs, g) <==> SentTo(es, g) ensures HasNack(s'.outs, g) <==> EverNacked(es, g) {
          RenewTells(s.outs, act.face, a, g);
        }
      }
  }

  /** In every run a record holds a Nack exactly when one came since the first transmission to its
      face, whatever was transmitted after it. */
  lemma {:induction false} NacksStay(c: Config, events: seq<Event>, s: State)
    requires AnyRun(c, events, s)
    ensures Tells(events, s.outs)
    decreases |events|
  {
    hide AnyStep, Tells;
    if events == [] {
      NoRecords();
    } else {
      var n := |events| - 1;
      var v :| Leads(c, State([], Unset), events[..n], v) && AnyStep(c, v, events[n], s);
      NacksStay(c, events[..n], v);
      StepTells(c, events[..n], v, events[n], s);
      assert events == events[..n] + [events[n]];
    }
  }

  lemma NoRecords()
    ensures Tells([], [])
  {
  }

  lemma {:induction false} LastIsEver(events: seq<Event>, f: Face)
    ensures LastNacked(events, f) ==> EverNacked(events, f)
  {
    if events != [] {
      LastIsEver(events[..|events| - 1], f);
    }
  }

  /** The record of f tells what it is documented to tell. */
  ghost predicate IsDocumented(events: seq<Event>, s: State, f: Face) {
    HasNack(s.outs, f) <==> LastNacked(events, f)
  }

  /** A transmission leaves the record of its face as documented exactly when there was no Nack in it
      before; every other step keeps what is documented. */
  lemma DocumentedIff(c: Config, events: seq<Event>, s: State, e: Event, s': State, f: Face)
    requires AnyRun(c, events, s) && AnyStep(c, s, e, s')
    ensures IsSend(e, f) ==> (IsDocumented(events + [e], s', f) <==> !HasNack(s.outs, f))
    ensures !IsSend(e, f) && IsDocumented(events, s, f) ==> IsDocumented(events + [e], s', f)
  {
    hide AnyStep, HasNack, HasRecord, Distinct;
    NacksStay(c, events, s);
    StepTells(c, events, s, e, s');
    assert (events + [e])[..|events|] == events;
    LastIsEver(events, f);
  }

  // ---------------------------------------------------------------- a run in which it is not

  const DOWN := Face(1, true, PointToPoint)
  const UP := Face(2, true, PointToPoint)
  const ONE_NEXTHOP := Config(DOWN, [], [UP])

  function At(t: nat): Arrival {
    Arrival(t, t, t, t, t, 1000)
  }

  /** The out-record after a transmission at t to the one nexthop. */
  function Record(t: nat, nack: Option<Reason>): FaceRecord {
    FaceRecord(UP, t, t, t + 1000, nack)
  }

  lemma LeadsNext(c: Config, s0: State, events: seq<Event>, v: State, e: Event, s: State)
    requires Leads(c, s0, events, v) && AnyStep(c, v, e, s)
    ensures Leads(c, s0, events + [e], s)
  {
    hide AnyStep;
    assert (events + [e])[..|events|] == events;
  }

  /** An Interest to the one nexthop that finds no pending out-record. */
  lemma SentAnew(outs: seq<FaceRecord>, t: nat)
    requires !HasPending(outs, t)
    ensures AnyStep(ONE_NEXTHOP, State(outs, Unset), Interest(At(t), Sent(UP)), State(Renew(outs, UP, At(t)), Unset))
  {
    var c, s := ONE_NEXTHOP, State(outs, Unset);
    assert IsUpstream(c, UP);
    assert IsFirst(c, 0) && c.nexthops[0] == UP;
    assert Chosen(c, s, At(t), NEW, 0);
    assert Decides(s, At(t), NEW, Unset) && Follows(c, s, At(t), NEW, State(Renew(outs, UP, At(t)), Unset), Sent(UP));
  }

  /** Transmission, Nack, and transmission again: the record still holds the Nack of the first one, and
      from here on no Interest is suppressed. */
  lemma StaleNack() returns (events: seq<Event>, s: State)
    ensures AnyRun(ONE_NEXTHOP, events, s) && |events| == 3 && IsSend(events[2], UP)
    ensures HasNack(s.outs, UP) && !LastNacked(events, UP)
    ensures Unspaced(ONE_NEXTHOP, s.outs, UP)
  {
    hide AnyStep, Leads;
    var s0, e0, e1, e2 := State([], Unset), Interest(At(0), Sent(UP)), Nack(UP, NO_ROUTE), Interest(At(1), Sent(UP));
    var s1, s2 := State([Record(0, None)], Unset), State([Record(0, Some(NO_ROUTE))], Unset);
    s := State([Record(1, Some(NO_ROUTE))], Unset);
    FirstSteps(s0, s1, s2, s);
    LeadsNext(ONE_NEXTHOP, s0, [], s0, e0, s1);
    LeadsNext(ONE_NEXTHOP, s0, [] + [e0], s1, e1, s2);
    LeadsNext(ONE_NEXTHOP, s0, [] + [e0] + [e1], s2, e2, s);
    events := [] + [e0] + [e1] + [e2];
    assert events == [e0, e1, e2];
    assert s.outs[0].face == UP && s.outs[0].nack.Some?;
    assert IsFirst(ONE_NEXTHOP, 0) && ONE_NEXTHOP.nexthops[0] == UP;
  }

  lemma FirstSteps(s0: State, s1: State, s2: State, s3: State)
    requires s0 == State([], Unset) && s1 == State([Record(0, None)], Unset)
    requires s2 == State([Record(0, Some(NO_ROUTE))], Unset) && s3 == State([Record(1, Some(NO_ROUTE))], Unset)
    ensures Leads(ONE_NEXTHOP, s0, [], s0)
    ensures AnyStep(ONE_NEXTHOP, s0, Interest(At(0), Sent(UP)), s1)
    ensures AnyStep(ONE_NEXTHOP, s1, Nack(UP, NO_ROUTE), s2)
    ensures AnyStep(ONE_NEXTHOP, s2, Interest(At(1), Sent(UP)), s3)
  {
    SentAnew(s0.outs, 0);
    SentAnew(s2.outs, 1);
    assert IndexOf(s1.outs, UP) == 0 && IndexOf(s2.outs, UP) == 0;
    assert Renew(s2.outs, UP, At(1)) == s3.outs && SetNack(s1.outs, UP, NO_ROUTE) == s2.outs;
  }

  // ---------------------------------------------------------------- what it does to suppression

  /** An out-record of another face is unexpired and without Nack. */
  ghost predicate OtherPending(outs: seq<FaceRecord>, f: Face, now: Time) {
    exists i :: 0 <= i < |outs| && outs[i].face != f && outs[i].expiry >= now && outs[i].nack.None?
  }

  /** After a transmission to f an out-record is pending exactly when one of another face is, or the
      new one is unexpired and there was no Nack in the record of f before. */
  lemma PendingAfterRenew(outs: seq<FaceRecord>, f: Face, a: Arrival, now: Time)
    requires Distinct(outs)
    ensures HasPending(Renew(outs, f, a), now) <==>
              OtherPending(outs, f, now) || (a.send + a.lifetime >= now && !HasNack(outs, f))
  {
    var outs', i := Renew(outs, f, a), IndexOf(outs, f);
    if i < |outs| {
      assert forall j :: 0 <= j < |outs| && j != i ==> outs'[j] == outs[j] && outs[j].face != f;
      assert outs'[i].expiry == a.send + a.lifetime && outs'[i].nack == outs[i].nack;
      assert HasNack(outs, f) <==> outs[i].nack.Some?;
    } else {
      assert forall j :: 0 <= j < |outs| ==> outs'[j + 1] == outs[j] && outs[j].face != f;
      assert forall j :: 1 <= j < |outs'| ==> outs'[j] == outs[j - 1];
      assert outs'[0].expiry == a.send + a.lifetime && outs'[0].nack.None?;
    }
  }

  /** So the next Interest is subject to suppression exactly then, and otherwise counts as new. */
  lemma SuppressionAfterSend(c: Config, s: State, a: Arrival, s': State, f: Face, b: Arrival, r: Suppression, interval: Interval)
    requires Distinct(s.outs) && Transition(c, s, a, s', Sent(f)) && Decides(s', b, r, interval)
    ensures r != NEW <==> OtherPending(s.outs, f, b.pending) || (a.send + a.lifetime >= b.pending && !HasNack(s.outs, f))
  {
    hide OtherPending, HasNack, Renew, HasPending, Chosen;
    PendingAfterRenew(s.outs, f, a, b.pending);
  }

  /** All out-records hold Nacks, and the first eligible nexthop has one of them. */
  ghost predicate Unspaced(c: Config, outs: seq<FaceRecord>, f: Face) {
    && (exists i: nat :: i < |c.nexthops| && IsFirst(c, i) && c.nexthops[i] == f)
    && HasRecord(outs, f) && Distinct(outs)
    && forall i :: 0 <= i < |outs| ==> outs[i].nack.Some?
  }

  lemma OneFirst(c: Config, i: nat, j: nat)
    requires IsFirst(c, i) && IsFirst(c, j)
    ensures i == j
  {
  }

  /** From then on, whatever arrives and however soon, every Interest is transmitted to that nexthop:
      none is suppressed and no other nexthop gets a turn. */
  lemma NeverSuppressed(c: Config, s: State, e: Event, s': State, f: Face)
    requires Unspaced(c, s.outs, f) && AnyStep(c, s, e, s')
    ensures Unspaced(c, s'.outs, f)
    ensures e.Interest? ==> e.action == Sent(f)
  {
    var i: nat :| i < |c.nexthops| && IsFirst(c, i) && c.nexthops[i] == f;
    match e
    case Nack(g, reason) =>
      SetNackTells(s.outs, g, reason, f);
    case Interest(a, act) =>
      var r :| Decides(s, a, r, s'.interval) && Follows(c, s, a, r, s', act);
      assert r == NEW;
      assert c.nexthops[i] in c.nexthops;
      var j: nat :| j < |c.nexthops| && Chosen(c, s, a, r, j) && c.nexthops[j] == act.face;
      OneFirst(c, i, j);
      RenewTells(s.outs, f, a, f);
      AllStayNacked(s.outs, f, a);
  }

  lemma AllStayNacked(outs: seq<FaceRecord>, f: Face, a: Arrival)
    requires HasRecord(outs, f) && forall i :: 0 <= i < |outs| ==> outs[i].nack.Some?
    ensures forall i :: 0 <= i < |Renew(outs, f, a)| ==> Renew(outs, f, a)[i].nack.Some?
  {
  }

  lemma {:induction false} NeverSuppressedAgain(c: Config, s0: State, events: seq<Event>, s: State, f: Face, k: nat)
    requires Unspaced(c, s0.outs, f) && Leads(c, s0, events, s)
    ensures Unspaced(c, s.outs, f)
    ensures k < |events| && events[k].Interest? ==> events[k].action == Sent(f)
    decreases |events|
  {
    hide AnyStep, Unspaced;
    if events != [] {
      var n := |events| - 1;
      var v :| Leads(c, s0, events[..n], v) && AnyStep(c, v, events[n], s);
      NeverSuppressedAgain(c, s0, events[..n], v, f, k);
      NeverSuppressed(c, v, events[n], s, f);
    }
  }
}
