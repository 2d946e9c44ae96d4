/** Whole runs of the best-route strategy on one PIT entry with one downstream. */
module Rotation {
  import opened Wrappers
  import opened Faces
  import opened PitRecords
  import opened BestRoute

  datatype Send = Send(face: Face, at: Time)

  datatype Event = Interest(arrival: Arrival, action: Action) | Nack(face: Face, reason: Reason)

  // ---------------------------------------------------------------- runs

  /** The clock moves on between a transmission and the next arrival, an out-record is pending and
      none has expired. */
  ghost predicate Steady(s: State, sends: seq<Send>, a: Arrival) {
    && a.pending <= a.decide <= a.search <= a.send
    && (sends != [] ==> sends[|sends| - 1].at < a.pending)
    && (s.outs != [] ==> HasPending(s.outs, a.pending))
    && forall i :: 0 <= i < |s.outs| ==> s.outs[i].expiry > a.search
  }

  function SendOf(e: Event): seq<Send> {
    if e.Interest? && e.action.Sent? then [Send(e.action.face, e.arrival.send)] else []
  }

  ghost predicate Step(c: Config, s: State, sends: seq<Send>, e: Event, s': State) {
    match e
    case Interest(a, act) => Steady(s, sends, a) && Transition(c, s, a, s', act)
    case Nack(f, reason) => s' == s.(outs := SetNack(s.outs, f, reason))
  }

  /** The transmissions of a run, in order. */
  function Sends(events: seq<Event>): seq<Send> {
    if events == [] then [] else Sends(events[..|events| - 1]) + SendOf(events[|events| - 1])
  }

  ghost predicate Reaches(c: Config, events: seq<Event>, s: State) {
    if events == [] then s == State([], Unset)
    else
      var n := |events| - 1;
      exists v :: Reaches(c, events[..n], v) && Step(c, v, Sends(events[..n]), events[n], s)
  }

  // ---------------------------------------------------------------- eligible nexthops

  function Eligible(c: Config, hops: seq<Face>): seq<Face> {
    if hops == [] then []
    else
      var rest := Eligible(c, hops[..|hops| - 1]);
      if IsUpstream(c, hops[|hops| - 1]) then rest + [hops[|hops| - 1]] else rest
  }

  lemma {:induction false} EligibleMembers(c: Config, hops: seq<Face>, f: Face)
    ensures f in Eligible(c, hops) <==> f in hops && IsUpstream(c, f)
  {
    if hops != [] {
      EligibleMembers(c, hops[..|hops| - 1], f);
      assert hops == hops[..|hops| - 1] + [hops[|hops| - 1]];
    }
  }

  lemma {:induction false} EligibleDistinct(c: Config, hops: seq<Face>)
    requires NoRepeats(hops)
    ensures NoRepeats(Eligible(c, hops))
  {
    if hops != [] {
      EligibleDistinct(c, hops[..|hops| - 1]);
      EligibleMembers(c, hops[..|hops| - 1], hops[|hops| - 1]);
    }
  }

  /** The eligible nexthops before position i of the list come first, in order. */
  lemma {:induction false} EligiblePrefix(c: Config, hops: seq<Face>, i: nat)
    requires i < |hops| && IsUpstream(c, hops[i])
    ensures var k := |Eligible(c, hops[..i])|;
            && k < |Eligible(c, hops)| && Eligible(c, hops)[k] == hops[i]
            && Eligible(c, hops)[..k] == Eligible(c, hops[..i])
  {
    var n := |hops| - 1;
    if i == n {
    } else {
      EligiblePrefix(c, hops[..n], i);
      assert hops[..n][..i] == hops[..i];
    }
  }

  // ---------------------------------------------------------------- invariant

  /** The k-th suppression interval. */
  function Window(k: nat): Time {
    Min(RETX_SUPPRESSION_MAX, RETX_SUPPRESSION_INITIAL * Power(k))
  }

  function Power(k: nat): (p: nat)
    ensures p >= 1
  {
    if k == 0 then 1 else MULTIPLIER * Power(k - 1)
  }

  function Sum(k: nat): Time {
    if k == 0 then 0 else Sum(k - 1) + Window(k - 1)
  }

  /** Whose turn the i-th transmission is, among k. */
  function Turn(i: nat, k: nat): (t: nat)
    requires k > 0
    ensures t < k
  {
    i % k
  }

  ghost predicate Rotates(e: seq<Face>, sends: seq<Send>) {
    && (sends != [] ==> e != [])
    && forall i :: 0 <= i < |sends| ==> sends[i].face == e[Turn(i, |e|)]
  }

  ghost predicate Increasing(sends: seq<Send>) {
    forall i, j :: 0 <= i < j < |sends| ==> sends[i].at < sends[j].at
  }

  ghost predicate Spaced(sends: seq<Send>) {
    forall i :: 0 < i < |sends| ==> sends[i].at - sends[i - 1].at >= Window(i - 1)
  }

  /** The out-records are the last transmission to each face. */
  ghost predicate Latest(e: seq<Face>, outs: seq<FaceRecord>, sends: seq<Send>) {
    && (forall j :: 0 <= j < |outs| ==> InWindow(e, sends, outs[j].face, outs[j].lastRenewed))
    && forall i :: 0 <= i < |sends| && |sends| - |e| <= i ==> HasRecord(outs, sends[i].face)
  }

  ghost predicate InWindow(e: seq<Face>, sends: seq<Send>, f: Face, t: Time) {
    exists i :: 0 <= i < |sends| && |sends| - |e| <= i && sends[i] == Send(f, t)
  }

  ghost predicate Inv(c: Config, s: State, sends: seq<Send>) {
    var e := Eligible(c, c.nexthops);
    && Rotates(e, sends) && Increasing(sends) && Spaced(sends) && Latest(e, s.outs, sends) && Distinct(s.outs)
    && Length(s.interval) == Window(if sends == [] then 0 else |sends| - 1)
  }

  // ---------------------------------------------------------------- the next upstream

  lemma Cycle(k: nat, i: nat, j: nat)
    requires k > 0 && i < j < i + k
    ensures Turn(i, k) != Turn(j, k)
  {
    var d := j / k - i / k;
    assert j - i == k * d + (j % k - i % k);
    if d >= 1 {
      assert k * d >= k;
    } else {
      assert k * d <= 0;
    }
  }

  lemma Shift(k: nat, m: nat)
    requires 0 < k <= m
    ensures Turn(m - k, k) == Turn(m, k)
  {
    var d := m / k - (m - k) / k - 1;
    assert k * d == (m - k) % k - m % k;
    assert d >= 1 ==> k * d >= k;
    assert d <= -1 ==> k * d + k <= 0;
  }

  lemma Early(k: nat, i: nat)
    requires i < k
    ensures Turn(i, k) == i
  {
  }

  /** While some eligible nexthop has had no transmission, the first such is next. */
  lemma NextIsUnused(c: Config, s: State, sends: seq<Send>, now: Time, i: nat)
    requires Inv(c, s, sends) && NoRepeats(c.nexthops) && IsFirstUnused(c, s.outs, now, i)
    requires forall j :: 0 <= j < |s.outs| ==> s.outs[j].expiry > now
    ensures var e := Eligible(c, c.nexthops);
            |sends| < |e| && c.nexthops[i] == e[|sends|]
  {
    var e := Eligible(c, c.nexthops);
    var f := c.nexthops[i];
    var k := |Eligible(c, c.nexthops[..i])|;
    EligiblePrefix(c, c.nexthops, i);
    EligibleDistinct(c, c.nexthops);
    UnusedHasNoRecord(s.outs, f, now);
    if k < |sends| {
      WindowCovers(e, s.outs, sends, k);
    } else if |sends| < k {
      var g := e[|sends|];
      assert g == e[..k][|sends|];
      EligibleMembers(c, c.nexthops[..i], g);
      NotSentYet(e, s.outs, sends, |sends|);
      NoRecordIsUnused(s.outs, g, now);
    }
  }

  lemma UnusedHasNoRecord(outs: seq<FaceRecord>, f: Face, now: Time)
    requires IsUnused(outs, f, now) && forall j :: 0 <= j < |outs| ==> outs[j].expiry > now
    ensures !HasRecord(outs, f)
  {
  }

  lemma NoRecordIsUnused(outs: seq<FaceRecord>, f: Face, now: Time)
    requires !HasRecord(outs, f)
    ensures IsUnused(outs, f, now)
  {
  }

  /** Every eligible nexthop that a transmission has reached has an out-record. */
  lemma WindowCovers(e: seq<Face>, outs: seq<FaceRecord>, sends: seq<Send>, k: nat)
    requires Rotates(e, sends) && Latest(e, outs, sends) && k < |e| && k < |sends|
    ensures HasRecord(outs, e[k])
  {
    var m := |sends|;
    var i := LastAt(|e|, m, k);
    assert sends[i].face == e[k];
  }

  lemma LastAt(n: nat, m: nat, k: nat) returns (i: nat)
    requires k < n && k < m
    ensures i < m && m - n <= i && Turn(i, n) == k
  {
    hide Turn;
    i := k;
    Early(n, k);
    while i + n < m
      invariant i < m && Turn(i, n) == k
      decreases m - i
    {
      Shift(n, i + n);
      i := i + n;
    }
  }

  /** A nexthop whose turn has not come has no out-record. */
  lemma NotSentYet(e: seq<Face>, outs: seq<FaceRecord>, sends: seq<Send>, k: nat)
    requires Rotates(e, sends) && Latest(e, outs, sends) && NoRepeats(e) && |sends| <= k < |e|
    ensures !HasRecord(outs, e[k])
  {
    hide Turn;
    forall j | 0 <= j < |outs| ensures outs[j].face != e[k] {
      assert InWindow(e, sends, outs[j].face, outs[j].lastRenewed);
      var i :| 0 <= i < |sends| && |sends| - |e| <= i && sends[i] == Send(outs[j].face, outs[j].lastRenewed);
      Early(|e|, i);
      assert e[i] != e[k];
    }
  }

  /** Once all have, the one transmitted to longest ago is next. */
  lemma NextIsEarliest(c: Config, s: State, sends: seq<Send>, now: Time, i: nat)
    requires Inv(c, s, sends) && NoRepeats(c.nexthops) && IsEarliest(c, s.outs, i)
    requires NoneUnused(c, s.outs, now)
    ensures var e := Eligible(c, c.nexthops);
            0 < |e| <= |sends| && c.nexthops[i] == e[Turn(|sends|, |e|)]
  {
    hide Turn;
    var e, m := Eligible(c, c.nexthops), |sends|;
    var f := c.nexthops[i];
    EligibleMembers(c, c.nexthops, f);
    EligibleDistinct(c, c.nexthops);
    AllSent(c, s, sends, now);
    var k := |e|;
    Shift(k, m);
    var g := e[Turn(m, k)];
    assert sends[m - k].face == g;
    var u := RecordTime(e, s.outs, sends, f);
    var p := SendTime(e, s.outs, sends, m - k);
    EligibleMembers(c, c.nexthops, g);
    var j :| 0 <= j < |c.nexthops| && c.nexthops[j] == g;
    assert sends[u].at <= sends[m - k].at;
    assert u == m - k;
  }

  /** The transmission recorded for f. */
  lemma RecordTime(e: seq<Face>, outs: seq<FaceRecord>, sends: seq<Send>, f: Face) returns (i: nat)
    requires Latest(e, outs, sends) && HasRecord(outs, f)
    ensures i < |sends| && |sends| - |e| <= i && sends[i].face == f && RenewedAt(outs, f, sends[i].at)
  {
    var j :| 0 <= j < |outs| && outs[j].face == f;
    assert InWindow(e, sends, outs[j].face, outs[j].lastRenewed);
    i :| 0 <= i < |sends| && |sends| - |e| <= i && sends[i] == Send(outs[j].face, outs[j].lastRenewed);
  }

  /** A transmission in the window is the one recorded for its face. */
  lemma SendTime(e: seq<Face>, outs: seq<FaceRecord>, sends: seq<Send>, i: nat) returns (t: nat)
    requires Rotates(e, sends) && Latest(e, outs, sends) && NoRepeats(e)
    requires i < |sends| && |sends| - |e| <= i
    ensures t == i && RenewedAt(outs, sends[i].face, sends[i].at)
  {
    hide Turn;
    t := RecordTime(e, outs, sends, sends[i].face);
    if t < i {
      Cycle(|e|, t, i);
    } else if i < t {
      Cycle(|e|, i, t);
    }
  }

  /** When no eligible nexthop is unused, each has had a transmission. */
  lemma AllSent(c: Config, s: State, sends: seq<Send>, now: Time)
    requires Inv(c, s, sends) && NoRepeats(c.nexthops) && NoneUnused(c, s.outs, now)
    ensures |Eligible(c, c.nexthops)| <= |sends|
  {
    var e := Eligible(c, c.nexthops);
    EligibleDistinct(c, c.nexthops);
    if |sends| < |e| {
      NotSentYet(e, s.outs, sends, |sends|);
      EligibleMembers(c, c.nexthops, e[|sends|]);
      NoRecordIsUnused(s.outs, e[|sends|], now);
    }
  }

  /** The first transmission goes to the first eligible nexthop. */
  lemma NextIsFirst(c: Config, i: nat)
    requires IsFirst(c, i)
    ensures Eligible(c, c.nexthops) != [] && c.nexthops[i] == Eligible(c, c.nexthops)[0]
  {
    EligiblePrefix(c, c.nexthops, i);
    var before := Eligible(c, c.nexthops[..i]);
    if before != [] {
      EligibleMembers(c, c.nexthops[..i], before[0]);
    }
  }

  // ---------------------------------------------------------------- every step

  lemma NackKeepsLatest(e: seq<Face>, outs: seq<FaceRecord>, sends: seq<Send>, f: Face, reason: Reason)
    requires Latest(e, outs, sends) && Distinct(outs)
    ensures Latest(e, SetNack(outs, f, reason), sends) && Distinct(SetNack(outs, f, reason))
  {
    hide InWindow;
    var outs' := SetNack(outs, f, reason);
    assert forall j :: 0 <= j < |outs| ==> outs'[j].face == outs[j].face && outs'[j].lastRenewed == outs[j].lastRenewed;
    forall i | 0 <= i < |sends| && |sends| - |e| <= i ensures HasRecord(outs', sends[i].face) {
      assert HasRecord(outs, sends[i].face);
      var j :| 0 <= j < |outs| && outs[j].face == sends[i].face;
      assert outs'[j].face == sends[i].face;
    }
  }

  lemma RenewDistinct(outs: seq<FaceRecord>, f: Face, a: Arrival)
    requires Distinct(outs)
    ensures Distinct(Renew(outs, f, a))
  {
  }

  lemma RenewRecords(outs: seq<FaceRecord>, f: Face, a: Arrival, g: Face)
    requires HasRecord(outs, g) || f == g
    ensures HasRecord(Renew(outs, f, a), g)
  {
    var outs' := Renew(outs, f, a);
    if HasRecord(outs, g) {
      var j :| 0 <= j < |outs| && outs[j].face == g;
      assert outs'[if IndexOf(outs, f) < |outs| then j else j + 1].face == g;
    } else {
      assert outs'[0].face == g;
    }
  }

  /** A record after a transmission to f is the new one, or an old one of another face. */
  lemma RenewOrigin(outs: seq<FaceRecord>, f: Face, a: Arrival, j: nat)
    requires Distinct(outs) && j < |Renew(outs, f, a)|
    ensures var r := Renew(outs, f, a)[j];
            (r.face == f && r.lastRenewed == a.send)
            || (r.face != f && exists i :: 0 <= i < |outs| && outs[i].face == r.face && outs[i].lastRenewed == r.lastRenewed)
  {
    var i := IndexOf(outs, f);
    if i == |outs| && j > 0 {
      assert Renew(outs, f, a)[j] == outs[j - 1];
    }
  }

  /** The transmission that leaves the window was to the face that is transmitted to again. */
  lemma WindowMoves(e: seq<Face>, sends: seq<Send>, g: Face, t: Time, s: Send)
    requires Rotates(e, sends) && InWindow(e, sends, g, t)
    requires e != [] && s.face == e[Turn(|sends|, |e|)] && g != s.face
    ensures InWindow(e, sends + [s], g, t)
  {
    hide Turn;
    var m, k := |sends|, |e|;
    var i :| 0 <= i < m && m - k <= i && sends[i] == Send(g, t);
    if k <= m {
      Shift(k, m);
      assert i != m - k;
    }
    assert (sends + [s])[i] == Send(g, t);
  }

  lemma SendKeepsLatest(e: seq<Face>, outs: seq<FaceRecord>, sends: seq<Send>, f: Face, a: Arrival)
    requires Rotates(e, sends) && Latest(e, outs, sends) && Distinct(outs)
    requires e != [] && f == e[Turn(|sends|, |e|)]
    ensures Latest(e, Renew(outs, f, a), sends + [Send(f, a.send)])
  {
    hide Turn, Renew, InWindow;
    var outs', sends' := Renew(outs, f, a), sends + [Send(f, a.send)];
    forall j | 0 <= j < |outs'| ensures InWindow(e, sends', outs'[j].face, outs'[j].lastRenewed) {
      RenewOrigin(outs, f, a, j);
      if outs'[j].face == f {
        LastIsInWindow(e, sends, Send(f, a.send));
      } else {
        WindowMoves(e, sends, outs'[j].face, outs'[j].lastRenewed, Send(f, a.send));
      }
    }
    forall i | 0 <= i < |sends'| && |sends'| - |e| <= i ensures HasRecord(outs', sends'[i].face) {
      if i < |sends| {
        assert HasRecord(outs, sends[i].face);
      }
      RenewRecords(outs, f, a, sends'[i].face);
    }
  }

  lemma LastIsInWindow(e: seq<Face>, sends: seq<Send>, s: Send)
    requires e != []
    ensures InWindow(e, sends + [s], s.face, s.at)
  {
    assert (sends + [s])[|sends|] == s;
  }

  lemma WindowDoubles(k: nat)
    ensures Window(k + 1) == Min(RETX_SUPPRESSION_MAX, Window(k) * MULTIPLIER)
  {
  }

  /** Out-records exist from the first transmission on. */
  lemma RecordsIffSent(c: Config, s: State, sends: seq<Send>)
    requires Inv(c, s, sends)
    ensures s.outs == [] <==> sends == []
  {
    var e := Eligible(c, c.nexthops);
    if sends != [] {
      assert HasRecord(s.outs, sends[|sends| - 1].face);
    }
    assert s.outs != [] ==> InWindow(e, sends, s.outs[0].face, s.outs[0].lastRenewed);
  }

  /** The last transmission is the newest out-record. */
  lemma LastOutgoing(c: Config, s: State, sends: seq<Send>, t: Time)
    requires Inv(c, s, sends) && NoRepeats(c.nexthops) && sends != [] && IsLastOutgoing(s.outs, t)
    ensures t == sends[|sends| - 1].at
  {
    hide Turn, Spaced, Eligible, Rotates, NoRepeats;
    var e, n := Eligible(c, c.nexthops), |sends| - 1;
    EligibleDistinct(c, c.nexthops);
    var p := SendTime(e, s.outs, sends, n);
    var j :| 0 <= j < |s.outs| && s.outs[j].lastRenewed == t;
    assert InWindow(e, sends, s.outs[j].face, s.outs[j].lastRenewed);
    var i :| 0 <= i < |sends| && sends[i].at == t;
    var l :| 0 <= l < |s.outs| && s.outs[l].lastRenewed == sends[n].at;
  }

  /** An Interest that is not suppressed goes to the face whose turn it is. */
  lemma TurnIsNext(c: Config, s: State, sends: seq<Send>, a: Arrival, r: Suppression, i: nat)
    requires Inv(c, s, sends) && NoRepeats(c.nexthops) && Steady(s, sends, a)
    requires Chosen(c, s, a, r, i) && (r == NEW ==> !HasPending(s.outs, a.pending))
    ensures var e := Eligible(c, c.nexthops);
            e != [] && c.nexthops[i] == e[Turn(|sends|, |e|)]
  {
    hide Turn, Inv, IsEarliest, IsFirstUnused, IsFirst, NoneUnused, HasPending, Eligible;
    var e := Eligible(c, c.nexthops);
    RecordsIffSent(c, s, sends);
    if r == NEW {
      NextIsFirst(c, i);
      Early(|e|, 0);
    } else if NoneUnused(c, s.outs, a.search) {
      NextIsEarliest(c, s, sends, a.search, i);
    } else {
      NextIsUnused(c, s, sends, a.search, i);
      Early(|e|, |sends|);
    }
  }

  /** A transmission in turn, no sooner than the interval allows, keeps the invariant. */
  lemma SendKeepsInv(c: Config, s: State, sends: seq<Send>, a: Arrival, f: Face, interval: Interval)
    requires Inv(c, s, sends) && Steady(s, sends, a)
    requires var e := Eligible(c, c.nexthops); e != [] && f == e[Turn(|sends|, |e|)]
    requires Length(interval) == Window(|sends|)
    requires sends != [] ==> a.send - sends[|sends| - 1].at >= Window(|sends| - 1)
    ensures Inv(c, State(Renew(s.outs, f, a), interval), sends + [Send(f, a.send)])
  {
    hide Turn, Renew, Window, HasPending, Latest;
    var e := Eligible(c, c.nexthops);
    SendKeepsLatest(e, s.outs, sends, f, a);
    RenewDistinct(s.outs, f, a);
  }

  lemma IntervalAfterSend(c: Config, s: State, sends: seq<Send>, a: Arrival, r: Suppression, interval: Interval)
    requires Inv(c, s, sends) && NoRepeats(c.nexthops) && Steady(s, sends, a)
    requires Decides(s, a, r, interval) && r != SUPPRESS
    ensures Length(interval) == Window(|sends|)
    ensures r == NEW <==> sends == []
    ensures sends != [] ==> a.send - sends[|sends| - 1].at >= Window(|sends| - 1)
  {
    hide Turn, Window, Latest, Rotates, Eligible, Increasing, Spaced, IsLastOutgoing;
    RecordsIffSent(c, s, sends);
    if r == FORWARD {
      WindowDoubles(|sends| - 1);
      var t :| IsLastOutgoing(s.outs, t) && a.decide - t >= Length(s.interval);
      LastOutgoing(c, s, sends, t);
    }
  }

  lemma SomeEligible(c: Config, s: State, sends: seq<Send>)
    requires Inv(c, s, sends) && sends != []
    ensures !NoneEligible(c)
  {
    var e := Eligible(c, c.nexthops);
    EligibleMembers(c, c.nexthops, e[0]);
  }

  lemma StepKeepsInv(c: Config, s: State, sends: seq<Send>, e: Event, s': State)
    requires Inv(c, s, sends) && NoRepeats(c.nexthops) && Step(c, s, sends, e, s')
    ensures Inv(c, s', sends + SendOf(e))
  {
    hide Turn, Window, Latest, Rotates, Eligible, Increasing, Spaced, Chosen, Steady, HasPending, IsLastOutgoing;
    match e
    case Nack(f, reason) =>
      NackKeepsLatest(Eligible(c, c.nexthops), s.outs, sends, f, reason);
      assert sends + SendOf(e) == sends;
    case Interest(a, act) =>
      var r :| Decides(s, a, r, s'.interval) && Follows(c, s, a, r, s', act);
      if act.Sent? {
        var i: nat :| i < |c.nexthops| && Chosen(c, s, a, r, i) && c.nexthops[i] == act.face;
        TurnIsNext(c, s, sends, a, r, i);
        IntervalAfterSend(c, s, sends, a, r, s'.interval);
        SendKeepsInv(c, s, sends, a, act.face, s'.interval);
      } else {
        assert sends + SendOf(e) == sends;
        if act.NoNextHop? {
          IntervalAfterSend(c, s, sends, a, r, s'.interval);
          SomeEligible(c, s, sends);
        }
      }
  }

  lemma {:induction false} RunKeepsInv(c: Config, events: seq<Event>, s: State)
    requires NoRepeats(c.nexthops) && Reaches(c, events, s)
    ensures Inv(c, s, Sends(events))
    decreases |events|
  {
    hide Step, Inv;
    var n := |events| - 1;
    if events == [] {
      InitInv(c);
    } else {
      var v :| Reaches(c, events[..n], v) && Step(c, v, Sends(events[..n]), events[n], s);
      RunKeepsInv(c, events[..n], v);
      StepKeepsInv(c, v, Sends(events[..n]), events[n], s);
    }
  }

  lemma InitInv(c: Config)
    ensures Inv(c, State([], Unset), [])
  {
  }

  // ---------------------------------------------------------------- theorems

  /** The upstreams chosen are the eligible nexthops in list order, over and over. */
  lemma UpstreamsRotate(c: Config, events: seq<Event>, s: State, i: nat)
    requires NoRepeats(c.nexthops) && Reaches(c, events, s) && i < |Sends(events)|
    ensures var e := Eligible(c, c.nexthops);
            e != [] && Sends(events)[i].face == e[i % |e|]
  {
    RunKeepsInv(c, events, s);
  }

  lemma {:induction false} SpacedSum(sends: seq<Send>, k: nat)
    requires Spaced(sends) && k < |sends|
    ensures sends[k].at - sends[0].at >= Sum(k)
  {
    if k > 0 {
      SpacedSum(sends, k - 1);
    }
  }

  /** The k-th retransmission comes no sooner than the first k intervals after the first transmission. */
  lemma RetransmissionsAreSpaced(c: Config, events: seq<Event>, s: State, k: nat)
    requires NoRepeats(c.nexthops) && Reaches(c, events, s) && k < |Sends(events)|
    ensures Sends(events)[k].at - Sends(events)[0].at >= Sum(k)
  {
    RunKeepsInv(c, events, s);
    SpacedSum(Sends(events), k);
  }

  /** With no eligible nexthop nothing is ever transmitted. */
  lemma NothingSentWithoutNextHop(c: Config, events: seq<Event>, s: State)
    requires NoRepeats(c.nexthops) && Reaches(c, events, s)
    ensures NoneEligible(c) ==> Sends(events) == []
  {
    RunKeepsInv(c, events, s);
    if Sends(events) != [] {
      SomeEligible(c, s, Sends(events));
    }
  }

  /** Instead every Interest is answered by a Nack with reason NoRoute. */
  lemma NackedWithoutNextHop(c: Config, events: seq<Event>, s: State)
    requires NoRepeats(c.nexthops) && events != [] && Reaches(c, events, s)
    requires events[|events| - 1].Interest? && NoneEligible(c)
    ensures events[|events| - 1].action == NoRoute(c.inFace, NO_ROUTE)
  {
    hide Inv, NoneEligible;
    var n := |events| - 1;
    var v :| Reaches(c, events[..n], v) && Step(c, v, Sends(events[..n]), events[n], s);
    NothingSentWithoutNextHop(c, events, s);
    NothingSentWithoutNextHop(c, events[..n], v);
    RunKeepsInv(c, events[..n], v);
    RecordsIffSent(c, v, Sends(events[..n]));
  }

  lemma SuppressIffEarly(c: Config, s: State, sends: seq<Send>, a: Arrival, r: Suppression, interval: Interval)
    requires Inv(c, s, sends) && NoRepeats(c.nexthops) && Steady(s, sends, a) && Decides(s, a, r, interval)
    ensures r == SUPPRESS <==> sends != [] && a.decide - sends[|sends| - 1].at < Window(|sends| - 1)
  {
    hide Turn, Window, Latest, Rotates, Eligible, Increasing, Spaced, IsLastOutgoing;
    RecordsIffSent(c, s, sends);
    if r != NEW {
      var t :| IsLastOutgoing(s.outs, t) && (r == SUPPRESS <==> a.decide - t < Length(s.interval));
      LastOutgoing(c, s, sends, t);
    }
  }

  /** An Interest is transmitted exactly when it is the first, or comes no sooner after the last
      transmission than the current interval, which after k retransmissions is Window(k). */
  lemma SentIffLateEnough(c: Config, events: seq<Event>, s: State)
    requires NoRepeats(c.nexthops) && events != [] && Reaches(c, events, s)
    requires events[|events| - 1].Interest? && !NoneEligible(c)
    ensures var sends := Sends(events[..|events| - 1]);
            var e := events[|events| - 1];
            e.action.Sent? <==> sends == [] || e.arrival.decide - sends[|sends| - 1].at >= Window(|sends| - 1)
  {
    hide Inv, Decides, Chosen, Window, Steady;
    var n := |events| - 1;
    var v :| Reaches(c, events[..n], v) && Step(c, v, Sends(events[..n]), events[n], s);
    RunKeepsInv(c, events[..n], v);
    var a, act := events[n].arrival, events[n].action;
    var r :| Decides(v, a, r, s.interval) && Follows(c, v, a, r, s, act);
    SuppressIffEarly(c, v, Sends(events[..n]), a, r, s.interval);
  }
}
