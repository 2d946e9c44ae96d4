/** The best-route strategy on one PIT entry: which upstream each retransmission goes to, and when. */
module BestRoute {
  import opened Wrappers
  import opened Faces
  import opened PitRecords

  /** Nanoseconds. */
  const RETX_SUPPRESSION_INITIAL: Time := 10_000_000
  const RETX_SUPPRESSION_MAX: Time := 250_000_000
  const MULTIPLIER := 2

  datatype Interval = Unset | Interval(length: Time)

  /** What the strategy knows of the PIT entry. */
  datatype State = State(outs: seq<FaceRecord>, interval: Interval)

  /** One downstream, one Interest name and a fixed nexthop list, cheapest first. */
  datatype Config = Config(inFace: Face, name: Name, nexthops: seq<Face>)

  /** An Interest: its Nonce and lifetime, and the readings of the clock while it is processed, in order. */
  datatype Arrival = Arrival(nonce: Nonce, pending: Time, decide: Time, search: Time, send: Time, lifetime: Time)

  datatype Suppression = NEW | SUPPRESS | FORWARD

  /** What becomes of the Interest. Without a route a Nack with that reason goes to the downstream, and
      the PIT entry is rejected. */
  datatype Action = Suppressed | Sent(face: Face) | NoRoute(nackTo: Face, reason: Reason) | NoNextHop

  // ---------------------------------------------------------------- what the searches find

  predicate IsUpstream(c: Config, f: Face) {
    IsEligible(c.inFace, c.name, f)
  }

  ghost predicate IsLastOutgoing(outs: seq<FaceRecord>, t: Time) {
    && (exists i :: 0 <= i < |outs| && outs[i].lastRenewed == t)
    && forall i :: 0 <= i < |outs| ==> outs[i].lastRenewed <= t
  }

  /** No out-record for f that is still in force. */
  ghost predicate IsUnused(outs: seq<FaceRecord>, f: Face, now: Time) {
    forall i :: 0 <= i < |outs| && outs[i].face == f ==> outs[i].expiry <= now
  }

  ghost predicate HasRecord(outs: seq<FaceRecord>, f: Face) {
    exists i :: 0 <= i < |outs| && outs[i].face == f
  }

  ghost predicate RenewedAt(outs: seq<FaceRecord>, f: Face, t: Time) {
    exists i :: 0 <= i < |outs| && outs[i].face == f && outs[i].lastRenewed == t
  }

  /** The first eligible nexthop. */
  ghost predicate IsFirst(c: Config, i: nat) {
    && i < |c.nexthops| && IsUpstream(c, c.nexthops[i])
    && forall j :: 0 <= j < i ==> !IsUpstream(c, c.nexthops[j])
  }

  /** The first eligible nexthop without an out-record in force. */
  ghost predicate IsFirstUnused(c: Config, outs: seq<FaceRecord>, now: Time, i: nat) {
    && i < |c.nexthops| && IsUpstream(c, c.nexthops[i]) && IsUnused(outs, c.nexthops[i], now)
    && forall j :: 0 <= j < i && IsUpstream(c, c.nexthops[j]) ==> !IsUnused(outs, c.nexthops[j], now)
  }

  ghost predicate NoneUnused(c: Config, outs: seq<FaceRecord>, now: Time) {
    forall f :: f in c.nexthops && IsUpstream(c, f) ==> !IsUnused(outs, f, now)
  }

  /** The first of the eligible nexthops whose out-record was renewed earliest. */
  ghost predicate IsEarliest(c: Config, outs: seq<FaceRecord>, i: nat) {
    && i < |c.nexthops| && IsUpstream(c, c.nexthops[i]) && HasRecord(outs, c.nexthops[i])
    && forall j, t, u ::
         0 <= j < |c.nexthops| && IsUpstream(c, c.nexthops[j]) && RenewedAt(outs, c.nexthops[j], t) && RenewedAt(outs, c.nexthops[i], u) ==>
           u <= t && (j < i ==> u < t)
  }

  ghost predicate NoneEligible(c: Config) {
    forall f :: f in c.nexthops ==> !IsUpstream(c, f)
  }

  // ---------------------------------------------------------------- transition

  function Length(v: Interval): Time {
    if v.Unset? then RETX_SUPPRESSION_INITIAL else v.length
  }

  /** What a suppression decision says and does to the interval. */
  ghost predicate Decides(s: State, a: Arrival, r: Suppression, interval: Interval) {
    match r
    case NEW => !HasPending(s.outs, a.pending) && interval == s.interval
    case SUPPRESS =>
      && HasPending(s.outs, a.pending) && interval == Interval(Length(s.interval))
      && exists t :: IsLastOutgoing(s.outs, t) && a.decide - t < Length(s.interval)
    case FORWARD =>
      && HasPending(s.outs, a.pending)
      && interval == Interval(Min(RETX_SUPPRESSION_MAX, Length(s.interval) * MULTIPLIER))
      && exists t :: IsLastOutgoing(s.outs, t) && a.decide - t >= Length(s.interval)
  }

  /** Transmitting to f renews its out-record. */
  function Renew(outs: seq<FaceRecord>, f: Face, a: Arrival): seq<FaceRecord> {
    Upsert(outs, f, a.nonce, a.send, a.lifetime)
  }

  /** Which nexthop the Interest goes to, once it is not suppressed. */
  ghost predicate Chosen(c: Config, s: State, a: Arrival, r: Suppression, i: nat) {
    if r == NEW then IsFirst(c, i)
    else if NoneUnused(c, s.outs, a.search) then IsEarliest(c, s.outs, i)
    else IsFirstUnused(c, s.outs, a.search, i)
  }

  ghost predicate Transition(c: Config, s: State, a: Arrival, s': State, act: Action) {
    exists r :: Decides(s, a, r, s'.interval) && Follows(c, s, a, r, s', act)
  }

  ghost predicate Follows(c: Config, s: State, a: Arrival, r: Suppression, s': State, act: Action) {
    match act
    case Suppressed => r == SUPPRESS && s'.outs == s.outs
    case NoRoute(f, reason) => r == NEW && f == c.inFace && reason == NO_ROUTE && NoneEligible(c) && s'.outs == s.outs
    case NoNextHop => r == FORWARD && NoneEligible(c) && s'.outs == s.outs
    case Sent(f) =>
      && r != SUPPRESS && s'.outs == Renew(s.outs, f, a)
      && exists i: nat :: i < |c.nexthops| && Chosen(c, s, a, r, i) && c.nexthops[i] == f
  }

  // ---------------------------------------------------------------- the strategy

  class Strategy {
    const config: Config
    var outs: seq<FaceRecord>
    var interval: Interval

    ghost function Abs(): State
      reads this
    {
      State(outs, interval)
    }

    constructor (c: Config)
      ensures config == c && Abs() == State([], Unset)
    {
      config := c;
      outs := [];
      interval := Unset;
    }

    method GetLastOutgoing() returns (t: Time)
      requires outs != []
      ensures IsLastOutgoing(outs, t)
    {
      var best, i := 0, 1;
      while i < |outs|
        invariant 0 <= best < i <= |outs|
        invariant forall j :: 0 <= j < i ==> outs[j].lastRenewed <= outs[best].lastRenewed
      {
        if outs[best].lastRenewed < outs[i].lastRenewed {
          best := i;
        }
        i := i + 1;
      }
      t := outs[best].lastRenewed;
    }

    method DecidePerPitEntry(a: Arrival) returns (r: Suppression)
      modifies this`interval
      ensures Decides(old(Abs()), a, r, interval)
    {
      var pending := HasPendingOutRecords(outs, a.pending);
      if !pending {
        return NEW;
      }
      var last := GetLastOutgoing();
      if interval.Unset? {
        interval := Interval(RETX_SUPPRESSION_INITIAL);
      }
      if a.decide - last < interval.length {
        return SUPPRESS;
      }
      interval := Interval(Min(RETX_SUPPRESSION_MAX, interval.length * MULTIPLIER));
      return FORWARD;
    }

    method FindFirst() returns (i: nat)
      ensures i <= |config.nexthops|
      ensures i < |config.nexthops| ==> IsFirst(config, i)
      ensures i == |config.nexthops| ==> NoneEligible(config)
    {
      i := 0;
      while i < |config.nexthops|
        invariant i <= |config.nexthops|
        invariant forall j :: 0 <= j < i ==> !IsUpstream(config, config.nexthops[j])
      {
        if IsUpstream(config, config.nexthops[i]) {
          return;
        }
        i := i + 1;
      }
    }

    method FindUnused(now: Time) returns (i: nat)
      requires Distinct(outs)
      ensures i <= |config.nexthops|
      ensures i < |config.nexthops| ==> IsFirstUnused(config, outs, now, i)
      ensures i == |config.nexthops| ==> NoneUnused(config, outs, now)
    {
      i := 0;
      while i < |config.nexthops|
        invariant i <= |config.nexthops|
        invariant forall j :: 0 <= j < i && IsUpstream(config, config.nexthops[j]) ==> !IsUnused(outs, config.nexthops[j], now)
      {
        if IsUpstream(config, config.nexthops[i]) {
          var k := IndexOf(outs, config.nexthops[i]);
          if k == |outs| || outs[k].expiry <= now {
            return;
          }
        }
        i := i + 1;
      }
    }

    /** Every eligible nexthop must have an out-record, which is what the source asserts. */
    method FindEarliest() returns (found: nat)
      requires Distinct(outs)
      requires forall f :: f in config.nexthops && IsUpstream(config, f) ==> HasRecord(outs, f)
      ensures found <= |config.nexthops|
      ensures found < |config.nexthops| ==> IsEarliest(config, outs, found)
      ensures found == |config.nexthops| ==> NoneEligible(config)
    {
      found := |config.nexthops|;
      ghost var at := 0;
      var earliest: Time := 0;
      var i := 0;
      while i < |config.nexthops|
        invariant i <= |config.nexthops|
        invariant found < i || found == |config.nexthops|
        invariant found == |config.nexthops| ==> forall j :: 0 <= j < i ==> !IsUpstream(config, config.nexthops[j])
        invariant found < i ==>
                    && IsUpstream(config, config.nexthops[found])
                    && 0 <= at < |outs| && outs[at].face == config.nexthops[found] && outs[at].lastRenewed == earliest
        invariant found < i ==> forall j, k ::
                    0 <= j < i && IsUpstream(config, config.nexthops[j]) && 0 <= k < |outs| && outs[k].face == config.nexthops[j] ==>
                      earliest <= outs[k].lastRenewed && (j < found ==> earliest < outs[k].lastRenewed)
      {
        if IsUpstream(config, config.nexthops[i]) {
          assert config.nexthops[i] in config.nexthops;
          var k := IndexOf(outs, config.nexthops[i]);
          if found == |config.nexthops| || outs[k].lastRenewed < earliest {
            found, earliest, at := i, outs[k].lastRenewed, k;
          }
        }
        i := i + 1;
      }
    }

    /** Sending to a nexthop inserts or renews its out-record. */
    method SendInterest(f: Face, a: Arrival)
      requires Distinct(outs)
      modifies this`outs
      ensures outs == Renew(old(outs), f, a) && Distinct(outs)
    {
      var i := IndexOf(outs, f);
      if i == |outs| {
        outs := [FaceRecord(f, a.nonce, a.send, a.send, None)] + outs;
        i := 0;
      }
      outs := outs[i := outs[i].(lastNonce := a.nonce, lastRenewed := a.send, expiry := a.send + a.lifetime)];
    }

    method AfterReceiveInterest(a: Arrival) returns (act: Action)
      requires Distinct(outs)
      modifies this
      ensures Transition(config, old(Abs()), a, Abs(), act) && Distinct(outs)
    {
      ghost var s := Abs();
      var r := DecidePerPitEntry(a);
      if r == SUPPRESS {
        return Suppressed;
      }
      if r == NEW {
        var i := FindFirst();
        if i == |config.nexthops| {
          return NoRoute(config.inFace, NO_ROUTE);
        }
        SendInterest(config.nexthops[i], a);
        assert Chosen(config, s, a, r, i);
        return Sent(config.nexthops[i]);
      }
      var i := FindUnused(a.search);
      if i < |config.nexthops| {
        assert config.nexthops[i] in config.nexthops;
        SendInterest(config.nexthops[i], a);
        assert Chosen(config, s, a, r, i);
        return Sent(config.nexthops[i]);
      }
      i := FindEarliest();
      if i == |config.nexthops| {
        return NoNextHop;
      }
      SendInterest(config.nexthops[i], a);
      assert Chosen(config, s, a, r, i);
      return Sent(config.nexthops[i]);
    }

    /** A Nack from an upstream is recorded in its out-record. */
    method RecordNack(f: Face, reason: Reason)
      requires Distinct(outs)
      modifies this`outs
      ensures outs == SetNack(old(outs), f, reason) && Distinct(outs)
    {
      var i := IndexOf(outs, f);
      if i < |outs| {
        outs := outs[i := outs[i].(nack := Some(reason))];
      }
    }
  }
}
