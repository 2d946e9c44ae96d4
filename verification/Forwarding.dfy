/** The forwarding pipelines as functions on the state of one forwarder. */
module Forwarding {
  import opened Wrappers
  import opened Faces
  import opened PitRecords

  const INVALID_FACEID := 0

  /** What identifies a PIT entry. */
  datatype Key = Key(name: Name, canBePrefix: bool, mustBeFresh: bool)

  datatype Interest = Interest(key: Key, nonce: Nonce, hopLimit: Option<nat>, lifetime: Time)

  datatype Data = Data(name: Name, freshness: Time)

  /** A PIT entry. The serial number tells it from entries inserted before or after it under the same key. */
  datatype Entry = Entry(
    serial: nat,
    ins: seq<FaceRecord>,
    outs: seq<FaceRecord>,
    satisfied: bool,
    timer: Option<nat>)

  datatype Ref = Ref(key: Key, serial: nat)

  /** A packet handed to a face. An Interest is sent on behalf of a downstream. */
  datatype Packet =
    | InterestOut(key: Key, cause: Face, egress: Face)
    | DataOut(data: Data, egress: Face)
    | NackOut(key: Key, egress: Face, reason: Reason)

  function NameOf(p: Packet): Name {
    if p.DataOut? then p.data.name else p.key.name
  }

  /** An Interest with this key came from this face. */
  datatype Origin = Origin(face: Face, key: Key)

  /** `timers` holds the scheduled events and the entry each will finalize. The last three fields record
      the run: what was sent, which entries were finalized, which Interests arrived. */
  datatype State = State(
    pit: map<Key, Entry>,
    timers: map<nat, Ref>,
    nextTimer: nat,
    created: nat,
    nSatisfied: nat,
    nUnsatisfied: nat,
    sent: seq<Packet>,
    finalized: seq<nat>,
    arrived: set<Origin>)

  /** What a strategy may do to a PIT entry. */
  datatype Action =
    | SendInterest(inFace: Face, egress: Face, interest: Interest)
    | SendNack(egress: Face, reason: Reason)
    | SetExpiryTimer

  const INIT := State(map[], map[], 0, 0, 0, 0, [], [], {})

  // ---------------------------------------------------------------- records

  ghost predicate HasNonce(rs: seq<FaceRecord>, nonce: Nonce) {
    exists i :: 0 <= i < |rs| && rs[i].lastNonce == nonce
  }

  // ---------------------------------------------------------------- primitive steps

  function Update(s: State, k: Key, e: Entry): State {
    s.(pit := s.pit[k := e])
  }

  function Emit(s: State, p: Packet): State {
    s.(sent := s.sent + [p])
  }

  /** Cancels the entry's timer and schedules another. */
  function SetTimer(s: State, k: Key): State
    requires k in s.pit
  {
    var e := s.pit[k];
    var rest := if e.timer.Some? then s.timers - {e.timer.value} else s.timers;
    s.(timers := rest[s.nextTimer := Ref(k, e.serial)],
    nextTimer := s.nextTimer + 1,
    pit := s.pit[k := e.(timer := Some(s.nextTimer))])
  }

  function Insert(s: State, k: Key): State {
    if k in s.pit then s
    else s.(pit := s.pit[k := Entry(s.created, [], [], false, None)], created := s.created + 1)
  }

  function Finalize(s: State, k: Key): State
    requires k in s.pit
  {
    var e := s.pit[k];
    s.(nSatisfied := s.nSatisfied + (if e.satisfied then 1 else 0),
    nUnsatisfied := s.nUnsatisfied + (if e.satisfied then 0 else 1),
    timers := if e.timer.Some? then s.timers - {e.timer.value} else s.timers,
    pit := s.pit - {k},
    finalized := s.finalized + [e.serial])
  }

  // ---------------------------------------------------------------- outgoing pipelines

  function OutgoingInterest(s: State, k: Key, inFace: Face, egress: Face, interest: Interest, now: Time): State
    requires k in s.pit
  {
    if interest.hopLimit == Some(0) && !egress.local then s
    else
      var e := s.pit[k];
      var e' := e.(outs := Upsert(e.outs, egress, interest.nonce, now, interest.lifetime));
      Emit(Update(s, k, e'), InterestOut(k, inFace, egress))
  }

  function DataPackets(data: Data, egress: Face): seq<Packet> {
    if egress.id == INVALID_FACEID || (!egress.local && LOCALHOST <= data.name) then []
    else [DataOut(data, egress)]
  }

  function OutgoingData(s: State, data: Data, egress: Face): State {
    s.(sent := s.sent + DataPackets(data, egress))
  }

  function OutgoingNack(s: State, k: Key, egress: Face, reason: Reason): State
    requires k in s.pit
  {
    var e := s.pit[k];
    if egress.id == INVALID_FACEID || !Has(e.ins, egress) || egress.link != PointToPoint then s
    else Emit(Update(s, k, e.(ins := Delete(e.ins, egress))), NackOut(k, egress, reason))
  }

  function SendData(s: State, k: Key, data: Data, egress: Face): State
    requires k in s.pit
  {
    OutgoingData(Update(s, k, s.pit[k].(ins := Delete(s.pit[k].ins, egress))), data, egress)
  }

  function InterestLoop(s: State, ingress: Face, k: Key): State {
    if ingress.link != PointToPoint then s else Emit(s, NackOut(k, ingress, DUPLICATE))
  }

  // ---------------------------------------------------------------- strategy

  /** The strategy sends the Interest of this entry on behalf of one of the faces it came from, and only
      to faces that pass the eligibility test. */
  ghost predicate Allowed(k: Key, causes: set<Face>, a: Action) {
    a.SendInterest? ==> a.interest.key == k && a.inFace in causes && IsEligible(a.inFace, k.name, a.egress)
  }

  ghost predicate AllAllowed(k: Key, causes: set<Face>, actions: seq<Action>) {
    forall i :: 0 <= i < |actions| ==> Allowed(k, causes, actions[i])
  }

  /** The downstreams of an entry. */
  ghost function FacesOf(rs: seq<FaceRecord>): set<Face> {
    set r | r in rs :: r.face
  }

  function Perform(s: State, k: Key, a: Action, now: Time): (s': State)
    requires k in s.pit
    ensures k in s'.pit && s'.arrived == s.arrived
  {
    match a
    case SendInterest(inFace, egress, interest) => OutgoingInterest(s, k, inFace, egress, interest, now)
    case SendNack(egress, reason) => OutgoingNack(s, k, egress, reason)
    case SetExpiryTimer => SetTimer(s, k)
  }

  function PerformAll(s: State, k: Key, actions: seq<Action>, now: Time): (s': State)
    requires k in s.pit
    ensures k in s'.pit && s'.arrived == s.arrived
  {
    if actions == [] then s
    else Perform(PerformAll(s, k, actions[..|actions| - 1], now), k, actions[|actions| - 1], now)
  }

  // ---------------------------------------------------------------- Interest

  /** Whether the Nonce shows that the Interest has looped. On a point-to-point face a repeat of the
      Nonce from the same downstream is a retransmission. */
  ghost predicate HasDuplicateNonce(e: Entry, nonce: Nonce, ingress: Face) {
    && (HasNonce(e.ins, nonce) || HasNonce(e.outs, nonce))
    && !(ingress.link == PointToPoint && exists i :: 0 <= i < |e.ins| && e.ins[i].lastNonce == nonce && e.ins[i].face == ingress)
  }

  function Arrive(s: State, o: Origin): State {
    s.(arrived := s.arrived + {o})
  }

  function ContentStoreHit(s: State, k: Key, ingress: Face, data: Data): State
    requires k in s.pit
  {
    SendData(SetTimer(Update(s, k, s.pit[k].(satisfied := true)), k), k, data, ingress)
  }

  function ContentStoreMiss(s: State, ingress: Face, interest: Interest, now: Time, actions: seq<Action>): State
    requires interest.key in s.pit
  {
    var k := interest.key;
    var e := s.pit[k];
    var s1 := Update(s, k, e.(ins := Upsert(e.ins, ingress, interest.nonce, now, interest.lifetime)));
    PerformAll(SetTimer(s1, k), k, actions, now)
  }

  /** `dead` says whether the Dead Nonce List has the Nonce, `cached` what the Content Store finds. */
  ghost function IncomingInterest(
    s: State, ingress: Face, interest: Interest, dead: bool, cached: Option<Data>, now: Time, actions: seq<Action>): State
  {
    var k := interest.key;
    var s0 := Arrive(s, Origin(ingress, k));
    if interest.hopLimit == Some(0) then s0
    else if !ingress.local && LOCALHOST <= k.name then s0
    else if dead then InterestLoop(s0, ingress, k)
    else
      var s1 := Insert(s0, k);
      if HasDuplicateNonce(s1.pit[k], interest.nonce, ingress) then InterestLoop(s1, ingress, k)
      else if s1.pit[k].ins == [] && cached.Some? then ContentStoreHit(s1, k, ingress, cached.value)
      else ContentStoreMiss(s1, ingress, interest, now, actions)
  }

  // ---------------------------------------------------------------- Data

  predicate MatchesData(k: Key, data: Data) {
    && (if k.canBePrefix then k.name <= data.name else k.name == data.name)
    && (k.mustBeFresh ==> data.freshness > 0)
  }

  /** The PIT entries that the Data satisfies, in any order. */
  ghost predicate IsMatchList(s: State, data: Data, matches: seq<Key>) {
    && (forall k :: k in matches <==> k in s.pit && MatchesData(k, data))
    && forall i, j :: 0 <= i < j < |matches| ==> matches[i] != matches[j]
  }

  predicate Pending(r: FaceRecord, now: Time) {
    r.expiry > now
  }

  /** The Data does not go back where it came from, unless the face is ad hoc. */
  predicate GoesTo(f: Face, ingress: Face) {
    !(f.id == ingress.id && f.link != AdHoc)
  }

  function Add(fs: seq<Face>, f: Face): seq<Face> {
    if f in fs then fs else fs + [f]
  }

  /** The faces of the pending in-records, each once. */
  function Downstreams(fs: seq<Face>, ins: seq<FaceRecord>, now: Time): seq<Face> {
    if ins == [] then fs
    else
      var r, before := ins[|ins| - 1], Downstreams(fs, ins[..|ins| - 1], now);
      if Pending(r, now) then Add(before, r.face) else before
  }

  function Except(fs: seq<Face>, ingress: Face): seq<Face> {
    if fs == [] then []
    else
      var rest := Except(fs[..|fs| - 1], ingress);
      if GoesTo(fs[|fs| - 1], ingress) then rest + [fs[|fs| - 1]] else rest
  }

  function SendDataTo(s: State, k: Key, data: Data, fs: seq<Face>): (s': State)
    requires k in s.pit
    ensures k in s'.pit && s'.arrived == s.arrived
  {
    if fs == [] then s
    else SendData(SendDataTo(s, k, data, fs[..|fs| - 1]), k, data, fs[|fs| - 1])
  }

  function OutgoingDataTo(s: State, data: Data, fs: seq<Face>): (s': State)
    ensures s'.arrived == s.arrived
  {
    if fs == [] then s else OutgoingData(OutgoingDataTo(s, data, fs[..|fs| - 1]), data, fs[|fs| - 1])
  }

  /** One matching entry: the strategy returns the Data to the pending downstreams. */
  function SatisfyOne(s: State, k: Key, ingress: Face, data: Data, now: Time): State
    requires k in s.pit
  {
    var s1 := SetTimer(s, k);
    var s2 := SendDataTo(s1, k, data, Except(Downstreams([], s1.pit[k].ins, now), ingress));
    Update(s2, k, s2.pit[k].(satisfied := true, outs := Delete(s2.pit[k].outs, ingress)))
  }

  function SatisfyEntry(s: State, k: Key, ingress: Face): State
    requires k in s.pit
  {
    var s1 := SetTimer(s, k);
    Update(s1, k, s1.pit[k].(satisfied := true, ins := [], outs := Delete(s1.pit[k].outs, ingress)))
  }

  function SatisfyEach(s: State, matches: seq<Key>, ingress: Face): (s': State)
    requires forall k :: k in matches ==> k in s.pit
    ensures s'.pit.Keys == s.pit.Keys && s'.arrived == s.arrived
  {
    if matches == [] then s
    else
      assert matches[|matches| - 1] in matches;
      SatisfyEntry(SatisfyEach(s, matches[..|matches| - 1], ingress), matches[|matches| - 1], ingress)
  }

  function AllDownstreams(s: State, matches: seq<Key>, now: Time): seq<Face>
    requires forall k :: k in matches ==> k in s.pit
  {
    if matches == [] then []
    else
      assert matches[|matches| - 1] in matches;
      Downstreams(AllDownstreams(s, matches[..|matches| - 1], now), s.pit[matches[|matches| - 1]].ins, now)
  }

  function IncomingData(s: State, ingress: Face, data: Data, now: Time, matches: seq<Key>): State
    requires forall k :: k in matches ==> k in s.pit
  {
    if !ingress.local && LOCALHOST <= data.name then s
    else if |matches| == 0 then s
    else if |matches| == 1 then SatisfyOne(s, matches[0], ingress, data, now)
    else
      OutgoingDataTo(SatisfyEach(s, matches, ingress), data, Except(AllDownstreams(s, matches, now), ingress))
  }

  // ---------------------------------------------------------------- Nack

  function RecordNack(s: State, k: Key, ingress: Face, reason: Reason): State
    requires k in s.pit && Has(s.pit[k].outs, ingress)
  {
    Update(s, k, s.pit[k].(outs := SetNack(s.pit[k].outs, ingress, reason)))
  }

  ghost function IncomingNack(
    s: State, ingress: Face, k: Key, nonce: Nonce, reason: Reason, now: Time, actions: seq<Action>): State
  {
    if ingress.link != PointToPoint || k !in s.pit || !Has(s.pit[k].outs, ingress) then s
    else if s.pit[k].outs[IndexOf(s.pit[k].outs, ingress)].lastNonce != nonce then s
    else
      var s1 := RecordNack(s, k, ingress, reason);
      PerformAll(if HasPending(s1.pit[k].outs, now) then s1 else SetTimer(s1, k), k, actions, now)
  }

  // ---------------------------------------------------------------- runs

  /** `Own` is a strategy acting on an entry by itself, from a scheduled event or on a new nexthop. */
  datatype Event =
    | InterestIn(ingress: Face, interest: Interest, dead: bool, cached: Option<Data>, now: Time, actions: seq<Action>)
    | DataIn(ingress: Face, data: Data, now: Time, matches: seq<Key>)
    | NackIn(ingress: Face, key: Key, nonce: Nonce, reason: Reason, now: Time, actions: seq<Action>)
    | Own(key: Key, now: Time, actions: seq<Action>)
    | Timer(id: nat)

  /** The faces an entry is pending for, if there is one. */
  ghost function Causes(s: State, k: Key): set<Face> {
    if k in s.pit then FacesOf(s.pit[k].ins) else {}
  }

  /** The entry that a scheduled event refers to is still in the PIT. */
  ghost predicate Live(s: State, r: Ref) {
    r.key in s.pit && s.pit[r.key].serial == r.serial
  }

  /** An expiry timer that outlived its entry could do anything. */
  ghost predicate Step(s: State, e: Event, s': State) {
    match e
    case InterestIn(ingress, interest, dead, cached, now, actions) =>
      && AllAllowed(interest.key, {ingress}, actions) && (cached.Some? ==> MatchesData(interest.key, cached.value))
      && s' == IncomingInterest(s, ingress, interest, dead, cached, now, actions)
    case DataIn(ingress, data, now, matches) =>
      IsMatchList(s, data, matches) && s' == IncomingData(s, ingress, data, now, matches)
    case NackIn(ingress, k, nonce, reason, now, actions) =>
      AllAllowed(k, Causes(s, k), actions) && s' == IncomingNack(s, ingress, k, nonce, reason, now, actions)
    case Own(k, now, actions) =>
      k in s.pit && AllAllowed(k, Causes(s, k), actions) && s' == PerformAll(s, k, actions, now)
    case Timer(t) =>
      t in s.timers && (Live(s, s.timers[t]) ==> s' == Finalize(s, s.timers[t].key))
  }

  ghost predicate Reaches(events: seq<Event>, s: State) {
    if events == [] then s == INIT
    else
      var n := |events| - 1;
      exists v :: Reaches(events[..n], v) && Step(v, events[n], s)
  }
}
