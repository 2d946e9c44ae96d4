/** The common procedure for processing Nacks, and what it is for: two hosts that forwarded the same
    Interest to each other do not wait for each other's Nack forever. */
module ProcessNack {
  import opened Wrappers

  type Face = nat
  type Nonce = nat

  /** Nack reasons by their code; NONE is the most severe. */
  type Reason = nat
  const NONE: Reason := 0

  predicate IsLessSevere(x: Reason, y: Reason) {
    x != NONE && (y == NONE || x < y)
  }

  datatype OutRecord = OutRecord(nonce: Nonce, nack: Option<Reason>)
  type OutRecords = map<Face, OutRecord>
  type InRecords = map<Face, Nonce>

  /** Upstreams that have not returned a Nack. */
  function Pending(outs: OutRecords): set<Face> {
    set f | f in outs && outs[f].nack.None?
  }

  /** Reason r has the lowest code of the Nacks received, apart from the unspecific ones, if there is any
      other. */
  ghost predicate IsLeastSevere(outs: OutRecords, r: Reason) {
    && (forall f :: f in outs && outs[f].nack.Some? ==> outs[f].nack.value == NONE || NONE != r <= outs[f].nack.value)
    && (r != NONE ==> exists f :: f in outs && outs[f].nack == Some(r))
  }

  datatype Decision = Wait | ToOne(face: Face, reason: Reason) | ToAll(reason: Reason)

  /** The documented rule: with Nacks from all upstreams, Nack all downstreams; with Nacks from all but
      one, which is also a downstream, Nack that one; otherwise wait. */
  ghost predicate Decided(outs: OutRecords, ins: InRecords, d: Decision) {
    match d
    case ToAll(r) => Pending(outs) == {} && IsLeastSevere(outs, r)
    case ToOne(f, r) => Pending(outs) == {f} && f in ins && IsLeastSevere(outs, r)
    case Wait => Pending(outs) != {} && forall f :: Pending(outs) == {f} ==> f !in ins
  }

  /** `order` visits every out-record once. */
  ghost predicate Visits(order: seq<Face>, outs: OutRecords) {
    && (forall f :: f in order <==> f in outs)
    && forall i, j :: 0 <= i < j < |order| ==> order[i] != order[j]
  }

  function Part(outs: OutRecords, order: seq<Face>): OutRecords {
    map f | f in outs && f in order :: outs[f]
  }

  lemma PartGrows(outs: OutRecords, order: seq<Face>, i: nat)
    requires i < |order| && order[i] in outs && order[i] !in order[..i]
    ensures order[i] !in Part(outs, order[..i]) && order[i] !in Pending(Part(outs, order[..i]))
    ensures Part(outs, order[..i + 1]) == Part(outs, order[..i])[order[i] := outs[order[i]]]
    ensures Pending(Part(outs, order[..i + 1])) ==
            Pending(Part(outs, order[..i])) + (if outs[order[i]].nack.None? then {order[i]} else {})
  {
    assert order[..i + 1] == order[..i] + [order[i]];
  }

  lemma LeastSevereGrows(outs: OutRecords, f: Face, o: OutRecord, r: Reason)
    requires IsLeastSevere(outs, r) && f !in outs
    ensures o.nack.None? ==> IsLeastSevere(outs[f := o], r)
    ensures o.nack.Some? ==> IsLeastSevere(outs[f := o], if IsLessSevere(o.nack.value, r) then o.nack.value else r)
  {
    var outs' := outs[f := o];
    assert forall g :: g in outs ==> g in outs' && outs'[g] == outs[g];
    if o.nack.Some? && IsLessSevere(o.nack.value, r) {
      assert outs'[f].nack == Some(o.nack.value);
    }
  }

  /** processNack: one pass over the out-records. */
  method Process(outs: OutRecords, order: seq<Face>, ins: InRecords) returns (d: Decision)
    requires Visits(order, outs)
    ensures Decided(outs, ins, d)
  {
    hide IsLeastSevere, Part, Pending;
    var nOutRecordsNotNacked := 0;
    var lastFaceNotNacked := 0;
    var leastSevereReason := NONE;
    NothingYet(outs, order);
    for i := 0 to |order|
      invariant nOutRecordsNotNacked == |Pending(Part(outs, order[..i]))|
      invariant nOutRecordsNotNacked > 0 ==> lastFaceNotNacked in Pending(Part(outs, order[..i]))
      invariant IsLeastSevere(Part(outs, order[..i]), leastSevereReason)
    {
      var f := order[i];
      assert f in order && f !in order[..i];
      PartGrows(outs, order, i);
      LeastSevereGrows(Part(outs, order[..i]), f, outs[f], leastSevereReason);
      if outs[f].nack.None? {
        nOutRecordsNotNacked := nOutRecordsNotNacked + 1;
        lastFaceNotNacked := f;
        continue;
      }
      if IsLessSevere(outs[f].nack.value, leastSevereReason) {
        leastSevereReason := outs[f].nack.value;
      }
    }
    assert order[..|order|] == order;
    PartIsAll(outs, order);
    NoPending(outs);
    if nOutRecordsNotNacked == 1 {
      OnlyElement(Pending(outs), lastFaceNotNacked);
      if lastFaceNotNacked in ins {
        return ToOne(lastFaceNotNacked, leastSevereReason);
      }
    }
    if nOutRecordsNotNacked > 0 {
      return Wait;
    }
    return ToAll(leastSevereReason);
  }

  lemma NothingYet(outs: OutRecords, order: seq<Face>)
    ensures Pending(Part(outs, order[..0])) == {} && IsLeastSevere(Part(outs, order[..0]), NONE)
  {
  }

  lemma PartIsAll(outs: OutRecords, order: seq<Face>)
    requires Visits(order, outs)
    ensures Part(outs, order) == outs
  {
  }

  lemma NoPending(outs: OutRecords)
    ensures |Pending(outs)| == 0 <==> Pending(outs) == {}
  {
  }

  lemma OnlyElement(s: set<Face>, x: Face)
    requires |s| == 1 && x in s
    ensures s == {x}
  {
    assert |s - {x}| == 0;
  }

  /** The rule leaves no choice. */
  lemma DecisionUnique(outs: OutRecords, ins: InRecords, d: Decision, e: Decision)
    requires Decided(outs, ins, d) && Decided(outs, ins, e)
    ensures d == e
  {
    if !d.Wait? && !e.Wait? {
      assert d.reason == e.reason by {
        if d.reason != NONE {
          var f :| f in outs && outs[f].nack == Some(d.reason);
        }
        if e.reason != NONE {
          var f :| f in outs && outs[f].nack == Some(e.reason);
        }
      }
      if d.ToOne? && e.ToOne? { assert d.face in Pending(outs); }
    }
    if d.ToOne? { assert Pending(outs) == {d.face}; }
    if e.ToOne? { assert Pending(outs) == {e.face}; }
  }

  lemma {:induction false} HasLeastSevere(outs: OutRecords) returns (r: Reason)
    ensures IsLeastSevere(outs, r)
    decreases |outs|
  {
    if outs == map[] {
      r := NONE;
    } else {
      var f :| f in outs;
      var rest := outs - {f};
      assert rest.Keys == outs.Keys - {f} && |rest.Keys| < |outs.Keys|;
      r := HasLeastSevere(rest);
      LeastSevereGrows(rest, f, outs[f], r);
      assert rest[f := outs[f]] == outs;
      if outs[f].nack.Some? && IsLessSevere(outs[f].nack.value, r) {
        r := outs[f].nack.value;
      }
    }
  }

  /** The rule always decides. */
  lemma HasDecision(outs: OutRecords, ins: InRecords) returns (d: Decision)
    ensures Decided(outs, ins, d)
  {
    var r := HasLeastSevere(outs);
    if Pending(outs) == {} {
      d := ToAll(r);
    } else {
      var f :| f in Pending(outs);
      d := if Pending(outs) == {f} && f in ins then ToOne(f, r) else Wait;
    }
  }
}
