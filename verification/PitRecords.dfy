/** The in- and out-records of a PIT entry. */
module PitRecords {
  import opened Wrappers
  import opened Faces

  type Time = int
  type Nonce = nat

  /** Nack reasons by their code. */
  type Reason = nat
  const DUPLICATE: Reason := 100
  const NO_ROUTE: Reason := 150

  /** `nack` is the Nack that came back, if any; an in-record has none. */
  datatype FaceRecord = FaceRecord(face: Face, lastNonce: Nonce, lastRenewed: Time, expiry: Time, nack: Option<Reason>)

  function IndexOf(rs: seq<FaceRecord>, f: Face): (i: nat)
    ensures i <= |rs|
    ensures i < |rs| ==> rs[i].face == f
    ensures forall j :: 0 <= j < i ==> rs[j].face != f
  {
    if rs == [] || rs[0].face == f then 0 else 1 + IndexOf(rs[1..], f)
  }

  predicate Has(rs: seq<FaceRecord>, f: Face) {
    IndexOf(rs, f) < |rs|
  }

  /** The record is renewed, or a new one put in front. A Nack already in it stays. */
  function Upsert(rs: seq<FaceRecord>, f: Face, nonce: Nonce, now: Time, lifetime: Time): seq<FaceRecord> {
    var i := IndexOf(rs, f);
    if i < |rs| then rs[i := rs[i].(lastNonce := nonce, lastRenewed := now, expiry := now + lifetime)]
    else [FaceRecord(f, nonce, now, now + lifetime, None)] + rs
  }

  function Delete(rs: seq<FaceRecord>, f: Face): seq<FaceRecord> {
    var i := IndexOf(rs, f);
    if i < |rs| then rs[..i] + rs[i + 1..] else rs
  }

  function SetNack(rs: seq<FaceRecord>, f: Face, reason: Reason): seq<FaceRecord> {
    var i := IndexOf(rs, f);
    if i < |rs| then rs[i := rs[i].(nack := Some(reason))] else rs
  }

  // ---------------------------------------------------------------- at most one record of each face

  ghost predicate Distinct(rs: seq<FaceRecord>) {
    forall i, j :: 0 <= i < j < |rs| ==> rs[i].face != rs[j].face
  }

  /** The record of a face. */
  function RecordOf(rs: seq<FaceRecord>, f: Face): Option<FaceRecord> {
    var i := IndexOf(rs, f);
    if i < |rs| then Some(rs[i]) else None
  }

  lemma RecordAt(rs: seq<FaceRecord>, i: nat)
    requires Distinct(rs) && i < |rs|
    ensures RecordOf(rs, rs[i].face) == Some(rs[i])
  {
  }

  lemma UpsertRecords(rs: seq<FaceRecord>, f: Face, nonce: Nonce, now: Time, lifetime: Time, g: Face)
    requires Distinct(rs)
    ensures Distinct(Upsert(rs, f, nonce, now, lifetime))
    ensures RecordOf(Upsert(rs, f, nonce, now, lifetime), g)
            == if g != f then RecordOf(rs, g)
               else Some(FaceRecord(f, nonce, now, now + lifetime, if RecordOf(rs, f).Some? then RecordOf(rs, f).value.nack else None))
  {
    hide Distinct;
    UpsertDistinct(rs, f, nonce, now, lifetime);
    var rs', i := Upsert(rs, f, nonce, now, lifetime), IndexOf(rs, f);
    var shift := if i < |rs| then 0 else 1;
    if g == f {
      RecordAt(rs', if i < |rs| then i else 0);
    } else if IndexOf(rs, g) < |rs| {
      RecordAt(rs', IndexOf(rs, g) + shift);
    } else {
      assert forall j :: shift <= j < |rs'| ==> rs'[j].face == rs[j - shift].face;
    }
  }

  lemma UpsertDistinct(rs: seq<FaceRecord>, f: Face, nonce: Nonce, now: Time, lifetime: Time)
    requires Distinct(rs)
    ensures Distinct(Upsert(rs, f, nonce, now, lifetime))
  {
  }

  lemma DeleteRecords(rs: seq<FaceRecord>, f: Face, g: Face)
    requires Distinct(rs)
    ensures Distinct(Delete(rs, f))
    ensures RecordOf(Delete(rs, f), g) == if g == f then None else RecordOf(rs, g)
  {
    var rs', i := Delete(rs, f), IndexOf(rs, f);
    if i < |rs| {
      assert forall j :: 0 <= j < |rs'| ==> rs'[j] == rs[if j < i then j else j + 1];
      var k := IndexOf(rs, g);
      if k < |rs| && g != f {
        assert rs'[if k < i then k else k - 1] == rs[k];
      }
    }
  }

  lemma SetNackRecords(rs: seq<FaceRecord>, f: Face, reason: Reason, g: Face)
    requires Distinct(rs)
    ensures Distinct(SetNack(rs, f, reason))
    ensures RecordOf(SetNack(rs, f, reason), g)
            == if g == f && RecordOf(rs, f).Some? then Some(RecordOf(rs, f).value.(nack := Some(reason))) else RecordOf(rs, g)
  {
    var rs', i := SetNack(rs, f, reason), IndexOf(rs, f);
    assert forall j :: 0 <= j < |rs| ==> rs'[j].face == rs[j].face && (j != i ==> rs'[j] == rs[j]);
    var k := IndexOf(rs, g);
    if k < |rs| {
      RecordAt(rs', k);
    }
  }

  ghost predicate HasPending(outs: seq<FaceRecord>, now: Time) {
    exists i :: 0 <= i < |outs| && outs[i].expiry >= now && outs[i].nack.None?
  }

  method HasPendingOutRecords(outs: seq<FaceRecord>, now: Time) returns (b: bool)
    ensures b == HasPending(outs, now)
  {
    var i := 0;
    while i < |outs|
      invariant 0 <= i <= |outs|
      invariant forall j :: 0 <= j < i ==> !(outs[j].expiry >= now && outs[j].nack.None?)
    {
      if outs[i].expiry >= now && outs[i].nack.None? {
        return true;
      }
      i := i + 1;
    }
    return false;
  }
}
