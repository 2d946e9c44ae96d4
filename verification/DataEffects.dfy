/** What incoming Data does to the PIT. */
module DataEffects {
  import opened Wrappers
  import opened Faces
  import opened PitRecords
  import opened Forwarding
  import opened ForwardingSafety
  import opened ForwardingEffects
  import opened DataDelivery

  /** The entry was satisfied: it expires soon, has no out-record of the face the Data came from, and no
      in-record of a face the Data goes to. With several matching entries no in-record is left. */
  ghost predicate IsSatisfied(e: Entry, ingress: Face, now: Time, several: bool, e': Entry) {
    && e'.satisfied && e'.serial == e.serial && e'.timer.Some?
    && (forall f :: RecordOf(e'.outs, f) == if f == ingress then None else RecordOf(e.outs, f))
    && (if several then e'.ins == []
        else forall f :: RecordOf(e'.ins, f) == if GoesTo(f, ingress) && Waits(e.ins, f, now) then None else RecordOf(e.ins, f))
  }

  /** Exactly the matching entries change, and each is satisfied, with a new timer. */
  ghost predicate DataDid(s: State, ingress: Face, data: Data, now: Time, matches: seq<Key>, s': State) {
    if !ingress.local && LOCALHOST <= data.name then s' == s
    else
      && s'.pit.Keys == s.pit.Keys && s'.created == s.created && s'.finalized == s.finalized
      && s'.nSatisfied == s.nSatisfied && s'.nUnsatisfied == s.nUnsatisfied && s'.arrived == s.arrived
      && forall k :: k in s.pit ==>
           if MatchesData(k, data)
           then IsSatisfied(s.pit[k], ingress, now, |matches| > 1, s'.pit[k]) && s'.pit[k].timer.value >= s.nextTimer
           else s'.pit[k] == s.pit[k]
  }

  /** Sending the Data on a face takes its in-record, and changes nothing else of the PIT. */
  ghost predicate InsLeft(s: State, k: Key, s': State)
    requires k in s.pit
  {
    && OnlyEntry(s, k, s') && s'.timers == s.timers && s'.nextTimer == s.nextTimer
    && s'.pit[k] == s.pit[k].(ins := s'.pit[k].ins) && Distinct(s'.pit[k].ins)
  }

  lemma SendDataEffect(s: State, k: Key, data: Data, egress: Face, f: Face)
    requires k in s.pit && Distinct(s.pit[k].ins)
    ensures var s' := SendData(s, k, data, egress);
            InsLeft(s, k, s') && RecordOf(s'.pit[k].ins, f) == if f == egress then None else RecordOf(s.pit[k].ins, f)
  {
    hide Distinct, RecordOf, Delete, DataPackets;
    DeleteRecords(s.pit[k].ins, egress, f);
  }

  lemma {:induction false} SendDataToEffect(s: State, k: Key, data: Data, fs: seq<Face>, f: Face)
    requires k in s.pit && Distinct(s.pit[k].ins)
    ensures var s' := SendDataTo(s, k, data, fs);
            InsLeft(s, k, s') && RecordOf(s'.pit[k].ins, f) == if f in fs then None else RecordOf(s.pit[k].ins, f)
  {
    hide Distinct, RecordOf, SendData;
    if fs != [] {
      var n := |fs| - 1;
      SendDataToEffect(s, k, data, fs[..n], f);
      SendDataEffect(SendDataTo(s, k, data, fs[..n]), k, data, fs[n], f);
      assert fs == fs[..n] + [fs[n]];
    }
  }

  lemma SingleDoes(s: State, k: Key, ingress: Face, data: Data, now: Time)
    requires k in s.pit && Distinct(s.pit[k].ins) && Distinct(s.pit[k].outs)
    ensures var s' := SatisfyOne(s, k, ingress, data, now);
            && OnlyEntry(s, k, s') && IsSatisfied(s.pit[k], ingress, now, false, s'.pit[k]) && s'.pit[k].timer.value >= s.nextTimer
  {
    hide Distinct, RecordOf, Delete, SendDataTo, Downstreams, Except, Waits, GoesTo;
    var e := s.pit[k];
    var s1 := SetTimer(s, k);
    var all := Downstreams([], e.ins, now);
    var fs := Except(all, ingress);
    var s2 := SendDataTo(s1, k, data, fs);
    var s' := SatisfyOne(s, k, ingress, data, now);
    SendDataToEffect(s1, k, data, fs, ingress);
    forall f
      ensures RecordOf(s'.pit[k].ins, f) == if GoesTo(f, ingress) && Waits(e.ins, f, now) then None else RecordOf(e.ins, f)
      ensures RecordOf(s'.pit[k].outs, f) == if f == ingress then None else RecordOf(e.outs, f)
    {
      SendDataToEffect(s1, k, data, fs, f);
      DownstreamsAre([], e.ins, now, f);
      ExceptIs(all, ingress, f);
      DeleteRecords(s2.pit[k].outs, ingress, f);
    }
  }

  lemma EntryDoes(s: State, k: Key, ingress: Face, now: Time)
    requires k in s.pit && Distinct(s.pit[k].outs)
    ensures var s' := SatisfyEntry(s, k, ingress);
            && OnlyEntry(s, k, s') && IsSatisfied(s.pit[k], ingress, now, true, s'.pit[k]) && s'.pit[k].timer.value >= s.nextTimer
            && s'.sent == s.sent
  {
    hide Distinct, RecordOf, Delete;
    forall f ensures RecordOf(Delete(s.pit[k].outs, ingress), f) == if f == ingress then None else RecordOf(s.pit[k].outs, f) {
      DeleteRecords(s.pit[k].outs, ingress, f);
    }
  }

  ghost predicate EachSatisfied(s: State, matches: seq<Key>, ingress: Face, now: Time, s': State) {
    && s'.pit.Keys == s.pit.Keys && s'.created == s.created && s'.finalized == s.finalized && s'.nextTimer >= s.nextTimer
    && s'.nSatisfied == s.nSatisfied && s'.nUnsatisfied == s.nUnsatisfied && s'.arrived == s.arrived
    && forall k :: k in s.pit ==>
         if k in matches then IsSatisfied(s.pit[k], ingress, now, true, s'.pit[k]) && s'.pit[k].timer.value >= s.nextTimer
         else s'.pit[k] == s.pit[k]
  }

  lemma {:induction false} EachDoes(s: State, matches: seq<Key>, ingress: Face, now: Time)
    requires EntriesOk(s) && (forall k :: k in matches ==> k in s.pit) && NoRepeats(matches)
    ensures EachSatisfied(s, matches, ingress, now, SatisfyEach(s, matches, ingress))
  {
    hide IsSatisfied, Distinct, SatisfyEntry;
    if matches != [] {
      var n := |matches| - 1;
      EachDoes(s, matches[..n], ingress, now);
      var s1 := SatisfyEach(s, matches[..n], ingress);
      assert matches[n] in matches && matches == matches[..n] + [matches[n]];
      assert matches[n] !in matches[..n];
      EntryDoes(s1, matches[n], ingress, now);
    }
  }

  lemma OutgoingDataToPit(s: State, data: Data, fs: seq<Face>)
    ensures OutgoingDataTo(s, data, fs) == s.(sent := OutgoingDataTo(s, data, fs).sent)
  {
  }

  /** The incoming Data pipeline, for any number of matching entries. */
  lemma DataDoes(s: State, ingress: Face, data: Data, now: Time, matches: seq<Key>)
    requires EntriesOk(s) && IsMatchList(s, data, matches)
    ensures DataDid(s, ingress, data, now, matches, IncomingData(s, ingress, data, now, matches))
  {
    hide IsSatisfied, Distinct, SatisfyOne, SatisfyEach, OutgoingDataTo, AllDownstreams, Except, MatchesData;
    if |matches| == 1 {
      assert matches[0] in matches;
      SingleDoes(s, matches[0], ingress, data, now);
      assert forall k :: k in matches <==> k == matches[0];
    } else if |matches| > 1 {
      EachDoes(s, matches, ingress, now);
      OutgoingDataToPit(SatisfyEach(s, matches, ingress), data, Except(AllDownstreams(s, matches, now), ingress));
    } else {
      assert matches == [];
    }
  }
}
