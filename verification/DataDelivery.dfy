/** Where incoming Data goes. */
module DataDelivery {
  import opened Wrappers
  import opened Faces
  import opened PitRecords
  import opened Forwarding

  /** The packets that send the Data to each of the faces. */
  function Packets(data: Data, fs: seq<Face>): seq<Packet> {
    if fs == [] then [] else Packets(data, fs[..|fs| - 1]) + DataPackets(data, fs[|fs| - 1])
  }

  /** A downstream of the entry that waits for Data. */
  ghost predicate Waits(ins: seq<FaceRecord>, f: Face, now: Time) {
    exists i :: 0 <= i < |ins| && ins[i].face == f && ins[i].expiry > now
  }

  lemma {:induction false} DownstreamsAre(fs: seq<Face>, ins: seq<FaceRecord>, now: Time, f: Face)
    requires NoRepeats(fs)
    ensures NoRepeats(Downstreams(fs, ins, now))
    ensures f in Downstreams(fs, ins, now) <==> f in fs || Waits(ins, f, now)
  {
    if ins != [] {
      var n := |ins| - 1;
      DownstreamsAre(fs, ins[..n], now, f);
      assert ins == ins[..n] + [ins[n]];
      assert Waits(ins, f, now) <==> Waits(ins[..n], f, now) || (ins[n].face == f && Pending(ins[n], now)) by {
        if Waits(ins[..n], f, now) {
          var i :| 0 <= i < n && ins[..n][i].face == f && ins[..n][i].expiry > now;
          assert ins[i].face == f;
        }
      }
    }
  }

  lemma {:induction false} ExceptIs(fs: seq<Face>, ingress: Face, f: Face)
    requires NoRepeats(fs)
    ensures NoRepeats(Except(fs, ingress))
    ensures f in Except(fs, ingress) <==> f in fs && GoesTo(f, ingress)
  {
    if fs != [] {
      var n := |fs| - 1;
      ExceptIs(fs[..n], ingress, f);
      ExceptIs(fs[..n], ingress, fs[n]);
      assert fs == fs[..n] + [fs[n]];
      assert fs[n] !in fs[..n];
    }
  }

  lemma {:induction false} AllDownstreamsAre(s: State, matches: seq<Key>, now: Time, f: Face)
    requires forall k :: k in matches ==> k in s.pit
    ensures NoRepeats(AllDownstreams(s, matches, now))
    ensures f in AllDownstreams(s, matches, now) <==> exists k :: k in matches && Waits(s.pit[k].ins, f, now)
  {
    if matches != [] {
      var n := |matches| - 1;
      assert matches == matches[..n] + [matches[n]];
      AllDownstreamsAre(s, matches[..n], now, f);
      DownstreamsAre(AllDownstreams(s, matches[..n], now), s.pit[matches[n]].ins, now, f);
    }
  }

  lemma {:induction false} SendDataToSends(s: State, k: Key, data: Data, fs: seq<Face>)
    requires k in s.pit
    ensures SendDataTo(s, k, data, fs).sent == s.sent + Packets(data, fs)
  {
    if fs != [] {
      SendDataToSends(s, k, data, fs[..|fs| - 1]);
    }
  }

  lemma {:induction false} OutgoingDataToSends(s: State, data: Data, fs: seq<Face>)
    ensures OutgoingDataTo(s, data, fs).sent == s.sent + Packets(data, fs)
  {
    if fs != [] {
      OutgoingDataToSends(s, data, fs[..|fs| - 1]);
    }
  }

  lemma {:induction false} SatisfyEachSendsNothing(s: State, matches: seq<Key>, ingress: Face)
    requires forall k :: k in matches ==> k in s.pit
    ensures SatisfyEach(s, matches, ingress).sent == s.sent
  {
    if matches != [] {
      SatisfyEachSendsNothing(s, matches[..|matches| - 1], ingress);
    }
  }

  /** The faces that Data satisfying the given entries is sent to: those that wait, except the one it came
      from unless that is ad hoc. */
  ghost predicate AreDownstreams(s: State, ingress: Face, now: Time, matches: seq<Key>, fs: seq<Face>)
    requires forall k :: k in matches ==> k in s.pit
  {
    && NoRepeats(fs)
    && forall f :: f in fs <==> (f.id != ingress.id || f.link == AdHoc) && exists k :: k in matches && Waits(s.pit[k].ins, f, now)
  }

  /** Data reaches every downstream that waits for it in some matching entry, each exactly once and
      no other face, whether one entry matches or several. */
  lemma DataReachesDownstreamsOnce(s: State, ingress: Face, data: Data, now: Time, matches: seq<Key>) returns (fs: seq<Face>)
    requires IsMatchList(s, data, matches) && (ingress.local || !(LOCALHOST <= data.name))
    ensures AreDownstreams(s, ingress, now, matches, fs)
    ensures IncomingData(s, ingress, data, now, matches).sent == s.sent + Packets(data, fs)
  {
    var all := AllDownstreams(s, matches, now);
    fs := Except(all, ingress);
    AllDownstreamsAre(s, matches, now, ingress);
    ExceptIs(all, ingress, ingress);
    forall f ensures f in fs <==> GoesTo(f, ingress) && exists k :: k in matches && Waits(s.pit[k].ins, f, now) {
      AllDownstreamsAre(s, matches, now, f);
      ExceptIs(all, ingress, f);
    }
    SentIs(s, ingress, data, now, matches);
  }

  lemma SentIs(s: State, ingress: Face, data: Data, now: Time, matches: seq<Key>)
    requires (forall k :: k in matches ==> k in s.pit) && (ingress.local || !(LOCALHOST <= data.name))
    ensures IncomingData(s, ingress, data, now, matches).sent
            == s.sent + Packets(data, Except(AllDownstreams(s, matches, now), ingress))
  {
    hide SatisfyEach, OutgoingDataTo, SendDataTo, Downstreams;
    if |matches| == 1 {
      var k := matches[0];
      assert matches[..0] == [];
      var s1 := SetTimer(s, k);
      SendDataToSends(s1, k, data, Except(Downstreams([], s1.pit[k].ins, now), ingress));
    } else if |matches| > 1 {
      SatisfyEachSendsNothing(s, matches, ingress);
      OutgoingDataToSends(SatisfyEach(s, matches, ingress), data, Except(AllDownstreams(s, matches, now), ingress));
    }
  }
}
