/** The filter for repeated Sequences in LpReliability: a map from recently received Sequences to the
    time of receipt, and a queue that decides when to forget them. */
module DuplicateFilterModel {
  import opened Sequence64

  /** A received fragment: its Sequence, the clock, and the RTO estimate at that time. */
  datatype Packet = Packet(sequence: Seq64, now: nat, rto: nat)

  datatype Filter = Filter(recent: map<Seq64, nat>, queue: seq<Seq64>)

  const EMPTY_FILTER := Filter(map[], [])

  /** `m_recentRecvSeqs[key]` inserts the clock's epoch when the key is absent. */
  function Touch(recent: map<Seq64, nat>, key: Seq64): (r: map<Seq64, nat>)
    ensures key in r
  {
    if key in recent then recent else recent[key := 0]
  }

  /** Forgets Sequences from the front of the queue while their time is more than one RTO ago. */
  function Purge(f: Filter, now: nat, rto: nat): Filter
    decreases |f.queue|
  {
    if f.queue == [] then f
    else
      var front := f.queue[0];
      var recent := Touch(f.recent, front);
      if now > recent[front] + rto then Purge(Filter(recent - {front}, f.queue[1..]), now, rto)
      else Filter(recent, f.queue)
  }

  /** The filter after a packet. A repeat is queued again but keeps its time. */
  function Receive(f: Filter, p: Packet): Filter {
    var g := Purge(f, p.now, p.rto);
    Filter(if p.sequence in g.recent then g.recent else g.recent[p.sequence := p.now], g.queue + [p.sequence])
  }

  function Run(ps: seq<Packet>): Filter {
    if ps == [] then EMPTY_FILTER else Receive(Run(ps[..|ps| - 1]), ps[|ps| - 1])
  }

  /** Whether the n-th packet is reported as a duplicate. */
  predicate Flagged(ps: seq<Packet>, n: nat)
    requires n < |ps|
  {
    ps[n].sequence in Run(ps[..n]).recent
  }

  /** Every remembered Sequence is queued, and the front of the queue is remembered, even though
      repeats leave Sequences in the queue that are no longer remembered. */
  predicate Consistent(f: Filter) {
    && (forall s :: s in f.recent ==> s in f.queue)
    && (f.queue != [] ==> f.queue[0] in f.recent)
  }

  /** Forgetting never invents a Sequence: what the loop inserts by looking it up, it erases again. */
  lemma {:induction false} PurgeKeepsConsistent(f: Filter, now: nat, rto: nat)
    requires forall s :: s in f.recent ==> s in f.queue
    requires f.queue == [] || f.queue[0] in f.recent || now > rto
    ensures Consistent(Purge(f, now, rto))
    ensures forall s :: s in Purge(f, now, rto).recent ==> s in f.recent && Purge(f, now, rto).recent[s] == f.recent[s]
    decreases |f.queue|
  {
    if f.queue != [] {
      var front := f.queue[0];
      var recent := Touch(f.recent, front);
      if now > recent[front] + rto {
        var g := Filter(recent - {front}, f.queue[1..]);
        assert forall s :: s in g.recent ==> s in f.queue && s != front;
        PurgeKeepsConsistent(g, now, rto);
      }
    }
  }

  /** A Sequence is forgotten only when its time is more than one RTO ago. */
  lemma {:induction false} PurgeKeepsRecent(f: Filter, now: nat, rto: nat, s: Seq64)
    requires s in f.recent && now <= f.recent[s] + rto
    ensures s in Purge(f, now, rto).recent && Purge(f, now, rto).recent[s] == f.recent[s]
    decreases |f.queue|
  {
    if f.queue != [] {
      var front := f.queue[0];
      var recent := Touch(f.recent, front);
      if now > recent[front] + rto {
        PurgeKeepsRecent(Filter(recent - {front}, f.queue[1..]), now, rto, s);
      }
    }
  }

  lemma ReceiveKeepsConsistent(f: Filter, p: Packet)
    requires Consistent(f)
    ensures Consistent(Receive(f, p))
  {
    PurgeKeepsConsistent(f, p.now, p.rto);
    var g := Purge(f, p.now, p.rto);
    assert p.sequence in g.queue + [p.sequence];
  }

  /** In every run the map and the queue stay consistent, and only received Sequences are remembered. */
  lemma {:induction false} RunConsistent(ps: seq<Packet>)
    ensures Consistent(Run(ps))
    ensures forall s :: s in Run(ps).recent ==> exists i :: 0 <= i < |ps| && ps[i].sequence == s
  {
    if ps != [] {
      var n := |ps| - 1;
      RunConsistent(ps[..n]);
      var f := Run(ps[..n]);
      ReceiveKeepsConsistent(f, ps[n]);
      PurgeKeepsConsistent(f, ps[n].now, ps[n].rto);
      forall s | s in Run(ps).recent ensures exists i :: 0 <= i < |ps| && ps[i].sequence == s {
        if s == ps[n].sequence {
          assert ps[n].sequence == s;
        } else {
          var i :| 0 <= i < n && ps[..n][i].sequence == s;
          assert ps[i].sequence == s;
        }
      }
    }
  }

  /** A Sequence that was not received before is never reported. */
  lemma NewIsNotFlagged(ps: seq<Packet>, n: nat)
    requires n < |ps| && Flagged(ps, n)
    ensures exists i :: 0 <= i < n && ps[i].sequence == ps[n].sequence
  {
    RunConsistent(ps[..n]);
    var i :| 0 <= i < n && ps[..n][i].sequence == ps[n].sequence;
    assert ps[i].sequence == ps[n].sequence;
  }

  lemma NewIsRemembered(f: Filter, p: Packet)
    requires Consistent(f) && p.sequence !in f.recent
    ensures p.sequence in Receive(f, p).recent && Receive(f, p).recent[p.sequence] == p.now
  {
    hide Purge;
    PurgeKeepsConsistent(f, p.now, p.rto);
  }

  lemma RecentStays(f: Filter, p: Packet, s: Seq64)
    requires s in f.recent && p.now <= f.recent[s] + p.rto
    ensures s in Receive(f, p).recent && Receive(f, p).recent[s] == f.recent[s]
  {
    hide Purge;
    PurgeKeepsRecent(f, p.now, p.rto, s);
  }

  /** A Sequence first received at i is remembered with that time until some packet is processed
      more than one RTO later. */
  lemma {:induction false} Remembered(ps: seq<Packet>, i: nat, n: nat)
    requires i < n <= |ps| && !Flagged(ps, i)
    requires forall j :: i < j < n ==> ps[j].now <= ps[i].now + ps[j].rto
    ensures ps[i].sequence in Run(ps[..n]).recent && Run(ps[..n]).recent[ps[i].sequence] == ps[i].now
    decreases n
  {
    hide Purge, Receive;
    var k := n - 1;
    assert ps[..n][..k] == ps[..k] && ps[..n][k] == ps[k];
    var f := Run(ps[..k]);
    if k == i {
      RunConsistent(ps[..k]);
      NewIsRemembered(f, ps[k]);
    } else {
      Remembered(ps, i, k);
      RecentStays(f, ps[k], ps[i].sequence);
    }
  }

  /** A repeat of a Sequence first received at i is reported, unless some packet in between was
      processed later than that receipt plus the RTO at that time. */
  lemma RepeatIsFlagged(ps: seq<Packet>, i: nat, n: nat)
    requires i < n < |ps| && ps[i].sequence == ps[n].sequence && !Flagged(ps, i)
    ensures Flagged(ps, n) || exists j :: i < j < n && ps[j].now > ps[i].now + ps[j].rto
  {
    if forall j :: i < j < n ==> ps[j].now <= ps[i].now + ps[j].rto {
      Remembered(ps, i, n);
    }
  }

  // ---------------------------------------------------------------- forgetting

  ghost predicate InOrder(recent: map<Seq64, nat>, a: Seq64, b: Seq64) {
    a != b && a in recent && b in recent && recent[a] <= recent[b]
  }

  /** The queue lists exactly the remembered Sequences, each once, in order of their times. */
  ghost predicate Ordered(f: Filter) {
    && (forall s :: s in f.recent <==> s in f.queue)
    && (forall i, j :: 0 <= i < j < |f.queue| ==> InOrder(f.recent, f.queue[i], f.queue[j]))
  }

  lemma OrderedTail(f: Filter)
    requires Ordered(f) && f.queue != []
    ensures Ordered(Filter(f.recent - {f.queue[0]}, f.queue[1..]))
  {
    var front, later := f.queue[0], f.queue[1..];
    var recent := f.recent - {front};
    forall i, j | 0 <= i < j < |later| ensures InOrder(recent, later[i], later[j]) {
      assert InOrder(f.recent, f.queue[i + 1], f.queue[j + 1]);
      assert InOrder(f.recent, front, f.queue[i + 1]) && InOrder(f.recent, front, f.queue[j + 1]);
    }
    forall s ensures s in recent <==> s in later {
      if s in later {
        var i :| 0 <= i < |later| && later[i] == s;
        assert InOrder(f.recent, front, f.queue[i + 1]);
      }
    }
  }

  /** Of an ordered queue exactly those are forgotten whose time is more than one RTO ago. */
  lemma {:induction false} PurgeForgets(f: Filter, now: nat, rto: nat)
    requires Ordered(f)
    ensures Ordered(Purge(f, now, rto))
    ensures forall s :: s in Purge(f, now, rto).recent <==> s in f.recent && now <= f.recent[s] + rto
    ensures forall s :: s in Purge(f, now, rto).recent ==> Purge(f, now, rto).recent[s] == f.recent[s]
    decreases |f.queue|
  {
    if f.queue != [] {
      var front := f.queue[0];
      if now > f.recent[front] + rto {
        OrderedTail(f);
        PurgeForgets(Filter(f.recent - {front}, f.queue[1..]), now, rto);
      } else {
        forall s | s in f.recent ensures now <= f.recent[s] + rto {
          var i :| 0 <= i < |f.queue| && f.queue[i] == s;
          assert i > 0 ==> InOrder(f.recent, f.queue[0], f.queue[i]);
        }
      }
    }
  }

  /** The clock does not run backwards and no Sequence comes twice. */
  ghost predicate IsPlain(ps: seq<Packet>) {
    forall i, j :: 0 <= i < j < |ps| ==> ps[i].now <= ps[j].now && ps[i].sequence != ps[j].sequence
  }

  /** No packet after the i-th was processed later than its receipt plus the RTO at that time. */
  ghost predicate IsInTime(ps: seq<Packet>, i: nat)
    requires i < |ps|
  {
    forall j :: i < j < |ps| ==> ps[j].now <= ps[i].now + ps[j].rto
  }

  lemma InTimeNext(ps: seq<Packet>, i: nat)
    requires i < |ps| - 1
    ensures var n := |ps| - 1;
            IsInTime(ps, i) <==> IsInTime(ps[..n], i) && ps[n].now <= ps[i].now + ps[n].rto
  {
    var n := |ps| - 1;
    assert forall j :: 0 <= j < n ==> ps[..n][j] == ps[j];
    if IsInTime(ps[..n], i) && ps[n].now <= ps[i].now + ps[n].rto {
      forall j | i < j < |ps| ensures ps[j].now <= ps[i].now + ps[j].rto {
        if j < n {
          assert ps[..n][j] == ps[j];
        }
      }
    }
  }

  lemma OrderedNext(f: Filter, p: Packet)
    requires Ordered(f) && p.sequence !in f.recent && forall s :: s in f.recent ==> f.recent[s] <= p.now
    ensures Ordered(Filter(f.recent[p.sequence := p.now], f.queue + [p.sequence]))
  {
    var g := Filter(f.recent[p.sequence := p.now], f.queue + [p.sequence]);
    forall i, j | 0 <= i < j < |g.queue|
      ensures InOrder(g.recent, g.queue[i], g.queue[j])
    {
      assert g.queue[i] == f.queue[i] && f.queue[i] in f.queue;
      if j < |f.queue| {
        assert InOrder(f.recent, f.queue[i], f.queue[j]);
      }
    }
  }

  /** The i-th Sequence is remembered, with its time of receipt, exactly while it is in time. */
  ghost predicate Tells(ps: seq<Packet>, f: Filter) {
    && (forall i :: 0 <= i < |ps| ==> (ps[i].sequence in f.recent <==> IsInTime(ps, i)))
    && (forall i :: 0 <= i < |ps| && ps[i].sequence in f.recent ==> f.recent[ps[i].sequence] == ps[i].now)
    && (forall s :: s in f.recent ==> exists i :: 0 <= i < |ps| && ps[i].sequence == s)
  }

  lemma ReceiveTells(ps: seq<Packet>, f: Filter)
    requires ps != [] && IsPlain(ps) && Ordered(f) && Tells(ps[..|ps| - 1], f)
    ensures Ordered(Receive(f, ps[|ps| - 1])) && Tells(ps, Receive(f, ps[|ps| - 1]))
  {
    hide Purge, Ordered, IsInTime;
    var n := |ps| - 1;
    var p, before := ps[n], ps[..n];
    var g := Purge(f, p.now, p.rto);
    PurgeForgets(f, p.now, p.rto);
    forall s | s in f.recent ensures s != p.sequence && f.recent[s] <= p.now {
      var i :| 0 <= i < n && before[i].sequence == s;
      assert ps[i] == before[i];
    }
    OrderedNext(g, p);
    var h := Receive(f, p);
    forall i | 0 <= i < |ps|
      ensures ps[i].sequence in h.recent <==> IsInTime(ps, i)
      ensures ps[i].sequence in h.recent ==> h.recent[ps[i].sequence] == ps[i].now
    {
      if i < n {
        assert before[i] == ps[i];
        InTimeNext(ps, i);
      } else {
        LastInTime(ps);
      }
    }
    forall s | s in h.recent ensures exists i :: 0 <= i < |ps| && ps[i].sequence == s {
      if s == p.sequence {
        assert ps[n].sequence == s;
      } else {
        var i :| 0 <= i < n && before[i].sequence == s;
        assert ps[i].sequence == s;
      }
    }
  }

  lemma LastInTime(ps: seq<Packet>)
    requires ps != []
    ensures IsInTime(ps, |ps| - 1)
  {
  }

  lemma {:induction false} RunTells(ps: seq<Packet>)
    requires IsPlain(ps)
    ensures Ordered(Run(ps)) && Tells(ps, Run(ps))
  {
    hide Ordered, Tells, Receive;
    if ps == [] {
      NothingToTell();
    } else {
      RunTells(ps[..|ps| - 1]);
      ReceiveTells(ps, Run(ps[..|ps| - 1]));
    }
  }

  lemma NothingToTell()
    ensures Ordered(EMPTY_FILTER) && Tells([], EMPTY_FILTER)
  {
  }

  /** The first repeat after packets with different Sequences is reported if and only if no packet since
      the first receipt was processed later than that receipt plus the RTO at that time. */
  lemma FirstRepeatIff(ps: seq<Packet>, i: nat, n: nat)
    requires i < n < |ps| && ps[i].sequence == ps[n].sequence && IsPlain(ps[..n])
    ensures Flagged(ps, n) <==> forall j :: i < j < n ==> ps[j].now <= ps[i].now + ps[j].rto
  {
    RunTells(ps[..n]);
    assert ps[..n][i] == ps[i];
    assert forall j :: 0 <= j < n ==> ps[..n][j] == ps[j];
    if forall j :: i < j < n ==> ps[j].now <= ps[i].now + ps[j].rto {
      assert IsInTime(ps[..n], i);
    }
  }

  class DuplicateFilter {
    var recentRecvSeqs: map<Seq64, nat>
    var recentRecvSeqsQueue: seq<Seq64>

    constructor ()
      ensures Filter(recentRecvSeqs, recentRecvSeqsQueue) == EMPTY_FILTER
    {
      recentRecvSeqs, recentRecvSeqsQueue := map[], [];
    }

    /** The part of processIncomingPacket that looks for repeated Sequences. */
    method Process(p: Packet) returns (isDuplicate: bool)
      modifies this
      ensures isDuplicate <==> p.sequence in old(recentRecvSeqs)
      ensures Filter(recentRecvSeqs, recentRecvSeqsQueue) == Receive(old(Filter(recentRecvSeqs, recentRecvSeqsQueue)), p)
    {
      isDuplicate := p.sequence in recentRecvSeqs;
      while |recentRecvSeqsQueue| > 0
        invariant Purge(Filter(recentRecvSeqs, recentRecvSeqsQueue), p.now, p.rto) ==
                  Purge(old(Filter(recentRecvSeqs, recentRecvSeqsQueue)), p.now, p.rto)
        decreases |recentRecvSeqsQueue|
      {
        var front := recentRecvSeqsQueue[0];
        recentRecvSeqs := Touch(recentRecvSeqs, front);
        if !(p.now > recentRecvSeqs[front] + p.rto) {
          break;
        }
        recentRecvSeqs := recentRecvSeqs - {front};
        recentRecvSeqsQueue := recentRecvSeqsQueue[1..];
      }
      if p.sequence !in recentRecvSeqs {
        recentRecvSeqs := recentRecvSeqs[p.sequence := p.now];
      }
      recentRecvSeqsQueue := recentRecvSeqsQueue + [p.sequence];
    }
  }
}
