/** The congestion marker of GenericLinkService: the control law of section 3.3 of RFC 8289. */
module CongestionMarking {
  import opened Wrappers

  /** Send queue length (negative when unknown) and clock at one outgoing packet. */
  datatype Reading = Reading(queueLength: int, now: nat)

  /** `next` is None for a mark time of TimePoint::max(). */
  datatype Marker = Marker(next: Option<nat>, nMarked: nat)

  const IDLE := Marker(None, 0)

  lemma MulLe(a: nat, b: nat, c: nat)
    requires b <= c
    ensures a * b <= a * c
  {
  }

  lemma SquareGrows(a: nat, b: nat, n: nat)
    requires a <= b
    ensures a * a * n <= b * b * n
  {
    MulLe(a, a, b);
    MulLe(b, a, b);
    MulLe(n, a * a, b * b);
  }

  /** The largest d <= from with d * sqrt(n) <= base. */
  function Root(base: nat, n: nat, from: nat): (d: nat)
    ensures d <= from && (d == 0 || d * d * n <= base * base)
    ensures d < from ==> (d + 1) * (d + 1) * n > base * base
  {
    if from == 0 || from * from * n <= base * base then from else Root(base, n, from - 1)
  }

  /** base / sqrt(n), rounded down. */
  function Interval(base: nat, n: nat): (d: nat)
    requires n > 0
    ensures d * d * n <= base * base < (d + 1) * (d + 1) * n
  {
    assert (base + 1) * (base + 1) * n > base * base by {
      SquareGrows(base, base + 1, n);
      assert base * base * n >= base * base;
      assert (base + 1) * (base + 1) * n == base * base * n + (2 * base + 1) * n;
      assert (2 * base + 1) * n > 0;
    }
    Root(base, n, base)
  }

  /** The marker after one outgoing packet, and whether the packet is marked. */
  function Check(m: Marker, threshold: nat, base: nat, r: Reading): (Marker, bool) {
    if r.queueLength < 0 then (m, false)
    else if r.queueLength <= threshold then (if m.next.Some? then IDLE else m, false)
    else if m.next.None? then (m.(next := Some(r.now + base)), false)
    else if r.now < m.next.value then (m, false)
    else (Marker(Some(m.next.value + Interval(base, m.nMarked + 2)), m.nMarked + 1), true)
  }

  // ---------------------------------------------------------------- incidents

  /** A congestion incident: when it began, and when packets were marked since. */
  datatype Incident = Incident(start: nat, marks: seq<nat>)

  datatype History = History(marker: Marker, incident: Option<Incident>)

  function Observe(h: History, threshold: nat, base: nat, r: Reading): History {
    var (m, marked) := Check(h.marker, threshold, base, r);
    History(m,
      if m.next.None? then None
      else if h.incident.None? then Some(Incident(r.now, []))
      else if marked then Some(h.incident.value.(marks := h.incident.value.marks + [r.now]))
      else h.incident)
  }

  function Run(threshold: nat, base: nat, rs: seq<Reading>): History {
    if rs == [] then History(IDLE, None)
    else Observe(Run(threshold, base, rs[..|rs| - 1]), threshold, base, rs[|rs| - 1])
  }

  /** Sum of Interval(base, i + 1) for i = 1 .. k. */
  function Spacing(base: nat, k: nat): nat {
    if k == 0 then 0 else Spacing(base, k - 1) + Interval(base, k + 1)
  }

  ghost predicate Scheduled(base: nat, h: History) {
    match h.incident
    case None => h.marker == IDLE
    case Some(Incident(start, marks)) =>
      && h.marker == Marker(Some(start + base + Spacing(base, |marks|)), |marks|)
      && forall k :: 0 <= k < |marks| ==> marks[k] >= start + base + Spacing(base, k)
  }

  /** In every run the k-th mark of an incident comes no sooner than one base interval and the
      shrinking intervals of the earlier marks after the incident began. */
  lemma {:induction false} MarksAreSpaced(threshold: nat, base: nat, rs: seq<Reading>)
    ensures Scheduled(base, Run(threshold, base, rs))
  {
    if rs != [] {
      MarksAreSpaced(threshold, base, rs[..|rs| - 1]);
    }
  }

  // ---------------------------------------------------------------- which packets are marked

  predicate IsAbove(threshold: nat, r: Reading) {
    r.queueLength > threshold
  }

  /** A known length at or below the threshold ends an incident; an unknown one says nothing. */
  predicate IsBelow(threshold: nat, r: Reading) {
    0 <= r.queueLength <= threshold
  }

  /** Reading i begins the incident that the readings end in: it is above the threshold, no reading after
      it is below, and one before it that was above has one below in between. */
  ghost predicate Begins(threshold: nat, rs: seq<Reading>, i: nat) {
    && i < |rs| && IsAbove(threshold, rs[i])
    && (forall j :: i < j < |rs| ==> !IsBelow(threshold, rs[j]))
    && forall j :: 0 <= j < i && IsAbove(threshold, rs[j]) ==> exists m :: j < m < i && IsBelow(threshold, rs[m])
  }

  /** Every incident has ended. */
  ghost predicate Ended(threshold: nat, rs: seq<Reading>) {
    forall j :: 0 <= j < |rs| && IsAbove(threshold, rs[j]) ==> exists m :: j < m < |rs| && IsBelow(threshold, rs[m])
  }

  /** Where the current incident began, if there is one. */
  function Beginning(threshold: nat, rs: seq<Reading>): (b: Option<nat>)
    ensures b.Some? ==> b.value < |rs|
  {
    if rs == [] then None
    else
      var n := |rs| - 1;
      var before := Beginning(threshold, rs[..n]);
      if IsBelow(threshold, rs[n]) then None
      else if before.None? && IsAbove(threshold, rs[n]) then Some(n)
      else before
  }

  lemma {:induction false} BeginningIs(threshold: nat, rs: seq<Reading>, i: nat)
    ensures Beginning(threshold, rs) == Some(i) <==> Begins(threshold, rs, i)
    ensures Beginning(threshold, rs).None? ==> Ended(threshold, rs)
  {
    if rs != [] {
      var n := |rs| - 1;
      var before := rs[..n];
      BeginningIs(threshold, before, i);
      var b := Beginning(threshold, before);
      BeginsGoesOn(threshold, rs, i);
      if b.Some? {
        BeginningIs(threshold, before, b.value);
        BeginsGoesOn(threshold, rs, b.value);
      } else if !IsBelow(threshold, rs[n]) && IsAbove(threshold, rs[n]) {
        EarlierEnded(threshold, rs);
      }
      OneBeginning(threshold, rs, i);
    }
  }

  lemma BeginsGoesOn(threshold: nat, rs: seq<Reading>, i: nat)
    requires rs != []
    ensures i < |rs| - 1 ==>
              (Begins(threshold, rs, i) <==> Begins(threshold, rs[..|rs| - 1], i) && !IsBelow(threshold, rs[|rs| - 1]))
  {
    var before := rs[..|rs| - 1];
    assert forall j :: 0 <= j < |before| ==> before[j] == rs[j];
    if i < |before| && Begins(threshold, before, i) {
      forall j | 0 <= j < i && IsAbove(threshold, rs[j]) ensures exists m :: j < m < i && IsBelow(threshold, rs[m]) {
        assert IsAbove(threshold, before[j]);
        var m :| j < m < i && IsBelow(threshold, before[m]);
        assert IsBelow(threshold, rs[m]);
      }
    }
    if i < |before| && Begins(threshold, rs, i) {
      forall j | 0 <= j < i && IsAbove(threshold, before[j]) ensures exists m :: j < m < i && IsBelow(threshold, before[m]) {
        assert IsAbove(threshold, rs[j]);
        var m :| j < m < i && IsBelow(threshold, rs[m]);
        assert IsBelow(threshold, before[m]);
      }
    }
  }

  lemma EarlierEnded(threshold: nat, rs: seq<Reading>)
    requires rs != [] && IsAbove(threshold, rs[|rs| - 1]) && Ended(threshold, rs[..|rs| - 1])
    ensures Begins(threshold, rs, |rs| - 1)
  {
    var n := |rs| - 1;
    forall j | 0 <= j < n && IsAbove(threshold, rs[j]) ensures exists m :: j < m < n && IsBelow(threshold, rs[m]) {
      assert IsAbove(threshold, rs[..n][j]);
      var m :| j < m < n && IsBelow(threshold, rs[..n][m]);
      assert IsBelow(threshold, rs[m]);
    }
  }

  lemma OneBeginning(threshold: nat, rs: seq<Reading>, i: nat)
    ensures forall j: nat :: Begins(threshold, rs, i) && Begins(threshold, rs, j) ==> i == j
  {
  }

  /** A packet is to be marked when its reading is above the threshold, in an incident that began earlier,
      and late enough after the beginning for one more mark. */
  predicate ShouldMark(threshold: nat, base: nat, rs: seq<Reading>, r: Reading) {
    && IsAbove(threshold, r) && Beginning(threshold, rs).Some?
    && r.now >= rs[Beginning(threshold, rs).value].now + base + Spacing(base, MarksSoFar(threshold, base, rs))
  }

  /** How many packets of the current incident were to be marked. */
  function MarksSoFar(threshold: nat, base: nat, rs: seq<Reading>): nat
    decreases |rs|, 0
  {
    if rs == [] || Beginning(threshold, rs).None? then 0
    else
      var n := |rs| - 1;
      var before := rs[..n];
      var b := Beginning(threshold, before);
      if b.None? then 0
      else
        MarksSoFar(threshold, base, before) +
        if IsAbove(threshold, rs[n]) && rs[n].now >= before[b.value].now + base + Spacing(base, MarksSoFar(threshold, base, before))
        then 1 else 0
  }

  /** The history of a run is told by the readings alone. */
  ghost predicate Told(threshold: nat, base: nat, rs: seq<Reading>, h: History) {
    match Beginning(threshold, rs)
    case None => h.incident.None?
    case Some(i) => h.incident.Some? && h.incident.value.start == rs[i].now && |h.incident.value.marks| == MarksSoFar(threshold, base, rs)
  }

  lemma MarkIff(threshold: nat, base: nat, rs: seq<Reading>, h: History, r: Reading)
    requires Told(threshold, base, rs, h) && Scheduled(base, h)
    ensures Check(h.marker, threshold, base, r).1 <==> ShouldMark(threshold, base, rs, r)
    ensures Told(threshold, base, rs + [r], Observe(h, threshold, base, r))
  {
    hide Spacing, Interval;
    assert (rs + [r])[..|rs|] == rs;
  }

  lemma {:induction false} RunIsTold(threshold: nat, base: nat, rs: seq<Reading>)
    ensures Told(threshold, base, rs, Run(threshold, base, rs))
  {
    hide Told, Observe;
    if rs == [] {
      NothingTold(threshold, base);
    } else {
      var n := |rs| - 1;
      RunIsTold(threshold, base, rs[..n]);
      MarksAreSpaced(threshold, base, rs[..n]);
      MarkIff(threshold, base, rs[..n], Run(threshold, base, rs[..n]), rs[n]);
      assert rs == rs[..n] + [rs[n]];
    }
  }

  lemma NothingTold(threshold: nat, base: nat)
    ensures Told(threshold, base, [], History(IDLE, None))
  {
  }

  /** In every run the marker marks exactly the packets that are to be marked. */
  lemma MarksExactly(threshold: nat, base: nat, rs: seq<Reading>, r: Reading)
    ensures Run(threshold, base, rs + [r]) == Observe(Run(threshold, base, rs), threshold, base, r)
    ensures Check(Run(threshold, base, rs).marker, threshold, base, r).1 <==> ShouldMark(threshold, base, rs, r)
  {
    hide Told, ShouldMark, Check, Observe;
    assert (rs + [r])[..|rs|] == rs;
    RunIsTold(threshold, base, rs);
    MarksAreSpaced(threshold, base, rs);
    MarkIff(threshold, base, rs, Run(threshold, base, rs), r);
  }

  // ---------------------------------------------------------------- rate bound

  /** Intervals shrink as marks accumulate. */
  lemma IntervalShrinks(base: nat, a: nat, b: nat)
    requires 0 < a <= b
    ensures Interval(base, b) <= Interval(base, a)
  {
    var d, e := Interval(base, a), Interval(base, b);
    MulLe(e * e, a, b);
    if e > d {
      SquareGrows(d + 1, e, a);
    }
  }

  lemma {:induction false} SpacingAtLeast(base: nat, k: nat, n: nat)
    requires k < n
    ensures Spacing(base, k) + k >= k * (Interval(base, n) + 1)
  {
    if k > 0 {
      SpacingAtLeast(base, k - 1, n);
      IntervalShrinks(base, k + 1, n);
      var y := Interval(base, n) + 1;
      assert k * y == (k - 1) * y + y;
    }
  }

  lemma SquareOfProduct(a: nat, y: nat, x: nat, k: nat, b: nat)
    requires x >= a * y && y * y * k >= b
    ensures x * x * k >= a * a * b
  {
    SquareGrows(a * y, x, k);
    assert (a * y) * (a * y) * k == (a * a) * (y * y * k);
    MulLe(a * a, b, y * y * k);
  }

  /** The spacing of k marks: with x the time after the first base interval plus one per mark,
      x * sqrt(k) >= (k - 1) * base. */
  lemma SpacingSquared(base: nat, k: nat)
    requires k > 0
    ensures var x := Spacing(base, k - 1) + k - 1;
            x * x * k >= (k - 1) * (k - 1) * (base * base)
  {
    var y := Interval(base, k) + 1;
    var x := Spacing(base, k - 1) + k - 1;
    SpacingAtLeast(base, k - 1, k);
    SquareOfProduct(k - 1, y, x, k, base * base);
  }

  /** The rate bound: the k-th mark of an incident comes late enough after its start that
      (elapsed - base + k - 1)^2 * k >= (k - 1)^2 * base^2. */
  lemma MarkingRateBound(threshold: nat, base: nat, rs: seq<Reading>, k: nat)
    requires var i := Run(threshold, base, rs).incident; i.Some? && 0 < k <= |i.value.marks|
    ensures var i := Run(threshold, base, rs).incident.value;
            var x := i.marks[k - 1] - i.start - base + k - 1;
            x >= 0 && x * x * k >= (k - 1) * (k - 1) * (base * base)
  {
    hide Run, Spacing;
    MarksAreSpaced(threshold, base, rs);
    var i := Run(threshold, base, rs).incident.value;
    SpacingSquared(base, k);
    SquareGrows(Spacing(base, k - 1) + k - 1, i.marks[k - 1] - i.start - base + k - 1, k);
  }
}
