/** BlockingConcurrentQueue: an unordered concurrent queue guarded by a LightweightSemaphore, as a
    state machine over the atomic steps of any number of producers and consumers. */
module BlockingQueue {
  import opened Wrappers

  /** Where a thread is inside an operation of the queue. */
  datatype Thread =
    | Outside
    | Enqueued(n: nat)                      // items are in the inner queue, not yet signalled
    | Posting(left: nat)                    // signal: counter raised, kernel posts still to do
    | Waiting(max: nat)                     // counter lowered, blocked on the kernel semaphore
    | TimedOut(max: nat)                    // the timed wait failed, counter to be corrected
    | GotOne(max: nat)                      // one token acquired, about to try for more
    | Holding(max: nat, tokens: nat, got: nat)  // dequeues one item per token

  /** `count` is the semaphore's counter, negative while threads wait; `kernel` the operating
      system semaphore. The last two fields record the run. */
  datatype State<T> = State(
    inner: multiset<T>,
    count: int,
    kernel: nat,
    threads: seq<Thread>,
    enqueued: multiset<T>,
    dequeued: multiset<T>)

  datatype Action<T> =
    | Enqueue(items: multiset<T>)           // inner.enqueue or enqueue_bulk
    | Signal                                // fetch_add on the counter
    | Post                                  // one kernel post
    | TryWait(max: nat)                     // compare-exchange that takes up to max tokens
    | FetchSub(max: nat)                    // gives up spinning
    | KernelWait                            // the kernel semaphore lets the thread through
    | Timeout                               // it does not in time
    | Withdraw                              // compare-exchange that corrects the counter
    | TakeMore                              // waitMany takes further tokens without waiting
    | Dequeue(items: multiset<T>)           // inner.try_dequeue or try_dequeue_bulk
    | Return

  ghost predicate Enabled<T(!new)>(s: State<T>, i: nat, a: Action<T>) {
    && i < |s.threads|
    && var t := s.threads[i];
       match a
       case Enqueue(_) => t.Outside?
       case Signal => t.Enqueued?
       case Post => t.Posting? && t.left > 0
       case TryWait(_) => t.Outside? && s.count > 0
       case FetchSub(max) => t.Outside? && max > 0
       case KernelWait => (t.Waiting? || t.TimedOut?) && s.kernel > 0
       case Timeout => t.Waiting?
       case Withdraw => t.TimedOut? && s.count < 0
       case TakeMore => t.GotOne? && t.max > 0
       case Dequeue(items) => t.Holding? && |items| <= t.tokens - t.got && items <= s.inner
       case Return => (t.Posting? && t.left == 0) || (t.Holding? && t.got == t.tokens)
  }

  /** The thread after acquiring one token of at most `max`. */
  function Acquired(max: nat): Thread {
    if max > 1 then GotOne(max) else Holding(1, 1, 0)
  }

  function Apply<T(!new)>(s: State<T>, i: nat, a: Action<T>): State<T>
    requires Enabled(s, i, a)
  {
    var t := s.threads[i];
    match a
    case Enqueue(items) =>
      s.(inner := s.inner + items, enqueued := s.enqueued + items, threads := s.threads[i := Enqueued(|items|)])
    case Signal =>
      var release := Min(-s.count, t.n);
      s.(count := s.count + t.n, threads := s.threads[i := Posting(if release > 0 then release else 0)])
    case Post =>
      s.(kernel := s.kernel + 1, threads := s.threads[i := Posting(t.left - 1)])
    case TryWait(max) =>
      var c := Min(s.count, max);
      s.(count := s.count - c, threads := s.threads[i := Holding(max, c, 0)])
    case FetchSub(max) =>
      s.(count := s.count - 1, threads := s.threads[i := if s.count > 0 then Acquired(max) else Waiting(max)])
    case KernelWait =>
      s.(kernel := s.kernel - 1, threads := s.threads[i := Acquired(t.max)])
    case Timeout =>
      s.(threads := s.threads[i := TimedOut(t.max)])
    case Withdraw =>
      s.(count := s.count + 1, threads := s.threads[i := Outside])
    case TakeMore =>
      var c := if s.count > 0 then Min(s.count, t.max - 1) else 0;
      s.(count := s.count - c, threads := s.threads[i := Holding(t.max, 1 + c, 0)])
    case Dequeue(items) =>
      s.(inner := s.inner - items, dequeued := s.dequeued + items, threads := s.threads[i := t.(got := t.got + |items|)])
    case Return =>
      s.(threads := s.threads[i := Outside])
  }

  // ---------------------------------------------------------------- sums over the threads

  function Sum(ts: seq<Thread>, w: Thread -> nat): nat {
    if ts == [] then 0 else Sum(ts[..|ts| - 1], w) + w(ts[|ts| - 1])
  }

  lemma {:induction false} SumUpdate(ts: seq<Thread>, i: nat, t: Thread, w: Thread -> nat)
    requires i < |ts|
    ensures Sum(ts[i := t], w) == Sum(ts, w) - w(ts[i]) + w(t)
    ensures w(ts[i]) <= Sum(ts, w)
  {
    var n := |ts| - 1;
    if i == n {
      assert ts[i := t][..n] == ts[..n];
    } else {
      assert ts[i := t][..n] == ts[..n][i := t];
      SumUpdate(ts[..n], i, t, w);
    }
  }

  /** Threads blocked on the kernel semaphore or correcting the counter. */
  function InWait(t: Thread): nat { if t.Waiting? || t.TimedOut? then 1 else 0 }

  /** Kernel posts a signaller still owes. */
  function Owed(t: Thread): nat { if t.Posting? then t.left else 0 }

  /** Items enqueued but not signalled. */
  function Unsignalled(t: Thread): nat { if t.Enqueued? then t.n else 0 }

  /** Tokens acquired for items not yet dequeued. */
  function Tokens(t: Thread): nat {
    if t.GotOne? then 1 else if t.Holding? && t.got <= t.tokens then t.tokens - t.got else 0
  }

  // ---------------------------------------------------------------- invariant

  /** The tokens a caller could still acquire: the semaphore seen as one counter. */
  function Available<T>(s: State<T>): int {
    s.count + Sum(s.threads, InWait)
  }

  /** The two-level semaphore: kernel tokens present or owed are exactly those the waiting threads
      are entitled to. */
  ghost predicate SemaphoreInv<T>(s: State<T>) {
    s.kernel + Sum(s.threads, Owed) == Sum(s.threads, InWait) + Min(s.count, 0)
  }

  /** Size of the inner queue = available tokens + unsignalled items + tokens not yet used. */
  ghost predicate QueueInv<T>(s: State<T>) {
    |s.inner| == Available(s) + Sum(s.threads, Unsignalled) + Sum(s.threads, Tokens)
  }

  /** Nothing is lost or delivered twice. */
  ghost predicate ItemInv<T>(s: State<T>) {
    s.enqueued == s.inner + s.dequeued
  }

  predicate ThreadOk(t: Thread) {
    && (t.Holding? ==> t.got <= t.tokens <= t.max && (t.tokens == 0 ==> t.max == 0))
    && (t.Waiting? || t.TimedOut? || t.GotOne? ==> t.max > 0)
  }

  ghost predicate Inv<T>(s: State<T>) {
    && SemaphoreInv(s) && QueueInv(s) && ItemInv(s)
    && forall i :: 0 <= i < |s.threads| ==> ThreadOk(s.threads[i])
  }

  lemma SumsAfter<T(!new)>(s: State<T>, i: nat, a: Action<T>, w: Thread -> nat)
    requires Enabled(s, i, a)
    ensures Sum(Apply(s, i, a).threads, w) == Sum(s.threads, w) - w(s.threads[i]) + w(Apply(s, i, a).threads[i])
    ensures w(s.threads[i]) <= Sum(s.threads, w)
  {
    SumUpdate(s.threads, i, Apply(s, i, a).threads[i], w);
  }

  lemma StepKeepsSemaphore<T(!new)>(s: State<T>, i: nat, a: Action<T>)
    requires SemaphoreInv(s) && Enabled(s, i, a)
    ensures SemaphoreInv(Apply(s, i, a))
  {
    hide Sum;
    SumsAfter(s, i, a, InWait);
    SumsAfter(s, i, a, Owed);
  }

  lemma StepKeepsQueue<T(!new)>(s: State<T>, i: nat, a: Action<T>)
    requires QueueInv(s) && Enabled(s, i, a) && ThreadOk(s.threads[i])
    ensures QueueInv(Apply(s, i, a))
  {
    hide Sum;
    SumsAfter(s, i, a, InWait);
    SumsAfter(s, i, a, Unsignalled);
    SumsAfter(s, i, a, Tokens);
  }

  lemma StepKeepsItems<T(!new)>(s: State<T>, i: nat, a: Action<T>)
    requires ItemInv(s) && Enabled(s, i, a)
    ensures ItemInv(Apply(s, i, a))
  {
  }

  lemma StepKeepsThreads<T(!new)>(s: State<T>, i: nat, a: Action<T>)
    requires Enabled(s, i, a) && forall k :: 0 <= k < |s.threads| ==> ThreadOk(s.threads[k])
    ensures forall k :: 0 <= k < |Apply(s, i, a).threads| ==> ThreadOk(Apply(s, i, a).threads[k])
  {
    assert ThreadOk(s.threads[i]);
  }

  lemma StepKeepsInv<T(!new)>(s: State<T>, i: nat, a: Action<T>)
    requires Inv(s) && Enabled(s, i, a)
    ensures Inv(Apply(s, i, a))
  {
    hide SemaphoreInv, QueueInv, ItemInv, Apply;
    StepKeepsSemaphore(s, i, a);
    assert ThreadOk(s.threads[i]);
    StepKeepsQueue(s, i, a);
    StepKeepsItems(s, i, a);
    StepKeepsThreads(s, i, a);
  }

  // ---------------------------------------------------------------- runs

  datatype Move<T> = Move(thread: nat, action: Action<T>)

  function Start<T>(n: nat): State<T> {
    State(multiset{}, 0, 0, seq(n, i => Outside), multiset{}, multiset{})
  }

  lemma {:induction false} SumOutside(n: nat, w: Thread -> nat)
    requires w(Outside) == 0
    ensures Sum(seq(n, i => Outside), w) == 0
  {
    if n > 0 {
      assert seq(n, i => Outside)[..n - 1] == seq(n - 1, i => Outside);
      SumOutside(n - 1, w);
    }
  }

  /** The moves are a run of n threads that ends in `s`. */
  ghost predicate Reaches<T(!new)>(n: nat, moves: seq<Move<T>>, s: State<T>) {
    if moves == [] then s == Start(n)
    else
      var last := moves[|moves| - 1];
      exists prev ::
        && Reaches(n, moves[..|moves| - 1], prev)
        && Enabled(prev, last.thread, last.action)
        && s == Apply(prev, last.thread, last.action)
  }

  /** Every interleaving of any number of producers and consumers keeps the invariant. */
  lemma {:induction false} RunKeepsInv<T(!new)>(n: nat, moves: seq<Move<T>>, s: State<T>)
    requires Reaches(n, moves, s)
    ensures Inv(s)
    decreases |moves|
  {
    hide Apply, Enabled;
    if moves == [] {
      SumOutside(n, InWait);
      SumOutside(n, Owed);
      SumOutside(n, Unsignalled);
      SumOutside(n, Tokens);
    } else {
      var last := moves[|moves| - 1];
      var prev :| && Reaches(n, moves[..|moves| - 1], prev)
                  && Enabled(prev, last.thread, last.action)
                  && s == Apply(prev, last.thread, last.action);
      RunKeepsInv(n, moves[..|moves| - 1], prev);
      StepKeepsInv(prev, last.thread, last.action);
    }
  }

  /** A consumer that spins after acquiring tokens always has items to find, as many as it still needs. */
  lemma SpinnerFinds<T(!new)>(n: nat, moves: seq<Move<T>>, s: State<T>, i: nat)
    requires Reaches(n, moves, s) && i < |s.threads| && s.threads[i].Holding?
    ensures |s.inner| >= s.threads[i].tokens - s.threads[i].got
    ensures s.threads[i].got < s.threads[i].tokens ==> exists x :: x in s.inner
  {
    RunKeepsInv(n, moves, s);
    assert ThreadOk(s.threads[i]);
    SumUpdate(s.threads, i, s.threads[i], Tokens);
    if s.threads[i].got < s.threads[i].tokens {
      assert s.inner != multiset{};
      var x :| x in s.inner;
    }
  }

  /** A call that acquired tokens, at least one and no more than it asked for, can always dequeue
      another item until it has one for each token, and returns just then. */
  lemma BulkReturnsTokens<T(!new)>(n: nat, moves: seq<Move<T>>, s: State<T>, i: nat)
    requires Reaches(n, moves, s) && i < |s.threads| && s.threads[i].Holding?
    ensures s.threads[i].got <= s.threads[i].tokens <= s.threads[i].max
    ensures s.threads[i].max > 0 ==> s.threads[i].tokens > 0
    ensures s.threads[i].got < s.threads[i].tokens ==> exists x :: Enabled(s, i, Dequeue(multiset{x}))
    ensures Enabled(s, i, Return) <==> !exists x :: Enabled(s, i, Dequeue(multiset{x}))
  {
    RunKeepsInv(n, moves, s);
    assert ThreadOk(s.threads[i]);
    SpinnerFinds(n, moves, s, i);
    if s.threads[i].got < s.threads[i].tokens {
      var x :| x in s.inner;
      assert Enabled(s, i, Dequeue(multiset{x}));
    }
  }

  /** No wake-up is lost: while a thread waits and a token is available, a kernel token is present or
      a signaller is about to post one. */
  lemma NoLostWakeup<T(!new)>(n: nat, moves: seq<Move<T>>, s: State<T>, i: nat)
    requires Reaches(n, moves, s) && i < |s.threads| && s.threads[i].Waiting? && Available(s) > 0
    ensures s.kernel + Sum(s.threads, Owed) > 0
  {
    RunKeepsInv(n, moves, s);
    SumUpdate(s.threads, i, s.threads[i], InWait);
  }

  /** When no operation is in progress, the counter is the number of items and the kernel
      semaphore is back at zero. */
  lemma Quiescent<T(!new)>(n: nat, moves: seq<Move<T>>, s: State<T>)
    requires Reaches(n, moves, s) && forall i :: 0 <= i < |s.threads| ==> s.threads[i].Outside?
    ensures s.count == |s.inner| && s.kernel == 0
    ensures s.enqueued == s.inner + s.dequeued
  {
    RunKeepsInv(n, moves, s);
    assert s.threads == seq(|s.threads|, i => Outside);
    SumOutside(|s.threads|, InWait);
    SumOutside(|s.threads|, Owed);
    SumOutside(|s.threads|, Unsignalled);
    SumOutside(|s.threads|, Tokens);
  }

  lemma {:induction false} SumZero(ts: seq<Thread>, w: Thread -> nat)
    requires forall i :: 0 <= i < |ts| ==> w(ts[i]) == 0
    ensures Sum(ts, w) == 0
  {
    if ts != [] {
      SumZero(ts[..|ts| - 1], w);
    }
  }

  /** Consumers stay blocked only while there is nothing to dequeue: when all threads are outside or
      wait, and no kernel token lets any of them through, the queue is empty. */
  lemma BlockedMeansEmpty<T(!new)>(n: nat, moves: seq<Move<T>>, s: State<T>, i: nat)
    requires Reaches(n, moves, s) && s.kernel == 0 && i < |s.threads| && s.threads[i].Waiting?
    requires forall k :: 0 <= k < |s.threads| ==> s.threads[k].Outside? || s.threads[k].Waiting?
    ensures s.inner == multiset{} && s.enqueued == s.dequeued
  {
    hide Reaches, Sum;
    RunKeepsInv(n, moves, s);
    SumUpdate(s.threads, i, s.threads[i], InWait);
    SumZero(s.threads, Owed);
    SumZero(s.threads, Unsignalled);
    SumZero(s.threads, Tokens);
    assert |s.inner| == 0;
  }

  /** A timed-out consumer gets away: it can correct the counter, or a token is there or on its way. */
  lemma TimeoutEnds<T(!new)>(n: nat, moves: seq<Move<T>>, s: State<T>, i: nat)
    requires Reaches(n, moves, s) && i < |s.threads| && s.threads[i].TimedOut?
    ensures Enabled(s, i, Withdraw) || s.kernel + Sum(s.threads, Owed) > 0
  {
    RunKeepsInv(n, moves, s);
    SumUpdate(s.threads, i, s.threads[i], InWait);
  }

  /** Acquiring many is greedy: it stops at the number asked for, or with no token left. */
  lemma AcquiresGreedily<T(!new)>(n: nat, moves: seq<Move<T>>, s: State<T>, i: nat, a: Action<T>)
    requires Reaches(n, moves, s) && Enabled(s, i, a) && (a.TryWait? || a.TakeMore?)
    ensures var s' := Apply(s, i, a);
            var t := s'.threads[i];
            && t.Holding? && t.max == (if a.TryWait? then a.max else s.threads[i].max)
            && t.tokens == (s.count - s'.count) + (if a.TakeMore? then 1 else 0)
            && (t.tokens == t.max || s'.count <= 0)
  {
    RunKeepsInv(n, moves, s);
    assert ThreadOk(s.threads[i]);
  }
}
