/** Iteration over the map of unacknowledged fragments in key order, and the iterator at the first
    unacknowledged fragment of a window that can wrap around. */
module SendWindow {
  import opened Sequence64

  /** An iterator into a std::map keyed by TxSequence. */
  datatype Iter = At(key: Seq64) | End

  ghost predicate IsLeast(keys: set<Seq64>, k: Seq64) {
    k in keys && forall s :: s in keys ==> k <= s
  }

  lemma {:induction false} HasLeast(keys: set<Seq64>) returns (k: Seq64)
    requires keys != {}
    ensures IsLeast(keys, k)
    decreases keys
  {
    k :| k in keys;
    var rest := keys - {k};
    if rest != {} {
      var r := HasLeast(rest);
      assert forall s :: s in keys ==> s == k || s in rest;
      k := if k < r then k else r;
    } else {
      assert forall s :: s in keys ==> s == k || s in rest;
    }
  }

  /** The key at begin(). */
  function Begin(keys: set<Seq64>): (k: Seq64)
    requires keys != {}
    ensures k in keys && forall s :: s in keys ==> k <= s
  {
    assert exists k :: IsLeast(keys, k) by {
      var k := HasLeast(keys);
    }
    var k :| k in keys && forall s :: s in keys ==> k <= s;
    k
  }

  /** The iterator after position `s`. */
  function After(keys: set<Seq64>, s: Seq64): (it: Iter)
    ensures it.End? <==> forall x :: x in keys ==> x <= s
    ensures it.At? ==> it.key in keys && s < it.key && forall x :: x in keys && s < x ==> it.key <= x
  {
    var above := set x | x in keys && s < x;
    assert forall x :: x in keys && s < x ==> x in above;
    if above == {} then End else At(Begin(above))
  }

  /** The position after `s`, going on from begin() when the end is reached. */
  function Around(keys: set<Seq64>, s: Seq64): (k: Seq64)
    requires keys != {}
    ensures k in keys
    ensures k != s ==> forall x :: x in keys && x != s ==> Dist(s, k) <= Dist(s, x)
    ensures k == s ==> forall x :: x in keys ==> x == s
  {
    match After(keys, s)
    case At(k) => k
    case End => Begin(keys)
  }

  /** `first` points to the key furthest behind `last`, and to the end only when there is none. */
  ghost predicate IsFirst(first: Iter, keys: set<Seq64>, last: Seq64) {
    match first
    case End => keys == {}
    case At(k) => k in keys && forall s :: s in keys ==> Dist(s, last) <= Dist(k, last)
  }

  /** One comparison with the first key decides whether the next number is free. */
  lemma OneTestIsEnough(first: Iter, keys: set<Seq64>, last: Seq64)
    requires IsFirst(first, keys, last)
    ensures Next(last) in keys <==> first == At(Next(last))
  {
    if Next(last) in keys {
      assert Dist(Next(last), last) == MOD - 1;
      assert first.At? && Dist(first.key, last) == MOD - 1;
    }
  }

  lemma AssignKeepsFirst(first: Iter, keys: set<Seq64>, last: Seq64)
    requires IsFirst(first, keys, last) && Next(last) !in keys
    ensures IsFirst(first, keys, Next(last))
    ensures keys != {} ==> IsFirst(first, keys + {Next(last)}, Next(last))
  {
    forall s | s in keys ensures Dist(s, Next(last)) == Dist(s, last) + 1 {
    }
  }

  /** Erasing the first key moves the iterator to the next one around the circle. */
  lemma EraseKeepsFirst(k: Seq64, keys: set<Seq64>, last: Seq64)
    requires IsFirst(At(k), keys, last) && keys - {k} != {}
    ensures IsFirst(At(Around(keys - {k}, k)), keys - {k}, last)
  {
    var n := Around(keys - {k}, k);
    forall s | s in keys - {k} ensures Dist(s, last) <= Dist(n, last) {
      assert Dist(k, n) <= Dist(k, s);
      assert Dist(s, last) <= Dist(k, last);
    }
  }
}
