/** Paths along a relation, and the least set closed under it: the independent meaning of the
    worklist loops in the complete-root oracle. */
module Reachability {
  import opened Order

  ghost predicate Path<T(!new)>(step: (T, T) -> bool, p: seq<T>) {
    p != [] && forall i :: 0 <= i < |p| - 1 ==> step(p[i], p[i + 1])
  }

  /** `y` ends a path, possibly of length zero, that starts at a seed. */
  ghost predicate Reaches<T(!new)>(step: (T, T) -> bool, seeds: set<T>, y: T) {
    exists p: seq<T> :: Path(step, p) && p[0] in seeds && p[|p| - 1] == y
  }

  /** Every step from `x` stays in `xs`. */
  ghost predicate Expanded<T(!new)>(step: (T, T) -> bool, x: T, xs: set<T>) {
    forall y :: step(x, y) ==> y in xs
  }

  ghost predicate Closed<T(!new)>(step: (T, T) -> bool, xs: set<T>) {
    forall x :: x in xs ==> Expanded(step, x, xs)
  }

  lemma SeedReached<T(!new)>(step: (T, T) -> bool, seeds: set<T>, x: T)
    requires x in seeds
    ensures Reaches(step, seeds, x)
  {
    assert Path(step, [x]) && [x][0] in seeds && [x][|[x]| - 1] == x;
  }

  lemma StepReached<T(!new)>(step: (T, T) -> bool, seeds: set<T>, x: T, y: T)
    requires Reaches(step, seeds, x) && step(x, y)
    ensures Reaches(step, seeds, y)
  {
    var p: seq<T> :| Path(step, p) && p[0] in seeds && p[|p| - 1] == x;
    var q := p + [y];
    assert Path(step, q) && q[0] in seeds && q[|q| - 1] == y;
  }

  /** A closed set that holds the seeds holds everything reached from them. */
  lemma ClosedHoldsReached<T(!new)>(step: (T, T) -> bool, seeds: set<T>, xs: set<T>, y: T)
    requires seeds <= xs && Closed(step, xs) && Reaches(step, seeds, y)
    ensures y in xs
  {
    var p: seq<T> :| Path(step, p) && p[0] in seeds && p[|p| - 1] == y;
    PathStays(step, p, xs);
  }

  lemma {:induction false} PathStays<T(!new)>(step: (T, T) -> bool, p: seq<T>, xs: set<T>)
    requires Path(step, p) && p[0] in xs && Closed(step, xs)
    ensures p[|p| - 1] in xs
    decreases |p|
  {
    if |p| > 1 {
      assert step(p[0], p[1]);
      forall i | 0 <= i < |p[1..]| - 1 ensures step(p[1..][i], p[1..][i + 1]) { assert step(p[i + 1], p[i + 2]); }
      PathStays(step, p[1..], xs);
    }
  }

  /** A visited set that holds the seeds, is closed, and holds nothing unreached is the closure. */
  lemma ClosureExact<T(!new)>(step: (T, T) -> bool, seeds: set<T>, xs: set<T>)
    requires seeds <= xs && Closed(step, xs)
    requires forall x :: x in xs ==> Reaches(step, seeds, x)
    ensures forall x :: x in xs <==> Reaches(step, seeds, x)
  {
    forall x | Reaches(step, seeds, x) ensures x in xs { ClosedHoldsReached(step, seeds, xs, x); }
  }

  /** Reaching depends on the steps alone, not on how the relation is stored. */
  lemma ReachesSame<T(!new)>(step: (T, T) -> bool, other: (T, T) -> bool, seeds: set<T>, y: T)
    requires forall u, v :: step(u, v) <==> other(u, v)
    ensures Reaches(step, seeds, y) <==> Reaches(other, seeds, y)
  {
    if Reaches(step, seeds, y) {
      var p: seq<T> :| Path(step, p) && p[0] in seeds && p[|p| - 1] == y;
      assert Path(other, p);
    }
    if Reaches(other, seeds, y) {
      var p: seq<T> :| Path(other, p) && p[0] in seeds && p[|p| - 1] == y;
      assert Path(step, p);
    }
  }

  // Worklist search.

  /** Between turns: the seeds are seen, what is queued is seen, what is seen is reached, and what is seen and no
      longer queued has had its steps taken. */
  ghost predicate Searching<T(!new)>(step: (T, T) -> bool, seeds: set<T>, seen: set<T>, queue: seq<T>) {
    && seeds <= seen
    && (forall x :: x in queue ==> x in seen)
    && (forall x :: x in seen ==> Reaches(step, seeds, x))
    && (forall x :: x in seen && x !in queue ==> Expanded(step, x, seen))
  }

  lemma SearchStarts<T(!new)>(step: (T, T) -> bool, seeds: set<T>, queue: seq<T>)
    requires Elements(queue) == seeds
    ensures Searching(step, seeds, seeds, queue)
  {
    forall x | x in seeds ensures x in queue && Reaches(step, seeds, x) {
      assert x in Elements(queue);
      SeedReached(step, seeds, x);
    }
    forall x | x in queue ensures x in seeds { assert x in Elements(queue); }
  }

  /** One turn: take the first queued node, mark its successors, queue those not seen before. */
  lemma SearchTurn<T(!new)>(step: (T, T) -> bool, seeds: set<T>, seen: set<T>, queue: seq<T>,
                            successors: seq<T>, seen': set<T>, queue': seq<T>)
    requires queue != [] && Searching(step, seeds, seen, queue)
    requires forall y :: step(queue[0], y) <==> y in successors
    requires seen' == seen + Elements(successors)
    requires forall x :: x in queue' <==> x in queue[1..] || x in seen' - seen
    ensures Searching(step, seeds, seen', queue')
  {
    var current := queue[0];
    assert current in queue && queue == [current] + queue[1..];
    forall x | x in seen' ensures Reaches(step, seeds, x) {
      if x !in seen { StepReached(step, seeds, current, x); }
    }
    forall x | x in seen' && x !in queue' ensures Expanded(step, x, seen') {
      assert x == current || Expanded(step, x, seen);
    }
  }

  lemma SearchEnds<T(!new)>(step: (T, T) -> bool, seeds: set<T>, seen: set<T>)
    requires Searching(step, seeds, seen, [])
    ensures forall x :: x in seen <==> Reaches(step, seeds, x)
  {
    ClosureExact(step, seeds, seen);
  }

  /** The measure of a search: what is not yet seen. */
  lemma FewerLeft<T>(all: set<T>, before: set<T>, after: set<T>)
    requires before <= after <= all
    ensures |all - after| <= |all - before|
    ensures before != after ==> |all - after| < |all - before|
  {
    assert all - after == (all - before) - (after - before);
    if before != after { assert after - before != {}; }
  }

  lemma ReachesMonotone<T(!new)>(step: (T, T) -> bool, small: set<T>, big: set<T>, y: T)
    requires small <= big && Reaches(step, small, y)
    ensures Reaches(step, big, y)
  {
    var p: seq<T> :| Path(step, p) && p[0] in small && p[|p| - 1] == y;
    assert p[0] in big;
  }

  /** Closure distributes over union of seeds. */
  lemma ReachesUnion<T(!new)>(step: (T, T) -> bool, a: set<T>, b: set<T>, y: T)
    ensures Reaches(step, a + b, y) <==> Reaches(step, a, y) || Reaches(step, b, y)
  {
    if Reaches(step, a + b, y) {
      var p: seq<T> :| Path(step, p) && p[0] in a + b && p[|p| - 1] == y;
      assert p[0] in a || p[0] in b;
    }
    if Reaches(step, a, y) { ReachesMonotone(step, a, a + b, y); }
    if Reaches(step, b, y) { ReachesMonotone(step, b, a + b, y); }
  }

  /** Closing a closure adds nothing. */
  lemma ReachesIdempotent<T(!new)>(step: (T, T) -> bool, seeds: set<T>, closure: set<T>, y: T)
    requires forall x :: x in closure <==> Reaches(step, seeds, x)
    ensures Reaches(step, closure, y) <==> y in closure
  {
    if Reaches(step, closure, y) {
      forall u, v | u in closure && step(u, v) ensures v in closure { StepReached(step, seeds, u, v); }
      assert Closed(step, closure);
      ClosedHoldsReached(step, closure, closure, y);
    }
    if y in closure { SeedReached(step, closure, y); }
  }
}
