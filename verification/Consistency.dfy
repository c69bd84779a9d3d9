/** What the consistency checks of apr_ring.h decide, on pointer graphs that may be corrupt in any way. */
module Consistency {
  import opened Options
  import opened LinkMemory
  import opened RingTheory

  /** NEXT and PREV; outside the live nodes they are not used. */
  ghost function Succ<T>(m: Links<T>, x: T): T {
    if x in m.next then m.next[x] else x
  }

  ghost function Pred<T>(m: Links<T>, x: T): T {
    if x in m.prev then m.prev[x] else x
  }

  /** The node that k steps by `next` lead to. */
  ghost function Orbit<T>(m: Links<T>, x: T, k: nat): T {
    if k == 0 then x else Succ(m, Orbit(m, x, k - 1))
  }

  ghost function Walk<T>(m: Links<T>, x: T, n: nat): (s: seq<T>)
    ensures |s| == n
    ensures forall k | 0 <= k < n :: s[k] == Orbit(m, x, k)
  {
    if n == 0 then [] else Walk(m, x, n - 1) + [Orbit(m, x, n - 1)]
  }

  /** Following `next` from x leads round a ring. */
  ghost predicate OnRing<T>(m: Links<T>, x: T) {
    exists n: nat | n > 0 :: Ring(m, Walk(m, x, n))
  }

  /** The first of the two assertions: next->prev is back here. */
  ghost predicate ForwardSane<T>(m: Links<T>, x: T) {
    Linked(m, x, Succ(m, x))
  }

  ghost predicate Sane<T>(m: Links<T>, x: T) {
    ForwardSane(m, x) && Linked(m, Pred(m, x), x)
  }

  /** The k-th node of the walk is the first one at which a check fails, and x is not met again before. */
  ghost predicate FailsAt<T>(m: Links<T>, x: T, k: nat) {
    && !Sane(m, Orbit(m, x, k))
    && (forall j: nat | j < k :: Sane(m, Orbit(m, x, j)))
    && (forall j: nat | 0 < j <= k :: Orbit(m, x, j) != x)
  }

  /** None is the verdict "consistent", Some(bad) the node at which the check gives up. */
  ghost predicate Verdict<T>(m: Links<T>, x: T, r: Option<T>) {
    match r
    case None => OnRing(m, x)
    case Some(bad) => exists k: nat :: FailsAt(m, x, k) && bad == Orbit(m, x, k)
  }

  lemma RingIsWalk<T>(m: Links<T>, s: seq<T>)
    requires Ring(m, s)
    ensures s == Walk(m, s[0], |s|) && Orbit(m, s[0], |s|) == s[0] && OnRing(m, s[0])
  {
    forall k | 0 <= k < |s| ensures s[k] == Orbit(m, s[0], k) { RingFollowsOrbit(m, s, k); }
    assert Linked(m, s[|s| - 1], s[0]);
    assert s == Walk(m, s[0], |s|);
  }

  lemma {:induction false} RingFollowsOrbit<T>(m: Links<T>, s: seq<T>, k: nat)
    requires Ring(m, s) && k < |s|
    ensures s[k] == Orbit(m, s[0], k)
  {
    if k > 0 {
      RingFollowsOrbit(m, s, k - 1);
      assert Linked(m, s[k - 1], s[k]);
    }
  }

  /** On a ring no check fails. */
  lemma RingIsSane<T>(m: Links<T>, x: T, n: nat, k: nat)
    requires n > 0 && Ring(m, Walk(m, x, n)) && k < n
    ensures Sane(m, Orbit(m, x, k))
  {
    var s := Walk(m, x, n);
    var after, before := if k + 1 < n then k + 1 else 0, if k > 0 then k - 1 else n - 1;
    assert Linked(m, s[k], s[after]) && Linked(m, s[before], s[k]);
  }

  lemma FailureMeansNoRing<T>(m: Links<T>, x: T, k: nat)
    requires FailsAt(m, x, k)
    ensures !OnRing(m, x)
  {
    if OnRing(m, x) {
      var n: nat :| n > 0 && Ring(m, Walk(m, x, n));
      RingIsWalk(m, Walk(m, x, n));
      assert n > k;
      RingIsSane(m, x, n, k);
    }
  }

  /** There is one verdict for every graph and start. */
  lemma VerdictIsUnique<T>(m: Links<T>, x: T, r: Option<T>, r': Option<T>)
    requires Verdict(m, x, r) && Verdict(m, x, r')
    ensures r == r'
    ensures r == None <==> OnRing(m, x)
  {
    if r.Some? {
      var k: nat :| FailsAt(m, x, k) && r.value == Orbit(m, x, k);
      FailureMeansNoRing(m, x, k);
      assert r'.Some?;
      var k': nat :| FailsAt(m, x, k') && r'.value == Orbit(m, x, k');
      assert !(k < k') && !(k' < k);
    } else if r'.Some? {
      var k: nat :| FailsAt(m, x, k) && r'.value == Orbit(m, x, k);
      FailureMeansNoRing(m, x, k);
    }
  }

  /** The walk cannot run into itself anywhere but at its start: next->prev == here rules out a
      rho-shaped walk. */
  lemma NoRho<T>(m: Links<T>, x: T, n: nat)
    requires n > 0 && Distinct(Walk(m, x, n))
    requires forall j: nat | j < n :: ForwardSane(m, Orbit(m, x, j))
    requires Orbit(m, x, n) != x
    ensures Distinct(Walk(m, x, n + 1))
  {
    var s := Walk(m, x, n);
    var y := Orbit(m, x, n);
    forall k | 0 <= k < n ensures s[k] != y {
      assert ForwardSane(m, Orbit(m, x, n - 1)) && Pred(m, y) == s[n - 1];
      if k > 0 {
        assert ForwardSane(m, Orbit(m, x, k - 1)) && Pred(m, s[k]) == s[k - 1];
      }
    }
  }

  lemma WalkCloses<T>(m: Links<T>, x: T, n: nat)
    requires n > 0 && Distinct(Walk(m, x, n))
    requires forall j: nat | j < n :: ForwardSane(m, Orbit(m, x, j))
    requires Orbit(m, x, n) == x
    ensures Ring(m, Walk(m, x, n))
  {
    var s := Walk(m, x, n);
    forall i, j | 0 <= i && i + 1 == j < n ensures Linked(m, s[i], s[j]) {
      assert ForwardSane(m, Orbit(m, x, i));
    }
    assert ForwardSane(m, Orbit(m, x, n - 1));
  }

  lemma {:induction false} WalkIsDistinct<T>(m: Links<T>, x: T, n: nat)
    requires n > 0
    requires forall j: nat | j < n :: ForwardSane(m, Orbit(m, x, j))
    requires forall j: nat | 0 < j < n :: Orbit(m, x, j) != x
    ensures Distinct(Walk(m, x, n))
  {
    if n > 1 {
      WalkIsDistinct(m, x, n - 1);
      NoRho(m, x, n - 1);
    }
  }

  /** If the first assertion holds all the way round back to x, so does the second. */
  lemma {:induction false} FirstAssertionSuffices<T>(m: Links<T>, x: T, n: nat)
    requires n > 0 && Orbit(m, x, n) == x
    requires forall j: nat | j < n :: ForwardSane(m, Orbit(m, x, j))
    ensures OnRing(m, x) && forall j: nat | j < n :: Sane(m, Orbit(m, x, j))
  {
    var k := FirstReturn(m, x, n);
    WalkIsDistinct(m, x, k);
    WalkCloses(m, x, k);
    forall j: nat | j < n ensures Sane(m, Orbit(m, x, j)) {
      var i := OrbitFolds(m, x, k, j);
      RingIsSane(m, x, k, i);
    }
  }

  lemma {:induction false} FirstReturn<T>(m: Links<T>, x: T, n: nat) returns (k: nat)
    requires n > 0 && Orbit(m, x, n) == x
    ensures 0 < k <= n && Orbit(m, x, k) == x && forall j: nat | 0 < j < k :: Orbit(m, x, j) != x
  {
    if j: nat :| 0 < j < n && Orbit(m, x, j) == x {
      k := FirstReturn(m, x, j);
    } else {
      k := n;
    }
  }

  lemma {:induction false} OrbitFolds<T>(m: Links<T>, x: T, k: nat, j: nat) returns (i: nat)
    requires k > 0 && Orbit(m, x, k) == x
    ensures i < k && Orbit(m, x, j) == Orbit(m, x, i)
    decreases j
  {
    if j < k {
      i := j;
    } else {
      OrbitShift(m, x, k, j - k);
      i := OrbitFolds(m, x, k, j - k);
    }
  }

  lemma {:induction false} OrbitShift<T>(m: Links<T>, x: T, k: nat, i: nat)
    requires Orbit(m, x, k) == x
    ensures Orbit(m, x, k + i) == Orbit(m, x, i)
  {
    if i > 0 { OrbitShift(m, x, k, i - 1); }
  }

  lemma {:induction false} DistinctFits<T>(s: seq<T>, S: set<T>)
    requires Distinct(s) && forall i | 0 <= i < |s| :: s[i] in S
    ensures |s| <= |S|
  {
    if s != [] {
      var n := |s| - 1;
      DistinctFits(s[..n], S - {s[n]});
    }
  }

  // ----- one round of the check -----

  /** n rounds have passed without a failure and without meeting x again. */
  ghost predicate Passed<T>(m: Links<T>, x: T, n: nat) {
    && (forall j: nat | j < n :: Sane(m, Orbit(m, x, j)))
    && (forall j: nat | 0 < j <= n :: Orbit(m, x, j) != x)
  }

  lemma RoundFails<T>(m: Links<T>, x: T, n: nat)
    requires Passed(m, x, n) && !Sane(m, Orbit(m, x, n))
    ensures Verdict(m, x, Some(Orbit(m, x, n)))
  {
    assert FailsAt(m, x, n);
  }

  lemma RoundPasses<T>(m: Links<T>, x: T, n: nat)
    requires Passed(m, x, n) && Sane(m, Orbit(m, x, n))
    ensures if Orbit(m, x, n + 1) == x then Ring(m, Walk(m, x, n + 1)) else Passed(m, x, n + 1)
  {
    if Orbit(m, x, n + 1) == x {
      WalkIsDistinct(m, x, n + 1);
      WalkCloses(m, x, n + 1);
    }
  }

  /** A check cannot pass as many rounds as there are live nodes. */
  lemma RoundsAreBounded<T>(m: Links<T>, x: T, n: nat, S: set<T>)
    requires Passed(m, x, n) && m.next.Keys == S && Orbit(m, x, n) in S
    ensures n < |S|
  {
    if n > 0 {
      WalkIsDistinct(m, x, n);
      NoRho(m, x, n);
    }
    var s := Walk(m, x, n + 1);
    forall i | 0 <= i < |s| ensures s[i] in S { assert i < n ==> Sane(m, Orbit(m, x, i)); }
    DistinctFits(s, S);
  }
}
