/** The ring macros on linked objects, statement by statement.

    A head is represented by its sentinel, a node whose two cells are those of the head
    (`FlatMemory.SentinelCells`); a sentinel carries no payload, an element does.  Every method takes
    as a ghost argument the set `S` of live nodes and says what it makes of the memory `Heap(S)`. */
module RingObjects {
  import opened Options
  import opened LinkMemory
  import opened RingTheory
  import opened Consistency
  import opened Mirror

  class Node<T> {
    const payload: Option<T>
    var next: Node<T>
    var prev: Node<T>

    constructor (payload: Option<T>)
      ensures this.payload == payload
    {
      this.payload := payload;
      next := this;
      prev := this;
    }
  }

  ghost function Heap<T>(S: set<Node<T>>): Links<Node<T>>
    reads S
  {
    Links(map n | n in S :: n.next, map n | n in S :: n.prev)
  }

  lemma HeapGrows<T>(S: set<Node<T>>, n: Node<T>)
    ensures Heap(S + {n}) == Links(Heap(S).next[n := n.next], Heap(S).prev[n := n.prev])
  {
    assert Heap(S + {n}).next == Heap(S).next[n := n.next];
    assert Heap(S + {n}).prev == Heap(S).prev[n := n.prev];
  }

  lemma HeapShrinks<T>(S: set<Node<T>>, n: Node<T>)
    ensures Heap(S - {n}) == Links(Heap(S).next - {n}, Heap(S).prev - {n})
  {
    assert Heap(S - {n}).next == Heap(S).next - {n};
    assert Heap(S - {n}).prev == Heap(S).prev - {n};
  }

  /** The assignment NEXT(n) = v. */
  method AssignNext<T>(n: Node<T>, v: Node<T>, ghost S: set<Node<T>>)
    requires n in S
    modifies n`next
    ensures n.next == v && Heap(S) == old(Heap(S)).(next := old(Heap(S)).next[n := v])
  {
    n.next := v;
    assert Heap(S).next == old(Heap(S)).next[n := v];
    assert Heap(S).prev == old(Heap(S)).prev;
  }

  /** The assignment PREV(n) = v. */
  method AssignPrev<T>(n: Node<T>, v: Node<T>, ghost S: set<Node<T>>)
    requires n in S
    modifies n`prev
    ensures n.prev == v && Heap(S) == old(Heap(S)).(prev := old(Heap(S)).prev[n := v])
  {
    n.prev := v;
    assert Heap(S).next == old(Heap(S)).next;
    assert Heap(S).prev == old(Heap(S)).prev[n := v];
  }

  method RingInit<T>(h: Node<T>, ghost S: set<Node<T>>)
    requires h in S
    modifies h`next, h`prev
    ensures Heap(S) == Joined(old(Heap(S)), h, h)
    ensures h.next == h && h.prev == h
  {
    AssignNext(h, h, S);
    AssignPrev(h, h, S);
  }

  method RingSpliceBefore<T>(lep: Node<T>, ep1: Node<T>, epN: Node<T>, ghost S: set<Node<T>>)
    requires {lep, ep1, epN, lep.prev} <= S
    modifies epN`next, ep1`prev, lep.prev`next, lep`prev
    ensures Heap(S) == Spliced(old(Heap(S)), old(lep.prev), lep, ep1, epN)
  {
    AssignNext(epN, lep, S);
    AssignPrev(ep1, lep.prev, S);
    AssignNext(lep.prev, ep1, S);
    AssignPrev(lep, epN, S);
  }

  method RingSpliceAfter<T>(lep: Node<T>, ep1: Node<T>, epN: Node<T>, ghost S: set<Node<T>>)
    requires {lep, ep1, epN, lep.next} <= S
    modifies ep1`prev, epN`next, lep.next`prev, lep`next
    ensures Heap(S) == Spliced(old(Heap(S)), lep, old(lep.next), ep1, epN)
  {
    AssignPrev(ep1, lep, S);
    AssignNext(epN, lep.next, S);
    AssignPrev(lep.next, epN, S);
    AssignNext(lep, ep1, S);
  }

  method RingUnsplice<T>(ep1: Node<T>, epN: Node<T>, ghost S: set<Node<T>>)
    requires {ep1, epN, ep1.prev, epN.next} <= S
    modifies ep1.prev`next, epN.next`prev
    ensures Heap(S) == Joined(old(Heap(S)), old(ep1.prev), old(epN.next))
  {
    AssignNext(ep1.prev, epN.next, S);
    AssignPrev(epN.next, ep1.prev, S);
  }

  /** CONCAT, with FIRST(h2) and LAST(h2) read again at every use. */
  method RingConcat<T>(h1: Node<T>, h2: Node<T>, ghost S: set<Node<T>>)
    requires {h1, h2, h1.prev, h2.next, h2.prev} <= S
    requires h1 != h2 && (h2.next != h2 ==> h2.prev != h2)
    modifies h2.prev`next, h2.next`prev, h1.prev`next, h1`prev, h2`next, h2`prev
    ensures Heap(S) == if old(h2.next == h2) then old(Heap(S)) else Moved(old(Heap(S)), old(h1.prev), h1, h2)
  {
    if h2.next != h2 {
      AssignNext(h2.prev, h1, S);
      AssignPrev(h2.next, h1.prev, S);
      AssignNext(h1.prev, h2.next, S);
      AssignPrev(h1, h2.prev, S);
      RingInit(h2, S);
    }
  }

  method RingPrepend<T>(h1: Node<T>, h2: Node<T>, ghost S: set<Node<T>>)
    requires {h1, h2, h1.next, h2.next, h2.prev} <= S
    requires h1 != h2 && (h2.next != h2 ==> h2.prev != h2)
    modifies h2.next`prev, h2.prev`next, h1.next`prev, h1`next, h2`next, h2`prev
    ensures Heap(S) == if old(h2.next == h2) then old(Heap(S)) else Moved(old(Heap(S)), h1, old(h1.next), h2)
  {
    if h2.next != h2 {
      AssignPrev(h2.next, h1, S);
      AssignNext(h2.prev, h1.next, S);
      AssignPrev(h1.next, h2.prev, S);
      AssignNext(h1, h2.next, S);
      RingInit(h2, S);
    }
  }

  // ----- loops -----

  /** FOREACH: the loop meets every element once, in order, and stops. */
  method Foreach<T>(head: Node<T>, ghost es: seq<Node<T>>, ghost S: set<Node<T>>) returns (visited: seq<Node<T>>)
    requires Ring(Heap(S), [head] + es)
    ensures visited == es
  {
    ghost var r := [head] + es;
    visited := [];
    var ep := head.next;
    assert ep == At(r, 1) by { StepForward(Heap(S), r, 0); }
    while ep != head
      invariant visited <= es
      invariant ep == At(r, |visited| + 1)
      decreases |es| - |visited|
    {
      StepForward(Heap(S), r, |visited| + 1);
      visited := visited + [ep];
      ep := ep.next;
    }
  }

  lemma StepForward<T>(m: Links<T>, r: seq<T>, k: nat)
    requires Ring(m, r) && k < |r|
    ensures m.next[r[k]] == At(r, k + 1)
  {
    if k + 1 < |r| { assert Linked(m, r[k], r[k + 1]); } else { assert Linked(m, r[|r| - 1], r[0]); }
  }

  /** The walk by PREV from LAST meets the same elements in exactly the opposite order. */
  method ForeachBackwards<T>(head: Node<T>, ghost es: seq<Node<T>>, ghost S: set<Node<T>>)
      returns (visited: seq<Node<T>>)
    requires Ring(Heap(S), [head] + es)
    ensures visited == Reverse(es)
  {
    RingFlip(Heap(S), head, es);
    ghost var r := [head] + Reverse(es);
    visited := [];
    var ep := head.prev;
    assert ep == At(r, 1) by { StepForward(Flip(Heap(S)), r, 0); }
    while ep != head
      invariant visited <= Reverse(es)
      invariant ep == At(r, |visited| + 1)
      decreases |es| - |visited|
    {
      StepForward(Flip(Heap(S)), r, |visited| + 1);
      visited := visited + [ep];
      ep := ep.prev;
    }
  }

  // ----- consistency checks -----

  ghost predicate PointsInto<T>(n: Node<T>, S: set<Node<T>>)
    reads n
  {
    n.next in S && n.prev in S
  }

  /** Every pointer of a live node leads to a live node; nothing else is known of the graph. */
  ghost predicate ClosedUnder<T>(S: set<Node<T>>)
    reads S
  {
    forall n {:trigger PointsInto(n, S)} | n in S :: PointsInto(n, S)
  }

  lemma NodeIsSane<T>(n: Node<T>, S: set<Node<T>>)
    requires n in S && PointsInto(n, S)
    ensures Succ(Heap(S), n) == n.next
    ensures Sane(Heap(S), n) <==> n.next.prev == n && n.prev.next == n
  {
  }

  /** CHECK_ELEM_CONSISTENCY.  An assertion that fails ends the program; here the node at which that
      happens is returned.  The loop ends within |S| rounds on every graph. */
  method CheckElemConsistency<T>(ep: Node<T>, ghost S: set<Node<T>>)
      returns (failed: Option<Node<T>>, ghost rounds: nat)
    requires ep in S && ClosedUnder(S)
    ensures Verdict(Heap(S), ep, failed)
    ensures failed.Some? ==> failed.value.next.prev != failed.value || failed.value.prev.next != failed.value
    ensures rounds <= |S|
  {
    ghost var m := Heap(S);
    var start := ep;
    var here := start;
    rounds := 0;
    while true
      invariant here in S && here == Orbit(m, start, rounds)
      invariant Passed(m, start, rounds)
      decreases |S| - rounds
    {
      assert PointsInto(here, S);
      NodeIsSane(here, S);
      RoundsAreBounded(m, start, rounds, S);
      rounds := rounds + 1;
      if here.next.prev != here { RoundFails(m, start, rounds - 1); return Some(here), rounds; }
      if here.prev.next != here { RoundFails(m, start, rounds - 1); return Some(here), rounds; }
      RoundPasses(m, start, rounds - 1);
      here := here.next;
      if here == start { return None, rounds; }
    }
  }

  /** CHECK_ELEM: the same walk, which lists every node it comes to and leaves the loop at a failure.
      If all is well the listing is the ring; otherwise it ends with the node at fault. */
  method CheckElem<T>(ep: Node<T>, ghost S: set<Node<T>>) returns (listed: seq<Node<T>>, ok: bool)
    requires ep in S && ClosedUnder(S)
    ensures listed != [] && listed == Walk(Heap(S), ep, |listed|)
    ensures if ok then Ring(Heap(S), listed) else Verdict(Heap(S), ep, Some(listed[|listed| - 1]))
  {
    ghost var m := Heap(S);
    var start := ep;
    var here := start;
    listed := [];
    ok := false;
    while true
      invariant here in S && here == Orbit(m, start, |listed|)
      invariant listed == Walk(m, start, |listed|) && Passed(m, start, |listed|)
      decreases |S| - |listed|
    {
      assert PointsInto(here, S);
      NodeIsSane(here, S);
      RoundsAreBounded(m, start, |listed|, S);
      listed := listed + [here];
      if here.next.prev != here { RoundFails(m, start, |listed| - 1); break; }
      if here.prev.next != here { RoundFails(m, start, |listed| - 1); break; }
      RoundPasses(m, start, |listed| - 1);
      here := here.next;
      if here == start { ok := true; break; }
    }
  }
}
