/** The brigade macros on linked bucket objects, and the loops written with them. */
module BrigadeObjects {
  import opened Options
  import opened RingTheory
  import opened Consistency
  import opened Brigades
  import opened Streams
  import opened Sweeps
  import opened RingObjects
  import L = LinkMemory

  type BucketNode = Node<Bucket>

  /** What destroying a bucket does to the outside: its type's destroy, then its own free. */
  datatype Call = DestroyData(e: BucketNode) | FreeBucket(e: BucketNode)

  ghost function Calls(dead: seq<BucketNode>): seq<Call> {
    if dead == [] then []
    else Calls(dead[..|dead| - 1]) + [DestroyData(dead[|dead| - 1]), FreeBucket(dead[|dead| - 1])]
  }

  lemma CallsNext(dead: seq<BucketNode>, e: BucketNode)
    ensures Calls(dead + [e]) == Calls(dead) + [DestroyData(e), FreeBucket(e)]
  {
    assert (dead + [e])[..|dead|] == dead;
  }

  /** Two calls for every destroyed bucket: first its data, then itself. */
  lemma {:induction false} CallsInPairs(dead: seq<BucketNode>)
    ensures |Calls(dead)| == 2 * |dead|
    ensures forall i | 0 <= i < |dead| ::
      Calls(dead)[2 * i] == DestroyData(dead[i]) && Calls(dead)[2 * i + 1] == FreeBucket(dead[i])
  {
    if dead != [] { CallsInPairs(dead[..|dead| - 1]); }
  }

  predicate DroppableNode(e: BucketNode) {
    e.payload.Some? && Droppable(e.payload.value)
  }

  predicate Any(e: BucketNode) { true }

  lemma {:induction false} WhereAll(s: seq<BucketNode>)
    ensures Where(s, Any, true) == s && Where(s, Any, false) == []
  {
    if s != [] { WhereAll(s[..|s| - 1]); }
  }

  lemma {:induction false} CallsConcat(s: seq<BucketNode>, t: seq<BucketNode>)
    ensures Calls(s + t) == Calls(s) + Calls(t)
  {
    if t == [] {
      assert s + t == s;
    } else {
      var front := t[..|t| - 1];
      CallsConcat(s, front);
      assert (s + t)[..|s + t| - 1] == s + front;
    }
  }

  /** What a cursor in front of the k-th bucket of brigade h points to. */
  ghost function Ahead<T>(h: T, bs: seq<T>, k: nat): T {
    if k < |bs| then bs[k] else h
  }

  /** All brigades and buckets of a program. */
  class World {
    ghost var nodes: set<BucketNode>         // what is allocated
    ghost var st: State<BucketNode>          // where every bucket is
    ghost var run: seq<Moment<BucketNode>>   // how it came to this
    var log: seq<Call>

    ghost predicate Valid()
      reads this, nodes
    {
      Reached(run, Heap(nodes), st) && log == Calls(st.dead)
    }

    constructor ()
      ensures Valid() && st == NoBrigades() && log == []
    {
      nodes := {};
      st := NoBrigades();
      run := [];
      log := [];
      new;
      assert Heap(nodes) == NoMemory();
    }

    /** The heap of nodes' is now what a step of the run has led to. */
    ghost method Commit(nodes': set<BucketNode>, st': State<BucketNode>, run': seq<Moment<BucketNode>>)
      requires Reached(run', Heap(nodes'), st') && log == Calls(st'.dead)
      modifies this`nodes, this`st, this`run
      ensures Valid() && nodes == nodes' && st == st'
    {
      nodes, st, run := nodes', st', run';
    }

    /** Brigade heads, like buckets, come as memory that holds anything. */
    method NewBrigade() returns (h: BucketNode)
      requires Valid()
      modifies this
      ensures Valid() && fresh(h) && Fresh(old(st), h)
      ensures st == old(st).(brigades := old(st).brigades[h := []])
    {
      h := new Node(None);
      assert Fresh(st, h);
      ghost var st', run' := OpenStep(run, Heap(nodes), st, h, h.next, h.prev);
      HeapGrows(nodes, h);
      RingInit(h, nodes + {h});
      Commit(nodes + {h}, st', run');
    }

    /** An allocated bucket; its pointers mean nothing yet. */
    method NewBucket(b: Bucket) returns (e: BucketNode)
      requires Valid()
      modifies this
      ensures Valid() && fresh(e) && e.payload == Some(b) && Fresh(old(st), e)
      ensures st == old(st).(place := old(st).place[e := Stale])
    {
      e := new Node(Some(b));
      assert Fresh(st, e);
      ghost var st', run' := AllocStep(run, Heap(nodes), st, e, e.next, e.prev);
      HeapGrows(nodes, e);
      Commit(nodes + {e}, st', run');
    }

    method InitBucket(e: BucketNode)
      requires Valid() && Detached(st, e)
      modifies this`nodes, this`st, this`run, nodes
      ensures Valid() && st == old(st).(place := old(st).place[e := Single]) && nodes == old(nodes)
      ensures e.next == e && e.prev == e
    {
      ghost var st', run' := InitStep(run, Heap(nodes), st, e);
      RingInit(e, nodes);
      Commit(nodes, st', run');
    }

    method InsertHead(h: BucketNode, e: BucketNode)
      requires Valid() && h in st.brigades && Detached(st, e)
      modifies this`nodes, this`st, this`run, nodes
      ensures Valid() && st == Put(old(st), h, 0, e) && nodes == old(nodes)
    {
      ghost var st', run' := HeadStep(run, Heap(nodes), st, h, e);
      RingSpliceAfter(h, e, e, nodes);
      Commit(nodes, st', run');
    }

    method InsertTail(h: BucketNode, e: BucketNode)
      requires Valid() && h in st.brigades && Detached(st, e)
      modifies this`nodes, this`st, this`run, nodes
      ensures Valid() && st == Put(old(st), h, |old(st).brigades[h]|, e) && nodes == old(nodes)
    {
      ghost var st', run' := TailStep(run, Heap(nodes), st, h, e);
      RingSpliceBefore(h, e, e, nodes);
      Commit(nodes, st', run');
    }

    method InsertBefore(a: BucketNode, e: BucketNode)
      requires Valid() && Anchored(st, a) && Detached(st, e)
      modifies this`nodes, this`st, this`run, nodes
      ensures Valid() && st == PutBefore(old(st), a, e) && nodes == old(nodes)
    {
      ghost var st', run' := BeforeStep(run, Heap(nodes), st, a, e);
      RingSpliceBefore(a, e, e, nodes);
      Commit(nodes, st', run');
    }

    method InsertAfter(a: BucketNode, e: BucketNode)
      requires Valid() && Anchored(st, a) && Detached(st, e)
      modifies this`nodes, this`st, this`run, nodes
      ensures Valid() && st == PutAfter(old(st), a, e) && nodes == old(nodes)
    {
      ghost var st', run' := AfterStep(run, Heap(nodes), st, a, e);
      RingSpliceAfter(a, e, e, nodes);
      Commit(nodes, st', run');
    }

    method Concat(a: BucketNode, b: BucketNode)
      requires Valid() && a in st.brigades && b in st.brigades && a != b
      modifies this`nodes, this`st, this`run, nodes
      ensures Valid() && nodes == old(nodes)
      ensures st == Merged(old(st), a, b, old(st).brigades[a] + old(st).brigades[b])
    {
      ghost var st', run' := ConcatStep(run, Heap(nodes), st, a, b);
      RingConcat(a, b, nodes);
      Commit(nodes, st', run');
    }

    method Prepend(a: BucketNode, b: BucketNode)
      requires Valid() && a in st.brigades && b in st.brigades && a != b
      modifies this`nodes, this`st, this`run, nodes
      ensures Valid() && nodes == old(nodes)
      ensures st == Merged(old(st), a, b, old(st).brigades[b] + old(st).brigades[a])
    {
      ghost var st', run' := PrependStep(run, Heap(nodes), st, a, b);
      RingPrepend(a, b, nodes);
      Commit(nodes, st', run');
    }

    /** For a bucket on a brigade, for one that is a loop, and for a removed one that is passed by. */
    method Remove(e: BucketNode)
      requires Valid() && Removable(Heap(nodes), st, e)
      modifies this`nodes, this`st, this`run, nodes
      ensures Valid() && st == Removed(old(st), e) && nodes == old(nodes)
    {
      ghost var st', run' := RemoveStep(run, Heap(nodes), st, e);
      RingUnsplice(e, e, nodes);
      Commit(nodes, st', run');
    }

    /** apr_bucket_destroy: the two calls, after which the bucket is no longer memory of ours. */
    method Destroy(e: BucketNode)
      requires Valid() && Detached(st, e)
      modifies this
      ensures Valid() && st == Gone(old(st), e) && nodes == old(nodes) - {e}
      ensures log == old(log) + [DestroyData(e), FreeBucket(e)]
    {
      ghost var st', run' := DestroyStep(run, Heap(nodes), st, e);
      CallsNext(st.dead, e);
      HeapShrinks(nodes, e);
      log := log + [DestroyData(e)];
      log := log + [FreeBucket(e)];
      Commit(nodes - {e}, st', run');
    }

    /** apr_bucket_delete: one removal, one destruction. */
    method Delete(e: BucketNode)
      requires Valid() && Removable(Heap(nodes), st, e)
      modifies this, nodes
      ensures Valid() && st == Gone(Removed(old(st), e), e) && nodes == old(nodes) - {e}
      ensures log == old(log) + [DestroyData(e), FreeBucket(e)]
    {
      Remove(e);
      Destroy(e);
    }

    /** The check that the macros end with in a debugging build, at a sentinel or a bucket on a brigade:
        it never fails. */
    method CheckConsistency(a: BucketNode) returns (failed: Option<BucketNode>)
      requires Valid() && Anchored(st, a)
      ensures failed == None
    {
      ghost var S := RingOf(run, nodes, st, a);
      ghost var rounds;
      failed, rounds := CheckElemConsistency(a, S);
      VerdictIsUnique(Heap(S), a, failed, None);
    }

    // ----- loops over a brigade -----

    /** while (!EMPTY(h)) { e = FIRST(h); delete(e); }, with FIRST(h) read once: `DeleteByNameDestroysOther` says
        what delete(FIRST(h)) would do. */
    method Drain(h: BucketNode)
      requires Valid() && h in st.brigades
      modifies this, nodes
      ensures Valid() && st == Swept(old(st), h, Any, |old(st).brigades[h]|)
      ensures st.brigades[h] == [] && h.next == h && h.prev == h
      ensures st.dead == old(st).dead + old(st).brigades[h]
      ensures log == old(log) + Calls(old(st).brigades[h])
    {
      ghost var st0, bs, k := st, st.brigades[h], 0;
      ghost var plan := PlanSweep(st, h, Any);
      DrainPlan(run, Heap(nodes), st0, h, plan, 0);
      while h.next != h
        invariant Valid() && nodes <= old(nodes) && h in nodes
        invariant k <= |bs| && st == plan[k]
        invariant h.next == Ahead(h, bs, k) && (k < |bs| ==> bs[k] in nodes && bs[k] != h)
        decreases |bs| - k
      {
        var e := h.next;
        DeleteVisited(e, st0, h, Any, plan, k);
        k := k + 1;
        DrainPlan(run, Heap(nodes), st0, h, plan, k);
      }
      EmptyBothWays(run, Heap(nodes), st, h);
      Drained(st0, h, old(log));
    }

    /** Delete the k-th bucket of an iteration, which p selects. */
    method DeleteVisited(e: BucketNode, ghost st0: State<BucketNode>, ghost h: BucketNode,
                         ghost p: BucketNode -> bool, ghost plan: seq<State<BucketNode>>, ghost k: nat)
      requires Valid() && h in st0.brigades && IsSweep(plan, st0, h, p) && k < |st0.brigades[h]|
      requires st == plan[k] && e == st0.brigades[h][k] && p(e)
      modifies this, nodes
      ensures Valid() && st == plan[k + 1] && nodes == old(nodes) - {e}
    {
      SweepTurn(run, Heap(nodes), st0, h, p, plan, k);
      Delete(e);
    }

    /** A safe iteration that deletes every empty bucket that is not metadata.  What the brigade carries does not
        change. */
    method StripEmpty(h: BucketNode)
      requires Valid() && h in st.brigades
      modifies this, nodes
      ensures Valid() && IsSwept(old(st), st, h, DroppableNode)
      ensures st.brigades == old(st).brigades[h := Where(old(st).brigades[h], DroppableNode, false)]
      ensures log == old(log) + Calls(Where(old(st).brigades[h], DroppableNode, true))
      ensures h in st.brigades && Stream(Payloads(st.brigades[h])) == Stream(Payloads(old(st).brigades[h]))
      ensures forall e | e in old(st).brigades[h] :: e in st.brigades[h] <==>
        !(e.payload.Some? && e.payload.value.length == Some(0) && !e.payload.value.kind.isMetadata)
      ensures NothingToSpare(st.brigades[h])
    {
      ghost var plan := PlanSweep(st, h, DroppableNode);
      ghost var end := StripEnds(run, Heap(nodes), st, h, plan);
      StripEach(h, plan);
    }

    /** Its loop: FOREACH_SAFE, and what the plan says of every round. */
    method StripEach(h: BucketNode, ghost plan: seq<State<BucketNode>>)
      requires Valid() && h in st.brigades && IsSweep(plan, st, h, DroppableNode) && plan[0] == st
      modifies this, nodes
      ensures Valid() && st == plan[|old(st).brigades[h]|]
    {
      ghost var st0, bs, k := st, st.brigades[h], 0;
      SweepCursor(run, Heap(nodes), st0, h, DroppableNode, plan, 0);
      var e := h.next;
      assert e in nodes;
      var n := e.next;
      while e != h
        invariant Valid() && nodes <= old(nodes) && h in nodes
        invariant k <= |bs| && st == plan[k]
        invariant e == Ahead(h, bs, k)
        invariant k < |bs| ==> e in nodes && e != h && n == Ahead(h, bs, k + 1)
        decreases |bs| - k
      {
        if DroppableNode(e) {
          DeleteVisited(e, st0, h, DroppableNode, plan, k);
        } else {
          SweepPasses(st0, h, DroppableNode, k);
        }
        k := k + 1;
        SweepCursor(run, Heap(nodes), st0, h, DroppableNode, plan, k);
        e := n;
        assert e in nodes;
        n := e.next;
      }
    }

    /** Move the k-th bucket of an iteration, which p selects: REMOVE, then INSERT_TAIL. */
    method MoveVisited(e: BucketNode, h2: BucketNode, ghost st0: State<BucketNode>, ghost h: BucketNode,
                       ghost p: BucketNode -> bool, ghost plan: seq<State<BucketNode>>, ghost k: nat)
      requires Valid() && h in st0.brigades && h2 in st0.brigades && h != h2
      requires IsPart(plan, st0, h, h2, p) && k < |st0.brigades[h]|
      requires st == plan[k] && e == st0.brigades[h][k] && p(e)
      modifies this`nodes, this`st, this`run, nodes
      ensures Valid() && st == plan[k + 1] && nodes == old(nodes)
    {
      PartTurn(run, Heap(nodes), st0, h, h2, p, plan, k);
      Remove(e);
      InsertTail(h2, e);
    }

    /** A safe iteration that moves the buckets that p selects to the end of another brigade: a stable
        partition. */
    method Partition(h: BucketNode, h2: BucketNode, p: BucketNode -> bool) returns (visited: seq<BucketNode>)
      requires Valid() && h in st.brigades && h2 in st.brigades && h != h2
      modifies this, nodes
      ensures Valid() && IsPartition(old(st), st, h, h2, p) && log == old(log)
      ensures var stay, go := Where(old(st).brigades[h], p, false), Where(old(st).brigades[h], p, true);
        st.brigades == old(st).brigades[h := stay][h2 := old(st).brigades[h2] + go]
      ensures visited == old(st).brigades[h]
    {
      ghost var plan := PlanPart(st, h, h2, p);
      PartEnds(run, Heap(nodes), st, h, h2, p, plan);
      visited := MoveEach(h, h2, p, plan);
    }

    method MoveEach(h: BucketNode, h2: BucketNode, p: BucketNode -> bool, ghost plan: seq<State<BucketNode>>)
        returns (visited: seq<BucketNode>)
      requires Valid() && h in st.brigades && h2 in st.brigades && h != h2
      requires IsPart(plan, st, h, h2, p) && plan[0] == st
      modifies this`nodes, this`st, this`run, nodes
      ensures Valid() && st == plan[|old(st).brigades[h]|]
      ensures visited == old(st).brigades[h]
    {
      visited := [];
      ghost var st0, bs, k := st, st.brigades[h], 0;
      PartCursor(run, Heap(nodes), st0, h, h2, p, plan, 0);
      var e := h.next;
      assert e in nodes;
      var n := e.next;
      while e != h
        invariant Valid() && nodes == old(nodes) && h in nodes
        invariant k <= |bs| && st == plan[k]
        invariant visited == bs[..k]
        invariant e == Ahead(h, bs, k)
        invariant k < |bs| ==> e in nodes && e != h && n == Ahead(h, bs, k + 1)
        decreases |bs| - k
      {
        visited := visited + [e];
        assert visited == bs[..k + 1];
        if p(e) {
          MoveVisited(e, h2, st0, h, p, plan, k);
        } else {
          PartPasses(st0, h, h2, p, k);
        }
        k := k + 1;
        PartCursor(run, Heap(nodes), st0, h, h2, p, plan, k);
        e := n;
        assert e in nodes;
        n := e.next;
      }
    }
  }

  /** The nodes of the ring that a is on: their pointers lead to each other. */
  lemma RingOf<T>(run: seq<Moment<Node<T>>>, nodes: set<Node<T>>, st: State<Node<T>>, a: Node<T>)
      returns (S: set<Node<T>>)
    requires Reached(run, Heap(nodes), st) && Anchored(st, a)
    ensures S <= nodes && a in S && ClosedUnder(S) && Verdict(Heap(S), a, None)
  {
    ReachedIsCoupled(run, Heap(nodes), st);
    AnchorGap(st, a);
    var h, k := Host(st, a), After(st, a);
    assert BrigadeRing(Heap(nodes), st, h);
    Rotate(Heap(nodes), [h] + st.brigades[h], k);
    var r := ([h] + st.brigades[h])[k..] + ([h] + st.brigades[h])[..k];
    S := NodesOfRing(nodes, r);
    RingIsWalk(Heap(S), r);
  }

  lemma NodesOfRing<T>(nodes: set<Node<T>>, r: seq<Node<T>>) returns (S: set<Node<T>>)
    requires Ring(Heap(nodes), r)
    ensures S <= nodes && r[0] in S && ClosedUnder(S) && Ring(Heap(S), r)
  {
    S := set x | x in r;
    AllLive(Heap(nodes), r);
    RingIsClosed(nodes, S, r);
    SameCells(nodes, S, r);
    Untouched(Heap(nodes), Heap(S), r);
  }

  lemma AllLive<T>(m: L.Links<T>, r: seq<T>)
    requires Ring(m, r)
    ensures forall x | x in r :: x in m.next
  {
  }

  lemma RingIsClosed<T>(nodes: set<Node<T>>, S: set<Node<T>>, r: seq<Node<T>>)
    requires Ring(Heap(nodes), r) && S == set x | x in r
    ensures ClosedUnder(S)
  {
    forall x {:trigger PointsInto(x, S)} | x in S ensures PointsInto(x, S) {
      Neighbours(Heap(nodes), r, x);
    }
  }

  lemma Neighbours<T>(m: L.Links<T>, r: seq<T>, x: T)
    requires Ring(m, r) && x in r
    ensures L.Live(m, x) && m.next[x] in r && m.prev[x] in r
  {
    var i := IndexOf(r, x);
    var after, before := if i + 1 < |r| then i + 1 else 0, if i > 0 then i - 1 else |r| - 1;
    assert Linked(m, r[i], r[after]) && Linked(m, r[before], r[i]);
  }

  lemma SameCells<T>(nodes: set<Node<T>>, S: set<Node<T>>, r: seq<Node<T>>)
    requires forall x | x in r :: x in nodes && x in S
    ensures Agree(Heap(nodes), Heap(S), r)
  {
    forall i | 0 <= i < |r| ensures r[i] in nodes && r[i] in S { assert r[i] in r; }
  }

  lemma AnchorLive<T>(run: seq<Moment<T>>, m: L.Links<T>, st: State<T>, a: T)
    requires Reached(run, m, st) && Anchored(st, a)
    ensures L.Live(m, a) && L.Live(m, m.next[a]) && L.Live(m, m.prev[a])
  {
    ReachedIsCoupled(run, m, st);
    AnchorGap(st, a);
    var h, k := Host(st, a), After(st, a);
    assert BrigadeRing(m, st, h);
    var r := [h] + st.brigades[h];
    assert Linked(m, r[k], At(r, k + 1));
    assert Linked(m, if k == 0 then r[|r| - 1] else r[k - 1], r[k]);
  }

  lemma DetachedLive<T>(run: seq<Moment<T>>, m: L.Links<T>, st: State<T>, e: T)
    requires Reached(run, m, st) && Detached(st, e)
    ensures L.Live(m, e)
  {
    ReachedIsCoupled(run, m, st);
  }

  lemma EmptyBothWays<T>(run: seq<Moment<T>>, m: L.Links<T>, st: State<T>, h: T)
    requires Reached(run, m, st) && h in st.brigades
    ensures L.Live(m, h)
    ensures m.next[h] == h <==> st.brigades[h] == []
    ensures m.prev[h] == h <==> st.brigades[h] == []
  {
    ReachedIsCoupled(run, m, st);
    assert BrigadeRing(m, st, h);
    TailIsChain(m, h, st.brigades[h]);
    if st.brigades[h] != [] {
      assert st.brigades[h][0] in st.brigades[h] && st.brigades[h][|st.brigades[h]| - 1] in st.brigades[h];
    }
  }

  lemma DestroyStep<T>(run: seq<Moment<T>>, m: L.Links<T>, st: State<T>, e: T)
      returns (st': State<T>, run': seq<Moment<T>>)
    requires Reached(run, m, st) && Detached(st, e)
    ensures L.Live(m, e)
    ensures Reached(run', L.Links(m.next - {e}, m.prev - {e}), st')
    ensures st' == Gone(st, e) && st'.dead == st.dead + [e]
  {
    DetachedLive(run, m, st, e);
    var m';
    m', run' := NextStep(run, m, st, Op.Destroy(e));
    st' := Gone(st, e);
  }

  lemma OpenStep<T>(run: seq<Moment<T>>, m: L.Links<T>, st: State<T>, h: T, n: T, p: T)
      returns (st': State<T>, run': seq<Moment<T>>)
    requires Reached(run, m, st) && Fresh(st, h)
    ensures Reached(run', L.Joined(L.Links(m.next[h := n], m.prev[h := p]), h, h), st')
    ensures st' == st.(brigades := st.brigades[h := []]) && st'.dead == st.dead
  {
    L.InitEffect(L.Links(m.next[h := n], m.prev[h := p]), h);
    var m';
    m', run' := NextStep(run, m, st, Op.NewBrigade(h, n, p));
    st' := st.(brigades := st.brigades[h := []]);
  }

  lemma AllocStep<T>(run: seq<Moment<T>>, m: L.Links<T>, st: State<T>, e: T, n: T, p: T)
      returns (st': State<T>, run': seq<Moment<T>>)
    requires Reached(run, m, st) && Fresh(st, e)
    ensures Reached(run', L.Links(m.next[e := n], m.prev[e := p]), st')
    ensures st' == st.(place := st.place[e := Stale]) && st'.dead == st.dead
  {
    var m';
    m', run' := NextStep(run, m, st, Op.NewBucket(e, n, p));
    st' := st.(place := st.place[e := Stale]);
  }

  lemma InitStep<T>(run: seq<Moment<T>>, m: L.Links<T>, st: State<T>, e: T)
      returns (st': State<T>, run': seq<Moment<T>>)
    requires Reached(run, m, st) && Detached(st, e)
    ensures L.Live(m, e)
    ensures Reached(run', L.Joined(m, e, e), st')
    ensures st' == st.(place := st.place[e := Single]) && st'.dead == st.dead
  {
    DetachedLive(run, m, st, e);
    L.InitEffect(m, e);
    var m';
    m', run' := NextStep(run, m, st, Op.InitBucket(e));
    st' := st.(place := st.place[e := Single]);
  }

  lemma BeforeStep<T>(run: seq<Moment<T>>, m: L.Links<T>, st: State<T>, a: T, e: T)
      returns (st': State<T>, run': seq<Moment<T>>)
    requires Reached(run, m, st) && Anchored(st, a) && Detached(st, e)
    ensures L.Live(m, a) && L.Live(m, e) && L.Live(m, m.prev[a])
    ensures Reached(run', L.Spliced(m, m.prev[a], a, e, e), st')
    ensures st' == PutBefore(st, a, e) && st'.dead == st.dead
  {
    AnchorLive(run, m, st, a);
    DetachedLive(run, m, st, e);
    L.SpliceBeforeEffect(m, a, e, e);
    var m';
    m', run' := NextStep(run, m, st, Op.InsertBefore(a, e));
    st' := PutBefore(st, a, e);
  }

  lemma AfterStep<T>(run: seq<Moment<T>>, m: L.Links<T>, st: State<T>, a: T, e: T)
      returns (st': State<T>, run': seq<Moment<T>>)
    requires Reached(run, m, st) && Anchored(st, a) && Detached(st, e)
    ensures L.Live(m, a) && L.Live(m, e) && L.Live(m, m.next[a])
    ensures Reached(run', L.Spliced(m, a, m.next[a], e, e), st')
    ensures st' == PutAfter(st, a, e) && st'.dead == st.dead
  {
    AnchorLive(run, m, st, a);
    DetachedLive(run, m, st, e);
    L.SpliceAfterEffect(m, a, e, e);
    var m';
    m', run' := NextStep(run, m, st, Op.InsertAfter(a, e));
    st' := PutAfter(st, a, e);
  }

  lemma TailStep<T>(run: seq<Moment<T>>, m: L.Links<T>, st: State<T>, h: T, e: T)
      returns (st': State<T>, run': seq<Moment<T>>)
    requires Reached(run, m, st) && h in st.brigades && Detached(st, e)
    ensures L.Live(m, h) && L.Live(m, e) && L.Live(m, m.prev[h])
    ensures Reached(run', L.Spliced(m, m.prev[h], h, e, e), st')
    ensures st' == Put(st, h, |st.brigades[h]|, e) && st'.dead == st.dead
  {
    AnchorLive(run, m, st, h);
    DetachedLive(run, m, st, e);
    L.SpliceBeforeEffect(m, h, e, e);
    var m';
    m', run' := NextStep(run, m, st, Op.InsertTail(h, e));
    st' := Put(st, h, |st.brigades[h]|, e);
  }

  lemma HeadStep<T>(run: seq<Moment<T>>, m: L.Links<T>, st: State<T>, h: T, e: T)
      returns (st': State<T>, run': seq<Moment<T>>)
    requires Reached(run, m, st) && h in st.brigades && Detached(st, e)
    ensures L.Live(m, h) && L.Live(m, e) && L.Live(m, m.next[h])
    ensures Reached(run', L.Spliced(m, h, m.next[h], e, e), st')
    ensures st' == Put(st, h, 0, e) && st'.dead == st.dead
  {
    AnchorLive(run, m, st, h);
    DetachedLive(run, m, st, e);
    L.SpliceAfterEffect(m, h, e, e);
    var m';
    m', run' := NextStep(run, m, st, Op.InsertHead(h, e));
    st' := Put(st, h, 0, e);
  }

  lemma ConcatStep<T>(run: seq<Moment<T>>, m: L.Links<T>, st: State<T>, a: T, b: T)
      returns (st': State<T>, run': seq<Moment<T>>)
    requires Reached(run, m, st) && a in st.brigades && b in st.brigades && a != b
    ensures L.Live(m, a) && L.Live(m, b) && L.Live(m, m.prev[a]) && L.Live(m, m.next[b]) && L.Live(m, m.prev[b])
    ensures m.next[b] != b ==> m.prev[b] != b
    ensures Reached(run', if m.next[b] == b then m else Moved(m, m.prev[a], a, b), st')
    ensures st' == Merged(st, a, b, st.brigades[a] + st.brigades[b]) && st'.dead == st.dead
  {
    AnchorLive(run, m, st, a);
    AnchorLive(run, m, st, b);
    EmptyBothWays(run, m, st, b);
    ConcatEffect(m, a, b);
    var m';
    m', run' := NextStep(run, m, st, Op.Concat(a, b));
    st' := Merged(st, a, b, st.brigades[a] + st.brigades[b]);
  }

  lemma PrependStep<T>(run: seq<Moment<T>>, m: L.Links<T>, st: State<T>, a: T, b: T)
      returns (st': State<T>, run': seq<Moment<T>>)
    requires Reached(run, m, st) && a in st.brigades && b in st.brigades && a != b
    ensures L.Live(m, a) && L.Live(m, b) && L.Live(m, m.next[a]) && L.Live(m, m.next[b]) && L.Live(m, m.prev[b])
    ensures m.next[b] != b ==> m.prev[b] != b
    ensures Reached(run', if m.next[b] == b then m else Moved(m, a, m.next[a], b), st')
    ensures st' == Merged(st, a, b, st.brigades[b] + st.brigades[a]) && st'.dead == st.dead
  {
    AnchorLive(run, m, st, a);
    AnchorLive(run, m, st, b);
    EmptyBothWays(run, m, st, b);
    PrependEffect(m, a, b);
    var m';
    m', run' := NextStep(run, m, st, Op.Prepend(a, b));
    st' := Merged(st, a, b, st.brigades[b] + st.brigades[a]);
  }

  lemma RemovableIsLive<T>(run: seq<Moment<T>>, m: L.Links<T>, st: State<T>, e: T)
    requires Reached(run, m, st) && Removable(m, st, e)
    ensures L.Live(m, e) && L.Live(m, m.next[e]) && L.Live(m, m.prev[e])
  {
    if st.place[e].In? {
      AnchorLive(run, m, st, e);
    } else if st.place[e].Single? {
      ReachedIsCoupled(run, m, st);
      assert SingleRing(m, e);
    }
  }

  lemma RemoveStep<T>(run: seq<Moment<T>>, m: L.Links<T>, st: State<T>, e: T)
      returns (st': State<T>, run': seq<Moment<T>>)
    requires Reached(run, m, st) && Removable(m, st, e)
    ensures L.Live(m, e) && L.Live(m, m.next[e]) && L.Live(m, m.prev[e])
    ensures Reached(run', L.Joined(m, m.prev[e], m.next[e]), st')
    ensures st' == Removed(st, e) && Detached(st', e) && st'.dead == st.dead
  {
    RemovableIsLive(run, m, st, e);
    L.UnspliceEffect(m, e, e);
    var m';
    m', run' := NextStep(run, m, st, Op.Remove(e));
    st' := Removed(st, e);
  }

  /** What NEXT gives in a brigade that holds kept and, still ahead, the buckets of bs from the k-th on. */
  lemma Cursor<T>(run: seq<Moment<T>>, m: L.Links<T>, st: State<T>, h: T, kept: seq<T>, bs: seq<T>, k: nat)
    requires Reached(run, m, st) && h in st.brigades && k <= |bs| && st.brigades[h] == kept + bs[k..]
    ensures Books(st) && Distinct(st.brigades[h]) && L.Live(m, h) && L.Live(m, m.next[h])
    ensures kept == [] ==> m.next[h] == Ahead(h, bs, k)
    ensures k < |bs| ==> Ahead(h, bs, k) == bs[k] != h && L.Live(m, bs[k]) && m.next[bs[k]] == Ahead(h, bs, k + 1)
  {
    ReachedIsCoupled(run, m, st);
    assert BrigadeRing(m, st, h);
    var all, rest := kept + bs[k..], bs[k..];
    var r := [h] + all;
    TailIsChain(m, h, all);
    if k < |bs| {
      var i := |kept| + 1;
      assert r[i] == bs[k];
      StepForward(m, r, i);
      assert rest[0] in all && rest[1..] == bs[k + 1..];
      if |rest| > 1 { assert r[i + 1] == rest[1]; }
    }
  }

  lemma DrainPlan(run: seq<Moment<BucketNode>>, m: L.Links<BucketNode>, st0: State<BucketNode>, h: BucketNode,
                  plan: seq<State<BucketNode>>, k: nat)
    requires h in st0.brigades && IsSweep(plan, st0, h, Any) && k <= |st0.brigades[h]| && Reached(run, m, plan[k])
    ensures var bs := st0.brigades[h];
      && L.Live(m, h) && m.next[h] == Ahead(h, bs, k)
      && (k < |bs| ==> L.Live(m, bs[k]) && bs[k] != h)
  {
    var bs, now := st0.brigades[h], Swept(st0, h, Any, k);
    WhereAll(bs[..k]);
    assert [] + bs[k..] == bs[k..];
    Cursor(run, m, now, h, [], bs, k);
  }

  /** What a finished draining comes to. */
  lemma Drained(st: State<BucketNode>, h: BucketNode, log: seq<Call>)
    requires h in st.brigades && log == Calls(st.dead)
    ensures var bs := st.brigades[h];
            var end := Swept(st, h, Any, |bs|);
            end.brigades[h] == [] && end.dead == st.dead + bs && Calls(end.dead) == log + Calls(bs)
  {
    var bs := st.brigades[h];
    assert bs[..|bs|] == bs;
    WhereAll(bs);
    CallsConcat(st.dead, bs);
  }

  /** Where a cursor leads in round k of a sweep. */
  lemma SweepCursor<T>(run: seq<Moment<T>>, m: L.Links<T>, st0: State<T>, h: T, p: T -> bool,
                       plan: seq<State<T>>, k: nat)
    requires h in st0.brigades
    requires IsSweep(plan, st0, h, p) && k <= |st0.brigades[h]| && Reached(run, m, plan[k])
    ensures L.Live(m, h) && L.Live(m, m.next[h])
    ensures k == 0 ==> m.next[h] == Ahead(h, st0.brigades[h], 0)
    ensures k < |st0.brigades[h]| ==>
      var bs := st0.brigades[h];
      Ahead(h, bs, k) == bs[k] != h && L.Live(m, bs[k]) && m.next[bs[k]] == Ahead(h, bs, k + 1)
  {
    Cursor(run, m, Swept(st0, h, p, k), h, Where(st0.brigades[h][..k], p, false), st0.brigades[h], k);
  }

  lemma SweepTurn<T>(run: seq<Moment<T>>, m: L.Links<T>, st0: State<T>, h: T, p: T -> bool, plan: seq<State<T>>, k: nat)
    requires h in st0.brigades
    requires IsSweep(plan, st0, h, p) && k < |st0.brigades[h]| && Reached(run, m, plan[k])
    ensures var now, e := plan[k], st0.brigades[h][k];
            if p(e) then Attached(now, e) && Gone(Removed(now, e), e) == plan[k + 1]
            else now == plan[k + 1]
  {
    Cursor(run, m, Swept(st0, h, p, k), h, Where(st0.brigades[h][..k], p, false), st0.brigades[h], k);
    SweepRound(st0, h, p, k);
    assert plan[k + 1] == Swept(st0, h, p, k + 1);
  }

  lemma PartCursor<T>(run: seq<Moment<T>>, m: L.Links<T>, st0: State<T>, h: T, h2: T, p: T -> bool,
                      plan: seq<State<T>>, k: nat)
    requires h in st0.brigades && h2 in st0.brigades && h != h2
    requires IsPart(plan, st0, h, h2, p) && k <= |st0.brigades[h]| && Reached(run, m, plan[k])
    ensures L.Live(m, h) && L.Live(m, m.next[h])
    ensures k == 0 ==> m.next[h] == Ahead(h, st0.brigades[h], 0)
    ensures k < |st0.brigades[h]| ==>
      var bs := st0.brigades[h];
      Ahead(h, bs, k) == bs[k] != h && L.Live(m, bs[k]) && m.next[bs[k]] == Ahead(h, bs, k + 1)
  {
    Cursor(run, m, Parted(st0, h, h2, p, k), h, Where(st0.brigades[h][..k], p, false), st0.brigades[h], k);
  }

  lemma PartTurn<T>(run: seq<Moment<T>>, m: L.Links<T>, st0: State<T>, h: T, h2: T, p: T -> bool,
                    plan: seq<State<T>>, k: nat)
    requires h in st0.brigades && h2 in st0.brigades && h != h2
    requires IsPart(plan, st0, h, h2, p) && k < |st0.brigades[h]| && Reached(run, m, plan[k])
    ensures var now, e := plan[k], st0.brigades[h][k];
            if p(e) then
              && Attached(now, e) && h2 in Removed(now, e).brigades && Detached(Removed(now, e), e)
              && Put(Removed(now, e), h2, |Removed(now, e).brigades[h2]|, e) == plan[k + 1]
            else now == plan[k + 1]
  {
    Cursor(run, m, Parted(st0, h, h2, p, k), h, Where(st0.brigades[h][..k], p, false), st0.brigades[h], k);
    PartRound(st0, h, h2, p, k);
    assert plan[k + 1] == Parted(st0, h, h2, p, k + 1);
  }

  lemma PartEnds<T>(run: seq<Moment<T>>, m: L.Links<T>, st0: State<T>, h: T, h2: T, p: T -> bool, plan: seq<State<T>>)
    requires h in st0.brigades && h2 in st0.brigades && h != h2
    requires IsPart(plan, st0, h, h2, p) && Reached(run, m, st0)
    ensures IsPartition(st0, plan[|st0.brigades[h]|], h, h2, p)
  {
    ReachedIsCoupled(run, m, st0);
    Partitioned(st0, h, h2, p);
  }

  // ----- what a brigade carries -----

  /** The buckets proper; a sentinel would carry nothing. */
  ghost function Payloads(es: seq<BucketNode>): seq<Bucket> {
    if es == [] then []
    else Payloads(es[..|es| - 1]) + if es[|es| - 1].payload.Some? then [es[|es| - 1].payload.value] else []
  }

  /** Of buckets proper nothing is left out. */
  lemma {:induction false} PayloadsOfBuckets(es: seq<BucketNode>)
    requires forall e | e in es :: e.payload.Some?
    ensures |Payloads(es)| == |es| && forall i | 0 <= i < |es| :: Payloads(es)[i] == es[i].payload.value
  {
    if es != [] {
      var front := es[..|es| - 1];
      assert es == front + [es[|es| - 1]];
      PayloadsOfBuckets(front);
    }
  }

  lemma {:induction false} PayloadsConcat(s: seq<BucketNode>, t: seq<BucketNode>)
    ensures Payloads(s + t) == Payloads(s) + Payloads(t)
  {
    if t == [] {
      assert s + t == s;
    } else {
      var front, e := t[..|t| - 1], t[|t| - 1];
      assert s + t == (s + front) + [e] && t == front + [e];
      PayloadsConcat(s, front);
      PayloadsNext(s + front, e);
      PayloadsNext(front, e);
    }
  }

  /** Taking any bucket that is not droppable out of a brigade changes what it carries. */
  lemma NodeIsNeeded(es: seq<BucketNode>, i: nat)
    requires i < |es| && es[i].payload.Some? && !DroppableNode(es[i])
    ensures Stream(Payloads(Cut(es, i, i + 1))) != Stream(Payloads(es))
  {
    var front, e, rest := es[..i], es[i], es[i + 1..];
    assert es == front + [e] + rest && Cut(es, i, i + 1) == front + rest;
    PayloadsConcat(front, rest);
    PayloadsConcat(front + [e], rest);
    PayloadsNext(front, e);
    var all := Payloads(es);
    var k := |Payloads(front)|;
    assert all[..k] == Payloads(front) && all[k + 1..] == Payloads(rest) && all[k] == e.payload.value;
    EachIsNeeded(all, k);
  }

  lemma PayloadsNext(s: seq<BucketNode>, e: BucketNode)
    ensures Payloads(s + [e]) == if e.payload.Some? then Payloads(s) + [e.payload.value] else Payloads(s)
  {
    assert (s + [e])[..|s|] == s && Payloads(s) + [] == Payloads(s);
  }

  lemma WhereLast<T>(s: seq<T>, e: T, p: T -> bool)
    ensures Where(s + [e], p, false) == if p(e) then Where(s, p, false) else Where(s, p, false) + [e]
  {
    assert (s + [e])[..|s|] == s;
    assert Where(s, p, false) + [] == Where(s, p, false);
  }

  lemma {:induction false} StrippedPayloads(es: seq<BucketNode>)
    ensures Payloads(Where(es, DroppableNode, false)) == Where(Payloads(es), Droppable, false)
  {
    if es != [] {
      var front, e := es[..|es| - 1], es[|es| - 1];
      assert es == front + [e];
      StrippedPayloads(front);
      WhereLast(front, e, DroppableNode);
      PayloadsNext(front, e);
      if e.payload.Some? { WhereLast(Payloads(front), e.payload.value, Droppable); }
      if !DroppableNode(e) { PayloadsNext(Where(front, DroppableNode, false), e); }
    }
  }

  /** No bucket can be taken out without a change of what is carried. */
  ghost predicate NothingToSpare(es: seq<BucketNode>) {
    forall i | 0 <= i < |es| && es[i].payload.Some? :: Stream(Payloads(Cut(es, i, i + 1))) != Stream(Payloads(es))
  }

  /** Stripping changes no byte and no metadata of what the brigade carries.  It takes exactly the buckets of
      length zero that are not metadata, and no more could be taken. */
  lemma StripKeepsStream(st: State<BucketNode>, end: State<BucketNode>, h: BucketNode)
    requires h in st.brigades && IsSwept(st, end, h, DroppableNode)
    ensures h in end.brigades && Stream(Payloads(end.brigades[h])) == Stream(Payloads(st.brigades[h]))
    ensures forall e :: e in end.brigades[h] <==>
      (e in st.brigades[h]
        && !(e.payload.Some? && e.payload.value.length == Some(0) && !e.payload.value.kind.isMetadata))
    ensures NothingToSpare(end.brigades[h])
  {
    var bs := st.brigades[h];
    StrippedPayloads(bs);
    StrippedStream(Payloads(bs));
    WhereMembers(bs, DroppableNode, false);
    var es := end.brigades[h];
    forall i | 0 <= i < |es| && es[i].payload.Some?
      ensures Stream(Payloads(Cut(es, i, i + 1))) != Stream(Payloads(es))
    {
      assert es[i] in es;
      NodeIsNeeded(es, i);
    }
  }

  /** What a finished stripping comes to. */
  lemma StripEnds(run: seq<Moment<BucketNode>>, m: L.Links<BucketNode>, st0: State<BucketNode>, h: BucketNode,
                  plan: seq<State<BucketNode>>) returns (end: State<BucketNode>)
    requires h in st0.brigades && IsSweep(plan, st0, h, DroppableNode) && Reached(run, m, st0)
    ensures end == plan[|st0.brigades[h]|]
    ensures IsSwept(st0, end, h, DroppableNode)
    ensures Calls(end.dead) == Calls(st0.dead) + Calls(Where(st0.brigades[h], DroppableNode, true))
    ensures h in end.brigades && Stream(Payloads(end.brigades[h])) == Stream(Payloads(st0.brigades[h]))
    ensures forall e | e in st0.brigades[h] :: e in end.brigades[h] <==>
      !(e.payload.Some? && e.payload.value.length == Some(0) && !e.payload.value.kind.isMetadata)
    ensures NothingToSpare(end.brigades[h])
  {
    ReachedIsCoupled(run, m, st0);
    FullySwept(st0, h, DroppableNode);
    end := Swept(st0, h, DroppableNode, |st0.brigades[h]|);
    StripKeepsStream(st0, end, h);
    CallsConcat(st0.dead, Where(st0.brigades[h], DroppableNode, true));
  }

  /** In every world, at any time, everything is well kept. */
  lemma WorldIsWellKept(w: World, heads: seq<BucketNode>)
    requires w.Valid() && ListsAll(w.st, heads)
    ensures WellKept(Heap(w.nodes), w.st, heads) && w.log == Calls(w.st.dead)
  {
    ReachedIsCoupled(w.run, Heap(w.nodes), w.st);
    CoupledIsWellKept(Heap(w.nodes), w.st, heads);
  }
}
