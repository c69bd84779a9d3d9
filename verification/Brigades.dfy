/** Bucket brigades as a state machine.

    A `State` says where every bucket ever allocated is; an `Op` is one use of a macro of
    apr_buckets.h, or an allocation.  `Step` says what the macro is meant to do to the brigades, `StepMem`
    runs its pointer assignments.  Memory of a freed bucket leaves the `Links`, so a step that
    touched it would have no result. */
module Brigades {
  import opened Options
  import opened RingTheory
  import opened Consistency
  import L = LinkMemory

  /** A bucket is on a brigade, or its own pointers form a loop, or they are stale, or it is gone. */
  datatype Place<T> = In(head: T) | Single | Stale | Freed

  datatype State<T(==)> = State(
    brigades: map<T, seq<T>>,   // the buckets of each brigade, by sentinel
    place: map<T, Place<T>>,    // every bucket ever allocated
    dead: seq<T>)               // destroyed buckets in order

  datatype Op<T> =
    | NewBrigade(h: T, next: T, prev: T)   // the two cells of new memory hold anything
    | NewBucket(e: T, next: T, prev: T)
    | InitBucket(e: T)
    | InsertHead(h: T, e: T)
    | InsertTail(h: T, e: T)
    | InsertBefore(a: T, e: T)
    | InsertAfter(a: T, e: T)
    | Concat(a: T, b: T)
    | Prepend(a: T, b: T)
    | Remove(e: T)
    | Destroy(e: T)
    | Delete(e: T)

  // ----- what the macros do to the pointers -----

  ghost function Free<T>(m: L.Links<T>, e: T): Option<L.Links<T>> {
    if L.Live(m, e) then Some(L.Links(m.next - {e}, m.prev - {e})) else None
  }

  ghost function StepMem<T>(m: L.Links<T>, op: Op<T>): Option<L.Links<T>> {
    match op
    case NewBrigade(h, n, p) => L.Exec(L.Links(m.next[h := n], m.prev[h := p]), L.Init(L.Ptr(h)))
    case NewBucket(e, n, p) => Some(L.Links(m.next[e := n], m.prev[e := p]))
    case InitBucket(e) => L.Exec(m, L.Init(L.Ptr(e)))
    case InsertHead(h, e) => L.Exec(m, L.SpliceAfter(L.Ptr(h), L.Ptr(e), L.Ptr(e)))
    case InsertTail(h, e) => L.Exec(m, L.SpliceBefore(L.Ptr(h), L.Ptr(e), L.Ptr(e)))
    case InsertBefore(a, e) => L.Exec(m, L.SpliceBefore(L.Ptr(a), L.Ptr(e), L.Ptr(e)))
    case InsertAfter(a, e) => L.Exec(m, L.SpliceAfter(L.Ptr(a), L.Ptr(e), L.Ptr(e)))
    case Concat(a, b) => L.Exec(m, L.Concat(L.Ptr(a), L.Ptr(b)))
    case Prepend(a, b) => L.Exec(m, L.Prepend(L.Ptr(a), L.Ptr(b)))
    case Remove(e) => L.Exec(m, L.Remove(L.Ptr(e)))
    case Destroy(e) => Free(m, e)
    case Delete(e) =>
      var r := L.Exec(m, L.Remove(L.Ptr(e)));
      if r.Some? then Free(r.value, e) else None
  }

  // ----- what they do to the brigades -----

  ghost predicate Anchored<T>(st: State<T>, a: T) {
    || a in st.brigades
    || (a in st.place && st.place[a].In? && st.place[a].head in st.brigades && a in st.brigades[st.place[a].head])
  }

  /** The brigade that a, a sentinel or a bucket, belongs to. */
  ghost function Host<T>(st: State<T>, a: T): T
    requires Anchored(st, a)
  {
    if a in st.brigades then a else st.place[a].head
  }

  /** The index in the brigade of the bucket that follows a. */
  ghost function After<T>(st: State<T>, a: T): nat
    requires Anchored(st, a)
  {
    if a in st.brigades then 0 else IndexOf(st.brigades[st.place[a].head], a) + 1
  }

  /** The index of a itself, the sentinel coming last. */
  ghost function Before<T>(st: State<T>, a: T): nat
    requires Anchored(st, a)
  {
    if a in st.brigades then |st.brigades[a]| else IndexOf(st.brigades[st.place[a].head], a)
  }

  ghost predicate Detached<T>(st: State<T>, e: T) {
    e in st.place && (st.place[e].Single? || st.place[e].Stale?)
  }

  ghost predicate Fresh<T>(st: State<T>, e: T) {
    e !in st.brigades && e !in st.place
  }

  ghost predicate Attached<T>(st: State<T>, e: T) {
    Anchored(st, e) && e !in st.brigades
  }

  ghost predicate IsStale<T>(st: State<T>, x: T) {
    x in st.place && st.place[x].Stale?
  }

  /** The neighbours that e remembers are live and, unless they are stale too, point past it at each other. */
  ghost predicate PassedBy<T>(m: L.Links<T>, st: State<T>, e: T) {
    && L.Live(m, e) && L.Live(m, m.prev[e]) && L.Live(m, m.next[e])
    && (IsStale(st, m.prev[e]) || m.next[m.prev[e]] == m.next[e])
    && (IsStale(st, m.next[e]) || m.prev[m.next[e]] == m.prev[e])
  }

  /** What REMOVE asks for.  The documentation of delete asks for no more than a bucket "in its brigade (if
      any)"; `RemovableExactly` shows that a removed bucket has to be passed by. */
  ghost predicate Removable<T>(m: L.Links<T>, st: State<T>, e: T) {
    Attached(st, e) || (Detached(st, e) && (st.place[e].Stale? ==> PassedBy(m, st, e)))
  }

  /** What each operation needs to mean anything. */
  ghost predicate Allowed<T>(st: State<T>, op: Op<T>) {
    match op
    case NewBrigade(h, _, _) => Fresh(st, h)
    case NewBucket(e, _, _) => Fresh(st, e)
    case InitBucket(e) => Detached(st, e)
    case InsertHead(h, e) => h in st.brigades && Detached(st, e)
    case InsertTail(h, e) => h in st.brigades && Detached(st, e)
    case InsertBefore(a, e) => Anchored(st, a) && Detached(st, e)
    case InsertAfter(a, e) => Anchored(st, a) && Detached(st, e)
    case Concat(a, b) => a in st.brigades && b in st.brigades && a != b
    case Prepend(a, b) => a in st.brigades && b in st.brigades && a != b
    case Remove(e) => Attached(st, e) || Detached(st, e)
    case Destroy(e) => Detached(st, e)
    case Delete(e) => Attached(st, e) || Detached(st, e)
  }

  /** What each operation asks of its caller. */
  ghost predicate Enabled<T>(m: L.Links<T>, st: State<T>, op: Op<T>) {
    Allowed(st, op) && (op.Remove? || op.Delete? ==> Removable(m, st, op.e))
  }

  ghost function Put<T>(st: State<T>, h: T, i: nat, e: T): State<T>
    requires h in st.brigades && i <= |st.brigades[h]|
  {
    st.(brigades := st.brigades[h := Inserted(st.brigades[h], i, [e])], place := st.place[e := In(h)])
  }

  ghost function PutBefore<T>(st: State<T>, a: T, e: T): State<T>
    requires Anchored(st, a)
  {
    Put(st, Host(st, a), Before(st, a), e)
  }

  ghost function PutAfter<T>(st: State<T>, a: T, e: T): State<T>
    requires Anchored(st, a)
  {
    Put(st, Host(st, a), After(st, a), e)
  }

  ghost function Taken<T>(st: State<T>, e: T): State<T>
    requires Attached(st, e)
  {
    var h, i := st.place[e].head, Before(st, e);
    st.(brigades := st.brigades[h := Cut(st.brigades[h], i, i + 1)], place := st.place[e := Stale])
  }

  ghost function Removed<T>(st: State<T>, e: T): State<T>
    requires Attached(st, e) || Detached(st, e)
  {
    if st.place[e].In? then Taken(st, e) else st
  }

  ghost function Gone<T>(st: State<T>, e: T): State<T> {
    st.(place := st.place[e := Freed], dead := st.dead + [e])
  }

  /** Brigade b emptied, its buckets now on a, where `all` is what a then holds. */
  ghost function Merged<T>(st: State<T>, a: T, b: T, all: seq<T>): State<T>
    requires b in st.brigades
  {
    st.(brigades := st.brigades[a := all][b := []],
        place := map e | e in st.place :: if e in st.brigades[b] then In(a) else st.place[e])
  }

  ghost function Step<T>(st: State<T>, op: Op<T>): State<T>
    requires Allowed(st, op)
  {
    match op
    case NewBrigade(h, _, _) => st.(brigades := st.brigades[h := []])
    case NewBucket(e, _, _) => st.(place := st.place[e := Stale])
    case InitBucket(e) => st.(place := st.place[e := Single])
    case InsertHead(h, e) => Put(st, h, 0, e)
    case InsertTail(h, e) => Put(st, h, |st.brigades[h]|, e)
    case InsertBefore(a, e) => PutBefore(st, a, e)
    case InsertAfter(a, e) => PutAfter(st, a, e)
    case Concat(a, b) => Merged(st, a, b, st.brigades[a] + st.brigades[b])
    case Prepend(a, b) => Merged(st, a, b, st.brigades[b] + st.brigades[a])
    case Remove(e) => Removed(st, e)
    case Destroy(e) => Gone(st, e)
    case Delete(e) => Gone(Removed(st, e), e)
  }

  // ----- the invariant -----

  ghost predicate OnlyIn<T>(st: State<T>, h: T, e: T) {
    e !in st.brigades && e in st.place && st.place[e] == In(h)
  }

  /** The books: a bucket is on the brigade that its place names, and on no other; the destroyed
      buckets were destroyed once. */
  ghost predicate Books<T>(st: State<T>) {
    match st
    case State(brigades, place, dead) =>
      && (forall h | h in brigades :: h !in place)
      && (forall h, i | h in brigades && 0 <= i < |brigades[h]| :: OnlyIn(st, h, brigades[h][i]))
      && (forall e | e in place && place[e].In? :: place[e].head in brigades && e in brigades[place[e].head])
      && Distinct(dead)
      && (forall e | e in place :: place[e].Freed? <==> e in dead)
      && (forall i | 0 <= i < |dead| :: dead[i] in place)
  }

  ghost predicate Alive<T>(st: State<T>, x: T) {
    x in st.brigades || (x in st.place && !st.place[x].Freed?)
  }

  /** Exactly the live nodes have memory. */
  ghost predicate Mapped<T>(m: L.Links<T>, st: State<T>) {
    match st
    case State(brigades, place, _) =>
      && m.next.Keys == m.prev.Keys
      && (forall x | x in m.next :: Alive(st, x))
      && (forall h | h in brigades :: L.Live(m, h))
      && (forall e | e in place && !place[e].Freed? :: L.Live(m, e))
  }

  ghost predicate BrigadeRing<T>(m: L.Links<T>, st: State<T>, h: T)
    requires h in st.brigades
  {
    Ring(m, [h] + st.brigades[h])
  }

  ghost predicate SingleRing<T>(m: L.Links<T>, e: T) {
    Ring(m, [e])
  }

  /** The pointers say what the books say. */
  ghost predicate Coupled<T>(m: L.Links<T>, st: State<T>) {
    match st
    case State(brigades, place, _) =>
      && Books(st)
      && Mapped(m, st)
      && (forall h {:trigger BrigadeRing(m, st, h)} | h in brigades :: BrigadeRing(m, st, h))
      && (forall e {:trigger SingleRing(m, e)} | e in place && place[e].Single? :: SingleRing(m, e))
  }

  // ----- insertion -----

  lemma NotOnOtherRing<T>(st: State<T>, h: T, k: T, x: T)
    requires Books(st) && h in st.brigades && k in st.brigades && h != k && x in [h] + st.brigades[h]
    ensures x !in [k] + st.brigades[k]
  {
    assert x == h || OnlyIn(st, h, x);
  }

  /** A change of cells of `own` and of e only leaves the other brigades rings. */
  ghost predicate ChangedWithin<T>(m: L.Links<T>, m': L.Links<T>, own: seq<T>) {
    && m'.next.Keys == m.next.Keys && m'.prev.Keys == m.prev.Keys
    && (forall x | x in m.next && x !in own :: m'.next[x] == m.next[x])
    && (forall x | x in m.prev && x !in own :: m'.prev[x] == m.prev[x])
  }

  lemma OtherRingKept<T>(m: L.Links<T>, m': L.Links<T>, own: seq<T>, r: seq<T>)
    requires Ring(m, r) && ChangedWithin(m, m', own) && forall x | x in r :: x !in own
    ensures Ring(m', r)
  {
    forall i | 0 <= i < |r| ensures r[i] !in own { assert r[i] in r; }
    Untouched(m, m', r);
  }

  lemma PutBooks<T>(st: State<T>, h: T, i: nat, e: T)
    requires Books(st) && h in st.brigades && i <= |st.brigades[h]| && Detached(st, e)
    ensures Books(Put(st, h, i, e))
  {
    var st' := Put(st, h, i, e);
    var bs, bs' := st.brigades[h], st'.brigades[h];
    forall k, j | k in st'.brigades && 0 <= j < |st'.brigades[k]| ensures OnlyIn(st', k, st'.brigades[k][j]) {
      if k == h {
        assert bs'[j] == if j < i then bs[j] else if j == i then e else bs[j - 1];
        if j < i { assert OnlyIn(st, h, bs[j]); }
        if j > i { assert OnlyIn(st, h, bs[j - 1]); }
      } else {
        assert OnlyIn(st, k, st.brigades[k][j]);
      }
    }
    assert e in bs' && forall x | x in bs :: x in bs' by {
      assert bs'[i] == e;
      forall x | x in bs ensures x in bs' {
        var j :| 0 <= j < |bs| && bs[j] == x;
        assert bs'[if j < i then j else j + 1] == x;
      }
    }
  }

  lemma InsertedBehindHead<T>(h: T, bs: seq<T>, i: nat, e: T)
    requires i <= |bs|
    ensures Inserted([h] + bs, i + 1, [e]) == [h] + Inserted(bs, i, [e])
  {
  }

  lemma CutBehindHead<T>(h: T, bs: seq<T>, i: nat)
    requires i < |bs|
    ensures Cut([h] + bs, i + 1, i + 2) == [h] + Cut(bs, i, i + 1)
  {
  }

  lemma DetachedNotOnBrigade<T>(st: State<T>, h: T, e: T)
    requires Books(st) && h in st.brigades && Detached(st, e)
    ensures e !in [h] + st.brigades[h]
  {
    forall i | 0 <= i < |st.brigades[h]| ensures st.brigades[h][i] != e { assert OnlyIn(st, h, st.brigades[h][i]); }
  }

  lemma PutRing<T>(m: L.Links<T>, h: T, bs: seq<T>, i: nat, e: T) returns (m': L.Links<T>)
    requires Ring(m, [h] + bs) && i <= |bs| && L.Live(m, e) && e !in [h] + bs
    ensures var r := [h] + bs;
            && L.Exec(m, L.SpliceBefore(L.Ptr(At(r, i + 1)), L.Ptr(e), L.Ptr(e))) == Some(m')
            && L.Exec(m, L.SpliceAfter(L.Ptr(r[i]), L.Ptr(e), L.Ptr(e))) == Some(m')
            && ChangedWithin(m, m', r + [e])
    ensures Ring(m', [h] + Inserted(bs, i, [e]))
  {
    var r := [h] + bs;
    m' := SpliceFillsGap(m, r, i + 1, [e]);
    InsertedBehindHead(h, bs, i, e);
    assert r[i] in r + [e] && At(r, i + 1) in r + [e] && e in r + [e];
  }

  /** e goes in between two neighbours of brigade h. */
  lemma PutSound<T>(m: L.Links<T>, st: State<T>, h: T, i: nat, e: T) returns (m': L.Links<T>)
    requires Coupled(m, st) && h in st.brigades && i <= |st.brigades[h]| && Detached(st, e)
    ensures var r := [h] + st.brigades[h];
            && L.Exec(m, L.SpliceBefore(L.Ptr(At(r, i + 1)), L.Ptr(e), L.Ptr(e))) == Some(m')
            && L.Exec(m, L.SpliceAfter(L.Ptr(r[i]), L.Ptr(e), L.Ptr(e))) == Some(m')
    ensures Coupled(m', Put(st, h, i, e))
  {
    DetachedNotOnBrigade(st, h, e);
    assert BrigadeRing(m, st, h);
    m' := PutRing(m, h, st.brigades[h], i, e);
    PutBooks(st, h, i, e);
    var st' := Put(st, h, i, e);
    OthersKept(m, m', st, h, [h] + st.brigades[h] + [e], e);
    Recoupled(m', st, st', h, e);
  }

  /** If only cells of brigade h and of e change, where e is on no brigade or on h, all else stays as it was. */
  lemma OthersKept<T>(m: L.Links<T>, m': L.Links<T>, st: State<T>, h: T, own: seq<T>, e: T)
    requires Coupled(m, st) && h in st.brigades && ChangedWithin(m, m', own)
    requires forall x | x in own :: x == e || x in [h] + st.brigades[h]
    requires Detached(st, e) || e in [h] + st.brigades[h]
    ensures forall k {:trigger BrigadeRing(m', st, k)} | k in st.brigades && k != h :: BrigadeRing(m', st, k)
    ensures forall x {:trigger SingleRing(m', x)} | x in st.place && st.place[x].Single? && x != e :: SingleRing(m', x)
    ensures Mapped(m', st)
  {
    forall k | k in st.brigades && k != h ensures BrigadeRing(m', st, k) {
      assert BrigadeRing(m, st, k);
      var r := [k] + st.brigades[k];
      forall x | x in r ensures x !in own {
        assert x == k || OnlyIn(st, k, x);
        NotOnOtherRing(st, k, h, x);
      }
      OtherRingKept(m, m', own, r);
    }
    forall x | x in st.place && st.place[x].Single? && x != e ensures SingleRing(m', x) {
      assert SingleRing(m, x);
      DetachedNotOnBrigade(st, h, x);
      OtherRingKept(m, m', own, [x]);
    }
  }

  /** Putting the invariant together again after a change to brigade h and bucket e. */
  lemma Recoupled<T>(m': L.Links<T>, st: State<T>, st': State<T>, h: T, e: T)
    requires Books(st') && Mapped(m', st)
    requires h in st.brigades && st'.brigades.Keys == st.brigades.Keys
    requires forall k | k in st.brigades && k != h :: st'.brigades[k] == st.brigades[k]
    requires forall k {:trigger BrigadeRing(m', st, k)} | k in st.brigades && k != h :: BrigadeRing(m', st, k)
    requires BrigadeRing(m', st', h)
    requires e in st.place && e in st'.place && st'.place == st.place[e := st'.place[e]]
    requires st.place[e].Freed? == st'.place[e].Freed?
    requires forall x {:trigger SingleRing(m', x)} | x in st.place && st.place[x].Single? && x != e :: SingleRing(m', x)
    requires st'.place[e].Single? ==> SingleRing(m', e)
    ensures Coupled(m', st')
  {
    forall k | k in st'.brigades ensures BrigadeRing(m', st', k) {
      if k != h { assert BrigadeRing(m', st, k); }
    }
    forall x | x in m'.next ensures Alive(st', x) { assert Alive(st, x); }
  }

  // ----- removal -----

  lemma TakeBooks<T>(st: State<T>, e: T)
    requires Books(st) && Attached(st, e) && Distinct(st.brigades[st.place[e].head])
    ensures Books(Taken(st, e)) && Detached(Taken(st, e), e)
  {
    var h, i, st' := st.place[e].head, Before(st, e), Taken(st, e);
    var bs, bs' := st.brigades[h], st'.brigades[h];
    forall k, j | k in st'.brigades && 0 <= j < |st'.brigades[k]| ensures OnlyIn(st', k, st'.brigades[k][j]) {
      if k == h {
        var j0 := if j < i then j else j + 1;
        assert bs'[j] == bs[j0] != bs[i];
        assert OnlyIn(st, h, bs[j0]);
      } else {
        assert OnlyIn(st, k, st.brigades[k][j]);
      }
    }
    forall x | x in bs && x != e ensures x in bs' {
      var j :| 0 <= j < |bs| && bs[j] == x;
      assert bs'[if j < i then j else j - 1] == x;
    }
  }

  lemma TakeRing<T>(m: L.Links<T>, h: T, bs: seq<T>, i: nat) returns (m': L.Links<T>)
    requires Ring(m, [h] + bs) && i < |bs|
    ensures L.Exec(m, L.Remove(L.Ptr(bs[i]))) == Some(m') && ChangedWithin(m, m', [h] + bs)
    ensures Ring(m', [h] + Cut(bs, i, i + 1))
  {
    var r := [h] + bs;
    assert r[i + 1] == bs[i];
    m' := UnspliceCuts(m, r, i + 1, i + 2);
    CutBehindHead(h, bs, i);
    assert r[i] in r && At(r, i + 2) in r;
  }

  lemma TakeSound<T>(m: L.Links<T>, st: State<T>, e: T) returns (m': L.Links<T>)
    requires Coupled(m, st) && Attached(st, e)
    ensures L.Exec(m, L.Remove(L.Ptr(e))) == Some(m')
    ensures Coupled(m', Taken(st, e))
  {
    var h := st.place[e].head;
    var bs := st.brigades[h];
    assert BrigadeRing(m, st, h);
    TailIsChain(m, h, bs);
    m' := TakeRing(m, h, bs, Before(st, e));
    TakeBooks(st, e);
    OthersKept(m, m', st, h, [h] + bs, e);
    Recoupled(m', st, Taken(st, e), h, e);
  }

  /** Pointers of stale buckets are nobody's business. */
  lemma StaleChange<T>(m: L.Links<T>, m': L.Links<T>, st: State<T>)
    requires Coupled(m, st) && m'.next.Keys == m.next.Keys && m'.prev.Keys == m.prev.Keys
    requires forall z | L.Live(m, z) && !IsStale(st, z) :: m'.next[z] == m.next[z] && m'.prev[z] == m.prev[z]
    ensures Coupled(m', st)
  {
    forall k | k in st.brigades ensures BrigadeRing(m', st, k) {
      assert BrigadeRing(m, st, k);
      var r := [k] + st.brigades[k];
      forall i | 0 <= i < |r| ensures !IsStale(st, r[i]) { assert i > 0 ==> OnlyIn(st, k, st.brigades[k][i - 1]); }
      Untouched(m, m', r);
    }
    forall x | x in st.place && st.place[x].Single? ensures SingleRing(m', x) {
      assert SingleRing(m, x);
      Untouched(m, m', [x]);
    }
  }

  /** The ring that a live node is on, unless it is stale. */
  ghost function RingAround<T>(st: State<T>, x: T): seq<T> {
    if x in st.brigades then [x] + st.brigades[x]
    else if Anchored(st, x) then [st.place[x].head] + st.brigades[st.place[x].head]
    else [x]
  }

  lemma IsOnRingAround<T>(m: L.Links<T>, st: State<T>, x: T)
    requires Coupled(m, st) && L.Live(m, x) && !IsStale(st, x)
    ensures x in RingAround(st, x) && Ring(m, RingAround(st, x))
  {
    assert Alive(st, x);
    if x in st.brigades {
      assert BrigadeRing(m, st, x);
    } else if Anchored(st, x) {
      assert BrigadeRing(m, st, st.place[x].head);
    } else {
      assert SingleRing(m, x);
    }
  }

  /** A ring fixes the pointers of its nodes. */
  lemma RingFixesPointers<T>(m: L.Links<T>, m': L.Links<T>, r: seq<T>, x: T)
    requires Ring(m, r) && Ring(m', r) && x in r
    ensures L.Live(m, x) && L.Live(m', x) && m.next[x] == m'.next[x] && m.prev[x] == m'.prev[x]
  {
    var i := IndexOf(r, x);
    var after, before := if i + 1 < |r| then i + 1 else 0, if i > 0 then i - 1 else |r| - 1;
    assert Linked(m, r[i], r[after]) && Linked(m', r[i], r[after]);
    assert Linked(m, r[before], r[i]) && Linked(m', r[before], r[i]);
  }

  /** REMOVE of a detached bucket whose neighbours are live. */
  lemma RemoveDetached<T>(m: L.Links<T>, st: State<T>, e: T)
    requires Coupled(m, st) && Detached(st, e)
    ensures L.Live(m, e)
    ensures L.Exec(m, L.Remove(L.Ptr(e)))
         == if m.prev[e] in m.next && m.next[e] in m.prev then Some(L.Joined(m, m.prev[e], m.next[e])) else None
  {
    L.RemoveOrFault(m, e);
  }

  /** REMOVE of a bucket whose pointers are a loop changes nothing, and that of one that is passed by
      changes stale pointers only. */
  lemma RemoveSound<T>(m: L.Links<T>, st: State<T>, e: T) returns (m': L.Links<T>)
    requires Coupled(m, st) && Removable(m, st, e)
    ensures L.Exec(m, L.Remove(L.Ptr(e))) == Some(m')
    ensures Coupled(m', Removed(st, e)) && Detached(Removed(st, e), e)
    ensures st.place[e].Single? ==> m' == m
  {
    if st.place[e].In? {
      m' := TakeSound(m, st, e);
    } else if st.place[e].Single? {
      assert SingleRing(m, e);
      UnspliceAllIsNoOp(m, [e]);
      m' := m;
    } else {
      RemoveDetached(m, st, e);
      m' := L.Joined(m, m.prev[e], m.next[e]);
      StaleChange(m, m', st);
    }
  }

  lemma GoneBooks<T>(st: State<T>, e: T)
    requires Books(st) && Detached(st, e)
    ensures Books(Gone(st, e))
  {
    var st' := Gone(st, e);
    forall k, j | k in st'.brigades && 0 <= j < |st'.brigades[k]| ensures OnlyIn(st', k, st'.brigades[k][j]) {
      assert OnlyIn(st, k, st.brigades[k][j]);
    }
    assert e !in st.dead;
  }

  lemma FreeSound<T>(m: L.Links<T>, st: State<T>, e: T) returns (m': L.Links<T>)
    requires Coupled(m, st) && Detached(st, e)
    ensures Free(m, e) == Some(m') && Coupled(m', Gone(st, e))
  {
    m' := L.Links(m.next - {e}, m.prev - {e});
    var st' := Gone(st, e);
    GoneBooks(st, e);
    forall k | k in st'.brigades ensures BrigadeRing(m', st', k) {
      assert BrigadeRing(m, st, k);
      DetachedNotOnBrigade(st, k, e);
      WithoutKept(m, e, [k] + st.brigades[k]);
    }
    forall x | x in st'.place && st'.place[x].Single? ensures SingleRing(m', x) {
      assert SingleRing(m, x);
      WithoutKept(m, e, [x]);
    }
    forall x | x in m'.next ensures Alive(st', x) { assert Alive(st, x); }
  }

  // ----- moving whole brigades -----

  lemma MergeBooks<T>(st: State<T>, a: T, b: T, all: seq<T>)
    requires Books(st) && a in st.brigades && b in st.brigades && a != b
    requires forall x :: x in all <==> x in st.brigades[a] || x in st.brigades[b]
    ensures Books(Merged(st, a, b, all))
  {
    var st' := Merged(st, a, b, all);
    forall k, j | k in st'.brigades && 0 <= j < |st'.brigades[k]| ensures OnlyIn(st', k, st'.brigades[k][j]) {
      var x := st'.brigades[k][j];
      var from := if k == a && x in st.brigades[b] then b else k;
      assert x in st.brigades[from];
      var i :| 0 <= i < |st.brigades[from]| && st.brigades[from][i] == x;
      assert OnlyIn(st, from, x);
    }
  }

  /** What CONCAT and PREPEND have in common once the pointers are known. */
  lemma MergeSound<T>(m: L.Links<T>, m': L.Links<T>, st: State<T>, a: T, b: T, all: seq<T>)
    requires Coupled(m, st) && a in st.brigades && b in st.brigades && a != b
    requires ChangedWithin(m, m', ([a] + st.brigades[a]) + [b] + st.brigades[b])
    requires Ring(m', [a] + all) && Ring(m', [b])
    requires forall x :: x in all <==> x in st.brigades[a] || x in st.brigades[b]
    ensures Coupled(m', Merged(st, a, b, all))
  {
    var st' := Merged(st, a, b, all);
    var own := ([a] + st.brigades[a]) + [b] + st.brigades[b];
    MergeBooks(st, a, b, all);
    assert [b] + [] == [b];
    forall k | k in st'.brigades ensures BrigadeRing(m', st', k) {
      if k != a && k != b {
        assert BrigadeRing(m, st, k);
        var r := [k] + st.brigades[k];
        forall x | x in r ensures x !in own {
          NotOnOtherRing(st, k, a, x);
          NotOnOtherRing(st, k, b, x);
        }
        OtherRingKept(m, m', own, r);
      }
    }
    forall x | x in st'.place && st'.place[x].Single? ensures SingleRing(m', x) {
      assert SingleRing(m, x);
      DetachedNotOnBrigade(st, a, x);
      DetachedNotOnBrigade(st, b, x);
      OtherRingKept(m, m', own, [x]);
    }
    MergeMapped(m, m', st, a, b, all);
  }

  lemma MergeMapped<T>(m: L.Links<T>, m': L.Links<T>, st: State<T>, a: T, b: T, all: seq<T>)
    requires Books(st) && Mapped(m, st) && a in st.brigades && b in st.brigades
    requires m'.next.Keys == m.next.Keys && m'.prev.Keys == m.prev.Keys
    ensures Mapped(m', Merged(st, a, b, all))
  {
    var st' := Merged(st, a, b, all);
    forall x | x in st.brigades[b] ensures x in st.place && !st.place[x].Freed? {
      var i :| 0 <= i < |st.brigades[b]| && st.brigades[b][i] == x;
      assert OnlyIn(st, b, x);
    }
    forall x | x in m'.next ensures Alive(st', x) { assert Alive(st, x); }
  }

  lemma RingsDistinct<T>(m: L.Links<T>, st: State<T>, a: T, b: T)
    requires Coupled(m, st) && a in st.brigades && b in st.brigades && a != b
    ensures Distinct(([a] + st.brigades[a]) + [b] + st.brigades[b])
  {
    assert BrigadeRing(m, st, a) && BrigadeRing(m, st, b);
    var r, q := [a] + st.brigades[a], [b] + st.brigades[b];
    assert r + [b] + st.brigades[b] == r + q;
    forall x | x in r ensures x !in q { NotOnOtherRing(st, a, b, x); }
    DisjointUnion(r, q);
  }

  lemma DisjointUnion<T>(r: seq<T>, q: seq<T>)
    requires Distinct(r) && Distinct(q) && forall x | x in r :: x !in q
    ensures Distinct(r + q)
  {
    forall i | 0 <= i < |r| ensures r[i] !in q { assert r[i] in r; }
  }

  lemma ConcatSound<T>(m: L.Links<T>, st: State<T>, a: T, b: T) returns (m': L.Links<T>)
    requires Coupled(m, st) && a in st.brigades && b in st.brigades && a != b
    ensures L.Exec(m, L.Concat(L.Ptr(a), L.Ptr(b))) == Some(m')
    ensures Coupled(m', Merged(st, a, b, st.brigades[a] + st.brigades[b]))
  {
    var s, t := st.brigades[a], st.brigades[b];
    assert BrigadeRing(m, st, a) && BrigadeRing(m, st, b);
    RingsDistinct(m, st, a, b);
    m' := ConcatRings(m, a, s, b, t);
    MovedWithin(m, a, s, b, t);
    MergeSound(m, m', st, a, b, s + t);
  }

  lemma PrependSound<T>(m: L.Links<T>, st: State<T>, a: T, b: T) returns (m': L.Links<T>)
    requires Coupled(m, st) && a in st.brigades && b in st.brigades && a != b
    ensures L.Exec(m, L.Prepend(L.Ptr(a), L.Ptr(b))) == Some(m')
    ensures Coupled(m', Merged(st, a, b, st.brigades[b] + st.brigades[a]))
  {
    var s, t := st.brigades[a], st.brigades[b];
    assert BrigadeRing(m, st, a) && BrigadeRing(m, st, b);
    RingsDistinct(m, st, a, b);
    m' := PrependRings(m, a, s, b, t);
    MovedWithin(m, a, s, b, t);
    MergeSound(m, m', st, a, b, t + s);
  }

  lemma MovedWithin<T>(m: L.Links<T>, a: T, s: seq<T>, b: T, t: seq<T>)
    requires Ring(m, [a] + s) && Ring(m, [b] + t)
    ensures L.Live(m, a) && L.Live(m, b)
    ensures m.next.Keys == m.prev.Keys ==>
      && ChangedWithin(m, m, ([a] + s) + [b] + t)
      && ChangedWithin(m, Moved(m, m.prev[a], a, b), ([a] + s) + [b] + t)
      && ChangedWithin(m, Moved(m, a, m.next[a], b), ([a] + s) + [b] + t)
  {
    TailIsChain(m, a, s);
    TailIsChain(m, b, t);
    var own := ([a] + s) + [b] + t;
    assert own[0] == a && own[|s| + 1] == b;
    assert s != [] ==> own[1] == s[0] && own[|s|] == s[|s| - 1];
    assert t != [] ==> own[|s| + 2] == t[0] && own[|s| + 1 + |t|] == t[|t| - 1];
    assert {a, b, m.next[a], m.prev[a], m.next[b], m.prev[b]} <= set x | x in own;
  }

  // ----- allocation -----

  /** A change to the cells of one detached or new node x. */
  lemma LoneChange<T>(m: L.Links<T>, m': L.Links<T>, st: State<T>, x: T)
    requires Coupled(m, st) && (Fresh(st, x) || Detached(st, x))
    requires forall y | L.Live(m, y) && y != x :: L.Live(m', y) && m'.next[y] == m.next[y] && m'.prev[y] == m.prev[y]
    ensures forall k {:trigger BrigadeRing(m', st, k)} | k in st.brigades :: BrigadeRing(m', st, k)
    ensures forall y {:trigger SingleRing(m', y)} | y in st.place && st.place[y].Single? && y != x :: SingleRing(m', y)
  {
    forall k | k in st.brigades ensures BrigadeRing(m', st, k) {
      assert BrigadeRing(m, st, k);
      var r := [k] + st.brigades[k];
      forall i | 0 <= i < |r| ensures r[i] != x { assert i > 0 ==> OnlyIn(st, k, st.brigades[k][i - 1]); }
      Untouched(m, m', r);
    }
    forall y | y in st.place && st.place[y].Single? && y != x ensures SingleRing(m', y) {
      assert SingleRing(m, y);
      Untouched(m, m', [y]);
    }
  }

  lemma SameBooks<T>(st: State<T>, st': State<T>)
    requires Books(st) && st'.dead == st.dead
    requires st'.brigades == st.brigades
    requires forall e | e in st.place ::
      e in st'.place && (st.place[e] == st'.place[e] || (Detached(st, e) && Detached(st', e)))
    requires forall e | e in st'.place && e !in st.place :: Detached(st', e) && e !in st.brigades
    ensures Books(st')
  {
    forall k, j | k in st'.brigades && 0 <= j < |st'.brigades[k]| ensures OnlyIn(st', k, st'.brigades[k][j]) {
      assert OnlyIn(st, k, st.brigades[k][j]);
    }
  }

  lemma GrownMapped<T>(m: L.Links<T>, m': L.Links<T>, st: State<T>, st': State<T>, x: T)
    requires Mapped(m, st) && (Fresh(st, x) || Detached(st, x)) && Alive(st', x)
    requires m'.next.Keys == m.next.Keys + {x} && m'.prev.Keys == m.prev.Keys + {x}
    requires st'.brigades.Keys <= st.brigades.Keys + {x} && st'.place.Keys <= st.place.Keys + {x}
    requires forall y | Alive(st, y) :: Alive(st', y)
    requires forall y | y in st'.place && y != x :: st'.place[y].Freed? == st.place[y].Freed?
    ensures Mapped(m', st')
  {
    forall y | y in m'.next ensures Alive(st', y) { assert y == x || Alive(st, y); }
  }

  /** Bucket x, new or detached, gets other pointers and a place of its own. */
  lemma LoneBucket<T>(m: L.Links<T>, m': L.Links<T>, st: State<T>, x: T, place: Place<T>)
    requires Coupled(m, st) && (Fresh(st, x) || Detached(st, x))
    requires m'.next.Keys == m.next.Keys + {x} && m'.prev.Keys == m.prev.Keys + {x}
    requires forall y | L.Live(m, y) && y != x :: m'.next[y] == m.next[y] && m'.prev[y] == m.prev[y]
    requires place.Stale? || (place.Single? && SingleRing(m', x))
    ensures Coupled(m', st.(place := st.place[x := place]))
  {
    var st' := st.(place := st.place[x := place]);
    LoneChange(m, m', st, x);
    SameBooks(st, st');
    GrownMapped(m, m', st, st', x);
    forall k | k in st'.brigades ensures BrigadeRing(m', st', k) { assert BrigadeRing(m', st, k); }
    forall y | y in st'.place && st'.place[y].Single? ensures SingleRing(m', y) {
      if y != x { assert st.place[y].Single?; }
    }
  }

  lemma OpenedBooks<T>(st: State<T>, h: T)
    requires Books(st) && Fresh(st, h)
    ensures Books(st.(brigades := st.brigades[h := []]))
  {
    var st' := st.(brigades := st.brigades[h := []]);
    forall k, j | k in st'.brigades && 0 <= j < |st'.brigades[k]| ensures OnlyIn(st', k, st'.brigades[k][j]) {
      assert OnlyIn(st, k, st.brigades[k][j]);
    }
  }

  lemma OpenedSound<T>(m: L.Links<T>, st: State<T>, h: T) returns (m': L.Links<T>)
    requires Coupled(m, st) && Fresh(st, h)
    ensures m' == L.Joined(m, h, h) && Coupled(m', st.(brigades := st.brigades[h := []]))
  {
    m' := L.Joined(m, h, h);
    var st' := st.(brigades := st.brigades[h := []]);
    LoneChange(m, m', st, h);
    OpenedBooks(st, h);
    GrownMapped(m, m', st, st', h);
    forall k | k in st'.brigades ensures BrigadeRing(m', st', k) {
      if k == h { assert [h] + st'.brigades[h] == [h]; } else { assert BrigadeRing(m', st, k); }
    }
  }

  lemma AllocatedSound<T>(m: L.Links<T>, st: State<T>, e: T, n: T, p: T) returns (m': L.Links<T>)
    requires Coupled(m, st) && Fresh(st, e)
    ensures m' == L.Links(m.next[e := n], m.prev[e := p]) && Coupled(m', st.(place := st.place[e := Stale]))
  {
    m' := L.Links(m.next[e := n], m.prev[e := p]);
    LoneBucket(m, m', st, e, Stale);
  }

  lemma LoopedSound<T>(m: L.Links<T>, st: State<T>, e: T) returns (m': L.Links<T>)
    requires Coupled(m, st) && Detached(st, e)
    ensures L.Live(m, e) && m' == L.Joined(m, e, e) && Coupled(m', st.(place := st.place[e := Single]))
  {
    m' := L.Joined(m, e, e);
    assert SingleRing(m', e);
    LoneBucket(m, m', st, e, Single);
  }

  // ----- every step, every run -----

  /** The gap before or after an anchor, in terms of its brigade. */
  lemma AnchorGap<T>(st: State<T>, a: T)
    requires Anchored(st, a)
    ensures Host(st, a) in st.brigades
    ensures Before(st, a) <= |st.brigades[Host(st, a)]| && After(st, a) <= |st.brigades[Host(st, a)]|
    ensures var r := [Host(st, a)] + st.brigades[Host(st, a)];
            At(r, Before(st, a) + 1) == a && r[After(st, a)] == a
  {
  }

  /** Every enabled step is memory-safe, does to the brigades what it is meant to, and keeps the invariant. */
  lemma StepSound<T>(m: L.Links<T>, st: State<T>, op: Op<T>) returns (m': L.Links<T>)
    requires Coupled(m, st) && Enabled(m, st, op)
    ensures StepMem(m, op) == Some(m')
    ensures Coupled(m', Step(st, op))
  {
    match op
    case NewBrigade(h, n, p) => L.InitOfNew(m, h, n, p); m' := OpenedSound(m, st, h);
    case NewBucket(e, n, p) => m' := AllocatedSound(m, st, e, n, p);
    case InitBucket(e) => m' := LoopedSound(m, st, e); L.InitEffect(m, e);
    case InsertHead(h, e) =>
      m' := PutSound(m, st, h, 0, e);
    case InsertTail(h, e) =>
      m' := PutSound(m, st, h, |st.brigades[h]|, e);
    case InsertBefore(a, e) =>
      AnchorGap(st, a);
      m' := PutSound(m, st, Host(st, a), Before(st, a), e);
    case InsertAfter(a, e) =>
      AnchorGap(st, a);
      m' := PutSound(m, st, Host(st, a), After(st, a), e);
    case Concat(a, b) => m' := ConcatSound(m, st, a, b);
    case Prepend(a, b) => m' := PrependSound(m, st, a, b);
    case Remove(e) => m' := RemoveSound(m, st, e);
    case Destroy(e) => m' := FreeSound(m, st, e);
    case Delete(e) =>
      var m1 := RemoveSound(m, st, e);
      m' := FreeSound(m1, Removed(st, e), e);
  }

  /** The operation op is safe: it touches live memory only and leaves the brigades as `Step` says. */
  ghost predicate Safe<T>(m: L.Links<T>, st: State<T>, op: Op<T>)
    requires Allowed(st, op)
  {
    StepMem(m, op).Some? && Coupled(StepMem(m, op).value, Step(st, op))
  }

  /** Which buckets REMOVE and delete can be let loose on: those on a brigade, those that are loops, and those
      that are passed by, but no others.  For any other, a dangling pointer is written through or somebody's ring
      breaks. */
  lemma RemovableExactly<T>(m: L.Links<T>, st: State<T>, e: T)
    requires Coupled(m, st) && (Attached(st, e) || Detached(st, e))
    ensures Removable(m, st, e) <==> Safe(m, st, Remove(e))
    ensures Removable(m, st, e) <==> Safe(m, st, Delete(e))
  {
    if Removable(m, st, e) {
      var m1 := StepSound(m, st, Remove(e));
      var m2 := StepSound(m, st, Delete(e));
    } else {
      if Safe(m, st, Remove(e)) { SafeRemoveIsPassedBy(m, st, e); }
      if Safe(m, st, Delete(e)) { SafeDeleteIsPassedBy(m, st, e); }
    }
  }

  lemma SafeRemoveIsPassedBy<T>(m: L.Links<T>, st: State<T>, e: T)
    requires Coupled(m, st) && IsStale(st, e) && Safe(m, st, Remove(e))
    ensures PassedBy(m, st, e)
  {
    RemoveDetached(m, st, e);
    RingsNeedPassing(m, st, e, StepMem(m, Remove(e)).value, st);
  }

  lemma SafeDeleteIsPassedBy<T>(m: L.Links<T>, st: State<T>, e: T)
    requires Coupled(m, st) && IsStale(st, e) && Safe(m, st, Delete(e))
    ensures PassedBy(m, st, e)
  {
    RemoveDetached(m, st, e);
    var m1 := L.Joined(m, m.prev[e], m.next[e]);
    var m' := L.Links(m1.next - {e}, m1.prev - {e});
    assert Step(st, Delete(e)) == Gone(st, e) && StepMem(m, Delete(e)) == Some(m');
    RingsNeedPassing(m, st, e, m', Gone(st, e));
  }

  /** The other direction: a neighbour that does not point past e and is not stale would lose its ring. */
  lemma RingsNeedPassing<T>(m: L.Links<T>, st: State<T>, e: T, m': L.Links<T>, st': State<T>)
    requires Coupled(m, st) && IsStale(st, e)
    requires L.Live(m, e) && L.Live(m, m.prev[e]) && L.Live(m, m.next[e])
    requires st'.brigades == st.brigades && st'.place.Keys == st.place.Keys
    requires forall z | z in st.place && z != e :: st'.place[z] == st.place[z]
    requires Coupled(m', st')
    requires forall z | L.Live(m, z) && z != e :: L.Live(m', z)
    requires m.prev[e] != e ==> m.prev[e] in m'.next && m'.next[m.prev[e]] == m.next[e]
    requires m.next[e] != e ==> m.next[e] in m'.prev && m'.prev[m.next[e]] == m.prev[e]
    ensures PassedBy(m, st, e)
  {
    forall z | z in {m.prev[e], m.next[e]} && !IsStale(st, z)
      ensures L.Live(m', z) && m'.next[z] == m.next[z] && m'.prev[z] == m.prev[z]
    {
      IsOnRingAround(m, st, z);
      IsOnRingAround(m', st', z);
      RingFixesPointers(m, m', RingAround(st, z), z);
    }
  }

  /** A bucket that was destroyed cannot be removed again: its pointers are not there to be read. */
  lemma NoRemoveAfterFree<T>(m: L.Links<T>, st: State<T>, e: T)
    requires Coupled(m, st) && e in st.place && st.place[e].Freed?
    ensures StepMem(m, Remove(e)) == None && StepMem(m, Delete(e)) == None
  {
    assert e in m.next ==> Alive(st, e);
    L.RemoveOrFault(m, e);
  }

  /** Removing twice in a row, or deleting what was just removed, is allowed. */
  lemma RemovedIsRemovable<T>(m: L.Links<T>, st: State<T>, e: T) returns (m': L.Links<T>)
    requires Coupled(m, st) && Attached(st, e)
    ensures StepMem(m, Remove(e)) == Some(m') && Removable(m', Removed(st, e), e)
    ensures StepMem(m', Remove(e)) == Some(m')
  {
    m' := TakeSound(m, st, e);
    AttachedIsLive(m, st, e);
    L.RemoveOrFault(m, e);
    RemoveHarmless(m', e);
  }

  lemma AttachedIsLive<T>(m: L.Links<T>, st: State<T>, e: T)
    requires Coupled(m, st) && Attached(st, e)
    ensures L.Live(m, e)
  {
    assert BrigadeRing(m, st, st.place[e].head);
    IsOnRingAround(m, st, e);
  }

  /** Every operation is enabled when its turn comes. */
  ghost predicate AllEnabled<T>(m: L.Links<T>, st: State<T>, ops: seq<Op<T>>)
    decreases |ops|
  {
    ops == [] ||
    (Enabled(m, st, ops[0]) &&
      (StepMem(m, ops[0]).Some? ==> AllEnabled(StepMem(m, ops[0]).value, Step(st, ops[0]), ops[1..])))
  }

  ghost predicate AllAllowed<T>(st: State<T>, ops: seq<Op<T>>)
    decreases |ops|
  {
    ops == [] || (Allowed(st, ops[0]) && AllAllowed(Step(st, ops[0]), ops[1..]))
  }

  ghost function Run<T>(st: State<T>, ops: seq<Op<T>>): State<T>
    requires AllAllowed(st, ops)
    decreases |ops|
  {
    if ops == [] then st else Run(Step(st, ops[0]), ops[1..])
  }

  ghost function RunMem<T>(m: L.Links<T>, ops: seq<Op<T>>): Option<L.Links<T>>
    decreases |ops|
  {
    if ops == [] then Some(m) else
      var r := StepMem(m, ops[0]);
      if r.None? then None else RunMem(r.value, ops[1..])
  }

  lemma {:induction false} RunSound<T>(m: L.Links<T>, st: State<T>, ops: seq<Op<T>>) returns (m': L.Links<T>)
    requires Coupled(m, st) && AllEnabled(m, st, ops)
    ensures RunMem(m, ops) == Some(m') && AllAllowed(st, ops) && Coupled(m', Run(st, ops))
    decreases |ops|
  {
    if ops == [] {
      m' := m;
    } else {
      var m1 := StepSound(m, st, ops[0]);
      m' := RunSound(m1, Step(st, ops[0]), ops[1..]);
    }
  }

  /** What the operations of a run destroy, in order. */
  ghost function Killed<T>(ops: seq<Op<T>>): seq<T> {
    if ops == [] then []
    else (if ops[0].Destroy? || ops[0].Delete? then [ops[0].e] else []) + Killed(ops[1..])
  }

  /** The buckets and the brigades that they make. */
  ghost function Created<T>(ops: seq<Op<T>>): set<T> {
    set i | 0 <= i < |ops| && ops[i].NewBucket? :: ops[i].e
  }

  ghost function Opened<T>(ops: seq<Op<T>>): set<T> {
    set i | 0 <= i < |ops| && ops[i].NewBrigade? :: ops[i].h
  }

  lemma MadeFirst<T>(ops: seq<Op<T>>)
    requires ops != []
    ensures Created(ops) == (if ops[0].NewBucket? then {ops[0].e} else {}) + Created(ops[1..])
    ensures Opened(ops) == (if ops[0].NewBrigade? then {ops[0].h} else {}) + Opened(ops[1..])
  {
    var rest := ops[1..];
    forall i | 0 <= i < |ops| && i > 0 ensures ops[i] == rest[i - 1] {}
    assert forall i | 0 <= i < |rest| :: rest[i] == ops[i + 1];
  }

  lemma StepCounts<T>(st: State<T>, op: Op<T>)
    requires Allowed(st, op)
    ensures var st' := Step(st, op);
      && st'.dead == st.dead + (if op.Destroy? || op.Delete? then [op.e] else [])
      && st'.place.Keys == st.place.Keys + (if op.NewBucket? then {op.e} else {})
      && st'.brigades.Keys == st.brigades.Keys + (if op.NewBrigade? then {op.h} else {})
  {
  }

  lemma Regroup<T>(a: seq<T>, b: seq<T>, c: seq<T>)
    ensures (a + b) + c == a + (b + c)
  {
  }

  /** The books of a run count what its operations made and destroyed. */
  lemma {:induction false} RunCounts<T>(st: State<T>, ops: seq<Op<T>>)
    requires AllAllowed(st, ops)
    ensures var st' := Run(st, ops);
      && st'.dead == st.dead + Killed(ops)
      && st'.place.Keys == st.place.Keys + Created(ops) && st'.brigades.Keys == st.brigades.Keys + Opened(ops)
    decreases |ops|
  {
    if ops != [] {
      var st1, rest := Step(st, ops[0]), ops[1..];
      StepCounts(st, ops[0]);
      MadeFirst(ops);
      RunCounts(st1, rest);
      var killed := if ops[0].Destroy? || ops[0].Delete? then [ops[0].e] else [];
      Regroup(st.dead, killed, Killed(rest));
      assert Run(st, ops) == Run(st1, rest) && Killed(ops) == killed + Killed(rest);
    }
  }

  // ----- what the invariant is worth -----

  /** Neither the brigade check nor the bucket check that the macros end with can fail. */
  lemma ChecksPass<T>(m: L.Links<T>, st: State<T>, a: T)
    requires Coupled(m, st) && Anchored(st, a)
    ensures OnRing(m, a) && Verdict(m, a, None)
  {
    AnchorGap(st, a);
    var h, k := Host(st, a), After(st, a);
    assert BrigadeRing(m, st, h);
    var r := [h] + st.brigades[h];
    Rotate(m, r, k);
    RingIsWalk(m, r[k..] + r[..k]);
  }

  ghost predicate Lists<T>(st: State<T>, heads: seq<T>) {
    Distinct(heads) && forall h | h in heads :: h in st.brigades
  }

  /** All brigades there are, each named once. */
  ghost predicate ListsAll<T>(st: State<T>, heads: seq<T>) {
    Lists(st, heads) && forall h | h in st.brigades :: h in heads
  }

  /** They can always be listed. */
  lemma {:induction false} ListUpTo<T>(S: set<T>) returns (heads: seq<T>)
    ensures Distinct(heads) && forall h :: h in heads <==> h in S
  {
    heads := [];
    if S != {} {
      var h :| h in S;
      var rest := ListUpTo(S - {h});
      heads := [h] + rest;
    }
  }

  lemma AllCanBeListed<T>(st: State<T>) returns (heads: seq<T>)
    ensures ListsAll(st, heads)
  {
    heads := ListUpTo(st.brigades.Keys);
  }

  /** All buckets of the given brigades, one brigade after the other. */
  ghost function Contents<T>(st: State<T>, heads: seq<T>): seq<T>
    requires Lists(st, heads)
  {
    if heads == [] then [] else Contents(st, heads[..|heads| - 1]) + st.brigades[heads[|heads| - 1]]
  }

  ghost predicate OnOneOf<T>(st: State<T>, heads: seq<T>, e: T) {
    e in st.place && st.place[e].In? && st.place[e].head in heads
  }

  lemma OnBrigadeIffPlaced<T>(st: State<T>, h: T, e: T)
    requires Books(st) && h in st.brigades
    ensures e in st.brigades[h] <==> e in st.place && st.place[e] == In(h)
  {
    if e in st.brigades[h] {
      var j :| 0 <= j < |st.brigades[h]| && st.brigades[h][j] == e;
      assert OnlyIn(st, h, st.brigades[h][j]);
    }
  }

  lemma {:induction false} ContentsApart<T>(m: L.Links<T>, st: State<T>, heads: seq<T>)
    requires Coupled(m, st) && Lists(st, heads)
    ensures Distinct(Contents(st, heads))
    ensures forall e :: e in Contents(st, heads) <==> OnOneOf(st, heads, e)
  {
    if heads != [] {
      var front, h := heads[..|heads| - 1], heads[|heads| - 1];
      assert heads == front + [h];
      ContentsApart(m, st, front);
      assert BrigadeRing(m, st, h);
      TailIsChain(m, h, st.brigades[h]);
      forall e ensures e in st.brigades[h] <==> e in st.place && st.place[e] == In(h) { OnBrigadeIffPlaced(st, h, e); }
      assert h !in front;
      DisjointUnion(Contents(st, front), st.brigades[h]);
    }
  }

  lemma {:induction false} DistinctCount<T>(s: seq<T>, S: set<T>)
    requires Distinct(s) && forall e :: e in s <==> e in S
    ensures |s| == |S|
    decreases |s|
  {
    if s == [] {
      assert S == {};
    } else {
      var n := |s| - 1;
      forall e ensures e in s[..n] <==> e in S - {s[n]} {}
      DistinctCount(s[..n], S - {s[n]});
    }
  }

  ghost function OnBrigades<T>(st: State<T>): set<T> {
    set e | e in st.place && st.place[e].In?
  }

  ghost function Destroyed<T>(st: State<T>): set<T> {
    set e | e in st.place && st.place[e].Freed?
  }

  ghost function Loose<T>(st: State<T>): set<T> {
    set e | e in st.place && (st.place[e].Single? || st.place[e].Stale?)
  }

  /** Nothing is lost and nothing is in two places: counted over all brigades, the buckets on brigades and
      the detached ones are those created and not destroyed. */
  lemma Conservation<T>(m: L.Links<T>, st: State<T>, heads: seq<T>)
    requires Coupled(m, st) && ListsAll(st, heads)
    ensures |Contents(st, heads)| + |Loose(st)| == |st.place| - |st.dead|
  {
    CountOn(m, st, heads);
    CountDead(st);
    PlacesSplit(st);
  }

  lemma CountOn<T>(m: L.Links<T>, st: State<T>, heads: seq<T>)
    requires Coupled(m, st) && ListsAll(st, heads)
    ensures |Contents(st, heads)| == |OnBrigades(st)|
  {
    ContentsApart(m, st, heads);
    forall e ensures e in Contents(st, heads) <==> e in OnBrigades(st) {
      assert e in OnBrigades(st) ==> st.place[e].head in st.brigades;
    }
    DistinctCount(Contents(st, heads), OnBrigades(st));
  }

  lemma CountDead<T>(st: State<T>)
    requires Books(st)
    ensures |st.dead| == |Destroyed(st)|
  {
    DeadAreFreed(st);
    DistinctCount(st.dead, Destroyed(st));
  }

  lemma PlacesSplit<T>(st: State<T>)
    ensures |st.place| == |OnBrigades(st)| + |Loose(st)| + |Destroyed(st)|
  {
    assert st.place.Keys == OnBrigades(st) + Loose(st) + Destroyed(st);
    assert |st.place| == |st.place.Keys|;
  }

  lemma DeadAreFreed<T>(st: State<T>)
    requires Books(st)
    ensures Distinct(st.dead) && forall e :: e in st.dead <==> e in st.place && st.place[e].Freed?
  {
  }

  ghost function NoBrigades<T>(): State<T> {
    State(map[], map[], [])
  }

  ghost function NoMemory<T>(): L.Links<T> {
    L.Links(map[], map[])
  }

  /** Every brigade is a ring that passes its check; no bucket is on two brigades, at two positions of
      one, or destroyed twice; destroyed buckets have no memory; and none is lost. */
  ghost predicate WellKept<T>(m: L.Links<T>, st: State<T>, heads: seq<T>)
    requires Lists(st, heads)
  {
    && (forall h | h in heads :: Ring(m, [h] + st.brigades[h]) && Verdict(m, h, None))
    && Distinct(Contents(st, heads))
    && Distinct(st.dead)
    && (forall e | e in st.dead :: !L.Live(m, e) && e !in Contents(st, heads))
    && |Contents(st, heads)| + |Loose(st)| == |st.place| - |st.dead|
  }

  lemma CoupledIsWellKept<T>(m: L.Links<T>, st: State<T>, heads: seq<T>)
    requires Coupled(m, st) && ListsAll(st, heads)
    ensures WellKept(m, st, heads)
  {
    Conservation(m, st, heads);
    ContentsApart(m, st, heads);
    forall h | h in heads ensures Ring(m, [h] + st.brigades[h]) && Verdict(m, h, None) {
      assert BrigadeRing(m, st, h);
      ChecksPass(m, st, h);
    }
    DeadAreFreed(st);
    forall e | e in st.dead ensures !L.Live(m, e) {
      assert e in m.next ==> Alive(st, e);
    }
  }

  lemma LiveIsAlive<T>(m: L.Links<T>, st: State<T>, x: T)
    requires Coupled(m, st)
    ensures L.Live(m, x) <==> x in st.brigades || (x in st.place && x !in st.dead)
  {
    assert x in m.next ==> Alive(st, x);
  }

  /** Whole runs: from an empty memory, whatever the sequence of enabled operations, no access goes to
      a freed or foreign cell, and everything is well kept at the end (and so at every point).  What was
      destroyed are the operands of destroy and delete in order, and memory is left to exactly what was made and
      not destroyed. */
  lemma EveryRun<T>(ops: seq<Op<T>>) returns (m: L.Links<T>, st: State<T>)
    requires AllEnabled(NoMemory(), NoBrigades(), ops)
    ensures RunMem(NoMemory(), ops) == Some(m) && AllAllowed(NoBrigades(), ops) && Run(NoBrigades(), ops) == st
    ensures st.dead == Killed(ops) && st.place.Keys == Created(ops) && st.brigades.Keys == Opened(ops)
    ensures forall x :: L.Live(m, x) <==> x in Opened(ops) || (x in Created(ops) && x !in Killed(ops))
    ensures forall heads | ListsAll(st, heads) :: WellKept(m, st, heads)
  {
    m := RunSound(NoMemory(), NoBrigades(), ops);
    st := Run(NoBrigades(), ops);
    RunCounts(NoBrigades(), ops);
    forall x ensures L.Live(m, x) <==> x in Opened(ops) || (x in Created(ops) && x !in Killed(ops)) {
      LiveIsAlive(m, st, x);
    }
    forall heads | ListsAll(st, heads) ensures WellKept(m, st, heads) { CoupledIsWellKept(m, st, heads); }
  }

  /** One step of a recorded run: what was done, and what memory and books were like afterwards. */
  datatype Moment<T> = Moment(op: Op<T>, m: L.Links<T>, st: State<T>)

  ghost function MemAt<T>(run: seq<Moment<T>>, i: nat): L.Links<T>
    requires i <= |run|
  {
    if i == 0 then NoMemory() else run[i - 1].m
  }

  ghost function BooksAt<T>(run: seq<Moment<T>>, i: nat): State<T>
    requires i <= |run|
  {
    if i == 0 then NoBrigades() else run[i - 1].st
  }

  ghost predicate StepAt<T>(run: seq<Moment<T>>, i: nat)
    requires i < |run|
  {
    && Enabled(MemAt(run, i), BooksAt(run, i), run[i].op)
    && StepMem(MemAt(run, i), run[i].op) == Some(run[i].m)
    && Step(BooksAt(run, i), run[i].op) == run[i].st
  }

  /** The run is one of enabled steps from nothing, and it ends in memory m and books st. */
  ghost predicate Reached<T>(run: seq<Moment<T>>, m: L.Links<T>, st: State<T>) {
    && (forall i: nat {:trigger StepAt(run, i)} | i < |run| :: StepAt(run, i))
    && MemAt(run, |run|) == m && BooksAt(run, |run|) == st
  }

  ghost function OpsOf<T>(run: seq<Moment<T>>): (ops: seq<Op<T>>)
  {
    if run == [] then [] else OpsOf(run[..|run| - 1]) + [run[|run| - 1].op]
  }

  lemma ReachedBefore<T>(run: seq<Moment<T>>, m: L.Links<T>, st: State<T>)
    requires Reached(run, m, st) && run != []
    ensures var n := |run| - 1; Reached(run[..n], MemAt(run, n), BooksAt(run, n))
  {
    var n := |run| - 1;
    var front := run[..n];
    forall i: nat | i < n ensures StepAt(front, i) { assert StepAt(run, i); }
  }

  /** A recorded run is a run. */
  lemma {:induction false} ReachedIsRun<T>(run: seq<Moment<T>>, m: L.Links<T>, st: State<T>)
    requires Reached(run, m, st)
    ensures AllEnabled(NoMemory(), NoBrigades(), OpsOf(run)) && RunMem(NoMemory(), OpsOf(run)) == Some(m)
    ensures AllAllowed(NoBrigades(), OpsOf(run)) && Run(NoBrigades(), OpsOf(run)) == st
    decreases |run|
  {
    if run != [] {
      var n := |run| - 1;
      ReachedBefore(run, m, st);
      ReachedIsRun(run[..n], MemAt(run, n), BooksAt(run, n));
      assert StepAt(run, n);
      RunExtends(NoMemory(), NoBrigades(), OpsOf(run[..n]), run[n].op);
    }
  }

  lemma {:induction false} RunExtends<T>(m: L.Links<T>, st: State<T>, ops: seq<Op<T>>, op: Op<T>)
    requires RunMem(m, ops).Some? && AllAllowed(st, ops)
    requires AllEnabled(m, st, ops) && Enabled(RunMem(m, ops).value, Run(st, ops), op)
    ensures AllEnabled(m, st, ops + [op]) && AllAllowed(st, ops + [op])
    ensures Run(st, ops + [op]) == Step(Run(st, ops), op)
    ensures RunMem(m, ops + [op]) == StepMem(RunMem(m, ops).value, op)
    decreases |ops|
  {
    if ops == [] {
      assert [] + [op] == [op] && [op][1..] == [];
    } else {
      assert (ops + [op])[1..] == ops[1..] + [op];
      RunExtends(StepMem(m, ops[0]).value, Step(st, ops[0]), ops[1..], op);
    }
  }

  lemma ReachedIsCoupled<T>(run: seq<Moment<T>>, m: L.Links<T>, st: State<T>)
    requires Reached(run, m, st)
    ensures Coupled(m, st)
  {
    ReachedIsRun(run, m, st);
    var m' := RunSound(NoMemory(), NoBrigades(), OpsOf(run));
  }

  /** Any enabled operation can be added to a run. */
  lemma NextStep<T>(run: seq<Moment<T>>, m: L.Links<T>, st: State<T>, op: Op<T>)
      returns (m': L.Links<T>, run': seq<Moment<T>>)
    requires Reached(run, m, st) && Enabled(m, st, op)
    ensures StepMem(m, op) == Some(m')
    ensures run' == run + [Moment(op, m', Step(st, op))] && Reached(run', m', Step(st, op))
  {
    ReachedIsCoupled(run, m, st);
    m' := StepSound(m, st, op);
    run' := run + [Moment(op, m', Step(st, op))];
    forall i: nat | i < |run'| ensures StepAt(run', i) {
      if i < |run| { assert StepAt(run, i); }
    }
  }

  // ----- deleting a bucket that is on no brigade -----

  /** REMOVE changes no pointer at all exactly if the neighbours that e remembers are live and already
      next to each other. */
  lemma RemoveHarmless<T>(m: L.Links<T>, e: T)
    requires L.Live(m, e)
    ensures L.Exec(m, L.Remove(L.Ptr(e))) == Some(m)
       <==> (m.prev[e] in m.next && m.next[e] in m.prev
             && m.next[m.prev[e]] == m.next[e] && m.prev[m.next[e]] == m.prev[e])
  {
    L.RemoveOrFault(m, e);
    var x, y := m.prev[e], m.next[e];
    if x in m.next && y in m.prev {
      var m2 := L.Joined(m, x, y);
      assert m2.next[x] == y && m2.prev[y] == x;
      if m.next[x] == y && m.prev[y] == x { assert m2.next == m.next && m2.prev == m.prev; }
    }
  }

  /** So `apr_bucket_delete` does not remove a bucket "from its brigade (if any)": delete one that was
      removed before, and the bucket that has taken its place is cut out of the brigade instead. */
  lemma StaleDeleteUnlinksOther<T>(m: L.Links<T>, h: T, e: T, x: T) returns (m': L.Links<T>)
    requires Ring(m, [h, e]) && Ring(m, [x]) && x !in [h, e]
    ensures RunMem(m, [Remove(e), InsertTail(h, x), Delete(e)]) == Some(m')
    ensures Ring(m', [h]) && L.Live(m', x) && m'.next[x] == h && m'.prev[x] == h
  {
    var r := [h, e];
    var m1 := UnspliceCuts(m, r, 1, 2);
    assert Cut(r, 1, 2) == [h];
    Untouched(m, m1, [x]);
    var m2 := SpliceFillsGap(m1, [h], 1, [x]);
    assert m2.prev[e] == h && m2.next[e] == h;
    L.UnspliceEffect(m2, e, e);
    var m3 := L.Joined(m2, h, h);
    m' := L.Links(m3.next - {e}, m3.prev - {e});
    assert Free(m3, e) == Some(m');
    RunThree(m, Remove(e), m1, InsertTail(h, x), m2, Delete(e), m');
  }

  lemma RunThree<T>(m: L.Links<T>, a: Op<T>, m1: L.Links<T>, b: Op<T>, m2: L.Links<T>, c: Op<T>, m3: L.Links<T>)
    requires StepMem(m, a) == Some(m1) && StepMem(m1, b) == Some(m2) && StepMem(m2, c) == Some(m3)
    ensures RunMem(m, [a, b, c]) == Some(m3)
  {
    var ops := [a, b, c];
    assert ops[1..] == [b, c] && [b, c][1..] == [c] && [c][1..] == [];
    assert RunMem(m2, [c]) == Some(m3);
    assert RunMem(m1, ops[1..]) == RunMem(m2, [c]);
  }
}
