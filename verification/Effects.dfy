/** What each operation on brigades does, said directly: which sequence every brigade holds afterwards, where
    each bucket is, what was destroyed, which rings memory holds, and which nodes have memory at all. */
module Effects {
  import opened Options
  import opened RingTheory
  import opened Brigades
  import L = LinkMemory

  // ----- new memory -----

  lemma NewBrigadeDoes<T>(m: L.Links<T>, st: State<T>, h: T, n: T, p: T) returns (m': L.Links<T>)
    requires Coupled(m, st) && Fresh(st, h)
    ensures StepMem(m, NewBrigade(h, n, p)) == Some(m')
    ensures Step(st, NewBrigade(h, n, p)) == State(st.brigades[h := []], st.place, st.dead)
    ensures Ring(m', [h]) && m'.next.Keys == m.next.Keys + {h}
  {
    var op := Op.NewBrigade(h, n, p);
    m' := StepSound(m, st, op);
    assert BrigadeRing(m', Step(st, op), h);
    L.InitOfNew(m, h, n, p);
    assert [h] + [] == [h];
  }

  lemma NewBucketDoes<T>(m: L.Links<T>, st: State<T>, e: T, n: T, p: T) returns (m': L.Links<T>)
    requires Coupled(m, st) && Fresh(st, e)
    ensures StepMem(m, NewBucket(e, n, p)) == Some(m')
    ensures Step(st, NewBucket(e, n, p)) == State(st.brigades, st.place[e := Stale], st.dead)
    ensures m' == L.Links(m.next[e := n], m.prev[e := p])
  {
    m' := StepSound(m, st, NewBucket(e, n, p));
  }

  lemma InitBucketDoes<T>(m: L.Links<T>, st: State<T>, e: T) returns (m': L.Links<T>)
    requires Coupled(m, st) && Detached(st, e)
    ensures StepMem(m, InitBucket(e)) == Some(m')
    ensures Step(st, InitBucket(e)) == State(st.brigades, st.place[e := Single], st.dead)
    ensures Ring(m', [e]) && m'.next.Keys == m.next.Keys
  {
    m' := StepSound(m, st, InitBucket(e));
    assert SingleRing(m', e);
    L.ExecKeepsCells(m, L.Init(L.Ptr(e)));
  }

  // ----- insertion -----

  lemma InsertHeadDoes<T>(m: L.Links<T>, st: State<T>, h: T, e: T) returns (m': L.Links<T>)
    requires Coupled(m, st) && h in st.brigades && Detached(st, e)
    ensures var now := [e] + st.brigades[h];
      && StepMem(m, InsertHead(h, e)) == Some(m')
      && Step(st, InsertHead(h, e)) == State(st.brigades[h := now], st.place[e := In(h)], st.dead)
      && Ring(m', [h] + now) && m'.next.Keys == m.next.Keys
  {
    var bs, op := st.brigades[h], Op.InsertHead(h, e);
    m' := StepSound(m, st, op);
    assert Inserted(bs, 0, [e]) == [e] + bs;
    assert BrigadeRing(m', Step(st, op), h);
    L.ExecKeepsCells(m, L.SpliceAfter(L.Ptr(h), L.Ptr(e), L.Ptr(e)));
  }

  lemma InsertTailDoes<T>(m: L.Links<T>, st: State<T>, h: T, e: T) returns (m': L.Links<T>)
    requires Coupled(m, st) && h in st.brigades && Detached(st, e)
    ensures var now := st.brigades[h] + [e];
      && StepMem(m, InsertTail(h, e)) == Some(m')
      && Step(st, InsertTail(h, e)) == State(st.brigades[h := now], st.place[e := In(h)], st.dead)
      && Ring(m', [h] + now) && m'.next.Keys == m.next.Keys
  {
    var bs, op := st.brigades[h], Op.InsertTail(h, e);
    m' := StepSound(m, st, op);
    assert Inserted(bs, |bs|, [e]) == bs + [e];
    assert BrigadeRing(m', Step(st, op), h);
    L.ExecKeepsCells(m, L.SpliceBefore(L.Ptr(h), L.Ptr(e), L.Ptr(e)));
  }

  /** Bucket e comes to stand at index i of brigade h, where a, unless it is the sentinel, stood. */
  lemma InsertBeforeDoes<T>(m: L.Links<T>, st: State<T>, a: T, e: T) returns (m': L.Links<T>, h: T, i: nat)
    requires Coupled(m, st) && Anchored(st, a) && Detached(st, e)
    ensures h in st.brigades && i <= |st.brigades[h]|
    ensures if a in st.brigades then h == a && i == |st.brigades[h]| else i < |st.brigades[h]| && st.brigades[h][i] == a
    ensures var now := st.brigades[h][..i] + [e] + st.brigades[h][i..];
      && StepMem(m, InsertBefore(a, e)) == Some(m')
      && Step(st, InsertBefore(a, e)) == State(st.brigades[h := now], st.place[e := In(h)], st.dead)
      && Ring(m', [h] + now) && m'.next.Keys == m.next.Keys
  {
    AnchorGap(st, a);
    h, i := Host(st, a), Before(st, a);
    var op := Op.InsertBefore(a, e);
    m' := StepSound(m, st, op);
    assert BrigadeRing(m', Step(st, op), h);
    L.ExecKeepsCells(m, L.SpliceBefore(L.Ptr(a), L.Ptr(e), L.Ptr(e)));
  }

  /** Bucket e comes to stand at index i of brigade h, directly behind a. */
  lemma InsertAfterDoes<T>(m: L.Links<T>, st: State<T>, a: T, e: T) returns (m': L.Links<T>, h: T, i: nat)
    requires Coupled(m, st) && Anchored(st, a) && Detached(st, e)
    ensures h in st.brigades && i <= |st.brigades[h]|
    ensures if a in st.brigades then h == a && i == 0 else 0 < i && st.brigades[h][i - 1] == a
    ensures var now := st.brigades[h][..i] + [e] + st.brigades[h][i..];
      && StepMem(m, InsertAfter(a, e)) == Some(m')
      && Step(st, InsertAfter(a, e)) == State(st.brigades[h := now], st.place[e := In(h)], st.dead)
      && Ring(m', [h] + now) && m'.next.Keys == m.next.Keys
  {
    AnchorGap(st, a);
    h, i := Host(st, a), After(st, a);
    var op := Op.InsertAfter(a, e);
    m' := StepSound(m, st, op);
    assert BrigadeRing(m', Step(st, op), h);
    L.ExecKeepsCells(m, L.SpliceAfter(L.Ptr(a), L.Ptr(e), L.Ptr(e)));
  }

  // ----- whole brigades -----

  lemma ConcatDoes<T>(m: L.Links<T>, st: State<T>, a: T, b: T) returns (m': L.Links<T>)
    requires Coupled(m, st) && a in st.brigades && b in st.brigades && a != b
    ensures var all, after := st.brigades[a] + st.brigades[b], Step(st, Concat(a, b));
      && StepMem(m, Concat(a, b)) == Some(m')
      && after.brigades == st.brigades[a := all][b := []] && after.dead == st.dead
      && after.place.Keys == st.place.Keys
      && (forall e | e in st.place :: after.place[e] == if e in st.brigades[b] then In(a) else st.place[e])
      && Ring(m', [a] + all) && Ring(m', [b]) && m'.next.Keys == m.next.Keys
  {
    var op := Op.Concat(a, b);
    m' := StepSound(m, st, op);
    assert BrigadeRing(m', Step(st, op), a) && BrigadeRing(m', Step(st, op), b);
    assert [b] + [] == [b];
    L.ExecKeepsCells(m, L.Concat(L.Ptr(a), L.Ptr(b)));
  }

  lemma PrependDoes<T>(m: L.Links<T>, st: State<T>, a: T, b: T) returns (m': L.Links<T>)
    requires Coupled(m, st) && a in st.brigades && b in st.brigades && a != b
    ensures var all, after := st.brigades[b] + st.brigades[a], Step(st, Prepend(a, b));
      && StepMem(m, Prepend(a, b)) == Some(m')
      && after.brigades == st.brigades[a := all][b := []] && after.dead == st.dead
      && after.place.Keys == st.place.Keys
      && (forall e | e in st.place :: after.place[e] == if e in st.brigades[b] then In(a) else st.place[e])
      && Ring(m', [a] + all) && Ring(m', [b]) && m'.next.Keys == m.next.Keys
  {
    var op := Op.Prepend(a, b);
    m' := StepSound(m, st, op);
    assert BrigadeRing(m', Step(st, op), a) && BrigadeRing(m', Step(st, op), b);
    assert [b] + [] == [b];
    L.ExecKeepsCells(m, L.Prepend(L.Ptr(a), L.Ptr(b)));
  }

  // ----- removal and destruction -----

  /** A bucket on a brigade leaves it; it was at index i. */
  lemma RemoveDoes<T>(m: L.Links<T>, st: State<T>, e: T) returns (m': L.Links<T>, h: T, i: nat)
    requires Coupled(m, st) && Attached(st, e)
    ensures st.place[e] == In(h) && h in st.brigades && i < |st.brigades[h]| && st.brigades[h][i] == e
    ensures var rest := st.brigades[h][..i] + st.brigades[h][i + 1..];
      && StepMem(m, Remove(e)) == Some(m')
      && Step(st, Remove(e)) == State(st.brigades[h := rest], st.place[e := Stale], st.dead)
      && Ring(m', [h] + rest) && m'.next.Keys == m.next.Keys
  {
    h, i := st.place[e].head, Before(st, e);
    m' := StepSound(m, st, Remove(e));
    assert BrigadeRing(m', Step(st, Remove(e)), h);
    L.ExecKeepsCells(m, L.Remove(L.Ptr(e)));
  }

  /** A bucket that is on none stays where it is, and so does all else. */
  lemma RemoveDetachedDoes<T>(m: L.Links<T>, st: State<T>, e: T) returns (m': L.Links<T>)
    requires Coupled(m, st) && Detached(st, e) && Removable(m, st, e)
    ensures StepMem(m, Remove(e)) == Some(m') && Step(st, Remove(e)) == st
    ensures m'.next.Keys == m.next.Keys && m'.prev.Keys == m.prev.Keys
    ensures forall x | L.Live(m, x) && !IsStale(st, x) :: m'.next[x] == m.next[x] && m'.prev[x] == m.prev[x]
  {
    m' := StepSound(m, st, Remove(e));
    L.ExecKeepsCells(m, L.Remove(L.Ptr(e)));
    forall x | L.Live(m, x) && !IsStale(st, x) ensures m'.next[x] == m.next[x] && m'.prev[x] == m.prev[x] {
      IsOnRingAround(m, st, x);
      IsOnRingAround(m', st, x);
      RingFixesPointers(m, m', RingAround(st, x), x);
    }
  }

  /** A detached bucket is destroyed, and its memory alone is gone. */
  lemma DestroyDoes<T>(m: L.Links<T>, st: State<T>, e: T) returns (m': L.Links<T>)
    requires Coupled(m, st) && Detached(st, e)
    ensures StepMem(m, Destroy(e)) == Some(m')
    ensures Step(st, Destroy(e)) == State(st.brigades, st.place[e := Freed], st.dead + [e])
    ensures !L.Live(m', e) && m' == L.Links(m.next - {e}, m.prev - {e})
  {
    m' := StepSound(m, st, Destroy(e));
  }

  /** delete is REMOVE and then destroy, in memory and in the books. */
  lemma DeleteIsBoth<T>(m: L.Links<T>, st: State<T>, e: T) returns (m1: L.Links<T>, m2: L.Links<T>)
    requires Coupled(m, st) && Removable(m, st, e)
    ensures StepMem(m, Remove(e)) == Some(m1) && StepMem(m1, Destroy(e)) == Some(m2)
    ensures StepMem(m, Delete(e)) == Some(m2)
    ensures var between := Step(st, Remove(e));
            Detached(between, e) && Step(st, Delete(e)) == Step(between, Destroy(e))
  {
    m1, m2 := RemoveAndFree(m, st, e);
    DeleteInParts(m, m1, m2, e);
    BooksInParts(st, e);
  }

  lemma RemoveAndFree<T>(m: L.Links<T>, st: State<T>, e: T) returns (m1: L.Links<T>, m2: L.Links<T>)
    requires Coupled(m, st) && Removable(m, st, e)
    ensures L.Exec(m, L.Remove(L.Ptr(e))) == Some(m1) && Free(m1, e) == Some(m2) && Detached(Removed(st, e), e)
  {
    m1 := RemoveSound(m, st, e);
    m2 := FreeSound(m1, Removed(st, e), e);
  }

  lemma BooksInParts<T>(st: State<T>, e: T)
    requires (Attached(st, e) || Detached(st, e)) && Detached(Removed(st, e), e)
    ensures var between := Step(st, Remove(e));
            Detached(between, e) && Step(st, Delete(e)) == Step(between, Destroy(e))
  {
  }

  lemma DeleteInParts<T>(m: L.Links<T>, m1: L.Links<T>, m2: L.Links<T>, e: T)
    requires L.Exec(m, L.Remove(L.Ptr(e))) == Some(m1) && Free(m1, e) == Some(m2)
    ensures StepMem(m, Remove(e)) == Some(m1) && StepMem(m1, Destroy(e)) == Some(m2)
    ensures StepMem(m, Delete(e)) == Some(m2) && m2 == L.Links(m1.next - {e}, m1.prev - {e})
  {
  }

  /** A bucket on a brigade leaves it, is destroyed, and its memory is gone. */
  lemma DeleteDoes<T>(m: L.Links<T>, st: State<T>, e: T) returns (m': L.Links<T>, h: T, i: nat)
    requires Coupled(m, st) && Attached(st, e)
    ensures st.place[e] == In(h) && h in st.brigades && i < |st.brigades[h]| && st.brigades[h][i] == e
    ensures var rest := st.brigades[h][..i] + st.brigades[h][i + 1..];
      && StepMem(m, Delete(e)) == Some(m')
      && Step(st, Delete(e)) == State(st.brigades[h := rest], st.place[e := Freed], st.dead + [e])
      && Ring(m', [h] + rest) && !L.Live(m', e) && m'.next.Keys == m.next.Keys - {e}
  {
    var m1;
    m1, h, i := RemoveDoes(m, st, e);
    var m2;
    m2, m' := DeleteIsBoth(m, st, e);
    assert m2 == m1 && m' == L.Links(m1.next - {e}, m1.prev - {e});
    var after := StepSound(m, st, Delete(e));
    assert BrigadeRing(m', Step(st, Delete(e)), h);
    assert st.place[e := Stale][e := Freed] == st.place[e := Freed];
  }

  /** A bucket on no brigade is destroyed, and all brigades stay as they are. */
  lemma DeleteDetachedDoes<T>(m: L.Links<T>, st: State<T>, e: T) returns (m': L.Links<T>)
    requires Coupled(m, st) && Detached(st, e) && Removable(m, st, e)
    ensures StepMem(m, Delete(e)) == Some(m')
    ensures Step(st, Delete(e)) == State(st.brigades, st.place[e := Freed], st.dead + [e])
    ensures !L.Live(m', e) && m'.next.Keys == m.next.Keys - {e}
  {
    var m1 := RemoveDetachedDoes(m, st, e);
    var m2;
    m2, m' := DeleteIsBoth(m, st, e);
    assert m' == L.Links(m1.next - {e}, m1.prev - {e});
  }
}
