/** What a ring is, and what the macros do to rings.

    A ring is written as the sequence of its nodes, starting anywhere; a ring with a head is
    `[h] + es` with the sentinel `h` in front of the elements.  Splicing is insertion at gap `k`,
    the place between `s[k-1]` and `At(s, k)`; gap `|s|` is the one between the last node and the first. */
module RingTheory {
  import opened Options
  import opened LinkMemory

  ghost predicate Distinct<T>(s: seq<T>) {
    forall i, j | 0 <= i < j < |s| :: s[i] != s[j]
  }

  /** b follows a, and a precedes b. */
  ghost predicate Linked<T>(m: Links<T>, a: T, b: T) {
    a in m.next && b in m.prev && m.next[a] == b && m.prev[b] == a
  }

  ghost predicate Chain<T>(m: Links<T>, s: seq<T>) {
    && (forall i | 0 <= i < |s| :: Live(m, s[i]))
    && (forall i, j | 0 <= i && i + 1 == j < |s| :: Linked(m, s[i], s[j]))
  }

  ghost predicate Ring<T>(m: Links<T>, s: seq<T>) {
    |s| > 0 && Distinct(s) && Chain(m, s) && Linked(m, s[|s| - 1], s[0])
  }

  ghost function At<T>(s: seq<T>, k: nat): T
    requires 0 < |s| && k <= |s|
  {
    if k == |s| then s[0] else s[k]
  }

  /** The sequence with c put into gap k. */
  ghost function Inserted<T>(s: seq<T>, k: nat, c: seq<T>): seq<T>
    requires k <= |s|
  {
    s[..k] + c + s[k..]
  }

  /** The sequence without positions lo to hi. */
  ghost function Cut<T>(s: seq<T>, lo: nat, hi: nat): seq<T>
    requires lo <= hi <= |s|
  {
    s[..lo] + s[hi..]
  }

  ghost function IndexOf<T>(s: seq<T>, x: T): (i: nat)
    requires x in s
    ensures i < |s| && s[i] == x && x !in s[..i]
  {
    if s[0] == x then 0 else 1 + IndexOf(s[1..], x)
  }

  // ----- splicing -----

  lemma SplicedRing<T>(m: Links<T>, s: seq<T>, k: nat, c: seq<T>)
    requires Ring(m, s) && 1 <= k <= |s|
    requires |c| > 0 && Chain(m, c) && Distinct(s + c)
    ensures Ring(Spliced(m, s[k - 1], At(s, k), c[0], c[|c| - 1]), Inserted(s, k, c))
  {
    var m' := Spliced(m, s[k - 1], At(s, k), c[0], c[|c| - 1]);
    var r := Inserted(s, k, c);
    forall i | 0 <= i < |s| ensures s[i] == (s + c)[i] && s[i] !in c {
      assert (s + c)[i] == s[i];
      forall j | 0 <= j < |c| ensures s[i] != c[j] { assert (s + c)[|s| + j] == c[j]; }
    }
    assert Distinct(s) && Distinct(c) by {
      forall i, j | 0 <= i < j < |c| ensures c[i] != c[j] {
        assert (s + c)[|s| + i] == c[i] && (s + c)[|s| + j] == c[j];
      }
    }
    assert Distinct(r);
    forall i, j | 0 <= i && i + 1 == j < |r| ensures Linked(m', r[i], r[j]) {
      if j < k {
        assert r[i] == s[i] && r[j] == s[j];
      } else if j == k {
        assert r[i] == s[k - 1] && r[j] == c[0];
      } else if j < k + |c| {
        assert r[i] == c[i - k] && r[j] == c[j - k];
      } else if j == k + |c| {
        assert r[i] == c[|c| - 1] && r[j] == s[k];
      } else {
        assert r[i] == s[i - |c|] && r[j] == s[j - |c|];
      }
    }
  }

  /** SPLICE_BEFORE and SPLICE_AFTER at the two sides of a gap leave the same memory, in which the
      chain fills the gap, at every gap: next to the sentinel and on an empty ring as well. */
  lemma SpliceFillsGap<T>(m: Links<T>, s: seq<T>, k: nat, c: seq<T>) returns (m': Links<T>)
    requires Ring(m, s) && 1 <= k <= |s|
    requires |c| > 0 && Chain(m, c) && Distinct(s + c)
    ensures Exec(m, SpliceBefore(Ptr(At(s, k)), Ptr(c[0]), Ptr(c[|c| - 1]))) == Some(m')
    ensures Exec(m, SpliceAfter(Ptr(s[k - 1]), Ptr(c[0]), Ptr(c[|c| - 1]))) == Some(m')
    ensures m' == Spliced(m, s[k - 1], At(s, k), c[0], c[|c| - 1])
    ensures Ring(m', Inserted(s, k, c))
  {
    var p, l := s[k - 1], At(s, k);
    assert Linked(m, p, l);
    m' := Spliced(m, p, l, c[0], c[|c| - 1]);
    SplicedRing(m, s, k, c);
    SpliceBeforeEffect(m, l, c[0], c[|c| - 1]);
    SpliceAfterEffect(m, p, c[0], c[|c| - 1]);
  }

  // ----- unsplicing -----

  /** UNSPLICE of any stretch that leaves out s[0] leaves the rest a ring and the stretch a chain
      whose two ends still point at their old neighbours. */
  lemma UnspliceCuts<T>(m: Links<T>, s: seq<T>, lo: nat, hi: nat) returns (m': Links<T>)
    requires Ring(m, s) && 1 <= lo < hi <= |s|
    ensures Exec(m, Unsplice(Ptr(s[lo]), Ptr(s[hi - 1]))) == Some(m')
    ensures m' == Joined(m, s[lo - 1], At(s, hi))
    ensures Ring(m', Cut(s, lo, hi)) && Chain(m', s[lo..hi])
    ensures m'.prev[s[lo]] == s[lo - 1] && m'.next[s[hi - 1]] == At(s, hi)
  {
    var x, y := s[lo - 1], At(s, hi);
    assert Linked(m, x, s[lo]) && Linked(m, s[hi - 1], y);
    UnspliceEffect(m, s[lo], s[hi - 1]);
    m' := Joined(m, x, y);
    var r, c := Cut(s, lo, hi), s[lo..hi];
    assert Distinct(r);
    forall i, j | 0 <= i && i + 1 == j < |r| ensures Linked(m', r[i], r[j]) {
      if j < lo {
        assert r[i] == s[i] && r[j] == s[j];
      } else if j == lo {
        assert r[i] == x && r[j] == y;
      } else {
        assert r[i] == s[i + hi - lo] && r[j] == s[j + hi - lo];
      }
    }
    forall i, j | 0 <= i && i + 1 == j < |c| ensures Linked(m', c[i], c[j]) {
      assert c[i] == s[lo + i] && c[j] == s[lo + j];
    }
  }

  /** UNSPLICE of a whole headless ring changes nothing: a lone element stays a self-loop. */
  lemma UnspliceAllIsNoOp<T>(m: Links<T>, s: seq<T>)
    requires Ring(m, s)
    ensures Exec(m, Unsplice(Ptr(s[0]), Ptr(s[|s| - 1]))) == Some(m)
  {
    UnspliceEffect(m, s[0], s[|s| - 1]);
    assert Joined(m, s[|s| - 1], s[0]) == m;
  }

  // ----- rings stand by themselves -----

  /** REMOVE(FIRST(h)) with the argument pasted in goes wrong on every ring but the empty one: once next of
      the head is written, FIRST(h) means the second element. */
  lemma RemoveFirstByName<T>(m: Links<T>, h: T, es: seq<T>) returns (m': Links<T>)
    requires Ring(m, [h] + es)
    ensures Live(m, h) && Exec(m, Remove(Next(Ptr(h)))) == Some(m')
    ensures Exec(m, Remove(Ptr(m.next[h]))) == Some(m') <==> es == []
    ensures es != [] ==>
      var second := At([h] + es, 2);
      Live(m', h) && Live(m', second) && m'.next[h] == second && m'.prev[second] == es[0]
  {
    var r := [h] + es;
    var a := At(r, 1);
    assert Linked(m, h, a);
    if es == [] {
      UnspliceByName(m, Next(Ptr(h)), Next(Ptr(h)), h, h, h, h);
      UnspliceEffect(m, h, h);
      m' := Joined(m, h, h);
    } else {
      var b := At(r, 2);
      assert Linked(m, r[1], b);
      if |es| > 1 { assert Linked(m, r[2], At(r, 3)); }
      var m1 := m.(next := m.next[h := b]);
      ReachesCells(m, Ptr(h), h);
      ReachesCells(m1, Ptr(h), h);
      UnspliceByName(m, Next(Ptr(h)), Next(Ptr(h)), a, a, b, b);
      m' := m1.(prev := m.prev[m1.next[b] := m.prev[b]]);
      UnspliceEffect(m, a, a);
      assert Joined(m, h, b).prev[b] == h;
    }
  }

  /** REMOVE(LAST(h)) is as good as the call by value. */
  lemma RemoveLastByName<T>(m: Links<T>, h: T, es: seq<T>)
    requires Ring(m, [h] + es)
    ensures Live(m, h) && Exec(m, Remove(Prev(Ptr(h)))) == Exec(m, Remove(Ptr(m.prev[h])))
  {
    var r, n := [h] + es, |es|;
    var x := if n == 0 then h else r[n - 1];
    assert Linked(m, r[n], h) && Linked(m, x, r[n]);
    var m1 := m.(next := m.next[x := h]);
    ReachesCells(m, Ptr(h), h);
    ReachesCells(m1, Ptr(h), h);
    UnspliceByName(m, Prev(Ptr(h)), Prev(Ptr(h)), r[n], r[n], r[n], r[n]);
    UnspliceEffect(m, r[n], r[n]);
  }

  /** delete(FIRST(h)) and delete(LAST(h)) as text: what is destroyed after the removal is not the bucket
      removed.  In the first form it is the second bucket or the sentinel; in the second form it is a
      node still on the ring, the last bucket that is left or the sentinel. */
  lemma DeleteByNameDestroysOther<T>(m: Links<T>, h: T, es: seq<T>) returns (m1: Links<T>, m2: Links<T>)
    requires Ring(m, [h] + es) && es != []
    ensures Exec(m, Remove(Next(Ptr(h)))) == Some(m1)
    ensures Eval(m1, Next(Ptr(h))) == Some(At([h] + es, 2)) && At([h] + es, 2) != es[0]
    ensures Exec(m, Remove(Prev(Ptr(h)))) == Some(m2) && Ring(m2, [h] + es[..|es| - 1])
    ensures Eval(m2, Prev(Ptr(h))) == Some(([h] + es[..|es| - 1])[|es| - 1])
  {
    var r, n := [h] + es, |es|;
    m1 := RemoveFirstByName(m, h, es);
    RemoveLastByName(m, h, es);
    m2 := UnspliceCuts(m, r, n, n + 1);
    assert Linked(m, r[n], h);
    var rest := [h] + es[..n - 1];
    assert Cut(r, n, n + 1) == rest;
    assert Linked(m2, rest[n - 1], h);
    assert At(r, 2) != r[1];
  }

  /** INSERT_BEFORE(FIRST(h), e) as text leaves e pointing back at itself: once next of the head is
      written, FIRST(h) means e. */
  lemma InsertBeforeFirstByName<T>(m: Links<T>, h: T, es: seq<T>, e: T)
    requires Ring(m, [h] + es) && Live(m, e) && e !in [h] + es
    ensures Live(m, h)
    ensures Exec(m, SpliceBefore(Next(Ptr(h)), Ptr(e), Ptr(e)))
         == Some(Links(m.next[e := m.next[h]][h := e], m.prev[e := e]))
  {
    var r := [h] + es;
    var a := At(r, 1);
    assert h in r && a in r && Linked(m, h, a);
    SpliceBeforeByName(m, Next(Ptr(h)), Ptr(e), Ptr(e), h, a, e, e, e);
    assert m.prev[e := h][e := e] == m.prev[e := e];
  }

  /** The mirror image of that: INSERT_AFTER(LAST(h), e) as text leaves e its own successor. */
  lemma InsertAfterLastByName<T>(m: Links<T>, h: T, es: seq<T>, e: T)
    requires Ring(m, [h] + es) && Live(m, e) && e !in [h] + es
    ensures Live(m, h)
    ensures Exec(m, SpliceAfter(Prev(Ptr(h)), Ptr(e), Ptr(e)))
         == Some(Links(m.next[e := e], m.prev[e := m.prev[h]][h := e]))
  {
    var r := [h] + es;
    var z := r[|es|];
    assert h in r && z in r && Linked(m, z, h);
    SpliceAfterByName(m, Prev(Ptr(h)), Ptr(e), Ptr(e), z, e, h, e, e);
    assert m.next[e := h][e := e] == m.next[e := e];
  }

  ghost predicate Agree<T>(m: Links<T>, m': Links<T>, s: seq<T>) {
    forall i | 0 <= i < |s| ::
      Live(m, s[i]) && Live(m', s[i]) && m.next[s[i]] == m'.next[s[i]] && m.prev[s[i]] == m'.prev[s[i]]
  }

  lemma Untouched<T>(m: Links<T>, m': Links<T>, s: seq<T>)
    requires Ring(m, s) && Agree(m, m', s)
    ensures Ring(m', s)
  {
  }

  /** Memory without the cells of e. */
  lemma WithoutKept<T>(m: Links<T>, e: T, r: seq<T>)
    requires Ring(m, r) && e !in r
    ensures Ring(Links(m.next - {e}, m.prev - {e}), r)
  {
    var m' := Links(m.next - {e}, m.prev - {e});
    forall j | 0 <= j < |r| ensures r[j] != e { assert r[j] in r; }
    Untouched(m, m', r);
  }

  lemma Rotate<T>(m: Links<T>, s: seq<T>, k: nat)
    requires Ring(m, s) && k <= |s|
    ensures Ring(m, s[k..] + s[..k])
  {
    var r := s[k..] + s[..k];
    forall i, j | 0 <= i && i + 1 == j < |r| ensures Linked(m, r[i], r[j]) {
      if j < |s| - k {
        assert r[i] == s[k + i] && r[j] == s[k + j];
      } else if j == |s| - k {
        assert r[i] == s[|s| - 1] && r[j] == s[0];
      } else {
        assert r[i] == s[i - (|s| - k)] && r[j] == s[j - (|s| - k)];
      }
    }
  }

  /** The pointers alone determine what is on a ring. */
  lemma {:induction false} RingIsUnique<T>(m: Links<T>, s: seq<T>, t: seq<T>)
    requires Ring(m, s) && Ring(m, t) && s[0] == t[0]
    ensures s == t
  {
    PrefixesAgree(m, s, t, if |s| < |t| then |s| else |t|);
    assert s == s[..|s|] && t == t[..|t|];
  }

  lemma {:induction false} PrefixesAgree<T>(m: Links<T>, s: seq<T>, t: seq<T>, n: nat)
    requires Chain(m, s) && Chain(m, t) && n <= |s| && n <= |t|
    requires n > 0 ==> s[0] == t[0]
    ensures s[..n] == t[..n]
  {
    if n > 1 {
      PrefixesAgree(m, s, t, n - 1);
      assert s[..n - 1][n - 2] == t[..n - 1][n - 2];
      assert Linked(m, s[n - 2], s[n - 1]) && Linked(m, t[n - 2], t[n - 1]);
      assert s[..n] == s[..n - 1] + [s[n - 1]] && t[..n] == t[..n - 1] + [t[n - 1]];
    }
  }

  // ----- concatenating -----

  /** The contents of ring h2 moved between p and l: six cells are written, none of them inside. */
  ghost function Moved<T>(m: Links<T>, p: T, l: T, h2: T): Links<T>
    requires Live(m, h2)
  {
    Joined(Spliced(m, p, l, m.next[h2], m.prev[h2]), h2, h2)
  }

  /** With h1 != h2 pasting FIRST(h2) and LAST(h2) into the splice means what passing them would. */
  lemma ConcatEffect<T>(m: Links<T>, h1: T, h2: T)
    requires Live(m, h1) && Live(m, h2) && Live(m, m.next[h2]) && Live(m, m.prev[h2]) && Live(m, m.prev[h1])
    requires h1 != h2 && (m.next[h2] != h2 ==> m.prev[h2] != h2)
    ensures Exec(m, Concat(Ptr(h1), Ptr(h2)))
            == Some(if m.next[h2] == h2 then m else Moved(m, m.prev[h1], h1, h2))
  {
    if m.next[h2] == h2 {
      assert Eval(m, Next(Ptr(h2))) == Some(h2);
      return;
    }
    var p, f, l := m.prev[h1], m.next[h2], m.prev[h2];
    var H, F, Z := Ptr(h1), Next(Ptr(h2)), Prev(Ptr(h2));
    HeadReaches(m, h2);
    HeadReaches(Links(m.next[l := h1], m.prev), h2);
    HeadReaches(Links(m.next[l := h1], m.prev[f := p]), h2);
    HeadReaches(Links(m.next[l := h1][p := f], m.prev[f := p]), h2);
    SpliceBeforeByName(m, H, F, Z, p, h1, h1, f, l);
    var m4 := Spliced(m, p, h1, f, l);
    InitEffect(m4, h2);
    Sequence(m, SpliceBefore(H, F, Z), m4, Init(Ptr(h2)));
  }

  lemma HeadReaches<T>(m: Links<T>, h: T)
    requires Live(m, h)
    ensures Live(m, m.next[h]) ==> Reaches(m, Next(Ptr(h)), m.next[h])
    ensures Live(m, m.prev[h]) ==> Reaches(m, Prev(Ptr(h)), m.prev[h])
  {
    ReachesCells(m, Ptr(h), h);
  }

  lemma PrependEffect<T>(m: Links<T>, h1: T, h2: T)
    requires Live(m, h1) && Live(m, h2) && Live(m, m.next[h2]) && Live(m, m.prev[h2]) && Live(m, m.next[h1])
    requires h1 != h2 && (m.next[h2] != h2 ==> m.prev[h2] != h2)
    ensures Exec(m, Prepend(Ptr(h1), Ptr(h2)))
            == Some(if m.next[h2] == h2 then m else Moved(m, h1, m.next[h1], h2))
  {
    if m.next[h2] == h2 {
      assert Eval(m, Next(Ptr(h2))) == Some(h2);
      return;
    }
    var n, f, l := m.next[h1], m.next[h2], m.prev[h2];
    var H, F, Z := Ptr(h1), Next(Ptr(h2)), Prev(Ptr(h2));
    HeadReaches(m, h2);
    HeadReaches(Links(m.next, m.prev[f := h1]), h2);
    HeadReaches(Links(m.next[l := n], m.prev[f := h1]), h2);
    HeadReaches(Links(m.next[l := n], m.prev[f := h1][n := l]), h2);
    SpliceAfterByName(m, H, F, Z, h1, h1, n, f, l);
    var m4 := Spliced(m, h1, n, f, l);
    InitEffect(m4, h2);
    Sequence(m, SpliceAfter(H, F, Z), m4, Init(Ptr(h2)));
  }

  lemma TailIsChain<T>(m: Links<T>, h: T, t: seq<T>)
    requires Ring(m, [h] + t)
    ensures Live(m, h) && Chain(m, t) && Distinct(t) && h !in t
    ensures t == [] ==> m.next[h] == h && m.prev[h] == h
    ensures t != [] ==> m.next[h] == t[0] && m.prev[h] == t[|t| - 1]
    ensures Live(m, m.next[h]) && Live(m, m.prev[h])
  {
    var r := [h] + t;
    assert r[0] == h && r[1..] == t;
    forall i, j | 0 <= i && i + 1 == j < |t| ensures Linked(m, t[i], t[j]) {
      assert r[i + 1] == t[i] && r[j + 1] == t[j];
    }
    forall i, j | 0 <= i < j < |t| ensures t[i] != t[j] { assert r[i + 1] == t[i] && r[j + 1] == t[j]; }
    forall i | 0 <= i < |t| ensures Live(m, t[i]) && t[i] != h { assert r[i + 1] == t[i]; }
    assert Linked(m, r[|r| - 1], h);
    if t != [] { assert Linked(m, r[0], r[1]); }
  }

  lemma Disjointness<T>(r: seq<T>, h: T, t: seq<T>)
    requires Distinct(r + [h] + t)
    ensures Distinct(r + t) && Distinct(r) && h !in r + t
  {
    var all := r + [h] + t;
    assert h == all[|r|];
    forall i | 0 <= i < |r + t| ensures (r + t)[i] == all[if i < |r| then i else i + 1] != h {}
    forall i | 0 <= i < |r| ensures r[i] == all[i] {}
  }

  /** CONCAT and PREPEND of ring h2 onto another ring h1, both maybe empty: the contents of h2 go
      behind or before those of h1, h2 is left empty. */
  lemma ConcatRings<T>(m: Links<T>, h1: T, s: seq<T>, h2: T, t: seq<T>) returns (m': Links<T>)
    requires Ring(m, [h1] + s) && Ring(m, [h2] + t) && Distinct(([h1] + s) + [h2] + t)
    ensures Exec(m, Concat(Ptr(h1), Ptr(h2))) == Some(m')
    ensures Ring(m', [h1] + (s + t)) && Ring(m', [h2])
    ensures m' == if t == [] then m else Moved(m, m.prev[h1], h1, h2)
  {
    var r := [h1] + s;
    TailIsChain(m, h1, s);
    TailIsChain(m, h2, t);
    Disjointness(r, h2, t);
    if t == [] {
      assert s + t == s;
      ConcatEffect(m, h1, h2);
      m' := m;
    } else {
      var m1 := SpliceFillsGap(m, r, |r|, t);
      ConcatEffect(m, h1, h2);
      m' := Joined(m1, h2, h2);
      assert Inserted(r, |r|, t) == r + t == [h1] + (s + t);
      Untouched(m1, m', r + t);
    }
  }

  lemma PrependRings<T>(m: Links<T>, h1: T, s: seq<T>, h2: T, t: seq<T>) returns (m': Links<T>)
    requires Ring(m, [h1] + s) && Ring(m, [h2] + t) && Distinct(([h1] + s) + [h2] + t)
    ensures Exec(m, Prepend(Ptr(h1), Ptr(h2))) == Some(m')
    ensures Ring(m', [h1] + (t + s)) && Ring(m', [h2])
    ensures m' == if t == [] then m else Moved(m, h1, m.next[h1], h2)
  {
    var r := [h1] + s;
    TailIsChain(m, h1, s);
    TailIsChain(m, h2, t);
    Disjointness(r, h2, t);
    if t == [] {
      assert t + s == s;
      PrependEffect(m, h1, h2);
      m' := m;
    } else {
      var m1 := SpliceFillsGap(m, r, 1, t);
      PrependEffect(m, h1, h2);
      m' := Joined(m1, h2, h2);
      var u := Inserted(r, 1, t);
      assert u == [h1] + (t + s);
      forall x | x in u ensures x in r + t {}
      Untouched(m1, m', u);
    }
  }

  /** CONCAT of a ring with itself does not do nothing: it empties the ring and leaves the elements
      behind as a ring without a head. */
  lemma SelfConcatBeheads<T>(m: Links<T>, h: T, s: seq<T>) returns (m': Links<T>)
    requires Ring(m, [h] + s) && s != []
    ensures Exec(m, Concat(Ptr(h), Ptr(h))) == Some(m')
    ensures Ring(m', [h]) && Ring(m', s)
  {
    TailIsChain(m, h, s);
    var f, l := s[0], s[|s| - 1];
    assert f in s && l in s;
    var H, F, Z := Ptr(h), Next(Ptr(h)), Prev(Ptr(h));
    HeadReaches(m, h);
    HeadReaches(Links(m.next[l := h], m.prev), h);
    HeadReaches(Links(m.next[l := h], m.prev[f := l]), h);
    HeadReaches(Links(m.next[l := h][l := f], m.prev[f := l]), h);
    SpliceBeforeByName(m, H, F, Z, l, h, h, f, l);
    var m4 := Spliced(m, l, h, f, l);
    InitEffect(m4, h);
    Sequence(m, SpliceBefore(H, F, Z), m4, Init(H));
    m' := Joined(m4, h, h);
    assert Linked(m', l, f) && Linked(m', h, h);
    forall i, j | 0 <= i && i + 1 == j < |s| ensures Linked(m', s[i], s[j]) { assert Linked(m, s[i], s[j]); }
    assert Ring(m', s);
  }

  // ----- taking an UNSPLICE back -----

  lemma ResplicingEffect<T>(m: Links<T>, a: T, z: T)
    requires Live(m, a) && Live(m, z) && Live(m, m.prev[a]) && Live(m, m.next[z])
    ensures var x, y := m.prev[a], m.next[z];
            Exec(Joined(m, x, y), Resplice(Ptr(a), Ptr(z)))
            == Some(Links(m.next[x := a], m.prev[y := x][if x == z then a else y := z]))
  {
    var x, y := m.prev[a], m.next[z];
    var m1 := Joined(m, x, y);
    var Y := Next(Ptr(z));
    assert m1.next[z := y] == m1.next && m1.prev[a := x] == m1.prev;
    HeadReaches(m1, z);
    HeadReaches(Links(m1.next[x := a], m1.prev), z);
    SpliceBeforeByName(m1, Y, Ptr(a), Ptr(z), x, y, if x == z then a else y, a, z);
    assert m1.next[x := a] == m.next[x := a];
  }

  /** UNSPLICE followed by SPLICE_BEFORE(NEXT(epN), ep1, epN) restores every pointer exactly when the
      two ends were properly linked; nothing else need hold, not even that a node stays behind. */
  lemma ResplicingRestores<T>(m: Links<T>, a: T, z: T) returns (m1: Links<T>)
    requires Live(m, a) && Live(m, z) && Live(m, m.prev[a]) && Live(m, m.next[z])
    ensures Exec(m, Unsplice(Ptr(a), Ptr(z))) == Some(m1)
    ensures Exec(m1, Resplice(Ptr(a), Ptr(z))) == Some(m) <==> Linked(m, m.prev[a], a) && Linked(m, z, m.next[z])
  {
    var x, y := m.prev[a], m.next[z];
    m1 := Joined(m, x, y);
    UnspliceEffect(m, a, z);
    ResplicingEffect(m, a, z);
    var m2 := Links(m.next[x := a], m.prev[y := x][if x == z then a else y := z]);
    assert m2.next[x] == a && m2.prev[if x == z then a else y] == z;
    if Linked(m, x, a) && Linked(m, z, y) {
      assert m2.next == m.next && m2.prev == m.prev;
    }
  }

  /** Positions of stretches to take out one after the other, each counted in what is then left. */
  type Cuts = seq<(nat, nat)>

  ghost predicate Cuttable<T>(s: seq<T>, cuts: Cuts) {
    cuts == [] ||
    (1 <= cuts[0].0 < cuts[0].1 <= |s| && Cuttable(Cut(s, cuts[0].0, cuts[0].1), cuts[1..]))
  }

  ghost function Remaining<T>(s: seq<T>, cuts: Cuts): seq<T>
    requires Cuttable(s, cuts)
  {
    if cuts == [] then s else Remaining(Cut(s, cuts[0].0, cuts[0].1), cuts[1..])
  }

  ghost function UnspliceAll<T>(m: Links<T>, s: seq<T>, cuts: Cuts): Option<Links<T>>
    requires Cuttable(s, cuts)
    decreases |cuts|
  {
    if cuts == [] then Some(m) else
      var (lo, hi) := cuts[0];
      var r := Exec(m, Unsplice(Ptr(s[lo]), Ptr(s[hi - 1])));
      if r.None? then None else UnspliceAll(r.value, Cut(s, lo, hi), cuts[1..])
  }

  /** The same stretches put back, last one first. */
  ghost function RespliceAll<T>(m: Links<T>, s: seq<T>, cuts: Cuts): Option<Links<T>>
    requires Cuttable(s, cuts)
    decreases |cuts|
  {
    if cuts == [] then Some(m) else
      var (lo, hi) := cuts[0];
      var r := RespliceAll(m, Cut(s, lo, hi), cuts[1..]);
      if r.None? then None else Exec(r.value, Resplice(Ptr(s[lo]), Ptr(s[hi - 1])))
  }

  /** Dancing links: any stack of UNSPLICEs, undone in reverse, restores the memory pointer for pointer. */
  lemma {:induction false} StackOfUnsplicesUndone<T>(m: Links<T>, s: seq<T>, cuts: Cuts) returns (m': Links<T>)
    requires Ring(m, s) && Cuttable(s, cuts)
    ensures UnspliceAll(m, s, cuts) == Some(m') && Ring(m', Remaining(s, cuts))
    ensures RespliceAll(m', s, cuts) == Some(m)
    decreases |cuts|
  {
    if cuts == [] {
      m' := m;
    } else {
      var (lo, hi) := cuts[0];
      var m1 := UnspliceCuts(m, s, lo, hi);
      m' := StackOfUnsplicesUndone(m1, Cut(s, lo, hi), cuts[1..]);
      assert Linked(m, s[lo - 1], s[lo]) && Linked(m, s[hi - 1], At(s, hi));
      var m2 := ResplicingRestores(m, s[lo], s[hi - 1]);
    }
  }

  // ----- splitting a ring and joining it again -----

  lemma InsertedAlone<T>(x: T, c: seq<T>)
    ensures Inserted([x], 1, c) == [x] + c
  {
  }

  lemma SplitOff<T>(m: Links<T>, h: T, es: seq<T>, k: nat) returns (m1: Links<T>)
    requires Ring(m, [h] + es) && k < |es|
    ensures Exec(m, Unsplice(Ptr(es[k]), Ptr(es[|es| - 1]))) == Some(m1)
    ensures m1 == Joined(m, ([h] + es)[k], h)
    ensures Ring(m1, [h] + es[..k]) && Chain(m1, es[k..])
  {
    var r := [h] + es;
    assert r[k + 1] == es[k] && r[|r| - 1] == es[|es| - 1] && At(r, |r|) == h;
    m1 := UnspliceCuts(m, r, k + 1, |r|);
    assert r[k + 1..|r|] == es[k..] && Cut(r, k + 1, |r|) == [h] + es[..k];
  }

  lemma FillEmpty<T>(m: Links<T>, h: T, c: seq<T>, other: seq<T>) returns (m': Links<T>)
    requires Ring(m, [h]) && |c| > 0 && Chain(m, c) && Ring(m, other) && Distinct(other + [h] + c)
    ensures Exec(m, SpliceBefore(Ptr(h), Ptr(c[0]), Ptr(c[|c| - 1]))) == Some(m')
    ensures m' == Spliced(m, h, h, c[0], c[|c| - 1])
    ensures Ring(m', [h] + c) && Ring(m', other)
  {
    var all := other + [h] + c;
    forall i | 0 <= i < |[h] + c| ensures ([h] + c)[i] == all[|other| + i] {}
    forall i, j | 0 <= i < |other| && 0 <= j < |[h] + c| ensures other[i] != ([h] + c)[j] {
      assert other[i] == all[i] && ([h] + c)[j] == all[|other| + j];
    }
    assert ([h] + c)[0] == h && ([h] + c)[1] == c[0] && ([h] + c)[|c|] == c[|c| - 1];
    m' := SpliceFillsGap(m, [h], 1, c);
    InsertedAlone(h, c);
    Untouched(m, m', other);
  }

  lemma SplitTail<T>(m: Links<T>, h: T, es: seq<T>, k: nat, h2: T) returns (m1: Links<T>, m2: Links<T>)
    requires Ring(m, [h] + es) && Ring(m, [h2]) && h2 != h && h2 !in es && k < |es|
    ensures Exec(m, Unsplice(Ptr(es[k]), Ptr(es[|es| - 1]))) == Some(m1)
    ensures Exec(m1, SpliceBefore(Ptr(h2), Ptr(es[k]), Ptr(es[|es| - 1]))) == Some(m2)
    ensures Ring(m2, [h] + es[..k]) && Ring(m2, [h2] + es[k..])
    ensures Distinct(([h] + es[..k]) + [h2] + es[k..])
    ensures m2 == Spliced(Joined(m, ([h] + es)[k], h), h2, h2, es[k], es[|es| - 1])
  {
    var r := [h] + es;
    m1 := SplitOff(m, h, es, k);
    Untouched(m, m1, [h2]);
    DistinctParts(r, k + 1, h2);
    assert r[..k + 1] == [h] + es[..k] && r[k + 1..] == es[k..];
    m2 := FillEmpty(m1, h2, es[k..], [h] + es[..k]);
  }

  /** UNSPLICE of e..LAST and SPLICE_TAIL onto an empty ring leave the prefix and the suffix; CONCAT
      then restores the original memory. */
  lemma SplitThenConcat<T>(m: Links<T>, h: T, es: seq<T>, k: nat, h2: T) returns (m1: Links<T>, m2: Links<T>)
    requires Ring(m, [h] + es) && Ring(m, [h2]) && h2 != h && h2 !in es && k < |es|
    ensures Live(m, h) && Exec(m, Unsplice(Ptr(es[k]), Ptr(m.prev[h]))) == Some(m1)
    ensures Exec(m1, SpliceBefore(Ptr(h2), Ptr(es[k]), Ptr(m.prev[h]))) == Some(m2)
    ensures Ring(m2, [h] + es[..k]) && Ring(m2, [h2] + es[k..])
    ensures Exec(m2, Concat(Ptr(h), Ptr(h2))) == Some(m)
  {
    var p, z := ([h] + es)[k], es[|es| - 1];
    m1, m2 := SplitTail(m, h, es, k, h2);
    TailIsChain(m, h, es);
    assert Linked(m, p, ([h] + es)[k + 1]) && Linked(m, z, h) && Linked(m, h2, h2);
    var m3 := ConcatRings(m2, h, es[..k], h2, es[k..]);
    SplitWritesUndone(m, h, p, es[k], z, h2);
  }

  lemma DistinctParts<T>(r: seq<T>, k: nat, x: T)
    requires Distinct(r) && x !in r && k <= |r|
    ensures Distinct(r[..k] + [x] + r[k..])
  {
    var all := r[..k] + [x] + r[k..];
    forall i | 0 <= i < |all| && i != k ensures all[i] == r[if i < k then i else i - 1] {}
  }

  lemma SplitWritesUndone<T>(m: Links<T>, h: T, p: T, e: T, z: T, h2: T)
    requires Live(m, h) && Live(m, h2) && Linked(m, p, e) && Linked(m, z, h) && Linked(m, h2, h2) && h2 !in {h, p, e, z}
    ensures Moved(Spliced(Joined(m, p, h), h2, h2, e, z), p, h, h2) == m
  {
    var m3 := Moved(Spliced(Joined(m, p, h), h2, h2, e, z), p, h, h2);
    assert m3.next == m.next;
    assert m3.prev == m.prev;
  }
}
