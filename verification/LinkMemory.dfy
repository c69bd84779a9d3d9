/** An optional value. */
module Options {
  datatype Option<+T> = None | Some(value: T)
}

/** The memory that the ring macros work on, and the macros themselves.

    A `Links` value holds the `next` and the `prev` cell of every live element; a cell that is not in
    the maps is memory nobody may read or write.  The macros of apr_ring.h are C text: an argument is
    pasted into the body and evaluated again at each use.  They are therefore modelled as syntax
    (`Stmt`) over argument expressions (`Expr`), and `Exec` gives that syntax its meaning, `None` being
    an access outside the live cells. */
module LinkMemory {
  import opened Options

  datatype Links<T(==)> = Links(next: map<T, T>, prev: map<T, T>)

  datatype Expr<T> =
    | Ptr(p: T)
    | Next(of: Expr<T>)
    | Prev(of: Expr<T>)

  datatype Stmt<T> =
    | SetNext(target: Expr<T>, val: Expr<T>)
    | SetPrev(target: Expr<T>, val: Expr<T>)
    | Then(first: Stmt<T>, rest: Stmt<T>)
    | IfDiffer(left: Expr<T>, right: Expr<T>, body: Stmt<T>)

  ghost function Eval<T>(m: Links<T>, e: Expr<T>): Option<T> {
    match e
    case Ptr(p) => Some(p)
    case Next(e1) =>
      var r := Eval(m, e1);
      if r.Some? && r.value in m.next then Some(m.next[r.value]) else None
    case Prev(e1) =>
      var r := Eval(m, e1);
      if r.Some? && r.value in m.prev then Some(m.prev[r.value]) else None
  }

  ghost function Exec<T>(m: Links<T>, s: Stmt<T>): Option<Links<T>>
    decreases s
  {
    match s
    case SetNext(e, v) =>
      var t, r := Eval(m, e), Eval(m, v);
      if t.Some? && r.Some? && t.value in m.next then Some(m.(next := m.next[t.value := r.value])) else None
    case SetPrev(e, v) =>
      var t, r := Eval(m, e), Eval(m, v);
      if t.Some? && r.Some? && t.value in m.prev then Some(m.(prev := m.prev[t.value := r.value])) else None
    case Then(a, b) =>
      var r := Exec(m, a);
      if r.Some? then Exec(r.value, b) else None
    case IfDiffer(a, b, body) =>
      var l, r := Eval(m, a), Eval(m, b);
      if l.None? || r.None? then None
      else if l.value != r.value then Exec(m, body) else Some(m)
  }

  // ----- the macros, statement by statement; a head is named by its sentinel -----

  ghost function Init<T>(h: Expr<T>): Stmt<T> {
    Then(SetNext(h, h), SetPrev(h, h))
  }

  ghost function SpliceBefore<T>(lep: Expr<T>, ep1: Expr<T>, epN: Expr<T>): Stmt<T> {
    Then(SetNext(epN, lep),
    Then(SetPrev(ep1, Prev(lep)),
    Then(SetNext(Prev(lep), ep1),
         SetPrev(lep, epN))))
  }

  ghost function SpliceAfter<T>(lep: Expr<T>, ep1: Expr<T>, epN: Expr<T>): Stmt<T> {
    Then(SetPrev(ep1, lep),
    Then(SetNext(epN, Next(lep)),
    Then(SetPrev(Next(lep), epN),
         SetNext(lep, ep1))))
  }

  ghost function Unsplice<T>(ep1: Expr<T>, epN: Expr<T>): Stmt<T> {
    Then(SetNext(Prev(ep1), Next(epN)),
         SetPrev(Next(epN), Prev(ep1)))
  }

  ghost function Remove<T>(ep: Expr<T>): Stmt<T> {
    Unsplice(ep, ep)
  }

  ghost function Concat<T>(h1: Expr<T>, h2: Expr<T>): Stmt<T> {
    IfDiffer(Next(h2), h2, Then(SpliceBefore(h1, Next(h2), Prev(h2)), Init(h2)))
  }

  ghost function Prepend<T>(h1: Expr<T>, h2: Expr<T>): Stmt<T> {
    IfDiffer(Next(h2), h2, Then(SpliceAfter(h1, Next(h2), Prev(h2)), Init(h2)))
  }

  /** The statement that takes an UNSPLICE of ep1..epN back. */
  ghost function Resplice<T>(ep1: Expr<T>, epN: Expr<T>): Stmt<T> {
    SpliceBefore(Next(epN), ep1, epN)
  }

  // ----- what the statement lists amount to, for arguments that are plain pointers -----

  /** The chain a..z put between p and l, whatever these four alias. */
  ghost function Spliced<T>(m: Links<T>, p: T, l: T, a: T, z: T): Links<T> {
    Links(m.next[z := l][p := a], m.prev[a := p][l := z])
  }

  /** x and y made neighbours. */
  ghost function Joined<T>(m: Links<T>, x: T, y: T): Links<T> {
    Links(m.next[x := y], m.prev[y := x])
  }

  ghost predicate Live<T>(m: Links<T>, x: T) {
    x in m.next && x in m.prev
  }

  lemma Sequence<T>(m: Links<T>, a: Stmt<T>, m1: Links<T>, b: Stmt<T>)
    requires Exec(m, a) == Some(m1)
    ensures Exec(m, Then(a, b)) == Exec(m1, b)
  {
  }

  /** No program allocates or frees. */
  lemma {:induction false} ExecKeepsCells<T>(m: Links<T>, s: Stmt<T>)
    ensures Exec(m, s).Some? ==>
      Exec(m, s).value.next.Keys == m.next.Keys && Exec(m, s).value.prev.Keys == m.prev.Keys
    decreases s
  {
    match s
    case SetNext(_, _) =>
    case SetPrev(_, _) =>
    case Then(a, b) =>
      ExecKeepsCells(m, a);
      if Exec(m, a).Some? { ExecKeepsCells(Exec(m, a).value, b); }
    case IfDiffer(_, _, body) => ExecKeepsCells(m, body);
  }

  lemma InitEffect<T>(m: Links<T>, h: T)
    requires Live(m, h)
    ensures Exec(m, Init(Ptr(h))) == Some(Joined(m, h, h))
  {
    var m1 := m.(next := m.next[h := h]);
    assert Exec(m, SetNext(Ptr(h), Ptr(h))) == Some(m1);
  }

  /** INIT makes the two cells of new memory a loop, whatever they held. */
  lemma InitOfNew<T>(m: Links<T>, h: T, n: T, p: T)
    ensures Exec(Links(m.next[h := n], m.prev[h := p]), Init(Ptr(h))) == Some(Joined(m, h, h))
  {
    var m0 := Links(m.next[h := n], m.prev[h := p]);
    InitEffect(m0, h);
    assert m0.next[h := h] == m.next[h := h] && m0.prev[h := h] == m.prev[h := h];
  }

  /** Expression e leads to node x, which is live. */
  ghost predicate Reaches<T>(m: Links<T>, e: Expr<T>, x: T) {
    Live(m, x) && Eval(m, e) == Some(x)
  }

  lemma ReachesCells<T>(m: Links<T>, e: Expr<T>, x: T)
    requires Reaches(m, e, x)
    ensures Eval(m, Next(e)) == Some(m.next[x]) && Eval(m, Prev(e)) == Some(m.prev[x])
  {
  }

  /** SPLICE_BEFORE with arguments pasted in: what it does follows from what they evaluate to at each
      use.  At the last statement lep may have come to mean another node, l'. */
  lemma SpliceBeforeByName<T>(m: Links<T>, L: Expr<T>, A: Expr<T>, Z: Expr<T>, p: T, l: T, l': T, a: T, z: T)
    requires Reaches(m, Z, z) && Reaches(m, L, l)
    requires var m1 := m.(next := m.next[z := l]);
             Reaches(m1, A, a) && Reaches(m1, L, l) && m1.prev[l] == p && Live(m, p)
    requires var m2 := Links(m.next[z := l], m.prev[a := p]);
             Reaches(m2, A, a) && Reaches(m2, L, l) && m2.prev[l] == p
    requires var m3 := Links(m.next[z := l][p := a], m.prev[a := p]);
             Reaches(m3, L, l') && Reaches(m3, Z, z)
    ensures Exec(m, SpliceBefore(L, A, Z)) == Some(Links(m.next[z := l][p := a], m.prev[a := p][l' := z]))
  {
    var m1 := m.(next := m.next[z := l]);
    var m2 := Links(m1.next, m.prev[a := p]);
    var m3 := Links(m1.next[p := a], m2.prev);
    var s2, s3, s4 := SetPrev(A, Prev(L)), SetNext(Prev(L), A), SetPrev(L, Z);
    ReachesCells(m1, L, l);
    ReachesCells(m2, L, l);
    Sequence(m, SetNext(Z, L), m1, Then(s2, Then(s3, s4)));
    Sequence(m1, s2, m2, Then(s3, s4));
    Sequence(m2, s3, m3, s4);
  }

  /** The same for SPLICE_AFTER; p' is what lep means at the last statement. */
  lemma SpliceAfterByName<T>(m: Links<T>, L: Expr<T>, A: Expr<T>, Z: Expr<T>, p: T, p': T, l: T, a: T, z: T)
    requires Reaches(m, A, a) && Reaches(m, L, p)
    requires var m1 := m.(prev := m.prev[a := p]);
             Reaches(m1, Z, z) && Reaches(m1, L, p) && m1.next[p] == l && Live(m, l)
    requires var m2 := Links(m.next[z := l], m.prev[a := p]);
             Reaches(m2, Z, z) && Reaches(m2, L, p) && m2.next[p] == l
    requires var m3 := Links(m.next[z := l], m.prev[a := p][l := z]);
             Reaches(m3, L, p') && Reaches(m3, A, a)
    ensures Exec(m, SpliceAfter(L, A, Z)) == Some(Links(m.next[z := l][p' := a], m.prev[a := p][l := z]))
  {
    var m1 := m.(prev := m.prev[a := p]);
    var m2 := Links(m.next[z := l], m1.prev);
    var m3 := Links(m2.next, m1.prev[l := z]);
    var s2, s3, s4 := SetNext(Z, Next(L)), SetPrev(Next(L), Z), SetNext(L, A);
    ReachesCells(m1, L, p);
    ReachesCells(m2, L, p);
    Sequence(m, SetPrev(A, L), m1, Then(s2, Then(s3, s4)));
    Sequence(m1, s2, m2, Then(s3, s4));
    Sequence(m2, s3, m3, s4);
  }

  /** UNSPLICE with arguments pasted in: after the first assignment they may have come to mean other
      nodes, a' and z'. */
  lemma UnspliceByName<T>(m: Links<T>, A: Expr<T>, Z: Expr<T>, a: T, z: T, a': T, z': T)
    requires Reaches(m, A, a) && Reaches(m, Z, z) && Live(m, m.prev[a])
    requires var m1 := m.(next := m.next[m.prev[a] := m.next[z]]);
             Reaches(m1, A, a') && Reaches(m1, Z, z') && Live(m1, m1.next[z'])
    ensures var m1 := m.(next := m.next[m.prev[a] := m.next[z]]);
            Exec(m, Unsplice(A, Z)) == Some(m1.(prev := m.prev[m1.next[z'] := m.prev[a']]))
  {
    var m1 := m.(next := m.next[m.prev[a] := m.next[z]]);
    ReachesCells(m, A, a);
    ReachesCells(m, Z, z);
    ReachesCells(m1, A, a');
    ReachesCells(m1, Z, z');
    Sequence(m, SetNext(Prev(A), Next(Z)), m1, SetPrev(Next(Z), Prev(A)));
  }

  lemma SpliceBeforeEffect<T>(m: Links<T>, l: T, a: T, z: T)
    requires Live(m, l) && Live(m, a) && Live(m, z) && Live(m, m.prev[l])
    ensures Exec(m, SpliceBefore(Ptr(l), Ptr(a), Ptr(z))) == Some(Spliced(m, m.prev[l], l, a, z))
  {
    SpliceBeforeByName(m, Ptr(l), Ptr(a), Ptr(z), m.prev[l], l, l, a, z);
  }

  lemma SpliceAfterEffect<T>(m: Links<T>, p: T, a: T, z: T)
    requires Live(m, p) && Live(m, a) && Live(m, z) && Live(m, m.next[p])
    ensures Exec(m, SpliceAfter(Ptr(p), Ptr(a), Ptr(z))) == Some(Spliced(m, p, m.next[p], a, z))
  {
    SpliceAfterByName(m, Ptr(p), Ptr(a), Ptr(z), p, p, m.next[p], a, z);
  }

  lemma UnspliceEffect<T>(m: Links<T>, a: T, z: T)
    requires Live(m, a) && Live(m, z) && Live(m, m.prev[a]) && Live(m, m.next[z])
    ensures Exec(m, Unsplice(Ptr(a), Ptr(z))) == Some(Joined(m, m.prev[a], m.next[z]))
  {
    UnspliceByName(m, Ptr(a), Ptr(z), a, z, a, z);
  }

  /** REMOVE of any node: it joins the neighbours, or faults if the node or one of them lacks the cell. */
  lemma RemoveOrFault<T>(m: Links<T>, e: T)
    ensures Exec(m, Remove(Ptr(e)))
         == if Live(m, e) && m.prev[e] in m.next && m.next[e] in m.prev
            then Some(Joined(m, m.prev[e], m.next[e])) else None
  {
    var s1, s2 := SetNext(Prev(Ptr(e)), Next(Ptr(e))), SetPrev(Next(Ptr(e)), Prev(Ptr(e)));
    if Live(m, e) {
      var x, y := m.prev[e], m.next[e];
      ReachesCells(m, Ptr(e), e);
      if x in m.next {
        var m1 := m.(next := m.next[x := y]);
        Sequence(m, s1, m1, s2);
        ReachesCells(m1, Ptr(e), e);
      }
    } else {
      assert Eval(m, Prev(Ptr(e))).None? || Eval(m, Next(Ptr(e))).None?;
    }
  }
}
