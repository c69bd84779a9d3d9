/** Left and right are interchangeable: swapping `next` and `prev` in a program and in the memory it
    runs on gives the swapped result, and turns the AFTER macros into the BEFORE macros. */
module Mirror {
  import opened Options
  import opened LinkMemory
  import opened RingTheory

  ghost function Flip<T>(m: Links<T>): Links<T> {
    Links(m.prev, m.next)
  }

  ghost function FlipExpr<T>(e: Expr<T>): Expr<T> {
    match e
    case Ptr(p) => Ptr(p)
    case Next(e1) => Prev(FlipExpr(e1))
    case Prev(e1) => Next(FlipExpr(e1))
  }

  ghost function FlipStmt<T>(s: Stmt<T>): Stmt<T> {
    match s
    case SetNext(e, v) => SetPrev(FlipExpr(e), FlipExpr(v))
    case SetPrev(e, v) => SetNext(FlipExpr(e), FlipExpr(v))
    case Then(a, b) => Then(FlipStmt(a), FlipStmt(b))
    case IfDiffer(a, b, body) => IfDiffer(FlipExpr(a), FlipExpr(b), FlipStmt(body))
  }

  ghost function Reverse<T>(s: seq<T>): (r: seq<T>)
    ensures |r| == |s| && forall i | 0 <= i < |s| :: r[i] == s[|s| - 1 - i]
  {
    if s == [] then [] else Reverse(s[1..]) + [s[0]]
  }

  lemma {:induction false} EvalFlip<T>(m: Links<T>, e: Expr<T>)
    ensures Eval(Flip(m), FlipExpr(e)) == Eval(m, e)
  {
    match e
    case Ptr(_) =>
    case Next(e1) => EvalFlip(m, e1);
    case Prev(e1) => EvalFlip(m, e1);
  }

  /** For every program over the two cells, whatever it does to whatever memory. */
  lemma {:induction false} ExecFlip<T>(m: Links<T>, s: Stmt<T>)
    ensures match Exec(m, s)
            case Some(m') => Exec(Flip(m), FlipStmt(s)) == Some(Flip(m'))
            case None => Exec(Flip(m), FlipStmt(s)) == None
    decreases s
  {
    match s
    case SetNext(e, v) => EvalFlip(m, e); EvalFlip(m, v);
    case SetPrev(e, v) => EvalFlip(m, e); EvalFlip(m, v);
    case Then(a, b) =>
      ExecFlip(m, a);
      if Exec(m, a).Some? { ExecFlip(Exec(m, a).value, b); }
    case IfDiffer(a, b, body) =>
      EvalFlip(m, a); EvalFlip(m, b);
      ExecFlip(m, body);
  }

  lemma {:induction false} SpliceFlip<T>(lep: Expr<T>, ep1: Expr<T>, epN: Expr<T>)
    ensures FlipStmt(SpliceBefore(lep, ep1, epN)) == SpliceAfter(FlipExpr(lep), FlipExpr(epN), FlipExpr(ep1))
    ensures FlipStmt(SpliceAfter(lep, ep1, epN)) == SpliceBefore(FlipExpr(lep), FlipExpr(epN), FlipExpr(ep1))
  {
    var l, a, z := lep, ep1, epN;
    var t2, u2 := SetPrev(a, Prev(l)), SetNext(z, Next(l));
    var t3, u3 := SetNext(Prev(l), a), SetPrev(Next(l), z);
    var t4, u4 := SetPrev(l, z), SetNext(l, a);
    assert FlipStmt(Then(t3, t4)) == Then(FlipStmt(t3), FlipStmt(t4));
    assert FlipStmt(Then(u3, u4)) == Then(FlipStmt(u3), FlipStmt(u4));
    assert FlipStmt(Then(t2, Then(t3, t4))) == Then(FlipStmt(t2), FlipStmt(Then(t3, t4)));
    assert FlipStmt(Then(u2, Then(u3, u4))) == Then(FlipStmt(u2), FlipStmt(Then(u3, u4)));
  }

  /** A ring read by `prev` is the same ring backwards, with the head still in front. */
  lemma RingFlip<T>(m: Links<T>, h: T, es: seq<T>)
    requires Ring(m, [h] + es)
    ensures Ring(Flip(m), [h] + Reverse(es))
  {
    var s, r := [h] + es, [h] + Reverse(es);
    forall i | 0 < i < |r| ensures r[i] == s[|s| - i] {}
    forall i, j | 0 <= i && i + 1 == j < |r| ensures Linked(Flip(m), r[i], r[j]) {
      if i == 0 {
        assert Linked(m, s[|s| - 1], s[0]);
      } else {
        assert Linked(m, s[|s| - j], s[|s| - i]);
      }
    }
    assert Linked(Flip(m), r[|r| - 1], r[0]) by {
      if |s| > 1 { assert Linked(m, s[0], s[1]); }
    }
  }
}
