/** Hook lists: registration, and the loops that run the registered functions.

    A hook function may do anything to the program state `S` and returns a value of type `R`; the runner
    sees the value only.  `called` records the entries whose functions were called, in order. */
module Hooks {
  import opened Options

  /** An entry of the list; the two name lists say what it has to come after and before. */
  datatype Entry<!S, !R> = Entry(
    pFunc: S -> (R, S), szName: string, aszPredecessors: seq<string>, aszSuccessors: seq<string>, nOrder: int)

  datatype Outcome<!S, !R> = Outcome(rv: R, state: S, called: seq<Entry<S, R>>)

  // ----- what the runners are meant to do -----

  /** Calls hooks until one returns a value at which `stop` says to stop; `quiet` if none does. */
  ghost function RunUntil<S, R>(hooks: seq<Entry<S, R>>, stop: R -> bool, quiet: R, s: S): Outcome<S, R> {
    if hooks == [] then Outcome(quiet, s, []) else
      var (rv, s1) := hooks[0].pFunc(s);
      if stop(rv) then Outcome(rv, s1, [hooks[0]])
      else
        var rest := RunUntil(hooks[1..], stop, quiet, s1);
        Outcome(rest.rv, rest.state, [hooks[0]] + rest.called)
  }

  /** The state after all the given functions were called. */
  ghost function StateAfter<S, R>(hooks: seq<Entry<S, R>>, s: S): S {
    if hooks == [] then s else hooks[|hooks| - 1].pFunc(StateAfter(hooks[..|hooks| - 1], s)).1
  }

  /** What the k-th function returns if all before it were called. */
  ghost function Returned<S, R>(hooks: seq<Entry<S, R>>, s: S, k: nat): R
    requires k < |hooks|
  {
    hooks[k].pFunc(StateAfter(hooks[..k], s)).0
  }

  /** The functions are called one after the other, each in the state that the one before it left. */
  lemma StateAfterNext<S, R>(hooks: seq<Entry<S, R>>, s: S, k: nat)
    requires k < |hooks|
    ensures StateAfter(hooks[..0], s) == s
    ensures (Returned(hooks, s, k), StateAfter(hooks[..k + 1], s)) == hooks[k].pFunc(StateAfter(hooks[..k], s))
  {
    assert hooks[..k + 1][..k] == hooks[..k];
  }

  lemma {:induction false} StateAfterFirst<S, R>(hooks: seq<Entry<S, R>>, s: S)
    requires hooks != []
    ensures StateAfter(hooks, s) == StateAfter(hooks[1..], hooks[0].pFunc(s).1)
  {
    var n := |hooks| - 1;
    if n == 0 {
      assert hooks[..0] == [] && hooks[1..] == [];
    } else {
      StateAfterFirst(hooks[..n], s);
      assert hooks[..n][1..] == hooks[1..][..n - 1] && hooks[..n][0] == hooks[0];
    }
  }

  /** The runner calls exactly the hooks up to and including the first that stops it, or all. */
  lemma {:induction false} RunUntilStops<S, R>(hooks: seq<Entry<S, R>>, stop: R -> bool, quiet: R, s: S)
      returns (n: nat)
    ensures n <= |hooks|
    ensures var o := RunUntil(hooks, stop, quiet, s);
      && o.called == hooks[..n] && o.state == StateAfter(hooks[..n], s)
      && (forall k | 0 <= k < n - 1 :: !stop(Returned(hooks, s, k)))
      && (n > 0 && stop(Returned(hooks, s, n - 1)) ==> o.rv == Returned(hooks, s, n - 1))
      && (n == 0 || !stop(Returned(hooks, s, n - 1)) ==> n == |hooks| && o.rv == quiet)
  {
    if hooks == [] {
      n := 0;
    } else {
      var (rv, s1) := hooks[0].pFunc(s);
      assert Returned(hooks, s, 0) == rv by { assert hooks[..0] == []; }
      if stop(rv) {
        n := 1;
        assert hooks[..1] == [hooks[0]] && hooks[..1][..0] == [];
      } else {
        var n' := RunUntilStops(hooks[1..], stop, quiet, s1);
        n := n' + 1;
        assert hooks[..n] == [hooks[0]] + hooks[1..][..n'];
        forall k | 0 <= k < n ensures k > 0 ==> Returned(hooks, s, k) == Returned(hooks[1..], s1, k - 1) {
          if k > 0 {
            StateAfterFirst(hooks[..k], s);
            assert hooks[..k][1..] == hooks[1..][..k - 1];
          }
        }
        StateAfterFirst(hooks[..n], s);
        assert hooks[..n][1..] == hooks[1..][..n'];
      }
    }
  }

  /** Running a list in two parts: the second part runs exactly if nothing in the first stopped it. */
  lemma {:induction false} RunUntilConcat<S, R>(a: seq<Entry<S, R>>, b: seq<Entry<S, R>>,
                                                stop: R -> bool, quiet: R, s: S)
    requires !stop(quiet)
    ensures var first := RunUntil(a, stop, quiet, s);
      RunUntil(a + b, stop, quiet, s) ==
        if stop(first.rv) then first
        else
          var second := RunUntil(b, stop, quiet, first.state);
          Outcome(second.rv, second.state, first.called + second.called)
  {
    if a == [] {
      assert a + b == b;
      var second := RunUntil(b, stop, quiet, s);
      assert [] + second.called == second.called;
    } else {
      assert (a + b)[1..] == a[1..] + b && (a + b)[0] == a[0];
      var (rv, s1) := a[0].pFunc(s);
      if !stop(rv) {
        RunUntilConcat(a[1..], b, stop, quiet, s1);
        var rest := RunUntil(a[1..], stop, quiet, s1);
        var second := RunUntil(b, stop, quiet, rest.state);
        assert [a[0]] + (rest.called + second.called) == [a[0]] + rest.called + second.called;
      }
    }
  }

  // ----- the runners -----

  /** RUN_ALL goes on after ok and after decline, RUN_FIRST after decline only. */
  function StopsAll<R(==)>(ok: R, decline: R): R -> bool {
    rv => rv != ok && rv != decline
  }

  function StopsFirst<R(==)>(decline: R): R -> bool {
    rv => rv != decline
  }

  ghost function OutcomeOfAll<S, R>(hooks: seq<Entry<S, R>>, ok: R, decline: R, s: S): Outcome<S, R> {
    RunUntil(hooks, StopsAll(ok, decline), ok, s)
  }

  ghost function OutcomeOfFirst<S, R>(hooks: seq<Entry<S, R>>, decline: R, s: S): Outcome<S, R> {
    RunUntil(hooks, StopsFirst(decline), decline, s)
  }

  /** RUN_ALL in terms of what the functions return: all but the last that is called return ok or decline; the
      last returns something else, which is the result, or the whole list is called and the result is ok. */
  ghost predicate RanAll<S, R>(hooks: seq<Entry<S, R>>, ok: R, decline: R, s: S, o: Outcome<S, R>) {
    var n := |o.called|;
    && n <= |hooks| && o.called == hooks[..n] && o.state == StateAfter(hooks[..n], s)
    && (forall k | 0 <= k < n - 1 :: Returned(hooks, s, k) == ok || Returned(hooks, s, k) == decline)
    && if n > 0 && Returned(hooks, s, n - 1) != ok && Returned(hooks, s, n - 1) != decline
       then o.rv == Returned(hooks, s, n - 1)
       else n == |hooks| && o.rv == ok
  }

  /** RUN_FIRST likewise: all but the last return decline. */
  ghost predicate RanFirst<S, R>(hooks: seq<Entry<S, R>>, decline: R, s: S, o: Outcome<S, R>) {
    var n := |o.called|;
    && n <= |hooks| && o.called == hooks[..n] && o.state == StateAfter(hooks[..n], s)
    && (forall k | 0 <= k < n - 1 :: Returned(hooks, s, k) == decline)
    && if n > 0 && Returned(hooks, s, n - 1) != decline
       then o.rv == Returned(hooks, s, n - 1)
       else n == |hooks| && o.rv == decline
  }

  /** There is exactly one such outcome. */
  lemma RanAllExactly<S, R>(hooks: seq<Entry<S, R>>, ok: R, decline: R, s: S, o: Outcome<S, R>)
    ensures RanAll(hooks, ok, decline, s, o) <==> o == OutcomeOfAll(hooks, ok, decline, s)
  {
    var n := RunUntilStops(hooks, StopsAll(ok, decline), ok, s);
    if RanAll(hooks, ok, decline, s, o) {
      assert !(|o.called| < n) && !(n < |o.called|);
    }
  }

  lemma RanFirstExactly<S, R>(hooks: seq<Entry<S, R>>, decline: R, s: S, o: Outcome<S, R>)
    ensures RanFirst(hooks, decline, s, o) <==> o == OutcomeOfFirst(hooks, decline, s)
  {
    var n := RunUntilStops(hooks, StopsFirst(decline), decline, s);
    if RanFirst(hooks, decline, s, o) {
      assert !(|o.called| < n) && !(n < |o.called|);
    }
  }

  /** In particular a hook that declines does not end RUN_ALL, and one that returns ok does not either. */
  lemma RunAllGoesOn<S, R>(hooks: seq<Entry<S, R>>, ok: R, decline: R, s: S)
    requires forall k | 0 <= k < |hooks| :: Returned(hooks, s, k) == ok || Returned(hooks, s, k) == decline
    ensures OutcomeOfAll(hooks, ok, decline, s) == Outcome(ok, StateAfter(hooks, s), hooks)
  {
    assert hooks[..|hooks|] == hooks;
    RanAllExactly(hooks, ok, decline, s, Outcome(ok, StateAfter(hooks, s), hooks));
  }

  /** With one value for both answers the two runners are the same. */
  lemma {:induction false} RunAllIsRunFirst<S, R>(hooks: seq<Entry<S, R>>, decline: R, s: S)
    ensures OutcomeOfAll(hooks, decline, decline, s) == OutcomeOfFirst(hooks, decline, s)
  {
    if hooks != [] {
      RunAllIsRunFirst(hooks[1..], decline, hooks[0].pFunc(s).1);
    }
  }

  /** RUN_ALL over two lists: on into the second exactly if the first gives ok. */
  lemma RunAllConcat<S, R>(a: seq<Entry<S, R>>, b: seq<Entry<S, R>>, ok: R, decline: R, s: S)
    ensures var first := OutcomeOfAll(a, ok, decline, s);
      var second := OutcomeOfAll(b, ok, decline, first.state);
      OutcomeOfAll(a + b, ok, decline, s) ==
        if first.rv == ok then Outcome(second.rv, second.state, first.called + second.called) else first
  {
    RunUntilConcat(a, b, StopsAll(ok, decline), ok, s);
    var n := RunUntilStops(a, StopsAll(ok, decline), ok, s);
  }

  /** RUN_FIRST over two lists: on into the second exactly if the first gives decline. */
  lemma RunFirstConcat<S, R>(a: seq<Entry<S, R>>, b: seq<Entry<S, R>>, decline: R, s: S)
    ensures var first := OutcomeOfFirst(a, decline, s);
      var second := OutcomeOfFirst(b, decline, first.state);
      OutcomeOfFirst(a + b, decline, s) ==
        if first.rv == decline then Outcome(second.rv, second.state, first.called + second.called) else first
  {
    RunUntilConcat(a, b, StopsFirst(decline), decline, s);
    var n := RunUntilStops(a, StopsFirst(decline), decline, s);
  }

  /** One more hook at the end of what has run without stopping. */
  lemma RunFurther<S, R>(hooks: seq<Entry<S, R>>, n: nat, stop: R -> bool, quiet: R, s: S)
    requires n < |hooks| && !stop(quiet) && RunUntil(hooks[..n], stop, quiet, s).rv == quiet
    ensures var before := RunUntil(hooks[..n], stop, quiet, s);
      var (rv, s1) := hooks[n].pFunc(before.state);
      RunUntil(hooks[..n + 1], stop, quiet, s)
        == Outcome(if stop(rv) then rv else quiet, s1, before.called + [hooks[n]])
  {
    assert hooks[..n + 1] == hooks[..n] + [hooks[n]];
    RunUntilConcat(hooks[..n], [hooks[n]], stop, quiet, s);
  }

  /** A hook that stops the run leaves the rest of the list uncalled. */
  lemma RunNoFurther<S, R>(hooks: seq<Entry<S, R>>, n: nat, stop: R -> bool, quiet: R, s: S)
    requires n <= |hooks| && !stop(quiet) && stop(RunUntil(hooks[..n], stop, quiet, s).rv)
    ensures RunUntil(hooks, stop, quiet, s) == RunUntil(hooks[..n], stop, quiet, s)
  {
    assert hooks == hooks[..n] + hooks[n..];
    RunUntilConcat(hooks[..n], hooks[n..], stop, quiet, s);
  }

  ghost function Listed<S, R>(link: Option<seq<Entry<S, R>>>): seq<Entry<S, R>> {
    if link.Some? then link.value else []
  }

  /** One registration: the entry goes to the end of the list, and a list that did not exist before
      is made and handed to the sorter. */
  ghost function WithEntry<S, R>(link: Option<seq<Entry<S, R>>>, sorts: nat, e: Entry<S, R>)
    : (Option<seq<Entry<S, R>>>, nat)
  {
    (Some(Listed(link) + [e]), sorts + if link.None? then 1 else 0)
  }

  /** One hook of a module: the list, absent until something is registered, and how often it was
      handed to the sorter. */
  class Hook<S, R(==)> {
    var link: Option<seq<Entry<S, R>>>
    var sortRegistrations: nat

    constructor ()
      ensures link == None && sortRegistrations == 0
    {
      link := None;
      sortRegistrations := 0;
    }

    method Register(pf: S -> (R, S), aszPre: seq<string>, aszSucc: seq<string>, nOrder: int, current: string)
      modifies this
      ensures (link, sortRegistrations)
           == WithEntry(old(link), old(sortRegistrations), Entry(pf, current, aszPre, aszSucc, nOrder))
      ensures link == Some((if old(link).Some? then old(link).value else [])
                           + [Entry(pf, current, aszPre, aszSucc, nOrder)])
      ensures sortRegistrations == old(sortRegistrations) + if old(link).None? then 1 else 0
    {
      if link.None? {
        link := Some([]);
        sortRegistrations := sortRegistrations + 1;
      }
      link := Some(link.value + [Entry(pf, current, aszPre, aszSucc, nOrder)]);
    }

    method RunVoid(s: S) returns (end: S, called: seq<Entry<S, R>>)
      ensures called == (if link.Some? then link.value else []) && end == StateAfter(called, s)
    {
      end, called := s, [];
      if link.Some? {
        var pHook := link.value;
        var n := 0;
        while n < |link.value|
          invariant n <= |pHook| && called == pHook[..n] && end == StateAfter(pHook[..n], s)
        {
          assert pHook[..n + 1][..n] == pHook[..n];
          var (_, s1) := pHook[n].pFunc(end);
          end, called := s1, called + [pHook[n]];
          n := n + 1;
        }
        assert pHook[..n] == pHook;
      }
    }

    method RunAll(ok: R, decline: R, s: S) returns (rv: R, end: S, called: seq<Entry<S, R>>)
      ensures Outcome(rv, end, called) == OutcomeOfAll(Listed(link), ok, decline, s)
      ensures RanAll(if link.Some? then link.value else [], ok, decline, s, Outcome(rv, end, called))
    {
      RanAllExactly(Listed(link), ok, decline, s, OutcomeOfAll(Listed(link), ok, decline, s));
      rv, end, called := ok, s, [];
      if link.Some? {
        var pHook := link.value;
        ghost var stop := StopsAll(ok, decline);
        var n := 0;
        while n < |link.value|
          invariant n <= |pHook| && rv == ok
          invariant Outcome(ok, end, called) == RunUntil(pHook[..n], stop, ok, s)
        {
          RunFurther(pHook, n, stop, ok, s);
          var (v, s1) := pHook[n].pFunc(end);
          rv, end, called := v, s1, called + [pHook[n]];
          if rv != ok && rv != decline {
            RunNoFurther(pHook, n + 1, stop, ok, s);
            break;
          }
          rv := ok;
          n := n + 1;
        }
        assert n == |pHook| ==> pHook[..n] == pHook;
      }
    }

    method RunFirst(decline: R, s: S) returns (rv: R, end: S, called: seq<Entry<S, R>>)
      ensures Outcome(rv, end, called) == OutcomeOfFirst(Listed(link), decline, s)
      ensures RanFirst(if link.Some? then link.value else [], decline, s, Outcome(rv, end, called))
    {
      RanFirstExactly(Listed(link), decline, s, OutcomeOfFirst(Listed(link), decline, s));
      rv, end, called := decline, s, [];
      if link.Some? {
        var pHook := link.value;
        ghost var stop := StopsFirst(decline);
        var n := 0;
        while n < |link.value|
          invariant n <= |pHook| && rv == decline
          invariant Outcome(rv, end, called) == RunUntil(pHook[..n], stop, decline, s)
        {
          RunFurther(pHook, n, stop, decline, s);
          var (v, s1) := pHook[n].pFunc(end);
          rv, end, called := v, s1, called + [pHook[n]];
          if rv != decline {
            RunNoFurther(pHook, n + 1, stop, decline, s);
            break;
          }
          n := n + 1;
        }
        assert n == |pHook| ==> pHook[..n] == pHook;
      }
    }
  }

  /** The optional-hook form of RUN_ALL, written with early returns: the same result, the same state and the
      same calls as `Hook.RunAll`, for every list and for none. */
  method RunAllOptional<S, R(==)>(pHookArray: Option<seq<Entry<S, R>>>, ok: R, decline: R, s: S)
      returns (rv: R, end: S, called: seq<Entry<S, R>>)
    ensures Outcome(rv, end, called) == OutcomeOfAll(Listed(pHookArray), ok, decline, s)
    ensures RanAll(if pHookArray.Some? then pHookArray.value else [], ok, decline, s, Outcome(rv, end, called))
  {
    ghost var spec := OutcomeOfAll(Listed(pHookArray), ok, decline, s);
    RanAllExactly(Listed(pHookArray), ok, decline, s, spec);
    if pHookArray.None? {
      return ok, s, [];
    }
    var pHook := pHookArray.value;
    ghost var stop := StopsAll(ok, decline);
    end, called := s, [];
    var n := 0;
    while n < |pHook|
      invariant n <= |pHook|
      invariant Outcome(ok, end, called) == RunUntil(pHook[..n], stop, ok, s)
    {
      RunFurther(pHook, n, stop, ok, s);
      var (v, s1) := pHook[n].pFunc(end);
      end, called := s1, called + [pHook[n]];
      if v != ok && v != decline {
        RunNoFurther(pHook, n + 1, stop, ok, s);
        return v, end, called;
      }
      n := n + 1;
    }
    assert pHook[..n] == pHook;
    return ok, end, called;
  }

  // ----- runs of registrations -----

  /** The list and the sorter count after more registrations. */
  ghost function Registered<S, R>(link: Option<seq<Entry<S, R>>>, sorts: nat, more: seq<Entry<S, R>>)
    : (Option<seq<Entry<S, R>>>, nat)
    decreases |more|
  {
    if more == [] then (link, sorts)
    else
      var (link1, sorts1) := WithEntry(link, sorts, more[0]);
      Registered(link1, sorts1, more[1..])
  }

  /** After any registrations the list is what was registered, in order, known to the sorter once. */
  lemma {:induction false} AllRegistered<S, R>(link: Option<seq<Entry<S, R>>>, sorts: nat, more: seq<Entry<S, R>>)
    requires more != []
    ensures Registered(link, sorts, more)
         == (Some((if link.Some? then link.value else []) + more), sorts + if link.None? then 1 else 0)
    decreases |more|
  {
    var (link1, sorts1) := WithEntry(link, sorts, more[0]);
    if |more| == 1 {
      assert more == [more[0]];
    } else {
      AllRegistered(link1, sorts1, more[1..]);
      assert Listed(link) + [more[0]] + more[1..] == Listed(link) + more;
    }
  }
}
