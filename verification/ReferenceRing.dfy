/** A ring without a head in place of a reference count: the users of one resource are linked to each
    other, a new user is inserted after an old one, and the user that finds itself alone when it lets
    go is the last. */
module ReferenceRing {
  import opened Options
  import opened LinkMemory
  import opened RingTheory

  datatype Use<T> =
    | Share(at: T, user: T, next: T, prev: T)   // another user, its cells holding anything, inserted after an old one
    | Release(user: T)   // look whether NEXT is oneself, leave the ring, be freed

  /** What a use does to memory, and for a release whether it saw itself as the last. */
  ghost function UseMem<T>(m: Links<T>, use: Use<T>): Option<(Links<T>, seq<bool>)> {
    match use
    case Share(at, user, n, p) =>
      var r := Exec(Links(m.next[user := n], m.prev[user := p]), SpliceAfter(Ptr(at), Ptr(user), Ptr(user)));
      if r.Some? then Some((r.value, [])) else None
    case Release(user) =>
      var next, r := Eval(m, Next(Ptr(user))), Exec(m, Remove(Ptr(user)));
      if next.Some? && r.Some?
      then Some((Links(r.value.next - {user}, r.value.prev - {user}), [next.value == user])) else None
  }

  ghost predicate Possible<T>(s: seq<T>, use: Use<T>) {
    match use
    case Share(at, user, _, _) => at in s && user !in s
    case Release(user) => user in s
  }

  ghost function Users<T>(s: seq<T>, use: Use<T>): seq<T>
    requires Possible(s, use)
  {
    match use
    case Share(at, user, _, _) => Inserted(s, IndexOf(s, at) + 1, [user])
    case Release(user) => Cut(s, IndexOf(s, user), IndexOf(s, user) + 1)
  }

  /** The users of the resource, in the order of the ring from some point on; nobody, no memory to speak of. */
  ghost predicate Shared<T>(m: Links<T>, s: seq<T>) {
    s != [] ==> Ring(m, s)
  }

  /** The first user, ELEM_INIT of memory that holds anything. */
  lemma FirstUser<T>(m: Links<T>, user: T, n: T, p: T)
    ensures Exec(Links(m.next[user := n], m.prev[user := p]), Init(Ptr(user))) == Some(Joined(m, user, user))
    ensures Ring(Joined(m, user, user), [user])
  {
    InitOfNew(m, user, n, p);
  }

  lemma NextAlone<T>(m: Links<T>, s: seq<T>, i: nat)
    requires Ring(m, s) && i < |s|
    ensures Live(m, s[i]) && (m.next[s[i]] == s[i] <==> |s| == 1)
  {
    if i + 1 < |s| { assert Linked(m, s[i], s[i + 1]); } else { assert Linked(m, s[i], s[0]); }
  }

  /** A new user is linked in directly behind the old one; nobody else comes or goes. */
  lemma ShareSound<T>(m: Links<T>, s: seq<T>, at: T, user: T, n: T, p: T) returns (m': Links<T>)
    requires Ring(m, s) && at in s && user !in s
    ensures var use := Share(at, user, n, p);
      && UseMem(m, use) == Some((m', [])) && Ring(m', Users(s, use))
      && |Users(s, use)| == |s| + 1 && (forall x :: x in Users(s, use) <==> x in s || x == user)
    ensures Live(m, at) && Live(m', at) && Live(m', user) && m.next[at] in m'.prev
    ensures m'.next[at] == user && m'.prev[user] == at
    ensures m'.next[user] == m.next[at] && m'.prev[m.next[at]] == user
  {
    var m1 := Links(m.next[user := n], m.prev[user := p]);
    Untouched(m, m1, s);
    var k := IndexOf(s, at);
    m' := SpliceFillsGap(m1, s, k + 1, [user]);
    assert Linked(m, s[k], At(s, k + 1));
    InsertedMembers(s, k + 1, user);
  }

  lemma InsertedMembers<T>(s: seq<T>, k: nat, x: T)
    requires k <= |s|
    ensures var r := Inserted(s, k, [x]);
            |r| == |s| + 1 && forall y :: y in r <==> y in s || y == x
  {
    var r := Inserted(s, k, [x]);
    assert r == s[..k] + [x] + s[k..] && s == s[..k] + s[k..];
  }

  lemma CutMembers<T>(s: seq<T>, k: nat)
    requires k < |s| && Distinct(s)
    ensures var r := Cut(s, k, k + 1);
            |r| == |s| - 1 && forall x :: x in r <==> x in s && x != s[k]
  {
    var r := Cut(s, k, k + 1);
    assert r == s[..k] + s[k + 1..] && s == s[..k] + [s[k]] + s[k + 1..];
    forall x | x in r ensures x != s[k] {
      var i :| 0 <= i < |r| && r[i] == x;
      assert x == s[if i < k then i else i + 1];
    }
  }

  lemma RemoveStart<T>(m: Links<T>, s: seq<T>) returns (m': Links<T>)
    requires Ring(m, s) && |s| > 1
    ensures Exec(m, Remove(Ptr(s[0]))) == Some(m') && Ring(m', s[1..])
  {
    var r, n := s[1..] + s[..1], |s| - 1;
    Rotate(m, s, 1);
    m' := UnspliceCuts(m, r, n, n + 1);
    assert Cut(r, n, n + 1) == s[1..];
  }

  /** REMOVE of one node of a ring of two or more, wherever it stands. */
  lemma RemoveOne<T>(m: Links<T>, s: seq<T>, i: nat) returns (m': Links<T>)
    requires Ring(m, s) && i < |s| && |s| > 1
    ensures Exec(m, Remove(Ptr(s[i]))) == Some(m') && Ring(m', Cut(s, i, i + 1))
  {
    if i > 0 {
      m' := UnspliceCuts(m, s, i, i + 1);
    } else {
      m' := RemoveStart(m, s);
      assert Cut(s, 0, 1) == s[1..];
    }
  }

  /** The user leaves, with its memory; its neighbours become neighbours, and nobody else comes or goes. */
  lemma ReleaseSound<T>(m: Links<T>, s: seq<T>, user: T) returns (m': Links<T>)
    requires Ring(m, s) && user in s
    ensures var left := Users(s, Release(user));
      && UseMem(m, Release(user)) == Some((m', [|s| == 1])) && Shared(m', left)
      && |left| == |s| - 1 && (forall x :: x in left <==> x in s && x != user)
    ensures !Live(m', user) && m'.next.Keys == m.next.Keys - {user}
  {
    var i := IndexOf(s, user);
    NextAlone(m, s, i);
    CutMembers(s, i);
    ExecKeepsCells(m, Remove(Ptr(user)));
    assert Eval(m, Next(Ptr(user))) == Some(m.next[user]);
    if |s| == 1 {
      UnspliceAllIsNoOp(m, s);
      m' := Links(m.next - {user}, m.prev - {user});
    } else {
      var m1 := RemoveOne(m, s, i);
      WithoutKept(m1, user, Cut(s, i, i + 1));
      m' := Links(m1.next - {user}, m1.prev - {user});
    }
  }

  ghost predicate AllPossible<T>(s: seq<T>, uses: seq<Use<T>>)
    decreases |uses|
  {
    uses == [] || (Possible(s, uses[0]) && AllPossible(Users(s, uses[0]), uses[1..]))
  }

  ghost function UsersAfter<T>(s: seq<T>, uses: seq<Use<T>>): seq<T>
    requires AllPossible(s, uses)
    decreases |uses|
  {
    if uses == [] then s else UsersAfter(Users(s, uses[0]), uses[1..])
  }

  /** A whole run: the memory at the end, and what the releases saw, in order. */
  ghost function RunUses<T>(m: Links<T>, uses: seq<Use<T>>): Option<(Links<T>, seq<bool>)>
    decreases |uses|
  {
    if uses == [] then Some((m, [])) else
      var first := UseMem(m, uses[0]);
      if first.None? then None else
        var rest := RunUses(first.value.0, uses[1..]);
        if rest.None? then None else Some((rest.value.0, first.value.1 + rest.value.1))
  }

  ghost function Shares<T>(uses: seq<Use<T>>): nat {
    if uses == [] then 0 else (if uses[0].Share? then 1 else 0) + Shares(uses[1..])
  }

  ghost function Releases<T>(uses: seq<Use<T>>): nat {
    if uses == [] then 0 else (if uses[0].Release? then 1 else 0) + Releases(uses[1..])
  }

  /** Over any run from any number of users, every release looks once.  None but the final one sees itself as the
      last, and that one does exactly if as many were released as there were users and shares: the resource
      is given back exactly once, and not too early. */
  lemma {:induction false} LastReleaseIsSeenOnce<T>(m: Links<T>, s: seq<T>, uses: seq<Use<T>>)
      returns (m': Links<T>, seen: seq<bool>)
    requires Ring(m, s) && AllPossible(s, uses)
    ensures RunUses(m, uses) == Some((m', seen)) && Shared(m', UsersAfter(s, uses))
    ensures |seen| == Releases(uses) && |UsersAfter(s, uses)| == |s| + Shares(uses) - Releases(uses)
    ensures forall i | 0 <= i < |seen| :: seen[i] <==> i == |seen| - 1 && Releases(uses) == |s| + Shares(uses)
    decreases |uses|
  {
    if uses == [] {
      m', seen := m, [];
    } else {
      var use, s1 := uses[0], Users(s, uses[0]);
      var m1, seen1 := m, [];
      match use {
        case Share(at, user, n, p) => m1 := ShareSound(m, s, at, user, n, p);
        case Release(user) => m1 := ReleaseSound(m, s, user); seen1 := [|s| == 1];
      }
      if s1 == [] {
        NobodyUses(uses[1..]);
        m', seen := m1, seen1 + [];
      } else {
        var rest;
        m', rest := LastReleaseIsSeenOnce(m1, s1, uses[1..]);
        seen := seen1 + rest;
      }
    }
  }

  lemma NobodyUses<T>(uses: seq<Use<T>>)
    requires AllPossible([], uses)
    ensures uses == []
  {
  }
}
