/** What a safe iteration over a brigade amounts to, round by round. */
module Sweeps {
  import opened RingTheory
  import opened Brigades
  import opened Streams

  /** The books after the first k buckets of brigade h have been visited and those that p selects deleted. */
  ghost function Swept<T>(st: State<T>, h: T, p: T -> bool, k: nat): State<T>
    requires h in st.brigades && k <= |st.brigades[h]|
  {
    var bs := st.brigades[h];
    var gone := Where(bs[..k], p, true);
    State(st.brigades[h := Where(bs[..k], p, false) + bs[k..]],
          map e | e in st.place :: if e in gone then Freed else st.place[e],
          st.dead + gone)
  }

  /** The books after the first k buckets of h have been visited and those that p selects moved to the end of h2. */
  ghost function Parted<T>(st: State<T>, h: T, h2: T, p: T -> bool, k: nat): State<T>
    requires h in st.brigades && h2 in st.brigades && k <= |st.brigades[h]|
  {
    var bs := st.brigades[h];
    var moved := Where(bs[..k], p, true);
    State(st.brigades[h := Where(bs[..k], p, false) + bs[k..]][h2 := st.brigades[h2] + moved],
          map e | e in st.place :: if e in moved then In(h2) else st.place[e],
          st.dead)
  }

  /** Taking a bucket out of the middle of a brigade. */
  lemma TakeAt<T>(st: State<T>, h: T, kept: seq<T>, e: T, rest: seq<T>)
    requires Books(st) && h in st.brigades && st.brigades[h] == kept + [e] + rest && Distinct(st.brigades[h])
    ensures Anchored(st, e) && e !in st.brigades && st.place[e] == In(h)
    ensures Taken(st, e) == st.(brigades := st.brigades[h := kept + rest], place := st.place[e := Stale])
  {
    var bs := st.brigades[h];
    assert bs[|kept|] == e;
    assert OnlyIn(st, h, bs[|kept|]);
    var i := IndexOf(bs, e);
    assert i == |kept|;
    assert Cut(bs, i, i + 1) == kept + rest;
  }

  lemma PlaceSwept<T>(place: map<T, Place<T>>, gone: seq<T>, e: T, to: Place<T>)
    requires e in place
    ensures (map x | x in place :: if x in gone + [e] then to else place[x])
         == (map x | x in place :: if x in gone then to else place[x])[e := to]
  {
  }

  lemma SweepBegins<T>(st: State<T>, h: T, p: T -> bool)
    requires h in st.brigades
    ensures Swept(st, h, p, 0) == st
  {
    var bs := st.brigades[h];
    assert bs[..0] == [] && [] + bs[0..] == bs && st.brigades[h := bs] == st.brigades && st.dead + [] == st.dead;
    assert Swept(st, h, p, 0).place == st.place;
  }

  /** The k-th bucket, and what is in front of it and behind it, in round k. */
  lemma SweepParts<T>(st: State<T>, h: T, p: T -> bool, k: nat)
    requires h in st.brigades && k < |st.brigades[h]|
    ensures var bs := st.brigades[h];
            var kept, e, rest := Where(bs[..k], p, false), bs[k], bs[k + 1..];
            var now, next := Swept(st, h, p, k), Swept(st, h, p, k + 1);
            && now.brigades == st.brigades[h := kept + [e] + rest]
            && if p(e) then
                 next == State(st.brigades[h := kept + rest],
                               if e in st.place then now.place[e := Freed] else now.place, now.dead + [e])
               else next == now
  {
    var bs := st.brigades[h];
    var kept, gone, e := Where(bs[..k], p, false), Where(bs[..k], p, true), bs[k];
    WhereNext(bs, p, true, k);
    WhereNext(bs, p, false, k);
    assert bs[k..] == [e] + bs[k + 1..] && kept + bs[k..] == kept + [e] + bs[k + 1..];
    assert kept + [] == kept && gone + [] == gone;
    assert st.dead + gone + [e] == st.dead + (gone + [e]);
    if e in st.place { PlaceSwept(st.place, gone, e, Freed); }
  }

  lemma SweepPasses<T>(st: State<T>, h: T, p: T -> bool, k: nat)
    requires h in st.brigades && k < |st.brigades[h]| && !p(st.brigades[h][k])
    ensures Swept(st, h, p, k + 1) == Swept(st, h, p, k)
  {
    SweepParts(st, h, p, k);
  }

  /** One round of deleting: the bucket is deleted or passed over. */
  lemma SweepRound<T>(st: State<T>, h: T, p: T -> bool, k: nat)
    requires h in st.brigades && k < |st.brigades[h]| && Books(Swept(st, h, p, k))
    requires Distinct(Swept(st, h, p, k).brigades[h])
    ensures var now, e := Swept(st, h, p, k), st.brigades[h][k];
            if p(e) then
              Attached(now, e) && Gone(Removed(now, e), e) == Swept(st, h, p, k + 1)
            else now == Swept(st, h, p, k + 1)
  {
    var bs, now, e := st.brigades[h], Swept(st, h, p, k), st.brigades[h][k];
    SweepParts(st, h, p, k);
    if p(e) {
      TakeAt(now, h, Where(bs[..k], p, false), e, bs[k + 1..]);
      assert now.place[e := Stale][e := Freed] == now.place[e := Freed];
    }
  }

  lemma PartBegins<T>(st: State<T>, h: T, h2: T, p: T -> bool)
    requires h in st.brigades && h2 in st.brigades && h != h2
    ensures Parted(st, h, h2, p, 0) == st
  {
    var bs, cs := st.brigades[h], st.brigades[h2];
    assert bs[..0] == [] && [] + bs[0..] == bs && cs + [] == cs;
    assert Parted(st, h, h2, p, 0).brigades == st.brigades;
    assert Parted(st, h, h2, p, 0).place == st.place;
  }

  lemma PartParts<T>(st: State<T>, h: T, h2: T, p: T -> bool, k: nat)
    requires h in st.brigades && h2 in st.brigades && h != h2 && k < |st.brigades[h]|
    ensures var bs := st.brigades[h];
            var kept, e, rest := Where(bs[..k], p, false), bs[k], bs[k + 1..];
            var end := st.brigades[h2] + Where(bs[..k], p, true);
            var now, next := Parted(st, h, h2, p, k), Parted(st, h, h2, p, k + 1);
            && now.brigades == st.brigades[h := kept + [e] + rest][h2 := end]
            && if p(e) then
                 next == State(st.brigades[h := kept + rest][h2 := end + [e]],
                               if e in st.place then now.place[e := In(h2)] else now.place, now.dead)
               else next == now
  {
    var bs := st.brigades[h];
    var kept, moved, e := Where(bs[..k], p, false), Where(bs[..k], p, true), bs[k];
    WhereNext(bs, p, true, k);
    WhereNext(bs, p, false, k);
    assert bs[k..] == [e] + bs[k + 1..] && kept + bs[k..] == kept + [e] + bs[k + 1..];
    assert kept + [] == kept && moved + [] == moved;
    assert st.brigades[h2] + moved + [e] == st.brigades[h2] + (moved + [e]);
    if e in st.place { PlaceSwept(st.place, moved, e, In(h2)); }
  }

  lemma PartPasses<T>(st: State<T>, h: T, h2: T, p: T -> bool, k: nat)
    requires h in st.brigades && h2 in st.brigades && h != h2 && k < |st.brigades[h]| && !p(st.brigades[h][k])
    ensures Parted(st, h, h2, p, k + 1) == Parted(st, h, h2, p, k)
  {
    PartParts(st, h, h2, p, k);
  }

  /** One round of partitioning: the bucket is removed and put at the end of h2, or passed over. */
  lemma PartRound<T>(st: State<T>, h: T, h2: T, p: T -> bool, k: nat)
    requires h in st.brigades && h2 in st.brigades && h != h2 && k < |st.brigades[h]|
    requires Books(Parted(st, h, h2, p, k)) && Distinct(Parted(st, h, h2, p, k).brigades[h])
    ensures var now, e := Parted(st, h, h2, p, k), st.brigades[h][k];
            if p(e) then
              && Attached(now, e) && h2 in Removed(now, e).brigades && Detached(Removed(now, e), e)
              && Put(Removed(now, e), h2, |Removed(now, e).brigades[h2]|, e) == Parted(st, h, h2, p, k + 1)
            else now == Parted(st, h, h2, p, k + 1)
  {
    var bs, now, e := st.brigades[h], Parted(st, h, h2, p, k), st.brigades[h][k];
    var kept, end := Where(bs[..k], p, false), st.brigades[h2] + Where(bs[..k], p, true);
    PartParts(st, h, h2, p, k);
    if p(e) {
      TakeAt(now, h, kept, e, bs[k + 1..]);
      PutAtEnd(end, e);
      assert now.place[e := Stale][e := In(h2)] == now.place[e := In(h2)];
      Overwrite(st.brigades, h, h2, kept + [e] + bs[k + 1..], end, kept + bs[k + 1..], end + [e]);
    }
  }

  lemma Overwrite<T, U>(b: map<T, U>, h: T, h2: T, x: U, y: U, u: U, v: U)
    requires h != h2
    ensures b[h := x][h2 := y][h := u][h2 := v] == b[h := u][h2 := v]
  {
  }

  lemma PutAtEnd<T>(s: seq<T>, e: T)
    ensures Inserted(s, |s|, [e]) == s + [e]
  {
  }

  /** The books before each round of a sweep and after the last one. */
  ghost predicate IsSweep<T>(plan: seq<State<T>>, st: State<T>, h: T, p: T -> bool)
    requires h in st.brigades
  {
    && |plan| == |st.brigades[h]| + 1
    && forall k: nat {:trigger Swept(st, h, p, k)} | k <= |st.brigades[h]| :: plan[k] == Swept(st, h, p, k)
  }

  ghost predicate IsPart<T>(plan: seq<State<T>>, st: State<T>, h: T, h2: T, p: T -> bool)
    requires h in st.brigades && h2 in st.brigades
  {
    && |plan| == |st.brigades[h]| + 1
    && forall k: nat {:trigger Parted(st, h, h2, p, k)} | k <= |st.brigades[h]| :: plan[k] == Parted(st, h, h2, p, k)
  }

  lemma PlanSweep<T>(st: State<T>, h: T, p: T -> bool) returns (plan: seq<State<T>>)
    requires h in st.brigades
    ensures IsSweep(plan, st, h, p) && plan[0] == st
  {
    plan := seq(|st.brigades[h]| + 1, k requires 0 <= k <= |st.brigades[h]| => Swept(st, h, p, k));
    SweepBegins(st, h, p);
  }

  lemma PlanPart<T>(st: State<T>, h: T, h2: T, p: T -> bool) returns (plan: seq<State<T>>)
    requires h in st.brigades && h2 in st.brigades && h != h2
    ensures IsPart(plan, st, h, h2, p) && plan[0] == st
  {
    plan := seq(|st.brigades[h]| + 1, k requires 0 <= k <= |st.brigades[h]| => Parted(st, h, h2, p, k));
    PartBegins(st, h, h2, p);
  }

  /** The brigade h is parted: each of the two brigades has its part in order, and nothing else has moved. */
  ghost predicate IsPartition<T>(st: State<T>, end: State<T>, h: T, h2: T, p: T -> bool)
    requires h in st.brigades && h2 in st.brigades
  {
    var bs := st.brigades[h];
    && end.brigades == st.brigades[h := Where(bs, p, false)][h2 := st.brigades[h2] + Where(bs, p, true)]
    && end.dead == st.dead && end.place.Keys == st.place.Keys
    && forall e | e in st.place ::
         end.place[e] == if st.place[e] == In(h) && p(e) then In(h2) else st.place[e]
  }

  lemma Partitioned<T>(st: State<T>, h: T, h2: T, p: T -> bool)
    requires Books(st) && h in st.brigades && h2 in st.brigades && h != h2
    ensures IsPartition(st, Parted(st, h, h2, p, |st.brigades[h]|), h, h2, p)
  {
    var bs := st.brigades[h];
    assert bs[..|bs|] == bs;
    assert Where(bs, p, false) + bs[|bs|..] == Where(bs, p, false);
    WhereMembers(bs, p, true);
    forall e | e in st.place ensures e in bs <==> st.place[e] == In(h) { OnBrigadeIffPlaced(st, h, e); }
  }

  /** Brigade h has lost the selected buckets, which were destroyed in order, and nothing else has changed. */
  ghost predicate IsSwept<T>(st: State<T>, end: State<T>, h: T, p: T -> bool)
    requires h in st.brigades
  {
    var bs := st.brigades[h];
    && end.brigades == st.brigades[h := Where(bs, p, false)]
    && end.dead == st.dead + Where(bs, p, true) && end.place.Keys == st.place.Keys
    && forall e | e in st.place ::
         end.place[e] == if st.place[e] == In(h) && p(e) then Freed else st.place[e]
  }

  lemma FullySwept<T>(st: State<T>, h: T, p: T -> bool)
    requires Books(st) && h in st.brigades
    ensures IsSwept(st, Swept(st, h, p, |st.brigades[h]|), h, p)
  {
    var bs := st.brigades[h];
    assert bs[..|bs|] == bs && Where(bs, p, false) + [] == Where(bs, p, false);
    WhereMembers(bs, p, true);
    forall e | e in st.place ensures e in bs <==> st.place[e] == In(h) { OnBrigadeIffPlaced(st, h, e); }
  }
}
