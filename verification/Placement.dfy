/** Where the entries and heads of rings lie in memory: inside structs that do not overlap.

    An element that is to be on several rings has an entry for each of them; a head may be a variable of
    its own or a field of a struct. */
module Placement {
  import opened Options
  import opened LinkMemory
  import opened RingTheory
  import opened FlatMemory

  /** So many bytes into the struct at this address. */
  datatype Spot = Spot(base: int, offset: nat)

  /** The structs, by address with their sizes, are in memory and do not overlap. */
  ghost predicate Structs(l: Layout, mem: Memory, structs: map<int, nat>) {
    && (forall a | a in structs :: structs[a] <= Pow256(l.w) && Allocated(mem, l.Bytes(a, structs[a])))
    && (forall a, b | a in structs && b in structs && a != b ::
          Apart(l.Bytes(a, structs[a]), l.Bytes(b, structs[b])))
  }

  /** Every element and sentinel of this kind is the one that belongs to an entry or a head at the given spot.
      For a struct with the entry in its place that is its address, for a head it is the sentinel. */
  ghost predicate Covers(l: Layout, structs: map<int, nat>, at: map<int, Spot>) {
    && at.Keys == l.elems
    && forall p | p in at ::
         at[p].base in structs && at[p].offset + 2 * l.w <= structs[at[p].base]
         && p == l.Sentinel(at[p].base + at[p].offset)
  }

  /** In different structs, or far enough apart in one. */
  ghost predicate Separate(w: nat, s: Spot, t: Spot) {
    s.base != t.base || s.offset + 2 * w <= t.offset || t.offset + 2 * w <= s.offset
  }

  lemma {:induction false} EntriesFit(w: nat)
    ensures 2 * w <= Pow256(w)
  {
    if w > 0 { EntriesFit(w - 1); }
  }

  lemma SameBytes(l: Layout, k: Layout, a: int, n: nat)
    requires l.w == k.w
    ensures k.Bytes(a, n) == l.Bytes(a, n)
    decreases n
  {
    if n > 0 { SameBytes(l, k, a + 1, n - 1); }
  }

  /** An entry is a stretch of the struct that it is in. */
  lemma EntryInStruct(l: Layout, k: Layout, structs: map<int, nat>, at: map<int, Spot>, p: int)
    requires l.w == k.w && Covers(k, structs, at) && p in at
    ensures var a, x := at[p].base, at[p].offset;
            k.Entry(p) == l.Bytes(a, structs[a])[x..x + 2 * k.w]
  {
    var a, x, n := at[p].base, at[p].offset, 2 * k.w;
    var rest := structs[a] - x - n;
    SentinelBytes(k, a + x, 0, n);
    SameBytes(l, k, a + x, n);
    BytesSplit(l, a, x, n + rest);
    BytesSplit(l, a + x, n, rest);
  }

  lemma SpotsApart(l: Layout, k: Layout, mem: Memory, structs: map<int, nat>,
                   at: map<int, Spot>, kt: map<int, Spot>, p: int, q: int)
    requires l.w == k.w && Structs(l, mem, structs) && Covers(l, structs, at) && Covers(k, structs, kt)
    requires p in at && q in kt && Separate(l.w, at[p], kt[q])
    ensures Apart(k.Entry(q), l.Entry(p))
  {
    var a, b, x, y := at[p].base, kt[q].base, at[p].offset, kt[q].offset;
    var s, t := l.Bytes(a, structs[a]), l.Bytes(b, structs[b]);
    EntryInStruct(l, l, structs, at, p);
    EntryInStruct(l, k, structs, kt, q);
    BytesDistinct(l, a, structs[a]);
    forall i, j | 0 <= i < 2 * l.w && 0 <= j < 2 * l.w ensures k.Entry(q)[i] != l.Entry(p)[j] {
      assert k.Entry(q)[i] == t[y + i] && l.Entry(p)[j] == s[x + j];
      if a != b { assert Apart(t, s); }
    }
  }

  lemma EntryAllocated(l: Layout, mem: Memory, structs: map<int, nat>, at: map<int, Spot>, p: int)
    requires Structs(l, mem, structs) && Covers(l, structs, at) && p in at
    ensures 0 <= p < Pow256(l.w) && Allocated(mem, l.Entry(p))
  {
    EntryInStruct(l, l, structs, at, p);
    assert p in l.elems && p == l.Sentinel(at[p].base + at[p].offset);
  }

  /** Entries and heads in separate spots are all that a kind of ring needs. */
  lemma SeparateIsValid(l: Layout, mem: Memory, structs: map<int, nat>, at: map<int, Spot>)
    requires Structs(l, mem, structs) && Covers(l, structs, at)
    requires forall p, q | p in at && q in at && p != q :: Separate(l.w, at[p], at[q])
    ensures l.Valid(mem)
  {
    EntriesFit(l.w);
    forall p | p in l.elems ensures 0 <= p < Pow256(l.w) && Allocated(mem, l.Entry(p)) {
      EntryAllocated(l, mem, structs, at, p);
    }
    forall p, q | p in l.elems && q in l.elems && p != q ensures Apart(l.Entry(p), l.Entry(q)) {
      SpotsApart(l, l, mem, structs, at, at, q, p);
    }
  }

  lemma SameStructs(l: Layout, k: Layout, mem: Memory, structs: map<int, nat>)
    requires l.w == k.w && Structs(l, mem, structs)
    ensures Structs(k, mem, structs)
  {
    forall a | a in structs ensures k.Bytes(a, structs[a]) == l.Bytes(a, structs[a]) {
      SameBytes(l, k, a, structs[a]);
    }
  }

  /** Structs on two kinds of ring through two entries, 2 * w bytes apart or more, with heads wherever there is room. */
  ghost predicate TwoLinks(l: Layout, k: Layout, mem: Memory, structs: map<int, nat>,
                           at: map<int, Spot>, kt: map<int, Spot>)
  {
    && l.w == k.w && Structs(l, mem, structs) && Covers(l, structs, at) && Covers(k, structs, kt)
    && (forall p, q | p in at && q in at && p != q :: Separate(l.w, at[p], at[q]))
    && (forall p, q | p in kt && q in kt && p != q :: Separate(l.w, kt[p], kt[q]))
    && (forall p, q | p in at && q in kt :: Separate(l.w, at[p], kt[q]))
  }

  lemma TwoLinksAreValid(l: Layout, k: Layout, mem: Memory, structs: map<int, nat>,
                         at: map<int, Spot>, kt: map<int, Spot>)
    requires TwoLinks(l, k, mem, structs, at, kt)
    ensures l.Valid(mem) && k.Valid(mem)
    ensures forall p, q | p in l.elems && q in k.elems :: Apart(k.Entry(q), l.Entry(p))
  {
    SeparateIsValid(l, mem, structs, at);
    SameStructs(l, k, mem, structs);
    SeparateIsValid(k, mem, structs, kt);
    forall p, q | p in l.elems && q in k.elems ensures Apart(k.Entry(q), l.Entry(p)) {
      SpotsApart(l, k, mem, structs, at, kt, p, q);
    }
  }

  /** Both kinds of ring work, and no program on the one changes any pointer of the other. */
  lemma LinksAreIndependent(l: Layout, k: Layout, mem: Memory, structs: map<int, nat>,
                            at: map<int, Spot>, kt: map<int, Spot>, s: Stmt<int>) returns (mem': Memory)
    requires TwoLinks(l, k, mem, structs, at, kt) && Fits(l, s)
    requires l.Valid(mem) ==> Exec(l.View(mem), s).Some?
    ensures l.Valid(mem) && k.Valid(mem) && ExecFlat(l, mem, s) == Some(mem')
    ensures l.Valid(mem') && Exec(l.View(mem), s) == Some(l.View(mem'))
    ensures k.Valid(mem') && k.View(mem') == k.View(mem)
  {
    TwoLinksAreValid(l, k, mem, structs, at, kt);
    mem' := ExecRefines(l, mem, s);
    var same := OtherLinkUntouched(l, k, mem, s);
  }
}
