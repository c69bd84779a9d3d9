/** The macros on the machine: bytes at addresses, pointers of `w` bytes stored little end first, address
    arithmetic modulo the size of the address space.

    An element is the address of its struct; its `next` cell lies `offset` bytes further on and its
    `prev` cell directly behind that.  A head is a bare pair of cells, and the sentinel is the address
    that lies `offset` bytes in front of the head. */
module FlatMemory {
  import opened Options
  import opened LinkMemory
  import opened RingTheory
  import opened Remainders

  type Byte = b: int | 0 <= b < 256
  type Memory = map<int, Byte>

  ghost function Pow256(n: nat): (p: nat)
    ensures p > n
  {
    if n == 0 then 1 else 256 * Pow256(n - 1)
  }

  // ----- words -----

  ghost predicate Allocated(mem: Memory, addrs: seq<int>) {
    forall i | 0 <= i < |addrs| :: addrs[i] in mem
  }

  ghost predicate Apart(s: seq<int>, t: seq<int>) {
    forall i | 0 <= i < |s| :: s[i] !in t
  }

  ghost function Load(mem: Memory, addrs: seq<int>): int
    requires Allocated(mem, addrs)
  {
    if addrs == [] then 0 else mem[addrs[0]] + 256 * Load(mem, addrs[1..])
  }

  ghost function Store(mem: Memory, addrs: seq<int>, v: int): Memory
    decreases |addrs|
  {
    if addrs == [] then mem else Store(mem[addrs[0] := v % 256], addrs[1..], v / 256)
  }

  lemma {:induction false} StoreElsewhere(mem: Memory, addrs: seq<int>, v: int)
    ensures Allocated(mem, addrs) ==> Store(mem, addrs, v).Keys == mem.Keys
    ensures forall x | x in mem && x !in addrs :: x in Store(mem, addrs, v) && Store(mem, addrs, v)[x] == mem[x]
    decreases |addrs|
  {
    if addrs != [] {
      StoreElsewhere(mem[addrs[0] := v % 256], addrs[1..], v / 256);
    }
  }

  ghost predicate SameOn(mem: Memory, mem': Memory, addrs: seq<int>) {
    forall i | 0 <= i < |addrs| :: addrs[i] in mem && addrs[i] in mem' && mem'[addrs[i]] == mem[addrs[i]]
  }

  lemma SamePrefix(mem: Memory, mem': Memory, s: seq<int>, t: seq<int>)
    requires SameOn(mem, mem', s + t)
    ensures SameOn(mem, mem', s) && SameOn(mem, mem', t)
  {
    forall i | 0 <= i < |s| ensures s[i] == (s + t)[i] {}
    forall i | 0 <= i < |t| ensures t[i] == (s + t)[|s| + i] {}
  }

  lemma StoreApart(mem: Memory, cell: seq<int>, v: int, addrs: seq<int>)
    requires Allocated(mem, addrs) && Apart(addrs, cell)
    ensures SameOn(mem, Store(mem, cell, v), addrs)
  {
    StoreElsewhere(mem, cell, v);
    var mem' := Store(mem, cell, v);
    forall i | 0 <= i < |addrs| ensures addrs[i] in mem' && mem'[addrs[i]] == mem[addrs[i]] {
      var x := addrs[i];
      assert x in mem && x !in cell;
    }
  }

  lemma {:induction false} LoadSame(mem: Memory, mem': Memory, addrs: seq<int>)
    requires SameOn(mem, mem', addrs)
    ensures Allocated(mem, addrs) && Allocated(mem', addrs)
    ensures Load(mem', addrs) == Load(mem, addrs)
  {
    if addrs != [] { LoadSame(mem, mem', addrs[1..]); }
  }

  lemma {:induction false} LoadStored(mem: Memory, addrs: seq<int>, v: int)
    requires Allocated(mem, addrs) && Distinct(addrs) && 0 <= v < Pow256(|addrs|)
    ensures Allocated(Store(mem, addrs, v), addrs) && Load(Store(mem, addrs, v), addrs) == v
    decreases |addrs|
  {
    StoreElsewhere(mem, addrs, v);
    if addrs != [] {
      var mem1 := mem[addrs[0] := v % 256];
      StoreElsewhere(mem1, addrs[1..], v / 256);
      LoadStored(mem1, addrs[1..], v / 256);
    }
  }

  lemma {:induction false} LoadInRange(mem: Memory, addrs: seq<int>)
    requires Allocated(mem, addrs)
    ensures 0 <= Load(mem, addrs) < Pow256(|addrs|)
  {
    if addrs != [] { LoadInRange(mem, addrs[1..]); }
  }

  lemma AllocatedParts(mem: Memory, s: seq<int>, t: seq<int>)
    requires Allocated(mem, s + t)
    ensures Allocated(mem, s) && Allocated(mem, t)
  {
    forall i | 0 <= i < |t| ensures t[i] in mem { assert (s + t)[|s| + i] == t[i]; }
    forall i | 0 <= i < |s| ensures s[i] in mem { assert (s + t)[i] == s[i]; }
  }

  // ----- cells -----

  /** One kind of ring: the width of a pointer, the offset of the entry in the element struct, and the
      addresses of all elements and sentinels of that kind. */
  datatype Layout = Layout(w: nat, offset: int, elems: set<int>) {

    ghost function Bytes(a: int, n: nat): (s: seq<int>)
      ensures |s| == n
      decreases n
    {
      if n == 0 then [] else [a % Pow256(w)] + Bytes(a + 1, n - 1)
    }

    ghost function NextCell(p: int): seq<int> { Bytes(p + offset, w) }
    ghost function PrevCell(p: int): seq<int> { Bytes(p + offset + w, w) }
    ghost function Entry(p: int): seq<int> { Bytes(p + offset, 2 * w) }

    /** The address in front of a head at which an element's entry would coincide with the head. */
    ghost function Sentinel(hp: int): int { (hp - offset) % Pow256(w) }

    ghost predicate Valid(mem: Memory) {
      && 2 * w <= Pow256(w)
      && (forall p | p in elems :: 0 <= p < Pow256(w) && Allocated(mem, Entry(p)))
      && (forall p, q | p in elems && q in elems && p != q :: Apart(Entry(p), Entry(q)))
    }

    /** The cells of this kind of ring, as the memory that the ring theory speaks about. */
    ghost function View(mem: Memory): (m: Links<int>)
      requires Valid(mem)
      ensures m.next.Keys == elems && m.prev.Keys == elems
    {
      CellsAllocated(mem);
      Links(map p | p in elems :: Load(mem, NextCell(p)), map p | p in elems :: Load(mem, PrevCell(p)))
    }

    lemma CellsAreHalves(p: int)
      ensures Entry(p) == NextCell(p) + PrevCell(p)
    {
      BytesSplit(this, p + offset, w, w);
    }

    lemma CellsAllocated(mem: Memory)
      requires Valid(mem)
      ensures forall p | p in elems :: Allocated(mem, NextCell(p)) && Allocated(mem, PrevCell(p))
    {
      forall p | p in elems ensures Allocated(mem, NextCell(p)) && Allocated(mem, PrevCell(p)) {
        CellsAreHalves(p);
        AllocatedParts(mem, NextCell(p), PrevCell(p));
      }
    }
  }

  lemma {:induction false} BytesAt(l: Layout, a: int, n: nat, i: nat)
    requires i < n
    ensures l.Bytes(a, n)[i] == (a + i) % Pow256(l.w)
    decreases n
  {
    if i > 0 { BytesAt(l, a + 1, n - 1, i - 1); }
  }

  lemma {:induction false} BytesSplit(l: Layout, a: int, n: nat, k: nat)
    ensures l.Bytes(a, n + k) == l.Bytes(a, n) + l.Bytes(a + n, k)
    decreases n
  {
    if n > 0 { BytesSplit(l, a + 1, n - 1, k); }
  }

  lemma BytesDistinct(l: Layout, a: int, n: nat)
    requires n <= Pow256(l.w)
    ensures Distinct(l.Bytes(a, n))
  {
    forall i, j | 0 <= i < j < n ensures l.Bytes(a, n)[i] != l.Bytes(a, n)[j] {
      BytesAt(l, a, n, i);
      BytesAt(l, a, n, j);
      WrapDistinct(Pow256(l.w), a + i, a + j);
    }
  }

  /** The phantom's two cells are exactly the two cells of the head, whatever the offset, even when the
      sentinel address wraps around below zero. */
  lemma SentinelCells(l: Layout, hp: int)
    ensures l.NextCell(l.Sentinel(hp)) == l.Bytes(hp, l.w)
    ensures l.PrevCell(l.Sentinel(hp)) == l.Bytes(hp + l.w, l.w)
  {
    SentinelBytes(l, hp, 0, l.w);
    SentinelBytes(l, hp, l.w, l.w);
  }

  lemma SentinelBytes(l: Layout, hp: int, k: int, n: nat)
    ensures l.Bytes(l.Sentinel(hp) + l.offset + k, n) == l.Bytes(hp + k, n)
  {
    SentinelOffset(Pow256(l.w), hp, l.offset, k);
    BytesCongruent(l, l.Sentinel(hp) + l.offset + k, hp + k, n);
  }

  /** Reading FIRST and LAST of a head is reading NEXT and PREV of its sentinel. */
  lemma HeadIsSentinel(l: Layout, mem: Memory, hp: int)
    requires l.Valid(mem) && l.Sentinel(hp) in l.elems
    ensures Allocated(mem, l.Bytes(hp, l.w)) && Load(mem, l.Bytes(hp, l.w)) == l.View(mem).next[l.Sentinel(hp)]
    ensures Allocated(mem, l.Bytes(hp + l.w, l.w))
    ensures Load(mem, l.Bytes(hp + l.w, l.w)) == l.View(mem).prev[l.Sentinel(hp)]
  {
    SentinelCells(l, hp);
    l.CellsAllocated(mem);
  }

  lemma SentinelOffset(M: nat, hp: int, offset: int, k: int)
    requires M > 0
    ensures ((hp - offset) % M + offset + k) % M == (hp + k) % M
  {
    WrapSum(M, hp - offset, offset + k);
  }

  lemma BytesCongruent(l: Layout, a: int, b: int, n: nat)
    requires a % Pow256(l.w) == b % Pow256(l.w)
    ensures l.Bytes(a, n) == l.Bytes(b, n)
  {
    forall i | 0 <= i < n ensures l.Bytes(a, n)[i] == l.Bytes(b, n)[i] {
      BytesAt(l, a, n, i);
      BytesAt(l, b, n, i);
      WrapSum(Pow256(l.w), a, i);
      WrapSum(Pow256(l.w), b, i);
    }
  }

  // ----- running the macros on bytes -----

  ghost function EvalFlat(l: Layout, mem: Memory, e: Expr<int>): Option<int> {
    match e
    case Ptr(p) => Some(p)
    case Next(e1) =>
      var r := EvalFlat(l, mem, e1);
      if r.Some? && Allocated(mem, l.NextCell(r.value)) then Some(Load(mem, l.NextCell(r.value))) else None
    case Prev(e1) =>
      var r := EvalFlat(l, mem, e1);
      if r.Some? && Allocated(mem, l.PrevCell(r.value)) then Some(Load(mem, l.PrevCell(r.value))) else None
  }

  ghost function ExecFlat(l: Layout, mem: Memory, s: Stmt<int>): Option<Memory>
    decreases s
  {
    match s
    case SetNext(e, v) =>
      var t, r := EvalFlat(l, mem, e), EvalFlat(l, mem, v);
      if t.Some? && r.Some? && Allocated(mem, l.NextCell(t.value))
      then Some(Store(mem, l.NextCell(t.value), r.value)) else None
    case SetPrev(e, v) =>
      var t, r := EvalFlat(l, mem, e), EvalFlat(l, mem, v);
      if t.Some? && r.Some? && Allocated(mem, l.PrevCell(t.value))
      then Some(Store(mem, l.PrevCell(t.value), r.value)) else None
    case Then(a, b) =>
      var r := ExecFlat(l, mem, a);
      if r.Some? then ExecFlat(l, r.value, b) else None
    case IfDiffer(a, b, body) =>
      var x, y := EvalFlat(l, mem, a), EvalFlat(l, mem, b);
      if x.None? || y.None? then None
      else if x.value != y.value then ExecFlat(l, mem, body) else Some(mem)
  }

  ghost predicate ExprFits(l: Layout, e: Expr<int>) {
    match e
    case Ptr(p) => 0 <= p < Pow256(l.w)
    case Next(e1) => ExprFits(l, e1)
    case Prev(e1) => ExprFits(l, e1)
  }

  /** Every pointer written down in the statement is an address. */
  ghost predicate Fits(l: Layout, s: Stmt<int>) {
    match s
    case SetNext(e, v) => ExprFits(l, e) && ExprFits(l, v)
    case SetPrev(e, v) => ExprFits(l, e) && ExprFits(l, v)
    case Then(a, b) => Fits(l, a) && Fits(l, b)
    case IfDiffer(a, b, body) => ExprFits(l, a) && ExprFits(l, b) && Fits(l, body)
  }

  /** The bytes that belong to no entry of this kind are the same in both memories. */
  ghost predicate SameOutside(l: Layout, mem: Memory, mem': Memory) {
    && mem'.Keys == mem.Keys
    && forall x | x in mem && (forall p | p in l.elems :: x !in l.Entry(p)) :: mem'[x] == mem[x]
  }

  lemma {:induction false} EvalRefines(l: Layout, mem: Memory, e: Expr<int>)
    requires l.Valid(mem) && ExprFits(l, e) && Eval(l.View(mem), e).Some?
    ensures EvalFlat(l, mem, e) == Eval(l.View(mem), e)
    ensures 0 <= Eval(l.View(mem), e).value < Pow256(l.w)
  {
    l.CellsAllocated(mem);
    match e
    case Ptr(_) =>
    case Next(e1) =>
      EvalRefines(l, mem, e1);
      LoadInRange(mem, l.NextCell(Eval(l.View(mem), e1).value));
    case Prev(e1) =>
      EvalRefines(l, mem, e1);
      LoadInRange(mem, l.PrevCell(Eval(l.View(mem), e1).value));
  }

  lemma EntrySame(l: Layout, mem: Memory, mem': Memory, q: int)
    requires SameOn(mem, mem', l.Entry(q))
    ensures SameOn(mem, mem', l.NextCell(q)) && SameOn(mem, mem', l.PrevCell(q))
  {
    l.CellsAreHalves(q);
    SamePrefix(mem, mem', l.NextCell(q), l.PrevCell(q));
  }

  lemma ViewsAgree(l: Layout, mem: Memory, mem': Memory, q: int)
    requires l.Valid(mem) && l.Valid(mem') && q in l.elems
    ensures SameOn(mem, mem', l.NextCell(q)) ==> l.View(mem').next[q] == l.View(mem).next[q]
    ensures SameOn(mem, mem', l.PrevCell(q)) ==> l.View(mem').prev[q] == l.View(mem).prev[q]
  {
    l.CellsAllocated(mem);
    l.CellsAllocated(mem');
    if SameOn(mem, mem', l.NextCell(q)) { LoadSame(mem, mem', l.NextCell(q)); }
    if SameOn(mem, mem', l.PrevCell(q)) { LoadSame(mem, mem', l.PrevCell(q)); }
  }

  lemma SameLinks<T>(m: Links<T>, m': Links<T>)
    requires m'.next.Keys == m.next.Keys && m'.prev.Keys == m.prev.Keys && m.prev.Keys == m.next.Keys
    requires forall q | q in m.next :: m'.next[q] == m.next[q] && m'.prev[q] == m.prev[q]
    ensures m' == m
  {
    assert m'.next == m.next && m'.prev == m.prev;
  }

  lemma IsWritten<T>(m: Links<T>, m': Links<T>, p: T, v: T, next: bool)
    requires m'.next.Keys == m.next.Keys && m'.prev.Keys == m.prev.Keys && m.prev.Keys == m.next.Keys && p in m.next
    requires forall q | q in m.next && q != p :: m'.next[q] == m.next[q] && m'.prev[q] == m.prev[q]
    requires m'.next[p] == (if next then v else m.next[p])
    requires m'.prev[p] == (if next then m.prev[p] else v)
    ensures m' == Written(m, p, v, next)
  {
    SameLinks(Written(m, p, v, next), m');
  }

  ghost function CellOf(l: Layout, p: int, next: bool): seq<int> {
    if next then l.NextCell(p) else l.PrevCell(p)
  }

  lemma StoreStaysInside(l: Layout, mem: Memory, p: int, v: int, next: bool)
    requires l.Valid(mem) && p in l.elems
    ensures var mem' := Store(mem, CellOf(l, p, next), v);
            && l.Valid(mem') && SameOutside(l, mem, mem')
            && forall q | q in l.elems && q != p :: SameOn(mem, mem', l.Entry(q))
  {
    var cell := CellOf(l, p, next);
    l.CellsAllocated(mem);
    l.CellsAreHalves(p);
    StoreElsewhere(mem, cell, v);
    assert forall x | x in cell :: x in l.Entry(p);
    forall q | q in l.elems && q != p ensures SameOn(mem, Store(mem, cell, v), l.Entry(q)) {
      StoreApart(mem, cell, v, l.Entry(q));
    }
  }

  /** A word stored into one half of the entry of p reads back there and is seen nowhere else. */
  lemma StoreRefines(l: Layout, mem: Memory, p: int, v: int, next: bool) returns (mem': Memory)
    requires l.Valid(mem) && p in l.elems && 0 <= v < Pow256(l.w)
    ensures mem' == Store(mem, CellOf(l, p, next), v)
    ensures l.Valid(mem') && SameOutside(l, mem, mem')
    ensures l.View(mem') == Written(l.View(mem), p, v, next)
  {
    mem' := Store(mem, CellOf(l, p, next), v);
    StoreStaysInside(l, mem, p, v, next);
    StoreView(l, mem, p, v, next);
  }

  ghost function Written<T>(m: Links<T>, p: T, v: T, next: bool): Links<T> {
    if next then m.(next := m.next[p := v]) else m.(prev := m.prev[p := v])
  }

  lemma StoreView(l: Layout, mem: Memory, p: int, v: int, next: bool)
    requires l.Valid(mem) && p in l.elems && 0 <= v < Pow256(l.w)
    requires l.Valid(Store(mem, CellOf(l, p, next), v))
    ensures l.View(Store(mem, CellOf(l, p, next), v)) == Written(l.View(mem), p, v, next)
  {
    StoreReadsBack(l, mem, p, v, next);
    OthersReadSame(l, mem, p, v, next);
    IsWritten(l.View(mem), l.View(Store(mem, CellOf(l, p, next), v)), p, v, next);
  }

  lemma OthersReadSame(l: Layout, mem: Memory, p: int, v: int, next: bool)
    requires l.Valid(mem) && p in l.elems
    ensures var mem' := Store(mem, CellOf(l, p, next), v);
            l.Valid(mem') && forall q | q in l.elems && q != p ::
              l.View(mem').next[q] == l.View(mem).next[q] && l.View(mem').prev[q] == l.View(mem).prev[q]
  {
    var mem' := Store(mem, CellOf(l, p, next), v);
    StoreStaysInside(l, mem, p, v, next);
    forall q | q in l.elems && q != p
      ensures l.View(mem').next[q] == l.View(mem).next[q] && l.View(mem').prev[q] == l.View(mem).prev[q]
    {
      EntrySame(l, mem, mem', q);
      ViewsAgree(l, mem, mem', q);
    }
  }

  lemma StoreReadsBack(l: Layout, mem: Memory, p: int, v: int, next: bool)
    requires l.Valid(mem) && p in l.elems && 0 <= v < Pow256(l.w)
    requires l.Valid(Store(mem, CellOf(l, p, next), v))
    ensures var mem' := Store(mem, CellOf(l, p, next), v);
            && l.View(mem').next[p] == (if next then v else l.View(mem).next[p])
            && l.View(mem').prev[p] == (if next then l.View(mem).prev[p] else v)
  {
    var mem' := Store(mem, CellOf(l, p, next), v);
    l.CellsAllocated(mem);
    l.CellsAllocated(mem');
    HalvesApart(l, p);
    LoadStored(mem, CellOf(l, p, next), v);
    StoreApart(mem, CellOf(l, p, next), v, CellOf(l, p, !next));
    ViewsAgree(l, mem, mem', p);
  }

  lemma HalvesApart(l: Layout, p: int)
    requires 2 * l.w <= Pow256(l.w)
    ensures Distinct(l.NextCell(p)) && Distinct(l.PrevCell(p))
    ensures Apart(l.NextCell(p), l.PrevCell(p)) && Apart(l.PrevCell(p), l.NextCell(p))
  {
    BytesDistinct(l, p + l.offset, 2 * l.w);
    l.CellsAreHalves(p);
    PartsDistinct(l.NextCell(p), l.PrevCell(p));
  }

  lemma PartsDistinct(s: seq<int>, t: seq<int>)
    requires Distinct(s + t)
    ensures Distinct(s) && Distinct(t) && Apart(s, t) && Apart(t, s)
  {
    var u := s + t;
    forall i | 0 <= i < |s| ensures s[i] == u[i] {}
    forall j | 0 <= j < |t| ensures t[j] == u[|s| + j] {}
  }

  /** Refinement, for every program of the macro language: whatever it does to the abstract cells, its
      byte-level run does to the bytes, and it touches no byte outside the entries of its kind. */
  lemma {:induction false} ExecRefines(l: Layout, mem: Memory, s: Stmt<int>) returns (mem': Memory)
    requires l.Valid(mem) && Fits(l, s) && Exec(l.View(mem), s).Some?
    ensures ExecFlat(l, mem, s) == Some(mem')
    ensures l.Valid(mem') && Exec(l.View(mem), s) == Some(l.View(mem'))
    ensures SameOutside(l, mem, mem')
    decreases s
  {
    l.CellsAllocated(mem);
    match s
    case SetNext(e, v) =>
      EvalRefines(l, mem, e);
      EvalRefines(l, mem, v);
      mem' := StoreRefines(l, mem, Eval(l.View(mem), e).value, Eval(l.View(mem), v).value, true);
    case SetPrev(e, v) =>
      EvalRefines(l, mem, e);
      EvalRefines(l, mem, v);
      mem' := StoreRefines(l, mem, Eval(l.View(mem), e).value, Eval(l.View(mem), v).value, false);
    case Then(a, b) =>
      var mem1 := ExecRefines(l, mem, a);
      mem' := ExecRefines(l, mem1, b);
    case IfDiffer(a, b, body) =>
      EvalRefines(l, mem, a);
      EvalRefines(l, mem, b);
      if Eval(l.View(mem), a) == Eval(l.View(mem), b) { mem' := mem; } else { mem' := ExecRefines(l, mem, body); }
  }

  /** Elements that are on two kinds of ring through different entries: no program on the one kind
      changes any pointer of the other. */
  lemma OtherLinkUntouched(l: Layout, k: Layout, mem: Memory, s: Stmt<int>) returns (mem': Memory)
    requires l.w == k.w && l.Valid(mem) && k.Valid(mem)
    requires forall p, q | p in l.elems && q in k.elems :: Apart(k.Entry(q), l.Entry(p))
    requires Fits(l, s) && Exec(l.View(mem), s).Some?
    ensures ExecFlat(l, mem, s) == Some(mem') && k.Valid(mem') && k.View(mem') == k.View(mem)
  {
    mem' := ExecRefines(l, mem, s);
    forall q | q in k.elems ensures SameOn(mem, mem', k.Entry(q)) {
      OutsideSame(l, k, mem, mem', q);
    }
    assert k.Valid(mem');
    forall q | q in k.elems
      ensures k.View(mem').next[q] == k.View(mem).next[q] && k.View(mem').prev[q] == k.View(mem).prev[q]
    {
      EntrySame(k, mem, mem', q);
      ViewsAgree(k, mem, mem', q);
    }
    SameLinks(k.View(mem), k.View(mem'));
  }

  lemma OutsideSame(l: Layout, k: Layout, mem: Memory, mem': Memory, q: int)
    requires SameOutside(l, mem, mem') && Allocated(mem, k.Entry(q))
    requires forall p | p in l.elems :: Apart(k.Entry(q), l.Entry(p))
    ensures SameOn(mem, mem', k.Entry(q))
  {
    forall i | 0 <= i < |k.Entry(q)| ensures mem'[k.Entry(q)[i]] == mem[k.Entry(q)[i]] {
      var x := k.Entry(q)[i];
      forall p | p in l.elems ensures x !in l.Entry(p) { assert Apart(k.Entry(q), l.Entry(p)); }
    }
  }
}
