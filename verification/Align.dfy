/** APR_ALIGN on words of any width: `(size + (boundary - 1)) & ~(boundary - 1)`, with the sum taken
    modulo the size of the word. */
module Align {
  import opened Remainders

  ghost function Pow2(n: nat): (p: nat)
    ensures p >= 1
  {
    if n == 0 then 1 else 2 * Pow2(n - 1)
  }

  // ----- the two bit operations on words of w bits -----

  ghost function And(w: nat, a: nat, b: nat): nat {
    if w == 0 then 0
    else (if a % 2 == 1 && b % 2 == 1 then 1 else 0) + 2 * And(w - 1, a / 2, b / 2)
  }

  ghost function Not(w: nat, a: nat): nat {
    if w == 0 then 0
    else (if a % 2 == 1 then 0 else 1) + 2 * Not(w - 1, a / 2)
  }

  /** Bit i of a number. */
  ghost predicate Bit(a: nat, i: nat) {
    if i == 0 then a % 2 == 1 else Bit(a / 2, i - 1)
  }

  lemma {:induction false} AndBits(w: nat, a: nat, b: nat, i: nat)
    ensures And(w, a, b) < Pow2(w)
    ensures Bit(And(w, a, b), i) <==> i < w && Bit(a, i) && Bit(b, i)
  {
    if w > 0 { AndBits(w - 1, a / 2, b / 2, if i > 0 then i - 1 else 0); }
    if w == 0 { NoBits(i); }
  }

  lemma {:induction false} NotBits(w: nat, a: nat, i: nat)
    ensures Not(w, a) < Pow2(w)
    ensures Bit(Not(w, a), i) <==> i < w && !Bit(a, i)
  {
    if w > 0 { NotBits(w - 1, a / 2, if i > 0 then i - 1 else 0); }
    if w == 0 { NoBits(i); }
  }

  lemma {:induction false} NoBits(i: nat)
    ensures !Bit(0, i)
  {
    if i > 0 { NoBits(i - 1); }
  }

  ghost function Aligned(w: nat, size: nat, boundary: nat): nat
    requires boundary > 0
  {
    And(w, (size + (boundary - 1)) % Pow2(w), Not(w, boundary - 1))
  }

  // ----- masks -----

  /** n with its low k bits cleared. */
  ghost function Floor(k: nat, n: nat): nat {
    if k == 0 then n else 2 * Floor(k - 1, n / 2)
  }

  ghost predicate Multiple(k: nat, n: nat) {
    k == 0 || (n % 2 == 0 && Multiple(k - 1, n / 2))
  }

  lemma {:induction false} AndOnes(w: nat, a: nat)
    requires a < Pow2(w)
    ensures And(w, a, Not(w, 0)) == a
  {
    if w > 0 { AndOnes(w - 1, a / 2); }
  }

  /** Masking with ~(2^k - 1) clears the low k bits. */
  lemma {:induction false} MaskClears(w: nat, k: nat, a: nat)
    requires k <= w && a < Pow2(w)
    ensures And(w, a, Not(w, Pow2(k) - 1)) == Floor(k, a)
    decreases k
  {
    if k == 0 {
      AndOnes(w, a);
    } else {
      MaskClears(w - 1, k - 1, a / 2);
      assert (Pow2(k) - 1) % 2 == 1 && (Pow2(k) - 1) / 2 == Pow2(k - 1) - 1;
    }
  }

  lemma {:induction false} FloorBounds(k: nat, n: nat)
    ensures Multiple(k, Floor(k, n)) && Floor(k, n) <= n < Floor(k, n) + Pow2(k)
    decreases k
  {
    if k > 0 { FloorBounds(k - 1, n / 2); }
  }

  lemma {:induction false} MultiplesApart(k: nat, m: nat, n: nat)
    requires Multiple(k, m) && Multiple(k, n) && m < n
    ensures m + Pow2(k) <= n
    decreases k
  {
    if k > 0 { MultiplesApart(k - 1, m / 2, n / 2); }
  }

  lemma {:induction false} CoarserMultiple(j: nat, k: nat, n: nat)
    requires j <= k && Multiple(k, n)
    ensures Multiple(j, n)
  {
    if j > 0 { CoarserMultiple(j - 1, k - 1, n / 2); }
  }

  lemma {:induction false} PowerIsMultiple(k: nat, w: nat)
    requires k <= w
    ensures Multiple(k, Pow2(w)) && Multiple(k, 0) && Pow2(k) <= Pow2(w)
  {
    if k > 0 { PowerIsMultiple(k - 1, w - 1); } else if w > 0 { PowerIsMultiple(0, w - 1); }
  }

  lemma {:induction false} MultipleIsDivisible(k: nat, n: nat) returns (q: nat)
    requires Multiple(k, n)
    ensures n == Pow2(k) * q
  {
    if k == 0 {
      q := n;
    } else {
      q := MultipleIsDivisible(k - 1, n / 2);
      Twice(Pow2(k - 1), q);
    }
  }

  lemma Twice(p: nat, q: nat)
    ensures 2 * p * q == 2 * (p * q)
  {
  }

  lemma {:induction false} DivisibleIsMultiple(k: nat, q: nat)
    ensures Multiple(k, Pow2(k) * q)
  {
    if k > 0 {
      DivisibleIsMultiple(k - 1, q);
      Twice(Pow2(k - 1), q);
    }
  }

  /** Multiples of 2^k in terms of the remainder. */
  lemma MultipleIffDivides(k: nat, n: nat)
    ensures Multiple(k, n) <==> n % Pow2(k) == 0
  {
    var p := Pow2(k);
    if Multiple(k, n) {
      var q := MultipleIsDivisible(k, n);
      ModUnique(p, q, 0);
    }
    if n % p == 0 {
      assert n == p * (n / p);
      DivisibleIsMultiple(k, n / p);
    }
  }

  // ----- alignment on powers of two -----

  lemma AlignedIsFloor(w: nat, k: nat, size: nat)
    requires k <= w && size < Pow2(w)
    ensures size + (Pow2(k) - 1) < Pow2(w) ==> Aligned(w, size, Pow2(k)) == Floor(k, size + (Pow2(k) - 1))
    ensures size + (Pow2(k) - 1) >= Pow2(w) ==> Aligned(w, size, Pow2(k)) == Floor(k, size + (Pow2(k) - 1) - Pow2(w))
  {
    var M, sum := Pow2(w), size + (Pow2(k) - 1);
    PowerIsMultiple(k, w);
    if sum < M {
      ModUnique(M, 0, sum);
      MaskClears(w, k, sum);
    } else {
      ModUnique(M, 1, sum - M);
      MaskClears(w, k, sum - M);
    }
  }

  lemma FloorIsLeast(k: nat, size: nat)
    ensures var r := Floor(k, size + (Pow2(k) - 1));
      r % Pow2(k) == 0 && size <= r && forall n: nat | n % Pow2(k) == 0 && size <= n :: r <= n
  {
    var r := Floor(k, size + (Pow2(k) - 1));
    FloorBounds(k, size + (Pow2(k) - 1));
    MultipleIffDivides(k, r);
    forall n: nat | n % Pow2(k) == 0 && size <= n ensures r <= n {
      MultipleIffDivides(k, n);
      if n < r { MultiplesApart(k, n, r); }
    }
  }

  lemma FloorIsZero(k: nat, n: nat)
    requires n < Pow2(k)
    ensures Floor(k, n) == 0
  {
    FloorBounds(k, n);
    PowerIsMultiple(k, k);
    if 0 < Floor(k, n) { MultiplesApart(k, 0, Floor(k, n)); }
  }

  /** Without wrap-around the result is the least multiple of the boundary that is not below size; if the
      sum wraps around it is 0. */
  lemma AlignedIsLeast(w: nat, k: nat, size: nat)
    requires k <= w && size < Pow2(w)
    ensures var r := Aligned(w, size, Pow2(k));
      if size + (Pow2(k) - 1) < Pow2(w) then
        r % Pow2(k) == 0 && size <= r < Pow2(w) && forall n: nat | n % Pow2(k) == 0 && size <= n :: r <= n
      else r == 0
  {
    var sum := size + (Pow2(k) - 1);
    AlignedIsFloor(w, k, size);
    if sum < Pow2(w) {
      FloorIsLeast(k, size);
      FloorBounds(k, sum);
    } else {
      FloorIsZero(k, sum - Pow2(w));
    }
  }

  /** The result reaches size exactly when the sum does not wrap around, or size is 0. */
  lemma AlignedCovers(w: nat, k: nat, size: nat)
    requires k <= w && size < Pow2(w)
    ensures Aligned(w, size, Pow2(k)) >= size <==> size + (Pow2(k) - 1) < Pow2(w) || size == 0
  {
    AlignedIsLeast(w, k, size);
    AlignedIsFloor(w, k, size);
  }

  lemma AlignedMonotone(w: nat, k: nat, a: nat, b: nat)
    requires k <= w && a <= b && b + (Pow2(k) - 1) < Pow2(w)
    ensures Aligned(w, a, Pow2(k)) <= Aligned(w, b, Pow2(k))
  {
    AlignedIsLeast(w, k, a);
    AlignedIsLeast(w, k, b);
  }

  /** Aligning to one power of two and then to another is aligning to the larger, in either order; so
      aligning twice is aligning once. */
  lemma AlignedTwice(w: nat, j: nat, k: nat, size: nat)
    requires j <= k <= w && size + (Pow2(k) - 1) < Pow2(w)
    ensures Aligned(w, Aligned(w, size, Pow2(j)), Pow2(k)) == Aligned(w, size, Pow2(k))
    ensures Aligned(w, Aligned(w, size, Pow2(k)), Pow2(j)) == Aligned(w, size, Pow2(k))
  {
    PowerIsMultiple(j, k);
    PowerIsMultiple(k, w);
    AlignedIsLeast(w, j, size);
    AlignedIsLeast(w, k, size);
    var fine, coarse := Aligned(w, size, Pow2(j)), Aligned(w, size, Pow2(k));
    MultipleIffDivides(k, coarse);
    CoarserMultiple(j, k, coarse);
    MultipleIffDivides(j, coarse);
    MultiplesApart(k, coarse, Pow2(w));
    AlignedIsLeast(w, k, fine);
    AlignedIsLeast(w, j, coarse);
    MultipleIffDivides(k, Aligned(w, fine, Pow2(k)));
  }

  // ----- other boundaries -----

  lemma {:induction false} AndNotSelf(w: nat, a: nat)
    ensures And(w, a, Not(w, a)) == 0
  {
    if w > 0 { AndNotSelf(w - 1, a / 2); }
  }

  /** b & ~(b - 1) is the lowest bit of b. */
  lemma {:induction false} LowestBit(w: nat, b: nat) returns (t: nat)
    requires 0 < b < Pow2(w)
    ensures And(w, b, Not(w, b - 1)) == Pow2(t) <= b
    decreases w
  {
    if b % 2 == 1 {
      AndNotSelf(w - 1, b / 2);
      t := 0;
    } else {
      t := LowestBit(w - 1, b / 2);
      assert (b - 1) / 2 == b / 2 - 1 && (b - 1) % 2 == 1;
      t := t + 1;
    }
  }

  ghost predicate AlignsEverything(w: nat, b: nat)
    requires b > 0
  {
    forall size: nat | size < Pow2(w) :: Aligned(w, size, b) % b == 0
  }

  lemma PowersAlignEverything(w: nat, k: nat)
    requires k <= w
    ensures AlignsEverything(w, Pow2(k))
  {
    forall size: nat | size < Pow2(w) ensures Aligned(w, size, Pow2(k)) % Pow2(k) == 0 {
      AlignedIsLeast(w, k, size);
    }
  }

  /** "Only to be used to align on a power of 2 boundary": those are exactly the boundaries on which it works. */
  lemma WorksForPowersOfTwo(w: nat, b: nat)
    requires 0 < b < Pow2(w)
    ensures AlignsEverything(w, b) <==> exists k: nat :: b == Pow2(k)
  {
    if k: nat :| b == Pow2(k) {
      assert k <= w by { if k > w { PowerIsMultiple(w, k); } }
      PowersAlignEverything(w, k);
      assert AlignsEverything(w, b);
    } else {
      var t := LowestBit(w, b);
      ModUnique(Pow2(w), 0, b);
      ModUnique(b, 0, Pow2(t));
      assert Aligned(w, 1, b) == Pow2(t);
      assert !AlignsEverything(w, b);
    }
  }
}
