/** What a brigade carries: the bytes of its data buckets, interleaved with its metadata buckets. */
module Streams {
  import opened Options

  datatype BucketType = BucketType(name: string, isMetadata: bool)

  /** A bucket's type, its length, `None` if not known yet, and what hangs off it: for a data bucket of
      known length that many bytes, otherwise anything. */
  datatype AnyBucket = AnyBucket(kind: BucketType, length: Option<nat>, data: seq<int>)

  type Bucket = b: AnyBucket | !b.kind.isMetadata && b.length.Some? ==> |b.data| == b.length.value
    witness AnyBucket(BucketType("EOS", true), Some(0), [])

  datatype Token =
    | Byte(value: int)
    | Meta(kind: BucketType, data: seq<int>)
    | Unread(kind: BucketType, data: seq<int>)   // data whose length is not known

  ghost function Carried(b: Bucket): seq<Token> {
    if b.kind.isMetadata then [Meta(b.kind, b.data)]
    else if b.length.None? then [Unread(b.kind, b.data)]
    else seq(|b.data|, i requires 0 <= i < |b.data| => Byte(b.data[i]))
  }

  ghost function Stream(bs: seq<Bucket>): seq<Token> {
    if bs == [] then [] else Carried(bs[0]) + Stream(bs[1..])
  }

  /** An empty bucket that may be dropped: length zero, and no metadata. */
  predicate Droppable(b: Bucket) {
    b.length == Some(0) && !b.kind.isMetadata
  }

  lemma {:induction false} StreamConcat(s: seq<Bucket>, t: seq<Bucket>)
    ensures Stream(s + t) == Stream(s) + Stream(t)
  {
    if s == [] {
      assert s + t == t;
    } else {
      StreamConcat(s[1..], t);
      assert (s + t)[1..] == s[1..] + t && (s + t)[0] == s[0];
      assert Stream(s + t) == Carried(s[0]) + Stream(s[1..] + t);
      Associate(Carried(s[0]), Stream(s[1..]), Stream(t));
    }
  }

  lemma Associate<T>(a: seq<T>, b: seq<T>, c: seq<T>)
    ensures (a + b) + c == a + (b + c)
  {
  }

  /** A bucket of length zero may be dropped from anywhere without a change of the stream if and only if
      it is not metadata. */
  lemma DropKeepsStream(s: seq<Bucket>, b: Bucket, t: seq<Bucket>)
    requires b.length == Some(0)
    ensures Stream(s + t) == Stream(s + [b] + t) <==> !b.kind.isMetadata
  {
    StreamConcat(s, t);
    StreamConcat(s + [b], t);
    StreamConcat(s, [b]);
    StreamOne(b);
    InsertNothing(Stream(s), Carried(b), Stream(t));
  }

  lemma StreamOne(b: Bucket)
    ensures Stream([b]) == Carried(b)
  {
    assert [b][1..] == [] && Carried(b) + [] == Carried(b);
  }

  lemma InsertNothing<T>(a: seq<T>, b: seq<T>, c: seq<T>)
    ensures a + b + c == a + c <==> b == []
  {
    if b == [] { assert a + b == a; } else { assert |a + b + c| > |a + c|; }
  }

  lemma StreamNext(bs: seq<Bucket>, b: Bucket)
    ensures Stream(bs + [b]) == Stream(bs) + Carried(b)
  {
    StreamConcat(bs, [b]);
    StreamOne(b);
  }

  lemma StreamBetween(front: seq<Bucket>, b: Bucket, rest: seq<Bucket>)
    ensures Stream(front + [b] + rest) == Stream(front) + Carried(b) + Stream(rest)
  {
    StreamNext(front, b);
    StreamConcat(front + [b], rest);
  }

  lemma ThreeParts<T>(s: seq<T>, k: nat)
    requires k < |s|
    ensures s[..k] + [s[k]] + s[k + 1..] == s
  {
  }

  lemma Around(bs: seq<Bucket>, k: nat)
    requires k < |bs|
    ensures Stream(bs) == Stream(bs[..k]) + Carried(bs[k]) + Stream(bs[k + 1..])
  {
    ThreeParts(bs, k);
    StreamBetween(bs[..k], bs[k], bs[k + 1..]);
  }

  /** Every byte of every data bucket is in the stream, in its place. */
  lemma StreamHasByte(bs: seq<Bucket>, k: nat, i: nat)
    requires k < |bs| && !bs[k].kind.isMetadata && bs[k].length.Some? && i < bs[k].length.value
    ensures var at := |Stream(bs[..k])| + i;
            at < |Stream(bs)| && Stream(bs)[at] == Byte(bs[k].data[i])
  {
    Around(bs, k);
  }

  /** So is every metadata bucket and every bucket that has not been read, as one token. */
  lemma StreamHasToken(bs: seq<Bucket>, k: nat)
    requires k < |bs| && (bs[k].kind.isMetadata || bs[k].length.None?)
    ensures var at, b := |Stream(bs[..k])|, bs[k];
      && at < |Stream(bs)|
      && Stream(bs)[at] == if b.kind.isMetadata then Meta(b.kind, b.data) else Unread(b.kind, b.data)
  {
    Around(bs, k);
  }

  /** And nothing else is: a bucket takes up its length, or one for what is not data of known length. */
  ghost function Size(bs: seq<Bucket>): nat {
    if bs == [] then 0
    else
      var b := bs[|bs| - 1];
      Size(bs[..|bs| - 1]) + if b.kind.isMetadata || b.length.None? then 1 else b.length.value
  }

  lemma {:induction false} StreamLength(bs: seq<Bucket>)
    ensures |Stream(bs)| == Size(bs)
  {
    if bs != [] {
      var front, b := bs[..|bs| - 1], bs[|bs| - 1];
      StreamLength(front);
      StreamNext(front, b);
      assert bs == front + [b];
    }
  }

  /** The droppable buckets are exactly those that no stream ever misses. */
  lemma DroppableExactly(b: Bucket)
    ensures Droppable(b) <==> forall s: seq<Bucket>, t: seq<Bucket> :: Stream(s + [b] + t) == Stream(s + t)
  {
    if Droppable(b) {
      forall s: seq<Bucket>, t: seq<Bucket> ensures Stream(s + [b] + t) == Stream(s + t) { DropKeepsStream(s, b, t); }
    } else {
      var none: seq<Bucket> := [];
      StreamOne(b);
      assert none + [b] + none == [b] && none + none == none;
      assert Stream(none + [b] + none) != Stream(none + none);
    }
  }

  /** Where there is nothing droppable every bucket is needed. */
  lemma EachIsNeeded(bs: seq<Bucket>, k: nat)
    requires k < |bs| && !Droppable(bs[k])
    ensures Stream(bs[..k] + bs[k + 1..]) != Stream(bs)
  {
    Around(bs, k);
    StreamConcat(bs[..k], bs[k + 1..]);
    assert |Carried(bs[k])| > 0;
  }

  // ----- selections -----

  /** The elements of s that p selects, or those that it does not, in their order. */
  ghost function Where<T>(s: seq<T>, p: T -> bool, selected: bool): seq<T> {
    if s == [] then []
    else Where(s[..|s| - 1], p, selected) + if p(s[|s| - 1]) == selected then [s[|s| - 1]] else []
  }

  lemma WhereNext<T>(s: seq<T>, p: T -> bool, selected: bool, k: nat)
    requires k < |s|
    ensures Where(s[..k + 1], p, selected) == Where(s[..k], p, selected) + if p(s[k]) == selected then [s[k]] else []
  {
    assert s[..k + 1][..k] == s[..k];
  }

  lemma {:induction false} WhereMembers<T>(s: seq<T>, p: T -> bool, selected: bool)
    ensures forall x :: x in Where(s, p, selected) <==> x in s && p(x) == selected
  {
    if s != [] {
      WhereMembers(s[..|s| - 1], p, selected);
      assert s == s[..|s| - 1] + [s[|s| - 1]];
    }
  }

  /** Selection is stable: a selected s[k] comes right after those selected before it. */
  lemma {:induction false} WhereIsStable<T>(s: seq<T>, p: T -> bool, selected: bool, k: nat)
    requires k < |s| && p(s[k]) == selected
    ensures var i := |Where(s[..k], p, selected)|;
            i < |Where(s, p, selected)| && Where(s, p, selected)[i] == s[k]
  {
    var n := |s| - 1;
    if k == n {
      WhereNext(s, p, selected, n);
      assert s[..n + 1] == s;
    } else {
      WhereIsStable(s[..n], p, selected, k);
      assert s[..n][..k] == s[..k];
    }
  }

  /** Every element is in one of the two selections, once. */
  lemma {:induction false} WhereSplits<T>(s: seq<T>, p: T -> bool)
    ensures |Where(s, p, true)| + |Where(s, p, false)| == |s|
  {
    if s != [] { WhereSplits(s[..|s| - 1], p); }
  }

  /** Leaving out droppable buckets leaves the stream as it is. */
  lemma {:induction false} StrippedStream(bs: seq<Bucket>)
    ensures Stream(Where(bs, Droppable, false)) == Stream(bs)
  {
    if bs != [] {
      var front, b := bs[..|bs| - 1], bs[|bs| - 1];
      assert bs == front + [b] && bs == front + [b] + [] && front == front + [];
      StrippedStream(front);
      if Droppable(b) {
        DropKeepsStream(front, b, []);
        assert Where(bs, Droppable, false) == Where(front, Droppable, false);
      } else {
        StreamConcat(Where(front, Droppable, false), [b]);
        StreamConcat(front, [b]);
      }
    }
  }
}
