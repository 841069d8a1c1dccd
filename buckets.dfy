/**
 * The `[key, items]` pairs `sortAreas` builds and returns, and the facts about
 * mapping and flattening sequences of them that its permutation argument needs.
 */
module Buckets {

  /** A `[area, items]` pair. */
  datatype Bucket<T> = Bucket(area: string, members: seq<T>)

  function Members<T>(b: Bucket<T>): seq<T> {
    b.members
  }

  function Keys<T>(bs: seq<Bucket<T>>): (ks: seq<string>)
    ensures |ks| == |bs| && forall i | 0 <= i < |bs| :: ks[i] == bs[i].area
  {
    if bs == [] then [] else [bs[0].area] + Keys(bs[1..])
  }

  lemma FirstKey<T>(bs: seq<Bucket<T>>)
    ensures bs != [] ==> bs[0].area in Keys(bs)
  {
  }

  predicate DistinctKeys<T>(bs: seq<Bucket<T>>) {
    forall i, j | 0 <= i < j < |bs| :: bs[i].area != bs[j].area
  }

  /** `xs.map(f)`. */
  function Map<T, U>(f: T -> U, xs: seq<T>): (r: seq<U>)
    ensures |r| == |xs| && forall i | 0 <= i < |xs| :: r[i] == f(xs[i])
  {
    if xs == [] then [] else [f(xs[0])] + Map(f, xs[1..])
  }

  /** `f` of each element of `xs`, concatenated in order. */
  function FlatMap<T, U>(f: T -> seq<U>, xs: seq<T>): seq<U> {
    if xs == [] then [] else f(xs[0]) + FlatMap(f, xs[1..])
  }

  /** Every item of every bucket, bucket by bucket. */
  function Flatten<T>(bs: seq<Bucket<T>>): seq<T> {
    FlatMap(Members, bs)
  }

  lemma {:induction false} MapAppend<T, U>(f: T -> U, a: seq<T>, b: seq<T>)
    ensures Map(f, a + b) == Map(f, a) + Map(f, b)
  {
  }

  lemma {:induction false} FlatMapAppend<T, U>(f: T -> seq<U>, a: seq<T>, b: seq<T>)
    ensures FlatMap(f, a + b) == FlatMap(f, a) + FlatMap(f, b)
    decreases |a|
  {
    if a != [] {
      calc {
        FlatMap(f, a + b);
        { assert (a + b)[0] == a[0] && (a + b)[1..] == a[1..] + b; }
        f(a[0]) + FlatMap(f, a[1..] + b);
        { FlatMapAppend(f, a[1..], b); }
        f(a[0]) + (FlatMap(f, a[1..]) + FlatMap(f, b));
        FlatMap(f, a) + FlatMap(f, b);
      }
    } else {
      assert a + b == b;
    }
  }

  /** Removing the element at `j` from a sequence leaves its multiset less that element. */
  lemma RemoveAt<T>(b: seq<T>, j: nat)
    requires j < |b|
    ensures b == b[..j] + [b[j]] + b[j + 1..]
    ensures multiset(b[..j] + b[j + 1..]) == multiset(b) - multiset{b[j]}
  {
    assert b == b[..j] + [b[j]] + b[j + 1..];
  }

  lemma MapCat<T, U>(f: T -> U, x: T, b: seq<T>)
    ensures Map(f, [x] + b) == [f(x)] + Map(f, b)
  {
    assert ([x] + b)[1..] == b;
  }

  lemma MapSplitAt<T, U>(f: T -> U, b: seq<T>, j: nat)
    requires j < |b|
    ensures Map(f, b) == Map(f, b[..j]) + ([f(b[j])] + Map(f, b[j + 1..]))
  {
    var tail := b[j..];
    assert b[..j] + tail == b;
    MapAppend(f, b[..j], tail);
    assert tail == [b[j]] + b[j + 1..];
    MapCat(f, b[j], b[j + 1..]);
  }

  lemma MultisetSplit<U>(m: seq<U>, x: seq<U>, y: U, z: seq<U>)
    requires m == x + ([y] + z)
    ensures multiset(m) == multiset(x + z) + multiset{y}
  {
  }

  /** Mapping a sequence with one element taken out. */
  lemma MapRemoveAt<T, U>(f: T -> U, b: seq<T>, j: nat)
    requires j < |b|
    ensures multiset(Map(f, b)) == multiset(Map(f, b[..j] + b[j + 1..])) + multiset{f(b[j])}
  {
    MapSplitAt(f, b, j);
    MapAppend(f, b[..j], b[j + 1..]);
    MultisetSplit(Map(f, b), Map(f, b[..j]), f(b[j]), Map(f, b[j + 1..]));
  }

  lemma MapCons<T, U>(f: T -> U, a: seq<T>)
    requires a != []
    ensures multiset(Map(f, a)) == multiset(Map(f, a[1..])) + multiset{f(a[0])}
  {
    assert Map(f, a) == [f(a[0])] + Map(f, a[1..]);
  }

  lemma HeadSplit<T>(a: seq<T>)
    requires a != []
    ensures multiset(a[1..]) == multiset(a) - multiset{a[0]}
  {
    assert a == [a[0]] + a[1..];
  }

  /** Where the head of `a` sits in a permutation `b` of it, and what is left of both. */
  lemma MatchHead<T>(a: seq<T>, b: seq<T>) returns (j: nat)
    requires a != [] && multiset(a) == multiset(b)
    ensures j < |b| && b[j] == a[0]
    ensures multiset(a[1..]) == multiset(b[..j] + b[j + 1..])
  {
    assert a[0] in multiset(b);
    j :| 0 <= j < |b| && b[j] == a[0];
    RemoveAt(b, j);
    HeadSplit(a);
  }

  /** Mapping a permutation gives a permutation. */
  lemma {:induction false} MapPermutation<T, U>(f: T -> U, a: seq<T>, b: seq<T>)
    requires multiset(a) == multiset(b)
    ensures multiset(Map(f, a)) == multiset(Map(f, b))
    decreases |a|
  {
    if a != [] {
      var j := MatchHead(a, b);
      MapPermutation(f, a[1..], b[..j] + b[j + 1..]);
      MapRemoveAt(f, b, j);
      MapCons(f, a);
    }
  }

  lemma FlatMapSplitAt<T, U>(f: T -> seq<U>, b: seq<T>, j: nat)
    requires j < |b|
    ensures FlatMap(f, b) == FlatMap(f, b[..j]) + (f(b[j]) + FlatMap(f, b[j + 1..]))
  {
    assert b[..j] + b[j..] == b;
    FlatMapAppend(f, b[..j], b[j..]);
    assert b[j..] == [b[j]] + b[j + 1..];
    FlatMapAppend(f, [b[j]], b[j + 1..]);
    assert [b[j]][1..] == [];
  }

  lemma MultisetSplitSeq<U>(m: seq<U>, x: seq<U>, y: seq<U>, z: seq<U>)
    requires m == x + (y + z)
    ensures multiset(m) == multiset(x + z) + multiset(y)
  {
  }

  /** Flat-mapping a sequence with one element taken out. */
  lemma FlatMapRemoveAt<T, U>(f: T -> seq<U>, b: seq<T>, j: nat)
    requires j < |b|
    ensures multiset(FlatMap(f, b)) == multiset(FlatMap(f, b[..j] + b[j + 1..])) + multiset(f(b[j]))
  {
    FlatMapSplitAt(f, b, j);
    FlatMapAppend(f, b[..j], b[j + 1..]);
    MultisetSplitSeq(FlatMap(f, b), FlatMap(f, b[..j]), f(b[j]), FlatMap(f, b[j + 1..]));
  }

  lemma FlatMapCons<T, U>(f: T -> seq<U>, a: seq<T>)
    requires a != []
    ensures multiset(FlatMap(f, a)) == multiset(FlatMap(f, a[1..])) + multiset(f(a[0]))
  {
    assert FlatMap(f, a) == f(a[0]) + FlatMap(f, a[1..]);
  }

  /** Flat-mapping a permutation gives a permutation. */
  lemma {:induction false} FlatMapPermutation<T, U>(f: T -> seq<U>, a: seq<T>, b: seq<T>)
    requires multiset(a) == multiset(b)
    ensures multiset(FlatMap(f, a)) == multiset(FlatMap(f, b))
    decreases |a|
  {
    if a != [] {
      var j := MatchHead(a, b);
      FlatMapPermutation(f, a[1..], b[..j] + b[j + 1..]);
      FlatMapRemoveAt(f, b, j);
      FlatMapCons(f, a);
    }
  }

  /** Replacing each bucket's items by a permutation of them permutes the flattening. */
  lemma {:induction false} FlattenPointwise<T>(a: seq<Bucket<T>>, b: seq<Bucket<T>>)
    requires |a| == |b| && forall i | 0 <= i < |a| :: multiset(a[i].members) == multiset(b[i].members)
    ensures multiset(Flatten(a)) == multiset(Flatten(b))
    decreases |a|
  {
    if a != [] {
      FlattenPointwise(a[1..], b[1..]);
    }
  }

  /** One more item at the end of bucket `j` is one more item in the flattening. */
  lemma {:induction false} FlattenPush<T>(bs: seq<Bucket<T>>, j: nat, x: T)
    requires j < |bs|
    ensures multiset(Flatten(bs[j := Bucket(bs[j].area, bs[j].members + [x])]))
         == multiset(Flatten(bs)) + multiset{x}
    decreases |bs|
  {
    var bs' := bs[j := Bucket(bs[j].area, bs[j].members + [x])];
    if j == 0 {
      assert bs'[1..] == bs[1..];
    } else {
      assert bs'[1..] == bs[1..][j - 1 := Bucket(bs[j].area, bs[j].members + [x])];
      FlattenPush(bs[1..], j - 1, x);
    }
  }

  /** An item of the flattening is an item of some bucket. */
  lemma {:induction false} FlattenMember<T>(bs: seq<Bucket<T>>, x: T)
    requires x in Flatten(bs)
    ensures exists i | 0 <= i < |bs| :: x in bs[i].members
    decreases |bs|
  {
    assert Flatten(bs) == bs[0].members + Flatten(bs[1..]);
    if x !in bs[0].members {
      FlattenMember(bs[1..], x);
      var i :| 0 <= i < |bs[1..]| && x in bs[1..][i].members;
      assert bs[i + 1] == bs[1..][i];
    }
  }

  /** A new bucket at the end adds its items to the flattening. */
  lemma FlattenSnoc<T>(bs: seq<Bucket<T>>, b: Bucket<T>)
    ensures Flatten(bs + [b]) == Flatten(bs) + b.members
  {
    FlatMapAppend(Members, bs, [b]);
    assert [b][1..] == [];
  }

  /** Putting back at `j` a bucket whose key the others lack keeps the keys distinct. */
  lemma DistinctInsert<T>(b: seq<Bucket<T>>, j: nat)
    requires j < |b|
    requires DistinctKeys(b[..j] + b[j + 1..])
    requires forall y | y in b[..j] + b[j + 1..] :: y.area != b[j].area
    ensures DistinctKeys(b)
  {
    var rest := b[..j] + b[j + 1..];
    forall i, k | 0 <= i < k < |b| ensures b[i].area != b[k].area {
      if i == j {
        assert b[k] == rest[k - 1];
      } else if k == j {
        assert b[i] == rest[i];
      } else {
        var ri := if i < j then i else i - 1;
        var rk := if k < j then k else k - 1;
        assert b[i] == rest[ri] && b[k] == rest[rk];
      }
    }
  }

  lemma DistinctTail<T>(a: seq<Bucket<T>>)
    requires a != [] && DistinctKeys(a)
    ensures DistinctKeys(a[1..])
  {
    forall i, k | 0 <= i < k < |a| - 1 ensures a[1..][i].area != a[1..][k].area {
      assert a[1..][i] == a[i + 1] && a[1..][k] == a[k + 1];
    }
  }

  lemma HeadKeyNotInTail<T>(a: seq<Bucket<T>>, rest: seq<Bucket<T>>)
    requires a != [] && DistinctKeys(a) && multiset(a[1..]) == multiset(rest)
    ensures forall y | y in rest :: y.area != a[0].area
  {
    forall y | y in rest ensures y.area != a[0].area {
      assert y in multiset(a[1..]);
      var p :| 0 <= p < |a[1..]| && a[1..][p] == y;
      assert a[p + 1] == y;
    }
  }

  /** Permuting buckets with distinct keys keeps the keys distinct. */
  lemma {:induction false} DistinctKeysPermutation<T>(a: seq<Bucket<T>>, b: seq<Bucket<T>>)
    requires multiset(a) == multiset(b) && DistinctKeys(a)
    ensures DistinctKeys(b)
    decreases |a|
  {
    if a == [] {
      assert |multiset(b)| == 0;
    } else {
      var j := MatchHead(a, b);
      var rest := b[..j] + b[j + 1..];
      DistinctTail(a);
      DistinctKeysPermutation(a[1..], rest);
      HeadKeyNotInTail(a, rest);
      DistinctInsert(b, j);
    }
  }

  /** Permuted buckets have the same keys. */
  lemma KeysPermutation<T>(a: seq<Bucket<T>>, b: seq<Bucket<T>>)
    requires multiset(a) == multiset(b)
    ensures forall k :: k in Keys(a) <==> k in Keys(b)
  {
    forall k | k in Keys(a) ensures k in Keys(b) {
      var i :| 0 <= i < |a| && Keys(a)[i] == k;
      assert a[i] in multiset(b);
      var j :| 0 <= j < |b| && b[j] == a[i];
      assert Keys(b)[j] == k;
    }
    forall k | k in Keys(b) ensures k in Keys(a) {
      var j :| 0 <= j < |b| && Keys(b)[j] == k;
      assert b[j] in multiset(a);
      var i :| 0 <= i < |a| && a[i] == b[j];
      assert Keys(a)[i] == k;
    }
  }
}
