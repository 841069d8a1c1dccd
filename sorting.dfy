/**
 * `Array.prototype.sort` with a comparator, as the player-list code relies on it:
 * a stable sort. The engine's own algorithm is not part of the program, so the model
 * uses a stable insertion sort and proves that its result is the only sequence that
 * is sorted, is a permutation of the input and keeps tied elements in input order:
 * any stable sort returns exactly this sequence.
 *
 * A comparator here returns the sign of the JavaScript comparator's result.
 */
module Sorting {

  /**
   * A consistent comparator in the sense the sort requires: swapping the arguments
   * flips the sign, and "not after" is transitive. Ties (result 0) are then an
   * equivalence and "before" a strict weak order.
   */
  ghost predicate Consistent<T(!new)>(cmp: (T, T) -> int) {
    && (forall a, b :: cmp(a, b) < 0 <==> cmp(b, a) > 0)
    && (forall a, b, c :: cmp(a, b) <= 0 && cmp(b, c) <= 0 ==> cmp(a, c) <= 0)
  }

  ghost predicate Sorted<T>(xs: seq<T>, cmp: (T, T) -> int) {
    forall i, j | 0 <= i < j < |xs| :: cmp(xs[i], xs[j]) <= 0
  }

  /** The tie class of `e` that `x` alone contributes. */
  function Tie<T>(x: T, e: T, cmp: (T, T) -> int): seq<T> {
    if cmp(x, e) == 0 then [x] else []
  }

  /** The elements of `xs` that tie with `e`, in their order in `xs`. */
  function Ties<T>(xs: seq<T>, e: T, cmp: (T, T) -> int): seq<T> {
    if xs == [] then []
    else Tie(xs[0], e, cmp) + Ties(xs[1..], e, cmp)
  }

  /** A sort is stable when every class of tied elements keeps its input order. */
  ghost predicate StableFor<T(!new)>(r: seq<T>, xs: seq<T>, cmp: (T, T) -> int) {
    forall e :: Ties(r, e, cmp) == Ties(xs, e, cmp)
  }

  /** Puts `x` in front of the first element it does not sort after. */
  function Insert<T>(x: T, ys: seq<T>, cmp: (T, T) -> int): (r: seq<T>)
    ensures multiset(r) == multiset(ys) + multiset{x}
    ensures |r| == |ys| + 1
  {
    if ys == [] then [x]
    else if cmp(x, ys[0]) <= 0 then [x] + ys
    else
      assert ys == [ys[0]] + ys[1..];
      [ys[0]] + Insert(x, ys[1..], cmp)
  }

  function Sort<T>(xs: seq<T>, cmp: (T, T) -> int): (r: seq<T>)
    ensures multiset(r) == multiset(xs)
    ensures |r| == |xs|
  {
    if xs == [] then []
    else
      assert xs == [xs[0]] + xs[1..];
      Insert(xs[0], Sort(xs[1..], cmp), cmp)
  }

  lemma ConsistentTies<T(!new)>(cmp: (T, T) -> int, a: T, b: T, c: T)
    requires Consistent(cmp)
    ensures cmp(a, a) == 0
    ensures cmp(a, b) == 0 <==> cmp(b, a) == 0
    ensures cmp(a, b) <= 0 && cmp(b, a) <= 0 ==> cmp(a, b) == 0
    ensures cmp(a, c) == 0 && cmp(b, c) == 0 ==> cmp(a, b) == 0
  {
    if cmp(a, c) == 0 && cmp(b, c) == 0 {
      assert cmp(c, b) <= 0 && cmp(c, a) <= 0;
    }
  }

  lemma {:induction false} InsertSorted<T(!new)>(x: T, ys: seq<T>, cmp: (T, T) -> int)
    requires Consistent(cmp) && Sorted(ys, cmp)
    ensures Sorted(Insert(x, ys, cmp), cmp)
  {
    if ys != [] && cmp(x, ys[0]) > 0 {
      var t := Insert(x, ys[1..], cmp);
      InsertSorted(x, ys[1..], cmp);
      InsertMembers(x, ys[1..], cmp);
      HeadBound(ys, cmp);
      assert cmp(ys[0], x) < 0;
      SortedCons(ys[0], t, cmp);
    }
  }

  lemma InsertMembers<T>(x: T, ys: seq<T>, cmp: (T, T) -> int)
    ensures forall z | z in Insert(x, ys, cmp) :: z == x || z in ys
  {
    forall z | z in Insert(x, ys, cmp) ensures z == x || z in ys {
      assert z in multiset(Insert(x, ys, cmp));
    }
  }

  lemma HeadBound<T>(ys: seq<T>, cmp: (T, T) -> int)
    requires ys != [] && Sorted(ys, cmp)
    ensures forall z | z in ys[1..] :: cmp(ys[0], z) <= 0
  {
    forall z | z in ys[1..] ensures cmp(ys[0], z) <= 0 {
      var j :| 0 <= j < |ys[1..]| && ys[1..][j] == z;
      assert ys[j + 1] == z;
    }
  }

  lemma SortedCons<T>(y: T, t: seq<T>, cmp: (T, T) -> int)
    requires Sorted(t, cmp) && forall z | z in t :: cmp(y, z) <= 0
    ensures Sorted([y] + t, cmp)
  {
    var r := [y] + t;
    forall i, j | 0 <= i < j < |r| ensures cmp(r[i], r[j]) <= 0 {
      assert r[j] == t[j - 1];
      if i > 0 {
        assert r[i] == t[i - 1];
      }
    }
  }

  lemma {:induction false} SortSorted<T(!new)>(xs: seq<T>, cmp: (T, T) -> int)
    requires Consistent(cmp)
    ensures Sorted(Sort(xs, cmp), cmp)
  {
    if xs != [] {
      SortSorted(xs[1..], cmp);
      InsertSorted(xs[0], Sort(xs[1..], cmp), cmp);
    }
  }

  lemma SortedTail<T>(ys: seq<T>, cmp: (T, T) -> int)
    requires ys != [] && Sorted(ys, cmp)
    ensures Sorted(ys[1..], cmp)
  {
    var rest := ys[1..];
    forall i, j | 0 <= i < j < |rest| ensures cmp(rest[i], rest[j]) <= 0 {
      assert rest[i] == ys[i + 1] && rest[j] == ys[j + 1];
    }
  }

  lemma TiesCons<T>(y: T, rest: seq<T>, e: T, cmp: (T, T) -> int)
    ensures Ties([y] + rest, e, cmp) == Tie(y, e, cmp) + Ties(rest, e, cmp)
  {
    assert ([y] + rest)[1..] == rest;
  }

  lemma InsertStep<T>(x: T, ys: seq<T>, cmp: (T, T) -> int)
    requires ys != [] && cmp(x, ys[0]) > 0
    ensures Insert(x, ys, cmp) == [ys[0]] + Insert(x, ys[1..], cmp)
  {
  }

  lemma SwapEmpty<T>(a: seq<T>, b: seq<T>, rest: seq<T>)
    requires a == [] || b == []
    ensures a + (b + rest) == b + (a + rest)
  {
    if a == [] {
      assert a + (b + rest) == b + rest == b + (a + rest);
    } else {
      assert a + (b + rest) == a + rest == b + (a + rest);
    }
  }

  lemma {:induction false} InsertTies<T(!new)>(x: T, ys: seq<T>, e: T, cmp: (T, T) -> int)
    requires Consistent(cmp) && Sorted(ys, cmp)
    ensures Ties(Insert(x, ys, cmp), e, cmp) == Tie(x, e, cmp) + Ties(ys, e, cmp)
  {
    if ys == [] {
      assert Insert(x, ys, cmp) == [x] + ys;
      TiesCons(x, ys, e, cmp);
    } else if cmp(x, ys[0]) <= 0 {
      assert Insert(x, ys, cmp) == [x] + ys;
      TiesCons(x, ys, e, cmp);
    } else {
      var y, rest := ys[0], ys[1..];
      SortedTail(ys, cmp);
      InsertTies(x, rest, e, cmp);
      ConsistentTies(cmp, x, y, e);
      InsertStep(x, ys, cmp);
      TiesCons(y, Insert(x, rest, cmp), e, cmp);
      assert ys == [y] + rest;
      TiesCons(y, rest, e, cmp);
      SwapEmpty(Tie(y, e, cmp), Tie(x, e, cmp), Ties(rest, e, cmp));
    }
  }

  lemma {:induction false} SortStable<T(!new)>(xs: seq<T>, e: T, cmp: (T, T) -> int)
    requires Consistent(cmp)
    ensures Ties(Sort(xs, cmp), e, cmp) == Ties(xs, e, cmp)
  {
    if xs != [] {
      SortStable(xs[1..], e, cmp);
      SortSorted(xs[1..], cmp);
      InsertTies(xs[0], Sort(xs[1..], cmp), e, cmp);
    }
  }

  /** The insertion sort is a stable sort: sorted, a permutation, stable. */
  lemma IsStableSort<T(!new)>(xs: seq<T>, cmp: (T, T) -> int)
    requires Consistent(cmp)
    ensures Sorted(Sort(xs, cmp), cmp)
    ensures multiset(Sort(xs, cmp)) == multiset(xs)
    ensures StableFor(Sort(xs, cmp), xs, cmp)
  {
    SortSorted(xs, cmp);
    forall e ensures Ties(Sort(xs, cmp), e, cmp) == Ties(xs, e, cmp) {
      SortStable(xs, e, cmp);
    }
  }

  /** The first element of a sorted sequence sorts no later than any element of it. */
  lemma SortedFirst<T(!new)>(r: seq<T>, b: T, cmp: (T, T) -> int)
    requires Consistent(cmp) && Sorted(r, cmp) && b in r
    ensures cmp(r[0], b) <= 0
  {
    var j :| 0 <= j < |r| && r[j] == b;
    if j == 0 {
      ConsistentTies(cmp, b, b, b);
    }
  }

  lemma TailMultiset<T>(r: seq<T>)
    requires r != []
    ensures multiset(r[1..]) == multiset(r) - multiset{r[0]}
  {
    assert r == [r[0]] + r[1..];
  }

  lemma SameMultisetTail<T>(r1: seq<T>, r2: seq<T>)
    requires r1 != [] && r2 != [] && r1[0] == r2[0] && multiset(r1) == multiset(r2)
    ensures multiset(r1[1..]) == multiset(r2[1..])
  {
    TailMultiset(r1);
    TailMultiset(r2);
  }

  lemma CancelPrefix<T>(p: seq<T>, x: seq<T>, y: seq<T>)
    requires p + x == p + y
    ensures x == y
  {
    assert x == (p + x)[|p|..];
    assert y == (p + y)[|p|..];
  }

  /** The heads of two sorted permutations of each other tie. */
  lemma HeadsTie<T(!new)>(r1: seq<T>, r2: seq<T>, cmp: (T, T) -> int)
    requires Consistent(cmp) && Sorted(r1, cmp) && Sorted(r2, cmp)
    requires r1 != [] && multiset(r1) == multiset(r2)
    ensures r2 != [] && cmp(r1[0], r1[0]) == 0 && cmp(r2[0], r1[0]) == 0
  {
    assert |multiset(r2)| == |r1| > 0;
    var a, b := r1[0], r2[0];
    assert b in multiset(r1) && a in multiset(r2);
    SortedFirst(r1, b, cmp);
    SortedFirst(r2, a, cmp);
    ConsistentTies(cmp, b, a, a);
  }

  /** A sequence whose head ties with `e` lists that head first among the ties of `e`. */
  lemma TiesHead<T>(r: seq<T>, e: T, cmp: (T, T) -> int)
    requires r != [] && cmp(r[0], e) == 0
    ensures Ties(r, e, cmp) != [] && Ties(r, e, cmp)[0] == r[0]
  {
    assert Tie(r[0], e, cmp) == [r[0]];
  }

  /** Sorted permutations of each other whose tie classes agree start alike. */
  lemma SortedTiesHead<T(!new)>(r1: seq<T>, r2: seq<T>, cmp: (T, T) -> int)
    requires Consistent(cmp) && Sorted(r1, cmp) && Sorted(r2, cmp)
    requires r1 != [] && multiset(r1) == multiset(r2)
    requires StableFor(r1, r2, cmp)
    ensures r2 != [] && r1[0] == r2[0]
  {
    HeadsTie(r1, r2, cmp);
    TiesHead(r1, r1[0], cmp);
    TiesHead(r2, r1[0], cmp);
    assert Ties(r1, r1[0], cmp) == Ties(r2, r1[0], cmp);
  }

  /** With equal heads, the tails' tie classes agree too. */
  lemma TailTies<T(!new)>(r1: seq<T>, r2: seq<T>, cmp: (T, T) -> int)
    requires r1 != [] && r2 != [] && r1[0] == r2[0]
    requires StableFor(r1, r2, cmp)
    ensures StableFor(r1[1..], r2[1..], cmp)
  {
    var a := r1[0];
    assert r1 == [a] + r1[1..] && r2 == [a] + r2[1..];
    forall e ensures Ties(r1[1..], e, cmp) == Ties(r2[1..], e, cmp) {
      TiesCons(a, r1[1..], e, cmp);
      TiesCons(a, r2[1..], e, cmp);
      assert Ties(r1, e, cmp) == Ties(r2, e, cmp);
      CancelPrefix(Tie(a, e, cmp), Ties(r1[1..], e, cmp), Ties(r2[1..], e, cmp));
    }
  }

  /** Two sorted permutations of each other whose tie classes agree are equal. */
  lemma {:induction false} SortedTiesDetermine<T(!new)>(r1: seq<T>, r2: seq<T>, cmp: (T, T) -> int)
    requires Consistent(cmp) && Sorted(r1, cmp) && Sorted(r2, cmp)
    requires multiset(r1) == multiset(r2)
    requires StableFor(r1, r2, cmp)
    ensures r1 == r2
    decreases |r1|
  {
    if r1 == [] {
      assert |multiset(r2)| == 0;
    } else {
      SortedTiesHead(r1, r2, cmp);
      SameMultisetTail(r1, r2);
      SortedTail(r1, cmp);
      SortedTail(r2, cmp);
      TailTies(r1, r2, cmp);
      SortedTiesDetermine(r1[1..], r2[1..], cmp);
      assert r1 == [r1[0]] + r1[1..] && r2 == [r2[0]] + r2[1..];
    }
  }

  /**
   * Any stable sort returns what `Sort` returns: a sorted permutation that keeps
   * every class of tied elements in input order is unique.
   */
  lemma StableSortIsUnique<T(!new)>(xs: seq<T>, r: seq<T>, cmp: (T, T) -> int)
    requires Consistent(cmp)
    requires Sorted(r, cmp) && multiset(r) == multiset(xs) && StableFor(r, xs, cmp)
    ensures r == Sort(xs, cmp)
  {
    IsStableSort(xs, cmp);
    SortedTiesDetermine(r, Sort(xs, cmp), cmp);
  }

  /** Sorting what is already sorted changes nothing. */
  lemma SortOfSorted<T(!new)>(xs: seq<T>, cmp: (T, T) -> int)
    requires Consistent(cmp) && Sorted(xs, cmp)
    ensures Sort(xs, cmp) == xs
  {
    StableSortIsUnique(xs, xs, cmp);
  }
}
