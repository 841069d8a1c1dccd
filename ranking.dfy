/**
 * `sortWithArray`, the comparator shared by both sorts of the player list: a value
 * ranks by its first position in a priority list, values missing from the list rank
 * last, and equal ranks fall back to JavaScript's string order.
 */
module Ranking {
  import opened JsNumber
  import opened Text
  import Sorting

  /** `arr.indexOf(x)`: the first position of `x` in `arr`, or -1. */
  function IndexOf(arr: seq<string>, x: string): (i: int)
    ensures -1 <= i < |arr|
    ensures i == -1 <==> x !in arr
    ensures 0 <= i ==> arr[i] == x && x !in arr[..i]
  {
    if |arr| == 0 then -1
    else if arr[0] == x then 0
    else
      var j := IndexOf(arr[1..], x);
      assert arr == [arr[0]] + arr[1..];
      assert 0 <= j ==> arr[..j + 1] == [arr[0]] + arr[1..][..j];
      if j == -1 then -1 else j + 1
  }

  /** `negOneToInf`: indexOf's "not found" becomes +Infinity, so it ranks after every position. */
  function NegOneToInf(num: int): Num {
    if num == -1 then Infinity else Finite(num)
  }

  /** `sortWithArray(a, b, arr)`: negative when `a` goes first, positive when `b` does. */
  function SortWithArray(a: string, b: string, arr: seq<string>): Num {
    var ai := NegOneToInf(IndexOf(arr, a));
    var bi := NegOneToInf(IndexOf(arr, b));
    if ai == bi then
      (if StrLess(a, b) then Finite(-1) else if StrLess(b, a) then Finite(1) else Finite(0))
    else
      Sub(ai, bi)
  }

  /** The comparator as the sort consumes it. */
  function PriorityOrder(arr: seq<string>): (string, string) -> int {
    (a: string, b: string) => Sign(SortWithArray(a, b, arr))
  }

  /** `a` occurs in `arr` at some position at or before which `b` does not occur. */
  ghost predicate OccursFirst(arr: seq<string>, a: string, b: string) {
    exists i | 0 <= i < |arr| :: arr[i] == a && b !in arr[..i + 1]
  }

  /**
   * The intended order, stated without indexOf: a listed value goes before an
   * unlisted one, two listed values go in the order they are first listed, and two
   * unlisted values go in string order.
   */
  ghost predicate Precedes(arr: seq<string>, a: string, b: string) {
    if a in arr && b in arr then OccursFirst(arr, a, b)
    else if a in arr then true
    else if b in arr then false
    else StrLess(a, b)
  }

  lemma OccursFirstIndex(arr: seq<string>, a: string, b: string)
    requires a in arr && b in arr
    ensures OccursFirst(arr, a, b) <==> IndexOf(arr, a) < IndexOf(arr, b)
  {
    var ia, ib := IndexOf(arr, a), IndexOf(arr, b);
    if ia < ib {
      assert arr[ia] == a && b !in arr[..ia + 1] by {
        assert arr[..ia + 1] == arr[..ib][..ia + 1];
      }
    }
    if OccursFirst(arr, a, b) {
      var i :| 0 <= i < |arr| && arr[i] == a && b !in arr[..i + 1];
      assert ia <= i;
      assert i < ib;
    }
  }

  /**
   * `sortWithArray` returns 0 only for equal values, and its sign is exactly the
   * intended order `Precedes`.
   */
  lemma SortWithArrayMeaning(a: string, b: string, arr: seq<string>)
    ensures SortWithArray(a, b, arr) == Finite(0) <==> a == b
    ensures Less(SortWithArray(a, b, arr), Finite(0)) <==> Precedes(arr, a, b)
    ensures Less(Finite(0), SortWithArray(a, b, arr)) <==> Precedes(arr, b, a)
  {
    StrLessIrreflexive(a);
    StrLessAsymmetric(a, b);
    StrLessTotal(a, b);
    if a in arr && b in arr {
      OccursFirstIndex(arr, a, b);
      OccursFirstIndex(arr, b, a);
    }
  }

  lemma PrecedesIrreflexive(arr: seq<string>, a: string)
    ensures !Precedes(arr, a, a)
  {
    StrLessIrreflexive(a);
    if a in arr {
      OccursFirstIndex(arr, a, a);
    }
  }

  lemma PrecedesAsymmetricTotal(arr: seq<string>, a: string, b: string)
    ensures Precedes(arr, a, b) ==> !Precedes(arr, b, a)
    ensures a == b || Precedes(arr, a, b) || Precedes(arr, b, a)
  {
    StrLessAsymmetric(a, b);
    StrLessTotal(a, b);
    if a in arr && b in arr {
      OccursFirstIndex(arr, a, b);
      OccursFirstIndex(arr, b, a);
    }
  }

  lemma PrecedesTransitive(arr: seq<string>, a: string, b: string, c: string)
    ensures Precedes(arr, a, b) && Precedes(arr, b, c) ==> Precedes(arr, a, c)
  {
    if StrLess(a, b) && StrLess(b, c) {
      StrLessTransitive(a, b, c);
    }
    if a in arr && b in arr && c in arr {
      OccursFirstIndex(arr, a, b);
      OccursFirstIndex(arr, b, c);
      OccursFirstIndex(arr, a, c);
    }
  }

  lemma PrecedesIsStrictTotalOrder(arr: seq<string>, a: string, b: string, c: string)
    ensures !Precedes(arr, a, a)
    ensures Precedes(arr, a, b) ==> !Precedes(arr, b, a)
    ensures Precedes(arr, a, b) && Precedes(arr, b, c) ==> Precedes(arr, a, c)
    ensures a == b || Precedes(arr, a, b) || Precedes(arr, b, a)
  {
    PrecedesIrreflexive(arr, a);
    PrecedesAsymmetricTotal(arr, a, b);
    PrecedesTransitive(arr, a, b, c);
  }

  /** `sortWithArray` is a consistent comparator, so the sorts using it are well defined. */
  lemma PriorityOrderConsistent(arr: seq<string>)
    ensures Sorting.Consistent(PriorityOrder(arr))
  {
    var cmp := PriorityOrder(arr);
    forall a, b ensures cmp(a, b) < 0 <==> cmp(b, a) > 0 {
      SortWithArrayMeaning(a, b, arr);
      SortWithArrayMeaning(b, a, arr);
    }
    forall a, b, c | cmp(a, b) <= 0 && cmp(b, c) <= 0 ensures cmp(a, c) <= 0 {
      SortWithArrayMeaning(a, b, arr);
      SortWithArrayMeaning(b, c, arr);
      SortWithArrayMeaning(a, c, arr);
      PrecedesIsStrictTotalOrder(arr, a, b, c);
    }
  }
}
