/** `utils.SortingUtils`: sorting a copy of a list with `List.sort`, which is a
    stable sort. A comparator is a function to `int` where a result `<= 0`
    means "may stay before". */
module Sorting {
  import Text

  /** The part of the `Comparator` contract that sorting relies on: any two
      elements are ordered one way or the other, and "not after" is transitive. */
  ghost predicate TotalPreorder<T(!new)>(cmp: (T, T) -> int) {
    && (forall x, y :: cmp(x, y) <= 0 || cmp(y, x) <= 0)
    && (forall x, y, z :: cmp(x, y) <= 0 && cmp(y, z) <= 0 ==> cmp(x, z) <= 0)
  }

  /** `x` and `y` compare as equal. */
  predicate Equivalent<T>(cmp: (T, T) -> int, x: T, y: T) {
    cmp(x, y) <= 0 && cmp(y, x) <= 0
  }

  /** Every element is "not after" every later one. */
  predicate Sorted<T>(s: seq<T>, cmp: (T, T) -> int) {
    forall i, j :: 0 <= i < j < |s| ==> cmp(s[i], s[j]) <= 0
  }

  /** The elements of `s` that compare equal to `p`, in their order in `s`. */
  function Equivalents<T>(s: seq<T>, cmp: (T, T) -> int, p: T): seq<T> {
    if s == [] then []
    else Equivalents(s[..|s| - 1], cmp, p) + (if Equivalent(cmp, s[|s| - 1], p) then [s[|s| - 1]] else [])
  }

  /** A sort is stable when, for every element, the elements equal to it keep
      their relative order. */
  ghost predicate SameEquivalents<T(!new)>(s: seq<T>, t: seq<T>, cmp: (T, T) -> int) {
    forall p :: Equivalents(s, cmp, p) == Equivalents(t, cmp, p)
  }

  /** Inserts `x` after the last element that is not after it. */
  function Insert<T>(s: seq<T>, x: T, cmp: (T, T) -> int): (r: seq<T>)
    ensures |r| == |s| + 1
  {
    if s == [] then [x]
    else if cmp(s[|s| - 1], x) > 0 then Insert(s[..|s| - 1], x, cmp) + [s[|s| - 1]]
    else s + [x]
  }

  /** The reference stable sort: insert the elements one after the other. */
  function StableSorted<T>(s: seq<T>, cmp: (T, T) -> int): (r: seq<T>)
    ensures |r| == |s|
  {
    if s == [] then [] else Insert(StableSorted(s[..|s| - 1], cmp), s[|s| - 1], cmp)
  }

  lemma {:induction false} InsertMultiset<T>(s: seq<T>, x: T, cmp: (T, T) -> int)
    ensures multiset(Insert(s, x, cmp)) == multiset(s) + multiset{x}
  {
    if s != [] && cmp(s[|s| - 1], x) > 0 {
      InsertMultiset(s[..|s| - 1], x, cmp);
      assert s == s[..|s| - 1] + [s[|s| - 1]];
    }
  }

  /** The reference sort is a permutation of its input. */
  lemma {:induction false} StableSortedMultiset<T>(s: seq<T>, cmp: (T, T) -> int)
    ensures multiset(StableSorted(s, cmp)) == multiset(s)
  {
    if s != [] {
      StableSortedMultiset(s[..|s| - 1], cmp);
      InsertMultiset(StableSorted(s[..|s| - 1], cmp), s[|s| - 1], cmp);
      assert s == s[..|s| - 1] + [s[|s| - 1]];
    }
  }

  /** An upper bound of `s` and of `x` bounds the result of the insertion. */
  lemma {:induction false} InsertBounded<T>(s: seq<T>, x: T, cmp: (T, T) -> int, b: T)
    requires forall i :: 0 <= i < |s| ==> cmp(s[i], b) <= 0
    requires cmp(x, b) <= 0
    ensures forall i :: 0 <= i < |s| + 1 ==> cmp(Insert(s, x, cmp)[i], b) <= 0
  {
    if s != [] && cmp(s[|s| - 1], x) > 0 {
      InsertBounded(s[..|s| - 1], x, cmp, b);
    }
  }

  lemma {:induction false} InsertSorted<T(!new)>(s: seq<T>, x: T, cmp: (T, T) -> int)
    requires TotalPreorder(cmp) && Sorted(s, cmp)
    ensures Sorted(Insert(s, x, cmp), cmp)
  {
    if s != [] {
      var init, last := s[..|s| - 1], s[|s| - 1];
      if cmp(last, x) > 0 {
        assert Sorted(init, cmp);
        InsertSorted(init, x, cmp);
        InsertBounded(init, x, cmp, last);
        var r0 := Insert(init, x, cmp);
        assert Insert(s, x, cmp) == r0 + [last];
      } else {
        forall i | 0 <= i < |s| ensures cmp(s[i], x) <= 0 {
          if i < |s| - 1 {
            assert cmp(s[i], last) <= 0;
          }
        }
      }
    }
  }

  /** The reference sort orders its result. */
  lemma {:induction false} StableSortedSorted<T(!new)>(s: seq<T>, cmp: (T, T) -> int)
    requires TotalPreorder(cmp)
    ensures Sorted(StableSorted(s, cmp), cmp)
  {
    if s != [] {
      StableSortedSorted(s[..|s| - 1], cmp);
      InsertSorted(StableSorted(s[..|s| - 1], cmp), s[|s| - 1], cmp);
    }
  }

  lemma {:induction false} EquivalentsAppend<T>(s: seq<T>, t: seq<T>, cmp: (T, T) -> int, p: T)
    ensures Equivalents(s + t, cmp, p) == Equivalents(s, cmp, p) + Equivalents(t, cmp, p)
    decreases |t|
  {
    if t == [] {
      assert s + t == s;
    } else {
      assert (s + t)[..|s + t| - 1] == s + t[..|t| - 1];
      EquivalentsAppend(s, t[..|t| - 1], cmp, p);
    }
  }

  /** An element that `x` must move past is never in the same class as `x`. */
  lemma NotBothEquivalent<T(!new)>(cmp: (T, T) -> int, y: T, x: T, p: T)
    requires TotalPreorder(cmp) && cmp(y, x) > 0
    ensures !Equivalent(cmp, x, p) || !Equivalent(cmp, y, p)
  {
  }

  /** The class of `p` in a one-element sequence. */
  lemma EquivalentsSingleton<T>(x: T, cmp: (T, T) -> int, p: T)
    ensures Equivalents([x], cmp, p) == if Equivalent(cmp, x, p) then [x] else []
  {
    assert [x][..0] == [];
  }

  /** Two neighbours of different classes can swap without changing any class. */
  lemma EquivalentsSwapLast<T>(r: seq<T>, init: seq<T>, last: T, x: T, cmp: (T, T) -> int, p: T)
    requires Equivalents(r, cmp, p) == Equivalents(init + [x], cmp, p)
    requires !Equivalent(cmp, x, p) || !Equivalent(cmp, last, p)
    ensures Equivalents(r + [last], cmp, p) == Equivalents(init + [last] + [x], cmp, p)
  {
    EquivalentsSingleton(x, cmp, p);
    EquivalentsSingleton(last, cmp, p);
    EquivalentsAppend(r, [last], cmp, p);
    EquivalentsAppend(init, [x], cmp, p);
    EquivalentsAppend(init, [last], cmp, p);
    EquivalentsAppend(init + [last], [x], cmp, p);
  }

  /** Inserting `x` adds it at the end of its own equivalence class. */
  lemma {:induction false} InsertEquivalents<T(!new)>(s: seq<T>, x: T, cmp: (T, T) -> int, p: T)
    requires TotalPreorder(cmp)
    ensures Equivalents(Insert(s, x, cmp), cmp, p) == Equivalents(s + [x], cmp, p)
  {
    if s != [] && cmp(s[|s| - 1], x) > 0 {
      var init, last := s[..|s| - 1], s[|s| - 1];
      InsertEquivalents(init, x, cmp, p);
      NotBothEquivalent(cmp, last, x, p);
      assert Insert(s, x, cmp) == Insert(init, x, cmp) + [last];
      assert s == init + [last];
      EquivalentsSwapLast(Insert(init, x, cmp), init, last, x, cmp, p);
    }
  }

  /** The reference sort is stable. */
  lemma {:induction false} StableSortedStable<T(!new)>(s: seq<T>, cmp: (T, T) -> int)
    requires TotalPreorder(cmp)
    ensures SameEquivalents(StableSorted(s, cmp), s, cmp)
  {
    if s != [] {
      var init, last := s[..|s| - 1], s[|s| - 1];
      StableSortedStable(init, cmp);
      forall p ensures Equivalents(StableSorted(s, cmp), cmp, p) == Equivalents(s, cmp, p) {
        InsertEquivalents(StableSorted(init, cmp), last, cmp, p);
        EquivalentsAppend(StableSorted(init, cmp), [last], cmp, p);
        EquivalentsAppend(init, [last], cmp, p);
        assert s == init + [last];
      }
    }
  }

  /** Sorting a sorted sequence returns it as it is. */
  lemma {:induction false} StableSortedOfSorted<T>(s: seq<T>, cmp: (T, T) -> int)
    requires Sorted(s, cmp)
    ensures StableSorted(s, cmp) == s
  {
    if s != [] {
      var init, last := s[..|s| - 1], s[|s| - 1];
      assert Sorted(init, cmp) by {
        forall i, j | 0 <= i < j < |init| ensures cmp(init[i], init[j]) <= 0 {
          assert init[i] == s[i] && init[j] == s[j];
        }
      }
      StableSortedOfSorted(init, cmp);
      if init != [] {
        assert cmp(init[|init| - 1], last) <= 0 by {
          assert init[|init| - 1] == s[|s| - 2];
        }
      }
      assert StableSorted(s, cmp) == Insert(init, last, cmp) == init + [last];
      assert s == init + [last];
    }
  }

  /** Sorting twice is sorting once. */
  lemma StableSortedIdempotent<T(!new)>(s: seq<T>, cmp: (T, T) -> int)
    requires TotalPreorder(cmp)
    ensures StableSorted(StableSorted(s, cmp), cmp) == StableSorted(s, cmp)
  {
    StableSortedSorted(s, cmp);
    StableSortedOfSorted(StableSorted(s, cmp), cmp);
  }

  /** Inserting `x` puts it right after the last element that is not after
      it, when every later element is after it. */
  lemma {:induction false} InsertAt<T>(s: seq<T>, j: nat, x: T, cmp: (T, T) -> int)
    requires j <= |s| && (j == 0 || cmp(s[j - 1], x) <= 0)
    requires forall k :: j <= k < |s| ==> cmp(s[k], x) > 0
    ensures Insert(s, x, cmp) == s[..j] + [x] + s[j..]
  {
    if |s| == j {
      assert s[..j] == s && s[j..] == [];
    } else {
      var init, last := s[..|s| - 1], s[|s| - 1];
      assert cmp(last, x) > 0;
      InsertAt(init, j, x, cmp);
      assert init[..j] == s[..j] && init[j..] + [last] == s[j..];
    }
  }

  /** The array after the last write of an insertion step, read as a sequence. */
  lemma InsertAssembled<T>(c: seq<T>, prefix: seq<T>, j: nat, i: nat, x: T)
    requires j <= i == |prefix| < |c| && c[j] == x
    requires forall k :: 0 <= k < j ==> c[k] == prefix[k]
    requires forall k :: j < k <= i ==> c[k] == prefix[k - 1]
    ensures c[..i + 1] == prefix[..j] + [x] + prefix[j..]
  {
    var result := prefix[..j] + [x] + prefix[j..];
    forall k | 0 <= k <= i ensures c[k] == result[k] {
      if k < j {
        assert result[k] == prefix[k];
      } else if k > j {
        assert result[k] == prefix[k - 1];
      }
    }
  }

  /** One step of the insertion sort: moves `a[i]` down past the elements of
      the sorted prefix `a[..i]` that are after it. */
  method InsertStep<T>(a: array<T>, i: nat, cmp: (T, T) -> int)
    requires i < a.Length
    modifies a
    ensures a[..i + 1] == Insert(old(a[..i]), old(a[i]), cmp)
    ensures a[i + 1..] == old(a[i + 1..])
  {
    var x := a[i];
    ghost var prefix := a[..i];
    var j := i;
    while j > 0 && cmp(a[j - 1], x) > 0
      invariant 0 <= j <= i
      invariant forall k :: 0 <= k < j ==> a[k] == prefix[k]
      invariant forall k :: j < k <= i ==> a[k] == prefix[k - 1]
      invariant forall k :: j <= k < i ==> cmp(prefix[k], x) > 0
      invariant a[i + 1..] == old(a[i + 1..])
    {
      a[j] := a[j - 1];
      j := j - 1;
    }
    InsertAt(prefix, j, x, cmp);
    a[j] := x;
    InsertAssembled(a[..], prefix, j, i, x);
  }

  /** `sortBy`: copies the list into a fresh array and sorts the copy stably
      (an insertion sort). The caller's list is a value and cannot change. */
  method SortBy<T(!new)>(list: seq<T>, cmp: (T, T) -> int) returns (sorted: seq<T>)
    requires TotalPreorder(cmp)
    ensures sorted == StableSorted(list, cmp)
    ensures multiset(sorted) == multiset(list)
    ensures Sorted(sorted, cmp)
    ensures SameEquivalents(sorted, list, cmp)
  {
    var a := new T[|list|](i requires 0 <= i < |list| => list[i]);
    var i := 0;
    while i < a.Length
      invariant 0 <= i <= a.Length
      invariant a[..i] == StableSorted(list[..i], cmp)
      invariant a[i..] == list[i..]
    {
      assert list[..i + 1][..i] == list[..i];
      InsertStep(a, i, cmp);
      i := i + 1;
    }
    assert list[..a.Length] == list;
    sorted := a[..];
    StableSortedMultiset(list, cmp);
    StableSortedSorted(list, cmp);
    StableSortedStable(list, cmp);
  }

  /** `Comparator.reversed`. */
  function Reversed<T>(cmp: (T, T) -> int): (T, T) -> int {
    (x, y) => cmp(y, x)
  }

  lemma ReversedPreorder<T(!new)>(cmp: (T, T) -> int)
    requires TotalPreorder(cmp)
    ensures TotalPreorder(Reversed(cmp))
  {
  }

  /** `sortByDescending`: the stable sort by the reversed comparator, so each
      element is "not before" every later one and equal elements keep their
      order. */
  method SortByDescending<T(!new)>(list: seq<T>, cmp: (T, T) -> int) returns (sorted: seq<T>)
    requires TotalPreorder(cmp)
    ensures sorted == StableSorted(list, Reversed(cmp))
    ensures multiset(sorted) == multiset(list)
    ensures forall i, j :: 0 <= i < j < |sorted| ==> cmp(sorted[j], sorted[i]) <= 0
    ensures SameEquivalents(sorted, list, Reversed(cmp))
  {
    ReversedPreorder(cmp);
    sorted := SortBy(list, Reversed(cmp));
  }

  /** `Integer.compare`: the sign of `x - y`. */
  function IntegerCompare(x: int, y: int): (r: int)
    ensures r < 0 <==> x < y
    ensures r == 0 <==> x == y
    ensures -1 <= r <= 1
  {
    if x < y then -1 else if x == y then 0 else 1
  }

  /** The comparator of `sortStringsAlphabetically`. */
  function ByIgnoreCase(): (string, string) -> int {
    (a, b) => Text.CompareIgnoreCase(a, b)
  }

  /** The comparator of `sortStringsByLength`. */
  function ByLength(): (string, string) -> int {
    (a: string, b: string) => IntegerCompare(|a|, |b|)
  }

  lemma IgnoreCasePreorder()
    ensures TotalPreorder(ByIgnoreCase())
  {
    forall a, b ensures ByIgnoreCase()(a, b) <= 0 || ByIgnoreCase()(b, a) <= 0 {
      Text.CompareIgnoreCaseAntisymmetric(a, b);
    }
    forall a, b, c | ByIgnoreCase()(a, b) <= 0 && ByIgnoreCase()(b, c) <= 0
      ensures ByIgnoreCase()(a, c) <= 0
    {
      Text.CompareIgnoreCaseTransitive(a, b, c);
    }
  }

  lemma LengthPreorder()
    ensures TotalPreorder(ByLength())
  {
  }

  /** `sortStringsAlphabetically`: stably ordered ignoring case. */
  method SortStringsAlphabetically(strings: seq<string>) returns (sorted: seq<string>)
    ensures sorted == StableSorted(strings, ByIgnoreCase())
    ensures multiset(sorted) == multiset(strings)
    ensures forall i, j :: 0 <= i < j < |sorted| ==> Text.CompareIgnoreCase(sorted[i], sorted[j]) <= 0
  {
    IgnoreCasePreorder();
    sorted := SortBy(strings, ByIgnoreCase());
  }

  /** `sortStringsByLength`: stably ordered by length, so strings of the same
      length stay in their order. */
  method SortStringsByLength(strings: seq<string>) returns (sorted: seq<string>)
    ensures sorted == StableSorted(strings, ByLength())
    ensures multiset(sorted) == multiset(strings)
    ensures forall i, j :: 0 <= i < j < |sorted| ==> |sorted[i]| <= |sorted[j]|
    ensures SameEquivalents(sorted, strings, ByLength())
  {
    LengthPreorder();
    sorted := SortBy(strings, ByLength());
  }
}
