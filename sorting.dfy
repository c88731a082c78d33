/** The ordering MongoDB applies for `.sort({ createdAt: 1 })` and
    `.sort({ createdAt: -1 })`, as a stable insertion sort on an integer key.
    A descending sort is an ascending sort on the negated key. MongoDB leaves
    the order of equal keys unspecified; only sortedness and the permutation
    are promised by the contracts below. */
module Sorting {
  import opened Common

  /** Each key is at most the next one (lemma SortedByPairs). */
  ghost predicate SortedBy<T>(s: seq<T>, key: T -> int) {
    |s| <= 1 || (key(s[0]) <= key(s[1]) && SortedBy(s[1..], key))
  }

  /** In a sorted sequence any earlier key is at most any later one. */
  lemma {:induction false} SortedByPairs<T>(s: seq<T>, key: T -> int)
    requires SortedBy(s, key)
    ensures forall i, j :: 0 <= i < j < |s| ==> key(s[i]) <= key(s[j])
  {
    if |s| > 1 {
      var t := s[1..];
      SortedByPairs(t, key);
      forall i, j | 0 <= i < j < |s| ensures key(s[i]) <= key(s[j]) {
        if i == 0 {
          if j > 1 {
            assert key(t[0]) <= key(t[j - 1]);
          }
        } else {
          assert key(t[i - 1]) <= key(t[j - 1]);
        }
      }
    }
  }

  /** Two sequences of equal length whose keys agree position by position
      are sorted together. */
  lemma {:induction false} SortedByCorresponding<T, U>(r: seq<T>, s: seq<U>, f: T -> int, g: U -> int)
    requires |r| == |s| && SortedBy(s, g)
    requires forall k :: 0 <= k < |r| ==> f(r[k]) == g(s[k])
    ensures SortedBy(r, f)
  {
    if |r| > 1 {
      SortedByCorresponding(r[1..], s[1..], f, g);
    }
  }

  /** `x` placed before the first element whose key is larger. */
  function InsertSorted<T>(x: T, s: seq<T>, key: T -> int): (r: seq<T>)
    ensures |r| == |s| + 1
  {
    if s == [] then [x]
    else if key(x) <= key(s[0]) then [x] + s
    else [s[0]] + InsertSorted(x, s[1..], key)
  }

  /** Inserting into a sorted sequence keeps it sorted; the result starts
      with `x` or with the old first element. */
  lemma {:induction false} InsertSortedSorted<T>(x: T, s: seq<T>, key: T -> int)
    requires SortedBy(s, key)
    ensures SortedBy(InsertSorted(x, s, key), key)
    ensures InsertSorted(x, s, key)[0] == x || (s != [] && InsertSorted(x, s, key)[0] == s[0])
  {
    if s != [] {
      if key(x) <= key(s[0]) {
        assert ([x] + s)[1..] == s;
      } else {
        var t := InsertSorted(x, s[1..], key);
        InsertSortedSorted(x, s[1..], key);
        assert ([s[0]] + t)[1..] == t;
      }
    }
  }

  /** Inserting adds exactly one occurrence of `x`. */
  lemma {:induction false} InsertSortedPermutes<T>(x: T, s: seq<T>, key: T -> int)
    ensures multiset(InsertSorted(x, s, key)) == multiset(s) + multiset{x}
  {
    if s != [] && key(x) > key(s[0]) {
      InsertSortedPermutes(x, s[1..], key);
      assert s == [s[0]] + s[1..];
    }
  }

  /** The elements of `s` rearranged so that their keys never decrease
      (lemmas SortBySorted and SortByPermutes). */
  function SortBy<T>(s: seq<T>, key: T -> int): (r: seq<T>)
    ensures |r| == |s|
  {
    if s == [] then [] else InsertSorted(s[0], SortBy(s[1..], key), key)
  }

  /** The keys of a sorted sequence never decrease. */
  lemma {:induction false} SortBySorted<T>(s: seq<T>, key: T -> int)
    ensures SortedBy(SortBy(s, key), key)
  {
    if s != [] {
      SortBySorted(s[1..], key);
      InsertSortedSorted(s[0], SortBy(s[1..], key), key);
    }
  }

  /** Sorting rearranges: it keeps every element as often as it occurs. */
  lemma {:induction false} SortByPermutes<T>(s: seq<T>, key: T -> int)
    ensures multiset(SortBy(s, key)) == multiset(s)
  {
    if s != [] {
      SortByPermutes(s[1..], key);
      InsertSortedPermutes(s[0], SortBy(s[1..], key), key);
      assert s == [s[0]] + s[1..];
    }
  }

  /** A permutation has the same elements. */
  lemma PermutationKeepsElements<T>(s: seq<T>, r: seq<T>)
    requires multiset(r) == multiset(s)
    ensures forall x :: x in r <==> x in s
  {
    forall x ensures x in r <==> x in s {
      assert x in r <==> x in multiset(r);
      assert x in s <==> x in multiset(s);
    }
  }

  /** A sequence has no repetitions exactly when each element occurs once
      in its multiset. */
  lemma {:induction false} NoDuplicatesCount<T>(s: seq<T>)
    ensures NoDuplicates(s) <==> forall x :: multiset(s)[x] <= 1
  {
    if s != [] {
      var t := s[1..];
      NoDuplicatesCount(t);
      assert s == [s[0]] + t;
      assert multiset(s) == multiset{s[0]} + multiset(t);
      assert s[0] in t <==> multiset(t)[s[0]] >= 1;
      if forall x :: multiset(s)[x] <= 1 {
        assert multiset(s)[s[0]] <= 1;
        forall x ensures multiset(t)[x] <= 1 {
          assert multiset(s)[x] <= 1;
        }
        assert NoDuplicates(t) && s[0] !in t;
      }
    }
  }

  /** A permutation of a sequence without repetitions has none either. */
  lemma PermutationKeepsNoDuplicates<T>(s: seq<T>, r: seq<T>)
    requires multiset(r) == multiset(s) && NoDuplicates(s)
    ensures NoDuplicates(r)
  {
    NoDuplicatesCount(s);
    NoDuplicatesCount(r);
  }

  /** Sorting sorts, keeps the elements, and keeps a sequence free of
      repetitions. */
  lemma SortByKeeps<T>(s: seq<T>, key: T -> int)
    ensures SortedBy(SortBy(s, key), key)
    ensures forall x :: x in SortBy(s, key) <==> x in s
    ensures NoDuplicates(s) ==> NoDuplicates(SortBy(s, key))
  {
    SortBySorted(s, key);
    SortByPermutes(s, key);
    var r := SortBy(s, key);
    PermutationKeepsElements(s, r);
    if NoDuplicates(s) {
      PermutationKeepsNoDuplicates(s, r);
    }
  }
}
