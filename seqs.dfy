/** Sequence operations the dashboard relies on, independent of its data:
    order-preserving selection (a boolean mask), first-appearance
    de-duplication (pandas `unique`), and sorting under a strict weak order
    (`sorted`, `sort_values`). */
module Seqs {

  /** No element occurs twice. */
  predicate NoDups<T(==)>(s: seq<T>) {
    forall i, j :: 0 <= i < j < |s| ==> s[i] != s[j]
  }

  /** Position of the first occurrence of `x` in `s`. */
  function IndexOf<T(==)>(s: seq<T>, x: T): (k: nat)
    requires x in s
    ensures k < |s| && s[k] == x
    ensures forall j :: 0 <= j < k ==> s[j] != x
  {
    if s[0] == x then 0 else 1 + IndexOf(s[1..], x)
  }

  // ---------------------------------------------------------------------
  // Boolean-mask selection

  /** The elements of `s` that satisfy `p`, in their original order. */
  function Keep<T(!new,==)>(s: seq<T>, p: T -> bool): (r: seq<T>)
    ensures forall x :: multiset(r)[x] == if p(x) then multiset(s)[x] else 0
    ensures forall x :: x in r <==> x in s && p(x)
  {
    if s == [] then []
    else
      var n := |s| - 1;
      var r0 := Keep(s[..n], p);
      assert s == s[..n] + [s[n]];
      if p(s[n]) then r0 + [s[n]] else r0
  }

  /** A mask that every element satisfies keeps every element, as often as it occurs. */
  lemma KeepEverything<T(!new)>(s: seq<T>, p: T -> bool)
    requires forall i :: 0 <= i < |s| ==> p(s[i])
    ensures multiset(Keep(s, p)) == multiset(s)
  {
    forall x ensures multiset(Keep(s, p))[x] == multiset(s)[x] {
      if x in s {
        var i :| 0 <= i < |s| && s[i] == x;
        assert p(x);
      }
    }
  }

  /** `sub` can be obtained from `s` by deleting elements (order kept). */
  ghost predicate SubsequenceOf<T>(sub: seq<T>, s: seq<T>)
    decreases |s|
  {
    if sub == [] then true
    else if s == [] then false
    else if sub[|sub| - 1] == s[|s| - 1] then SubsequenceOf(sub[..|sub| - 1], s[..|s| - 1])
    else SubsequenceOf(sub, s[..|s| - 1])
  }

  /** A mask never reorders: what it keeps is a subsequence of its input. */
  lemma {:induction false} KeepIsSubsequence<T(!new)>(s: seq<T>, p: T -> bool)
    ensures SubsequenceOf(Keep(s, p), s)
  {
    if s != [] {
      var n := |s| - 1;
      KeepIsSubsequence(s[..n], p);
      if !p(s[n]) {
        var r := Keep(s, p);
        if r != [] {
          KeepLastNotRejected(s[..n], p, s[n]);
        }
      }
    }
  }

  /** An element rejected by `p` can never be the last element kept. */
  lemma KeepLastNotRejected<T(!new)>(s: seq<T>, p: T -> bool, x: T)
    requires !p(x) && Keep(s, p) != []
    ensures Keep(s, p)[|Keep(s, p)| - 1] != x
  {
  }

  // ---------------------------------------------------------------------
  // First-appearance de-duplication

  /** The distinct elements of `s`, each where it first appears. */
  function Unique<T(!new,==)>(s: seq<T>): (u: seq<T>)
    ensures NoDups(u)
    ensures forall x :: x in u <==> x in s
  {
    if s == [] then []
    else
      var n := |s| - 1;
      var u0 := Unique(s[..n]);
      assert s == s[..n] + [s[n]];
      if s[n] in u0 then u0 else u0 + [s[n]]
  }

  /** Appending never moves the first occurrence of an element already present. */
  lemma IndexOfAppend<T>(s: seq<T>, y: T, x: T)
    requires x in s
    ensures x in s + [y] && IndexOf(s + [y], x) == IndexOf(s, x)
  {
    var k := IndexOf(s, x);
    assert (s + [y])[k] == x;
    assert forall j :: 0 <= j < k ==> (s + [y])[j] == s[j];
  }

  /** `Unique` lists the distinct elements in the order of their first appearance. */
  lemma {:induction false} UniqueInFirstAppearanceOrder<T(!new)>(s: seq<T>)
    ensures forall i, j :: 0 <= i < j < |Unique(s)| ==>
              IndexOf(s, Unique(s)[i]) < IndexOf(s, Unique(s)[j])
  {
    if s != [] {
      var n := |s| - 1;
      var u0 := Unique(s[..n]);
      UniqueInFirstAppearanceOrder(s[..n]);
      assert s == s[..n] + [s[n]];
      forall x | x in u0
        ensures IndexOf(s, x) == IndexOf(s[..n], x) < n
      {
        IndexOfAppend(s[..n], s[n], x);
      }
      if s[n] !in u0 {
        assert forall j :: 0 <= j < n ==> s[j] == s[..n][j] != s[n];
      }
    }
  }

  // ---------------------------------------------------------------------
  // Sorting

  /** `less` is asymmetric and its complement is transitive, so "neither
      is less" is an equivalence: the orders a sort may use (ties allowed). */
  ghost predicate StrictWeakOrder<T(!new)>(less: (T, T) -> bool) {
    && (forall x, y :: less(x, y) ==> !less(y, x))
    && (forall x, y, z :: !less(x, y) && !less(y, z) ==> !less(x, z))
  }

  /** A strict weak order in which only equal elements tie. */
  ghost predicate StrictTotalOrder<T(!new)>(less: (T, T) -> bool) {
    && StrictWeakOrder(less)
    && (forall x, y :: x != y ==> less(x, y) || less(y, x))
  }

  /** Non-decreasing: no later element is less than an earlier one. */
  predicate SortedBy<T>(s: seq<T>, less: (T, T) -> bool) {
    forall i, j :: 0 <= i < j < |s| ==> !less(s[j], s[i])
  }

  /** Ascending without repetition. */
  predicate StrictlySortedBy<T>(s: seq<T>, less: (T, T) -> bool) {
    forall i, j :: 0 <= i < j < |s| ==> less(s[i], s[j])
  }

  /** Putting `x` first keeps a sorted sequence sorted when the old head is not less than `x`. */
  lemma InsertAtHead<T(!new)>(x: T, s: seq<T>, less: (T, T) -> bool)
    requires StrictWeakOrder(less) && SortedBy(s, less)
    requires s == [] || !less(s[0], x)
    ensures SortedBy([x] + s, less)
  {
  }

  /** Keeping the head in front of a sorted tail that gained an element greater than it. */
  lemma InsertBehindHead<T(!new)>(x: T, s: seq<T>, t: seq<T>, less: (T, T) -> bool)
    requires StrictWeakOrder(less) && SortedBy(s, less) && s != [] && less(s[0], x)
    requires SortedBy(t, less) && multiset(t) == multiset(s[1..]) + multiset{x}
    ensures SortedBy([s[0]] + t, less)
  {
    forall j | 0 <= j < |t| ensures !less(t[j], s[0]) {
      assert t[j] in multiset(t);
      if t[j] != x {
        var k :| 0 <= k < |s| - 1 && s[1..][k] == t[j];
        assert s[k + 1] == t[j];
      }
    }
  }

  /** Places `x` into the sorted `s`, before the first element not less than it. */
  function Insert<T(!new,==)>(x: T, s: seq<T>, less: (T, T) -> bool): (r: seq<T>)
    requires StrictWeakOrder(less) && SortedBy(s, less)
    ensures SortedBy(r, less)
    ensures multiset(r) == multiset(s) + multiset{x}
  {
    if s == [] || !less(s[0], x) then
      InsertAtHead(x, s, less);
      [x] + s
    else
      var t := Insert(x, s[1..], less);
      assert s == [s[0]] + s[1..];
      InsertBehindHead(x, s, t, less);
      [s[0]] + t
  }

  /** Insertion sort: a sorted permutation of `s`. */
  function Sort<T(!new,==)>(s: seq<T>, less: (T, T) -> bool): (r: seq<T>)
    requires StrictWeakOrder(less)
    ensures SortedBy(r, less)
    ensures multiset(r) == multiset(s)
  {
    if s == [] then []
    else
      assert s == [s[0]] + s[1..];
      Insert(s[0], Sort(s[1..], less), less)
  }

  /** A sequence has no duplicates exactly when no element is counted twice. */
  lemma {:induction false} NoDupsByCount<T>(s: seq<T>)
    ensures NoDups(s) <==> forall x :: multiset(s)[x] <= 1
  {
    if s == [] {
    } else {
      var t := s[1..];
      assert s == [s[0]] + t;
      NoDupsByCount(t);
      if NoDups(s) {
        assert NoDups(t);
        forall k | 0 <= k < |t| ensures t[k] != s[0] {
          assert t[k] == s[k + 1];
        }
        assert s[0] !in t;
      } else {
        var i, j :| 0 <= i < j < |s| && s[i] == s[j];
        if i == 0 {
          assert s[j] == t[j - 1];
          assert multiset(s)[s[0]] == 1 + multiset(t)[s[0]];
        } else {
          assert t[i - 1] == t[j - 1];
          assert !NoDups(t);
          var x :| multiset(t)[x] > 1;
          assert multiset(s)[x] >= multiset(t)[x];
        }
      }
    }
  }

  /** Reordering cannot create duplicates. */
  lemma PermutationKeepsNoDups<T>(a: seq<T>, b: seq<T>)
    requires NoDups(a) && multiset(a) == multiset(b)
    ensures NoDups(b)
  {
    NoDupsByCount(a);
    NoDupsByCount(b);
  }

  /** Sorting distinct elements under a total order gives a strictly ascending sequence. */
  lemma SortDistinctIsStrict<T(!new)>(s: seq<T>, less: (T, T) -> bool)
    requires StrictTotalOrder(less) && NoDups(s)
    ensures StrictlySortedBy(Sort(s, less), less)
    ensures forall x :: x in Sort(s, less) <==> x in s
  {
    var r := Sort(s, less);
    PermutationKeepsNoDups(s, r);
    forall x ensures x in r <==> x in s {
      assert x in r <==> x in multiset(r);
      assert x in s <==> x in multiset(s);
    }
  }
}
