/** The slice operations the sources take from Go's `slices` package. */
module Slices {

  datatype Option<T> = None | Some(value: T)

  /** A comparison that orders all values, up to ties. */
  ghost predicate TotalPreorder<T(!new)>(cmp: (T, T) -> int) {
    && (forall a, b :: cmp(a, b) <= 0 || cmp(b, a) <= 0)
    && (forall a, b :: cmp(a, b) < 0 <==> cmp(b, a) > 0)
    && (forall a, b, c :: cmp(a, b) <= 0 && cmp(b, c) <= 0 ==> cmp(a, c) <= 0)
  }

  ghost predicate Sorted<T>(s: seq<T>, cmp: (T, T) -> int) {
    forall i, j :: 0 <= i < j < |s| ==> cmp(s[i], s[j]) <= 0
  }

  function Insert<T>(s: seq<T>, i: nat, x: T): (r: seq<T>)
    requires i <= |s|
    ensures multiset(r) == multiset(s) + multiset{x}
  {
    assert s == s[..i] + s[i..];
    s[..i] + [x] + s[i..]
  }

  /** The elements the predicate does not name, in order. */
  function DeleteFunc<T(!new)>(s: seq<T>, del: T -> bool): (r: seq<T>)
    ensures |r| <= |s|
    ensures forall x :: x in r <==> x in s && !del(x)
  {
    if s == [] then [] else
      assert s == s[..|s|-1] + [s[|s|-1]];
      var rest := DeleteFunc(s[..|s|-1], del);
      if del(s[|s|-1]) then rest else rest + [s[|s|-1]]
  }

  lemma {:induction false} DeleteFuncKeepsCounts<T(!new)>(s: seq<T>, del: T -> bool)
    ensures multiset(DeleteFunc(s, del)) <= multiset(s)
  {
    if s != [] {
      DeleteFuncKeepsCounts(s[..|s|-1], del);
      assert s == s[..|s|-1] + [s[|s|-1]];
    }
  }

  /** The position the binary search ends at. */
  function SearchBetween<T>(s: seq<T>, target: T, cmp: (T, T) -> int, i: nat, j: nat): (r: nat)
    requires i <= j <= |s|
    ensures i <= r <= j
    decreases j - i
  {
    if i == j then i
    else
      var h := (i + j) / 2;
      if cmp(s[h], target) < 0 then SearchBetween(s, target, cmp, h + 1, j) else SearchBetween(s, target, cmp, i, h)
  }

  function SearchIndex<T>(s: seq<T>, target: T, cmp: (T, T) -> int): (i: nat)
    ensures i <= |s|
  {
    SearchBetween(s, target, cmp, 0, |s|)
  }

  /** In a sorted list that is the first position not below the target. */
  lemma {:induction false} SearchFindsBound<T(!new)>(s: seq<T>, target: T, cmp: (T, T) -> int, i: nat, j: nat)
    requires TotalPreorder(cmp) && Sorted(s, cmp) && i <= j <= |s|
    requires forall k :: 0 <= k < i ==> cmp(s[k], target) < 0
    requires forall k :: j <= k < |s| ==> cmp(s[k], target) >= 0
    ensures forall k :: 0 <= k < SearchBetween(s, target, cmp, i, j) ==> cmp(s[k], target) < 0
    ensures forall k :: SearchBetween(s, target, cmp, i, j) <= k < |s| ==> cmp(s[k], target) >= 0
    decreases j - i
  {
    if i < j {
      var h := (i + j) / 2;
      if cmp(s[h], target) < 0 {
        SearchFindsBound(s, target, cmp, h + 1, j);
      } else {
        SearchFindsBound(s, target, cmp, i, h);
      }
    }
  }

  lemma HalveSearch<T>(s: seq<T>, target: T, cmp: (T, T) -> int, i: nat, j: nat)
    requires i < j <= |s|
    ensures var h := (i + j) / 2;
      SearchBetween(s, target, cmp, i, j) == if cmp(s[h], target) < 0 then SearchBetween(s, target, cmp, h + 1, j)
                                             else SearchBetween(s, target, cmp, i, h)
  {
  }

  /** A binary search for the first element not below the target. Whatever the list,
      the answer is a position in it; the bounds need a sorted list. */
  method BinarySearchFunc<T(!new)>(s: seq<T>, target: T, cmp: (T, T) -> int) returns (i: nat)
    requires TotalPreorder(cmp)
    ensures i == SearchIndex(s, target, cmp) <= |s|
    ensures Sorted(s, cmp) ==> forall k :: 0 <= k < i ==> cmp(s[k], target) < 0
    ensures Sorted(s, cmp) ==> forall k :: i <= k < |s| ==> cmp(s[k], target) >= 0
  {
    hide SearchBetween;
    i := 0;
    var j := |s|;
    while i < j
      invariant 0 <= i <= j <= |s| && SearchIndex(s, target, cmp) == SearchBetween(s, target, cmp, i, j)
    {
      var h := (i + j) / 2;
      HalveSearch(s, target, cmp, i, j);
      if cmp(s[h], target) < 0 {
        i := h + 1;
      } else {
        j := h;
      }
    }
    if Sorted(s, cmp) { SearchFindsBound(s, target, cmp, 0, |s|); }
  }

  method InsertSorted<T(!new)>(s: seq<T>, target: T, cmp: (T, T) -> int) returns (r: seq<T>, i: nat)
    requires TotalPreorder(cmp)
    ensures i == SearchIndex(s, target, cmp) && r == Insert(s, i, target)
    ensures Sorted(s, cmp) ==> Sorted(r, cmp)
  {
    i := BinarySearchFunc(s, target, cmp);
    r := Insert(s, i, target);
    if Sorted(s, cmp) { InsertKeepsSorted(s, i, target, cmp); }
  }

  lemma InsertKeepsSorted<T(!new)>(s: seq<T>, i: nat, x: T, cmp: (T, T) -> int)
    requires TotalPreorder(cmp) && Sorted(s, cmp) && i <= |s|
    requires forall k :: 0 <= k < i ==> cmp(s[k], x) <= 0
    requires forall k :: i <= k < |s| ==> cmp(s[k], x) >= 0
    ensures Sorted(Insert(s, i, x), cmp)
  {
    var r := Insert(s, i, x);
    forall j, k | 0 <= j < k < |r|
      ensures cmp(r[j], r[k]) <= 0
    {
      assert r[j] == if j < i then s[j] else if j == i then x else s[j - 1];
      assert r[k] == if k < i then s[k] else if k == i then x else s[k - 1];
    }
  }

  /** A sorted arrangement of the elements; ties may come in any order. */
  method SortFunc<T(!new)>(s: seq<T>, cmp: (T, T) -> int) returns (r: seq<T>)
    requires TotalPreorder(cmp)
    ensures Sorted(r, cmp) && multiset(r) == multiset(s)
  {
    r := [];
    for k := 0 to |s|
      invariant Sorted(r, cmp) && multiset(r) == multiset(s[..k])
    {
      var i;
      r, i := InsertSorted(r, s[k], cmp);
      assert s[..k+1] == s[..k] + [s[k]];
    }
    assert s[..|s|] == s;
  }

  /** Every comparison that orders all values has a sorted arrangement of any list. */
  lemma {:induction false} SortedExists<T(!new)>(s: seq<T>, cmp: (T, T) -> int) returns (r: seq<T>)
    requires TotalPreorder(cmp)
    ensures Sorted(r, cmp) && multiset(r) == multiset(s)
  {
    if s == [] {
      r := [];
    } else {
      var rest := SortedExists(s[1..], cmp);
      var i := InsertionPoint(rest, s[0], cmp);
      InsertKeepsSorted(rest, i, s[0], cmp);
      r := Insert(rest, i, s[0]);
      assert s == [s[0]] + s[1..];
    }
  }

  lemma {:induction false} InsertionPoint<T(!new)>(s: seq<T>, x: T, cmp: (T, T) -> int) returns (i: nat)
    requires TotalPreorder(cmp) && Sorted(s, cmp)
    ensures i <= |s| && (forall k :: 0 <= k < i ==> cmp(s[k], x) < 0) && (forall k :: i <= k < |s| ==> cmp(s[k], x) >= 0)
  {
    if s == [] || cmp(s[|s|-1], x) < 0 {
      i := |s|;
    } else {
      i := InsertionPoint(s[..|s|-1], x, cmp);
    }
  }

  /** Sorting in place. */
  method SortInPlace<T(!new)>(a: array<T>, cmp: (T, T) -> int)
    requires TotalPreorder(cmp)
    modifies a
    ensures Sorted(a[..], cmp) && multiset(a[..]) == multiset(old(a[..]))
  {
    var sorted := SortFunc(a[..], cmp);
    assert |multiset(sorted)| == |multiset(a[..])|;
    for k := 0 to a.Length
      invariant forall i :: 0 <= i < k ==> a[i] == sorted[i]
    {
      a[k] := sorted[k];
    }
    assert a[..] == sorted;
  }

  lemma {:induction false} SubsetSize<T>(a: set<T>, b: set<T>)
    requires a <= b
    ensures |a| <= |b|
    ensures |a| == |b| ==> a == b
  {
    if a != {} {
      var x :| x in a;
      SubsetSize(a - {x}, b - {x});
    }
  }
}
