/** The insertion sort the package writes out wherever it needs a canonical order. */
module Sorting {
  ghost predicate Sorted(s: seq<int>) {
    forall i, j :: 0 <= i < j < |s| ==> s[i] <= s[j]
  }

  ghost predicate Ascending(s: seq<int>) {
    forall i, j :: 0 <= i < j < |s| ==> s[i] < s[j]
  }

  ghost predicate NoDuplicates<T>(s: seq<T>) {
    forall i, j :: 0 <= i < j < |s| ==> s[i] != s[j]
  }

  ghost function Elements<T>(s: seq<T>): set<T> {
    set x | x in s
  }

  /** s is ordered up to index i except that position j may be too small. */
  ghost predicate SiftOrder(s: seq<int>, i: int, j: int)
    requires 0 <= j <= i < |s|
  {
    forall x, y :: 0 <= x < y <= i && y != j ==> s[x] <= s[y]
  }

  method Sift(a: array<int>, i: nat)
    requires i < a.Length && Sorted(a[..i])
    modifies a
    ensures Sorted(a[..i + 1])
    ensures multiset(a[..]) == old(multiset(a[..]))
  {
    var j := i;
    assert SiftOrder(a[..], i, j) by {
      assert forall x :: 0 <= x < i ==> a[..i][x] == a[x];
    }
    while j > 0 && a[j - 1] > a[j]
      invariant 0 <= j <= i < a.Length
      invariant SiftOrder(a[..], i, j)
      invariant forall y :: j < y <= i ==> a[j] <= a[y]
      invariant multiset(a[..]) == old(multiset(a[..]))
    {
      ghost var s := a[..];
      a[j - 1], a[j] := a[j], a[j - 1];
      assert a[..] == s[j - 1 := s[j]][j := s[j - 1]];
      SwapKeeps(s, i, j);
      j := j - 1;
    }
    SiftedSorted(a[..], i, j);
  }

  /** One swap of the sift: same elements, and the small one has moved down a place. */
  lemma SwapKeeps(s: seq<int>, i: nat, j: nat)
    requires 0 < j <= i < |s| && SiftOrder(s, i, j) && s[j - 1] > s[j]
    requires forall y :: j < y <= i ==> s[j] <= s[y]
    ensures var t := s[j - 1 := s[j]][j := s[j - 1]];
            SiftOrder(t, i, j - 1) && multiset(t) == multiset(s) && forall y :: j - 1 < y <= i ==> t[j - 1] <= t[y]
  {
  }

  lemma SiftedSorted(s: seq<int>, i: nat, j: nat)
    requires 0 <= j <= i < |s| && SiftOrder(s, i, j) && (j == 0 || s[j - 1] <= s[j])
    requires forall y :: j < y <= i ==> s[j] <= s[y]
    ensures Sorted(s[..i + 1])
  {
    forall x | 0 <= x < j ensures s[x] <= s[j] {
      assert x < j - 1 ==> s[x] <= s[j - 1];
    }
  }

  /** insertionSortInts. */
  method InsertionSortInts(a: array<int>)
    modifies a
    ensures Sorted(a[..])
    ensures multiset(a[..]) == old(multiset(a[..]))
  {
    var i := 1;
    while i < a.Length
      invariant 1 <= i
      invariant Sorted(a[..if i <= a.Length then i else a.Length])
      invariant multiset(a[..]) == old(multiset(a[..]))
    {
      Sift(a, i);
      i := i + 1;
    }
    assert a[..a.Length] == a[..];
  }

  lemma SortedLast(s: seq<int>, t: seq<int>)
    requires Sorted(s) && Sorted(t) && |s| > 0 && |t| > 0
    requires s[|s| - 1] in t && t[|t| - 1] in s
    ensures s[|s| - 1] == t[|t| - 1]
  {
    var i :| 0 <= i < |t| && t[i] == s[|s| - 1];
    var j :| 0 <= j < |s| && s[j] == t[|t| - 1];
  }

  lemma DropLastMultiset(s: seq<int>)
    requires |s| > 0
    ensures multiset(s[..|s| - 1]) == multiset(s) - multiset{s[|s| - 1]}
  {
    assert s == s[..|s| - 1] + [s[|s| - 1]];
  }

  lemma SortedStep(s: seq<int>, t: seq<int>)
    requires Sorted(s) && Sorted(t) && |s| > 0 && multiset(s) == multiset(t)
    ensures |t| == |s| && s[|s| - 1] == t[|s| - 1]
    ensures multiset(s[..|s| - 1]) == multiset(t[..|s| - 1])
  {
    assert |s| == |multiset(s)| && |t| == |multiset(t)|;
    assert s[|s| - 1] in multiset(t) && t[|t| - 1] in multiset(s);
    SortedLast(s, t);
    DropLastMultiset(s);
    DropLastMultiset(t);
  }

  /** Sorting is canonical: two sorted permutations of one multiset are the same sequence. */
  lemma {:induction false} SortedCanonical(s: seq<int>, t: seq<int>)
    requires Sorted(s) && Sorted(t) && multiset(s) == multiset(t)
    ensures s == t
  {
    if |s| > 0 {
      var n := |s| - 1;
      SortedStep(s, t);
      SortedCanonical(s[..n], t[..n]);
      assert s == s[..n] + [s[n]] && t == t[..n] + [t[n]];
    } else {
      assert |multiset(t)| == |t|;
    }
  }

  lemma MultisetNoDuplicates(s: seq<int>)
    ensures NoDuplicates(s) <==> forall x :: x in s ==> multiset(s)[x] == 1
    decreases |s|
  {
    if |s| > 0 {
      var n := |s| - 1;
      assert s == s[..n] + [s[n]];
      MultisetNoDuplicates(s[..n]);
      assert multiset(s) == multiset(s[..n]) + multiset{s[n]};
      if NoDuplicates(s) {
        assert s[n] !in s[..n];
        assert forall x :: x in s ==> multiset(s)[x] == 1;
      }
      if forall x :: x in s ==> multiset(s)[x] == 1 {
        assert multiset(s)[s[n]] == 1;
        assert s[n] !in multiset(s[..n]);
        assert s[n] !in s[..n];
        forall x | x in s[..n] ensures multiset(s[..n])[x] == 1 {
          assert x in s;
        }
        assert NoDuplicates(s[..n]);
        forall i, j | 0 <= i < j < |s| ensures s[i] != s[j] {
          if j == n {
            assert s[i] == s[..n][i];
          } else {
            assert s[..n][i] == s[i] && s[..n][j] == s[j];
          }
        }
      }
    }
  }

  lemma NoDuplicatesSnoc<T>(s: seq<T>, x: T)
    ensures NoDuplicates(s + [x]) <==> NoDuplicates(s) && x !in s
  {
    var t := s + [x];
    assert t[|s|] == x && forall i :: 0 <= i < |s| ==> t[i] == s[i];
    if x in s {
      var i :| 0 <= i < |s| && s[i] == x;
      assert t[i] == t[|s|];
    }
    if NoDuplicates(t) {
      forall i, j | 0 <= i < j < |s| ensures s[i] != s[j] {
        assert t[i] != t[j];
      }
    }
  }

  lemma {:induction false} NoDuplicatesSize<T>(s: seq<T>)
    ensures |Elements(s)| <= |s|
    ensures |Elements(s)| == |s| <==> NoDuplicates(s)
  {
    if |s| > 0 {
      var n := |s| - 1;
      NoDuplicatesSize(s[..n]);
      assert s == s[..n] + [s[n]];
      NoDuplicatesSnoc(s[..n], s[n]);
      assert Elements(s) == Elements(s[..n]) + {s[n]};
      assert s[n] in s[..n] <==> s[n] in Elements(s[..n]);
    }
  }

  /** An arbitrary element, as the next key of a Go map range. */
  method Pick<T>(s: set<T>) returns (k: T)
    requires s != {}
    ensures k in s
  {
    k :| k in s;
  }

  /** Ranging over a map appends its keys in an arbitrary order. */
  method MapKeys<V>(m: map<int, V>) returns (keys: seq<int>)
    ensures Elements(keys) == m.Keys && |keys| == |m| && NoDuplicates(keys)
  {
    keys := [];
    var rest := m.Keys;
    while rest != {}
      invariant |keys| + |rest| == |m| && rest <= m.Keys
      invariant Elements(keys) == m.Keys - rest
      decreases |rest|
    {
      var k := Pick(rest);
      assert Elements(keys + [k]) == Elements(keys) + {k};
      keys := keys + [k];
      rest := rest - {k};
    }
    NoDuplicatesSize(keys);
  }

  lemma SortedNoDuplicates(keys: seq<int>, unsorted: seq<int>)
    requires Sorted(keys) && multiset(keys) == multiset(unsorted) && NoDuplicates(unsorted)
    ensures Ascending(keys) && Elements(keys) == Elements(unsorted) && |keys| == |unsorted|
  {
    MultisetNoDuplicates(unsorted);
    MultisetNoDuplicates(keys);
    assert |keys| == |multiset(keys)|;
    assert forall x :: x in keys <==> x in multiset(keys);
    assert forall x :: x in unsorted <==> x in multiset(unsorted);
    forall x | x in keys ensures multiset(keys)[x] == 1 {
      assert x in unsorted;
    }
    assert NoDuplicates(keys);
  }

  /** The keys of a map in ascending order; Go's map order is arbitrary, the sort removes it. */
  method SortedKeys<V>(m: map<int, V>) returns (keys: seq<int>)
    ensures keys == Enumerate(m.Keys)
  {
    var unsorted := MapKeys(m);
    var a := new int[|unsorted|](i requires 0 <= i < |unsorted| => unsorted[i]);
    assert a[..] == unsorted;
    InsertionSortInts(a);
    keys := a[..];
    SortedNoDuplicates(keys, unsorted);
    EnumerateCanonical(keys);
  }

  lemma AscendingDropLast(s: seq<int>)
    requires Ascending(s) && |s| > 0
    ensures Elements(s[..|s| - 1]) == Elements(s) - {s[|s| - 1]}
  {
    assert s == s[..|s| - 1] + [s[|s| - 1]];
  }

  /** The ascending enumeration of a finite set is unique. */
  lemma {:induction false} AscendingCanonical(s: seq<int>, t: seq<int>)
    requires Ascending(s) && Ascending(t) && Elements(s) == Elements(t)
    ensures s == t
  {
    NoDuplicatesSize(s);
    NoDuplicatesSize(t);
    if |s| > 0 {
      var n := |s| - 1;
      assert s[n] in Elements(t) && t[n] in Elements(s);
      SortedLast(s, t);
      AscendingDropLast(s);
      AscendingDropLast(t);
      AscendingCanonical(s[..n], t[..n]);
      assert s == s[..n] + [s[n]] && t == t[..n] + [t[n]];
    }
  }

  ghost function Choose<T>(s: set<T>): (x: T)
    requires s != {}
    ensures x in s
  {
    var x :| x in s; x
  }

  lemma {:induction false} Maximum(s: set<int>) returns (m: int)
    requires s != {}
    ensures m in s && forall y :: y in s ==> y <= m
  {
    var x := Choose(s);
    var rest := s - {x};
    if rest == {} {
      m := x;
    } else {
      var top := Maximum(rest);
      m := if x < top then top else x;
    }
    forall y | y in s ensures y <= m {
      assert y == x || y in rest;
    }
  }

  lemma AscendingSnoc(s: set<int>, x: int, r: seq<int>)
    requires x in s && forall y :: y in s ==> y <= x
    requires Ascending(r) && Elements(r) == s - {x} && |r| == |s - {x}|
    ensures Ascending(r + [x]) && Elements(r + [x]) == s && |r + [x]| == |s|
  {
    assert Elements(r + [x]) == Elements(r) + {x};
    forall i | 0 <= i < |r| ensures r[i] < x {
      assert r[i] in Elements(r);
    }
  }

  lemma {:induction false} AscendingExists(s: set<int>)
    ensures exists r :: Ascending(r) && Elements(r) == s && |r| == |s|
  {
    if s == {} {
      var r: seq<int> := [];
      assert Ascending(r) && Elements(r) == s && |r| == |s|;
    } else {
      var x := Maximum(s);
      AscendingExists(s - {x});
      var r :| Ascending(r) && Elements(r) == s - {x} && |r| == |s - {x}|;
      AscendingSnoc(s, x, r);
    }
  }

  /** The elements of a finite set in ascending order. */
  ghost function Enumerate(s: set<int>): (r: seq<int>)
    ensures Ascending(r) && Elements(r) == s && |r| == |s|
  {
    AscendingExists(s);
    var r :| Ascending(r) && Elements(r) == s && |r| == |s|; r
  }

  lemma EnumerateCanonical(r: seq<int>)
    requires Ascending(r)
    ensures r == Enumerate(Elements(r))
  {
    AscendingCanonical(r, Enumerate(Elements(r)));
  }
}
