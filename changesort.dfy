/**
 * `Collections.sort(changes)` on the builder's change list.  The list holds
 * change indices; the changes themselves are in a store keyed by index.  The
 * order is `Changes.Before`, which is strict and total on changes with
 * distinct indices, so the sorted permutation is unique and
 * any sorting algorithm, Java's merge sort included, yields the insertion
 * sort defined here.
 */
module ChangeSort {
  import opened Changes

  /** Every change in the store is filed under its own index. */
  predicate Indexed(store: map<nat, Change>)
  {
    forall id :: id in store ==> store[id].index == id
  }

  predicate Distinct(s: seq<nat>)
  {
    forall i, j :: 0 <= i < j < |s| ==> s[i] != s[j]
  }

  predicate InStore(store: map<nat, Change>, s: seq<nat>)
  {
    forall i :: 0 <= i < |s| ==> s[i] in store
  }

  predicate SortedBy(store: map<nat, Change>, s: seq<nat>)
    requires InStore(store, s)
  {
    forall i, j :: 0 <= i < j < |s| ==> Before(store[s[i]], store[s[j]])
  }

  /** Two distinct indexed changes are ordered one way or the other. */
  lemma BeforeTotal(store: map<nat, Change>, x: nat, y: nat)
    requires Indexed(store) && x in store && y in store && x != y
    ensures Before(store[x], store[y]) || Before(store[y], store[x])
  {
    assert store[x].index == x && store[y].index == y;
  }

  function Insert(store: map<nat, Change>, x: nat, s: seq<nat>): (r: seq<nat>)
    requires Indexed(store) && x in store && InStore(store, s) && SortedBy(store, s)
    requires forall i :: 0 <= i < |s| ==> s[i] != x
    ensures InStore(store, r) && SortedBy(store, r)
    ensures multiset(r) == multiset(s) + multiset{x}
    ensures |r| == |s| + 1
  {
    if |s| == 0 then [x]
    else if Before(store[x], store[s[0]]) then
      assert SortedBy(store, [x] + s) by { ConsSorted(store, x, s); }
      [x] + s
    else
      BeforeTotal(store, x, s[0]);
      SortedTail(store, s);
      var t := Insert(store, x, s[1..]);
      HeadBeforeInserted(store, x, s, t);
      ConsSorted(store, s[0], t);
      assert s == [s[0]] + s[1..];
      [s[0]] + t
  }

  /** A sorted list stays sorted when an element smaller than its head is put in front. */
  lemma ConsSorted(store: map<nat, Change>, x: nat, s: seq<nat>)
    requires x in store && InStore(store, s) && SortedBy(store, s)
    requires |s| > 0 ==> Before(store[x], store[s[0]])
    requires forall k :: 0 <= k < |s| ==> Before(store[x], store[s[k]])
    ensures InStore(store, [x] + s) && SortedBy(store, [x] + s)
  {
    var r := [x] + s;
    forall i, j | 0 <= i < j < |r| ensures Before(store[r[i]], store[r[j]]) {
      if i > 0 {
        assert r[i] == s[i - 1] && r[j] == s[j - 1];
      } else {
        assert r[j] == s[j - 1];
      }
    }
  }

  lemma HeadBeforeInserted(store: map<nat, Change>, x: nat, s: seq<nat>, t: seq<nat>)
    requires |s| > 0 && x in store && InStore(store, s) && SortedBy(store, s)
    requires Before(store[s[0]], store[x])
    requires InStore(store, t) && multiset(t) == multiset(s[1..]) + multiset{x}
    ensures forall k :: 0 <= k < |t| ==> Before(store[s[0]], store[t[k]])
  {
    forall k | 0 <= k < |t|
      ensures Before(store[s[0]], store[t[k]])
    {
      assert t[k] in multiset(t);
      if t[k] != x {
        assert t[k] in multiset(s[1..]);
        var i :| 0 <= i < |s[1..]| && s[1..][i] == t[k];
        assert s[i + 1] == t[k];
      }
    }
  }

  /** The sorted permutation of `s` (the list after `Collections.sort`). */
  function Sort(store: map<nat, Change>, s: seq<nat>): (r: seq<nat>)
    requires Indexed(store) && InStore(store, s) && Distinct(s)
    ensures InStore(store, r) && SortedBy(store, r)
    ensures multiset(r) == multiset(s)
    ensures |r| == |s|
  {
    if |s| == 0 then []
    else
      var t := Sort(store, s[..|s| - 1]);
      assert s == s[..|s| - 1] + [s[|s| - 1]];
      assert forall i :: 0 <= i < |t| ==> t[i] != s[|s| - 1] by {
        forall i | 0 <= i < |t| ensures t[i] != s[|s| - 1] {
          assert t[i] in multiset(s[..|s| - 1]);
          assert t[i] in s[..|s| - 1];
        }
      }
      Insert(store, s[|s| - 1], t)
  }

  /**
   * Sorting by `Before` has exactly one outcome: two sorted lists with the
   * same elements are equal.
   */
  lemma {:induction false} SortedUnique(store: map<nat, Change>, a: seq<nat>, b: seq<nat>)
    requires InStore(store, a) && InStore(store, b)
    requires SortedBy(store, a) && SortedBy(store, b)
    requires multiset(a) == multiset(b)
    ensures a == b
    decreases |a|
  {
    if |a| == 0 {
      assert |multiset(b)| == 0;
    } else {
      HeadsEqual(store, a, b);
      SortedTail(store, a);
      SortedTail(store, b);
      TailMultiset(a, b);
      SortedUnique(store, a[1..], b[1..]);
      assert a == [a[0]] + a[1..];
      assert b == [b[0]] + b[1..];
    }
  }

  /** The head of a sorted list is its least element, so equal contents give equal heads. */
  lemma HeadsEqual(store: map<nat, Change>, a: seq<nat>, b: seq<nat>)
    requires |a| > 0 && InStore(store, a) && InStore(store, b)
    requires SortedBy(store, a) && SortedBy(store, b)
    requires multiset(a) == multiset(b)
    ensures |b| > 0 && a[0] == b[0]
  {
    assert a[0] in multiset(b);
    var i :| 0 <= i < |b| && b[i] == a[0];
    assert b[0] in multiset(a);
    var j :| 0 <= j < |a| && a[j] == b[0];
    HeadFirst(store, b, i);
    HeadFirst(store, a, j);
  }

  /** In a sorted list, the head comes before every later element. */
  lemma HeadFirst(store: map<nat, Change>, s: seq<nat>, k: nat)
    requires k < |s| && InStore(store, s) && SortedBy(store, s)
    ensures k == 0 || Before(store[s[0]], store[s[k]])
  {
  }

  lemma TailMultiset(a: seq<nat>, b: seq<nat>)
    requires |a| > 0 && |b| > 0 && a[0] == b[0] && multiset(a) == multiset(b)
    ensures multiset(a[1..]) == multiset(b[1..])
  {
    assert a == [a[0]] + a[1..];
    assert b == [b[0]] + b[1..];
    assert multiset(a[1..]) == multiset(a) - multiset{a[0]};
    assert multiset(b[1..]) == multiset(b) - multiset{b[0]};
  }

  lemma SortedTail(store: map<nat, Change>, s: seq<nat>)
    requires |s| > 0 && InStore(store, s) && SortedBy(store, s)
    ensures InStore(store, s[1..]) && SortedBy(store, s[1..])
  {
    forall i, j | 0 <= i < j < |s| - 1
      ensures Before(store[s[1..][i]], store[s[1..][j]])
    {
      assert s[1..][i] == s[i + 1] && s[1..][j] == s[j + 1];
    }
  }

  /** Sorting keeps the list free of duplicates. */
  lemma SortDistinct(store: map<nat, Change>, s: seq<nat>)
    requires Indexed(store) && InStore(store, s) && Distinct(s)
    ensures Distinct(Sort(store, s))
  {
    var r := Sort(store, s);
    forall i, j | 0 <= i < j < |r| ensures r[i] != r[j] {
      assert Before(store[r[i]], store[r[j]]);
    }
  }
}
