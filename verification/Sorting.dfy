/** The standard library's stable `sort_by_key`, as insertion sort. */
module Sorting {

  ghost predicate SortedBy<T>(s: seq<T>, key: T -> int) {
    forall i, j :: 0 <= i < j < |s| ==> key(s[i]) <= key(s[j])
  }

  ghost predicate StrictlySortedBy<T>(s: seq<T>, key: T -> int) {
    forall i, j :: 0 <= i < j < |s| ==> key(s[i]) < key(s[j])
  }

  /** Insert behind all elements whose key is not greater. */
  function Insert<T>(s: seq<T>, x: T, key: T -> int): (r: seq<T>)
    ensures multiset(r) == multiset(s) + multiset{x}
  {
    if |s| == 0 || key(s[|s| - 1]) <= key(x) then
      s + [x]
    else
      assert s == s[..|s| - 1] + [s[|s| - 1]];
      Insert(s[..|s| - 1], x, key) + [s[|s| - 1]]
  }

  lemma {:induction false} InsertSorted<T>(s: seq<T>, x: T, key: T -> int)
    requires SortedBy(s, key)
    ensures SortedBy(Insert(s, x, key), key)
  {
    if |s| > 0 && key(s[|s| - 1]) > key(x) {
      var t, last := s[..|s| - 1], s[|s| - 1];
      InsertSorted(t, x, key);
      var r := Insert(t, x, key);
      forall i | 0 <= i < |r|
        ensures key(r[i]) <= key(last)
      {
        assert r[i] in multiset(r);
        assert r[i] in multiset(t) ==> r[i] in t;
      }
    }
  }

  function SortByKey<T>(s: seq<T>, key: T -> int): (r: seq<T>)
    ensures SortedBy(r, key)
    ensures multiset(r) == multiset(s)
  {
    if |s| == 0 then [] else
      assert s == s[..|s| - 1] + [s[|s| - 1]];
      InsertSorted(SortByKey(s[..|s| - 1], key), s[|s| - 1], key);
      Insert(SortByKey(s[..|s| - 1], key), s[|s| - 1], key)
  }

  lemma DropLast<T(!new)>(a: seq<T>, key: T -> int)
    requires StrictlySortedBy(a, key) && |a| > 0
    ensures StrictlySortedBy(a[..|a| - 1], key)
    ensures forall z :: z in a[..|a| - 1] <==> z in a && key(z) < key(a[|a| - 1])
    ensures forall z :: z in a && z != a[|a| - 1] ==> key(z) < key(a[|a| - 1])
  {
    var t, last := a[..|a| - 1], a[|a| - 1];
    assert a == t + [last];
    assert forall i :: 0 <= i < |t| ==> t[i] == a[i] && key(t[i]) < key(last);
  }

  lemma EmptyTogether<T(!new)>(a: seq<T>, b: seq<T>)
    requires forall x :: x in a <==> x in b
    ensures |a| == 0 <==> |b| == 0
  {
    assert |a| > 0 ==> a[0] in b;
    assert |b| > 0 ==> b[0] in a;
  }

  /** A strictly sorted sequence is determined by its elements. */
  lemma {:induction false} StrictlySortedUnique<T(!new)>(a: seq<T>, b: seq<T>, key: T -> int)
    requires StrictlySortedBy(a, key) && StrictlySortedBy(b, key)
    requires forall x :: x in a <==> x in b
    ensures a == b
  {
    hide StrictlySortedBy;
    EmptyTogether(a, b);
    if |a| > 0 {
      assert a[|a| - 1] in b && b[|b| - 1] in a;
      DropLast(a, key);
      DropLast(b, key);
      var x, y := a[|a| - 1], b[|b| - 1];
      assert x == y;
      var a', b' := a[..|a| - 1], b[..|b| - 1];
      forall z
        ensures z in a' <==> z in b'
      {
        assert z in a' <==> z in a && key(z) < key(x);
        assert z in b' <==> z in b && key(z) < key(y);
      }
      StrictlySortedUnique(a', b', key);
      assert a == a' + [x] && b == b' + [y];
    }
  }

  /** Sorting yields the one strictly sorted arrangement, if there is one. */
  lemma SortIs<T(!new)>(s: seq<T>, target: seq<T>, key: T -> int)
    requires StrictlySortedBy(target, key) && multiset(s) == multiset(target)
    ensures SortByKey(s, key) == target
  {
    var r := SortByKey(s, key);
    StrictBySize(r, target, key);
    forall x
      ensures x in r <==> x in target
    {
      assert x in r <==> x in multiset(r);
      assert x in target <==> x in multiset(target);
    }
    StrictlySortedUnique(r, target, key);
  }

  /** A sorted rearrangement of a strictly sorted sequence is strictly sorted. */
  lemma StrictBySize<T>(r: seq<T>, target: seq<T>, key: T -> int)
    requires SortedBy(r, key) && StrictlySortedBy(target, key) && multiset(r) == multiset(target)
    ensures StrictlySortedBy(r, key)
  {
    forall i, j | 0 <= i < j < |r|
      ensures key(r[i]) < key(r[j])
    {
      if key(r[i]) == key(r[j]) {
        SameKeySame(r, target, key, i, j);
        TwiceIn(r, i, j);
        OnceIn(target, key, r[i]);
      }
    }
  }

  lemma SameKeySame<T>(r: seq<T>, target: seq<T>, key: T -> int, i: nat, j: nat)
    requires i < |r| && j < |r| && StrictlySortedBy(target, key) && multiset(r) == multiset(target)
    requires key(r[i]) == key(r[j])
    ensures r[i] == r[j]
  {
    assert r[i] in multiset(target) && r[j] in multiset(target);
  }

  lemma TwiceIn<T>(r: seq<T>, i: nat, j: nat)
    requires i < j < |r| && r[i] == r[j]
    ensures multiset(r)[r[i]] >= 2
  {
    assert r == r[..i] + [r[i]] + r[i + 1..j] + [r[j]] + r[j + 1..];
  }

  lemma OnceIn<T>(target: seq<T>, key: T -> int, x: T)
    requires StrictlySortedBy(target, key)
    ensures multiset(target)[x] <= 1
  {
    if |target| > 0 {
      var t, last := target[..|target| - 1], target[|target| - 1];
      assert target == t + [last];
      OnceIn(t, key, x);
      assert multiset(t)[last] > 0 ==> last in t;
    }
  }
}
