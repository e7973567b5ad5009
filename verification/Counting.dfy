/** How often a value occurs in a list. */
module Counting {

  function CountOf(data: seq<nat>, s: nat): nat {
    if data == [] then 0 else CountOf(data[..|data| - 1], s) + if data[|data| - 1] == s then 1 else 0
  }

  lemma {:induction false} CountPositive(data: seq<nat>, i: nat)
    requires i < |data|
    ensures CountOf(data, data[i]) > 0
  {
    if i < |data| - 1 {
      CountPositive(data[..|data| - 1], i);
    }
  }

  lemma {:induction false} CountedOccurs(data: seq<nat>, s: nat) returns (i: nat)
    requires CountOf(data, s) > 0
    ensures i < |data| && data[i] == s
  {
    if data[|data| - 1] == s {
      i := |data| - 1;
    } else {
      i := CountedOccurs(data[..|data| - 1], s);
    }
  }

  lemma {:induction false} CountAbsent(data: seq<nat>, s: nat)
    requires s !in data
    ensures CountOf(data, s) == 0
  {
    if data != [] {
      CountAbsent(data[..|data| - 1], s);
    }
  }

  lemma CountSnoc(data: seq<nat>, x: nat, s: nat)
    ensures CountOf(data + [x], s) == CountOf(data, s) + if x == s then 1 else 0
  {
    assert (data + [x])[..|data|] == data;
  }

  /** Counting can begin at the front as well. */
  lemma {:induction false} CountFirst(data: seq<nat>, s: nat)
    requires data != []
    ensures CountOf(data, s) == CountOf(data[1..], s) + if data[0] == s then 1 else 0
  {
    if |data| > 1 {
      var init := data[..|data| - 1];
      CountFirst(init, s);
      assert data[1..] == init[1..] + [data[|data| - 1]];
      CountSnoc(init[1..], data[|data| - 1], s);
    }
  }

  lemma {:induction false} CountUpdate(data: seq<nat>, i: nat, v: nat, s: nat)
    requires i < |data|
    ensures CountOf(data[i := v], s) + (if data[i] == s then 1 else 0) == CountOf(data, s) + if v == s then 1 else 0
  {
    var init := data[..|data| - 1];
    if i < |data| - 1 {
      CountUpdate(init, i, v, s);
      assert data[i := v][..|data| - 1] == init[i := v];
    } else {
      assert data[i := v][..|data| - 1] == init;
    }
  }

  lemma {:induction false} CountBound(data: seq<nat>, s: nat)
    ensures CountOf(data, s) <= |data|
  {
    if data != [] {
      CountBound(data[..|data| - 1], s);
    }
  }

  /** A list in which one value occurs as often as the list is long. */
  lemma {:induction false} CountFull(data: seq<nat>, s: nat)
    requires CountOf(data, s) == |data|
    ensures forall i :: 0 <= i < |data| ==> data[i] == s
  {
    if data != [] {
      var init := data[..|data| - 1];
      CountBound(init, s);
      CountFull(init, s);
      assert forall i :: 0 <= i < |init| ==> data[i] == init[i];
    }
  }

  lemma {:induction false} CountConstant(data: seq<nat>, s: nat, n: nat)
    requires n <= |data| && forall i :: 0 <= i < n ==> data[i] == s
    ensures CountOf(data, s) >= n
    decreases |data|
  {
    if n > 0 {
      CountConstant(data[..|data| - 1], s, if n < |data| then n else n - 1);
    }
  }
}
