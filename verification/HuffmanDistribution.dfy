/** The list the encoder starts from, in closed form: a power of two of ones, and for
    the rest one weight after the other, each repeated a power of two less one times. */
module HuffmanDistribution {
  import opened Concatenation
  import opened Numbers

  function Same(n: nat, v: nat): (s: seq<nat>)
    ensures |s| == n && forall i :: 0 <= i < n ==> s[i] == v
  {
    seq(n, i => v)
  }

  lemma SameJoins(n: nat, m: nat, v: nat)
    ensures Same(n, v) + Same(m, v) == Same(n + m, v)
  {
  }

  lemma LogOfMore(r: nat)
    requires r > 0
    ensures Log2(r + 1) >= 1 && 0 < Pow2(Log2(r + 1)) - 1 <= r
  {
    Pow2Values();
  }

  /** `r` weights from `t` on: as often as a power of two less one fits, then go on with
      the weight that is as much larger as the power says. */
  function Tail(r: nat, t: nat): (ws: seq<nat>)
    ensures |ws| == r
    decreases r
  {
    if r == 0 then [] else
    LogOfMore(r);
    var s := Log2(r + 1);
    var n: nat := Pow2(s) - 1;
    Same(n, t) + Tail(r - n, t + s)
  }

  function Distribution(n: nat): (ws: seq<nat>)
    requires n > 0
    ensures |ws| == n
  {
    var j := Log2(n);
    Same(Pow2(j), 1) + Tail(n - Pow2(j), j + 1)
  }

  // ----- building it -----

  /** While all weights are one; and within a run of `2^s - 1` weights `target` behind
      `prefix`. */
  ghost predicate Building(ws: seq<nat>, target: nat, counter: nat, amount: nat, prefix: seq<nat>) {
    && |ws| <= amount && 1 <= target <= counter && amount > 0
    && if target == 1 then ws == Same(Pow2(counter - 1), 1)
       else
         && counter > target && |prefix| + (Pow2(counter - target) - 1) <= amount
         && ws == prefix + Same(Pow2(counter - target) - 1, target)
         && Distribution(amount) == prefix + Tail(amount - |prefix|, target)
  }

  /** Another doubling fits. */
  lemma BuildOn(ws: seq<nat>, target: nat, counter: nat, amount: nat, prefix: seq<nat>)
    requires Building(ws, target, counter, amount, prefix) && |ws| + Pow2(counter - target) <= amount
    ensures Building(ws + Same(Pow2(counter - target), target), target, counter + 1, amount, prefix)
  {
    hide Tail, Distribution, Same;
    var n := Pow2(counter - target);
    Pow2Double(counter - target + 1);
    if target == 1 {
      SameJoins(n, n, 1);
    } else {
      SameJoins(n - 1, n, target);
      Join3(prefix, Same(n - 1, target), Same(n, target));
    }
  }

  /** It does not: the run is complete, the next one begins with a single weight. */
  lemma BuildNext(ws: seq<nat>, target: nat, counter: nat, amount: nat, prefix: seq<nat>)
    requires Building(ws, target, counter, amount, prefix) && |ws| < amount < |ws| + Pow2(counter - target)
    ensures counter > 1 && Building(ws + Same(1, counter), counter, counter + 1, amount, ws)
  {
    hide Tail, Distribution, Same;
    RunComplete(ws, target, counter, amount, prefix);
    Pow2Values();
  }

  lemma RunComplete(ws: seq<nat>, target: nat, counter: nat, amount: nat, prefix: seq<nat>)
    requires Building(ws, target, counter, amount, prefix) && amount < |ws| + Pow2(counter - target)
    ensures Distribution(amount) == ws + Tail(amount - |ws|, counter)
  {
    hide Same, Tail, Distribution;
    if target == 1 {
      Pow2Double(counter);
      Ones(amount, counter - 1);
    } else {
      var r, s := amount - |prefix|, counter - target;
      Pow2Mono(1, s);
      Pow2Values();
      Pow2Double(s + 1);
      TailRun(r, target, s);
      Join3(prefix, Same(Pow2(s) - 1, target), Tail(r - (Pow2(s) - 1), target + s));
    }
  }

  lemma Ones(n: nat, j: nat)
    requires Pow2(j) <= n < Pow2(j + 1)
    ensures Distribution(n) == Same(Pow2(j), 1) + Tail(n - Pow2(j), j + 1)
  {
    hide Same, Tail;
    Log2Unique(n, j);
  }

  lemma TailRun(r: nat, t: nat, s: nat)
    requires s >= 1 && Pow2(s) <= r + 1 < Pow2(s + 1)
    ensures Pow2(s) >= 2 && Tail(r, t) == Same(Pow2(s) - 1, t) + Tail(r - (Pow2(s) - 1), t + s)
  {
    hide Same;
    Pow2Mono(1, s);
    Pow2Values();
    Log2Unique(r + 1, s);
  }

  /** Nothing is left: the list is built. */
  lemma Built(ws: seq<nat>, target: nat, counter: nat, amount: nat, prefix: seq<nat>)
    requires Building(ws, target, counter, amount, prefix) && |ws| == amount
    ensures ws == Distribution(amount)
  {
    hide Same;
    RunComplete(ws, target, counter, amount, prefix);
    assert ws + Tail(0, counter) == ws;
  }

  lemma BuildStart(amount: nat)
    requires amount >= 2
    ensures Building([1, 1], 1, 2, amount, [])
  {
    Pow2Values();
  }
}
