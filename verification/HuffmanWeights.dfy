/** The encoder's choice of weights: a list whose spans fill a code space, then
    flattened until no code is too long. */
module HuffmanWeights {
  import opened Numbers
  import opened HuffmanCodes
  import opened HuffmanDistribution
  import opened Counting

  /** The sum of two to the power of each weight. */
  function Total(ws: seq<nat>, n: nat): nat
    requires n <= |ws|
  {
    if n == 0 then 0 else Total(ws, n - 1) + Pow2(ws[n - 1])
  }

  ghost predicate Ascending(ws: seq<nat>) {
    forall i, j :: 0 <= i < j < |ws| ==> ws[i] <= ws[j]
  }

  ghost predicate AtLeast(ws: seq<nat>, v: nat) {
    forall i :: 0 <= i < |ws| ==> ws[i] >= v
  }

  lemma {:induction false} TotalIsKraft(ws: seq<nat>, n: nat)
    requires n <= |ws| && AtLeast(ws, 1)
    ensures Total(ws, n) == 2 * Kraft(ws, n)
  {
    if n > 0 {
      TotalIsKraft(ws, n - 1);
    }
  }

  lemma TotalComplete(ws: seq<nat>, m: nat)
    requires AtLeast(ws, 1)
    ensures Complete(ws, m) <==> Total(ws, |ws|) == Pow2(m + 1)
  {
    TotalIsKraft(ws, |ws|);
  }

  lemma {:induction false} TotalUpdate(ws: seq<nat>, i: nat, v: nat, n: nat)
    requires n <= |ws| && i < |ws|
    ensures Total(ws[i := v], n) == Total(ws, n) + if i < n then Pow2(v) - Pow2(ws[i]) else 0
  {
    if n > 0 {
      TotalUpdate(ws, i, v, n - 1);
    }
  }

  lemma {:induction false} TotalPrefix(ws: seq<nat>, x: nat, n: nat)
    requires n <= |ws|
    ensures Total(ws + [x], n) == Total(ws, n)
    ensures n == |ws| ==> Total(ws + [x], n + 1) == Total(ws, n) + Pow2(x)
  {
    if n > 0 {
      TotalPrefix(ws, x, n - 1);
    }
  }

  /** What is built from large weights is a multiple of a large power. */
  lemma {:induction false} TotalMultiple(ws: seq<nat>, v: nat, n: nat) returns (q: nat)
    requires n <= |ws| && AtLeast(ws, v)
    ensures Total(ws, n) == Up(q, v)
  {
    if n == 0 {
      q := 0;
      UpZero(v);
    } else {
      q := TotalMultiple(ws, v, n - 1);
      Pow2IsUp(ws[n - 1] - v, v);
      UpSum(q, Pow2(ws[n - 1] - v), v);
      q := q + Pow2(ws[n - 1] - v);
    }
  }

  // ----- distributing -----

  /** How the rounds leave the list: it begins with `2^j` ones, and all entries behind
      the first larger one stand behind a total that exceeds that of the ones by at
      least half of their own power. */
  ghost predicate Rounds(ws: seq<nat>, j: nat) {
    && Pow2(j) <= |ws|
    && (forall i :: 0 <= i < Pow2(j) ==> ws[i] == 1)
    && (forall i :: Pow2(j) < i < |ws| ==> ws[i] > 0 && Total(ws, i) >= Pow2(j + 1) + Pow2(ws[i] - 1))
  }

  ghost predicate Staged(ws: seq<nat>, j: nat) {
    Rounds(ws, j) && |ws| < Pow2(j + 1)
  }

  lemma OneMoreWeight(ws: seq<nat>, j: nat, x: nat)
    requires Rounds(ws, j) && x > 0
    requires |ws| > Pow2(j) ==> Total(ws, |ws|) >= Pow2(j + 1) + Pow2(x - 1)
    ensures Rounds(ws + [x], j)
  {
    hide Pow2, Total;
    forall i | Pow2(j) < i < |ws| + 1
      ensures (ws + [x])[i] > 0 && Total(ws + [x], i) >= Pow2(j + 1) + Pow2((ws + [x])[i] - 1)
    {
      TotalPrefix(ws, x, i);
    }
  }

  /** While all weights are one; and from the first larger one on. */
  ghost predicate Round(ws: seq<nat>, j: nat, target: nat, counter: nat, amount: nat) {
    && 1 <= target <= counter
    && if target == 1 then |ws| == Pow2(counter - 1) && forall i :: 0 <= i < |ws| ==> ws[i] == 1
       else Rounds(ws, j) && amount < Pow2(j + 1) && counter >= j + 2
  }

  /** Ascending weights, as many as asked for, that add up to a power of two. */
  method DistributeWeights(amount: nat) returns (weights: seq<nat>, ghost log: nat, ghost j: nat)
    requires amount >= 2
    ensures |weights| == amount && Ascending(weights) && weights[0] == 1
    ensures Total(weights, amount) == Pow2(log)
    ensures Staged(weights, j)
    ensures weights == Distribution(amount)
  {
    hide Pow2, Total, Rounds, Ascending, Building, Distribution, Same;
    weights := [1, 1];
    TwoOnes(weights);
    BuildStart(amount);
    ghost var prefix: seq<nat> := [];
    var targetWeight := 1;
    var weightCounter := 2;
    j := 0;
    while |weights| < amount
      invariant 2 <= |weights| <= amount && Round(weights, j, targetWeight, weightCounter, amount)
      invariant Ascending(weights) && weights[0] == 1 && weights[|weights| - 1] <= targetWeight
      invariant Total(weights, |weights|) == Pow2(weightCounter)
      invariant Building(weights, targetWeight, weightCounter, amount, prefix)
      decreases amount - |weights|
    {
      var addNew := Pow2(weightCounter - targetWeight);
      var availableSpace := amount - |weights|;
      ghost var earlier := weights;
      if addNew <= availableSpace {
        BuildOn(weights, targetWeight, weightCounter, amount, prefix);
      } else {
        BuildNext(weights, targetWeight, weightCounter, amount, prefix);
        prefix := weights;
      }
      if addNew > availableSpace {
        if targetWeight == 1 {
          j := weightCounter - 1;
          FirstRounds(weights, weightCounter);
        }
        targetWeight := weightCounter;
        addNew := 1;
      }
      AddsUp(weightCounter, targetWeight);
      ghost var before := |weights|;
      for i := 0 to addNew
        invariant weights == earlier + Same(i, targetWeight)
        invariant |weights| == before + i && Ascending(weights) && weights[0] == 1
        invariant weights[|weights| - 1] <= targetWeight
        invariant Total(weights, |weights|) == Pow2(weightCounter) + i * Pow2(targetWeight)
        invariant if targetWeight == 1 then forall k :: 0 <= k < |weights| ==> weights[k] == 1 else Rounds(weights, j)
      {
        AscendingSnoc(weights, targetWeight);
        TotalPrefix(weights, targetWeight, |weights|);
        MulNext(i, Pow2(targetWeight));
        if targetWeight > 1 {
          TotalExceeds(weights, j, weightCounter, targetWeight, i);
          OneMoreWeight(weights, j, targetWeight);
        }
        weights := weights + [targetWeight];
        OneMoreSame(earlier, i, targetWeight);
      }
      weightCounter := weightCounter + 1;
    }
    log := weightCounter;
    Built(weights, targetWeight, weightCounter, amount, prefix);
    if targetWeight == 1 {
      j := weightCounter - 1;
      FirstRounds(weights, weightCounter);
    }
  }

  lemma OneMoreSame(ws: seq<nat>, i: nat, v: nat)
    ensures ws + Same(i, v) + [v] == ws + Same(i + 1, v)
    ensures ws + Same(0, v) == ws
  {
  }

  lemma FirstRounds(ws: seq<nat>, counter: nat)
    requires counter > 0 && |ws| == Pow2(counter - 1) && forall i :: 0 <= i < |ws| ==> ws[i] == 1
    ensures Rounds(ws, counter - 1) && |ws| < Pow2(counter) == 2 * |ws|
  {
  }

  lemma TotalExceeds(ws: seq<nat>, j: nat, counter: nat, target: nat, i: nat)
    requires 1 < target <= counter && counter > j
    requires Total(ws, |ws|) == Pow2(counter) + i * Pow2(target)
    requires counter >= j + 2 || (|ws| == Pow2(j) && i == 0)
    ensures |ws| > Pow2(j) ==> Total(ws, |ws|) >= Pow2(j + 1) + Pow2(target - 1)
  {
    hide Total, Pow2;
    if counter >= j + 2 {
      Pow2Mono(j + 1, counter - 1);
      Pow2Mono(target - 1, counter - 1);
      Pow2Double(counter);
      assert i * Pow2(target) >= 0;
    }
  }

  lemma AscendingSnoc(ws: seq<nat>, x: nat)
    requires Ascending(ws) && ws != [] && ws[|ws| - 1] <= x
    ensures Ascending(ws + [x])
  {
  }

  lemma TwoOnes(ws: seq<nat>)
    requires ws == [1, 1]
    ensures Total(ws, |ws|) == Pow2(2) && |ws| == Pow2(1) && Ascending(ws)
  {
    Pow2Values();
    assert Total(ws, 1) == Pow2(1);
  }

  /** The weights added in one round double the total. */
  lemma AddsUp(counter: nat, target: nat)
    requires target <= counter
    ensures Pow2(counter - target) * Pow2(target) == Pow2(counter) && Pow2(counter - target) >= 1
    ensures Pow2(counter) + Pow2(counter) == Pow2(counter + 1)
    ensures 1 * Pow2(target) == Pow2(target) && 0 * Pow2(target) == 0
  {
    Pow2Add(counter - target, target);
  }

  // ----- raising -----

  /** Lift all weights below `floor`, and how much that adds. */
  method RaiseWeights(weights: seq<nat>, floor: nat) returns (ws: seq<nat>, added: nat)
    requires Ascending(weights)
    ensures |ws| == |weights| && Ascending(ws)
    ensures forall i :: 0 <= i < |ws| ==> ws[i] == if weights[i] < floor then floor else weights[i]
    ensures Total(ws, |ws|) == Total(weights, |weights|) + added
  {
    hide Pow2, Total;
    ws := weights;
    added := 0;
    for i := 0 to |weights|
      invariant |ws| == |weights|
      invariant forall j :: 0 <= j < i ==> ws[j] == if weights[j] < floor then floor else weights[j]
      invariant forall j :: i <= j < |ws| ==> ws[j] == weights[j]
      invariant Total(ws, |ws|) == Total(weights, |weights|) + added
    {
      var weight := ws[i];
      if weight < floor {
        ghost var before: nat := added;
        for add := weight to floor
          invariant added + Pow2(weight) == before + Pow2(add)
        {
          AddsUp(add, add);
          added := added + Pow2(add);
        }
        TotalUpdate(ws, i, floor, |ws|);
        ws := ws[i := floor];
      }
    }
  }

  // ----- paying back -----

  /** The first of the highest weights whose decrease is not more than what is owed. */
  ghost predicate Highest(ws: seq<nat>, owed: nat, idx: nat) {
    && idx < |ws| && ws[idx] > 0 && Pow2(ws[idx] - 1) <= owed
    && (forall j :: 0 <= j < |ws| && ws[j] > ws[idx] ==> Pow2(ws[j] - 1) > owed)
    && forall j :: 0 <= j < idx ==> ws[j] < ws[idx]
  }

  /** Decreasing such weights one after the other until nothing is owed. */
  ghost predicate PaidTo(ws: seq<nat>, owed: nat, r: seq<nat>)
    decreases owed
  {
    if owed == 0 then r == ws else
    exists idx: nat :: Highest(ws, owed, idx) && PaidTo(ws[idx := ws[idx] - 1], owed - Pow2(ws[idx] - 1), r)
  }

  lemma PaidOne(ws: seq<nat>, owed: nat, idx: nat, r: seq<nat>)
    requires owed > 0 && Highest(ws, owed, idx) && PaidTo(ws[idx := ws[idx] - 1], owed - Pow2(ws[idx] - 1), r)
    ensures PaidTo(ws, owed, r)
  {
    hide Highest, Pow2;
  }

  /** What becomes of a list: nothing, when no code is longer than the limit; otherwise
      all weights are raised to the floor, what that adds is paid back, and the list is
      shifted down to begin with one. */
  ghost predicate Redistributed(weights: seq<nat>, limit: nat, ws: seq<nat>) {
    && |ws| == |weights| > 0 && Total(weights, |weights|) > 0
    && var log := Log2(Total(weights, |weights|));
      if log < limit then ws == weights else
      exists raised, paid :: RaisedTo(weights, log - limit + 1, raised) && Repaid(weights, raised, paid) && ShiftedDown(paid, ws)
  }

  ghost predicate RaisedTo(weights: seq<nat>, floor: nat, ws: seq<nat>) {
    |ws| == |weights| && forall i :: 0 <= i < |ws| ==> ws[i] == if weights[i] < floor then floor else weights[i]
  }

  ghost predicate Repaid(weights: seq<nat>, raised: seq<nat>, paid: seq<nat>) {
    && Total(raised, |raised|) >= Total(weights, |weights|)
    && PaidTo(raised, Total(raised, |raised|) - Total(weights, |weights|), paid)
  }

  ghost predicate ShiftedDown(paid: seq<nat>, ws: seq<nat>) {
    |ws| == |paid| > 0 && paid[0] >= 1 && forall i :: 0 <= i < |ws| ==> ws[i] + (paid[0] - 1) == paid[i]
  }

  /** The first position of the highest weight whose decrease is not too much.
      Weight zero means that there is none. */
  method Candidate(ws: seq<nat>, added: nat) returns (idx: nat, weight: nat)
    requires Ascending(ws) && AtLeast(ws, 1)
    ensures weight > 0 ==> idx < |ws| && ws[idx] == weight && Pow2(weight - 1) <= added
    ensures weight > 0 ==> forall j :: 0 <= j < idx ==> ws[j] < weight
    ensures forall j :: 0 <= j < |ws| && ws[j] > weight ==> Pow2(ws[j] - 1) > added
  {
    hide Pow2;
    idx, weight := 0, 0;
    var i := 0;
    while i < |ws|
      invariant 0 <= i <= |ws|
      invariant weight > 0 ==> idx < i && ws[idx] == weight && Pow2(weight - 1) <= added
      invariant weight > 0 ==> forall j :: 0 <= j < idx ==> ws[j] < weight
      invariant forall j :: 0 <= j < i ==> ws[j] <= weight
    {
      if Pow2(ws[i] - 1) > added {
        forall j | i <= j < |ws|
          ensures Pow2(ws[j] - 1) > added
        {
          Pow2Mono(ws[i] - 1, ws[j] - 1);
        }
        return;
      }
      if ws[i] > weight {
        weight := ws[i];
        idx := i;
      }
      i := i + 1;
    }
  }

  /** Half of the total of all weights equal to `d`: what they can give. */
  function Halves(ws: seq<nat>, d: nat, n: nat): nat
    requires n <= |ws| && d > 0
  {
    if n == 0 then 0 else Halves(ws, d, n - 1) + if ws[n - 1] == d then Pow2(d - 1) else 0
  }

  /** The total of all weights above `d`. */
  function Larger(ws: seq<nat>, d: nat, n: nat): nat
    requires n <= |ws|
  {
    if n == 0 then 0 else Larger(ws, d, n - 1) + if ws[n - 1] > d then Pow2(ws[n - 1]) else 0
  }

  lemma {:induction false} TotalSplits(ws: seq<nat>, d: nat, n: nat)
    requires n <= |ws| && d > 0 && AtLeast(ws, d)
    ensures Total(ws, n) == 2 * Halves(ws, d, n) + Larger(ws, d, n)
  {
    if n > 0 {
      TotalSplits(ws, d, n - 1);
    }
  }

  lemma {:induction false} HalvesUpdate(ws: seq<nat>, d: nat, i: nat, v: nat, n: nat)
    requires n <= |ws| && d > 0 && i < |ws| && ws[i] == d && v != d
    ensures Halves(ws[i := v], d, n) == Halves(ws, d, n) - if i < n then Pow2(d - 1) else 0
  {
    if n > 0 {
      HalvesUpdate(ws, d, i, v, n - 1);
    }
  }

  lemma {:induction false} HalvesBound(ws: seq<nat>, d: nat, n: nat)
    requires n <= |ws| && d > 0
    ensures Halves(ws, d, n) <= Up(n, d - 1)
  {
    if n == 0 {
      UpZero(d - 1);
    } else {
      HalvesBound(ws, d, n - 1);
      UpSum(n - 1, 1, d - 1);
      Pow2IsUp(0, d - 1);
    }
  }

  lemma {:induction false} LargerMultiple(ws: seq<nat>, d: nat, w: nat, n: nat) returns (q: nat)
    requires n <= |ws| && forall i :: 0 <= i < n && ws[i] > d ==> ws[i] >= w
    ensures Larger(ws, d, n) == Up(q, w)
  {
    if n == 0 {
      q := 0;
      UpZero(w);
    } else {
      q := LargerMultiple(ws, d, w, n - 1);
      if ws[n - 1] > d {
        Pow2IsUp(ws[n - 1] - w, w);
        UpSum(q, Pow2(ws[n - 1] - w), w);
        q := q + Pow2(ws[n - 1] - w);
      }
    }
  }

  /** Weights above `d` were at least as large before; the first one was not among them. */
  lemma {:induction false} LargerBound(ws: seq<nat>, orig: seq<nat>, d: nat, n: nat)
    requires 0 < n <= |ws| == |orig| && ws[0] == d
    requires forall i :: 0 <= i < n && ws[i] > d ==> ws[i] <= orig[i]
    ensures Larger(ws, d, n) < Total(orig, n)
  {
    if n > 1 {
      LargerBound(ws, orig, d, n - 1);
      if ws[n - 1] > d {
        Pow2Mono(ws[n - 1], orig[n - 1]);
      }
    } else {
      assert Larger(ws, d, 0) == 0 && Total(orig, 0) == 0;
    }
  }

  /** Nothing was raised above `d`. */
  ghost predicate Below(ws: seq<nat>, orig: seq<nat>, d: nat) {
    |ws| == |orig| && forall i :: 0 <= i < |ws| && ws[i] > d ==> ws[i] <= orig[i]
  }

  /** A single weight that has not been touched can be as large as the total. */
  lemma {:induction false} WeightInTotal(ws: seq<nat>, i: nat, n: nat)
    requires i < n <= |ws|
    ensures Pow2(ws[i]) <= Total(ws, n)
  {
    if i < n - 1 {
      WeightInTotal(ws, i, n - 1);
    }
  }

  /** As long as all weights are at least `v`, what is owed is a multiple of `2^v`:
      some decrease is possible. */
  lemma OwedIsMultiple(ws: seq<nat>, v: nat, log: nat, added: nat)
    requires AtLeast(ws, v) && Total(ws, |ws|) == Pow2(log) + added && v <= log && added > 0
    ensures added >= Pow2(v)
  {
    hide Total, Pow2, Up;
    var q := TotalMultiple(ws, v, |ws|);
    Pow2IsUp(log - v, v);
    var p := Pow2(log - v);
    if q < p {
      UpSum(q, p - q, v);
    } else {
      UpSum(p, q - p, v);
      UpAtLeast(q - p, v);
    }
  }

  lemma {:induction false} UpAtLeast(q: nat, v: nat)
    ensures q == 0 ==> Up(q, v) == 0
    ensures q > 0 ==> Up(q, v) >= Pow2(v)
  {
    if v > 0 {
      UpAtLeast(q, v - 1);
    }
  }

  /** When the smallest weights have to be decreased they can pay everything. */
  lemma SmallestCanPay(ws: seq<nat>, orig: seq<nat>, d: nat, limit: nat, log: nat, added: nat)
    requires d > 0 && |ws| > 0 && AtLeast(ws, d) && ws[0] == d && Below(ws, orig, d) && log == d - 1 + limit
    requires |ws| <= Pow2(limit)
    requires Total(ws, |ws|) == Pow2(log) + added && Total(orig, |orig|) == Pow2(log)
    requires forall j :: 0 <= j < |ws| && ws[j] > d ==> Pow2(ws[j] - 1) > added
    ensures Halves(ws, d, |ws|) >= added
  {
    hide Total, Pow2, Up, Halves, Larger;
    var n := |ws|;
    TotalSplits(ws, d, n);
    if forall j :: 0 <= j < n ==> ws[j] == d {
      var q := LargerMultiple(ws, d, log + 1, n);
      NothingLarger(ws, d, n);
      HalvesBound(ws, d, n);
      Pow2IsUp(limit, d - 1);
      UpSum(n, Pow2(limit) - n, d - 1);
    } else {
      var w := SmallestLarger(ws, d);
      var g := LargerMultiple(ws, d, w, n);
      LargerBound(ws, orig, d, n);
      var i :| 0 <= i < n && ws[i] == w;
      WeightInTotal(orig, i, n);
      Pow2Mono(w, orig[i]);
      Pow2Reflects(w, log);
      Pow2IsUp(log - w, w);
      StrictGap(g, Pow2(log - w), w);
      Pow2Double(w);
    }
  }

  lemma StrictGap(a: nat, b: nat, w: nat)
    requires Up(a, w) < Up(b, w)
    ensures Up(b, w) - Up(a, w) >= Pow2(w)
  {
    hide Up, Pow2;
    if a < b {
      UpSum(a, b - a, w);
      UpAtLeast(b - a, w);
    } else {
      UpSum(b, a - b, w);
    }
  }

  lemma {:induction false} NothingLarger(ws: seq<nat>, d: nat, n: nat)
    requires n <= |ws| && forall j :: 0 <= j < n ==> ws[j] <= d
    ensures Larger(ws, d, n) == 0
  {
    if n > 0 {
      NothingLarger(ws, d, n - 1);
    }
  }

  /** The smallest weight above `d`. */
  lemma SmallestLarger(ws: seq<nat>, d: nat) returns (w: nat)
    requires AtLeast(ws, d) && exists j :: 0 <= j < |ws| && ws[j] != d
    ensures w > d && (exists i :: 0 <= i < |ws| && ws[i] == w) && forall i :: 0 <= i < |ws| && ws[i] > d ==> ws[i] >= w
  {
    var j :| 0 <= j < |ws| && ws[j] != d;
    w := ws[j];
    for i := 0 to |ws|
      invariant w > d && (exists i :: 0 <= i < |ws| && ws[i] == w)
      invariant forall k :: 0 <= k < i && ws[k] > d ==> ws[k] >= w
    {
      if d < ws[i] < w {
        w := ws[i];
      }
    }
  }

  /** Before any weight of the floor `d` is touched all weights are at least `d`.
      Afterwards only weights `d` are decreased, and they suffice. */
  ghost predicate Paying(ws: seq<nat>, orig: seq<nat>, d: nat, log: nat, added: nat) {
    && |ws| == |orig| && d >= 2 && d <= log && Ascending(ws) && AtLeast(ws, d - 1)
    && Total(ws, |ws|) == Pow2(log) + added
    && (AtLeast(ws, d) || LastResort(ws, d, added))
    && Below(ws, orig, d)
  }

  ghost predicate LastResort(ws: seq<nat>, d: nat, added: nat)
    requires d > 0
  {
    && Halves(ws, d, |ws|) >= added
    && forall j :: 0 <= j < |ws| && ws[j] > d ==> Pow2(ws[j] - 1) > added
  }

  lemma {:induction false} SomeHalf(ws: seq<nat>, d: nat, n: nat) returns (i: nat)
    requires n <= |ws| && d > 0 && Halves(ws, d, n) > 0
    ensures i < n && ws[i] == d
  {
    if ws[n - 1] == d {
      i := n - 1;
    } else {
      i := SomeHalf(ws, d, n - 1);
    }
  }

  /** There is always a weight to decrease, and the list stays in order. */
  lemma PayStep(ws: seq<nat>, orig: seq<nat>, d: nat, limit: nat, log: nat, added: nat, idx: nat, weight: nat)
    requires Paying(ws, orig, d, log, added) && added > 0 && log == d - 1 + limit && |ws| > 0 && |ws| <= Pow2(limit)
    requires Total(orig, |orig|) == Pow2(log)
    requires weight > 0 ==> idx < |ws| && ws[idx] == weight && Pow2(weight - 1) <= added
    requires weight > 0 ==> forall j :: 0 <= j < idx ==> ws[j] < weight
    requires forall j :: 0 <= j < |ws| && ws[j] > weight ==> Pow2(ws[j] - 1) > added
    ensures weight > 0
    ensures Paying(ws[idx := weight - 1], orig, d, log, added - Pow2(weight - 1))
  {
    hide Total, Pow2, Halves;
    Eligible(ws, orig, d, log, added, weight);
    TotalUpdate(ws, idx, weight - 1, |ws|);
    Pow2Double(weight);
    if weight <= d {
      if AtLeast(ws, d) {
        SmallestCanPay(ws, orig, d, limit, log, added);
      }
      HalvesUpdate(ws, d, idx, d - 1, |ws|);
    }
  }

  /** The weight chosen is at least the floor. */
  lemma Eligible(ws: seq<nat>, orig: seq<nat>, d: nat, log: nat, added: nat, weight: nat)
    requires Paying(ws, orig, d, log, added) && added > 0 && |ws| > 0 && Total(orig, |orig|) == Pow2(log)
    requires forall j :: 0 <= j < |ws| && ws[j] > weight ==> Pow2(ws[j] - 1) > added
    ensures weight >= d
  {
    hide Total, Pow2, Halves;
    if AtLeast(ws, d) {
      WeightInTotal(orig, 0, |orig|);
      Pow2Reflects(orig[0], log);
      OwedIsMultiple(ws, ws[0], log, added);
      Pow2Double(ws[0]);
    } else {
      OwedIsMultiple(ws, d - 1, log, added);
      var i := SomeHalf(ws, d, |ws|);
    }
  }

  method SumOfPowers(weights: seq<nat>) returns (sum: nat)
    ensures sum == Total(weights, |weights|)
  {
    sum := 0;
    for i := 0 to |weights|
      invariant sum == Total(weights, i)
    {
      sum := sum + Pow2(weights[i]);
    }
  }

  /** After raising, either nothing changed or all weights are at least the floor. */
  lemma Raised(ws: seq<nat>, orig: seq<nat>, d: nat, log: nat, added: nat)
    requires |ws| == |orig| && |ws| > 0 && Ascending(ws) && AtLeast(orig, 1) && 1 <= d <= log
    requires forall i :: 0 <= i < |ws| ==> ws[i] == if orig[i] < d then d else orig[i]
    requires Total(ws, |ws|) == Total(orig, |orig|) + added && Total(orig, |orig|) == Pow2(log)
    ensures d >= 2 ==> Paying(ws, orig, d, log, added)
    ensures d == 1 ==> added == 0 && ws == orig
  {
    hide Total, Pow2;
    if d == 1 {
      assert ws == orig;
    }
  }

  // ----- most weights stay alike -----

  /** For every weight above the floor `d`: what stands before it outweighs half of
      the total by half of its power, or it and what follows is less than half. */
  ghost predicate Steep(ws: seq<nat>, j: nat, d: nat, log: nat)
    requires log > 0
  {
    forall i :: Pow2(j) < i < |ws| && ws[i] > d ==>
      Total(ws, i) >= Pow2(log - 1) + Pow2(ws[i] - 1) || Total(ws, |ws|) - Total(ws, i) < Pow2(log - 1)
  }

  lemma {:induction false} TotalMono(ws: seq<nat>, a: nat, b: nat)
    requires a <= b <= |ws|
    ensures Total(ws, a) <= Total(ws, b)
    ensures a < b ==> Total(ws, a) + Pow2(ws[a]) <= Total(ws, b)
    decreases b
  {
    if a < b {
      TotalMono(ws, a, b - 1);
    }
  }

  lemma {:induction false} FloorTotal(ws: seq<nat>, d: nat, n: nat)
    requires n <= |ws| && forall i :: 0 <= i < n ==> ws[i] == d
    ensures Total(ws, n) == Up(n, d)
  {
    if n == 0 {
      UpZero(d);
    } else {
      FloorTotal(ws, d, n - 1);
      UpSum(n - 1, 1, d);
      Pow2IsUp(0, d);
    }
  }

  lemma {:induction false} RaisedGain(ws: seq<nat>, orig: seq<nat>, a: nat, b: nat)
    requires a <= b <= |ws| == |orig| && forall i :: 0 <= i < |ws| ==> ws[i] >= orig[i]
    ensures Total(ws, b) - Total(orig, b) >= Total(ws, a) - Total(orig, a)
    decreases b
  {
    if a < b {
      RaisedGain(ws, orig, a, b - 1);
      Pow2Mono(orig[b - 1], ws[b - 1]);
    }
  }

  /** Raising the ones makes the list steep. */
  lemma RaisedSteep(ws: seq<nat>, orig: seq<nat>, j: nat, d: nat, log: nat)
    requires |ws| == |orig| && Staged(orig, j) && d >= 1 && log == j + d + 1
    requires forall i :: 0 <= i < |ws| ==> ws[i] == if orig[i] < d then d else orig[i]
    ensures Steep(ws, j, d, log)
  {
    hide Total, Pow2;
    var p := Pow2(j);
    FloorTotal(ws, d, p);
    FloorTotal(orig, 1, p);
    Pow2IsUp(j, d);
    Pow2IsUp(j, 1);
    forall i | p < i < |ws| && ws[i] > d
      ensures Total(ws, i) >= Pow2(log - 1) + Pow2(ws[i] - 1)
    {
      RaisedGain(ws, orig, p, i);
    }
  }

  /** A decrease keeps it steep, as long as the floor under it is untouched. */
  lemma SteepStep(ws: seq<nat>, j: nat, d: nat, log: nat, added: nat, idx: nat, weight: nat)
    requires log == j + d + 1 && Steep(ws, j, d, log) && Ascending(ws) && d > 0
    requires Total(ws, |ws|) == Pow2(log) + added
    requires weight >= d && idx < |ws| && ws[idx] == weight && Pow2(weight - 1) <= added
    requires forall i :: 0 <= i < |ws| && ws[i] > weight ==> Pow2(ws[i] - 1) > added
    requires weight > d ==> Pow2(j) <= idx && forall i :: 0 <= i < Pow2(j) ==> ws[i] == d
    ensures Steep(ws[idx := weight - 1], j, d, log)
  {
    hide Total, Pow2;
    var p, ws' := Pow2(j), ws[idx := weight - 1];
    Pow2Double(log);
    Pow2Double(weight);
    TotalUpdate(ws, idx, weight - 1, |ws|);
    if weight > d {
      FloorTotal(ws, d, p);
      Pow2IsUp(j, d);
      TotalMono(ws, p, idx);
    }
    forall i | p < i < |ws| && ws'[i] > d
      ensures Total(ws', i) >= Pow2(log - 1) + Pow2(ws'[i] - 1) || Total(ws', |ws|) - Total(ws', i) < Pow2(log - 1)
    {
      TotalUpdate(ws, idx, weight - 1, i);
      if i == idx {
        Pow2Mono(weight - 2, weight - 1);
      } else if idx < i && ws[i] == weight {
        TotalMono(ws, idx, i);
      }
    }
  }

  /** Nothing above the floor can be decreased: then the floor can pay and keeps
      `2^j` entries. */
  lemma FloorKeepsHalf(ws: seq<nat>, j: nat, d: nat, log: nat, added: nat)
    requires log == j + d + 1 && Steep(ws, j, d, log) && Ascending(ws) && AtLeast(ws, d) && d > 0
    requires Pow2(j) <= |ws| < Pow2(j + 1) && forall i :: 0 <= i < Pow2(j) ==> ws[i] == d
    requires Total(ws, |ws|) == Pow2(log) + added && added > 0
    requires forall i :: 0 <= i < |ws| && ws[i] > d ==> Pow2(ws[i] - 1) > added
    ensures Halves(ws, d, |ws|) >= added + Pow2(log - 2)
    ensures |ws| > Pow2(j) ==> ws[Pow2(j)] <= d
  {
    hide Total, Pow2, Up, Halves, Larger;
    var n, p := |ws|, Pow2(j);
    FloorTotal(ws, d, p);
    Pow2IsUp(j, d);
    Pow2Double(log);
    Pow2Double(log - 1);
    TotalSplits(ws, d, n);
    if forall i :: 0 <= i < n ==> ws[i] == d {
      FloorTotal(ws, d, n);
      Pow2IsUp(j + 1, d);
      UpSum(n, Pow2(j + 1) - n, d);
      assert false;
    }
    var i := FirstLarger(ws, d);
    var w := ws[i];
    LargerIsRest(ws, d, i, n);
    var q := LargerMultiple(ws, d, w, n);
    TotalMono(ws, i, n);
    Pow2Double(w);
    var rest := Total(ws, n) - Total(ws, i);
    if i == p {
      RestTooLarge(q, w, log, added);
    } else {
      assert rest < Pow2(log - 1);
      Pow2Reflects(w, log - 1);
      Pow2IsUp(log - 1 - w, w);
      StrictGap(q, Pow2(log - 1 - w), w);
    }
  }

  lemma FirstLarger(ws: seq<nat>, d: nat) returns (i: nat)
    requires AtLeast(ws, d) && Ascending(ws) && exists i :: 0 <= i < |ws| && ws[i] != d
    ensures i < |ws| && ws[i] > d && forall k :: 0 <= k < i ==> ws[k] == d
    ensures forall k :: i <= k < |ws| ==> ws[k] >= ws[i]
  {
    i := 0;
    while ws[i] == d
      invariant i < |ws| && forall k :: 0 <= k < i ==> ws[k] == d
      decreases |ws| - i
    {
      i := i + 1;
    }
  }

  lemma {:induction false} LargerIsRest(ws: seq<nat>, d: nat, i: nat, n: nat)
    requires i <= n <= |ws| && (forall k :: 0 <= k < i ==> ws[k] <= d) && forall k :: i <= k < n ==> ws[k] > d
    ensures Larger(ws, d, n) == Total(ws, n) - Total(ws, i)
    decreases n
  {
    if n > i {
      LargerIsRest(ws, d, i, n - 1);
    } else {
      NothingLarger(ws, d, n);
    }
  }

  /** A multiple of `2^w` does not exceed half of the total by less than half of `2^w`. */
  lemma RestTooLarge(q: nat, w: nat, log: nat, added: nat)
    requires w > 0 && log > 0 && Up(q, w) == Pow2(log - 1) + added && added > 0
    ensures added >= Pow2(w - 1)
  {
    hide Up, Pow2;
    Pow2Double(w);
    if w > log - 1 {
      UpAtLeast(q, w);
      Pow2Mono(log - 1, w - 1);
    } else {
      Pow2IsUp(log - 1 - w, w);
      StrictGap(Pow2(log - 1 - w), q, w);
    }
  }

  /** For a list made in rounds and a limit that leaves one bit to spare: `2^j`
      entries stay on the floor, also when the floor itself has to pay. */
  ghost predicate HalfKept(ws: seq<nat>, j: nat, d: nat, log: nat, added: nat) {
    && d > 0 && log == j + d + 1 && Pow2(j) <= |ws| < Pow2(j + 1) && Steep(ws, j, d, log)
    && if AtLeast(ws, d) then forall i :: 0 <= i < Pow2(j) ==> ws[i] == d
       else Halves(ws, d, |ws|) >= added + Pow2(log - 2) && (|ws| > Pow2(j) ==> ws[Pow2(j)] <= d)
  }

  lemma HalfKeptStart(ws: seq<nat>, orig: seq<nat>, j: nat, d: nat, log: nat, added: nat)
    requires |ws| == |orig| && Staged(orig, j) && d >= 1 && log == j + d + 1
    requires forall i :: 0 <= i < |ws| ==> ws[i] == if orig[i] < d then d else orig[i]
    ensures HalfKept(ws, j, d, log, added)
  {
    hide Total, Pow2, Steep;
    RaisedSteep(ws, orig, j, d, log);
  }

  lemma HalfKeptStep(ws: seq<nat>, orig: seq<nat>, j: nat, d: nat, log: nat, added: nat, idx: nat, weight: nat)
    requires Paying(ws, orig, d, log, added) && HalfKept(ws, j, d, log, added) && added > 0
    requires weight >= d && idx < |ws| && ws[idx] == weight && Pow2(weight - 1) <= added
    requires forall i :: 0 <= i < idx ==> ws[i] < weight
    requires forall i :: 0 <= i < |ws| && ws[i] > weight ==> Pow2(ws[i] - 1) > added
    ensures HalfKept(ws[idx := weight - 1], j, d, log, added - Pow2(weight - 1))
  {
    hide Total, Pow2, Halves, Steep;
    var ws' := ws[idx := weight - 1];
    SteepStep(ws, j, d, log, added, idx, weight);
    if AtLeast(ws, d) && weight > d {
      assert AtLeast(ws', d);
    } else {
      assert ws'[idx] == d - 1;
      if AtLeast(ws, d) {
        FloorKeepsHalf(ws, j, d, log, added);
      }
      HalvesUpdate(ws, d, idx, d - 1, |ws|);
    }
  }

  /** Decrease the highest weight that is not too high, until nothing is owed. */
  method PayBack(ws: seq<nat>, added: nat, ghost orig: seq<nat>, ghost d: nat, ghost limit: nat, ghost log: nat, ghost j: nat)
    returns (r: seq<nat>)
    requires 1 <= d <= log && log == d - 1 + limit && 0 < |ws| <= Pow2(limit) && Total(orig, |orig|) == Pow2(log)
    requires d >= 2 ==> Paying(ws, orig, d, log, added)
    requires d == 1 ==> added == 0
    ensures |r| == |ws|
    ensures d >= 2 ==> Paying(r, orig, d, log, 0)
    ensures d == 1 ==> r == ws
    ensures d >= 2 && HalfKept(ws, j, d, log, added) ==> HalfKept(r, j, d, log, 0)
    ensures PaidTo(ws, added, r)
  {
    hide Total, Pow2, LastResort, HalfKept, PaidTo, Highest;
    r := ws;
    var addedWeights: nat := added;
    while addedWeights > 0
      invariant forall x :: PaidTo(r, addedWeights, x) ==> PaidTo(ws, added, x)
      invariant |r| == |ws|
      invariant d >= 2 ==> Paying(r, orig, d, log, addedWeights)
      invariant d == 1 ==> r == ws && addedWeights == 0
      invariant d >= 2 && HalfKept(ws, j, d, log, added) ==> HalfKept(r, j, d, log, addedWeights)
    {
      PositiveWeights(r, d);
      var idx, weight := Candidate(r, addedWeights);
      PayStep(r, orig, d, limit, log, addedWeights, idx, weight);
      Eligible(r, orig, d, log, addedWeights, weight);
      CandidateHighest(r, addedWeights, idx, weight);
      forall x | PaidTo(r[idx := weight - 1], addedWeights - Pow2(weight - 1), x)
        ensures PaidTo(ws, added, x)
      {
        PaidOne(r, addedWeights, idx, x);
      }
      if HalfKept(r, j, d, log, addedWeights) {
        HalfKeptStep(r, orig, j, d, log, addedWeights, idx, weight);
      }
      addedWeights := addedWeights - Pow2(weight - 1);
      r := r[idx := r[idx] - 1];
    }
    NothingOwed(r);
  }

  lemma NothingOwed(ws: seq<nat>)
    ensures PaidTo(ws, 0, ws)
  {
  }

  lemma CandidateHighest(ws: seq<nat>, owed: nat, idx: nat, weight: nat)
    requires weight > 0 && idx < |ws| && ws[idx] == weight && Pow2(weight - 1) <= owed
    requires forall j :: 0 <= j < idx ==> ws[j] < weight
    requires forall j :: 0 <= j < |ws| && ws[j] > weight ==> Pow2(ws[j] - 1) > owed
    ensures Highest(ws, owed, idx)
  {
  }

  lemma PositiveWeights(ws: seq<nat>, d: nat)
    requires d >= 2 && AtLeast(ws, d - 1)
    ensures AtLeast(ws, 1)
  {
  }

  /** Shift the weights down so that they start at one again. */
  method Normalise(weights: seq<nat>) returns (ws: seq<nat>)
    requires |weights| > 0 && weights[0] >= 1 && Ascending(weights)
    ensures |ws| == |weights| && forall i :: 0 <= i < |ws| ==> ws[i] == weights[i] - (weights[0] - 1)
  {
    ws := weights;
    if weights[0] > 1 {
      var offset := weights[0] - 1;
      for i := 0 to |ws|
        invariant |ws| == |weights|
        invariant forall j :: 0 <= j < i ==> ws[j] == weights[j] - offset
        invariant forall j :: i <= j < |ws| ==> ws[j] == weights[j]
      {
        ws := ws[i := ws[i] - offset];
      }
    }
  }

  lemma {:induction false} TotalShifted(ws: seq<nat>, r: seq<nat>, offset: nat, n: nat)
    requires n <= |ws| == |r| && forall i :: 0 <= i < |r| ==> ws[i] == r[i] + offset
    ensures Total(ws, n) == Up(Total(r, n), offset)
  {
    if n == 0 {
      UpZero(offset);
    } else {
      TotalShifted(ws, r, offset, n - 1);
      Pow2IsUp(r[n - 1], offset);
      UpSum(Total(r, n - 1), Pow2(r[n - 1]), offset);
    }
  }

  lemma ShiftedComplete(ws: seq<nat>, r: seq<nat>, log: nat)
    requires |ws| == |r| && |ws| > 0 && Ascending(ws) && 1 <= ws[0] <= log && Total(ws, |ws|) == Pow2(log)
    requires forall i :: 0 <= i < |r| ==> r[i] == ws[i] - (ws[0] - 1)
    ensures Ascending(r) && r[0] == 1 && Complete(r, log - ws[0])
  {
    hide Total, Pow2, Complete, Up;
    var offset := ws[0] - 1;
    TotalShifted(ws, r, offset, |ws|);
    Pow2IsUp(log - offset, offset);
    UpMonotone(Total(r, |r|), Pow2(log - offset), offset);
    UpMonotone(Pow2(log - offset), Total(r, |r|), offset);
    TotalComplete(r, log - ws[0]);
  }

  // ----- the result -----

  /** At least `2^j` entries are the same, one or two, and none exceeds `j + 1`. */
  ghost predicate Alike(ws: seq<nat>, j: nat) {
    && (forall i :: 0 <= i < |ws| ==> ws[i] <= j + 1)
    && (CountOf(ws, 1) >= Pow2(j) || CountOf(ws, 2) >= Pow2(j))
  }

  /** Of `n` symbols at least half, `2^j` or more, have the same weight, one or two. */
  ghost predicate MostlyAlike(ws: seq<nat>, n: nat, j: nat) {
    && Alike(ws, j) && Pow2(j) <= n < Pow2(j + 1) && n <= |ws| && CountOf(ws, 0) == |ws| - n
  }

  lemma BelowTotal(ws: seq<nat>, i: nat, log: nat)
    requires |ws| >= 2 && i < |ws| && Total(ws, |ws|) == Pow2(log)
    ensures ws[i] < log
  {
    hide Pow2;
    var n := |ws| - 1;
    if i < n {
      WeightInTotal(ws, i, n);
    } else {
      WeightInTotal(ws, 0, n);
    }
    if ws[i] >= log {
      Pow2Mono(log, ws[i]);
    }
  }

  lemma {:induction false} HalvesCount(ws: seq<nat>, d: nat, n: nat)
    requires d > 0 && n <= |ws|
    ensures Halves(ws, d, n) == Up(CountOf(ws[..n], d), d - 1)
  {
    if n == 0 {
      UpZero(d - 1);
    } else {
      HalvesCount(ws, d, n - 1);
      assert ws[..n][..n - 1] == ws[..n - 1];
      UpSum(CountOf(ws[..n - 1], d), 1, d - 1);
      Pow2IsUp(0, d - 1);
    }
  }

  lemma {:induction false} CountShifted(ws: seq<nat>, r: seq<nat>, offset: nat, v: nat)
    requires |ws| == |r| && forall i :: 0 <= i < |r| ==> ws[i] == r[i] + offset
    ensures CountOf(ws, v + offset) == CountOf(r, v)
  {
    if r != [] {
      CountShifted(ws[..|ws| - 1], r[..|r| - 1], offset, v);
    }
  }

  /** A list that was good from the start. */
  lemma AlikeBefore(ws: seq<nat>, j: nat, log: nat)
    requires Staged(ws, j) && |ws| >= 2 && Total(ws, |ws|) == Pow2(log) && log <= j + 2
    ensures Alike(ws, j)
  {
    hide Total, Pow2;
    CountConstant(ws, 1, Pow2(j));
    forall i | 0 <= i < |ws|
      ensures ws[i] <= j + 1
    {
      BelowTotal(ws, i, log);
    }
  }

  lemma AlikeAfter(ws: seq<nat>, r: seq<nat>, j: nat, d: nat, log: nat)
    requires |ws| == |r| && |r| >= 2 && d >= 2 && HalfKept(ws, j, d, log, 0) && Total(ws, |ws|) == Pow2(log)
    requires Ascending(ws) && AtLeast(ws, d - 1) && forall i :: 0 <= i < |r| ==> r[i] == ws[i] - (ws[0] - 1)
    ensures Alike(r, j)
  {
    hide Total, Pow2, Halves, Steep;
    if AtLeast(ws, d) {
      Pow2Mono(0, j);
      CountConstant(r, 1, Pow2(j));
      forall i | 0 <= i < |ws|
        ensures r[i] <= j + 1
      {
        BelowTotal(ws, i, log);
      }
    } else {
      assert ws[0] == d - 1;
      HalvesCount(ws, d, |ws|);
      assert ws[..|ws|] == ws;
      Pow2IsUp(j, d - 1);
      UpMonotone(Pow2(j), CountOf(ws, d), d - 1);
      CountShifted(ws, r, d - 2, 2);
      forall i | 0 <= i < |ws|
        ensures r[i] <= j + 1
      {
        LowAfterLastResort(ws, j, d, log, i);
      }
    }
  }

  lemma LowAfterLastResort(ws: seq<nat>, j: nat, d: nat, log: nat, i: nat)
    requires 2 <= |ws| && i < |ws| && d >= 2 && log == j + d + 1 && Pow2(j) <= |ws| < Pow2(j + 1) && Steep(ws, j, d, log)
    requires Total(ws, |ws|) == Pow2(log) && Ascending(ws) && AtLeast(ws, d - 1) && !AtLeast(ws, d)
    requires CountOf(ws, d) >= Pow2(j) && (|ws| > Pow2(j) ==> ws[Pow2(j)] <= d)
    ensures ws[i] <= log - 2
  {
    hide Total;
    Pow2Reflects(1, j + 1) by { Pow2Values(); }
    CountBound(ws, d);
    if |ws| == Pow2(j) {
      CountFull(ws, d);
      assert false;
    } else if i > Pow2(j) && ws[i] > d {
      TotalMono(ws, i, |ws|);
      if ws[i] >= log - 1 {
        Pow2Mono(log - 1, ws[i]);
      }
    }
  }

  /** Raise the low weights, then decrease weights until the total is the old one.
      A weight to decrease is always found, and no code gets longer than the limit.
      With the limit the encoder uses, half of a list made in rounds ends up alike. */
  method RedistributeWeights(weights: seq<nat>, maxNumBits: nat, ghost m: nat, ghost j: nat) returns (ws: seq<nat>, ghost m': nat)
    requires Ascending(weights) && |weights| >= 2 && weights[0] == 1 && Complete(weights, m)
    requires 1 <= maxNumBits && |weights| <= Pow2(maxNumBits)
    ensures |ws| == |weights| && Ascending(ws) && ws[0] == 1 && Complete(ws, m') && m' <= maxNumBits
    ensures Staged(weights, j) && maxNumBits == j + 2 ==> Alike(ws, j)
    ensures Redistributed(weights, maxNumBits, ws)
  {
    hide Total, Pow2, Complete, Log2, LastResort, HalfKept, Staged, Alike, PaidTo, Redistributed;
    FirstIsLeast(weights);
    TotalComplete(weights, m);
    Log2OfPow2(m + 1);
    ws := weights;
    m' := m;
    var sum := SumOfPowers(weights);
    var weightSumLog := Log2(sum);
    ghost var staged := Staged(weights, j) && maxNumBits == j + 2;
    if staged && weightSumLog <= maxNumBits {
      AlikeBefore(weights, j, m + 1);
    }
    if weightSumLog < maxNumBits {
      Unchanged(weights, maxNumBits);
      return;
    }
    var decreaseWeightsBy := weightSumLog - maxNumBits + 1;
    var addedWeights;
    ws, addedWeights := RaiseWeights(ws, decreaseWeightsBy);
    ghost var raised := ws;
    Raised(ws, weights, decreaseWeightsBy, m + 1, addedWeights);
    if staged {
      HalfKeptStart(ws, weights, j, decreaseWeightsBy, m + 1, addedWeights);
    }
    ws := PayBack(ws, addedWeights, weights, decreaseWeightsBy, maxNumBits, m + 1, j);
    WeightInTotal(ws, 0, |ws|);
    Pow2Reflects(ws[0], m + 1);
    ghost var before := ws;
    m' := m + 1 - ws[0];
    ws := Normalise(ws);
    ShiftedComplete(before, ws, m + 1);
    if staged && decreaseWeightsBy >= 2 {
      AlikeAfter(before, ws, j, decreaseWeightsBy, m + 1);
    }
    assert decreaseWeightsBy == 1 ==> ws == weights;
    AllSteps(weights, maxNumBits, raised, before, ws, addedWeights);
  }

  lemma Unchanged(weights: seq<nat>, limit: nat)
    requires |weights| > 0 && Total(weights, |weights|) > 0 && Log2(Total(weights, |weights|)) < limit
    ensures Redistributed(weights, limit, weights)
  {
  }

  lemma AllSteps(weights: seq<nat>, limit: nat, raised: seq<nat>, paid: seq<nat>, ws: seq<nat>, added: nat)
    requires |weights| > 0 && Total(weights, |weights|) > 0 && Log2(Total(weights, |weights|)) >= limit
    requires RaisedTo(weights, Log2(Total(weights, |weights|)) - limit + 1, raised) && PaidTo(raised, added, paid)
    requires Total(raised, |raised|) == Total(weights, |weights|) + added && ShiftedDown(paid, ws) && |paid| == |weights|
    ensures Redistributed(weights, limit, ws)
  {
    hide Total, Pow2, RaisedTo, PaidTo, Log2;
    assert Repaid(weights, raised, paid);
  }

  lemma FirstIsLeast(ws: seq<nat>)
    requires Ascending(ws) && |ws| > 0
    ensures AtLeast(ws, ws[0])
  {
  }

  lemma Log2OfPow2(n: nat)
    ensures Pow2(n) > 0 && Log2(Pow2(n)) == n
  {
    assert Pow2(n) < Pow2(n + 1);
    Log2Unique(Pow2(n), n);
  }
}
