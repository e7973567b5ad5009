/** From symbol counts to a probability distribution whose total is a power of two,
    and on to the encoding table. */
module FseNormalise {
  import opened Numbers
  import opened Bits
  import opened Results
  import opened FseDistribution
  import opened FseStream
  import opened Counting
  import FseEncodingTable
  import FseRoundTrip

  // ----- selections -----

  ghost predicate NonNegative(ps: seq<int>) {
    forall i :: 0 <= i < |ps| ==> ps[i] >= 0
  }

  /** The smallest positive count, zero when there is none. */
  function MinCount(counts: seq<nat>, n: nat): (m: nat)
    requires n <= |counts|
    ensures m == 0 <==> forall i :: 0 <= i < n ==> counts[i] == 0
    ensures m > 0 ==> forall i :: 0 <= i < n && counts[i] > 0 ==> m <= counts[i]
  {
    if n == 0 then 0 else
    var m := MinCount(counts, n - 1);
    if counts[n - 1] > 0 && (counts[n - 1] < m || m == 0) then counts[n - 1] else m
  }

  function Maximum(ps: seq<int>, n: nat): (m: nat)
    requires n <= |ps|
    ensures forall i :: 0 <= i < n ==> ps[i] <= m
    ensures m == 0 || exists i :: 0 <= i < n && ps[i] == m
  {
    if n == 0 then 0 else
    var m := Maximum(ps, n - 1);
    if ps[n - 1] > m then ps[n - 1] else m
  }

  /** The last position of the largest value. */
  function LastMax(ps: seq<int>, n: nat): (i: nat)
    requires 0 < n <= |ps|
    ensures i < n
    ensures forall j :: 0 <= j < n ==> ps[j] <= ps[i]
    ensures forall j :: i < j < n ==> ps[j] < ps[i]
  {
    if n == 1 then 0 else
    var i := LastMax(ps, n - 1);
    if ps[n - 1] >= ps[i] then n - 1 else i
  }

  /** The first position of the smallest value above one. */
  function FirstMin(ps: seq<int>, n: nat): (r: Option<nat>)
    requires n <= |ps|
    ensures r.Some? ==> r.value < n && ps[r.value] > 1
    ensures r.Some? ==> forall j :: 0 <= j < n && ps[j] > 1 ==> ps[r.value] <= ps[j]
    ensures r.Some? ==> forall j :: 0 <= j < r.value && ps[j] > 1 ==> ps[r.value] < ps[j]
    ensures r.None? ==> forall j :: 0 <= j < n ==> ps[j] <= 1
  {
    if n == 0 then None else
    var r := FirstMin(ps, n - 1);
    if ps[n - 1] > 1 && (r.None? || ps[n - 1] < ps[r.value]) then Some(n - 1) else r
  }

  /** The first position of the largest value other than `x`. */
  function FirstMaxExcept(ps: seq<int>, x: int, n: nat): (r: Option<nat>)
    requires n <= |ps|
    ensures r.Some? ==> r.value < n && ps[r.value] != x
    ensures r.Some? ==> forall j :: 0 <= j < n && ps[j] != x ==> ps[j] <= ps[r.value]
    ensures r.Some? ==> forall j :: 0 <= j < r.value && ps[j] != x ==> ps[j] < ps[r.value]
    ensures r.None? ==> forall j :: 0 <= j < n ==> ps[j] == x
  {
    if n == 0 then None else
    var r := FirstMaxExcept(ps, x, n - 1);
    if ps[n - 1] != x && (r.None? || ps[n - 1] > ps[r.value]) then Some(n - 1) else r
  }

  // ----- totals -----

  function Positives(ps: seq<int>, n: nat): nat
    requires n <= |ps|
  {
    if n == 0 then 0 else Positives(ps, n - 1) + if ps[n - 1] > 0 then 1 else 0
  }

  lemma {:induction false} TotalUpdate(ps: seq<int>, i: nat, v: int, n: nat)
    requires i < |ps| && n <= |ps| && ps[i] >= 0 && v >= 0
    ensures Before(ps[i := v], n) == Before(ps, n) + if i < n then v - ps[i] else 0
    ensures (ps[i] > 0 <==> v > 0) ==> Positives(ps[i := v], n) == Positives(ps, n)
  {
    if n > 0 {
      TotalUpdate(ps, i, v, n - 1);
    }
  }

  lemma {:induction false} SamePositives(ps: seq<int>, qs: seq<int>, n: nat)
    requires n <= |ps| == |qs|
    requires forall i :: 0 <= i < n ==> (ps[i] > 0 <==> qs[i] > 0)
    ensures Positives(ps, n) == Positives(qs, n)
  {
    if n > 0 {
      SamePositives(ps, qs, n - 1);
    }
  }

  lemma {:induction false} SomePositive(ps: seq<int>, i: nat, n: nat)
    requires i < n <= |ps| && ps[i] > 0
    ensures Before(ps, n) >= ps[i]
  {
    BeforeMono(ps, i, n);
  }

  /** Values of at most one add up to the number of positive ones. */
  lemma {:induction false} OnesTotal(ps: seq<int>, n: nat)
    requires n <= |ps| && NonNegative(ps)
    requires forall i :: 0 <= i < n ==> ps[i] <= 1
    ensures Before(ps, n) == Positives(ps, n)
  {
    if n > 0 {
      OnesTotal(ps, n - 1);
    }
  }

  lemma TwoBelowTotal(ps: seq<int>, i: nat, j: nat)
    requires NonNegative(ps) && i < |ps| && j < |ps| && i != j
    ensures ps[i] + ps[j] <= Before(ps, |ps|)
  {
    var a: nat, b: nat := if i < j then i else j, if i < j then j else i;
    BeforeMono(ps, a, b);
    BeforeMono(ps, b, |ps|);
  }

  lemma {:induction false} NoneNegative(ps: seq<int>, n: nat)
    requires n <= |ps| && NonNegative(ps)
    ensures NegBefore(ps, n) == 0
  {
    if n > 0 {
      NoneNegative(ps, n - 1);
    }
  }

  // ----- the steps of the normalisation -----

  /** What every step keeps: the same symbols occur. */
  ghost predicate SameSupport(ps: seq<int>, qs: seq<int>) {
    && |ps| == |qs| && NonNegative(ps) && NonNegative(qs)
    && forall i :: 0 <= i < |ps| ==> (ps[i] > 0 <==> qs[i] > 0)
  }

  function ShiftOne(c: nat, min: nat): int
    requires min > 0
  {
    if c > 0 then c - (min - 1) else c
  }

  /** Shift all positive counts down so that the smallest becomes one. */
  function Shifted(counts: seq<nat>): (ps: seq<int>)
    requires MinCount(counts, |counts|) > 0
    ensures SameSupport(counts, ps)
  {
    var min := MinCount(counts, |counts|);
    seq(|counts|, i requires 0 <= i < |counts| => ShiftOne(counts[i], min))
  }

  lemma QuotientPositive(n: nat, d: nat)
    requires 0 < d <= n
    ensures n / d > 0
  {
    DivMod(n, d);
  }

  function DivideOne(p: int, divisor: nat): int
    requires divisor > 0
  {
    if p > 0 then (if p / divisor > 1 then p / divisor else 1) else p
  }

  /** Divide everything when the largest exceeds the number of symbols. */
  function Divided(ps: seq<int>): (qs: seq<int>)
    requires NonNegative(ps) && |ps| > 0
    ensures SameSupport(ps, qs)
  {
    var max := Maximum(ps, |ps|);
    if max > |ps| then
      QuotientPositive(max, |ps|);
      seq(|ps|, i requires 0 <= i < |ps| => DivideOne(ps[i], max / |ps|))
    else ps
  }

  function AccLogFor(sum: nat, maxLog: nat): nat
    requires sum > 0
  {
    var log := if Log2(sum) + 1 > 5 then Log2(sum) + 1 else 5;
    if log < maxLog then log else maxLog
  }

  /** Raise the largest probability. */
  function Raised(ps: seq<int>, diff: nat): (qs: seq<int>)
    requires NonNegative(ps) && Before(ps, |ps|) > 0
    ensures SameSupport(ps, qs) && Before(qs, |qs|) == Before(ps, |ps|) + diff
  {
    var max := LastMax(ps, |ps|);
    LargestPositive(ps);
    TotalUpdate(ps, max, ps[max] + diff, |ps|);
    ps[max := ps[max] + diff]
  }

  lemma LargestPositive(ps: seq<int>)
    requires NonNegative(ps) && Before(ps, |ps|) > 0
    ensures |ps| > 0 && ps[LastMax(ps, |ps|)] > 0
  {
    if forall i :: 0 <= i < |ps| ==> ps[i] == 0 {
      OnesTotal(ps, |ps|);
      NoPositives(ps, |ps|);
    }
  }

  lemma {:induction false} NoPositives(ps: seq<int>, n: nat)
    requires n <= |ps| && forall i :: 0 <= i < |ps| ==> ps[i] == 0
    ensures Positives(ps, n) == 0
  {
    if n > 0 {
      NoPositives(ps, n - 1);
    }
  }

  lemma SurplusAboveOne(ps: seq<int>, diff: nat)
    requires NonNegative(ps) && diff > 0 && Before(ps, |ps|) >= Positives(ps, |ps|) + diff
    ensures FirstMin(ps, |ps|).Some?
  {
    if FirstMin(ps, |ps|).None? {
      OnesTotal(ps, |ps|);
    }
  }

  function Decrease(p: int, diff: nat): (d: nat)
    requires p > 1
    ensures p - d >= 1 && d <= diff && (diff > 0 ==> d > 0)
  {
    if p - 1 < diff then p - 1 else diff
  }

  /** Take the surplus from the smallest probabilities above one, as much as they
      have to give. */
  function Reduced(ps: seq<int>, diff: nat): (qs: seq<int>)
    requires NonNegative(ps) && Before(ps, |ps|) >= Positives(ps, |ps|) + diff
    ensures SameSupport(ps, qs) && Before(qs, |qs|) == Before(ps, |ps|) - diff
    ensures forall i :: 0 <= i < |ps| ==> qs[i] <= ps[i]
    decreases diff
  {
    if diff == 0 then ps else
    SurplusAboveOne(ps, diff);
    var min := FirstMin(ps, |ps|).value;
    var decrease := Decrease(ps[min], diff);
    TotalUpdate(ps, min, ps[min] - decrease, |ps|);
    Reduced(ps[min := ps[min] - decrease], diff - decrease)
  }

  ghost predicate AtMost(ps: seq<int>, bound: nat) {
    forall i :: 0 <= i < |ps| ==> ps[i] <= bound
  }

  lemma BalancePoints(ps: seq<int>, half: nat)
    requires NonNegative(ps) && |ps| > 1 && Before(ps, |ps|) == 2 * half
    requires ps[LastMax(ps, |ps|)] > half
    ensures var max := LastMax(ps, |ps|);
      var rest := ps[max := half];
      var second := FirstMaxExcept(rest, half, |ps|);
      && second.Some? && second.value != max && ps[max] + ps[second.value] <= 2 * half
      && forall i :: 0 <= i < |ps| && i != max ==> ps[i] < half
  {
    var max := LastMax(ps, |ps|);
    var rest := ps[max := half];
    forall i | 0 <= i < |ps| && i != max
      ensures ps[i] < half
    {
      TwoBelowTotal(ps, i, max);
    }
    var other := if max == 0 then 1 else 0;
    assert rest[other] != half;
    TwoBelowTotal(ps, max, FirstMaxExcept(rest, half, |ps|).value);
  }

  /** With a single slot, and only then, there is no second symbol to move the rest
      to: the source finds none and stops. */
  lemma NoSecondSymbol(ps: seq<int>, half: nat)
    requires NonNegative(ps) && |ps| > 0 && half > 0 && Before(ps, |ps|) == 2 * half
    requires ps[LastMax(ps, |ps|)] > half
    ensures FirstMaxExcept(ps[LastMax(ps, |ps|) := half], half, |ps|).None? <==> |ps| == 1
  {
    if |ps| > 1 {
      BalancePoints(ps, half);
    }
  }

  /** The largest probability exceeds one half, and there is no second one to raise. */
  ghost predicate FindsNoSecond(counts: seq<nat>, maxLog: nat)
    requires Normalisable(counts, maxLog, false)
  {
    var (ps, accLog) := Exact(counts, maxLog);
    var max, half := LastMax(ps, |ps|), Pow2(accLog - 1);
    ps[max] > half && FirstMaxExcept(ps[max := half], half, |ps|).None?
  }

  /** The table builder meets that case exactly for counts of a single slot. */
  lemma SingleSlot(counts: seq<nat>, maxLog: nat)
    requires Normalisable(counts, maxLog, false)
    ensures FindsNoSecond(counts, maxLog) <==> |counts| == 1
  {
    hide Exact, FirstMaxExcept;
    var (ps, accLog) := Exact(counts, maxLog);
    Pow2Double(accLog);
    if |ps| == 1 {
      assert Before(ps, 0) == 0;
    }
    if ps[LastMax(ps, |ps|)] > Pow2(accLog - 1) {
      NoSecondSymbol(ps, Pow2(accLog - 1));
    }
  }

  /** Move what the largest probability has above one half to the second largest. */
  function Balanced(ps: seq<int>, half: nat): (qs: seq<int>)
    requires NonNegative(ps) && |ps| > 1 && half > 0 && Before(ps, |ps|) == 2 * half
    ensures |qs| == |ps| && NonNegative(qs) && Before(qs, |qs|) == Before(ps, |ps|)
    ensures forall i :: 0 <= i < |ps| && ps[i] > 0 ==> qs[i] > 0
    ensures AtMost(qs, half)
  {
    var max := LastMax(ps, |ps|);
    if ps[max] <= half then ps else
    BalancePoints(ps, half);
    var rest := ps[max := half];
    var second := FirstMaxExcept(rest, half, |ps|).value;
    TotalUpdate(ps, max, half, |ps|);
    TotalUpdate(rest, second, rest[second] + (ps[max] - half), |ps|);
    rest[second := rest[second] + (ps[max] - half)]
  }

  // ----- the normalisation -----

  /** The counts the encoder accepts: a symbol occurs, a table of `2^maxLog` has a
      cell for each, and there is a second slot to move surplus to. */
  ghost predicate Normalisable(counts: seq<nat>, maxLog: nat, avoidZero: bool) {
    && 5 <= maxLog && 0 < |counts| <= 256
    && (exists i :: 0 <= i < |counts| && counts[i] > 0)
    && Positives(counts, |counts|) <= Pow2(maxLog)
    && (avoidZero ==> |counts| > 1)
  }

  ghost function Scaled(counts: seq<nat>): (ps: seq<int>)
    requires |counts| > 0 && exists i :: 0 <= i < |counts| && counts[i] > 0
    ensures SameSupport(counts, ps) && Before(ps, |ps|) > 0
  {
    var i :| 0 <= i < |counts| && counts[i] > 0;
    var ps := Divided(Shifted(counts));
    SomePositive(ps, i, |ps|);
    ps
  }

  /** If there is a surplus, the table has the largest size allowed. */
  lemma SurplusMeansMax(sum: nat, maxLog: nat)
    requires sum > 0 && 5 <= maxLog
    ensures 5 <= AccLogFor(sum, maxLog) <= maxLog
    ensures sum >= Pow2(AccLogFor(sum, maxLog)) ==> AccLogFor(sum, maxLog) == maxLog
  {
    hide Pow2;
    if AccLogFor(sum, maxLog) < maxLog {
      Pow2Mono(Log2(sum) + 1, AccLogFor(sum, maxLog));
    }
  }

  lemma ScaledFits(counts: seq<nat>, maxLog: nat)
    requires Normalisable(counts, maxLog, false)
    ensures var ps := Scaled(counts);
      var sum := Before(ps, |ps|);
      && 5 <= AccLogFor(sum, maxLog) <= maxLog
      && (sum >= Pow2(AccLogFor(sum, maxLog)) ==> Pow2(AccLogFor(sum, maxLog)) >= Positives(ps, |ps|))
  {
    hide Scaled, AccLogFor, Pow2;
    var ps := Scaled(counts);
    SurplusMeansMax(Before(ps, |ps|), maxLog);
    SamePositives(counts, ps, |ps|);
  }

  /** Exactly `2^accLog` in total. */
  ghost function Exact(counts: seq<nat>, maxLog: nat): (r: (seq<int>, nat))
    requires Normalisable(counts, maxLog, false)
    ensures SameSupport(counts, r.0) && Before(r.0, |r.0|) == Pow2(r.1) && 5 <= r.1 <= maxLog
  {
    var ps := Scaled(counts);
    var sum := Before(ps, |ps|);
    ScaledFits(counts, maxLog);
    var accLog := AccLogFor(sum, maxLog);
    if sum < Pow2(accLog) then (Raised(ps, Pow2(accLog) - sum), accLog)
    else (Reduced(ps, sum - Pow2(accLog)), accLog)
  }

  ghost function Normalised(counts: seq<nat>, maxLog: nat, avoidZero: bool): (r: (seq<int>, nat))
    requires Normalisable(counts, maxLog, avoidZero)
    ensures |r.0| == |counts| && NonNegative(r.0) && 5 <= r.1 <= maxLog
  {
    var (ps, accLog) := Exact(counts, maxLog);
    if avoidZero then (Balanced(ps, Pow2(accLog - 1)), accLog) else (ps, accLog)
  }

  /** The result is a distribution of exactly `2^accLog`; no occurring symbol is
      lost, and on request none owns more than half of the table. */
  lemma NormalisedIsDistribution(counts: seq<nat>, maxLog: nat, avoidZero: bool)
    requires Normalisable(counts, maxLog, avoidZero)
    ensures var (ps, accLog) := Normalised(counts, maxLog, avoidZero);
      && ValidProbs(ps, accLog) && Free(ps) == Pow2(accLog)
      && (forall i :: 0 <= i < |counts| && counts[i] > 0 ==> ps[i] >= 1)
      && (avoidZero ==> AtMost(ps, Pow2(accLog - 1)))
      && (!avoidZero ==> forall i :: 0 <= i < |counts| && counts[i] == 0 ==> ps[i] == 0)
  {
    hide Exact;
    var (ps, accLog) := Normalised(counts, maxLog, avoidZero);
    NoneNegative(ps, |ps|);
  }

  // ----- the loops -----

  method CopyCounts(counts: seq<nat>) returns (probs: seq<int>, minCount: nat)
    ensures probs == counts && minCount == MinCount(counts, |counts|)
  {
    minCount := 0;
    probs := seq(|counts|, i => 0);
    for idx := 0 to |counts|
      invariant minCount == MinCount(counts, idx) && |probs| == |counts|
      invariant forall i :: 0 <= i < idx ==> probs[i] == counts[i]
    {
      probs := probs[idx := counts[idx]];
      if counts[idx] > 0 && (counts[idx] < minCount || minCount == 0) {
        minCount := counts[idx];
      }
    }
  }

  method ShiftDown(counts: seq<nat>) returns (probs: seq<int>, maxProb: nat)
    requires exists i :: 0 <= i < |counts| && counts[i] > 0
    ensures MinCount(counts, |counts|) > 0
    ensures probs == Shifted(counts) && maxProb == Maximum(probs, |probs|)
  {
    hide MinCount;
    var minCount;
    probs, minCount := CopyCounts(counts);
    minCount := minCount - 1;
    ghost var shifted := Shifted(counts);
    maxProb := 0;
    for idx := 0 to |probs|
      invariant |probs| == |counts|
      invariant forall i :: 0 <= i < idx ==> probs[i] == shifted[i]
      invariant forall i :: idx <= i < |counts| ==> probs[i] == counts[i]
      invariant maxProb == Maximum(shifted, idx)
    {
      if probs[idx] > 0 {
        probs := probs[idx := probs[idx] - minCount];
      }
      assert probs[idx] == shifted[idx];
      if probs[idx] > maxProb {
        maxProb := probs[idx];
      }
    }
    assert probs == shifted;
  }

  method DivideDown(ps: seq<int>, maxProb: nat) returns (probs: seq<int>)
    requires NonNegative(ps) && |ps| > 0 && maxProb == Maximum(ps, |ps|)
    ensures probs == Divided(ps)
  {
    probs := ps;
    if maxProb > 0 && maxProb > |probs| {
      var divisor := maxProb / |probs|;
      QuotientPositive(maxProb, |probs|);
      for idx := 0 to |probs|
        invariant |probs| == |ps|
        invariant forall i :: 0 <= i < idx ==> probs[i] == DivideOne(ps[i], divisor)
        invariant forall i :: idx <= i < |ps| ==> probs[i] == ps[i]
      {
        if probs[idx] > 0 {
          probs := probs[idx := if probs[idx] / divisor > 1 then probs[idx] / divisor else 1];
        }
      }
      assert probs == Divided(ps);
    }
  }

  method Sum(probs: seq<int>) returns (sum: nat)
    requires NonNegative(probs)
    ensures sum == Before(probs, |probs|)
  {
    sum := 0;
    for i := 0 to |probs|
      invariant sum == Before(probs, i)
    {
      sum := sum + probs[i];
    }
  }

  method ReduceSmallest(ps: seq<int>, surplus: nat) returns (probs: seq<int>)
    requires NonNegative(ps) && Before(ps, |ps|) >= Positives(ps, |ps|) + surplus
    ensures probs == Reduced(ps, surplus)
  {
    hide Before, Positives, FirstMin;
    var diff := surplus;
    probs := ps;
    while diff > 0
      invariant NonNegative(probs) && Before(probs, |probs|) >= Positives(probs, |probs|) + diff
      invariant Reduced(probs, diff) == Reduced(ps, surplus)
    {
      SurplusAboveOne(probs, diff);
      var min := FirstMin(probs, |probs|).value;
      var decrease := Decrease(probs[min], diff);
      TotalUpdate(probs, min, probs[min] - decrease, |probs|);
      diff := diff - decrease;
      probs := probs[min := probs[min] - decrease];
    }
  }

  /** Raise the largest or reduce the smallest. */
  method AdjustTotal(ps: seq<int>, sum: nat, total: nat) returns (probs: seq<int>)
    requires NonNegative(ps) && sum == Before(ps, |ps|) > 0 && (sum >= total ==> total >= Positives(ps, |ps|))
    ensures probs == if sum < total then Raised(ps, total - sum) else Reduced(ps, sum - total)
  {
    hide Before, Positives, LastMax, Reduced;
    probs := ps;
    if sum < total {
      LargestPositive(ps);
      var max := LastMax(ps, |ps|);
      probs := probs[max := probs[max] + (total - sum)];
    } else {
      probs := ReduceSmallest(ps, sum - total);
    }
  }

  /** Take from the largest what exceeds one half, give it to the second. */
  method AvoidZeroBits(ps: seq<int>, half: nat) returns (probs: seq<int>)
    requires NonNegative(ps) && |ps| > 1 && half > 0 && Before(ps, |ps|) == 2 * half
    ensures probs == Balanced(ps, half)
  {
    hide Before, LastMax, FirstMaxExcept;
    probs := ps;
    var max := LastMax(probs, |probs|);
    if probs[max] > half {
      BalancePoints(ps, half);
      var redistribute := probs[max] - half;
      probs := probs[max := probs[max] - redistribute];
      var second := FirstMaxExcept(probs, probs[max], |probs|).value;
      probs := probs[second := probs[second] + redistribute];
    }
  }

  method NormaliseCounts(counts: seq<nat>, maxLog: nat, avoidZero: bool) returns (probs: seq<int>, accLog: nat)
    requires Normalisable(counts, maxLog, avoidZero)
    ensures (probs, accLog) == Normalised(counts, maxLog, avoidZero)
  {
    hide Before, Positives, Shifted, Divided, Reduced, Raised, Balanced, AccLogFor, Pow2;
    ScaledFits(counts, maxLog);
    var maxProb;
    probs, maxProb := ShiftDown(counts);
    probs := DivideDown(probs, maxProb);
    var sum := Sum(probs);
    accLog := AccLogFor(sum, maxLog);
    probs := AdjustTotal(probs, sum, Pow2(accLog));
    assert (probs, accLog) == Exact(counts, maxLog);
    if avoidZero {
      Pow2Double(accLog);
      probs := AvoidZeroBits(probs, Pow2(accLog - 1));
    }
  }

  /** Normalise, then build. */
  method BuildTableFromCounts(counts: seq<nat>, maxLog: nat, avoidZero: bool) returns (t: EncodingTable)
    requires Normalisable(counts, maxLog, avoidZero)
    ensures var (probs, accLog) := Normalised(counts, maxLog, avoidZero);
      ValidProbs(probs, accLog) && t == EncodeTable(probs, accLog)
  {
    hide Normalised, ValidProbs, EncodeTable, Pow2;
    NormalisedIsDistribution(counts, maxLog, avoidZero);
    var probs, accLog := NormaliseCounts(counts, maxLog, avoidZero);
    t := FseEncodingTable.BuildTableFromProbabilities(probs, accLog);
  }

  // ----- tables from data -----

  ghost predicate Symbols(data: seq<nat>) {
    forall i :: 0 <= i < |data| ==> data[i] < 256
  }

  function LargestSymbol(data: seq<nat>): (m: nat)
    ensures forall i :: 0 <= i < |data| ==> data[i] <= m
    ensures data != [] ==> m in data
    ensures Symbols(data) ==> m < 256
  {
    if data == [] then 0 else
    var m, last := LargestSymbol(data[..|data| - 1]), data[|data| - 1];
    if last > m || |data| == 1 then last else m
  }

  /** The counts up to the largest symbol that occurs. */
  function CountsOf(data: seq<nat>): (counts: seq<nat>)
    ensures |counts| == LargestSymbol(data) + 1
    ensures forall s :: 0 <= s < |counts| ==> counts[s] == CountOf(data, s)
  {
    seq(LargestSymbol(data) + 1, s requires 0 <= s => CountOf(data, s))
  }

  method CountSymbols(data: seq<nat>) returns (counts: seq<nat>)
    requires Symbols(data)
    ensures counts == CountsOf(data)
  {
    hide LargestSymbol;
    var all: seq<nat> := seq(256, i => 0);
    for i := 0 to |data|
      invariant |all| == 256
      invariant forall s :: 0 <= s < 256 ==> all[s] == CountOf(data[..i], s)
    {
      assert data[..i + 1][..i] == data[..i];
      all := all[data[i] := all[data[i]] + 1];
    }
    assert data[..|data|] == data;
    var maxSymbol := 0;
    for idx := 0 to 256
      invariant maxSymbol < 256
      invariant forall s :: maxSymbol < s < idx ==> all[s] == 0
      invariant all[maxSymbol] > 0 || (maxSymbol == 0 && forall s :: 0 <= s < idx ==> all[s] == 0)
    {
      if all[idx] > 0 {
        maxSymbol := idx;
      }
    }
    LargestCounted(data, maxSymbol);
    counts := all[..maxSymbol + 1];
  }

  lemma LargestCounted(data: seq<nat>, m: nat)
    requires forall s :: m < s < 256 ==> CountOf(data, s) == 0
    requires CountOf(data, m) > 0 || (m == 0 && forall s :: 0 <= s < 256 ==> CountOf(data, s) == 0)
    requires Symbols(data)
    ensures LargestSymbol(data) == m
  {
    hide CountOf;
    var largest := LargestSymbol(data);
    if data != [] {
      var i :| 0 <= i < |data| && data[i] == largest;
      CountPositive(data, i);
      if CountOf(data, m) > 0 {
        var k := CountedOccurs(data, m);
      }
    } else if CountOf(data, m) > 0 {
      var k := CountedOccurs(data, m);
    }
  }

  /** What the encoder accepts: at most `2^maxLog` different symbols, and with
      `avoidZero` one of them is not zero. */
  ghost predicate Tabled(data: seq<nat>, maxLog: nat, avoidZero: bool) {
    Symbols(data) && Normalisable(CountsOf(data), maxLog, avoidZero)
  }

  ghost predicate TableForData(probs: seq<int>, accLog: nat, maxLog: nat, avoidZero: bool, data: seq<nat>) {
    && ValidProbs(probs, accLog) && Free(probs) > 0 && Occur(probs, data) && 5 <= accLog <= maxLog
    && (avoidZero ==> AtMost(probs, Pow2(accLog - 1)))
    && (exists i :: 0 <= i < |data| && data[i] == |probs| - 1)
    && Tabled(data, maxLog, avoidZero) && (probs, accLog) == Normalised(CountsOf(data), maxLog, avoidZero)
  }

  lemma TabledTable(data: seq<nat>, maxLog: nat, avoidZero: bool)
    requires Tabled(data, maxLog, avoidZero)
    ensures var (probs, accLog) := Normalised(CountsOf(data), maxLog, avoidZero);
      TableForData(probs, accLog, maxLog, avoidZero, data)
  {
    hide Normalised, Pow2, CountOf, Before, Positives, ValidProbs, LargestSymbol, Normalisable;
    DataOccurs(data, maxLog, avoidZero);
    NormalisedIsDistribution(CountsOf(data), maxLog, avoidZero);
  }

  /** The table made from the data's own counts can code the data. */
  method BuildTableFromData(data: seq<nat>, maxLog: nat, avoidZero: bool)
    returns (t: EncodingTable, ghost probs: seq<int>, ghost accLog: nat)
    requires Tabled(data, maxLog, avoidZero)
    ensures TableForData(probs, accLog, maxLog, avoidZero, data) && t == EncodeTable(probs, accLog)
  {
    hide Normalised, EncodeTable, CountsOf, ValidProbs, TableForData, Normalisable;
    var counts := CountSymbols(data);
    TabledTable(data, maxLog, avoidZero);
    t := BuildTableFromCounts(counts, maxLog, avoidZero);
    probs := Normalised(counts, maxLog, avoidZero).0;
    accLog := Normalised(counts, maxLog, avoidZero).1;
  }

  lemma DataOccurs(data: seq<nat>, maxLog: nat, avoidZero: bool)
    requires Tabled(data, maxLog, avoidZero)
    ensures forall i :: 0 <= i < |data| ==> data[i] < |CountsOf(data)| && CountsOf(data)[data[i]] > 0
    ensures exists i :: 0 <= i < |data| && data[i] == |CountsOf(data)| - 1
  {
    hide Pow2, CountOf, Positives, LargestSymbol;
    forall i | 0 <= i < |data|
      ensures CountsOf(data)[data[i]] > 0
    {
      CountPositive(data, i);
    }
    var s :| 0 <= s < |CountsOf(data)| && CountsOf(data)[s] > 0;
    var k := CountedOccurs(data, s);
    var i :| 0 <= i < |data| && data[i] == LargestSymbol(data);
  }

  /** Symbols below the number of cells are never too many. */
  lemma SmallSymbols(data: seq<nat>, maxLog: nat, avoidZero: bool)
    requires Symbols(data) && data != [] && 5 <= maxLog && forall i :: 0 <= i < |data| ==> data[i] < Pow2(maxLog)
    requires avoidZero ==> exists i :: 0 <= i < |data| && data[i] > 0
    ensures Tabled(data, maxLog, avoidZero)
  {
    hide Pow2, CountOf, LargestSymbol;
    CountPositive(data, 0);
    FewPositives(CountsOf(data), |CountsOf(data)|);
  }

  lemma {:induction false} FewPositives(ps: seq<int>, n: nat)
    requires n <= |ps|
    ensures Positives(ps, n) <= n
  {
    if n > 0 {
      FewPositives(ps, n - 1);
    }
  }

  /** With `avoidZero` the alternating decoder never fails to see the end: every
      list of 2 to 256 symbols is recovered. */
  lemma AvoidZeroRecovers(probs: seq<int>, accLog: nat, maxLog: nat, data: seq<nat>, suffix: seq<bool>)
    requires TableForData(probs, accLog, maxLog, true, data) && 2 <= |data| <= 256
    ensures var e, d := EncodeTable(probs, accLog), DecodeTable(probs, accLog);
      && TablesFor(e, d, accLog, data) && CanEncodeAll(e, data)
      && var (b, x, y) := CodedTwo(e, data);
        DecodedTwo(d, b + suffix, |b|, x, y, 0) == Some(data)
  {
    hide EncodeTable, DecodeTable, CodedTwo, DecodedTwo, Pow2, ValidProbs;
    DistributionTwoStates(probs, accLog, data, suffix);
  }

  /** Data coded with the table of its own counts: the bytes hold that table and
      the data, and reading them gives the data back. */
  method RoundTrip(data: seq<nat>, maxLog: nat, avoidZero: bool) returns (bytes: seq<byte>, decoded: seq<nat>, left: int)
    requires Tabled(data, maxLog, avoidZero) && maxLog <= 20
    ensures var (probs, accLog) := Normalised(CountsOf(data), maxLog, avoidZero);
      FseRoundTrip.Carries(bytes, probs, accLog, data)
    ensures decoded == data && left == 0
  {
    hide Normalised, ValidProbs, Pow2, FseRoundTrip.Carries, CountOf, Before, Positives, LargestSymbol;
    var counts := CountSymbols(data);
    DataOccurs(data, maxLog, avoidZero);
    NormalisedIsDistribution(counts, maxLog, avoidZero);
    var probs, accLog := NormaliseCounts(counts, maxLog, avoidZero);
    bytes, decoded, left := FseRoundTrip.RoundTrip(probs, accLog, data);
  }
}
