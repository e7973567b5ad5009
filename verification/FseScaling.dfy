/** The normalisation of counts without its steps: what the probabilities are, by
    conditions that leave one possibility. */
module FseScaling {
  import opened Numbers
  import opened FseDistribution
  import opened FseNormalise

  // ----- scaling -----

  /** `m` is the smallest positive count, `top` the largest count when all positive ones
      are shifted down so that the smallest becomes one. */
  ghost predicate Bounds(counts: seq<nat>, m: nat, top: nat) {
    && m > 0 && (forall i :: 0 <= i < |counts| && counts[i] > 0 ==> m <= counts[i] <= top + m - 1)
    && (exists i :: 0 <= i < |counts| && counts[i] == m)
    && exists i :: 0 <= i < |counts| && counts[i] == top + m - 1
  }

  /** Shifted counts; divided, down to one at least, when the largest exceeds the number
      of slots. */
  ghost predicate ScaledBy(counts: seq<nat>, ps: seq<int>, m: nat, top: nat) {
    && |ps| == |counts| > 0 && Bounds(counts, m, top)
    && (forall i :: 0 <= i < |ps| && counts[i] == 0 ==> ps[i] == 0)
    && (top <= |counts| ==> forall i :: 0 <= i < |ps| && counts[i] > 0 ==> ps[i] == counts[i] - m + 1)
    && (top > |counts| ==> forall i :: 0 <= i < |ps| && counts[i] > 0 ==> ps[i] == Quotient(counts[i] - m + 1, top, |counts|))
  }

  /** `c` divided by the number of times `n` goes into `top`, but at least one. */
  function Quotient(c: int, top: nat, n: nat): int
    requires 0 < n < top
  {
    QuotientPositive(top, n);
    var q := c / (top / n);
    if q > 1 then q else 1
  }

  lemma ScaledIs(counts: seq<nat>) returns (m: nat, top: nat)
    requires |counts| > 0 && exists i :: 0 <= i < |counts| && counts[i] > 0
    ensures ScaledBy(counts, Scaled(counts), m, top)
  {
    hide MinCount, Maximum;
    m := MinCount(counts, |counts|);
    var shifted := Shifted(counts);
    top := Maximum(shifted, |counts|);
    MinOccurs(counts, |counts|);
    var i :| 0 <= i < |counts| && counts[i] > 0;
    assert shifted[i] > 0 && shifted[i] <= top;
    var j :| 0 <= j < |counts| && shifted[j] == top;
    assert counts[j] == top + m - 1;
    assert forall i :: 0 <= i < |counts| && counts[i] > 0 ==> shifted[i] == counts[i] - m + 1;
    DividedIs(counts, shifted, m, top);
  }

  lemma {:induction false} MinOccurs(counts: seq<nat>, n: nat)
    requires n <= |counts| && MinCount(counts, n) > 0
    ensures exists i :: 0 <= i < n && counts[i] == MinCount(counts, n)
  {
    if MinCount(counts, n) != counts[n - 1] {
      MinOccurs(counts, n - 1);
    }
  }

  lemma DividedIs(counts: seq<nat>, shifted: seq<int>, m: nat, top: nat)
    requires |shifted| == |counts| > 0 && Bounds(counts, m, top) && NonNegative(shifted) && top == Maximum(shifted, |shifted|)
    requires forall i :: 0 <= i < |counts| ==> shifted[i] == if counts[i] > 0 then counts[i] - m + 1 else 0
    requires forall i :: 0 <= i < |counts| && counts[i] > 0 ==> m <= counts[i]
    ensures ScaledBy(counts, Divided(shifted), m, top)
  {
    hide Maximum, Bounds, Quotient, DivideOne, Divided;
    var qs := Divided(shifted);
    forall i | 0 <= i < |counts|
      ensures counts[i] == 0 ==> qs[i] == 0
      ensures counts[i] > 0 ==> qs[i] == if top > |counts| then Quotient(counts[i] - m + 1, top, |counts|) else counts[i] - m + 1
    {
      DividedAt(shifted, top, i);
    }
  }

  lemma DividedAt(ps: seq<int>, top: nat, i: nat)
    requires NonNegative(ps) && i < |ps| && top == Maximum(ps, |ps|)
    ensures Divided(ps)[i] == if ps[i] == 0 || top <= |ps| then ps[i] else Quotient(ps[i], top, |ps|)
  {
    hide Maximum;
    if top > |ps| {
      QuotientPositive(top, |ps|);
    }
  }

  // ----- the size of the table -----

  /** The least logarithm from five on whose power exceeds the sum, if it is allowed. */
  ghost predicate LogFor(sum: nat, maxLog: nat, log: nat) {
    && 5 <= log <= maxLog
    && (log == maxLog || sum < Pow2(log))
    && (log == 5 || Pow2(log - 1) <= sum)
  }

  lemma LogIs(sum: nat, maxLog: nat)
    requires sum > 0 && maxLog >= 5
    ensures LogFor(sum, maxLog, AccLogFor(sum, maxLog))
  {
    hide Pow2, Log2;
    var log, l := AccLogFor(sum, maxLog), Log2(sum) + 1;
    if log > 5 {
      Pow2Mono(log - 1, l - 1);
    }
    if log < maxLog {
      Pow2Mono(l, log);
    }
  }

  // ----- the exact total -----

  /** The last of the largest takes what is missing. */
  ghost predicate RaisedAt(ps: seq<int>, qs: seq<int>, i: nat, missing: nat) {
    && i < |ps| && (forall j :: 0 <= j < |ps| ==> ps[j] <= ps[i]) && (forall j :: i < j < |ps| ==> ps[j] < ps[i])
    && qs == ps[i := ps[i] + missing]
  }

  /** Position `i` comes before `j` when the smallest give first. */
  predicate Sooner(ps: seq<int>, i: nat, j: nat)
    requires i < |ps| && j < |ps|
  {
    ps[i] < ps[j] || (ps[i] == ps[j] && i < j)
  }

  /** The smallest above one give first, all they have but one, before the next one
      gives anything. */
  ghost predicate ReducedTo(ps: seq<int>, qs: seq<int>) {
    && |qs| == |ps|
    && (forall i :: 0 <= i < |ps| ==> qs[i] <= ps[i] && (ps[i] <= 1 ==> qs[i] == ps[i]) && (ps[i] > 1 ==> qs[i] >= 1))
    && forall i, j :: 0 <= i < |ps| && 0 <= j < |ps| && ps[i] > 1 && Sooner(ps, i, j) && qs[j] < ps[j] ==> qs[i] == 1
  }

  lemma {:induction false} ReducedIs(ps: seq<int>, diff: nat)
    requires NonNegative(ps) && Before(ps, |ps|) >= Positives(ps, |ps|) + diff
    ensures ReducedTo(ps, Reduced(ps, diff))
    decreases diff
  {
    hide Reduced, Before, Positives, ReducedTo, FirstToGive;
    if diff == 0 {
      NothingReduced(ps);
    } else {
      var min, decrease := ReducedStep(ps, diff);
      var rest := ps[min := ps[min] - decrease];
      if decrease == diff {
        NothingReduced(rest);
        OnlyFirst(ps, min, diff);
      } else {
        ReducedIs(rest, diff - decrease);
        FirstThenRest(ps, min, Reduced(rest, diff - decrease));
      }
    }
  }

  lemma NothingReduced(ps: seq<int>)
    requires NonNegative(ps) && Before(ps, |ps|) >= Positives(ps, |ps|)
    ensures Reduced(ps, 0) == ps && ReducedTo(ps, ps)
  {
  }

  lemma ReducedStep(ps: seq<int>, diff: nat) returns (min: nat, decrease: nat)
    requires diff > 0 && NonNegative(ps) && Before(ps, |ps|) >= Positives(ps, |ps|) + diff
    ensures FirstToGive(ps, min) && min < |ps| && 0 < decrease <= diff
    ensures if ps[min] - 1 < diff then decrease == ps[min] - 1 else decrease == diff
    ensures var rest := ps[min := ps[min] - decrease];
      && NonNegative(rest) && Before(rest, |rest|) >= Positives(rest, |rest|) + (diff - decrease)
      && Reduced(ps, diff) == Reduced(rest, diff - decrease)
  {
    hide FirstMin, Before, Positives;
    SurplusAboveOne(ps, diff);
    min := FirstMin(ps, |ps|).value;
    decrease := Decrease(ps[min], diff);
    TotalUpdate(ps, min, ps[min] - decrease, |ps|);
  }

  /** The smallest above one, the first of equals. */
  ghost predicate FirstToGive(ps: seq<int>, min: nat) {
    && min < |ps| && ps[min] > 1
    && (forall j :: 0 <= j < |ps| && ps[j] > 1 ==> ps[min] <= ps[j])
    && forall j :: 0 <= j < min && ps[j] > 1 ==> ps[min] < ps[j]
  }

  lemma OnlyFirst(ps: seq<int>, min: nat, diff: nat)
    requires FirstToGive(ps, min) && diff <= ps[min] - 1 && NonNegative(ps)
    ensures ReducedTo(ps, ps[min := ps[min] - diff])
  {
  }

  lemma FirstThenRest(ps: seq<int>, min: nat, qs: seq<int>)
    requires FirstToGive(ps, min) && ReducedTo(ps[min := 1], qs) && NonNegative(ps)
    ensures ReducedTo(ps, qs)
  {
    var rest := ps[min := 1];
    assert rest[min] == 1 && qs[min] == 1;
    forall i, j | 0 <= i < |ps| && 0 <= j < |ps| && ps[i] > 1 && Sooner(ps, i, j) && qs[j] < ps[j]
      ensures qs[i] == 1
    {
      if i != min {
        assert j != min;
        assert Sooner(rest, i, j);
      }
    }
  }

  // ----- at most one half -----

  /** What the largest has above one half goes to the first of the largest others. */
  ghost predicate HalvedAt(ps: seq<int>, qs: seq<int>, half: nat, i: nat, j: nat) {
    && i < |ps| && j < |ps| && i != j && ps[i] > half
    && (forall l :: 0 <= l < |ps| && l != i ==> ps[l] <= ps[j])
    && (forall l :: 0 <= l < j && l != i ==> ps[l] < ps[j])
    && qs == ps[i := half][j := ps[j] + (ps[i] - half)]
  }

  lemma BalancedIs(ps: seq<int>, half: nat) returns (i: nat, j: nat)
    requires NonNegative(ps) && |ps| > 1 && half > 0 && Before(ps, |ps|) == 2 * half
    ensures if forall l :: 0 <= l < |ps| ==> ps[l] <= half then Balanced(ps, half) == ps
      else HalvedAt(ps, Balanced(ps, half), half, i, j)
  {
    hide FirstMaxExcept, LastMax, Before;
    i, j := LastMax(ps, |ps|), 0;
    if ps[i] > half {
      BalancePoints(ps, half);
      var rest := ps[i := half];
      j := FirstMaxExcept(rest, half, |ps|).value;
      forall l | 0 <= l < |ps| && l != i
        ensures ps[l] <= ps[j] && (l < j ==> ps[l] < ps[j])
      {
        assert rest[l] == ps[l] < half;
      }
    }
  }

  // ----- together -----

  /** The probabilities for some counts. */
  ghost predicate ProbabilitiesFor(counts: seq<nat>, maxLog: nat, avoidZero: bool, probs: seq<int>, log: nat) {
    exists ps, qs, m, top ::
      && ScaledBy(counts, ps, m, top) && LogFor(Before(ps, |ps|), maxLog, log)
      && ExactFrom(ps, qs, log) && BoundedFrom(qs, probs, log, avoidZero)
  }

  ghost predicate ExactFrom(ps: seq<int>, qs: seq<int>, log: nat) {
    var sum, size := Before(ps, |ps|), Pow2(log);
    if sum < size then
      var missing := size - sum;
      exists i :: RaisedAt(ps, qs, i, missing)
    else ReducedTo(ps, qs) && Before(qs, |qs|) == size
  }

  ghost predicate BoundedFrom(qs: seq<int>, rs: seq<int>, log: nat, avoidZero: bool) {
    if !avoidZero || log == 0 then rs == qs else
    var half := Pow2(log - 1);
    if forall l :: 0 <= l < |qs| ==> qs[l] <= half then rs == qs
    else exists i, j :: HalvedAt(qs, rs, half, i, j)
  }

  lemma ExactIs(ps: seq<int>, log: nat, qs: seq<int>)
    requires NonNegative(ps) && Before(ps, |ps|) > 0
    requires Before(ps, |ps|) >= Pow2(log) ==> Pow2(log) >= Positives(ps, |ps|)
    requires qs == if Before(ps, |ps|) < Pow2(log) then Raised(ps, Pow2(log) - Before(ps, |ps|)) else Reduced(ps, Before(ps, |ps|) - Pow2(log))
    ensures ExactFrom(ps, qs, log)
  {
    hide LastMax, Reduced, Before, Positives, Pow2, ReducedTo;
    if Before(ps, |ps|) < Pow2(log) {
      LargestPositive(ps);
      assert RaisedAt(ps, qs, LastMax(ps, |ps|), Pow2(log) - Before(ps, |ps|));
    } else {
      ReducedIs(ps, Before(ps, |ps|) - Pow2(log));
    }
  }

  /** The probabilities computed are these. */
  lemma NormalisedIs(counts: seq<nat>, maxLog: nat, avoidZero: bool)
    requires Normalisable(counts, maxLog, avoidZero)
    ensures var (probs, log) := Normalised(counts, maxLog, avoidZero);
      ProbabilitiesFor(counts, maxLog, avoidZero, probs, log)
  {
    hide Scaled, AccLogFor, Raised, Reduced, Balanced, Before, Positives, Pow2, ScaledBy, LogFor, ExactFrom, HalvedAt;
    var (probs, log) := Normalised(counts, maxLog, avoidZero);
    var ps, qs := Scaled(counts), Exact(counts, maxLog).0;
    var m, top := ScaledIs(counts);
    LogIs(Before(ps, |ps|), maxLog);
    ScaledFits(counts, maxLog);
    ExactIs(ps, log, qs);
    if avoidZero {
      Pow2Double(log);
      var i, j := BalancedIs(qs, Pow2(log - 1));
    }
    assert BoundedFrom(qs, probs, log, avoidZero);
  }
}
