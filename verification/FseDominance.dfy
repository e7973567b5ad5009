/** What the normalisation does to a list of counts in which one stands out: the
    largest probability ends up with a fixed share of the table. */
module FseDominance {
  import opened Numbers
  import opened FseDistribution
  import opened FseNormalise

  // ----- what dividing does to the counts -----

  function Least(counts: seq<nat>): nat {
    MinCount(counts, |counts|)
  }

  function Greatest(counts: seq<nat>): nat
    requires Least(counts) > 0
  {
    Maximum(Shifted(counts), |counts|)
  }

  function Divisor(counts: seq<nat>): (d: nat)
    requires Least(counts) > 0
    ensures d > 0
  {
    var max := Greatest(counts);
    if max > |counts| > 0 then
      QuotientPositive(max, |counts|);
      max / |counts|
    else 1
  }

  function Shares(counts: seq<nat>): (qs: seq<int>)
    requires Least(counts) > 0 && counts != []
    ensures SameSupport(counts, qs)
  {
    Divided(Shifted(counts))
  }

  function Top(counts: seq<nat>): (t: nat)
    requires Least(counts) > 0 && counts != []
    ensures t < |counts|
  {
    LastMax(Shares(counts), |counts|)
  }

  /** Each share, less one, times the divisor stays below the count over the least. */
  ghost predicate InProportion(qs: seq<int>, counts: seq<nat>, d: nat, least: nat) {
    && |qs| == |counts|
    && forall i :: 0 <= i < |qs| ==>
      if counts[i] == 0 then qs[i] == 0 else qs[i] >= 1 && d * (qs[i] - 1) + least <= counts[i]
  }

  lemma ShareOf(counts: seq<nat>, i: nat)
    requires Least(counts) > 0 && i < |counts| && counts[i] > 0
    ensures var q, d, least := Shares(counts)[i], Divisor(counts), Least(counts);
      && counts[i] >= least && Shifted(counts)[i] == counts[i] - least + 1 <= Greatest(counts)
      && q >= 1 && d * (q - 1) + least <= counts[i]
      && (q > 1 ==> d * q + least <= counts[i] + 1)
      && counts[i] - least + 1 < d * (q + 1)
  {
    hide MinCount, Maximum;
    var s, d := Shifted(counts)[i], Divisor(counts);
    assert Shifted(counts)[i] == ShiftOne(counts[i], Least(counts));
    if Greatest(counts) > |counts| {
      DivMod(s, d);
      Quotient(s, d);
    }
  }

  lemma Quotient(s: nat, d: nat)
    requires d > 0 && s > 0
    ensures var q := if s / d > 1 then s / d else 1;
      && d * (q - 1) + 1 <= s && (q > 1 ==> d * q <= s) && s < d * (q + 1)
  {
    DivMod(s, d);
    var q := s / d;
    DivNonneg(s, d);
    assert q * d == d * q && d * (q + 1) == d * q + d && d * (q - 1) == d * q - d;
    assert d * 2 == d + d && d * 0 == 0;
    if q == 0 {
      assert 0 * d == 0;
    }
  }

  lemma AllInProportion(counts: seq<nat>)
    requires Least(counts) > 0 && counts != []
    ensures InProportion(Shares(counts), counts, Divisor(counts), Least(counts))
  {
    hide MinCount, Maximum, Shares, Divisor;
    forall i | 0 <= i < |counts| && counts[i] > 0
      ensures Shares(counts)[i] >= 1 && Divisor(counts) * (Shares(counts)[i] - 1) + Least(counts) <= counts[i]
    {
      ShareOf(counts, i);
    }
  }

  lemma OneMoreShare(d: nat, x: nat, q: nat, least: nat, p: nat, before: nat, count: nat)
    requires d * x + least * p <= before && q >= 1 && d * (q - 1) + least <= count
    ensures d * (x + q - 1) + least * (p + 1) <= before + count
  {
    assert d * (x + q - 1) == d * x + d * (q - 1);
    assert least * (p + 1) == least * p + least;
  }

  lemma NoShares(d: nat, least: nat)
    ensures d * 0 + least * 0 == 0
  {
  }

  /** All shares together stay in proportion. */
  lemma {:induction false} TotalInProportion(qs: seq<int>, counts: seq<nat>, d: nat, least: nat, n: nat)
    requires InProportion(qs, counts, d, least) && n <= |qs|
    ensures Before(qs, n) >= Positives(counts, n)
    ensures d * (Before(qs, n) - Positives(counts, n)) + least * Positives(counts, n) <= Before(counts, n)
  {
    if n == 0 {
      NoShares(d, least);
    } else {
      TotalInProportion(qs, counts, d, least, n - 1);
      var x, p := Before(qs, n - 1) - Positives(counts, n - 1), Positives(counts, n - 1);
      if counts[n - 1] > 0 {
        OneMoreShare(d, x, qs[n - 1], least, p, Before(counts, n - 1), counts[n - 1]);
      }
    }
  }

  lemma {:induction false} TotalBounded(qs: seq<int>, b: nat, n: nat)
    requires n <= |qs| && NonNegative(qs) && forall i :: 0 <= i < |qs| ==> qs[i] <= b
    ensures Before(qs, n) <= Positives(qs, n) * b
  {
    if n > 0 {
      TotalBounded(qs, b, n - 1);
      MulNext(Positives(qs, n - 1), b);
    }
  }

  lemma {:induction false} LeastOccurs(counts: seq<nat>, n: nat) returns (i: nat)
    requires n <= |counts| && MinCount(counts, n) > 0
    ensures i < n && counts[i] == MinCount(counts, n)
  {
    if counts[n - 1] == MinCount(counts, n) {
      i := n - 1;
    } else {
      i := LeastOccurs(counts, n - 1);
    }
  }

  lemma {:induction false} PositivesUpdate(ps: seq<int>, i: nat, n: nat)
    requires i < |ps| && n <= |ps| && ps[i] > 0
    ensures Positives(ps[i := 0], n) == Positives(ps, n) - if i < n then 1 else 0
  {
    if n > 0 {
      PositivesUpdate(ps, i, n - 1);
    }
  }

  // ----- the largest share and all others -----

  /** The sum of all shares but the largest. */
  function Others(counts: seq<nat>): int
    requires Least(counts) > 0 && counts != []
  {
    Before(Shares(counts), |counts|) - Shares(counts)[Top(counts)]
  }

  lemma TopOccurs(counts: seq<nat>)
    requires Least(counts) > 0 && counts != []
    ensures counts[Top(counts)] > 0 && Shares(counts)[Top(counts)] >= 1
  {
    hide MinCount, Shares;
    var i := LeastOccurs(counts, |counts|);
  }

  /** The other shares are in proportion to the other counts. */
  lemma OthersInProportion(counts: seq<nat>)
    requires Least(counts) > 0 && counts != []
    ensures var o, n := Others(counts), Positives(counts, |counts|) - 1;
      && 0 <= n <= o && counts[Top(counts)] <= Before(counts, |counts|)
      && Divisor(counts) * (o - n) + Least(counts) * n <= Before(counts, |counts|) - counts[Top(counts)]
  {
    hide MinCount, Shares, Divisor, Before, Positives, Top;
    var t, qs := Top(counts), Shares(counts);
    var size := |counts|;
    AllInProportion(counts);
    TopOccurs(counts);
    var restQs, rest := qs[t := 0], counts[t := 0];
    assert InProportion(restQs, rest, Divisor(counts), Least(counts));
    TotalInProportion(restQs, rest, Divisor(counts), Least(counts), size);
    TotalUpdate(qs, t, 0, size);
    TotalUpdate(counts, t, 0, size);
    PositivesUpdate(counts, t, size);
  }

  lemma WithoutOne(ps: seq<int>, i: nat, b: nat)
    requires NonNegative(ps) && i < |ps| && ps[i] > 0 && forall j :: 0 <= j < |ps| && j != i ==> ps[j] <= b
    ensures Before(ps, |ps|) - ps[i] <= (Positives(ps, |ps|) - 1) * b
  {
    hide Before, Positives;
    TotalUpdate(ps, i, 0, |ps|);
    PositivesUpdate(ps, i, |ps|);
    TotalBounded(ps[i := 0], b, |ps|);
  }

  lemma WithoutTwo(ps: seq<int>, i: nat, j: nat, b: nat)
    requires NonNegative(ps) && i < |ps| && j < |ps| && i != j && ps[i] > 0 && ps[j] > 0
    requires Positives(ps, |ps|) <= 2 && forall k :: 0 <= k < |ps| ==> ps[k] <= b
    ensures Before(ps, |ps|) - ps[i] == ps[j]
  {
    hide Before, Positives;
    TotalUpdate(ps, i, 0, |ps|);
    PositivesUpdate(ps, i, |ps|);
    WithoutOne(ps[i := 0], j, b);
    TwoBelowTotal(ps, i, j);
    NoneLeft(Positives(ps, |ps|) - 2, b);
  }

  lemma NoneLeft(p: int, b: nat)
    requires p <= 0
    ensures p * b <= 0
  {
  }

  /** With one or two symbols the other share is at most one. */
  lemma OthersOfTwo(counts: seq<nat>)
    requires Least(counts) > 0 && counts != [] && Positives(counts, |counts|) <= 2
    ensures Others(counts) <= 1
  {
    hide MinCount, Shares, Divisor, Before, Positives;
    var t, qs := Top(counts), Shares(counts);
    var i := LeastOccurs(counts, |counts|);
    TopOccurs(counts);
    ShareOf(counts, i);
    OneShare(Divisor(counts), qs[i]);
    SamePositives(counts, qs, |counts|);
    if i == t {
      WithoutOne(qs, t, 1);
    } else {
      WithoutTwo(qs, t, i, qs[t]);
    }
  }

  lemma OneShare(d: nat, q: int)
    requires d > 0 && q >= 1 && (q > 1 ==> d * q <= 1)
    ensures q == 1
  {
    if q > 1 {
      MulMono(1, d, q);
    }
  }

  /** The largest share belongs to a count that hardly falls short of any other, and
      is about the number of slots. */
  lemma TopShare(counts: seq<nat>, x: nat)
    requires Least(counts) > 0 && x < |counts| && counts[x] > 0
    ensures Greatest(counts) >= counts[x] - Least(counts) + 1 && Shares(counts)[Top(counts)] >= 1
    ensures var t, q, d, m, size := Top(counts), Shares(counts)[Top(counts)], Divisor(counts), Greatest(counts), |counts|;
      if m > size then
        && size <= q && d * q <= m <= d * size + size - 1
        && counts[t] >= counts[x] - (size - 1) && (d == 1 ==> counts[t] >= counts[x])
      else d == 1 && q == m && counts[t] >= counts[x]
  {
    hide MinCount, Maximum, Shares, Before, Positives, Divisor, Top;
    var t, qs, d, m, size := Top(counts), Shares(counts), Divisor(counts), Greatest(counts), |counts|;
    TopOccurs(counts);
    ShareOf(counts, x);
    ShareOf(counts, t);
    var g := GreatestOccurs(counts);
    ShareOf(counts, g);
    TopIsLargest(counts, g);
    DivisorIs(counts);
    if m > size {
      LargeShare(m, d, size, qs[g]);
      WideShare(m, d, size, qs[t]);
    } else {
      assert 1 * qs[t] == qs[t] && 1 * (qs[g] + 1) == qs[g] + 1;
    }
  }

  lemma TopIsLargest(counts: seq<nat>, i: nat)
    requires Least(counts) > 0 && i < |counts|
    ensures Shares(counts)[i] <= Shares(counts)[Top(counts)]
  {
  }

  lemma DivisorIs(counts: seq<nat>)
    requires Least(counts) > 0 && counts != []
    ensures var d, m, size := Divisor(counts), Greatest(counts), |counts|;
      if m > size then d * size <= m <= d * size + size - 1 else d == 1
  {
    hide MinCount, Maximum;
    var m, size := Greatest(counts), |counts|;
    if m > size {
      DivMod(m, size);
    }
  }

  lemma WideShare(m: nat, d: nat, size: nat, q: nat)
    requires d * size <= m <= d * size + size - 1 && q >= size
    ensures d * q >= m - (size - 1) && (d == 1 ==> d * q == q)
  {
    MulMono(size, q, d);
    assert size * d == d * size && q * d == d * q;
  }

  lemma GreatestOccurs(counts: seq<nat>) returns (g: nat)
    requires Least(counts) > 0
    ensures g < |counts| && counts[g] > 0 && Shifted(counts)[g] == Greatest(counts)
  {
    hide MinCount;
    var i := LeastOccurs(counts, |counts|);
    assert Shifted(counts)[i] == 1 <= Greatest(counts);
    assert SameSupport(counts, Shifted(counts));
    g :| 0 <= g < |counts| && Shifted(counts)[g] == Greatest(counts);
  }

  lemma LargeShare(m: nat, d: nat, size: nat, q: int)
    requires d > 0 && q >= 0 && d * size <= m < d * (q + 1)
    ensures q >= size
  {
    assert d * size == size * d;
    if q < size {
      MulMono(q + 1, size, d);
    }
  }

  // ----- three or more symbols -----

  lemma QuotientBound(d: nat, a: int, b: int, c: int, j: int)
    requires d * a <= d * b + c && c < d * (j + 1)
    ensures a <= b + j
  {
    if a >= b + j + 1 {
      ProductGap(d, a, b, j + 1);
    }
  }

  lemma ProductGap(d: nat, a: int, b: int, j: int)
    requires a >= b + j
    ensures d * a >= d * b + d * j
  {
    assert d * a == d * b + d * j + d * (a - (b + j));
    assert d * (a - (b + j)) >= 0;
  }

  /** The numbers that describe a list of counts: slots, other symbols, divisor, least
      count, largest shifted count, other shares, largest share, its count, the count
      that stands out, and the total. */
  ghost predicate Figures(size: nat, n: nat, d: nat, least: nat, m: nat, o: nat, q: nat, ct: nat, cx: nat, total: nat) {
    && 2 <= n <= o && n < size && d > 0 && m >= cx - least + 1 && ct <= total
    && d * (o - n) + least * n <= total - ct
    && if m > size then
        && size <= q && d * q <= m <= d * size + size - 1
        && ct >= cx - (size - 1) && (d == 1 ==> ct >= cx)
      else d == 1 && q == m && ct >= cx
  }

  lemma TwoLeast(n: nat, least: nat)
    requires n >= 2
    ensures least * n >= 2 * least
  {
    MulMono(2, n, least);
    assert least * n == n * least;
  }

  lemma NotNegative(d: nat, x: nat)
    ensures d * x >= 0
  {
  }

  /** A count of half of everything: the shares fit a table of 32 cells. */
  lemma HalfOfAll(size: nat, n: nat, d: nat, least: nat, m: nat, o: nat, q: nat, ct: nat, cx: nat, total: nat)
    requires Figures(size, n, d, least, m, o, q, ct, cx, total) && size <= 9 && cx >= 127 && total <= 255
    ensures o <= 24 && o + q <= 31
  {
    TwoLeast(n, least);
    NotNegative(d, o - n);
    SumsHalf(size, d * (o - n), d * size, least * n, least, m, ct, cx, total);
    DividedHalf(size, n, d, m, o, q);
  }

  lemma SumsHalf(size: nat, a: nat, y: nat, b: nat, least: nat, m: nat, ct: nat, cx: nat, total: nat)
    requires a + b <= total - ct && b >= 2 * least && m >= cx - least + 1 && size <= 9 && cx >= 127 && total <= 255
    requires if m > size then m <= y + size - 1 && ct >= cx - (size - 1) else ct >= cx
    ensures m >= 60 && a <= y + 16
  {
  }

  lemma DividedHalf(size: nat, n: nat, d: nat, m: nat, o: nat, q: nat)
    requires n < size <= 9 && n <= o && 60 <= m <= d * size + size - 1
    requires d * (o - n) <= d * size + 16 && d * q <= d * size + size - 1
    ensures o <= 24 && o + q <= 31
  {
    if d <= 5 {
      MulMono(d, 5, size);
      assert false;
    }
    MulMono(6, d, 3);
    MulMono(6, d, 2);
    QuotientBound(d, o - n, size, 16, 2);
    QuotientBound(d, q, size, 8, 1);
  }

  /** A count of a third of everything and at most eight slots: 32 or 64 cells. */
  lemma ThirdOfAll(size: nat, n: nat, d: nat, least: nat, m: nat, o: nat, q: nat, ct: nat, cx: nat, total: nat)
    requires Figures(size, n, d, least, m, o, q, ct, cx, total) && size <= 8 && cx >= 63 && total - cx <= 126
    ensures o <= 32 && o + q <= 63 && (o + q <= 31 ==> o <= 24)
  {
    TwoLeast(n, least);
    NotNegative(d, o - n);
    if d == 1 {
      Undivided(size, n, least, m, o, q, ct, cx, total);
    } else {
      Sums(size, d * (o - n), d * size, least * n, least, m, ct, cx, total);
      TwoTimes(d, size);
      DividedThird(size, n, d, o, q);
    }
  }

  lemma TwoTimes(d: nat, size: nat)
    ensures d * (2 * size) == 2 * (d * size)
  {
  }

  lemma Sums(size: nat, a: nat, y: nat, b: nat, least: nat, m: nat, ct: nat, cx: nat, total: nat)
    requires a + b <= total - ct && b >= 2 * least && m >= cx - least + 1 && m <= y + size - 1
    requires ct >= cx - (size - 1) && cx >= 63 && total - cx <= 126
    ensures a <= 2 * y + (3 * size - 5)
  {
  }

  lemma DividedThird(size: nat, n: nat, d: nat, o: nat, q: nat)
    requires n < size <= 8 && n <= o && d >= 2 && size <= q
    requires d * (o - n) <= d * (2 * size) + (3 * size - 5) && d * q <= d * size + (size - 1)
    ensures o <= 32 && o + q <= 63 && (o + q <= 31 ==> o <= 24)
  {
    MulMono(2, d, 10);
    MulMono(2, d, 7);
    MulMono(2, d, 4);
    QuotientBound(d, o - n, 2 * size, 3 * size - 5, 9);
    QuotientBound(d, q, size, size - 1, 3);
    if size <= 6 {
      QuotientBound(d, o - n, 2 * size, 3 * size - 5, 6);
    }
  }

  lemma Undivided(size: nat, n: nat, least: nat, m: nat, o: nat, q: nat, ct: nat, cx: nat, total: nat)
    requires Figures(size, n, 1, least, m, o, q, ct, cx, total) && size <= 8 && cx >= 63 && total - cx <= 126
    ensures o <= 30 && q <= 15 && (o + q <= 31 ==> o <= 24)
  {
    assert 1 * (o - n) == o - n && 1 * q == q && 1 * size == size;
    if least > 0 {
      MulMono(2, n, least - 1);
      assert n * (least - 1) == n * least - n && least * n == n * least;
    }
  }

  // ----- the final probability -----

  lemma LogFor(sum: nat)
    requires 0 < sum <= 63
    ensures AccLogFor(sum, 6) == if sum <= 31 then 5 else 6
  {
    hide Log2;
    Pow2Values();
    if sum <= 31 {
      Pow2Reflects(Log2(sum), 4) by {
        if Log2(sum) > 4 { Pow2Mono(5, Log2(sum)); }
        Pow2Mono(if Log2(sum) <= 4 then Log2(sum) else 4, 4);
      }
    } else {
      Log2Unique(sum, 5);
    }
  }

  lemma RaisedTop(ps: seq<int>, diff: nat)
    requires |ps| > 0 && NonNegative(ps) && Before(ps, |ps|) > 0 && diff > 0
    ensures var t := LastMax(ps, |ps|);
      LastMax(Raised(ps, diff), |ps|) == t && Raised(ps, diff)[t] == ps[t] + diff
  {
    hide Before;
    var t := LastMax(ps, |ps|);
    assert forall i :: t < i < |ps| ==> Raised(ps, diff)[i] < Raised(ps, diff)[t];
  }

  lemma BalancedTop(ps: seq<int>, half: nat)
    requires NonNegative(ps) && |ps| > 1 && half > 0 && Before(ps, |ps|) == 2 * half
    ensures var t := LastMax(ps, |ps|);
      Balanced(ps, half)[t] == if ps[t] > half then half else ps[t]
  {
    hide Before;
    var t := LastMax(ps, |ps|);
    if ps[t] > half {
      BalancePoints(ps, half);
    }
  }

  lemma ScaledShares(counts: seq<nat>)
    requires Normalisable(counts, 6, true) && Least(counts) > 0
    ensures Scaled(counts) == Shares(counts) && Before(Shares(counts), |counts|) > 0
    ensures NonNegative(Shares(counts)) && |Shares(counts)| == |counts| > 1 && Normalisable(counts, 6, false)
  {
    hide Before, Divided, Shifted, MinCount, Positives, Pow2;
  }

  lemma ExactByRaising(counts: seq<nat>, k: nat)
    requires Normalisable(counts, 6, false)
    requires var sum := Before(Scaled(counts), |counts|); k == AccLogFor(sum, 6) && sum < Pow2(k)
    ensures Exact(counts, 6) == (Raised(Scaled(counts), Pow2(k) - Before(Scaled(counts), |counts|)), k)
  {
    hide Before, Scaled, Raised, Reduced, Positives, Pow2, AccLogFor, Normalisable;
  }

  lemma ExactIsRaised(counts: seq<nat>)
    requires Normalisable(counts, 6, true) && Least(counts) > 0 && Before(Shares(counts), |counts|) <= 63
    ensures var sum := Before(Shares(counts), |counts|);
      var k := if sum <= 31 then 5 else 6;
      0 < sum < Pow2(k) && Exact(counts, 6) == (Raised(Shares(counts), Pow2(k) - sum), k)
  {
    hide Raised, Before, Positives, Shares, MinCount, AccLogFor, Exact, Scaled, Normalisable, SameSupport,
      NonNegative, Pow2;
    ScaledShares(counts);
    LogFor(Before(Shares(counts), |counts|));
    Pow2Values();
    ExactByRaising(counts, AccLogFor(Before(Shares(counts), |counts|), 6));
  }

  lemma NormalisedTop(counts: seq<nat>)
    requires Normalisable(counts, 6, true)
    ensures Normalisable(counts, 6, false)
    ensures var (ps, k) := Exact(counts, 6);
      && |ps| == |counts| && NonNegative(ps) && Before(ps, |ps|) == Pow2(k) == 2 * Pow2(k - 1)
      && Normalised(counts, 6, true) == (Balanced(ps, Pow2(k - 1)), k)
  {
    hide Exact, Balanced, Before, Positives;
  }

  function AtMostHalf(p: int, half: nat): int {
    if p > half then half else p
  }

  lemma RaisedAndBalanced(qs: seq<int>, half: nat)
    requires NonNegative(qs) && |qs| > 1 && 0 < Before(qs, |qs|) < 2 * half
    ensures var ps := Raised(qs, 2 * half - Before(qs, |qs|));
      && |ps| == |qs| && NonNegative(ps) && Before(ps, |ps|) == 2 * half
      && var t := LastMax(qs, |qs|);
        Balanced(ps, half)[t] == AtMostHalf(2 * half - (Before(qs, |qs|) - qs[t]), half)
  {
    hide Raised, Balanced, Before;
    var diff := 2 * half - Before(qs, |qs|);
    RaisedTop(qs, diff);
    BalancedTop(Raised(qs, diff), half);
  }

  /** When the shares fit, the largest gets what the others leave, at most half. */
  lemma FinalShare(counts: seq<nat>)
    requires Normalisable(counts, 6, true) && Least(counts) > 0 && Before(Shares(counts), |counts|) <= 63
    ensures var (ps, k) := Normalised(counts, 6, true);
      && k == (if Before(Shares(counts), |counts|) <= 31 then 5 else 6)
      && ps[Top(counts)] == AtMostHalf(Pow2(k) - Others(counts), Pow2(k - 1))
  {
    hide Exact, Raised, Balanced, Before, Positives, Shares, MinCount, Pow2, Normalised, Normalisable, SameSupport,
      NonNegative, LastMax, AtMostHalf;
    ScaledShares(counts);
    ExactIsRaised(counts);
    NormalisedTop(counts);
    RaisedAndBalanced(Shares(counts), Pow2(Exact(counts, 6).1 - 1));
  }

  /** A count that outweighs the others. */
  ghost predicate Outweighs(counts: seq<nat>, x: nat) {
    && x < |counts| && counts[x] > 0 && Before(counts, |counts|) <= 255
    && ((|counts| <= 9 && counts[x] >= 127)
        || (|counts| <= 8 && counts[x] >= 63 && Before(counts, |counts|) - counts[x] <= 126))
  }

  /** Then some symbol occurs about as often and owns a quarter of a table of 32
      cells, or half of one of 64. */
  lemma OutweighingShare(counts: seq<nat>, x: nat) returns (t: nat)
    requires Normalisable(counts, 6, true) && Outweighs(counts, x)
    ensures t < |counts| && counts[t] >= counts[x] - (|counts| - 1)
    ensures var (ps, k) := Normalised(counts, 6, true);
      (k == 5 && ps[t] >= 8) || (k == 6 && ps[t] == 32 && |counts| <= 8 && Before(counts, |counts|) - counts[x] <= 126)
  {
    hide Shares, Divisor, Before, Positives, Normalised, Others, MinCount, Figures;
    LeastPositive(counts, x);
    t := Top(counts);
    TopShare(counts, x);
    OthersInProportion(counts);
    SmallRest(counts, x);
    FinalShare(counts);
    Pow2Values();
  }

  lemma LeastPositive(counts: seq<nat>, x: nat)
    requires x < |counts| && counts[x] > 0
    ensures Least(counts) > 0
  {
  }

  /** The shares fit, and the others leave enough. */
  lemma SmallRest(counts: seq<nat>, x: nat)
    requires Outweighs(counts, x) && Least(counts) > 0
    ensures var sum, o := Before(Shares(counts), |counts|), Others(counts);
      && sum <= 63 && (sum <= 31 ==> o <= 24)
      && (sum > 31 ==> o <= 32 && |counts| <= 8 && Before(counts, |counts|) - counts[x] <= 126)
  {
    hide Shares, Divisor, Before, Positives, MinCount, Top;
    if Positives(counts, |counts|) <= 2 {
      TopShare(counts, x);
      OthersOfTwo(counts);
      TopBound(|counts|, Divisor(counts), Greatest(counts), Shares(counts)[Top(counts)]);
    } else {
      ManySymbols(counts, x);
    }
  }

  lemma ManySymbols(counts: seq<nat>, x: nat)
    requires Outweighs(counts, x) && Least(counts) > 0 && Positives(counts, |counts|) > 2
    ensures var q, o := Shares(counts)[Top(counts)], Others(counts);
      if |counts| <= 9 && counts[x] >= 127 then o <= 24 && o + q <= 31
      else o <= 32 && o + q <= 63 && (o + q <= 31 ==> o <= 24)
  {
    hide Shares, Divisor, Before, Positives, MinCount, Figures, Others, Top, Greatest;
    TheFigures(counts, x);
    if |counts| <= 9 && counts[x] >= 127 {
      HalfOfAll(|counts|, Positives(counts, |counts|) - 1, Divisor(counts), Least(counts), Greatest(counts), Others(counts),
        Shares(counts)[Top(counts)], counts[Top(counts)], counts[x], Before(counts, |counts|));
    } else {
      ThirdOfAll(|counts|, Positives(counts, |counts|) - 1, Divisor(counts), Least(counts), Greatest(counts), Others(counts),
        Shares(counts)[Top(counts)], counts[Top(counts)], counts[x], Before(counts, |counts|));
    }
  }

  lemma TopBound(size: nat, d: nat, m: nat, q: nat)
    requires d > 0 && size <= 9 && (if m > size then d * q <= m <= d * size + size - 1 else q == m)
    ensures q <= 17
  {
    if m > size {
      MulMono(1, d, 9);
      QuotientBound(d, q, size, size - 1, 8);
    }
  }

  lemma TheFigures(counts: seq<nat>, x: nat)
    requires Outweighs(counts, x) && Least(counts) > 0 && Positives(counts, |counts|) > 2
    ensures Others(counts) >= 0 && Shares(counts)[Top(counts)] >= 0
    ensures Figures(|counts|, Positives(counts, |counts|) - 1, Divisor(counts), Least(counts), Greatest(counts), Others(counts),
      Shares(counts)[Top(counts)], counts[Top(counts)], counts[x], Before(counts, |counts|))
  {
    hide Shares, Divisor, Before, Positives, MinCount, Others, Top;
    TopShare(counts, x);
    OthersInProportion(counts);
    FewPositives(counts, |counts|);
  }
}
