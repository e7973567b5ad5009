/** How the `p` states of one symbol divide up the state space `0..2^k`. */
module FseLayout {
  import opened Numbers

  /** `32 - leading_zeros`, that is, the number of significant bits. */
  function HighestBitSet(x: nat): (r: nat)
    requires x > 0
    ensures r > 0 && Pow2(r - 1) <= x < Pow2(r)
  {
    Log2(x) + 1
  }

  /** The decoder's rule: where state number `n` of a symbol with `p` of the
      `total` states starts, and how many bits it reads. */
  function CalcBaselineAndNumBits(total: nat, p: nat, n: nat): (int, int)
    requires 0 < p <= total
  {
    var slices := if Pow2(HighestBitSet(p) - 1) == p then p else Pow2(HighestBitSet(p));
    var dbl := slices - p;
    var single := p - dbl;
    var width := total / slices;
    var bits := if width > 0 then HighestBitSet(width) - 1 else 0;
    if n < dbl then (single * width + n * width * 2, bits + 1) else ((n - dbl) * width, bits)
  }

  /** The least `a` with `p <= 2^a`. */
  function CeilLog(p: nat): (a: nat)
    requires p > 0
    ensures Pow2(a) >= p && 2 * p > Pow2(a)
  {
    if IsPow2(p) then Log2(p) else Log2(p) + 1
  }

  lemma CeilLogBound(p: nat, k: nat)
    requires 0 < p <= Pow2(k)
    ensures CeilLog(p) <= k
  {
    if CeilLog(p) > k {
      Pow2Mono(k, CeilLog(p) - 1);
    }
  }

  /** The number of states with the wider range. */
  function Doubles(p: nat): nat
    requires p > 0
  {
    Pow2(CeilLog(p)) - p
  }

  function Singles(p: nat): (s: nat)
    requires p > 0
    ensures s > 0 && s + Doubles(p) == p
  {
    p - Doubles(p)
  }

  function Width(k: nat, p: nat): nat
    requires 0 < p <= Pow2(k)
  {
    CeilLogBound(p, k);
    Pow2(k - CeilLog(p))
  }

  function WidthBits(k: nat, p: nat): nat
    requires 0 < p <= Pow2(k)
  {
    CeilLogBound(p, k);
    k - CeilLog(p)
  }

  /** Singles count once, doubles twice, and together they fill the table. */
  lemma WidthsFill(k: nat, p: nat)
    requires 0 < p <= Pow2(k)
    ensures (Singles(p) + 2 * Doubles(p)) * Width(k, p) == Pow2(k)
    ensures Pow2(WidthBits(k, p)) == Width(k, p)
  {
    hide Pow2;
    CeilLogBound(p, k);
    Pow2Add(CeilLog(p), k - CeilLog(p));
  }

  /** First index reached by the `j`-th state in the order of baselines. */
  function RangeStart(k: nat, p: nat, j: nat): nat
    requires 0 < p <= Pow2(k)
  {
    if j <= Singles(p) then Times(j, Width(k, p))
    else Times(Singles(p), Width(k, p)) + Times(j - Singles(p), 2 * Width(k, p))
  }

  function Times(a: nat, b: nat): nat {
    a * b
  }

  /** Bits read by the `j`-th state in the order of baselines. */
  function RangeBits(k: nat, p: nat, j: nat): nat
    requires 0 < p <= Pow2(k)
  {
    if j < Singles(p) then WidthBits(k, p) else WidthBits(k, p) + 1
  }

  /** The ranges are adjacent: each begins where the one before ends. */
  lemma RangesAdjacent(k: nat, p: nat, j: nat)
    requires 0 < p <= Pow2(k) && j < p
    ensures RangeStart(k, p, j + 1) == RangeStart(k, p, j) + Pow2(RangeBits(k, p, j))
  {
    hide CeilLog, Doubles, Singles, Width, WidthBits;
    WidthsFill(k, p);
    var w, s := Width(k, p), Singles(p);
    if j < s {
      assert (j + 1) * w == j * w + w;
    } else {
      assert Pow2(WidthBits(k, p) + 1) == 2 * w;
      assert (j + 1 - s) * (2 * w) == (j - s) * (2 * w) + 2 * w;
      if j == s {
        assert (j - s) * (2 * w) == 0;
      }
    }
  }

  /** The ranges begin at 0 and end at the table size. */
  lemma RangesSpan(k: nat, p: nat)
    requires 0 < p <= Pow2(k)
    ensures RangeStart(k, p, 0) == 0
    ensures RangeStart(k, p, p) == Pow2(k)
  {
    hide CeilLog, Doubles, Singles, Width, Pow2;
    WidthsFill(k, p);
    var w, s, d := Width(k, p), Singles(p), Doubles(p);
    assert s + d == p;
    MulDistrib(s, d, w);
    if d == 0 {
      assert RangeStart(k, p, p) == p * w;
    }
    assert 0 * w == 0;
  }

  lemma MulDistrib(s: nat, d: nat, w: nat)
    ensures (s + 2 * d) * w == s * w + d * (2 * w)
    ensures d == 0 ==> (s + 2 * d) * w == s * w
  {
  }

  lemma {:induction false} RangeStartMono(k: nat, p: nat, i: nat, j: nat)
    requires 0 < p <= Pow2(k) && i <= j <= p
    ensures RangeStart(k, p, i) <= RangeStart(k, p, j)
    ensures i < j ==> RangeStart(k, p, i) < RangeStart(k, p, j)
    decreases j
  {
    hide RangeStart, RangeBits;
    if i < j {
      RangeStartMono(k, p, i, j - 1);
      RangesAdjacent(k, p, j - 1);
    }
  }

  /** Every index lies in exactly one range. */
  lemma {:induction false} RangeContaining(k: nat, p: nat, x: nat, n: nat) returns (j: nat)
    requires 0 < p <= Pow2(k) && 1 <= n <= p && x < RangeStart(k, p, n)
    ensures j < n
    ensures RangeStart(k, p, j) <= x < RangeStart(k, p, j) + Pow2(RangeBits(k, p, j))
  {
    hide RangeStart, RangeBits;
    RangesSpan(k, p);
    if x < RangeStart(k, p, n - 1) {
      j := RangeContaining(k, p, x, n - 1);
    } else {
      RangesAdjacent(k, p, n - 1);
      j := n - 1;
    }
  }

  /** The search hint never starts behind the range it is looking for. */
  lemma HintSound(k: nat, p: nat, x: nat, j: nat)
    requires 0 < p <= Pow2(k) && j < p && x < RangeStart(k, p, j + 1)
    ensures 0 <= (x * p) / Pow2(k) <= j
  {
    hide CeilLog, Doubles, Singles, Width, Pow2;
    WidthsFill(k, p);
    var w, s, d := Width(k, p), Singles(p), Doubles(p);
    var size := Pow2(k);
    var end := RangeStart(k, p, j + 1);
    assert s + d == p && (s + 2 * d) * w == size;
    HintArithmetic(s, d, w, j, end);
    MulMonoStrict(x, end, p);
    DivBound(x * p, size, j + 1);
  }

  lemma MulMonoStrict(x: nat, e: nat, p: nat)
    requires x < e && p > 0
    ensures x * p < e * p
  {
  }

  lemma HintArithmetic(s: nat, d: nat, w: nat, j: nat, end: nat)
    requires j < s + d
    requires end == if j < s then (j + 1) * w else s * w + (j + 1 - s) * (2 * w)
    ensures end * (s + d) <= (j + 1) * ((s + 2 * d) * w)
  {
    var n := s + d;
    if j < s {
      MulMono(n, s + 2 * d, (j + 1) * w);
      assert end * n == n * ((j + 1) * w);
      assert (s + 2 * d) * ((j + 1) * w) == (j + 1) * ((s + 2 * d) * w) by { Swap(s + 2 * d, j + 1, w); }
    } else {
      var t := j + 1 - s;
      assert j + 1 == s + t;
      CrossTerms(s, d, t);
      MulMono((s + 2 * t) * n, (s + t) * (s + 2 * d), w);
      assert end == (s + 2 * t) * w by { MulDistrib(s, t, w); }
      assert end * n == ((s + 2 * t) * n) * w by { Swap2(s + 2 * t, n, w); }
      assert ((s + t) * (s + 2 * d)) * w == (s + t) * ((s + 2 * d) * w) by { Assoc3(s + t, s + 2 * d, w); }
    }
  }

  lemma Assoc3(a: nat, b: nat, c: nat)
    ensures (a * b) * c == a * (b * c)
  {
  }

  lemma Swap(a: nat, b: nat, c: nat)
    ensures a * (b * c) == b * (a * c)
  {
  }

  lemma Swap2(a: nat, b: nat, c: nat)
    ensures (a * c) * b == (a * b) * c
  {
  }

  lemma CrossTerms(s: nat, d: nat, t: nat)
    requires t <= d
    ensures (s + 2 * t) * (s + d) <= (s + t) * (s + 2 * d)
  {
    MulMono(t, d, s);
    calc {
      (s + t) * (s + 2 * d);
      s * s + 2 * (s * d) + t * s + 2 * (t * d);
    }
    calc {
      (s + 2 * t) * (s + d);
      s * s + s * d + 2 * (t * s) + 2 * (t * d);
    }
    assert s * d == d * s;
  }

  // ----- the decoder's rule gives these ranges -----

  /** State number `n` in table order is range `RankToRange(p, n)` in the order
      of baselines: the doubles come first in the table but reach highest. */
  function RankToRange(p: nat, n: nat): (j: nat)
    requires 0 < p && n < p
    ensures j < p
  {
    if n < Doubles(p) then Singles(p) + n else n - Doubles(p)
  }

  function RangeToRank(p: nat, j: nat): (n: nat)
    requires 0 < p && j < p
    ensures n < p && RankToRange(p, n) == j
  {
    if j < Singles(p) then Doubles(p) + j else j - Singles(p)
  }

  lemma CalcIsRange(k: nat, p: nat, n: nat)
    requires 0 < p <= Pow2(k) && n < p
    ensures CalcBaselineAndNumBits(Pow2(k), p, n)
      == (RangeStart(k, p, RankToRange(p, n)), RangeBits(k, p, RankToRange(p, n)))
  {
    hide RangeStart, CalcBaselineAndNumBits, Pow2, CeilLog;
    var a, w, s, d := CeilLog(p), Width(k, p), Singles(p), Doubles(p);
    SlicesArePow2(p);
    CeilLogBound(p, k);
    WidthIsQuotient(k, a);
    Log2Of(k - a);
    CalcUnfold(Pow2(k), p, n, Pow2(a), w);
    CalcCases(k, p, n, w, s, d);
  }

  lemma Log2Of(b: nat)
    ensures HighestBitSet(Pow2(b)) == b + 1
  {
    Log2Unique(Pow2(b), b);
  }

  lemma CalcUnfold(total: nat, p: nat, n: nat, slices: nat, width: nat)
    requires 0 < p <= total && width > 0
    requires slices > 0 && slices == if Pow2(HighestBitSet(p) - 1) == p then p else Pow2(HighestBitSet(p))
    requires width == total / slices && slices >= p
    ensures CalcBaselineAndNumBits(total, p, n)
      == if n < slices - p then ((p - (slices - p)) * width + n * width * 2, HighestBitSet(width) - 1 + 1)
         else ((n - (slices - p)) * width, HighestBitSet(width) - 1)
  {
    hide HighestBitSet, Pow2;
  }

  lemma SlicesArePow2(p: nat)
    requires p > 0
    ensures (if Pow2(HighestBitSet(p) - 1) == p then p else Pow2(HighestBitSet(p))) == Pow2(CeilLog(p))
  {
  }

  lemma WidthIsQuotient(k: nat, a: nat)
    requires a <= k
    ensures Pow2(k) / Pow2(a) == Pow2(k - a)
  {
    hide Pow2;
    Pow2Add(k - a, a);
    DivModUnique(Pow2(a), Pow2(k - a), 0);
  }

  lemma CalcCases(k: nat, p: nat, n: nat, w: nat, s: nat, d: nat)
    requires 0 < p <= Pow2(k) && n < p
    requires w == Width(k, p) && s == Singles(p) && d == Doubles(p)
    ensures n < d ==> RangeStart(k, p, RankToRange(p, n)) == s * w + n * w * 2
    ensures n >= d ==> RangeStart(k, p, RankToRange(p, n)) == (n - d) * w
  {
    hide CeilLog, Doubles, Singles, Width, Pow2;
    if n < d {
      assert n * w * 2 == n * (2 * w) by { Assoc3(n, w, 2); }
    }
  }

  /** Some state reads no bits exactly when the symbol owns more than half of
      the table. */
  lemma ZeroBitsIff(k: nat, p: nat)
    requires 0 < p <= Pow2(k) && k > 0
    ensures (exists j :: 0 <= j < p && RangeBits(k, p, j) == 0) <==> p > Pow2(k - 1)
    ensures RangeBits(k, p, 0) == 0 <==> p > Pow2(k - 1)
  {
    var a := CeilLog(p);
    CeilLogBound(p, k);
    assert 0 < Singles(p);
    if p > Pow2(k - 1) {
      if a < k {
        Pow2Mono(a, k - 1);
      }
      assert RangeBits(k, p, 0) == 0;
    } else {
      CeilLogBound(p, k - 1);
    }
  }

  lemma RangeBitsBound(k: nat, p: nat, j: nat)
    requires 0 < p <= Pow2(k) && j < p
    ensures RangeBits(k, p, j) <= k
  {
    hide Pow2;
    CeilLogBound(p, k);
    if CeilLog(p) == 0 {
      SinglesAll(p);
    }
  }

  lemma SinglesAll(p: nat)
    requires p > 0 && CeilLog(p) == 0
    ensures Singles(p) == p
  {
  }
}
