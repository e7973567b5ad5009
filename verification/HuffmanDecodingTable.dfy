/** Building the flat decoding table from a list of weights whose last entry is
    left out. */
module HuffmanDecodingTable {
  import opened Numbers
  import opened Results
  import opened HuffmanCodes
  import opened FseDecodingTable

  const MAX_MAX_NUM_BITS: nat := 11

  datatype HuffmanTableError =
    | WeightBiggerThanMaxNumBits(got: nat)
    | MissingWeights
    | LeftoverIsNotAPowerOf2(left: nat)
    | MaxBitsTooHigh(max: nat)
    | SourceIsEmpty
    | NotEnoughBytesForWeights(have: nat, expected: nat)
    | FseTableFailed(e: FseTableError)
    | FseTableUsedTooManyBytes(used: nat, available: nat)
    | ExtraPadding(skippedBits: nat)
    | TooManyWeights(number: nat)
    | NotEnoughBytesInSource(have: nat, need: nat)

  // ----- the weight left out -----

  /** The first weight above the limit, if any. */
  function TooBig(ws: seq<nat>, from: nat): (r: Option<nat>)
    requires from <= |ws|
    ensures r.None? ==> forall i :: from <= i < |ws| ==> ws[i] <= MAX_MAX_NUM_BITS
    decreases |ws| - from
  {
    if from == |ws| then None else if ws[from] > MAX_MAX_NUM_BITS then Some(ws[from]) else TooBig(ws, from + 1)
  }

  /** The code length limit and the weight that completes the list, or the reason
      why there is none. */
  function Inferred(ws: seq<nat>): Result<(nat, nat), HuffmanTableError> {
    if TooBig(ws, 0).Some? then Err(WeightBiggerThanMaxNumBits(TooBig(ws, 0).value)) else
    var sum := Kraft(ws, |ws|);
    if sum == 0 then Err(MissingWeights) else
    var max := Log2(sum) + 1;
    var left := Pow2(max) - sum;
    if !IsPow2(left) then Err(LeftoverIsNotAPowerOf2(left))
    else if max > MAX_MAX_NUM_BITS then Err(MaxBitsTooHigh(max))
    else Ok((max, Log2(left) + 1))
  }

  lemma {:induction false} KraftAppend(ws: seq<nat>, last: nat, n: nat)
    requires n <= |ws|
    ensures Kraft(ws + [last], n) == Kraft(ws, n)
    ensures n == |ws| ==> Kraft(ws + [last], n + 1) == Kraft(ws, n) + Span(last)
  {
    if n > 0 {
      KraftAppend(ws, last, n - 1);
    }
  }

  lemma LastWeightCompletes(sum: nat)
    requires sum > 0 && IsPow2(Pow2(Log2(sum) + 1) - sum)
    ensures var max := Log2(sum) + 1;
      var last := Log2(Pow2(max) - sum) + 1;
      sum + Span(last) == Pow2(max) && last <= max
  {
    hide Pow2;
    var max := Log2(sum) + 1;
    var left := Pow2(max) - sum;
    IsPow2Iff(left, Log2(left));
    Pow2Double(max);
    Pow2Reflects(Log2(left), max - 1);
  }

  /** The inferred weight completes the list, and every code has at least one bit. */
  lemma InferredCompletes(ws: seq<nat>)
    requires Inferred(ws).Ok?
    ensures var (m, last) := Inferred(ws).value;
      && Complete(ws + [last], m) && 0 < last <= m <= MAX_MAX_NUM_BITS
      && forall s :: 0 <= s < |ws| ==> ws[s] <= m
  {
    hide Pow2, IsPow2, Log2, TooBig;
    var (m, last) := Inferred(ws).value;
    LastWeightCompletes(Kraft(ws, |ws|));
    KraftAppend(ws, last, |ws|);
    forall s | 0 <= s < |ws|
      ensures ws[s] <= m
    {
      SmallSpan(ws + [last], m, s);
    }
  }

  /** Next to another symbol no weight takes the whole code space. */
  lemma SmallSpan(ws: seq<nat>, m: nat, s: nat)
    requires Complete(ws, m) && s < |ws| - 1 && ws[|ws| - 1] > 0
    ensures ws[s] <= m
  {
    hide Pow2;
    if ws[s] > 0 {
      KraftPart(ws, s, |ws| - 1);
      WeightBound(ws, m, s);
      SpanOfAll(ws[s], m);
    }
  }

  lemma SpanOfAll(w: nat, m: nat)
    ensures w == m + 1 ==> Span(w) == Pow2(m)
  {
  }

  lemma {:induction false} KraftPart(ws: seq<nat>, s: nat, n: nat)
    requires s < n <= |ws|
    ensures Kraft(ws, n) >= Span(ws[s])
  {
    if s < n - 1 {
      KraftPart(ws, s, n - 1);
    }
  }

  /** For a complete list with another symbol beside the last, the decoder infers
      exactly the last weight and the code length limit. */
  lemma LastWeightInferred(ws: seq<nat>, m: nat)
    requires Complete(ws, m) && m <= MAX_MAX_NUM_BITS
    requires |ws| > 1 && ws[|ws| - 1] > 0 && exists s :: 0 <= s < |ws| - 1 && ws[s] > 0
    ensures Inferred(ws[..|ws| - 1]) == Ok((m, ws[|ws| - 1]))
  {
    hide Pow2, IsPow2, Log2;
    var ps, last := ws[..|ws| - 1], ws[|ws| - 1];
    assert ws == ps + [last];
    KraftAppend(ps, last, |ps|);
    var s :| 0 <= s < |ws| - 1 && ws[s] > 0;
    KraftPart(ps, s, |ps|);
    var sum := Kraft(ps, |ps|);
    Pow2Strict(last - 1, m);
    Pow2Double(m);
    Pow2Mono(last - 1, m - 1);
    Log2Unique(sum, m - 1);
    IsPow2Iff(Pow2(last - 1), last - 1);
    forall i | 0 <= i < |ps|
      ensures ps[i] <= MAX_MAX_NUM_BITS
    {
      SmallSpan(ws, m, i);
    }
    NoneTooBig(ps, 0);
  }

  lemma Pow2Strict(a: nat, b: nat)
    requires Pow2(a) < Pow2(b)
    ensures a < b
  {
    if b <= a {
      Pow2Mono(b, a);
    }
  }

  lemma {:induction false} NoneTooBig(ws: seq<nat>, from: nat)
    requires from <= |ws| && forall i :: 0 <= i < |ws| ==> ws[i] <= MAX_MAX_NUM_BITS
    ensures TooBig(ws, from).None?
    decreases |ws| - from
  {
    if from < |ws| {
      NoneTooBig(ws, from + 1);
    }
  }

  // ----- the loops -----

  method SumWeights(weights: seq<nat>) returns (r: Result<nat, HuffmanTableError>)
    ensures r == if TooBig(weights, 0).Some? then Err(WeightBiggerThanMaxNumBits(TooBig(weights, 0).value))
      else Ok(Kraft(weights, |weights|))
  {
    var weightSum := 0;
    for i := 0 to |weights|
      invariant weightSum == Kraft(weights, i)
      invariant TooBig(weights, 0) == TooBig(weights, i)
    {
      if weights[i] > MAX_MAX_NUM_BITS {
        return Err(WeightBiggerThanMaxNumBits(weights[i]));
      }
      weightSum := weightSum + if weights[i] > 0 then Pow2(weights[i] - 1) else 0;
    }
    r := Ok(weightSum);
  }

  function CountEqual(xs: seq<nat>, x: nat, n: nat): nat
    requires n <= |xs|
  {
    if n == 0 then 0 else CountEqual(xs, x, n - 1) + if xs[n - 1] == x then 1 else 0
  }

  method RankSizes(bits: seq<nat>, maxBits: nat) returns (ranks: seq<nat>)
    requires forall i :: 0 <= i < |bits| ==> bits[i] <= maxBits
    ensures |ranks| == maxBits + 1
    ensures forall b :: 0 <= b <= maxBits ==> ranks[b] == CountEqual(bits, b, |bits|)
  {
    ranks := seq(maxBits + 1, i => 0);
    for i := 0 to |bits|
      invariant |ranks| == maxBits + 1
      invariant forall b :: 0 <= b <= maxBits ==> ranks[b] == CountEqual(bits, b, i)
    {
      ranks := ranks[bits[i] := ranks[bits[i]] + 1];
    }
  }

  ghost predicate LengthsOf(bits: seq<nat>, ws: seq<nat>, m: nat) {
    && |bits| == |ws| && (forall s :: 0 <= s < |ws| ==> ws[s] <= m)
    && forall s :: 0 <= s < |ws| ==> bits[s] == Length(m, ws[s])
  }

  /** As many spans as symbols of that length. */
  lemma {:induction false} LevelCounts(bits: seq<nat>, ws: seq<nat>, m: nat, b: nat, n: nat)
    requires LengthsOf(bits, ws, m) && 1 <= b <= m && n <= |ws|
    ensures Level(ws, m + 1 - b, n) == CountEqual(bits, b, n) * Pow2(m - b)
  {
    hide Pow2;
    if n > 0 {
      LevelCounts(bits, ws, m, b, n - 1);
      MulNext(CountEqual(bits, b, n - 1), Pow2(m - b));
    }
  }

  /** Where each code length starts: behind all longer codes. */
  method RankStarts(ranks: seq<nat>, maxBits: nat, ghost bits: seq<nat>, ghost ws: seq<nat>) returns (starts: seq<nat>)
    requires LengthsOf(bits, ws, maxBits) && |ranks| == maxBits + 1
    requires forall b :: 0 <= b <= maxBits ==> ranks[b] == CountEqual(bits, b, |bits|)
    ensures |starts| == maxBits + 1
    ensures forall b :: 0 <= b <= maxBits ==> starts[b] == Below(ws, maxBits + 1 - b, |ws|)
  {
    hide Pow2, Below, Level, CountEqual;
    starts := seq(maxBits + 1, i => 0);
    BelowZero(ws, |ws|);
    for bits' := maxBits + 1 downto 1
      invariant |starts| == maxBits + 1
      invariant bits' <= maxBits ==> forall b :: bits' - 1 <= b <= maxBits ==> starts[b] == Below(ws, maxBits + 1 - b, |ws|)
      invariant bits' == maxBits + 1 ==> starts[maxBits] == Below(ws, 1, |ws|)
    {
      LevelCounts(bits, ws, maxBits, bits', |ws|);
      BelowStep(ws, maxBits + 1 - bits', |ws|);
      starts := starts[bits' - 1 := starts[bits'] + ranks[bits'] * Pow2(maxBits - bits')];
    }
  }

  method FillRange(decode: seq<CodeEntry>, base: nat, len: nat, entry: CodeEntry) returns (d: seq<CodeEntry>)
    requires base + len <= |decode|
    ensures |d| == |decode|
    ensures forall i :: 0 <= i < |d| ==> d[i] == if base <= i < base + len then entry else decode[i]
  {
    d := decode;
    for idx := 0 to len
      invariant |d| == |decode|
      invariant forall i :: 0 <= i < |d| ==> d[i] == if base <= i < base + idx then entry else decode[i]
    {
      d := d[base + idx := entry];
    }
  }

  ghost predicate Filled(d: seq<CodeEntry>, ws: seq<nat>, m: nat, n: nat)
    requires n <= |ws|
  {
    forall s, i :: 0 <= s < n && 0 <= i < |d| && ws[s] > 0 && InRange(ws, s, i) ==> d[i] == CodeEntry(s % 256, Length(m, ws[s]))
  }

  lemma FillOne(d: seq<CodeEntry>, d': seq<CodeEntry>, ws: seq<nat>, m: nat, n: nat)
    requires n < |ws| && Filled(d, ws, m, n) && |d| == |d'|
    requires forall i :: 0 <= i < |d| ==> d'[i] == if ws[n] > 0 && InRange(ws, n, i) then CodeEntry(n % 256, Length(m, ws[n])) else d[i]
    ensures Filled(d', ws, m, n + 1)
  {
    hide InRange, Length;
    forall s, i | 0 <= s < n + 1 && 0 <= i < |d'| && ws[s] > 0 && InRange(ws, s, i)
      ensures d'[i] == CodeEntry(s % 256, Length(m, ws[s]))
    {
      if s < n && ws[n] > 0 && InRange(ws, n, i) {
        RangesDisjoint(ws, s, n, i);
      }
    }
  }

  /** Each symbol takes the next free part of its length's share. */
  method FillTable(blank: seq<CodeEntry>, bits: seq<nat>, starts: seq<nat>, maxBits: nat, ghost ws: seq<nat>) returns (decode: seq<CodeEntry>)
    requires Complete(ws, maxBits) && LengthsOf(bits, ws, maxBits)
    requires |blank| == Pow2(maxBits) && |starts| == maxBits + 1
    requires forall b :: 0 <= b <= maxBits ==> starts[b] == Below(ws, maxBits + 1 - b, |ws|)
    ensures Decodes(decode, ws, maxBits)
  {
    hide Pow2, Below, Level, Kraft, InRange, Filled;
    decode := blank;
    var rankIndexes := starts;
    FilledNothing(blank, ws, maxBits);
    LevelNothing(ws);
    for symbol := 0 to |bits|
      invariant |decode| == |blank| && |rankIndexes| == maxBits + 1
      invariant Filled(decode, ws, maxBits, symbol)
      invariant forall b :: 1 <= b <= maxBits ==>
        rankIndexes[b] == Below(ws, maxBits + 1 - b, |ws|) + Level(ws, maxBits + 1 - b, symbol)
    {
      var bitsForSymbol := bits[symbol];
      ghost var before := decode;
      LevelNext(ws, symbol);
      if bitsForSymbol != 0 {
        var baseIdx := rankIndexes[bitsForSymbol];
        var len := Pow2(maxBits - bitsForSymbol);
        RangeInside(ws, symbol);
        rankIndexes := rankIndexes[bitsForSymbol := baseIdx + len];
        decode := FillRange(decode, baseIdx, len, CodeEntry(symbol % 256, bitsForSymbol));
        RangeIs(ws, symbol, baseIdx, len);
      }
      FillOne(before, decode, ws, maxBits, symbol);
    }
    AllFilled(decode, ws, maxBits);
  }

  lemma FilledNothing(d: seq<CodeEntry>, ws: seq<nat>, m: nat)
    ensures Filled(d, ws, m, 0)
  {
  }

  lemma AllFilled(d: seq<CodeEntry>, ws: seq<nat>, m: nat)
    requires Complete(ws, m) && |d| == Pow2(m) && Filled(d, ws, m, |ws|)
    ensures Decodes(d, ws, m)
  {
  }

  lemma LevelNothing(ws: seq<nat>)
    ensures forall w: nat :: Level(ws, w, 0) == 0
  {
  }

  lemma LevelNext(ws: seq<nat>, s: nat)
    requires s < |ws|
    ensures forall w: nat :: Level(ws, w, s + 1) == Level(ws, w, s) + if ws[s] == w then Span(w) else 0
  {
  }

  lemma RangeIs(ws: seq<nat>, s: nat, base: nat, len: nat)
    requires s < |ws| && base == Base(ws, s) && len == Span(ws[s])
    ensures forall i: nat :: InRange(ws, s, i) <==> base <= i < base + len
  {
  }

  function Resize<T>(s: seq<T>, n: nat, x: T): (r: seq<T>)
    ensures |r| == n
  {
    if |s| >= n then s[..n] else s + seq(n - |s|, i => x)
  }

  // ----- the table -----

  class HuffmanTable {
    var decode: seq<CodeEntry>
    var weights: seq<nat>
    var maxNumBits: nat
    var bits: seq<nat>
    var bitRanks: seq<nat>
    var rankIndexes: seq<nat>
    const fseTable: FseTable

    constructor ()
      ensures decode == [] && weights == [] && maxNumBits == 0 && fresh(fseTable) && fseTable.maxSymbol == 255
    {
      decode, weights, maxNumBits, bits, bitRanks, rankIndexes := [], [], 0, [], [], [];
      fseTable := new FseTable(255);
    }

    /** The weights with the inferred one at the end. */
    ghost function AllWeights(): seq<nat>
      reads this
      requires Inferred(weights).Ok?
    {
      weights + [Inferred(weights).value.1]
    }

    method SetBits(maxBits: nat, lastWeight: nat)
      requires 0 < lastWeight <= maxBits && forall s :: 0 <= s < |weights| ==> weights[s] <= maxBits
      modifies this`bits
      ensures LengthsOf(bits, weights + [lastWeight], maxBits)
    {
      bits := seq(|weights| + 1, i => 0);
      for symbol := 0 to |weights|
        invariant |bits| == |weights| + 1
        invariant forall s :: 0 <= s < symbol ==> bits[s] == Length(maxBits, weights[s])
      {
        bits := bits[symbol := if weights[symbol] > 0 then maxBits + 1 - weights[symbol] else 0];
      }
      bits := bits[|weights| := maxBits + 1 - lastWeight];
    }

    /** The table is built exactly when the missing weight can be inferred. */
    method BuildTableFromWeights() returns (r: Result<(), HuffmanTableError>)
      modifies this
      ensures weights == old(weights)
      ensures Inferred(weights).Err? ==> r == Err(Inferred(weights).error)
      ensures Inferred(weights).Ok? ==>
        r == Ok(()) && maxNumBits == Inferred(weights).value.0 && Decodes(decode, AllWeights(), maxNumBits)
    {
      hide Pow2, IsPow2, Log2, Kraft, TooBig, Complete, Decodes, LengthsOf;
      var sum := SumWeights(weights);
      if sum.Err? { return Err(sum.error); }
      var weightSum := sum.value;
      if weightSum == 0 { return Err(MissingWeights); }
      var maxBits := Log2(weightSum) + 1;
      var leftOver: nat := Pow2(maxBits) - weightSum;
      if !IsPow2(leftOver) { return Err(LeftoverIsNotAPowerOf2(leftOver)); }
      var lastWeight := Log2(leftOver) + 1;
      AllSmall(weights);
      SetBits(maxBits, lastWeight);
      maxNumBits := maxBits;
      if maxBits > MAX_MAX_NUM_BITS { return Err(MaxBitsTooHigh(maxBits)); }
      InferredCompletes(weights);
      ghost var ws := weights + [lastWeight];
      LengthsSmall(bits, ws, maxBits);
      bitRanks := RankSizes(bits, maxBits);
      decode := Resize(decode, Pow2(maxBits), CodeEntry(0, 0));
      rankIndexes := RankStarts(bitRanks, maxBits, bits, ws);
      StartsEnd(ws, maxBits);
      assert rankIndexes[0] == |decode|;
      decode := FillTable(decode, bits, rankIndexes, maxBits, ws);
      r := Ok(());
    }
  }

  /** The last start is the size of the table. */
  lemma StartsEnd(ws: seq<nat>, m: nat)
    requires Complete(ws, m) && forall s :: 0 <= s < |ws| ==> ws[s] <= m
    ensures Below(ws, m + 1, |ws|) == Pow2(m)
  {
    hide Pow2, Below, Kraft;
    BelowAll(ws, m + 1, |ws|);
  }

  lemma LengthsSmall(bits: seq<nat>, ws: seq<nat>, m: nat)
    requires LengthsOf(bits, ws, m)
    ensures |bits| == |ws|
    ensures forall s :: 0 <= s < |ws| ==> bits[s] <= m && ws[s] <= m
  {
  }

  /** No weight exceeds the code length limit, whatever that is. */
  lemma AllSmall(ws: seq<nat>)
    requires Kraft(ws, |ws|) > 0 && IsPow2(Pow2(Log2(Kraft(ws, |ws|)) + 1) - Kraft(ws, |ws|))
    ensures var max := Log2(Kraft(ws, |ws|)) + 1;
      && 0 < Log2(Pow2(max) - Kraft(ws, |ws|)) + 1 <= max
      && forall s :: 0 <= s < |ws| ==> ws[s] <= max
  {
    hide Pow2, IsPow2, Log2;
    var sum := Kraft(ws, |ws|);
    var max := Log2(sum) + 1;
    LastWeightCompletes(sum);
    var last := Log2(Pow2(max) - sum) + 1;
    KraftAppend(ws, last, |ws|);
    forall s | 0 <= s < |ws|
      ensures ws[s] <= max
    {
      SmallSpan(ws + [last], max, s);
    }
  }
}
