/** Building the encoder's codes: symbols sorted by weight, codes counted upwards. */
module HuffmanEncodingTable {
  import opened Numbers
  import opened Sorting
  import opened HuffmanCodes

  datatype SortEntry = SortEntry(symbol: nat, weight: nat)

  /** Weight first, then symbol; symbols are bytes. */
  function ByWeight(e: SortEntry): int {
    256 * e.weight + e.symbol
  }

  ghost predicate FromWeights(e: SortEntry, ws: seq<nat>) {
    e.symbol < |ws| && e.weight == ws[e.symbol] > 0
  }

  /** Every symbol in use is listed once, in canonical order. */
  ghost predicate Canonical(sorted: seq<SortEntry>, ws: seq<nat>) {
    && (forall i :: 0 <= i < |sorted| ==> FromWeights(sorted[i], ws))
    && (forall s :: 0 <= s < |ws| && ws[s] > 0 ==> SortEntry(s, ws[s]) in sorted)
    && StrictlySortedBy(sorted, ByWeight)
  }

  ghost predicate Listed(es: seq<SortEntry>, ws: seq<nat>, n: nat)
    requires n <= |ws|
  {
    && (forall i :: 0 <= i < |es| ==> FromWeights(es[i], ws) && es[i].symbol < n)
    && (forall s :: 0 <= s < n && ws[s] > 0 ==> SortEntry(s, ws[s]) in es)
    && (forall i, j :: 0 <= i < j < |es| ==> es[i].symbol < es[j].symbol)
  }

  lemma ListNext(es: seq<SortEntry>, ws: seq<nat>, n: nat)
    requires n < |ws| && Listed(es, ws, n)
    ensures ws[n] > 0 ==> Listed(es + [SortEntry(n, ws[n])], ws, n + 1)
    ensures ws[n] == 0 ==> Listed(es, ws, n + 1)
  {
    if ws[n] > 0 {
      var x := SortEntry(n, ws[n]);
      assert (es + [x])[|es|] == x;
      forall s | 0 <= s < n && ws[s] > 0
        ensures SortEntry(s, ws[s]) in es + [x]
      {
        StillIn(es, x, SortEntry(s, ws[s]));
      }
    }
  }

  lemma StillIn<T>(s: seq<T>, x: T, y: T)
    requires y in s
    ensures y in s + [x]
  {
  }

  lemma SameMembers<T(!new)>(a: seq<T>, b: seq<T>)
    requires multiset(a) == multiset(b)
    ensures forall x :: x in a <==> x in b
  {
    forall x
      ensures x in a <==> x in b
    {
      assert x in a <==> x in multiset(a);
      assert x in b <==> x in multiset(b);
    }
  }

  lemma EqualKeys(e: SortEntry, f: SortEntry, ws: seq<nat>)
    requires |ws| <= 256 && FromWeights(e, ws) && FromWeights(f, ws) && ByWeight(e) == ByWeight(f)
    ensures e == f
  {
    assert e.symbol < 256 && f.symbol < 256;
  }

  lemma NoTwins(r: seq<SortEntry>, es: seq<SortEntry>, i: nat, j: nat)
    requires multiset(r) == multiset(es) && i < j < |r|
    requires forall i, j :: 0 <= i < j < |es| ==> es[i].symbol < es[j].symbol
    ensures r[i] != r[j]
  {
    if r[i] == r[j] {
      TwiceIn(r, i, j);
      OnceIn(es, (e: SortEntry) => e.symbol, r[i]);
    }
  }

  /** Sorting the list of used symbols puts it in canonical order. */
  lemma SortedIsCanonical(es: seq<SortEntry>, ws: seq<nat>)
    requires |ws| <= 256 && Listed(es, ws, |ws|)
    ensures Canonical(SortByKey(es, ByWeight), ws)
  {
    hide SortByKey, FromWeights;
    var r := SortByKey(es, ByWeight);
    SameMembers(r, es);
    forall i | 0 <= i < |r|
      ensures FromWeights(r[i], ws)
    {
      assert r[i] in es;
    }
    forall i, j | 0 <= i < j < |r|
      ensures ByWeight(r[i]) < ByWeight(r[j])
    {
      NoTwins(r, es, i, j);
      if ByWeight(r[i]) == ByWeight(r[j]) {
        EqualKeys(r[i], r[j], ws);
      }
    }
  }

  // ----- neighbours in canonical order -----

  lemma {:induction false} LevelGap(ws: seq<nat>, w: nat, a: nat, b: nat)
    requires a <= b <= |ws| && forall t :: a <= t < b ==> ws[t] != w
    ensures Level(ws, w, a) == Level(ws, w, b)
    decreases b
  {
    if a < b {
      LevelGap(ws, w, a, b - 1);
    }
  }

  lemma {:induction false} BelowGap(ws: seq<nat>, v: nat, w: nat, n: nat)
    requires v <= w && n <= |ws| && forall t :: 0 <= t < n && ws[t] > 0 ==> ws[t] < v || ws[t] >= w
    ensures Below(ws, v, n) == Below(ws, w, n)
  {
    if n > 0 {
      BelowGap(ws, v, w, n - 1);
    }
  }

  lemma FirstBase(ws: seq<nat>, s: nat)
    requires |ws| <= 256 && s < |ws| && ws[s] > 0
    requires forall t :: 0 <= t < |ws| && ws[t] > 0 ==> 256 * ws[s] + s <= 256 * ws[t] + t
    ensures Base(ws, s) == 0
  {
    hide Below, Level;
    BelowZero(ws, |ws|);
    BelowGap(ws, 0, ws[s], |ws|);
    LevelGap(ws, ws[s], 0, s);
    LevelStart(ws, ws[s]);
  }

  lemma LevelStart(ws: seq<nat>, w: nat)
    ensures Level(ws, w, 0) == 0
  {
  }

  lemma LevelAt(ws: seq<nat>, s: nat)
    requires s < |ws|
    ensures Level(ws, ws[s], s + 1) == Level(ws, ws[s], s) + Span(ws[s])
  {
  }

  /** The range of the next symbol in canonical order begins where this one ends. */
  lemma NextBase(ws: seq<nat>, s: nat, t: nat)
    requires |ws| <= 256 && s < |ws| && t < |ws| && ws[s] > 0 && ws[t] > 0
    requires 256 * ws[s] + s < 256 * ws[t] + t
    requires forall u :: 0 <= u < |ws| && ws[u] > 0 ==> 256 * ws[u] + u <= 256 * ws[s] + s || 256 * ws[u] + u >= 256 * ws[t] + t
    ensures Base(ws, t) == Base(ws, s) + Span(ws[s])
  {
    hide Below, Level, Span;
    LevelAt(ws, s);
    if ws[s] == ws[t] {
      LevelGap(ws, ws[s], s + 1, t);
    } else {
      BelowStep(ws, ws[s], |ws|);
      BelowGap(ws, ws[s] + 1, ws[t], |ws|);
      LevelGap(ws, ws[s], s + 1, |ws|);
      LevelGap(ws, ws[t], 0, t);
      LevelStart(ws, ws[t]);
    }
  }

  lemma CanonicalFirst(sorted: seq<SortEntry>, ws: seq<nat>)
    requires |ws| <= 256 && Canonical(sorted, ws) && |sorted| > 0
    ensures FromWeights(sorted[0], ws) && Base(ws, sorted[0].symbol) == 0
  {
    var s := sorted[0].symbol;
    assert FromWeights(sorted[0], ws);
    forall t | 0 <= t < |ws| && ws[t] > 0
      ensures 256 * ws[s] + s <= 256 * ws[t] + t
    {
      var i :| 0 <= i < |sorted| && sorted[i] == SortEntry(t, ws[t]);
      assert ByWeight(sorted[0]) <= ByWeight(sorted[i]);
    }
    FirstBase(ws, s);
  }

  lemma CanonicalNext(sorted: seq<SortEntry>, ws: seq<nat>, j: nat)
    requires |ws| <= 256 && Canonical(sorted, ws) && j + 1 < |sorted|
    ensures FromWeights(sorted[j], ws) && FromWeights(sorted[j + 1], ws) && sorted[j].weight <= sorted[j + 1].weight
    ensures Base(ws, sorted[j + 1].symbol) == Base(ws, sorted[j].symbol) + Span(sorted[j].weight)
  {
    hide Base;
    var s, t := sorted[j].symbol, sorted[j + 1].symbol;
    assert FromWeights(sorted[j], ws) && FromWeights(sorted[j + 1], ws);
    assert ByWeight(sorted[j]) < ByWeight(sorted[j + 1]);
    forall u | 0 <= u < |ws| && ws[u] > 0
      ensures 256 * ws[u] + u <= 256 * ws[s] + s || 256 * ws[u] + u >= 256 * ws[t] + t
    {
      var i :| 0 <= i < |sorted| && sorted[i] == SortEntry(u, ws[u]);
      assert i <= j ==> ByWeight(sorted[i]) <= ByWeight(sorted[j]);
      assert i > j ==> ByWeight(sorted[i]) >= ByWeight(sorted[j + 1]);
    }
    NextBase(ws, s, t);
  }

  // ----- counting codes -----

  /** The counter behind a symbol of weight `w`, shifted to weight `v`, is the code
      of the symbol whose range comes next. */
  lemma ShiftedCounter(ws: seq<nat>, m: nat, s: nat, t: nat)
    requires Complete(ws, m) && s < |ws| && t < |ws| && 0 < ws[s] <= ws[t]
    requires Base(ws, t) == Base(ws, s) + Span(ws[s])
    ensures Code(ws, t) == Shr(Code(ws, s) + 1, ws[t] - ws[s])
  {
    hide Base, Code, Kraft, Up, Shr;
    var f := ws[s] - 1;
    var d := ws[t] - ws[s];
    BaseIsMultiple(ws, m, s);
    BaseIsMultiple(ws, m, t);
    SpanIsUp(ws[s]);
    UpSum(Code(ws, s), 1, f);
    UpUp(Code(ws, t), d, f);
    UpInjective(Up(Code(ws, t), d), Code(ws, s) + 1, f);
    JoinParts(0, Code(ws, t), d);
  }

  lemma SpanIsUp(w: nat)
    requires w > 0
    ensures Span(w) == Up(1, w - 1)
  {
    hide Up;
    Pow2IsUp(0, w - 1);
  }

  lemma UpInjective(a: nat, b: nat, n: nat)
    requires Up(a, n) == Up(b, n)
    ensures a == b
  {
    hide Up;
    UpMonotone(a, b, n);
    UpMonotone(b, a, n);
  }

  lemma FirstCode(ws: seq<nat>, m: nat, s: nat)
    requires Complete(ws, m) && s < |ws| && ws[s] > 0 && Base(ws, s) == 0
    ensures Code(ws, s) == 0
  {
    hide Base, Kraft, Shr, Up;
    UpZero(ws[s] - 1);
    JoinParts(0, 0, ws[s] - 1);
  }

  /** The codes found so far are right. */
  ghost predicate Assigned(codes: seq<(nat, nat)>, sorted: seq<SortEntry>, ws: seq<nat>, m: nat, n: nat)
    requires Complete(ws, m) && n <= |sorted|
  {
    && |codes| == |ws|
    && (forall i :: 0 <= i < n ==> sorted[i].symbol < |ws| && codes[sorted[i].symbol] == CodeOf(ws, m, sorted[i].symbol))
    && (forall s :: 0 <= s < |ws| && ws[s] == 0 ==> codes[s] == (0, 0))
  }

  lemma AllAssigned(codes: seq<(nat, nat)>, sorted: seq<SortEntry>, ws: seq<nat>, m: nat)
    requires Complete(ws, m) && Canonical(sorted, ws) && Assigned(codes, sorted, ws, m, |sorted|)
    ensures codes == Codes(ws, m)
  {
    forall s | 0 <= s < |ws|
      ensures codes[s] == CodeOf(ws, m, s)
    {
      if ws[s] > 0 {
        assert SortEntry(s, ws[s]) in sorted;
        var i :| 0 <= i < |sorted| && sorted[i] == SortEntry(s, ws[s]);
      }
    }
  }

  lemma AssignOne(codes: seq<(nat, nat)>, sorted: seq<SortEntry>, ws: seq<nat>, m: nat, n: nat)
    requires Complete(ws, m) && Canonical(sorted, ws) && n < |sorted| && Assigned(codes, sorted, ws, m, n)
    ensures sorted[n].symbol < |ws|
    ensures Assigned(codes[sorted[n].symbol := CodeOf(ws, m, sorted[n].symbol)], sorted, ws, m, n + 1)
  {
    hide CodeOf, Complete, StrictlySortedBy;
    assert FromWeights(sorted[n], ws);
  }

  /** The counter before the entry at `j` is looked at. */
  ghost predicate Counter(sorted: seq<SortEntry>, ws: seq<nat>, j: nat, code: nat, weight: nat)
    requires j <= |sorted|
  {
    if j == 0 then code == 0 && weight == 0
    else
      && FromWeights(sorted[j - 1], ws)
      && weight == sorted[j - 1].weight && code == Code(ws, sorted[j - 1].symbol) + 1
  }

  /** Shifting by the weight difference makes the counter the entry's code. */
  lemma CounterIsCode(sorted: seq<SortEntry>, ws: seq<nat>, m: nat, j: nat, code: nat, weight: nat)
    requires |ws| <= 256 && Complete(ws, m) && Canonical(sorted, ws) && j < |sorted| && Counter(sorted, ws, j, code, weight)
    ensures FromWeights(sorted[j], ws) && weight <= sorted[j].weight
    ensures Code(ws, sorted[j].symbol) == Shr(code, sorted[j].weight - weight)
  {
    hide Base, Code, Shr, Complete, StrictlySortedBy;
    if j == 0 {
      CanonicalFirst(sorted, ws);
      FirstCode(ws, m, sorted[0].symbol);
      LowSmall(0, sorted[0].weight);
    } else {
      CanonicalNext(sorted, ws, j - 1);
      ShiftedCounter(ws, m, sorted[j - 1].symbol, sorted[j].symbol);
    }
  }

  /** The end of the range of the entry before position `j`. */
  ghost function RangeEnd(sorted: seq<SortEntry>, ws: seq<nat>, j: nat): nat
    requires j <= |sorted| && Canonical(sorted, ws)
  {
    if j == 0 then 0 else
    assert FromWeights(sorted[j - 1], ws);
    Base(ws, sorted[j - 1].symbol) + Span(sorted[j - 1].weight)
  }

  lemma RangeEndNext(sorted: seq<SortEntry>, ws: seq<nat>, j: nat)
    requires |ws| <= 256 && j < |sorted| && Canonical(sorted, ws)
    ensures sorted[j].weight > 0
    ensures RangeEnd(sorted, ws, j + 1) == RangeEnd(sorted, ws, j) + Span(sorted[j].weight)
  {
    hide Base, Span, StrictlySortedBy;
    assert FromWeights(sorted[j], ws);
    if j == 0 {
      CanonicalFirst(sorted, ws);
    } else {
      CanonicalNext(sorted, ws, j - 1);
    }
  }

  /** The ranges of all entries fill the code space. */
  lemma RangeEndLast(sorted: seq<SortEntry>, ws: seq<nat>, m: nat)
    requires |ws| <= 256 && Complete(ws, m) && Canonical(sorted, ws)
    ensures RangeEnd(sorted, ws, |sorted|) == Pow2(m)
  {
    hide Base, Span, Pow2, Kraft;
    var end := RangeEnd(sorted, ws, |sorted|);
    if |sorted| > 0 {
      assert FromWeights(sorted[|sorted| - 1], ws);
      RangeInside(ws, sorted[|sorted| - 1].symbol);
    }
    if end < Pow2(m) {
      var t := RangesCover(ws, end);
      assert SortEntry(t, ws[t]) in sorted;
      var i :| 0 <= i < |sorted| && sorted[i] == SortEntry(t, ws[t]);
      InOrder(sorted, ws, i, |sorted| - 1);
    }
  }

  lemma InOrder(sorted: seq<SortEntry>, ws: seq<nat>, i: nat, j: nat)
    requires |ws| <= 256 && i <= j < |sorted| && Canonical(sorted, ws)
    ensures FromWeights(sorted[i], ws) && FromWeights(sorted[j], ws)
    ensures Base(ws, sorted[i].symbol) + Span(sorted[i].weight) <= Base(ws, sorted[j].symbol) + Span(sorted[j].weight)
  {
    hide Base, Span;
    assert FromWeights(sorted[i], ws) && FromWeights(sorted[j], ws);
    if i < j {
      assert ByWeight(sorted[i]) < ByWeight(sorted[j]);
      RangesOrdered(ws, sorted[i].symbol, sorted[j].symbol);
    }
  }

  /** The logarithm of the sum of all spans. */
  method MaxNumBits(sorted: seq<SortEntry>, ghost ws: seq<nat>, ghost m: nat) returns (maxNumBits: nat)
    requires |ws| <= 256 && Complete(ws, m) && Canonical(sorted, ws)
    ensures maxNumBits == m
  {
    hide RangeEnd, Pow2, IsPow2, Log2, Complete, Canonical;
    var weightSum := 0;
    RangeEndZero(sorted, ws);
    for i := 0 to |sorted|
      invariant weightSum == RangeEnd(sorted, ws, i)
    {
      RangeEndNext(sorted, ws, i);
      weightSum := weightSum + Pow2(sorted[i].weight - 1);
    }
    RangeEndLast(sorted, ws, m);
    IsPow2Iff(Pow2(m), m);
    assert IsPow2(weightSum);
    maxNumBits := Log2(weightSum);
  }

  lemma RangeEndZero(sorted: seq<SortEntry>, ws: seq<nat>)
    requires Canonical(sorted, ws)
    ensures RangeEnd(sorted, ws, 0) == 0
  {
  }

  method AssignCodes(sorted: seq<SortEntry>, weights: seq<nat>, maxNumBits: nat) returns (codes: seq<(nat, nat)>)
    requires |weights| <= 256 && Complete(weights, maxNumBits) && Canonical(sorted, weights)
    ensures codes == Codes(weights, maxNumBits)
  {
    hide Base, Code, Shr, Pow2, Complete, Canonical, Kraft, Assigned;
    codes := seq(|weights|, i => (0, 0));
    NoneAssigned(codes, sorted, weights, maxNumBits);
    var currentCode, currentWeight, currentNumBits := 0, 0, 0;
    for i := 0 to |sorted|
      invariant |codes| == |weights| && Assigned(codes, sorted, weights, maxNumBits, i)
      invariant Counter(sorted, weights, i, currentCode, currentWeight)
      invariant i > 0 ==> currentNumBits == Length(maxNumBits, currentWeight)
    {
      var entry := sorted[i];
      CounterIsCode(sorted, weights, maxNumBits, i, currentCode, currentWeight);
      ShrZero(currentCode);
      CodeFits(weights, maxNumBits, entry.symbol);
      if currentWeight != entry.weight {
        currentCode := Shr(currentCode, entry.weight - currentWeight);
        currentNumBits := maxNumBits + 1 - entry.weight;
        currentWeight := entry.weight;
      }
      AssignOne(codes, sorted, weights, maxNumBits, i);
      codes := codes[entry.symbol := (currentCode, currentNumBits)];
      currentCode := currentCode + 1;
    }
    AllAssigned(codes, sorted, weights, maxNumBits);
  }

  lemma NoneAssigned(codes: seq<(nat, nat)>, sorted: seq<SortEntry>, ws: seq<nat>, m: nat)
    requires Complete(ws, m) && codes == seq(|ws|, i => (0, 0))
    ensures Assigned(codes, sorted, ws, m, 0)
  {
  }

  /** For weights whose spans add up to a power of two. */
  method BuildFromWeights(weights: seq<nat>, ghost m: nat) returns (codes: seq<(nat, nat)>)
    requires |weights| <= 256 && Complete(weights, m)
    ensures codes == Codes(weights, m)
  {
    hide Codes, Pow2, Complete, Canonical, Kraft, Listed;
    var sorted: seq<SortEntry> := [];
    ListNothing(weights);
    for symbol := 0 to |weights|
      invariant Listed(sorted, weights, symbol)
    {
      ListNext(sorted, weights, symbol);
      if weights[symbol] > 0 {
        sorted := sorted + [SortEntry(symbol, weights[symbol])];
      }
    }
    SortedIsCanonical(sorted, weights);
    sorted := SortByKey(sorted, ByWeight);
    var maxNumBits := MaxNumBits(sorted, weights, m);
    codes := AssignCodes(sorted, weights, maxNumBits);
  }

  lemma ListNothing(ws: seq<nat>)
    ensures Listed([], ws, 0)
  {
  }
}
