/** From symbol counts to Huffman codes: frequent symbols get large weights. */
module HuffmanCounts {
  import opened Numbers
  import opened Bits
  import opened Results
  import opened Sorting
  import opened Counting
  import opened HuffmanCodes
  import opened HuffmanWeights
  import opened HuffmanDecodingTable
  import HuffmanEncodingTable
  import opened HuffmanStream
  import opened HuffmanCoding
  import opened HuffmanDescription
  import opened HuffmanHeaderSize
  import opened HuffmanDistribution
  import HuffmanRoundTrip
  import FseNormalise

  datatype CountEntry = CountEntry(idx: nat, count: nat)

  function ByCount(e: CountEntry): int {
    e.count
  }

  function Enumerated(counts: seq<nat>): (es: seq<CountEntry>)
    ensures |es| == |counts|
  {
    seq(|counts|, i requires 0 <= i < |counts| => CountEntry(i, counts[i]))
  }

  /** How many entries have a count. */
  function Used(es: seq<CountEntry>): nat {
    if |es| == 0 then 0 else Used(es[..|es| - 1]) + if es[|es| - 1].count > 0 then 1 else 0
  }

  lemma UsedAppend(es: seq<CountEntry>, x: CountEntry)
    ensures Used(es + [x]) == Used(es) + if x.count > 0 then 1 else 0
  {
    assert (es + [x])[..|es|] == es;
  }

  lemma {:induction false} UsedInsert(es: seq<CountEntry>, x: CountEntry)
    ensures Used(Insert(es, x, ByCount)) == Used(es) + if x.count > 0 then 1 else 0
  {
    if |es| == 0 || ByCount(es[|es| - 1]) <= ByCount(x) {
      UsedAppend(es, x);
    } else {
      UsedInsert(es[..|es| - 1], x);
      UsedAppend(Insert(es[..|es| - 1], x, ByCount), es[|es| - 1]);
    }
  }

  /** Sorting loses nobody. */
  lemma {:induction false} UsedSort(es: seq<CountEntry>)
    ensures Used(SortByKey(es, ByCount)) == Used(es)
  {
    if |es| > 0 {
      UsedSort(es[..|es| - 1]);
      UsedInsert(SortByKey(es[..|es| - 1], ByCount), es[|es| - 1]);
    }
  }

  lemma {:induction false} UsedPrefix(es: seq<CountEntry>, i: nat)
    requires i <= |es|
    ensures Used(es[..i]) <= Used(es)
    ensures i < |es| && es[i].count > 0 ==> Used(es[..i]) < Used(es)
  {
    if i < |es| {
      var init := es[..|es| - 1];
      if i < |es| - 1 {
        UsedPrefix(init, i);
        assert init[..i] == es[..i];
      }
    } else {
      assert es[..i] == es;
    }
  }

  /** A rearrangement of the enumerated counts: each symbol once. */
  ghost predicate Arranged(sorted: seq<CountEntry>, counts: seq<nat>) {
    && |sorted| == |counts|
    && (forall j :: 0 <= j < |sorted| ==> sorted[j].idx < |counts| && sorted[j].count == counts[sorted[j].idx])
    && (forall i, j :: 0 <= i < j < |sorted| ==> sorted[i].idx != sorted[j].idx)
    && (forall s :: 0 <= s < |counts| ==> CountEntry(s, counts[s]) in sorted)
    && SortedBy(sorted, ByCount) && Stable(sorted)
  }

  /** Rarer symbols first, equally frequent ones in their own order. */
  ghost predicate Stable(es: seq<CountEntry>) {
    forall i, j :: 0 <= i < j < |es| ==> RarerOrBefore(es[i], es[j])
  }

  predicate RarerOrBefore(a: CountEntry, b: CountEntry) {
    a.count < b.count || (a.count == b.count && a.idx < b.idx)
  }

  lemma {:induction false} InsertStable(es: seq<CountEntry>, x: CountEntry)
    requires Stable(es) && forall i :: 0 <= i < |es| ==> es[i].idx < x.idx
    ensures Stable(Insert(es, x, ByCount))
  {
    hide Insert, Stable;
    if |es| == 0 || es[|es| - 1].count <= x.count {
      InsertLast(es, x);
    } else {
      var t, last := es[..|es| - 1], es[|es| - 1];
      StableInit(es);
      InsertStable(t, x);
      InsertBefore(es, x);
    }
  }

  lemma StableInit(es: seq<CountEntry>)
    requires Stable(es) && es != []
    ensures Stable(es[..|es| - 1])
  {
  }

  lemma InsertLast(es: seq<CountEntry>, x: CountEntry)
    requires Stable(es) && forall i :: 0 <= i < |es| ==> es[i].idx < x.idx
    requires es == [] || es[|es| - 1].count <= x.count
    ensures Stable(Insert(es, x, ByCount))
  {
    assert Insert(es, x, ByCount) == es + [x];
    assert forall i :: 0 <= i < |es| - 1 ==> RarerOrBefore(es[i], es[|es| - 1]);
  }

  lemma InsertBefore(es: seq<CountEntry>, x: CountEntry)
    requires es != [] && Stable(es) && es[|es| - 1].count > x.count && Stable(Insert(es[..|es| - 1], x, ByCount))
    ensures Stable(Insert(es, x, ByCount))
  {
    var t, last := es[..|es| - 1], es[|es| - 1];
    var r := Insert(t, x, ByCount);
    assert Insert(es, x, ByCount) == r + [last];
    forall i | 0 <= i < |r|
      ensures RarerOrBefore(r[i], last)
    {
      assert r[i] in multiset(r);
      assert r[i] in multiset(t) ==> r[i] in t;
    }
  }

  lemma {:induction false} SortStable(es: seq<CountEntry>)
    requires forall i, j :: 0 <= i < j < |es| ==> es[i].idx < es[j].idx
    ensures Stable(SortByKey(es, ByCount))
  {
    if |es| > 0 {
      var t, last := es[..|es| - 1], es[|es| - 1];
      SortStable(t);
      var r := SortByKey(t, ByCount);
      forall i | 0 <= i < |r|
        ensures r[i].idx < last.idx
      {
        assert r[i] in multiset(r);
        assert r[i] in multiset(t) ==> r[i] in t;
      }
      InsertStable(r, last);
    }
  }

  lemma SortArranges(counts: seq<nat>)
    ensures Arranged(SortByKey(Enumerated(counts), ByCount), counts)
    ensures Used(SortByKey(Enumerated(counts), ByCount)) == Used(Enumerated(counts))
  {
    hide SortByKey, Used, SortedBy;
    var es := Enumerated(counts);
    var sorted := SortByKey(es, ByCount);
    UsedSort(es);
    SortStable(es);
    HuffmanEncodingTable.SameMembers(sorted, es);
    SameLength(sorted, es);
    forall j | 0 <= j < |sorted|
      ensures sorted[j].idx < |counts| && sorted[j].count == counts[sorted[j].idx]
    {
      assert sorted[j] in es;
    }
    forall i, j | 0 <= i < j < |sorted|
      ensures sorted[i].idx != sorted[j].idx
    {
      assert RarerOrBefore(sorted[i], sorted[j]);
    }
    forall s | 0 <= s < |counts|
      ensures CountEntry(s, counts[s]) in sorted
    {
      assert es[s] in es;
    }
  }

  lemma SameLength<T>(a: seq<T>, b: seq<T>)
    requires multiset(a) == multiset(b)
    ensures |a| == |b|
  {
    assert |multiset(a)| == |a| && |multiset(b)| == |b|;
  }

  lemma {:induction false} KraftUpdate(ws: seq<nat>, i: nat, v: nat, n: nat)
    requires n <= |ws| && i < |ws| && ws[i] == 0
    ensures Kraft(ws[i := v], n) == Kraft(ws, n) + if i < n then Span(v) else 0
  {
    if n > 0 {
      KraftUpdate(ws, i, v, n - 1);
    }
  }

  lemma {:induction false} KraftZeros(n: nat, k: nat)
    requires k <= n
    ensures Kraft(seq(n, i => 0), k) == 0
  {
    if k > 0 {
      KraftZeros(n, k - 1);
    }
  }

  /** The first `k` weights have been given out, each once; the rest is zero. */
  ghost predicate GivenOnce(ws: seq<nat>, weights: seq<nat>, k: nat) {
    && k <= |weights| && CountOf(ws, 0) == |ws| - k
    && forall v :: v > 0 ==> CountOf(ws, v) == CountOf(weights[..k], v)
  }

  lemma NoneGiven(ws: seq<nat>, weights: seq<nat>)
    requires ws == seq(|ws|, i => 0)
    ensures GivenOnce(ws, weights, 0)
  {
    CountConstant(ws, 0, |ws|);
    CountBound(ws, 0);
    assert weights[..0] == [];
    forall v | v > 0
      ensures CountOf(ws, v) == CountOf([], v)
    {
      CountAbsent(ws, v);
    }
  }

  lemma OneGiven(ws: seq<nat>, weights: seq<nat>, k: nat, x: nat)
    requires GivenOnce(ws, weights, k) && k < |weights| && weights[k] > 0 && x < |ws| && ws[x] == 0
    ensures GivenOnce(ws[x := weights[k]], weights, k + 1)
  {
    hide CountOf;
    assert weights[..k + 1] == weights[..k] + [weights[k]];
    CountUpdate(ws, x, weights[k], 0);
    var ws' := ws[x := weights[k]];
    forall v | v > 0
      ensures CountOf(ws', v) == CountOf(weights[..k + 1], v)
    {
      CountUpdate(ws, x, weights[k], v);
      CountSnoc(weights[..k], weights[k], v);
    }
  }

  /** `k` of the ascending weights have been given to the first `j` entries. */
  ghost predicate Given(ws: seq<nat>, weights: seq<nat>, sorted: seq<CountEntry>, counts: seq<nat>, j: nat, k: nat) {
    && Arranged(sorted, counts) && |ws| == |counts| && j <= |sorted| && k <= |weights| && k == Used(sorted[..j])
    && Kraft(ws, |ws|) == Kraft(weights, k) && GivenOnce(ws, weights, k)
    && (forall i :: j <= i < |sorted| ==> ws[sorted[i].idx] == 0)
    && (forall i :: 0 <= i < j ==> (ws[sorted[i].idx] > 0 <==> sorted[i].count > 0))
    && (forall i :: 0 <= i < j && sorted[i].count > 0 ==> k > 0 && ws[sorted[i].idx] <= weights[k - 1])
    && (forall h, i :: 0 <= h < i < j && sorted[h].count > 0 ==> ws[sorted[h].idx] <= ws[sorted[i].idx])
    && (k > 0 ==> weights[0] in ws)
  }

  lemma GiveNothing(ws: seq<nat>, weights: seq<nat>, sorted: seq<CountEntry>, counts: seq<nat>, j: nat, k: nat)
    requires Given(ws, weights, sorted, counts, j, k) && j < |sorted| && sorted[j].count == 0
    ensures sorted[j].idx < |ws| && ws[sorted[j].idx := 0] == ws && Given(ws, weights, sorted, counts, j + 1, k)
  {
    hide Kraft, Arranged, GivenOnce;
    ArrangedParts(sorted, counts);
    UsedNext(sorted, j);
    assert forall i :: 0 <= i < j ==> sorted[i].count <= sorted[j].count;
  }

  lemma ArrangedParts(sorted: seq<CountEntry>, counts: seq<nat>)
    requires Arranged(sorted, counts)
    ensures |sorted| == |counts|
    ensures forall j :: 0 <= j < |sorted| ==> sorted[j].idx < |counts| && sorted[j].count == counts[sorted[j].idx]
    ensures forall i, j :: 0 <= i < j < |sorted| ==> sorted[i].idx != sorted[j].idx && sorted[i].count <= sorted[j].count
  {
    assert forall i, j :: 0 <= i < j < |sorted| ==> ByCount(sorted[i]) <= ByCount(sorted[j]);
  }

  lemma UsedNext(es: seq<CountEntry>, j: nat)
    requires j < |es|
    ensures Used(es[..j + 1]) == Used(es[..j]) + if es[j].count > 0 then 1 else 0
  {
    assert es[..j + 1] == es[..j] + [es[j]];
    UsedAppend(es[..j], es[j]);
  }

  lemma GiveNext(ws: seq<nat>, weights: seq<nat>, sorted: seq<CountEntry>, counts: seq<nat>, j: nat, k: nat)
    requires Given(ws, weights, sorted, counts, j, k) && j < |sorted| && sorted[j].count > 0 && k < |weights|
    requires Ascending(weights) && AtLeast(weights, 1)
    ensures sorted[j].idx < |ws| && Given(ws[sorted[j].idx := weights[k]], weights, sorted, counts, j + 1, k + 1)
  {
    hide Arranged, Used, GivenOnce;
    ArrangedParts(sorted, counts);
    UsedNext(sorted, j);
    var x := sorted[j].idx;
    OneGiven(ws, weights, k, x);
    var ws' := ws[x := weights[k]];
    KraftUpdate(ws, x, weights[k], |ws|);
    assert k > 0 ==> weights[k - 1] <= weights[k];
    assert ws'[x] == weights[k];
    if k > 0 {
      var o :| 0 <= o < |ws| && ws[o] == weights[0];
      assert ws'[o] == weights[0];
    }
  }

  /** What the weights made from counts satisfy. */
  ghost predicate FollowsCounts(ws: seq<nat>, counts: seq<nat>) {
    && |ws| == |counts|
    && (forall s :: 0 <= s < |ws| ==> (ws[s] > 0 <==> counts[s] > 0))
    && (forall s, t :: 0 <= s < |ws| && 0 <= t < |ws| && 0 < counts[s] && RarerOrBefore(CountEntry(s, counts[s]), CountEntry(t, counts[t])) ==>
          ws[s] <= ws[t])
  }

  lemma AllGiven(ws: seq<nat>, weights: seq<nat>, sorted: seq<CountEntry>, counts: seq<nat>, k: nat)
    requires Given(ws, weights, sorted, counts, |sorted|, k)
    ensures FollowsCounts(ws, counts)
  {
    hide Kraft, Used, GivenOnce;
    forall s | 0 <= s < |ws|
      ensures ws[s] > 0 <==> counts[s] > 0
    {
      var i := PositionOf(sorted, counts, s);
    }
    forall s, t | 0 <= s < |ws| && 0 <= t < |ws| && 0 < counts[s] && RarerOrBefore(CountEntry(s, counts[s]), CountEntry(t, counts[t]))
      ensures ws[s] <= ws[t]
    {
      var h := PositionOf(sorted, counts, s);
      var i := PositionOf(sorted, counts, t);
      if i < h {
        assert RarerOrBefore(sorted[i], sorted[h]);
      }
      ArrangedParts(sorted, counts);
    }
  }

  lemma PositionOf(sorted: seq<CountEntry>, counts: seq<nat>, s: nat) returns (i: nat)
    requires Arranged(sorted, counts) && s < |counts|
    ensures i < |sorted| && sorted[i] == CountEntry(s, counts[s])
  {
    i :| 0 <= i < |sorted| && sorted[i] == CountEntry(s, counts[s]);
  }

  function Reversed(s: seq<nat>): (r: seq<nat>)
    ensures |r| == |s| && forall i :: 0 <= i < |s| ==> r[i] == s[|s| - 1 - i]
  {
    seq(|s|, i requires 0 <= i < |s| => s[|s| - 1 - i])
  }

  /** Give the weights out, the smallest to the rarest symbol. */
  method AssignWeights(counts: seq<nat>, weights: seq<nat>) returns (ws: seq<nat>)
    requires Ascending(weights) && AtLeast(weights, 1) && |weights| == Used(Enumerated(counts)) && |weights| > 0
    ensures FollowsCounts(ws, counts) && Kraft(ws, |ws|) == Kraft(weights, |weights|) && weights[0] in ws
    ensures GivenOnce(ws, weights, |weights|)
  {
    hide Kraft, Arranged, Used, Given, GivenOnce, Ascending, AtLeast, FollowsCounts, SortByKey;
    var stack := Reversed(weights);
    var countsSorted := SortByKey(Enumerated(counts), ByCount);
    SortArranges(counts);
    ws := seq(|counts|, i => 0);
    NothingGiven(ws, weights, countsSorted, counts);
    ghost var k: nat := 0;
    for j := 0 to |countsSorted|
      invariant Given(ws, weights, countsSorted, counts, j, k) && |ws| == |counts| && k <= |weights|
      invariant |stack| == |weights| - k && forall i :: 0 <= i < |stack| ==> stack[i] == weights[|weights| - 1 - i]
    {
      var e := countsSorted[j];
      if e.count == 0 {
        GiveNothing(ws, weights, countsSorted, counts, j, k);
        ws := ws[e.idx := 0];
      } else {
        GivenFewer(ws, weights, countsSorted, counts, j, k);
        GiveNext(ws, weights, countsSorted, counts, j, k);
        ws := ws[e.idx := stack[|stack| - 1]];
        stack := stack[..|stack| - 1];
        k := k + 1;
      }
    }
    AllGiven(ws, weights, countsSorted, counts, k);
    GivenAll(ws, weights, countsSorted, counts, k);
  }

  lemma NothingGiven(ws: seq<nat>, weights: seq<nat>, sorted: seq<CountEntry>, counts: seq<nat>)
    requires Arranged(sorted, counts) && ws == seq(|counts|, i => 0)
    ensures Given(ws, weights, sorted, counts, 0, 0)
  {
    hide GivenOnce;
    KraftZeros(|counts|, |counts|);
    NoneGiven(ws, weights);
  }

  lemma GivenFewer(ws: seq<nat>, weights: seq<nat>, sorted: seq<CountEntry>, counts: seq<nat>, j: nat, k: nat)
    requires Given(ws, weights, sorted, counts, j, k) && j < |sorted| && sorted[j].count > 0 && |weights| == Used(sorted)
    ensures k < |weights|
  {
    hide Kraft, GivenOnce;
    UsedPrefix(sorted, j);
  }

  lemma GivenAll(ws: seq<nat>, weights: seq<nat>, sorted: seq<CountEntry>, counts: seq<nat>, k: nat)
    requires Given(ws, weights, sorted, counts, |sorted|, k) && |weights| == Used(sorted) && |weights| > 0
    ensures k == |weights| && Kraft(ws, |ws|) == Kraft(weights, |weights|) && weights[0] in ws
    ensures GivenOnce(ws, weights, |weights|)
  {
    hide Kraft, Arranged, GivenOnce;
    assert sorted[..|sorted|] == sorted;
  }

  // ----- codes from counts -----

  /** Counts of at least two symbols, the last slot in use. */
  ghost predicate EnoughCounts(counts: seq<nat>) {
    |counts| <= 256 && Used(Enumerated(counts)) >= 2 && counts != [] && counts[|counts| - 1] > 0
  }

  lemma {:induction false} UsedBound(es: seq<CountEntry>)
    ensures Used(es) <= |es|
  {
    if |es| > 0 {
      UsedBound(es[..|es| - 1]);
    }
  }

  /** The limit on the code lengths leaves room for all symbols and stays within
      what a decoder accepts. */
  lemma LimitFits(n: nat)
    requires 2 <= n <= 256
    ensures n <= Pow2(Log2(n) + 2) && Log2(n) + 2 <= 10
  {
    hide Pow2, Log2;
    Pow2Values();
    Pow2Mono(Log2(n) + 1, Log2(n) + 2);
    Pow2Reflects(Log2(n), 8);
  }

  /** The weights for given counts, with every property a decoder relies on. */
  method WeightsFromCounts(counts: seq<nat>) returns (ws: seq<nat>, ghost m: nat, ghost j: nat)
    requires EnoughCounts(counts)
    ensures GoodWeights(ws, m) && m <= 10 && FollowsCounts(ws, counts)
    ensures MostlyAlike(ws, Used(Enumerated(counts)), j)
    ensures MadeFrom(ws, Used(Enumerated(counts)))
  {
    hide Kraft, Used, Total, Pow2, Log2, Alike, GivenOnce, FollowsCounts, GoodWeights, Redistributed, Distribution, MadeFrom;
    UsedBound(Enumerated(counts));
    var zeros := CountZeros(counts);
    var weights;
    ghost var log;
    weights, log, j := DistributeWeights(|counts| - zeros);
    FirstIsLeast(weights);
    TotalPositive(weights, log);
    TotalComplete(weights, log - 1);
    Log2Unique(|weights|, j);
    var limit := Log2(|weights|) + 2;
    LimitFits(|weights|);
    ghost var distribution := weights;
    weights, m := RedistributeWeights(weights, limit, log - 1, j);
    FirstIsLeast(weights);
    ws := AssignWeights(counts, weights);
    GoodFromCounts(ws, counts, m);
    AlikeAssigned(ws, weights, j);
    MadeOf(ws, distribution, weights);
  }

  /** The weights are those of the redistributed list, each given out once. */
  ghost predicate MadeFrom(ws: seq<nat>, n: nat) {
    n > 0 && exists list :: Redistributed(Distribution(n), Log2(n) + 2, list) && GivenOnce(ws, list, |list|)
  }

  lemma MadeOf(ws: seq<nat>, distribution: seq<nat>, weights: seq<nat>)
    requires distribution != [] && distribution == Distribution(|distribution|)
    requires Redistributed(distribution, Log2(|distribution|) + 2, weights) && GivenOnce(ws, weights, |weights|)
    ensures MadeFrom(ws, |distribution|)
  {
    hide Redistributed, GivenOnce, Distribution, Log2;
  }

  lemma AlikeAssigned(ws: seq<nat>, weights: seq<nat>, j: nat)
    requires GivenOnce(ws, weights, |weights|) && Alike(weights, j)
    ensures Alike(ws, j) && |weights| <= |ws| && CountOf(ws, 0) == |ws| - |weights|
  {
    hide Pow2, CountOf;
    assert weights[..|weights|] == weights;
    forall i | 0 <= i < |ws|
      ensures ws[i] <= j + 1
    {
      CountPositive(ws, i);
      if ws[i] > 0 {
        var k := CountedOccurs(weights, ws[i]);
      }
    }
    CountBound(ws, 0);
    assert CountOf(ws, 0) >= 0;
  }

  lemma TotalPositive(ws: seq<nat>, log: nat)
    requires |ws| >= 2 && Total(ws, |ws|) == Pow2(log)
    ensures log > 0
  {
    hide Total, Pow2;
    WeightInTotal(ws, 0, 1);
    TotalMono(ws, 1, |ws| - 1);
    assert Total(ws, |ws|) >= Total(ws, |ws| - 1) + 1 by { LastPower(ws); }
    PowerZero();
  }

  lemma PowerZero()
    ensures Pow2(0) == 1
  {
  }

  lemma LastPower(ws: seq<nat>)
    requires |ws| > 0
    ensures Total(ws, |ws|) >= Total(ws, |ws| - 1) + 1
  {
  }

  method CountZeros(counts: seq<nat>) returns (zeros: nat)
    ensures zeros == |counts| - Used(Enumerated(counts))
  {
    zeros := 0;
    for i := 0 to |counts|
      invariant zeros == i - Used(Enumerated(counts)[..i])
    {
      UsedNext(Enumerated(counts), i);
      if counts[i] == 0 {
        zeros := zeros + 1;
      }
    }
    assert Enumerated(counts)[..|counts|] == Enumerated(counts);
  }

  lemma {:induction false} TwoUsed(es: seq<CountEntry>) returns (i: nat)
    requires Used(es) >= 2
    ensures i < |es| - 1 && es[i].count > 0
  {
    UsedSome(es[..|es| - 1]);
    i :| 0 <= i < |es| - 1 && es[..|es| - 1][i].count > 0;
  }

  lemma {:induction false} UsedSome(es: seq<CountEntry>)
    requires Used(es) >= 1
    ensures exists i :: 0 <= i < |es| && es[i].count > 0
  {
    if es[|es| - 1].count == 0 {
      UsedSome(es[..|es| - 1]);
      var i :| 0 <= i < |es| - 1 && es[..|es| - 1][i].count > 0;
      assert es[i].count > 0;
    }
  }

  lemma GoodFromCounts(ws: seq<nat>, counts: seq<nat>, m: nat)
    requires EnoughCounts(counts) && FollowsCounts(ws, counts) && Complete(ws, m) && m <= 10 && 1 in ws
    ensures GoodWeights(ws, m)
  {
    hide Used, Pow2;
    var i := TwoUsed(Enumerated(counts));
    assert ws[i] > 0;
    KraftPart(ws, i, |ws| - 1);
    assert Kraft(ws, |ws|) >= 2;
    PowerZero();
  }

  // ----- literals of a block -----

  /** Two different symbols at least. */
  ghost predicate TwoSymbols(data: seq<nat>) {
    FseNormalise.Symbols(data) && exists i, j :: 0 <= i < |data| && 0 <= j < |data| && data[i] != data[j]
  }

  lemma EnoughFromData(counts: seq<nat>, data: seq<nat>)
    requires counts == FseNormalise.CountsOf(data) && TwoSymbols(data)
    ensures EnoughCounts(counts)
    ensures forall i :: 0 <= i < |data| ==> data[i] < |counts|
    ensures forall i :: 0 <= i < |data| ==> counts[data[i]] > 0
  {
    hide Used, CountOf, FseNormalise.LargestSymbol;
    forall i | 0 <= i < |data|
      ensures counts[data[i]] > 0
    {
      CountPositive(data, i);
    }
    var i, j :| 0 <= i < |data| && 0 <= j < |data| && data[i] != data[j];
    var l :| 0 <= l < |data| && data[l] == |counts| - 1;
    var es := Enumerated(counts);
    TwoPositive(es, if data[i] < data[j] then data[i] else data[j], if data[i] < data[j] then data[j] else data[i]);
  }

  lemma TwoPositive(es: seq<CountEntry>, i: nat, j: nat)
    requires i < j < |es| && es[i].count > 0 && es[j].count > 0
    ensures Used(es) >= 2
  {
    hide Used;
    UsedPrefix(es, j);
    UsedPrefix(es[..j], i);
    assert es[..j][i] == es[i];
  }

  /** Codes have at most eleven bits: a block's streams always fit the jump table. */
  lemma {:induction false} StreamBound(codes: seq<(nat, nat)>, data: seq<nat>)
    requires CanCode(codes, data) && forall i :: 0 <= i < |codes| ==> codes[i].1 <= 11
    ensures |Coded(codes, data)| <= 11 * |data|
  {
    if data != [] {
      StreamBound(codes, data[1..]);
    }
  }

  lemma BlockSizesFit(codes: seq<(nat, nat)>, data: seq<nat>)
    requires CanCode(codes, data) && 4 <= |data| <= 131072 && |data| != 5
    requires forall i :: 0 <= i < |codes| ==> codes[i].1 <= 11
    ensures SizesFit(codes, data)
  {
    hide CanCode, Coded;
    CanCodeParts(codes, data);
    forall i | 0 <= i < 3
      ensures |PartStream(codes, data, i)| / 8 <= 0xFFFF
    {
      StreamBound(codes, Part(data, i));
      PartLength(data, i);
    }
  }

  lemma PartLength(data: seq<nat>, i: nat)
    requires 4 <= |data| <= 131072 && |data| != 5 && i < 3
    ensures |Part(data, i)| <= 32768
  {
  }

  lemma ShortCodes(ws: seq<nat>, m: nat)
    requires GoodWeights(ws, m)
    ensures Complete(ws, m) && forall i :: 0 <= i < |ws| ==> Codes(ws, m)[i].1 <= 11
  {
    hide Complete;
  }

  /** The literals of a block, coded with the table made for them, come back. The
      source requires at least two different symbols. Its assertion on the size of
      the FSE coded weights always holds. */
  method RoundTrip(data: seq<nat>, four: bool)
    returns (bytes: seq<byte>, decoded: Result<seq<nat>, DecompressLiteralsError>, ghost ws: seq<nat>, ghost m: nat)
    requires TwoSymbols(data) && (four ==> 4 <= |data| <= 131072 && |data| != 5)
    ensures GoodWeights(ws, m) && FollowsCounts(ws, FseNormalise.CountsOf(data))
    ensures HuffmanRoundTrip.Carries(bytes, ws, m, data, four) && decoded == Ok(data)
  {
    hide Complete, Codes, CanCode, CountOf, SizesFit, GoodWeights, HeaderFits, MostlyAlike, HuffmanRoundTrip.Carries,
      Used;
    var counts := FseNormalise.CountSymbols(data);
    EnoughFromData(counts, data);
    var weights;
    ghost var j;
    weights, m, j := WeightsFromCounts(counts);
    ws := weights;
    AlwaysFits(ws, m, Used(Enumerated(counts)), j);
    AllCovered(ws, counts, data);
    HuffmanRoundTrip.CoveredCanCode(ws, m, data);
    ShortCodes(ws, m);
    if four {
      BlockSizesFit(Codes(ws, m), data);
    }
    var fits;
    fits, bytes, decoded := HuffmanRoundTrip.RoundTrip(weights, m, data, four);
  }

  lemma AllCovered(ws: seq<nat>, counts: seq<nat>, data: seq<nat>)
    requires FollowsCounts(ws, counts) && forall i :: 0 <= i < |data| ==> data[i] < |counts| && counts[data[i]] > 0
    ensures HuffmanRoundTrip.Covers(ws, data)
  {
  }
}
