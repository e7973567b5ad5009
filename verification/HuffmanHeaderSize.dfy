/** The description of a Huffman table takes less than 128 bytes: always when there
    are not too many weights, and for all weights the encoder makes. */
module HuffmanHeaderSize {
  import opened Numbers
  import opened Bits
  import opened Counting
  import opened FseDistribution
  import opened FseStream
  import opened FseDescription
  import opened FseTableCoding
  import opened FseNormalise
  import opened FseSize
  import FseDominance
  import FseRoundTrip
  import opened HuffmanCodes
  import opened HuffmanTableCoding
  import opened HuffmanDescription
  import opened HuffmanWeights

  // ----- description and stream together -----

  lemma TableBound(probs: seq<int>, k: nat, ws: seq<nat>)
    requires WeightTable(probs, k, ws)
    ensures CodesWith(EncodeTable(probs, k), k, ws) && |TableBits(EncodeTable(probs, k), k)| <= |probs| * (k + 3) + 11
  {
    hide EncodeTable, WeightTable, Pow2, Described, EndOf, WeightFrom, BitsOf, CanEncodeAll;
    DescriptionReady(probs, k, ws);
    var e := EncodeTable(probs, k);
    var ps := ProbsOf(e);
    ProbsPadded(probs, k);
    DescribedBound(ps, 0, Pow2(k), k);
    FseRoundTrip.EndInside(probs, 256 - |probs|, 0);
    MulMono(EndOf(ps, 0), |probs|, k + 3);
  }

  lemma ProbsPadded(probs: seq<int>, k: nat)
    requires ValidProbs(probs, k) && 5 <= k <= 20
    ensures |probs| <= 256 && ProbsOf(EncodeTable(probs, k)) == probs + seq(256 - |probs|, i => 0)
  {
    FseRoundTrip.TableIsDescribable(probs, k);
  }

  /** Four bits, the fields, the transitions, two states, padding and marker. */
  lemma FormBound(probs: seq<int>, k: nat, ws: seq<nat>, t: nat, saved: nat)
    requires WeightTable(probs, k, ws) && |ws| > 1 && t < |probs| && saved <= Saved(probs, t) && saved <= k
    ensures |FseForm(probs, k, ws)| + CountOf(ws, t) * saved <= |ws| * k + |probs| * (k + 3) + 2 * k + 19
  {
    hide EncodeTable, WeightTable, TableBits, Pow2, BitsOf, CodedTwo, CanEncodeAll, CountOf, Saved;
    DescriptionReady(probs, k, ws);
    TableOccurs(probs, k, ws);
    TableBound(probs, k, ws);
    StreamBound(probs, k, ws, t, saved);
  }

  lemma TableOccurs(probs: seq<int>, k: nat, ws: seq<nat>)
    requires WeightTable(probs, k, ws)
    ensures ValidProbs(probs, k) && Occur(probs, ws) && 5 <= k <= 6
    ensures (probs, k) == Normalised(CountsOf(ws), 6, true) && Normalisable(CountsOf(ws), 6, true) && |probs| == |CountsOf(ws)|
  {
    hide Normalised, Normalisable, CountsOf;
  }

  /** Up to 147 weights of up to eleven always fit. */
  lemma FewWeightsFit(probs: seq<int>, k: nat, ws: seq<nat>)
    requires WeightTable(probs, k, ws) && 1 < |ws| <= 147 && |probs| <= 12
    ensures |FseForm(probs, k, ws)| / 8 < 128
  {
    hide WeightTable, FseForm, Saved, CountOf, Normalised, Normalisable;
    TableOccurs(probs, k, ws);
    FormBound(probs, k, ws, ws[0], 0);
    FewSum(|FseForm(probs, k, ws)|, CountOf(ws, ws[0]), |ws|, |probs|, k);
  }

  lemma FewSum(form: nat, c: nat, n: nat, size: nat, k: nat)
    requires n <= 147 && size <= 12 && 5 <= k <= 6 && form + c * 0 <= n * k + size * (k + 3) + 2 * k + 19
    ensures form / 8 < 128
  {
    assert c * 0 == 0;
    if k == 5 {
      assert n * k == 5 * n && size * (k + 3) == 8 * size;
    } else {
      assert n * k == 6 * n && size * (k + 3) == 9 * size;
    }
  }

  // ----- the weights made from counts -----

  lemma {:induction false} CountsTotal(data: seq<nat>, counts: seq<nat>)
    requires forall i :: 0 <= i < |data| ==> data[i] < |counts|
    requires forall s :: 0 <= s < |counts| ==> counts[s] == CountOf(data, s)
    ensures Before(counts, |counts|) == |data|
  {
    if data == [] {
      OnesTotal(counts, |counts|);
      NoPositives(counts, |counts|);
    } else {
      var x, init := data[|data| - 1], data[..|data| - 1];
      var fewer := counts[x := CountOf(init, x)];
      FseNormalise.TotalUpdate(counts, x, CountOf(init, x), |counts|);
      CountsTotal(init, fewer);
    }
  }

  /** A symbol that outweighs the others keeps the description short. */
  lemma OutweighedFits(probs: seq<int>, k: nat, ws: seq<nat>, x: nat)
    requires WeightTable(probs, k, ws) && 1 < |ws| <= 255 && FseDominance.Outweighs(CountsOf(ws), x)
    ensures |FseForm(probs, k, ws)| / 8 < 128
  {
    hide WeightTable, FseForm, Normalised, Normalisable, CountOf, LargestSymbol, Before, ValidProbs, Pow2;
    TableOccurs(probs, k, ws);
    var counts := CountsOf(ws);
    CountsTotal(ws, counts);
    var t := FseDominance.OutweighingShare(counts, x);
    SavedIs(probs, t, k);
    var saved := if k == 5 then 3 else 5;
    FormBound(probs, k, ws, t, saved);
    assert counts[t] == CountOf(ws, t);
    FormSum(|FseForm(probs, k, ws)|, |ws|, |counts|, counts[t], counts[x], k);
  }

  lemma SavedIs(probs: seq<int>, t: nat, k: nat)
    requires t < |probs| && ((k == 5 && probs[t] >= 8) || (k == 6 && probs[t] == 32))
    ensures Saved(probs, t) >= if k == 5 then 3 else 5
  {
    hide Log2;
    Pow2Values();
    if Log2(probs[t]) < 3 {
      Pow2Mono(Log2(probs[t]) + 1, 3);
    }
    if k == 6 {
      Log2Unique(32, 5);
    }
  }

  lemma FormSum(form: nat, n: nat, size: nat, ct: nat, cx: nat, k: nat)
    requires n <= 255 && ct >= cx - (size - 1) && 5 <= k <= 6 && size > 0
    requires form + ct * (if k == 5 then 3 else 5) <= n * k + size * (k + 3) + 2 * k + 19
    requires (size <= 9 && cx >= 127 && k == 5) || (size <= 8 && cx >= 63 && n - cx <= 126)
    ensures form / 8 < 128
  {
    if k == 5 {
      assert n * k == 5 * n && size * (k + 3) == 8 * size;
    } else {
      assert n * k == 6 * n && size * (k + 3) == 9 * size;
    }
  }

  lemma FrontCounts(ws: seq<nat>, s: nat)
    requires ws != []
    ensures CountOf(ws, s) == CountOf(Front(ws), s) + if ws[|ws| - 1] == s then 1 else 0
  {
  }

  lemma LogAtLeast(n: nat, j: nat, k: nat)
    requires Pow2(k) <= n < Pow2(j + 1)
    ensures j >= k && Pow2(j) >= Pow2(k)
  {
    hide Pow2;
    if j < k {
      Pow2Mono(j + 1, k);
    }
    Pow2Mono(k, j);
  }

  lemma LogAtMost(n: nat, j: nat, k: nat)
    requires Pow2(j) <= n < Pow2(k + 1)
    ensures j <= k
  {
    hide Pow2;
    if j > k {
      Pow2Mono(k + 1, j);
    }
  }

  /** One slot per weight up to the largest. */
  lemma SlotsBound(ws: seq<nat>, n: nat, j: nat)
    requires MostlyAlike(ws, n, j) && ws != [] && |ws| <= 256
    ensures |CountsOf(Front(ws))| <= if n < 128 then 8 else 9
  {
    hide CountOf, Pow2, LargestSymbol;
    Pow2Values();
    var largest := LargestSymbol(Front(ws));
    assert Front(ws) != [] ==> largest in Front(ws);
    EmptyFront(Front(ws));
    if n < 128 {
      LogAtMost(n, j, 6);
    } else if n < 256 {
      LogAtMost(n, j, 7);
    } else {
      LogAtLeast(n, j, 8);
      var v := if CountOf(ws, 1) >= Pow2(j) then 1 else 2;
      CountBound(ws, v);
      CountFull(ws, v);
    }
  }

  lemma EmptyFront(data: seq<nat>)
    ensures data == [] ==> LargestSymbol(data) == 0
  {
  }

  lemma Occurring(data: seq<nat>, x: nat)
    requires CountOf(data, x) > 0
    ensures x < |CountsOf(data)| && CountsOf(data)[x] == CountOf(data, x)
  {
    hide CountOf, LargestSymbol;
    var i := CountedOccurs(data, x);
  }

  /** Where most symbols are alike, one weight, or the zero of unused symbols,
      outweighs the others. */
  lemma AlikeOutweighs(ws: seq<nat>, n: nat, j: nat) returns (x: nat)
    requires MostlyAlike(ws, n, j) && 149 <= |ws| <= 256 && ws[|ws| - 1] > 0
    ensures FseDominance.Outweighs(CountsOf(Front(ws)), x)
  {
    hide CountOf, Pow2, LargestSymbol, Before;
    var v := if CountOf(ws, 1) >= Pow2(j) then 1 else 2;
    CountsTotal(Front(ws), CountsOf(Front(ws)));
    FrontCounts(ws, 0);
    FrontCounts(ws, v);
    SlotsBound(ws, n, j);
    Pow2Values();
    if n >= 128 {
      LogAtLeast(n, j, 7);
      x := v;
    } else if CountOf(Front(ws), 0) >= 63 {
      x := 0;
    } else {
      LogAtLeast(n, j, 6);
      x := v;
    }
    Occurring(Front(ws), x);
  }

  /** The assertion on the size holds for every list the encoder makes. */
  lemma AlwaysFits(ws: seq<nat>, m: nat, n: nat, j: nat)
    requires GoodWeights(ws, m) && MostlyAlike(ws, n, j)
    ensures HeaderFits(ws, m)
  {
    hide Complete, MostlyAlike, FseForm, Normalised, Normalisable, CountOf, TableForData;
    GoodTabled(ws, m);
    if |ws| > 17 {
      var weights := Front(ws);
      TabledTable(weights, 6, true);
      var (probs, k) := Normalised(CountsOf(weights), 6, true);
      if |ws| <= 148 {
        FewFit(ws, m);
      } else {
        var x := AlikeOutweighs(ws, n, j);
        OutweighedFits(probs, k, weights, x);
      }
    }
  }

  /** Whatever the weights are: up to 148 of them always fit. */
  lemma FewFit(ws: seq<nat>, m: nat)
    requires GoodWeights(ws, m) && |ws| <= 148
    ensures HeaderFits(ws, m)
  {
    hide Complete, FseForm, Normalised, Normalisable, CountOf, TableForData;
    GoodTabled(ws, m);
    if |ws| > 17 {
      var weights := Front(ws);
      TabledTable(weights, 6, true);
      var (probs, k) := Normalised(CountsOf(weights), 6, true);
      SmallSlots(probs, k, weights, m);
      FewWeightsFit(probs, k, weights);
    }
  }

  lemma SmallSlots(probs: seq<int>, k: nat, weights: seq<nat>, m: nat)
    requires WeightTable(probs, k, weights) && m <= 11 && forall i :: 0 <= i < |weights| ==> weights[i] <= m
    ensures |probs| <= 12
  {
    hide Normalised, ValidProbs, Tabled;
  }
}
