/** How many bits FSE coded data takes: at most the accuracy log per symbol, and
    less for a symbol that owns many cells. */
module FseSize {
  import opened Numbers
  import opened Bits
  import opened FseLayout
  import opened FseDistribution
  import opened FseAgreement
  import opened FseStream
  import opened FseDescription
  import opened Counting

  // ----- transitions -----

  /** A symbol with `p` cells saves the logarithm of `p` in every transition. */
  lemma RangeBitsSaved(k: nat, p: nat, j: nat)
    requires 0 < p <= Pow2(k) && j < p
    ensures RangeBits(k, p, j) + Log2(p) <= k
  {
    CeilLogBound(p, k);
    Pow2Reflects(Log2(p), k);
  }

  /** What a transition to symbol `s` saves. */
  function Saved(probs: seq<int>, s: nat): nat
    requires s < |probs|
  {
    if probs[s] > 0 then Log2(probs[s]) else 0
  }

  lemma StepBound(probs: seq<int>, k: nat, s: nat, x: nat)
    requires ValidProbs(probs, k) && s < |probs| && probs[s] != 0 && x < Pow2(k)
    requires CanEncode(EncodeTable(probs, k), s)
    ensures |Step(EncodeTable(probs, k), s, x).0| + Saved(probs, s) <= k
  {
    hide StatesOf, Get, Pow2, BitsOf, CanEncode;
    var e := EncodeTable(probs, k);
    assert e.states[s] == StatesOf(probs, k, s);
    var j := GetIsUnique(probs, k, s, x);
    StateBitsBound(probs, k, s, j);
    StepIs(e, s, x);
  }

  lemma StepIs(e: EncodingTable, s: nat, x: nat)
    requires CanEncode(e, s) && x < e.tableSize
    ensures NextState(e, s, x).Some? && |Step(e, s, x).0| == NextState(e, s, x).value.numBits
  {
    assert CanStep(e, s, x);
  }

  lemma StateBitsBound(probs: seq<int>, k: nat, s: nat, j: nat)
    requires ValidProbs(probs, k) && s < |probs| && j < |StatesOf(probs, k, s).states|
    ensures StatesOf(probs, k, s).states[j].numBits + Saved(probs, s) <= k
  {
    hide Pow2, RangeBits, RangeStart, SymbolTable, CellsOf, Log2;
    if probs[s] > 0 {
      SlotBound(probs, k, s);
      RangeBitsSaved(k, probs[s], j);
    }
  }

  /** Data coded with two states: the log for every symbol, less what the
      occurrences of `t` save. */
  lemma {:induction false} StreamBound(probs: seq<int>, k: nat, data: seq<nat>, t: nat, saved: nat)
    requires ValidProbs(probs, k) && Occur(probs, data) && |data| > 1 && t < |probs| && saved <= Saved(probs, t) && saved <= k
    requires CanEncodeAll(EncodeTable(probs, k), data)
    ensures |CodedTwo(EncodeTable(probs, k), data).0| + CountOf(data, t) * saved <= |data| * k
  {
    hide EncodeTable, CanEncode, Step, CountOf, Saved, ValidProbs;
    var e := EncodeTable(probs, k);
    CountBound(data, t);
    if |data| == 2 {
      MulMono(CountOf(data, t), |data|, saved);
      MulMono(saved, k, |data|);
      assert CodedTwo(e, data).0 == [];
      Commute(|data|, saved);
      Commute(|data|, k);
    } else {
      var rest := data[1..];
      assert forall s :: s in rest ==> s in data;
      StreamBound(probs, k, rest, t, saved);
      CountFirst(data, t);
      assert data[0] in data;
      var (b, x, y) := CodedTwo(e, rest);
      EncodeTableSize(probs, k);
      StepBound(probs, k, data[0], y);
      MulNext(CountOf(rest, t), saved);
      MulNext(|rest|, k);
    }
  }

  lemma Commute(a: nat, b: nat)
    ensures a * b == b * a
  {
  }

  // ----- descriptions -----

  /** A field takes at most `k + 1` bits, a run of zeros two more per symbol. */
  lemma {:induction false} DescribedBound(ps: seq<int>, i: nat, r: nat, k: nat)
    requires i <= |ps| && r == WeightFrom(ps, i) <= Pow2(k) && Probabilities(ps) && k > 0
    ensures |Described(ps, i, r)| <= (EndOf(ps, i) - i) * (k + 3)
    decreases |ps| - i
  {
    hide Field, ZeroRunBits, WeightFrom, EndOf, Described, FieldWidth, Pow2;
    if r == 0 {
      NothingDescribed(ps, i);
    } else {
      NotAtEnd(ps, i);
      WidthBound(r, k);
      WeightStep(ps, i);
      if ps[i] == 0 {
        var z := ZeroRun(ps, i + 1);
        DescribedZero(ps, i, r);
        EndZeros(ps, i, z + 1);
        ZeroRunBound(z);
        DescribedBound(ps, i + 1 + z, r, k);
        MoreFields(EndOf(ps, i) - (i + 1 + z), z, k);
      } else {
        DescribedValue(ps, i, r);
        DescribedBound(ps, i + 1, r - Weight(ps[i]), k);
        MoreFields(EndOf(ps, i) - (i + 1), 0, k);
      }
    }
  }

  lemma NothingDescribed(ps: seq<int>, i: nat)
    requires i <= |ps| && WeightFrom(ps, i) == 0 && Probabilities(ps)
    ensures Described(ps, i, 0) == [] && EndOf(ps, i) == i
  {
  }

  lemma MoreFields(a: nat, z: nat, k: nat)
    ensures k + 1 + 2 + z + a * (k + 3) <= (a + 1 + z) * (k + 3)
  {
    var w := k + 3;
    assert (a + 1 + z) * w == a * w + w + z * w;
    MulMono(1, w, z);
    Commute(z, w);
  }

  lemma NotAtEnd(ps: seq<int>, i: nat)
    requires i <= |ps| && WeightFrom(ps, i) > 0
    ensures i < |ps|
  {
  }

  lemma WeightStep(ps: seq<int>, i: nat)
    requires i < |ps|
    ensures WeightFrom(ps, i) == Weight(ps[i]) + WeightFrom(ps, i + 1)
    ensures WeightFrom(ps, i) > 0 && ps[i] != 0 ==> EndOf(ps, i) == EndOf(ps, i + 1)
  {
  }

  lemma WidthBound(r: nat, k: nat)
    requires r <= Pow2(k) && k > 0
    ensures FieldWidth(r) <= k + 1
  {
    hide Log2;
    Pow2Values();
    Pow2Mono(1, k);
    if FieldWidth(r) > k + 1 {
      Pow2Mono(k + 1, FieldWidth(r) - 1);
    }
  }

  lemma {:induction false} ZeroRunBound(z: nat)
    ensures |ZeroRunBits(z)| <= 2 + z
  {
    hide BitsOf;
    if z >= 3 {
      ZeroRunBound(z - 3);
    }
  }
}
