/** Building the decoding table from probabilities. */
module FseDecodingTable {
  import opened Numbers
  import opened Results
  import opened ForwardReading
  import opened FseSpread
  import opened FseLayout
  import opened FseDistribution

  datatype FseTableError =
    | AccLogIsZero
    | AccLogTooBig(got: nat, max: nat)
    | GetBitsFailed(error: GetBitsError)
    | ProbabilityCounterMismatch(got: nat, expectedSum: nat)
    | TooManySymbols(got: nat)

  /** First the -1 symbols, from the highest cell down. */
  method PlaceNegatives(probs: seq<int>, k: nat, dummies: seq<Entry>) returns (decode: seq<Entry>, negativeIdx: nat)
    requires ValidProbs(probs, k) && |dummies| == Pow2(k)
    ensures |decode| == Pow2(k) && negativeIdx == Free(probs)
    ensures forall c :: Free(probs) <= c < Pow2(k) ==> decode[c] == DecodeEntry(probs, k, c)
  {
    hide Before, SymbolTable, RangeStart, RangeBits, Pow2;
    decode := dummies;
    negativeIdx := Pow2(k);
    for symbol := 0 to |probs|
      invariant |decode| == Pow2(k) && negativeIdx == Pow2(k) - NegBefore(probs, symbol)
      invariant forall c :: negativeIdx <= c < Pow2(k) ==> decode[c] == DecodeEntry(probs, k, c)
    {
      if probs[symbol] == -1 {
        SlotBound(probs, k, symbol);
        BeforeMono(probs, symbol, |probs|);
        NegOwnerUnique(probs, NegOwner(probs, NegBefore(probs, symbol), 0), symbol);
        negativeIdx := negativeIdx - 1;
        decode := decode[negativeIdx := Entry(0, k, symbol)];
      }
    }
  }

  /** Then all others along the stride. */
  method SpreadSymbols(probs: seq<int>, k: nat, decode: seq<Entry>, negativeIdx: nat) returns (out: seq<Entry>)
    requires ValidProbs(probs, k) && |decode| == Pow2(k) && negativeIdx == Free(probs)
    ensures |out| == Pow2(k)
    ensures forall c :: 0 <= c < Free(probs) ==> out[c].symbol == SymbolTable(probs, k)[c]
    ensures forall c :: Free(probs) <= c < Pow2(k) ==> out[c] == decode[c]
  {
    hide SymbolTable, Owners, Cells, Standing, Before, Pow2;
    out := decode;
    var position: nat := 0;
    ghost var i: nat, placed: nat := 0, 0;
    StartSpreading(probs, k, negativeIdx);
    for idx := 0 to |probs|
      invariant Spread(out, decode, probs, k, negativeIdx, placed)
      invariant negativeIdx > 0 ==> Standing(k, negativeIdx, i, position, placed)
      invariant placed == Before(probs, idx)
    {
      if probs[idx] > 0 {
        SlotBound(probs, k, idx);
        BeforeStep(probs, idx);
        for n := 0 to probs[idx]
          invariant Spread(out, decode, probs, k, negativeIdx, placed)
          invariant Standing(k, negativeIdx, i, position, placed) && placed == Before(probs, idx) + n
        {
          SpreadOne(out, decode, probs, k, negativeIdx, placed, i, position, idx);
          out := out[position := out[position].(symbol := idx)];
          position, i := NextFree(k, negativeIdx, position, i, placed);
          placed := placed + 1;
        }
      } else {
        BeforeStep(probs, idx);
      }
    }
    SpreadDone(out, decode, probs, k, negativeIdx, placed);
  }

  /** The first `placed` cells of the walk carry their symbols. */
  ghost predicate Spread(out: seq<Entry>, decode: seq<Entry>, probs: seq<int>, k: nat, free: nat, placed: nat) {
    && ValidProbs(probs, k) && free == Free(probs) && placed <= free
    && |out| == |decode| == Pow2(k)
    && |Cells(k, free)| == free
    && (forall m | 0 <= m < placed ::
          Cells(k, free)[m] < free && out[Cells(k, free)[m]].symbol == Owners(probs, |probs|)[m])
    && (forall c :: free <= c < Pow2(k) ==> out[c] == decode[c])
  }

  lemma BeforeStep(probs: seq<int>, idx: nat)
    requires idx < |probs|
    ensures Before(probs, idx + 1) == Before(probs, idx) + Slots(probs[idx])
    ensures Before(probs, 0) == 0
  {
  }

  lemma StartSpreading(probs: seq<int>, k: nat, free: nat)
    requires ValidProbs(probs, k) && free == Free(probs)
    ensures Before(probs, 0) == 0 && Free(probs) <= Pow2(k)
    ensures |Cells(k, free)| == free && (free > 0 ==> Standing(k, free, 0, 0, 0))
  {
    CellsExact(k, free);
    if free > 0 {
      StandingStart(k, free);
    }
  }

  lemma SpreadOne(out: seq<Entry>, decode: seq<Entry>, probs: seq<int>, k: nat, free: nat, placed: nat, i: nat, position: nat, s: nat)
    requires Spread(out, decode, probs, k, free, placed) && Standing(k, free, i, position, placed)
    requires s < |probs| && Before(probs, s) <= placed < Before(probs, s) + Slots(probs[s])
    ensures placed < free && position < free
    ensures Spread(out[position := out[position].(symbol := s)], decode, probs, k, free, placed + 1)
  {
    hide Cells, Owners, Before, Pow2, Walk, Pos;
    SlotBound(probs, k, s);
    StandingCell(k, free, i, position, placed);
    OwnerIff(probs, |probs|, s, placed);
    CellsExact(k, free);
    var cells := Cells(k, free);
    assert forall m :: 0 <= m < placed ==> cells[m] != cells[placed];
  }

  lemma SpreadDone(out: seq<Entry>, decode: seq<Entry>, probs: seq<int>, k: nat, free: nat, placed: nat)
    requires Spread(out, decode, probs, k, free, placed) && placed == free
    ensures forall c :: 0 <= c < free ==> out[c].symbol == SymbolTable(probs, k)[c]
  {
    hide Cells, Owners, SymbolTable, Before, Pow2;
    CellsExact(k, free);
    var cells := Cells(k, free);
    forall c | 0 <= c < free
      ensures out[c].symbol == SymbolTable(probs, k)[c]
    {
      assert c in cells;
      var m :| 0 <= m < free && cells[m] == c;
      SymbolAtCell(probs, k, m);
    }
  }

  /** Last, with all symbols in place, the baselines in table order. */
  method AssignBaselines(probs: seq<int>, k: nat, decode: seq<Entry>, negativeIdx: nat)
    returns (out: seq<Entry>, counter: seq<nat>)
    requires ValidProbs(probs, k) && |decode| == Pow2(k) && negativeIdx == Free(probs) <= Pow2(k)
    requires forall c :: 0 <= c < Free(probs) ==> decode[c].symbol == SymbolTable(probs, k)[c]
    requires forall c :: Free(probs) <= c < Pow2(k) ==> decode[c] == DecodeEntry(probs, k, c)
    ensures out == DecodeTable(probs, k)
  {
    hide SymbolTable, CellsOf, Pow2, CalcBaselineAndNumBits, Before, NegOwner, RangeStart, RangeBits;
    ghost var tab := SymbolTable(probs, k);
    out := decode;
    counter := seq(|probs|, s => 0);
    NoCells(tab);
    for idx := 0 to negativeIdx
      invariant |out| == Pow2(k) && |counter| == |probs|
      invariant forall s :: 0 <= s < |probs| ==> counter[s] == |CellsOf(tab, s, idx)|
      invariant forall c :: 0 <= c < idx ==> out[c] == DecodeEntry(probs, k, c)
      invariant forall c :: idx <= c < negativeIdx ==> out[c].symbol == tab[c]
      invariant forall c :: negativeIdx <= c < Pow2(k) ==> out[c] == DecodeEntry(probs, k, c)
    {
      var symbol := out[idx].symbol;
      RankBound(probs, k, idx);
      CalcIsRange(k, probs[symbol], counter[symbol]);
      RangeBitsBound(k, probs[symbol], RankToRange(probs[symbol], counter[symbol]));
      var (bl, nb) := CalcBaselineAndNumBits(Pow2(k), probs[symbol], counter[symbol]);
      assert nb <= k;
      CountCell(tab, idx);
      counter := counter[symbol := counter[symbol] + 1];
      out := out[idx := Entry(bl, nb, symbol)];
    }
  }

  lemma NoCells(tab: seq<nat>)
    ensures forall s :: CellsOf(tab, s, 0) == []
  {
  }

  lemma CountCell(tab: seq<nat>, idx: nat)
    requires idx < |tab|
    ensures forall s :: |CellsOf(tab, s, idx + 1)| == |CellsOf(tab, s, idx)| + if s == tab[idx] then 1 else 0
  {
  }

  class FseTable {
    const maxSymbol: nat
    var decode: seq<Entry>
    var accuracyLog: nat
    var symbolProbabilities: seq<int>
    var symbolCounter: seq<nat>

    constructor (maxSymbol: nat)
      ensures this.maxSymbol == maxSymbol
      ensures decode == [] && accuracyLog == 0 && symbolProbabilities == []
    {
      this.maxSymbol := maxSymbol;
      decode, accuracyLog, symbolProbabilities, symbolCounter := [], 0, [], [];
    }

    /** Fill `decode` from the probabilities and the accuracy log. */
    method BuildDecodingTable() returns (r: Result<(), FseTableError>)
      requires ValidProbs(symbolProbabilities, accuracyLog)
      modifies this
      ensures symbolProbabilities == old(symbolProbabilities) && accuracyLog == old(accuracyLog)
      ensures |symbolProbabilities| > maxSymbol + 1 ==>
        r == Err(TooManySymbols(|symbolProbabilities|)) && decode == old(decode)
      ensures |symbolProbabilities| <= maxSymbol + 1 ==>
        r == Ok(()) && decode == DecodeTable(symbolProbabilities, accuracyLog)
    {
      if |symbolProbabilities| > maxSymbol + 1 {
        return Err(TooManySymbols(|symbolProbabilities|));
      }
      var tableSize := Pow2(accuracyLog);
      var negativeIdx;
      decode := seq(tableSize, i => Entry(0, 0, 0));
      decode, negativeIdx := PlaceNegatives(symbolProbabilities, accuracyLog, decode);
      decode := SpreadSymbols(symbolProbabilities, accuracyLog, decode, negativeIdx);
      decode, symbolCounter := AssignBaselines(symbolProbabilities, accuracyLog, decode, negativeIdx);
      r := Ok(());
    }

    /** Take over a given distribution, for example a predefined one. */
    method BuildFromProbabilities(accLog: nat, probs: seq<int>) returns (r: Result<(), FseTableError>)
      requires accLog != 0 ==> ValidProbs(probs, accLog)
      modifies this
      ensures accLog == 0 ==> r == Err(AccLogIsZero)
      ensures accLog != 0 && |probs| > maxSymbol + 1 ==> r == Err(TooManySymbols(|probs|))
      ensures accLog != 0 && |probs| <= maxSymbol + 1 ==>
        r == Ok(()) && decode == DecodeTable(probs, accLog) && accuracyLog == accLog
    {
      if accLog == 0 {
        return Err(AccLogIsZero);
      }
      symbolProbabilities := probs;
      accuracyLog := accLog;
      r := BuildDecodingTable();
    }
  }
}
