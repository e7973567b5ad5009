/** The encoding and the decoding table of one distribution describe the same
    state machine, and the encoder's search finds the right transition. */
module FseAgreement {
  import opened Numbers
  import opened Results
  import opened FseLayout
  import opened FseDistribution

  // ----- the encoder's lookups -----

  /** The first state from position `from` on whose range contains `idx`. */
  function Find(states: seq<State>, from: nat, idx: nat): (r: Option<State>)
    requires from <= |states|
    decreases |states| - from
  {
    if from == |states| then None
    else if states[from].Contains(idx) then Some(states[from])
    else Find(states, from + 1, idx)
  }

  /** The search starts at a position estimated from the size of `idx`. */
  function Get(ss: SymbolStates, idx: nat, maxIdx: nat): Option<State>
    requires maxIdx > 0
  {
    var start := (idx * |ss.states|) / maxIdx;
    if 0 <= start <= |ss.states| then Find(ss.states, start, idx) else None
  }

  function NextState(t: EncodingTable, symbol: nat, idx: nat): Option<State>
    requires t.tableSize > 0
  {
    if symbol < |t.states| then Get(t.states[symbol], idx, t.tableSize) else None
  }

  function StartState(t: EncodingTable, symbol: nat): Option<State> {
    if symbol < |t.states| && |t.states[symbol].states| > 0 then Some(t.states[symbol].states[0]) else None
  }

  // ----- agreement of the two tables -----

  /** The decoder, standing on this state's cell, emits `s` and reads exactly the
      bits that lead to an index in the state's range. */
  ghost predicate Matches(d: seq<Entry>, s: nat, st: State) {
    && st.index < |d|
    && d[st.index] == Entry(st.baseline, st.numBits, s)
    && st.lastIndex == st.baseline + Pow2(st.numBits) - 1
  }

  lemma EveryStateMatches(probs: seq<int>, k: nat, s: nat, j: nat)
    requires ValidProbs(probs, k) && s < |probs| && j < |StatesOf(probs, k, s).states|
    ensures Matches(DecodeTable(probs, k), s, StatesOf(probs, k, s).states[j])
  {
    if probs[s] == -1 {
      SlotBound(probs, k, s);
      var c := Pow2(k) - 1 - NegBefore(probs, s);
      BeforeMono(probs, s, |probs|);
      var r := NegOwner(probs, NegBefore(probs, s), 0);
      NegOwnerUnique(probs, r, s);
      assert DecodeTable(probs, k)[c] == DecodeEntry(probs, k, c);
    } else {
      SpreadStateMatches(probs, k, s, j);
    }
  }

  lemma SpreadStateMatches(probs: seq<int>, k: nat, s: nat, j: nat)
    requires ValidProbs(probs, k) && s < |probs| && j < Slots(probs[s])
    ensures Matches(DecodeTable(probs, k), s, StateOf(probs, k, s, j))
  {
    hide SymbolTable, CellsOf, RangeStart, RangeBits, Pow2;
    var p, tab := probs[s], SymbolTable(probs, k);
    SlotBound(probs, k, s);
    ChunkIsCells(probs, k, s);
    var r := RangeToRank(p, j);
    RankOfCell(tab, s, Free(probs), r);
    var c := CellsOf(tab, s, Free(probs))[r];
    assert Rank(tab, c) == r;
    assert DecodeTable(probs, k)[c] == DecodeEntry(probs, k, c);
  }

  // ----- the search -----

  lemma {:induction false} FindFirst(states: seq<State>, from: nat, j: nat, idx: nat)
    requires from <= j < |states| && states[j].Contains(idx)
    requires forall i :: 0 <= i < j ==> !states[i].Contains(idx)
    ensures Find(states, from, idx) == Some(states[j])
    decreases j - from
  {
    if from < j {
      FindFirst(states, from + 1, j, idx);
    }
  }

  lemma RangesDisjoint(probs: seq<int>, k: nat, s: nat, i: nat, j: nat, x: nat)
    requires ValidProbs(probs, k) && s < |probs| && i < j < Slots(probs[s])
    ensures !(StateOf(probs, k, s, i).Contains(x) && StateOf(probs, k, s, j).Contains(x))
  {
    hide RangeStart, RangeBits, SymbolTable, CellsOf, Pow2;
    SlotBound(probs, k, s);
    RangesAdjacent(k, probs[s], i);
    RangeStartMono(k, probs[s], i + 1, j);
  }

  /** For every symbol of the table and every index the search returns the one
      state whose range contains the index. */
  lemma GetIsUnique(probs: seq<int>, k: nat, s: nat, x: nat) returns (j: nat)
    requires ValidProbs(probs, k) && s < |probs| && probs[s] != 0 && x < Pow2(k)
    ensures j < |StatesOf(probs, k, s).states|
    ensures Get(StatesOf(probs, k, s), x, Pow2(k)) == Some(StatesOf(probs, k, s).states[j])
    ensures forall i :: 0 <= i < |StatesOf(probs, k, s).states| ==>
      (StatesOf(probs, k, s).states[i].Contains(x) <==> i == j)
  {
    if probs[s] == -1 {
      j := 0;
      ModSmall(x, Pow2(k));
    } else {
      j := SpreadGetIsUnique(probs, k, s, x);
    }
  }

  lemma SpreadGetIsUnique(probs: seq<int>, k: nat, s: nat, x: nat) returns (j: nat)
    requires ValidProbs(probs, k) && s < |probs| && probs[s] > 0 && x < Pow2(k)
    ensures j < |StatesOf(probs, k, s).states|
    ensures Get(StatesOf(probs, k, s), x, Pow2(k)) == Some(StatesOf(probs, k, s).states[j])
    ensures forall i :: 0 <= i < |StatesOf(probs, k, s).states| ==>
      (StatesOf(probs, k, s).states[i].Contains(x) <==> i == j)
  {
    hide RangeStart, RangeBits, StateOf, Pow2, Find;
    var p, states := probs[s], StatesOf(probs, k, s).states;
    SlotBound(probs, k, s);
    RangesSpan(k, p);
    j := RangeContaining(k, p, x, p);
    RangesAdjacent(k, p, j);
    HintSound(k, p, x, j);
    StateContains(probs, k, s, j, x);
    forall i | 0 <= i < p
      ensures states[i].Contains(x) <==> i == j
    {
      if i < j {
        RangesDisjoint(probs, k, s, i, j, x);
      } else if j < i {
        RangesDisjoint(probs, k, s, j, i, x);
      }
    }
    FindFirst(states, (x * p) / Pow2(k), j, x);
  }

  lemma StateContains(probs: seq<int>, k: nat, s: nat, j: nat, x: nat)
    requires ValidProbs(probs, k) && s < |probs| && j < Slots(probs[s]) && 0 < probs[s] <= Pow2(k)
    requires RangeStart(k, probs[s], j) <= x < RangeStart(k, probs[s], j) + Pow2(RangeBits(k, probs[s], j))
    ensures StateOf(probs, k, s, j).Contains(x)
  {
    hide RangeStart, RangeBits, Pow2, SymbolTable, CellsOf;
  }

  /** What a stream needs of the two tables for one symbol: a state to start in
      and a transition from every state, mirrored by the decoder. */
  ghost predicate Agree(e: EncodingTable, d: seq<Entry>, k: nat, s: nat) {
    && e.tableSize == Pow2(k) == |d|
    && (StartState(e, s).Some? && Matches(d, s, StartState(e, s).value))
    && forall x :: 0 <= x < Pow2(k) ==> Transition(e, d, s, x)
  }

  ghost predicate Transition(e: EncodingTable, d: seq<Entry>, s: nat, x: nat)
    requires e.tableSize > 0
  {
    var n := NextState(e, s, x);
    n.Some? && n.value.Contains(x) && Matches(d, s, n.value)
  }

  /** The tables of one distribution agree on every symbol that occurs in it. */
  lemma TablesAgree(probs: seq<int>, k: nat, s: nat)
    requires ValidProbs(probs, k) && s < |probs| && probs[s] != 0
    ensures Agree(EncodeTable(probs, k), DecodeTable(probs, k), k, s)
  {
    hide DecodeTable, StatesOf, Matches, Get;
    var e, d := EncodeTable(probs, k), DecodeTable(probs, k);
    assert e.states[s] == StatesOf(probs, k, s);
    forall x | 0 <= x < Pow2(k)
      ensures Transition(e, d, s, x)
    {
      var j := GetIsUnique(probs, k, s, x);
      EveryStateMatches(probs, k, s, j);
    }
    var j := GetIsUnique(probs, k, s, 0);
    EveryStateMatches(probs, k, s, 0);
  }

  /** Symbols that do not occur have no states. */
  lemma AbsentSymbols(probs: seq<int>, k: nat, s: nat)
    requires ValidProbs(probs, k) && s < 256
    ensures EncodeTable(probs, k).states[s].states == [] <==> s >= |probs| || probs[s] == 0
  {
  }

  /** Every index is the next state of exactly one entry of each symbol: the
      entries of a symbol partition the table. */
  lemma EntriesPartition(probs: seq<int>, k: nat, s: nat, x: nat)
    requires ValidProbs(probs, k) && s < |probs| && probs[s] != 0 && x < Pow2(k)
    ensures exists c :: 0 <= c < Pow2(k) && EntryReaches(DecodeTable(probs, k)[c], s, x)
    ensures forall c, c' | 0 <= c < Pow2(k) && 0 <= c' < Pow2(k) ::
      EntryReaches(DecodeTable(probs, k)[c], s, x) && EntryReaches(DecodeTable(probs, k)[c'], s, x) ==> c == c'
  {
    hide DecodeTable, StatesOf, Get, Pow2;
    var d := DecodeTable(probs, k);
    var j := GetIsUnique(probs, k, s, x);
    EveryStateMatches(probs, k, s, j);
    var st := StatesOf(probs, k, s).states[j];
    assert EntryReaches(d[st.index], s, x);
    forall c | 0 <= c < Pow2(k) && EntryReaches(d[c], s, x)
      ensures c == st.index
    {
      var i := StateOfCell(probs, k, c);
      EveryStateMatches(probs, k, s, i);
      assert StatesOf(probs, k, s).states[i].Contains(x);
    }
  }

  ghost predicate EntryReaches(en: Entry, s: nat, x: nat) {
    en.symbol == s && en.baseLine <= x < en.baseLine + Pow2(en.numBits)
  }

  /** Every cell is the cell of some state of its symbol. */
  lemma StateOfCell(probs: seq<int>, k: nat, c: nat) returns (j: nat)
    requires ValidProbs(probs, k) && c < Pow2(k)
    ensures var s := DecodeTable(probs, k)[c].symbol;
      s < |probs| && j < |StatesOf(probs, k, s).states| && StatesOf(probs, k, s).states[j].index == c
  {
    hide SymbolTable, CellsOf, RangeStart, RangeBits, Pow2;
    if c >= Free(probs) {
      j := 0;
    } else {
      var tab := SymbolTable(probs, k);
      var s := tab[c];
      RankBound(probs, k, c);
      CellAtRank(tab, s, Free(probs), c);
      ChunkIsCells(probs, k, s);
      j := RankToRange(probs[s], Rank(tab, c));
      assert RangeToRank(probs[s], j) == Rank(tab, c);
    }
  }

  lemma EntryBitsBound(probs: seq<int>, k: nat, c: nat)
    requires ValidProbs(probs, k) && c < Pow2(k)
    ensures DecodeTable(probs, k)[c].numBits <= k
    ensures DecodeTable(probs, k)[c].baseLine + Pow2(DecodeTable(probs, k)[c].numBits) <= Pow2(k)
  {
    hide SymbolTable, CellsOf, RangeStart, RangeBits, Pow2;
    if c < Free(probs) {
      var tab := SymbolTable(probs, k);
      RankBound(probs, k, c);
      var p := probs[tab[c]];
      var j := RankToRange(p, Rank(tab, c));
      RangesAdjacent(k, p, j);
      RangeStartMono(k, p, j + 1, p);
      RangesSpan(k, p);
      RangeBitsBound(k, p, j);
    }
  }
}
