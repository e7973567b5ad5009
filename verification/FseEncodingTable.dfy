/** Building the encoding table from probabilities: the same stride as the
    decoder's, but collected per symbol and sorted twice. */
module FseEncodingTable {
  import opened Numbers
  import opened Sorting
  import opened FseSpread
  import opened FseLayout
  import opened FseDistribution
  import FseDecodingTable

  function ByIndex(l: State): int {
    l.index
  }

  function ByBaseline(l: State): int {
    l.baseline
  }

  const NO_STATES := SymbolStates([], 0)

  method PlaceNegativeStates(probs: seq<int>, k: nat) returns (states: seq<SymbolStates>, negativeIdx: int)
    requires ValidProbs(probs, k)
    ensures |states| == 256 && negativeIdx == Free(probs) - 1
    ensures forall s :: 0 <= s < 256 ==>
      states[s] == if s < |probs| && probs[s] == -1 then StatesOf(probs, k, s) else NO_STATES
  {
    hide Before, SymbolTable, RangeStart, RangeBits, Pow2;
    states := seq(256, i => NO_STATES);
    negativeIdx := Pow2(k) - 1;
    for symbol := 0 to |probs|
      invariant |states| == 256 && negativeIdx == Pow2(k) - 1 - NegBefore(probs, symbol)
      invariant forall s :: 0 <= s < 256 ==>
        states[s] == if s < symbol && probs[s] == -1 then StatesOf(probs, k, s) else NO_STATES
    {
      if probs[symbol] == -1 {
        SlotBound(probs, k, symbol);
        var pushed := states[symbol].states + [State(k, 0, Pow2(k) - 1, negativeIdx)];
        states := states[symbol := SymbolStates(pushed, -1)];
        negativeIdx := negativeIdx - 1;
      }
    }
  }

  /** The states of a spread symbol before their ranges are known. */
  function Blank(cells: seq<nat>): (states: seq<State>)
    ensures |states| == |cells|
    ensures forall i :: 0 <= i < |cells| ==> states[i] == State(0, 0, 0, cells[i])
  {
    seq(|cells|, i requires 0 <= i < |cells| => State(0, 0, 0, cells[i]))
  }

  method SpreadStates(probs: seq<int>, k: nat, before: seq<SymbolStates>, negativeIdx: int)
    returns (states: seq<SymbolStates>)
    requires ValidProbs(probs, k) && Free(probs) > 0 && |before| == 256 && negativeIdx == Free(probs) - 1
    requires forall s :: 0 <= s < |probs| && probs[s] > 0 ==> before[s].states == []
    ensures |states| == 256
    ensures forall s :: 0 <= s < 256 ==>
      states[s] == if s < |probs| && probs[s] > 0 then SymbolStates(Blank(Chunk(probs, k, s)), probs[s]) else before[s]
  {
    hide Cells, Walk, Standing, Before, Pow2, Blank, Chunk;
    states := before;
    var idx: nat := 0;
    ghost var i: nat, placed: nat := 0, 0;
    var free: nat := negativeIdx + 1;
    FseDecodingTable.StartSpreading(probs, k, free);
    for symbol := 0 to |probs|
      invariant |states| == 256
      invariant Standing(k, free, i, idx, placed) && placed == Before(probs, symbol)
      invariant forall s :: 0 <= s < 256 ==>
        states[s] == if s < symbol && probs[s] > 0 then SymbolStates(Blank(Chunk(probs, k, s)), probs[s]) else before[s]
    {
      FseDecodingTable.BeforeStep(probs, symbol);
      if probs[symbol] > 0 {
        SlotBound(probs, k, symbol);
        var pushed: seq<State> := states[symbol].states;
        BlankEmpty(Chunk(probs, k, symbol));
        for n := 0 to probs[symbol]
          invariant Standing(k, free, i, idx, placed) && placed == Before(probs, symbol) + n
          invariant n <= |Chunk(probs, k, symbol)| && pushed == Blank(Chunk(probs, k, symbol)[..n])
        {
          ChunkNext(probs, k, symbol, n, i, idx, placed);
          pushed := pushed + [State(0, 0, 0, idx)];
          idx, i := NextFree(k, free, idx, i, placed);
          placed := placed + 1;
        }
        assert Chunk(probs, k, symbol)[..probs[symbol]] == Chunk(probs, k, symbol);
        states := states[symbol := SymbolStates(pushed, probs[symbol])];
      }
    }
  }

  lemma BlankEmpty(cells: seq<nat>)
    ensures Blank(cells[..0]) == []
  {
  }

  lemma ChunkNext(probs: seq<int>, k: nat, s: nat, n: nat, i: nat, idx: nat, placed: nat)
    requires ValidProbs(probs, k) && s < |probs| && n < Slots(probs[s])
    requires placed == Before(probs, s) + n && Standing(k, Free(probs), i, idx, placed)
    ensures placed < Free(probs)
    ensures Blank(Chunk(probs, k, s)[..n + 1]) == Blank(Chunk(probs, k, s)[..n]) + [State(0, 0, 0, idx)]
  {
    hide Cells, Standing, Pow2;
    SlotBound(probs, k, s);
    StandingCell(k, Free(probs), i, idx, placed);
    assert Chunk(probs, k, s)[n] == idx;
  }

  // ----- ranges and order -----

  /** Sort by table position, hand out the ranges, sort by range. */
  method ArrangeStates(k: nat, raw: seq<State>, p: nat, ghost chunk: seq<nat>, ghost cells: seq<nat>)
    returns (states: seq<State>)
    requires 0 < p <= Pow2(k) && |chunk| == |cells| == p && raw == Blank(chunk)
    requires Distinct(chunk) && Ascending(cells) && forall c :: c in chunk <==> c in cells
    ensures |states| == p && forall j :: 0 <= j < p ==> states[j] == StateFor(k, p, cells, j)
  {
    hide Blank, Pow2, RangeStart, RangeBits, SortByKey, StateFor, StrictlySortedBy, RankToRange;
    SortedByIndex(chunk, cells);
    states := SortByKey(raw, ByIndex);
    BlankLength(cells);
    states := AssignRanges(k, states, p, cells);
    SortedByBaseline(k, p, cells, states);
    states := SortByKey(states, ByBaseline);
  }

  /** In table order: the first states get ranges of double size. */
  method AssignRanges(k: nat, sorted: seq<State>, p: nat, ghost cells: seq<nat>) returns (states: seq<State>)
    requires 0 < p <= Pow2(k) && |sorted| == |cells| == p && forall r :: 0 <= r < p ==> sorted[r].index == cells[r]
    ensures |states| == p && forall r :: 0 <= r < p ==> states[r] == StateFor(k, p, cells, RankToRange(p, r))
  {
    hide Pow2, RangeStart, RangeBits, CeilLog, StateFor, RankToRange, Doubles, WidthBits;
    states := sorted;
    var doubleStates, numBits, baseline := FirstRange(k, p);
    for idx := 0 to p
      invariant |states| == p
      invariant idx < p ==> baseline == RangeStart(k, p, RankToRange(p, idx))
      invariant forall r :: 0 <= r < idx ==> states[r] == StateFor(k, p, cells, RankToRange(p, r))
      invariant forall r :: idx <= r < p ==> states[r].index == cells[r]
    {
      var state;
      state, baseline := AssignRange(k, p, doubleStates, numBits, idx, states[idx], baseline, cells);
      states := states[idx := state];
    }
  }

  /** How many states get double ranges, the bits of the others, the first range. */
  method FirstRange(k: nat, p: nat) returns (doubleStates: nat, numBits: nat, baseline: nat)
    requires 0 < p <= Pow2(k)
    ensures doubleStates == Doubles(p) && numBits == WidthBits(k, p) && baseline == RangeStart(k, p, RankToRange(p, 0))
  {
    hide Pow2, RangeStart, RankToRange;
    CeilLogBound(p, k);
    CeilLogIs(p);
    var probLog := if IsPow2(p) then Log2(p) else Log2(p) + 1;
    var roundedUp := Pow2(probLog);
    doubleStates := roundedUp - p;
    var singleStates := p - doubleStates;
    numBits := k - probLog;
    FirstBaseline(k, p);
    baseline := (singleStates * Pow2(numBits)) % Pow2(k);
  }

  /** One state: its range, and where the next one starts. */
  method AssignRange(k: nat, p: nat, doubleStates: nat, numBits: nat, idx: nat, state: State, baseline: nat, ghost cells: seq<nat>)
    returns (out: State, next: nat)
    requires 0 < p <= Pow2(k) && |cells| == p && idx < p && state.index == cells[idx]
    requires doubleStates == Doubles(p) && numBits == WidthBits(k, p) && baseline == RangeStart(k, p, RankToRange(p, idx))
    ensures out == StateFor(k, p, cells, RankToRange(p, idx))
    ensures idx + 1 < p ==> next == RangeStart(k, p, RankToRange(p, idx + 1))
  {
    hide Pow2, RangeStart, RangeBits, CeilLog, StateFor, RankToRange, WidthBits, Doubles;
    AtRank(k, p, cells, idx);
    if idx + 1 < p {
      NextBaseline(k, p, idx);
    }
    if idx < doubleStates {
      out := State(numBits + 1, baseline, baseline + (Pow2(numBits + 1) - 1), state.index);
      next := baseline + Pow2(numBits + 1);
      next := next % Pow2(k);
    } else {
      out := State(numBits, baseline, baseline + (Pow2(numBits) - 1), state.index);
      next := baseline + Pow2(numBits);
    }
  }

  lemma BlankLength(cells: seq<nat>)
    ensures |Blank(cells)| == |cells|
    ensures forall r :: 0 <= r < |cells| ==> Blank(cells)[r].index == cells[r]
  {
  }

  lemma CeilLogIs(p: nat)
    requires p > 0
    ensures CeilLog(p) == if IsPow2(p) then Log2(p) else Log2(p) + 1
  {
  }

  /** Sorting the chunk by position gives the cells in table order. */
  lemma SortedByIndex(chunk: seq<nat>, cells: seq<nat>)
    requires Distinct(chunk) && Ascending(cells) && |chunk| == |cells|
    requires forall c :: c in chunk <==> c in cells
    ensures SortByKey(Blank(chunk), ByIndex) == Blank(cells)
  {
    hide SortByKey;
    var a, b := Blank(chunk), Blank(cells);
    forall x
      ensures multiset(a)[x] == multiset(b)[x]
    {
      CountIfDistinct(a, x);
      CountIfDistinct(b, x);
      if x in a { assert exists i :: 0 <= i < |chunk| && a[i] == x; assert x.index in chunk; assert x.index in cells; }
      if x in b { assert exists i :: 0 <= i < |cells| && b[i] == x; assert x.index in cells; assert x.index in chunk; }
      assert x in a ==> exists i :: 0 <= i < |cells| && cells[i] == x.index;
      assert x in b ==> exists i :: 0 <= i < |chunk| && chunk[i] == x.index;
      assert x in a <==> x in b;
    }
    assert multiset(a) == multiset(b);
    SortIs(a, b, ByIndex);
  }

  lemma CountIfDistinct<T>(s: seq<T>, x: T)
    requires Distinct(s)
    ensures multiset(s)[x] == if x in s then 1 else 0
  {
    if |s| > 0 {
      var t, last := s[..|s| - 1], s[|s| - 1];
      assert s == t + [last];
      CountIfDistinct(t, x);
    }
  }

  /** The first baseline, reduced modulo the table size. */
  lemma FirstBaseline(k: nat, p: nat)
    requires 0 < p <= Pow2(k)
    ensures Singles(p) * Pow2(WidthBits(k, p)) % Pow2(k) == RangeStart(k, p, RankToRange(p, 0))
  {
    hide Pow2, CeilLog;
    WidthsFill(k, p);
    RangesSpan(k, p);
    RangeStartMono(k, p, Singles(p), p);
    var d := Pow2(k);
    if Doubles(p) > 0 {
      ModSmall(RangeStart(k, p, Singles(p)), d);
    } else {
      assert Singles(p) * Width(k, p) == d;
      DivModUnique(d, 1, 0);
    }
  }

  /** The running baseline, reduced where the source reduces it. */
  lemma NextBaseline(k: nat, p: nat, r: nat)
    requires 0 < p <= Pow2(k) && r + 1 < p
    ensures var here := RangeStart(k, p, RankToRange(p, r));
      RangeStart(k, p, RankToRange(p, r + 1))
      == if r < Doubles(p) then (here + Pow2(WidthBits(k, p) + 1)) % Pow2(k) else here + Pow2(WidthBits(k, p))
  {
    hide Pow2, CeilLog, RangeStart;
    var j := RankToRange(p, r);
    RangesAdjacent(k, p, j);
    RangesSpan(k, p);
    if r < Doubles(p) {
      if r + 1 < Doubles(p) {
        RangeStartMono(k, p, j + 1, p);
        ModSmall(RangeStart(k, p, j + 1), Pow2(k));
      } else {
        DivModUnique(Pow2(k), 1, 0);
      }
    }
  }

  lemma AtRank(k: nat, p: nat, cells: seq<nat>, r: nat)
    requires 0 < p <= Pow2(k) && |cells| == p && r < p
    ensures var j := RankToRange(p, r);
      StateFor(k, p, cells, j) == State(RangeBits(k, p, j), RangeStart(k, p, j),
        RangeStart(k, p, j) + Pow2(RangeBits(k, p, j)) - 1, cells[r])
    ensures RangeBits(k, p, RankToRange(p, r)) == if r < Doubles(p) then WidthBits(k, p) + 1 else WidthBits(k, p)
  {
    hide Pow2, CeilLog, RangeStart;
  }

  /** Sorting by baseline rotates the singles to the front. */
  lemma SortedByBaseline(k: nat, p: nat, cells: seq<nat>, byRank: seq<State>)
    requires 0 < p <= Pow2(k) && |cells| == p && |byRank| == p
    requires forall r :: 0 <= r < p ==> byRank[r] == StateFor(k, p, cells, RankToRange(p, r))
    ensures |SortByKey(byRank, ByBaseline)| == p
    ensures forall j :: 0 <= j < p ==> SortByKey(byRank, ByBaseline)[j] == StateFor(k, p, cells, j)
  {
    hide SortByKey, Pow2, CeilLog, RangeStart, RangeBits, StateFor;
    var target := seq(p, j requires 0 <= j < p => StateFor(k, p, cells, j));
    var s := Singles(p);
    forall i, j | 0 <= i < j < p
      ensures ByBaseline(target[i]) < ByBaseline(target[j])
    {
      BaselineIs(k, p, cells, i);
      BaselineIs(k, p, cells, j);
      RangeStartMono(k, p, i, j);
    }
    assert byRank == target[s..] + target[..s];
    assert target == target[..s] + target[s..];
    SortIs(byRank, target, ByBaseline);
  }

  lemma BaselineIs(k: nat, p: nat, cells: seq<nat>, j: nat)
    requires 0 < p <= Pow2(k) && |cells| == p && j < p
    ensures StateFor(k, p, cells, j).baseline == RangeStart(k, p, j)
  {
  }

  // ----- the builder -----

  /** The table an encoder uses for a distribution. */
  method BuildTableFromProbabilities(probs: seq<int>, k: nat) returns (t: EncodingTable)
    requires ValidProbs(probs, k) && Free(probs) > 0
    ensures t == EncodeTable(probs, k)
  {
    hide Pow2, Before, CellsOf, Chunk, SymbolTable, StateFor, Blank;
    var states, negativeIdx := PlaceNegativeStates(probs, k);
    states := SpreadStates(probs, k, states, negativeIdx);
    for symbol := 0 to |probs|
      invariant |states| == 256
      invariant forall s :: 0 <= s < symbol ==> states[s] == StatesOf(probs, k, s)
      invariant forall s :: symbol <= s < |probs| && probs[s] > 0 ==>
        states[s] == SymbolStates(Blank(Chunk(probs, k, s)), probs[s])
      invariant forall s :: 0 <= s < 256 && (s >= |probs| || probs[s] <= 0) ==> states[s] == StatesOf(probs, k, s)
    {
      if probs[symbol] > 0 {
        ghost var chunk := Chunk(probs, k, symbol);
        ghost var cells := CellsOf(SymbolTable(probs, k), symbol, Free(probs));
        SlotBound(probs, k, symbol);
        ChunkIsCells(probs, k, symbol);
        CellsOfAscending(SymbolTable(probs, k), symbol, Free(probs));
        var arranged := ArrangeStates(k, states[symbol].states, probs[symbol], chunk, cells);
        assert arranged == StatesOf(probs, k, symbol).states;
        states := states[symbol := SymbolStates(arranged, states[symbol].probability)];
      }
    }
    t := EncodingTable(states, Pow2(k));
  }
}
