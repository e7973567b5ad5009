/** FSE streams as bit strings: what an encoder with one state or with two
    interleaved states appends, what a decoder makes of it, and that the second
    undoes the first. */
module FseStream {
  import opened Concatenation
  import opened Numbers
  import opened Bits
  import opened Results
  import opened FseLayout
  import opened FseDistribution
  import opened FseAgreement

  // ----- one state -----

  /** The encoder can emit `s` from every state. */
  ghost predicate CanEncode(e: EncodingTable, s: nat) {
    && e.tableSize > 0
    && StartState(e, s).Some? && StartState(e, s).value.index < e.tableSize
    && forall x :: 0 <= x < e.tableSize ==> CanStep(e, s, x)
  }

  ghost predicate CanStep(e: EncodingTable, s: nat, x: nat)
    requires e.tableSize > 0
  {
    var n := NextState(e, s, x);
    && n.Some? && n.value.index < e.tableSize
    && n.value.baseline <= x < n.value.baseline + Pow2(n.value.numBits) <= e.tableSize
  }

  ghost predicate CanEncodeAll(e: EncodingTable, data: seq<nat>) {
    forall s :: s in data ==> CanEncode(e, s)
  }

  /** The transition that emits `s` before continuing with state `x`: the new
      state and the bits that lead back to `x`. */
  ghost function Step(e: EncodingTable, s: nat, x: nat): (r: (seq<bool>, nat))
    requires CanEncode(e, s) && x < e.tableSize
    ensures r.1 < e.tableSize
  {
    assert CanStep(e, s, x);
    var n := NextState(e, s, x).value;
    (BitsOf(x - n.baseline, n.numBits), n.index)
  }

  ghost function Start(e: EncodingTable, s: nat): (x: nat)
    requires CanEncode(e, s)
    ensures x < e.tableSize
  {
    StartState(e, s).value.index
  }

  /** Encoding runs from the last symbol to the first. */
  ghost function Coded(e: EncodingTable, data: seq<nat>): (r: (seq<bool>, nat))
    requires |data| > 0 && CanEncodeAll(e, data)
    ensures r.1 < e.tableSize
  {
    assert data[0] in data;
    if |data| == 1 then
      ([], Start(e, data[0]))
    else
      var (b, x) := Coded(e, data[1..]);
      var (f, n) := Step(e, data[0], x);
      (b + f, n)
  }

  /** Transitions of the table stay inside the table. */
  ghost predicate Closed(d: seq<Entry>) {
    forall c :: 0 <= c < |d| ==> d[c].baseLine + Pow2(d[c].numBits) <= |d|
  }

  /** The decoder's transition from state `x`. */
  ghost function Follow(d: seq<Entry>, b: seq<bool>, pos: int, x: nat): (r: nat)
    requires x < |d| && Closed(d)
    ensures r < |d|
  {
    ReadBackBound(b, pos, d[x].numBits);
    d[x].baseLine + ReadBack(b, pos, d[x].numBits)
  }

  /** Decoding `n` symbols from state `x`, with a transition between any two. */
  ghost function Decoded(d: seq<Entry>, b: seq<bool>, pos: int, x: nat, n: nat): (r: (seq<nat>, int))
    requires x < |d| && Closed(d) && n > 0
    ensures |r.0| == n
    decreases n
  {
    if n == 1 then
      ([d[x].symbol], pos)
    else
      var (s, p) := Decoded(d, b, pos - d[x].numBits, Follow(d, b, pos, x), n - 1);
      ([d[x].symbol] + s, p)
  }

  /** What one table pair must provide for the symbols of `data`. */
  ghost predicate TablesFor(e: EncodingTable, d: seq<Entry>, k: nat, data: seq<nat>) {
    Closed(d) && |d| == e.tableSize == Pow2(k) && forall s :: s in data ==> Agree(e, d, k, s)
  }

  lemma AgreeCanEncode(e: EncodingTable, d: seq<Entry>, k: nat, s: nat)
    requires Agree(e, d, k, s) && Closed(d)
    ensures CanEncode(e, s)
  {
    hide NextState, StartState, Pow2;
    forall x | 0 <= x < e.tableSize
      ensures CanStep(e, s, x)
    {
      assert Transition(e, d, s, x);
    }
  }

  lemma TablesCanEncode(e: EncodingTable, d: seq<Entry>, k: nat, data: seq<nat>)
    requires TablesFor(e, d, k, data)
    ensures CanEncodeAll(e, data)
  {
    hide CanEncode, Agree, Closed;
    forall s | s in data
      ensures CanEncode(e, s)
    {
      AgreeCanEncode(e, d, k, s);
    }
  }

  /** One transition, there and back. */
  lemma StepBack(e: EncodingTable, d: seq<Entry>, k: nat, s: nat, x: nat, prefix: seq<bool>, suffix: seq<bool>)
    requires Agree(e, d, k, s) && Closed(d) && x < e.tableSize && CanEncode(e, s)
    ensures var (f, n) := Step(e, s, x);
      && n < |d| && d[n].symbol == s && d[n].numBits == |f|
      && Follow(d, prefix + f + suffix, |prefix| + |f|, n) == x
  {
    hide NextState, StartState, Pow2, ReadBack, BitsOf;
    assert Transition(e, d, s, x);
    var n := NextState(e, s, x).value;
    ReadBackLast(prefix, x - n.baseline, n.numBits, suffix);
  }

  /** Decoding undoes encoding, symbol by symbol, and consumes exactly the bits
      that were written. */
  lemma {:induction false} StreamRoundTrip(e: EncodingTable, d: seq<Entry>, k: nat, data: seq<nat>, prefix: seq<bool>, suffix: seq<bool>)
    requires |data| > 0 && TablesFor(e, d, k, data) && CanEncodeAll(e, data)
    ensures var (b, x) := Coded(e, data);
      Decoded(d, prefix + b + suffix, |prefix| + |b|, x, |data|) == (data, |prefix|)
  {
    hide NextState, StartState, Pow2, ReadBack, BitsOf, Step, Follow, CanEncode, Agree, Closed;
    var s := data[0];
    assert s in data;
    if |data| == 1 {
      StartMatches(e, d, k, s);
      assert data == [s];
    } else {
      var rest := data[1..];
      var (b, x) := Coded(e, rest);
      var (f, n) := Step(e, s, x);
      StepBack(e, d, k, s, x, prefix + b, suffix);
      StreamRoundTrip(e, d, k, rest, prefix, f + suffix);
      Join4(prefix, b, f, suffix);
      assert data == [s] + rest;
    }
  }

  lemma StartMatches(e: EncodingTable, d: seq<Entry>, k: nat, s: nat)
    requires Agree(e, d, k, s) && CanEncode(e, s)
    ensures Start(e, s) < |d| && d[Start(e, s)].symbol == s
  {
    hide NextState, Transition, Pow2;
  }

  // ----- two interleaved states -----

  /** Symbols alternate between two states. The result names the states of the
      first and of the second symbol. */
  ghost function CodedTwo(e: EncodingTable, data: seq<nat>): (r: (seq<bool>, nat, nat))
    requires |data| > 1 && CanEncodeAll(e, data)
    ensures r.1 < e.tableSize && r.2 < e.tableSize
  {
    assert data[0] in data && data[1] in data;
    if |data| == 2 then
      ([], Start(e, data[0]), Start(e, data[1]))
    else
      var (b, x, y) := CodedTwo(e, data[1..]);
      var (f, n) := Step(e, data[0], y);
      (b + f, n, x)
  }

  /** The alternating decoder: it stops once a transition had to read beyond the
      beginning, then the other state holds the last symbol. `None` when it gives
      up, with 256 symbols and no end in sight. */
  ghost function DecodedTwo(d: seq<Entry>, b: seq<bool>, pos: int, x: nat, y: nat, done: nat): (r: Option<seq<nat>>)
    requires x < |d| && y < |d| && Closed(d) && done <= 256
    ensures r.Some? ==> |r.value| >= 2
    decreases 256 - done
  {
    if done == 256 then
      None
    else
      var pos' := pos - d[x].numBits;
      if pos' <= -1 then
        Some([d[x].symbol, d[y].symbol])
      else
        var rest := DecodedTwo(d, b, pos', y, Follow(d, b, pos, x), done + 1);
        if rest.None? then None else Some([d[x].symbol] + rest.value)
  }

  /** Up to 256 symbols survive, their number even or odd, exactly when the end
      can be recognised: the start state of the last symbol but one has to read
      at least one bit. */
  lemma {:induction false} TwoStatesRoundTrip(e: EncodingTable, d: seq<Entry>, k: nat, data: seq<nat>, suffix: seq<bool>, done: nat)
    requires |data| > 1 && done + |data| <= 256 && TablesFor(e, d, k, data) && CanEncodeAll(e, data)
    ensures var (b, x, y) := CodedTwo(e, data);
      DecodedTwo(d, b + suffix, |b|, x, y, done) == Some(data)
      <==> d[LastStart(e, data)].numBits >= 1
    decreases |data|
  {
    hide NextState, StartState, Pow2, ReadBack, BitsOf, Step, Follow, CanEncode, Agree, Closed;
    var s := data[0];
    assert s in data;
    if |data| == 2 {
      assert data[1] in data;
      StartMatches(e, d, k, s);
      StartMatches(e, d, k, data[1]);
      assert data == [s, data[1]];
    } else {
      var rest := data[1..];
      var (b, x, y) := CodedTwo(e, rest);
      var (f, n) := Step(e, s, y);
      StepBack(e, d, k, s, y, b, suffix);
      TwoStatesRoundTrip(e, d, k, rest, f + suffix, done + 1);
      assert b + f + suffix == b + (f + suffix);
      assert data == [s] + rest;
      Prepend(s, DecodedTwo(d, b + f + suffix, |b|, x, y, done + 1), rest);
    }
  }

  ghost function LastStart(e: EncodingTable, data: seq<nat>): (x: nat)
    requires |data| > 1 && CanEncodeAll(e, data)
    ensures x < e.tableSize
  {
    assert data[|data| - 2] in data;
    Start(e, data[|data| - 2])
  }

  lemma Prepend(s: nat, r: Option<seq<nat>>, t: seq<nat>)
    ensures r.Some? ==> ([s] + r.value == [s] + t <==> r.value == t)
  {
    assert r.Some? ==> ([s] + r.value)[1..] == r.value;
    assert ([s] + t)[1..] == t;
  }

  // ----- the tables of one distribution -----

  /** All symbols of `data` occur in the distribution. */
  ghost predicate Occur(probs: seq<int>, data: seq<nat>) {
    forall i :: 0 <= i < |data| ==> data[i] < |probs| && probs[data[i]] != 0
  }

  lemma DistributionTables(probs: seq<int>, k: nat, data: seq<nat>)
    requires ValidProbs(probs, k)
    requires Occur(probs, data)
    ensures TablesFor(EncodeTable(probs, k), DecodeTable(probs, k), k, data)
  {
    hide Agree, DecodeTable, EncodeTable;
    TableClosed(probs, k);
    forall s | s in data
      ensures Agree(EncodeTable(probs, k), DecodeTable(probs, k), k, s)
    {
      TablesAgree(probs, k, s);
    }
    EncodeTableSize(probs, k);
  }

  lemma EncodeTableSize(probs: seq<int>, k: nat)
    requires ValidProbs(probs, k)
    ensures EncodeTable(probs, k).tableSize == Pow2(k)
  {
  }

  lemma TableClosed(probs: seq<int>, k: nat)
    requires ValidProbs(probs, k)
    ensures Closed(DecodeTable(probs, k))
  {
    hide DecodeTable, Pow2;
    forall c | 0 <= c < Pow2(k)
      ensures DecodeTable(probs, k)[c].baseLine + Pow2(DecodeTable(probs, k)[c].numBits) <= Pow2(k)
    {
      EntryBitsBound(probs, k, c);
    }
  }

  /** For the tables of a distribution: the alternating decoder recovers the data
      if and only if the last symbol but one owns at most half of the table. */
  lemma DistributionTwoStates(probs: seq<int>, k: nat, data: seq<nat>, suffix: seq<bool>)
    requires ValidProbs(probs, k) && 2 <= |data| <= 256
    requires Occur(probs, data)
    ensures var e, d := EncodeTable(probs, k), DecodeTable(probs, k);
      && TablesFor(e, d, k, data) && CanEncodeAll(e, data)
      && var (b, x, y) := CodedTwo(e, data);
        DecodedTwo(d, b + suffix, |b|, x, y, 0) == Some(data) <==> probs[data[|data| - 2]] <= Pow2(k - 1)
  {
    hide DecodeTable, EncodeTable, TablesFor, CanEncodeAll, CodedTwo, DecodedTwo, Pow2;
    var e, d := EncodeTable(probs, k), DecodeTable(probs, k);
    DistributionTables(probs, k, data);
    TablesCanEncode(e, d, k, data);
    TwoStatesRoundTrip(e, d, k, data, suffix, 0);
    StartReads(probs, k, data[|data| - 2]);
  }

  /** Two symbols, the first with 17 of 32 cells: the decoder misses the end. */
  lemma TwoStatesCounterexample(suffix: seq<bool>)
    ensures var probs, data: seq<nat> := [17, 15], [0, 1];
      && ValidProbs(probs, 5) && CanEncodeAll(EncodeTable(probs, 5), data)
      && var (b, x, y) := CodedTwo(EncodeTable(probs, 5), data);
        && Closed(DecodeTable(probs, 5)) && EncodeTable(probs, 5).tableSize == |DecodeTable(probs, 5)|
        && DecodedTwo(DecodeTable(probs, 5), b + suffix, |b|, x, y, 0) != Some(data)
  {
    hide DecodeTable, EncodeTable, CanEncodeAll, CodedTwo, DecodedTwo;
    var probs, data: seq<nat> := [17, 15], [0, 1];
    Pow2Values();
    SumOfTwo(17, 15);
    DistributionTwoStates(probs, 5, data, suffix);
  }

  lemma SumOfTwo(p: nat, q: nat)
    ensures Before([p, q], 2) == p + q && NegBefore([p, q], 2) == 0
  {
    assert Before([p, q], 1) == p + Before([p, q], 0);
    assert NegBefore([p, q], 1) == 0;
  }

  lemma StartReads(probs: seq<int>, k: nat, s: nat)
    requires ValidProbs(probs, k) && s < |probs| && probs[s] != 0
    ensures CanEncode(EncodeTable(probs, k), s)
    ensures DecodeTable(probs, k)[Start(EncodeTable(probs, k), s)].numBits >= 1 <==> probs[s] <= Pow2(k - 1)
  {
    hide DecodeTable, Agree, CanEncode, Pow2, RangeBits, Matches, Closed;
    TablesAgree(probs, k, s);
    TableClosed(probs, k);
    AgreeCanEncode(EncodeTable(probs, k), DecodeTable(probs, k), k, s);
    EveryStateMatches(probs, k, s, 0);
    MatchedBits(DecodeTable(probs, k), s, StatesOf(probs, k, s).states[0]);
    if probs[s] > 0 {
      SlotBound(probs, k, s);
      ZeroBitsIff(k, probs[s]);
    }
  }

  lemma MatchedBits(d: seq<Entry>, s: nat, st: State)
    requires Matches(d, s, st)
    ensures st.index < |d| && d[st.index].numBits == st.numBits
  {
  }
}
