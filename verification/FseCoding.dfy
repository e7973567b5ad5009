/** The FSE encoder and decoder as they run: writing into a bit writer, reading
    from a backward reader. */
module FseCoding {
  import opened Concatenation
  import opened Numbers
  import opened Bits
  import opened Results
  import opened BitWriting
  import opened BackwardReading
  import opened FseDistribution
  import opened FseAgreement
  import opened FseStream

  const MAX_LOG: nat := 22

  /** The encoder's own view of its table size. */
  function AccLog(e: EncodingTable): nat
    requires e.tableSize > 0
  {
    Log2(e.tableSize)
  }

  ghost predicate Usable(e: EncodingTable, data: seq<nat>) {
    CanEncodeAll(e, data) && 0 < e.tableSize <= Pow2(MAX_LOG) && IsPow2(e.tableSize)
  }

  // ----- encoding -----

  /** One transition: write the offset of the old index in the new state's range. */
  method WriteStep(writer: BitWriter, e: EncodingTable, symbol: nat, state: State) returns (next: State)
    requires writer.Valid() && CanEncode(e, symbol) && state.index < e.tableSize <= Pow2(MAX_LOG)
    modifies writer
    ensures writer.Valid() && next.index < e.tableSize
    ensures writer.Contents() == old(writer.Contents()) + Step(e, symbol, state.index).0
    ensures next.index == Step(e, symbol, state.index).1
  {
    hide NextState, StartState, BitsOf, BytesToBits, Pow2, BitWriter.Contents, BitWriter.Valid;
    assert CanStep(e, symbol, state.index);
    next := NextState(e, symbol, state.index).value;
    var diff := state.index - next.baseline;
    Pow2Reflects(next.numBits, MAX_LOG);
    writer.WriteBits(diff, next.numBits);
  }

  method WriteState(writer: BitWriter, e: EncodingTable, state: State)
    requires writer.Valid() && state.index < e.tableSize <= Pow2(MAX_LOG) && IsPow2(e.tableSize)
    modifies writer
    ensures writer.Valid()
    ensures writer.Contents() == old(writer.Contents()) + BitsOf(state.index, AccLog(e))
  {
    hide BitsOf, BytesToBits, Pow2, BitWriter.Contents, BitWriter.Valid;
    Pow2Reflects(AccLog(e), MAX_LOG);
    writer.WriteBits(state.index, AccLog(e));
  }

  /** Fill the last byte with a one and zeros; add such a byte when none is open. */
  method WriteMarker(writer: BitWriter)
    requires writer.Valid()
    modifies writer
    ensures writer.Valid()
    ensures writer.Contents() == WithMarker(old(writer.Contents()))
  {
    hide BitsOf, BytesToBits, BitWriter.Contents, BitWriter.Valid;
    Pow2Values();
    var bitsToFill := writer.Misaligned();
    if bitsToFill == 0 {
      writer.WriteBits(1, 8);
    } else {
      Pow2Mono(1, bitsToFill);
      writer.WriteBits(1, bitsToFill);
    }
  }

  /** The data with one state, the final state, the marker. */
  method EncodeSymbols(writer: BitWriter, e: EncodingTable, data: seq<nat>)
    requires writer.Valid() && |data| > 0 && Usable(e, data)
    modifies writer
    ensures writer.Valid()
    ensures var (b, x) := Coded(e, data);
      writer.Contents() == WithMarker(old(writer.Contents()) + b + BitsOf(x, AccLog(e)))
  {
    hide CanEncode, NextState, BitsOf, BytesToBits, Pow2, Step, IsPow2, WithMarker, BitWriter.Contents,
      BitWriter.Valid;
    ghost var start := writer.Contents();
    assert data[|data| - 1] in data;
    var state := FirstState(e, data[|data| - 1]);
    for i := |data| - 1 downto 0
      invariant writer.Valid() && state.index == Coded(e, data[i..]).1
      invariant writer.Contents() == start + Coded(e, data[i..]).0
    {
      assert data[i] in data && data[i..][1..] == data[i + 1..];
      state := WriteStep(writer, e, data[i], state);
    }
    assert data[0..] == data;
    WriteState(writer, e, state);
    WriteMarker(writer);
  }

  method FirstState(e: EncodingTable, symbol: nat) returns (state: State)
    requires CanEncode(e, symbol)
    ensures state.index == Start(e, symbol) < e.tableSize
  {
    state := StartState(e, symbol).value;
  }

  /** The data with two alternating states, both final states, the marker. At
      least four symbols, as the loop starts at the fourth from the end. */
  method EncodeInterleavedSymbols(writer: BitWriter, e: EncodingTable, data: seq<nat>)
    requires writer.Valid() && |data| >= 4 && Usable(e, data)
    modifies writer
    ensures writer.Valid()
    ensures var (b, x, y) := CodedTwo(e, data);
      writer.Contents() == WithMarker(old(writer.Contents()) + b + BitsOf(y, AccLog(e)) + BitsOf(x, AccLog(e)))
  {
    hide CanEncode, NextState, BitsOf, BytesToBits, Pow2, Step, IsPow2, WithMarker, CodedTwo, BitWriter.Contents,
      BitWriter.Valid;
    ghost var start := writer.Contents();
    var n := |data|;
    TwoBase(e, data);
    var state1 := FirstState(e, data[n - 1]);
    var state2 := FirstState(e, data[n - 2]);
    var idx := n - 4;
    while true
      invariant 0 <= idx <= n - 4 && writer.Valid()
      invariant CodedTwo(e, data[idx + 2..]).1 == state2.index && CodedTwo(e, data[idx + 2..]).2 == state1.index
      invariant writer.Contents() == start + CodedTwo(e, data[idx + 2..]).0
      decreases idx
    {
      TwoStep(e, data, idx + 1);
      state1 := WriteStep(writer, e, data[idx + 1], state1);
      TwoStep(e, data, idx);
      state2 := WriteStep(writer, e, data[idx], state2);
      if idx < 2 {
        break;
      }
      idx := idx - 2;
    }
    assert data[0..] == data;
    if idx == 1 {
      TwoStep(e, data, 0);
      state1 := WriteStep(writer, e, data[0], state1);
      assert writer.Contents() == start + CodedTwo(e, data).0;
      WriteState(writer, e, state2);
      WriteState(writer, e, state1);
    } else {
      assert writer.Contents() == start + CodedTwo(e, data).0;
      WriteState(writer, e, state1);
      WriteState(writer, e, state2);
    }
    WriteMarker(writer);
  }

  lemma TwoBase(e: EncodingTable, data: seq<nat>)
    requires CanEncodeAll(e, data) && |data| >= 2
    ensures var n := |data|;
      && data[n - 1] in data && data[n - 2] in data
      && CodedTwo(e, data[n - 2..]) == ([], Start(e, data[n - 2]), Start(e, data[n - 1]))
  {
    assert data[|data| - 2..] == [data[|data| - 2], data[|data| - 1]];
  }

  lemma TwoStep(e: EncodingTable, data: seq<nat>, i: nat)
    requires CanEncodeAll(e, data) && i + 2 < |data|
    ensures data[i] in data
    ensures var (b, x, y) := CodedTwo(e, data[i + 1..]);
      CodedTwo(e, data[i..]) == (b + Step(e, data[i], y).0, Step(e, data[i], y).1, x)
  {
    hide CanEncode, Step;
    assert data[i..][1..] == data[i + 1..] && data[i..][0] == data[i];
  }

  // ----- decoding -----

  datatype FseDecoderError = TableIsUninitialized

  /** A decoding table is empty or has the size its accuracy log says. */
  ghost predicate FitsLog(decode: seq<Entry>, accuracyLog: nat) {
    Closed(decode) && accuracyLog <= MAX_LOG && (accuracyLog > 0 ==> |decode| == Pow2(accuracyLog))
  }

  /** A decoder standing on one entry of its table. */
  class FseDecoder {
    const decode: seq<Entry>
    const accuracyLog: nat
    var state: Entry
    ghost var index: nat

    ghost predicate Valid()
      reads this
    {
      FitsLog(decode, accuracyLog) && accuracyLog > 0 && index < |decode| && state == decode[index]
    }

    /** Also for a table that was never built; such a decoder does not start. */
    constructor (decode: seq<Entry>, accuracyLog: nat)
      requires FitsLog(decode, accuracyLog)
      ensures this.decode == decode && this.accuracyLog == accuracyLog
    {
      this.decode := decode;
      this.accuracyLog := accuracyLog;
      state := if decode == [] then Entry(0, 0, 0) else decode[0];
      index := 0;
    }

    function DecodeSymbol(): nat
      reads this
    {
      state.symbol
    }

    /** Read the first state. */
    method InitState(br: BitReaderReversed) returns (r: Result<(), FseDecoderError>)
      requires FitsLog(decode, accuracyLog) && br.Valid()
      modifies this, br
      ensures br.Valid()
      ensures accuracyLog == 0 ==> r == Err(TableIsUninitialized)
      ensures accuracyLog > 0 ==> Valid() && r == Ok(()) && index == ReadBack(br.Bits(), old(br.BitsRemaining()), accuracyLog)
      ensures br.BitsRemaining() == old(br.BitsRemaining()) - accuracyLog
    {
      hide ReadBack, Consistent, Pow2, Remaining, BitReaderReversed.Valid, BitReaderReversed.Bits,
        BitReaderReversed.BitsRemaining;
      if accuracyLog == 0 {
        return Err(TableIsUninitialized);
      }
      ReadBackBound(br.Bits(), br.BitsRemaining(), accuracyLog);
      var newState := br.GetBits(accuracyLog);
      state := decode[newState];
      index := newState;
      r := Ok(());
    }

    /** Follow one transition. */
    method UpdateState(br: BitReaderReversed)
      requires Valid() && br.Valid()
      modifies this, br
      ensures Valid() && br.Valid()
      ensures index == Follow(decode, br.Bits(), old(br.BitsRemaining()), old(index))
      ensures br.BitsRemaining() == old(br.BitsRemaining()) - old(state.numBits)
    {
      hide ReadBack, Consistent, Pow2, Remaining, BitReaderReversed.Valid, BitReaderReversed.Bits,
        BitReaderReversed.BitsRemaining;
      assert decode[index].baseLine + Pow2(decode[index].numBits) <= |decode|;
      Pow2Mono(accuracyLog, MAX_LOG);
      Pow2Reflects(state.numBits, MAX_LOG);
      ReadBackBound(br.Bits(), br.BitsRemaining(), state.numBits);
      var add := br.GetBits(state.numBits);
      var newState := state.baseLine + add;
      state := decode[newState];
      index := newState;
    }
  }

  /** As many symbols as asked for, with a transition between any two. */
  method DecodeSymbols(dec: FseDecoder, br: BitReaderReversed, n: nat) returns (data: seq<nat>)
    requires dec.Valid() && br.Valid() && n > 0
    modifies dec, br
    ensures dec.Valid() && br.Valid()
    ensures (data, br.BitsRemaining()) == Decoded(dec.decode, br.Bits(), old(br.BitsRemaining()), old(dec.index), n)
  {
    hide ReadBack, Consistent, Pow2, Remaining, Follow, Closed, BitReaderReversed.Valid, BitReaderReversed.Bits,
      BitReaderReversed.BitsRemaining;
    ghost var d, b := dec.decode, br.Bits();
    ghost var all := Decoded(d, b, br.BitsRemaining(), dec.index, n);
    data := [];
    assert [] + all.0 == all.0;
    while |data| < n
      invariant dec.Valid() && br.Valid() && |data| <= n
      invariant |data| < n ==> all == Continued(data, Decoded(d, b, br.BitsRemaining(), dec.index, n - |data|))
      invariant |data| == n ==> all == (data, br.BitsRemaining())
    {
      ghost var before := data;
      data := data + [dec.DecodeSymbol()];
      if |data| < n {
        Join3(before, [dec.state.symbol], Decoded(d, b, br.BitsRemaining() - dec.state.numBits, Follow(d, b, br.BitsRemaining(), dec.index), n - |data|).0);
        dec.UpdateState(br);
      }
    }
  }

  ghost function Continued(w: seq<nat>, rest: (seq<nat>, int)): (seq<nat>, int) {
    (w + rest.0, rest.1)
  }

  datatype WeightsError = TooManyWeights(got: nat)

  /** Two decoders taking turns until the stream is overdrawn. */
  method DecodeInterleaved(dec1: FseDecoder, dec2: FseDecoder, br: BitReaderReversed)
    returns (r: Result<seq<nat>, WeightsError>)
    requires dec1.Valid() && dec2.Valid() && br.Valid() && dec1 != dec2 && dec1.decode == dec2.decode
    modifies dec1, dec2, br
    ensures dec1.Valid() && dec2.Valid() && br.Valid()
    ensures var all := DecodedTwo(dec1.decode, br.Bits(), old(br.BitsRemaining()), old(dec1.index), old(dec2.index), 0);
      if all.Some? then r == Ok(all.value) else r == Err(TooManyWeights(256))
  {
    hide ReadBack, Consistent, Pow2, Remaining, Follow, Closed, DecodedTwo, Joined, BitReaderReversed.Valid,
      BitReaderReversed.Bits, BitReaderReversed.BitsRemaining;
    ghost var d, b := dec1.decode, br.Bits();
    ghost var all := DecodedTwo(d, b, br.BitsRemaining(), dec1.index, dec2.index, 0);
    var weights: seq<nat> := [];
    JoinedNothing(all);
    while true
      invariant dec1.Valid() && dec2.Valid() && br.Valid()
      invariant |weights| < 256 && |weights| % 2 == 0
      invariant all == Joined(weights, DecodedTwo(d, b, br.BitsRemaining(), dec1.index, dec2.index, |weights|))
      decreases 256 - |weights|
    {
      TurnStep(weights, d, b, br.BitsRemaining(), dec1.index, dec2.index);
      weights := weights + [dec1.DecodeSymbol()];
      dec1.UpdateState(br);
      if br.BitsRemaining() <= -1 {
        weights := weights + [dec2.DecodeSymbol()];
        return Ok(weights);
      }
      TurnStep(weights, d, b, br.BitsRemaining(), dec2.index, dec1.index);
      weights := weights + [dec2.DecodeSymbol()];
      dec2.UpdateState(br);
      if br.BitsRemaining() <= -1 {
        weights := weights + [dec1.DecodeSymbol()];
        return Ok(weights);
      }
      if |weights| > 255 {
        return Err(TooManyWeights(|weights|));
      }
    }
  }

  ghost function Joined(w: seq<nat>, rest: Option<seq<nat>>): Option<seq<nat>> {
    if rest.None? then None else Some(w + rest.value)
  }

  lemma JoinedNothing(r: Option<seq<nat>>)
    ensures Joined([], r) == r
  {
    assert r.Some? ==> [] + r.value == r.value;
  }

  /** One turn of the state `x`, seen from the symbols collected so far. */
  lemma TurnStep(w: seq<nat>, d: seq<Entry>, b: seq<bool>, pos: int, x: nat, y: nat)
    requires x < |d| && y < |d| && Closed(d) && |w| < 256
    ensures var pos' := pos - d[x].numBits;
      Joined(w, DecodedTwo(d, b, pos, x, y, |w|)) ==
      if pos' <= -1 then Some(w + [d[x].symbol] + [d[y].symbol])
      else Joined(w + [d[x].symbol], DecodedTwo(d, b, pos', y, Follow(d, b, pos, x), |w| + 1))
    ensures |w| == 255 ==> Joined(w + [d[x].symbol], DecodedTwo(d, b, pos - d[x].numBits, y, Follow(d, b, pos, x), |w| + 1)) == None
  {
    hide Follow, Closed;
    var rest := DecodedTwo(d, b, pos - d[x].numBits, y, Follow(d, b, pos, x), |w| + 1);
    assert [d[x].symbol, d[y].symbol] == [d[x].symbol] + [d[y].symbol];
    Join3(w, [d[x].symbol], [d[y].symbol]);
    if rest.Some? {
      Join3(w, [d[x].symbol], rest.value);
    }
  }
}
