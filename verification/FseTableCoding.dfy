/** Writing and reading table descriptions, and the whole FSE round trip: table
    and data through one byte stream. */
module FseTableCoding {
  import opened Concatenation
  import opened Numbers
  import opened Bits
  import opened Results
  import opened BitWriting
  import opened ForwardReading
  import opened FseDistribution
  import opened FseDecodingTable
  import opened FseDescription

  // ----- writing -----

  function ProbsOf(e: EncodingTable): (ps: seq<int>)
    ensures |ps| == |e.states|
  {
    seq(|e.states|, s requires 0 <= s < |e.states| => e.states[s].probability)
  }

  /** Accuracy log and fields, before padding. */
  function Description(ps: seq<int>, k: nat): seq<bool>
    requires k >= 5 && Probabilities(ps) && WeightFrom(ps, 0) == Pow2(k)
  {
    BitsOf(k - 5, 4) + Described(ps, 0, Pow2(k))
  }

  /** Zeros up to the next byte border. */
  function Aligned(b: seq<bool>): (r: seq<bool>)
    ensures |r| % 8 == 0
  {
    b + Zeros(Misalignment(|b|))
  }

  ghost predicate Describable(e: EncodingTable, k: nat) {
    && 5 <= k <= 20 && e.tableSize == Pow2(k) && |e.states| == 256
    && Probabilities(ProbsOf(e)) && WeightFrom(ProbsOf(e), 0) == Pow2(k)
  }

  lemma FieldBounds(value: nat, r: nat)
    requires 1 <= r <= Pow2(20) && value <= r + 1
    ensures 2 <= FieldWidth(r) <= 21
    ensures var w, low := FieldWidth(r), LowThreshold(r);
      && (value < low ==> value < Pow2(w - 1))
      && (value > Pow2(w - 1) - 1 ==> value + low < Pow2(w))
      && value < Pow2(w)
  {
    hide FieldWidth;
    var w := FieldWidth(r);
    assert Pow2(w - 1) <= r + 1;
    Pow2Mono(0, 20);
    if w > 21 {
      Pow2Mono(21, w - 1);
    }
  }

  method WriteField(writer: BitWriter, value: nat, r: nat)
    requires writer.Valid() && 1 <= r <= Pow2(20) && value <= r + 1
    modifies writer
    ensures writer.Valid() && writer.Contents() == old(writer.Contents()) + Field(value, r)
  {
    hide BitsOf, BytesToBits, Pow2, BitWriter.Contents, BitWriter.Valid;
    FieldBounds(value, r);
    var maxRemaining := r + 1;
    var bitsToWrite := Log2(maxRemaining) + 1;
    var lowThreshold := (Pow2(bitsToWrite) - 1) - maxRemaining;
    var mask := Pow2(bitsToWrite - 1) - 1;
    if value < lowThreshold {
      writer.WriteBits(value, bitsToWrite - 1);
    } else if value > mask {
      writer.WriteBits(value + lowThreshold, bitsToWrite);
    } else {
      writer.WriteBits(value, bitsToWrite);
    }
  }

  /** Count the zeros from `i` on, writing a 3 for every three of them. */
  method WriteZeroRun(writer: BitWriter, e: EncodingTable, i: nat) returns (next: nat)
    requires writer.Valid() && i <= |e.states| && WeightFrom(ProbsOf(e), i) > 0
    modifies writer
    ensures writer.Valid() && next == i + ZeroRun(ProbsOf(e), i)
    ensures writer.Contents() == old(writer.Contents()) + ZeroRunBits(ZeroRun(ProbsOf(e), i))
  {
    hide BitsOf, BytesToBits, WeightFrom, ZeroRunBits, ZeroRun, BitWriter.Contents, BitWriter.Valid;
    Pow2Values();
    ghost var ps := ProbsOf(e);
    ghost var start, run := writer.Contents(), ZeroRun(ps, i);
    ghost var written: seq<bool> := [];
    var zeros: nat := 0;
    next := i;
    WeightNeedsSymbol(ps, i);
    while e.states[next].probability == 0
      invariant writer.Valid() && i <= next <= i + run < |ps| && zeros < 3 && run - (next - i) == ZeroRun(ps, next)
      invariant writer.Contents() == start + written
      invariant written + ZeroRunBits(zeros + ZeroRun(ps, next)) == ZeroRunBits(run)
      decreases |ps| - next
    {
      OneZero(ps, next);
      zeros := zeros + 1;
      next := next + 1;
      if zeros == 3 {
        RunBitsStep(ZeroRun(ps, next), written);
        Join3(start, written, BitsOf(3, 2));
        writer.WriteBits(3, 2);
        written := written + BitsOf(3, 2);
        zeros := 0;
      }
    }
    OneZero(ps, next);
    RunBitsEnd(zeros);
    writer.WriteBits(zeros, 2);
  }

  lemma WeightNeedsSymbol(ps: seq<int>, i: nat)
    requires i <= |ps| && WeightFrom(ps, i) > 0
    ensures i + ZeroRun(ps, i) < |ps|
  {
  }

  lemma OneZero(ps: seq<int>, i: nat)
    requires i < |ps|
    ensures ZeroRun(ps, i) == if ps[i] == 0 then 1 + ZeroRun(ps, i + 1) else 0
  {
  }

  lemma RunBitsStep(z: nat, written: seq<bool>)
    ensures written + ZeroRunBits(3 + z) == written + BitsOf(3, 2) + ZeroRunBits(z)
  {
    hide BitsOf;
    assert ZeroRunBits(3 + z) == BitsOf(3, 2) + ZeroRunBits(z);
  }

  lemma RunBitsEnd(z: nat)
    requires z < 3
    ensures ZeroRunBits(z) == BitsOf(z, 2)
  {
  }

  /** From symbol `i` with `r` cells left to `next`, having counted some of them and
      written `chunk` behind `done`. */
  ghost predicate Progress(ps: seq<int>, i: nat, r: nat, next: nat, counted: nat, done: seq<bool>, chunk: seq<bool>) {
    && i < next <= |ps| && Probabilities(ps) && counted <= r && WeightFrom(ps, next) == r - counted
    && r >= 1 && r == WeightFrom(ps, i)
    && done + Described(ps, i, r) == (done + chunk) + Described(ps, next, r - counted)
  }

  lemma ZeroProgress(ps: seq<int>, i: nat, done: seq<bool>)
    requires Probabilities(ps) && i < |ps| && ps[i] == 0 && WeightFrom(ps, i) >= 1
    ensures var r, z := WeightFrom(ps, i), ZeroRun(ps, i + 1);
      Progress(ps, i, r, i + 1 + z, 0, done, Field(1, r) + ZeroRunBits(z))
  {
    hide Described, Field, ZeroRunBits;
    var r, z := WeightFrom(ps, i), ZeroRun(ps, i + 1);
    DescribedZero(ps, i, r);
    Join3(done, Field(1, r) + ZeroRunBits(z), Described(ps, i + 1 + z, r));
    Join3(Field(1, r), ZeroRunBits(z), Described(ps, i + 1 + z, r));
  }

  lemma ValueProgress(ps: seq<int>, i: nat, done: seq<bool>)
    requires Probabilities(ps) && i < |ps| && ps[i] != 0 && WeightFrom(ps, i) >= 1
    ensures var r := WeightFrom(ps, i);
      Weight(ps[i]) <= r && Progress(ps, i, r, i + 1, Weight(ps[i]), done, Field(ps[i] + 1, r))
  {
    hide Described, Field;
    var r := WeightFrom(ps, i);
    WeightHead(ps, i);
    DescribedValue(ps, i, r);
    Join3(done, Field(ps[i] + 1, r), Described(ps, i + 1, r - Weight(ps[i])));
  }

  /** One symbol, with the zeros behind it if its probability is zero: the next
      symbol to write and the cells accounted for. */
  method WriteProbability(writer: BitWriter, e: EncodingTable, i: nat, r: nat, ghost done: seq<bool>)
    returns (next: nat, counted: nat, ghost chunk: seq<bool>)
    requires writer.Valid() && Probabilities(ProbsOf(e)) && i <= |e.states|
    requires r == WeightFrom(ProbsOf(e), i) && 1 <= r <= Pow2(20)
    modifies writer
    ensures writer.Valid() && writer.Contents() == old(writer.Contents()) + chunk
    ensures Progress(ProbsOf(e), i, r, next, counted, done, chunk)
  {
    hide BitsOf, BytesToBits, Pow2, Described, Field, ZeroRunBits, EndOf, Progress, ZeroRun, BitWriter.Contents,
      BitWriter.Valid;
    ghost var ps, start := ProbsOf(e), writer.Contents();
    WeightHead(ps, i);
    var prob := e.states[i].probability;
    assert prob == ps[i];
    WriteField(writer, prob + 1, r);
    if prob == 0 {
      ZeroProgress(ps, i, done);
      next := WriteZeroRun(writer, e, i + 1);
      counted := 0;
      Join3(start, Field(1, r), ZeroRunBits(ZeroRun(ps, i + 1)));
      chunk := Field(1, r) + ZeroRunBits(ZeroRun(ps, i + 1));
    } else {
      ValueProgress(ps, i, done);
      next := i + 1;
      counted := if prob == -1 then 1 else prob;
      chunk := Field(prob + 1, r);
    }
  }

  /** The fields, one symbol after the other, until all cells are accounted for. */
  method WriteFields(writer: BitWriter, e: EncodingTable, probabilitySum: nat)
    requires writer.Valid() && Probabilities(ProbsOf(e)) && probabilitySum <= Pow2(20)
    requires WeightFrom(ProbsOf(e), 0) == probabilitySum
    modifies writer
    ensures writer.Valid() && writer.Contents() == old(writer.Contents()) + Described(ProbsOf(e), 0, probabilitySum)
  {
    hide BitsOf, BytesToBits, Pow2, Described, WeightFrom, BitWriter.Contents, BitWriter.Valid;
    ghost var start, ps := writer.Contents(), ProbsOf(e);
    ghost var all := Described(ps, 0, probabilitySum);
    var probabilityCounter: nat := 0;
    var probIdx: nat := 0;
    ghost var done: seq<bool> := [];
    Join3(start, done, all);
    while probabilityCounter < probabilitySum
      invariant writer.Valid() && probIdx <= |ps| && probabilityCounter <= probabilitySum
      invariant WeightFrom(ps, probIdx) == probabilitySum - probabilityCounter
      invariant writer.Contents() == start + done
      invariant done + Described(ps, probIdx, probabilitySum - probabilityCounter) == all
      decreases |ps| - probIdx
    {
      ghost var chunk;
      var counted: nat;
      ghost var before := done;
      probIdx, counted, chunk := WriteProbability(writer, e, probIdx, probabilitySum - probabilityCounter, done);
      probabilityCounter := probabilityCounter + counted;
      done := before + chunk;
      Join3(start, before, chunk);
    }
    DescribedEmpty(ps, probIdx, 0);
    assert done + [] == done;
  }

  /** Write the description of a table and pad to a byte border. */
  method WriteTable(writer: BitWriter, e: EncodingTable, ghost k: nat)
    requires writer.Valid() && Describable(e, k)
    modifies writer
    ensures writer.Valid()
    ensures writer.Contents() == Aligned(old(writer.Contents()) + Description(ProbsOf(e), k))
  {
    hide BitsOf, BytesToBits, Pow2, Described, Misalignment, WeightFrom, Log2, BitWriter.Contents, BitWriter.Valid;
    ghost var start, ps := writer.Contents(), ProbsOf(e);
    var accLog := Log2(e.tableSize);
    AccLogField(k);
    Pow2Mono(k, 20);
    writer.WriteBits(accLog - 5, 4);
    WriteFields(writer, e, Pow2(accLog));
    Join3(start, BitsOf(k - 5, 4), Described(ps, 0, Pow2(k)));
    assert writer.Contents() == start + Description(ps, k);
    ZeroBits(writer.Misaligned());
    writer.WriteBits(0, writer.Misaligned());
  }

  lemma AccLogField(k: nat)
    requires 5 <= k <= 20
    ensures Log2(Pow2(k)) == k && k - 5 < Pow2(4) && Pow2(k) > 0
  {
    Log2Unique(Pow2(k), k);
    Pow2Values();
  }

  lemma WeightHead(ps: seq<int>, i: nat)
    requires i <= |ps| && WeightFrom(ps, i) > 0 && Probabilities(ps)
    ensures i < |ps| && WeightFrom(ps, i) == Weight(ps[i]) + WeightFrom(ps, i + 1)
    ensures -1 <= ps[i] <= WeightFrom(ps, i)
  {
  }

  // ----- reading -----

  /** The number of bytes touched when `bits` bits were read. */
  function BytesFor(bits: nat): nat {
    if bits % 8 == 0 then bits / 8 else bits / 8 + 1
  }

  /** What the description at the beginning of `b` says. */
  function ParseDescription(b: seq<bool>): (r: Option<(seq<int>, nat, nat)>)
    ensures r.Some? ==> 5 <= r.value.1
  {
    if |b| < 4 then None else
    var k := 5 + ValOf(b[0..4]);
    var res := ReadFrom(b, 4, Pow2(k));
    if res.None? then None else Some((res.value.0, k, res.value.1))
  }

  ghost function Prepended(w: seq<int>, rest: Option<(seq<int>, nat)>): Option<(seq<int>, nat)> {
    if rest.None? then None else Some((w + rest.value.0, rest.value.1))
  }

  /** One field and, behind a zero, the run of further zeros. */
  method ReadProbability(br: BitReader, r: nat) returns (res: Result<int, GetBitsError>)
    requires br.Valid() && 1 <= r <= Pow2(20)
    modifies br
    ensures br.Valid()
    ensures var f := ReadField(br.Bits(), old(br.idx), r);
      if f.None? then res.Err? else res == Ok(f.value.0 - 1) && br.idx == f.value.1
  {
    hide ValOf, BytesToBits, And, Pow2;
    FieldBounds(0, r);
    var maxRemaining := r + 1;
    var bitsToRead := Log2(maxRemaining) + 1;
    var got := br.GetBits(bitsToRead);
    if got.Err? {
      return Err(got.error);
    }
    var unchecked := got.value;
    ghost var at := br.idx - bitsToRead;
    ValBound(br.Bits()[at..at + bitsToRead]);
    var lowThreshold := (Pow2(bitsToRead) - 1) - maxRemaining;
    var mask := Pow2(bitsToRead - 1) - 1;
    var small := And(unchecked, mask);
    if small < lowThreshold {
      br.ReturnBits(1);
      res := Ok(small - 1);
    } else if unchecked > mask {
      res := Ok(unchecked - lowThreshold - 1);
    } else {
      res := Ok(unchecked - 1);
    }
  }

  ghost function Shifted(n: nat, z: Option<(nat, nat)>): Option<(nat, nat)> {
    if z.None? then None else Some((n + z.value.0, z.value.1))
  }

  /** Two-bit counts of further zeros, continued while they are 3. */
  method SkipZeros(br: BitReader, probs: seq<int>) returns (res: Result<seq<int>, GetBitsError>)
    requires br.Valid()
    modifies br
    ensures br.Valid()
    ensures var z := ReadZeros(br.Bits(), old(br.idx));
      if z.None? then res.Err? else res == Ok(probs + seq(z.value.0, i => 0)) && br.idx == z.value.1
  {
    hide ValOf, BytesToBits;
    var out := probs;
    ghost var z, n: nat := ReadZeros(br.Bits(), br.idx), 0;
    while true
      invariant br.Valid() && out == probs + seq(n, i => 0)
      invariant z == Shifted(n, ReadZeros(br.Bits(), br.idx))
      decreases br.BitsLeft()
    {
      var got := br.GetBits(2);
      if got.Err? {
        return Err(got.error);
      }
      var skip := got.value;
      MoreZeros(probs, n, skip);
      out := out + seq(skip, i => 0);
      n := n + skip;
      if skip != 3 {
        return Ok(out);
      }
    }
  }

  lemma MoreZeros(probs: seq<int>, n: nat, m: nat)
    ensures (probs + seq(n, i => 0)) + seq(m, i => 0) == probs + seq(n + m, i => 0)
  {
  }

  /** The probabilities, until all cells of the table are accounted for. */
  method ReadAllProbabilities(br: BitReader, sum: nat) returns (res: Result<seq<int>, GetBitsError>, counter: nat)
    requires br.Valid() && sum <= Pow2(20)
    modifies br
    ensures br.Valid()
    ensures var all := ReadFrom(br.Bits(), old(br.idx), sum);
      if all.None? then res.Err? else res == Ok(all.value.0) && br.idx == all.value.1 && counter == sum
  {
    hide ValOf, BytesToBits, ReadField, ReadZeros, Pow2, ReadFrom;
    ghost var b := br.Bits();
    ghost var all := ReadFrom(b, br.idx, sum);
    var probs: seq<int> := [];
    counter := 0;
    NothingRead(all);
    while counter < sum
      invariant br.Valid() && counter <= sum
      invariant all == Prepended(probs, ReadFrom(b, br.idx, sum - counter))
      decreases br.BitsLeft()
    {
      ghost var at, r: nat := br.idx, sum - counter;
      ReadStep(b, at, r, probs);
      var got := ReadProbability(br, sum - counter);
      if got.Err? {
        return Err(got.error), counter;
      }
      var prob := got.value;
      probs := probs + [prob];
      if prob != 0 {
        if prob > 0 {
          counter := counter + prob;
        } else {
          counter := counter + 1;
        }
      } else {
        var more := SkipZeros(br, probs);
        if more.Err? {
          return Err(more.error), counter;
        }
        probs := more.value;
      }
    }
    ReadEnd(b, br.idx, probs);
    res := Ok(probs);
  }

  lemma NothingRead(r: Option<(seq<int>, nat)>)
    ensures Prepended([], r) == r
  {
    assert r.Some? ==> [] + r.value.0 == r.value.0;
  }

  lemma ReadEnd(b: seq<bool>, pos: nat, probs: seq<int>)
    requires pos <= |b|
    ensures Prepended(probs, ReadFrom(b, pos, 0)) == Some((probs, pos))
  {
    assert probs + [] == probs;
  }

  /** One round of the reading loop, seen from the probabilities read so far. */
  lemma ReadStep(b: seq<bool>, pos: nat, r: nat, w: seq<int>)
    requires pos <= |b| && r >= 1
    ensures var f, all := ReadField(b, pos, r), Prepended(w, ReadFrom(b, pos, r));
      if f.None? then all == None else
      var prob, p1 := f.value.0 - 1, f.value.1;
      && -1 <= prob && Weight(prob) <= r
      && (prob != 0 ==> all == Prepended(w + [prob], ReadFrom(b, p1, r - Weight(prob))))
      && (prob == 0 ==>
            var z := ReadZeros(b, p1);
            if z.None? then all == None
            else all == Prepended(w + [0] + seq(z.value.0, i => 0), ReadFrom(b, z.value.1, r)))
  {
    hide ReadField, ReadZeros, Weight;
    WeightOfField(b, pos, r);
    var f := ReadField(b, pos, r);
    if f.Some? {
      var v: int, p1 := f.value.0, f.value.1;
      var prob := v - 1;
      if prob == 0 {
        var z := ReadZeros(b, p1);
        if z.Some? {
          var rest := ReadFrom(b, z.value.1, r);
          if rest.Some? {
            Join4(w, [0], seq(z.value.0, i => 0), rest.value.0);
          }
        }
      } else {
        var rest := ReadFrom(b, p1, r - Weight(prob));
        if rest.Some? {
          Join3(w, [prob], rest.value.0);
        }
      }
    }
  }

  lemma WeightOfField(b: seq<bool>, pos: nat, r: nat)
    requires pos <= |b| && r >= 1
    ensures var f := ReadField(b, pos, r); f.Some? ==> -1 <= f.value.0 - 1 && Weight(f.value.0 - 1) <= r
  {
    hide ReadField;
  }

  /** Parse a description into a table's probabilities. */
  method ReadProbabilities(table: FseTable, source: seq<byte>, maxLog: nat) returns (r: Result<nat, FseTableError>)
    modifies table
    ensures var parsed, b := ParseDescription(BytesToBits(source)), BytesToBits(source);
      && (r.Ok? <==> parsed.Some? && parsed.value.1 <= maxLog && |parsed.value.0| <= table.maxSymbol + 1)
      && (r.Ok? ==>
            && table.symbolProbabilities == parsed.value.0
            && table.accuracyLog == parsed.value.1
            && r.value == BytesFor(parsed.value.2) <= |source|)
      && (|b| >= 4 && 5 + ValOf(b[0..4]) > maxLog ==> r == Err(AccLogTooBig(5 + ValOf(b[0..4]), maxLog)))
      && (parsed.Some? && parsed.value.1 <= maxLog && |parsed.value.0| > table.maxSymbol + 1 ==>
            r == Err(TooManySymbols(|parsed.value.0|)))
    ensures r.Err? ==> !r.error.ProbabilityCounterMismatch? && !r.error.AccLogIsZero?
    ensures r.Ok? ==>
      && 5 <= table.accuracyLog <= 20 && Probabilities(table.symbolProbabilities)
      && WeightFrom(table.symbolProbabilities, 0) == Pow2(table.accuracyLog)
  {
    hide ValOf, BytesToBits, ReadFrom, Pow2, WeightFrom, Probabilities;
    table.symbolProbabilities := [];
    var br := new BitReader(source);
    ghost var b := BytesToBits(source);
    var log := br.GetBits(4);
    if log.Err? {
      return Err(GetBitsFailed(log.error));
    }
    LogRange(b);
    table.accuracyLog := 5 + log.value;
    if table.accuracyLog > maxLog {
      return Err(AccLogTooBig(table.accuracyLog, maxLog));
    }
    if table.accuracyLog == 0 {
      return Err(AccLogIsZero);
    }
    var probabilitySum := Pow2(table.accuracyLog);
    Pow2Mono(table.accuracyLog, 20);
    var probs, probabilityCounter := ReadAllProbabilities(br, probabilitySum);
    if probs.Err? {
      return Err(GetBitsFailed(probs.error));
    }
    table.symbolProbabilities := probs.value;
    if probabilityCounter != probabilitySum {
      return Err(ProbabilityCounterMismatch(probabilityCounter, probabilitySum));
    }
    if |table.symbolProbabilities| > table.maxSymbol + 1 {
      return Err(TooManySymbols(|table.symbolProbabilities|));
    }
    ReadIsDistribution(b, 4, probabilitySum);
    r := Ok(BytesFor(br.idx));
  }

  lemma LogRange(b: seq<bool>)
    requires |b| >= 4
    ensures ValOf(b[0..4]) < 16
  {
    hide ValOf;
    ValBound(b[0..4]);
    Pow2Values();
  }

  /** Read a description and build the table. Symbols are bytes. */
  method BuildDecoder(table: FseTable, source: seq<byte>, maxLog: nat) returns (r: Result<nat, FseTableError>)
    requires table.maxSymbol <= 255
    modifies table
    ensures var parsed := ParseDescription(BytesToBits(source));
      && (r.Ok? <==> parsed.Some? && parsed.value.1 <= maxLog && |parsed.value.0| <= table.maxSymbol + 1)
      && (r.Ok? ==>
            && ValidProbs(parsed.value.0, parsed.value.1)
            && table.accuracyLog == parsed.value.1 <= 20
            && table.decode == DecodeTable(parsed.value.0, parsed.value.1)
            && r.value == BytesFor(parsed.value.2) <= |source|)
  {
    hide ValOf, BytesToBits, ReadFrom, Pow2, WeightFrom, Probabilities, ValidProbs, DecodeTable;
    table.accuracyLog := 0;
    r := ReadProbabilities(table, source, maxLog);
    if r.Ok? {
      WeightIsValid(table.symbolProbabilities, table.accuracyLog);
      var built := table.BuildDecodingTable();
    }
  }
}
