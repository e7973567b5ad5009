/** The sequence section as it runs: written into a bit writer, decoded from a
    backward reader. */
module SequenceCoding {
  import opened Concatenation
  import opened Numbers
  import opened Bits
  import opened Results
  import opened BitWriting
  import opened BackwardReading
  import opened FseDistribution
  import opened FseAgreement
  import opened FseStream
  import opened FseCoding
  import FseRoundTrip
  import opened SequenceCodes
  import opened SequenceStream

  // ----- encoding -----

  ghost predicate TableSizes(e: Encoders) {
    TableSize(e.ll) && TableSize(e.ml) && TableSize(e.of)
  }

  ghost predicate TableSize(e: EncodingTable) {
    0 < e.tableSize <= Pow2(MAX_LOG) && IsPow2(e.tableSize)
  }

  /** The three states the decoder starts in; it reads them back to front. */
  function StateBits(e: Encoders, st: States): seq<bool>
    requires TableSizes(e)
  {
    BitsOf(st.ml, AccLog(e.ml)) + BitsOf(st.of, AccLog(e.of)) + BitsOf(st.ll, AccLog(e.ll))
  }

  /** Extra bits, in the order literal length, match length, offset. */
  method WriteExtra(writer: BitWriter, s: Sequence)
    requires writer.Valid() && Codable(s)
    modifies writer
    ensures writer.Valid() && writer.Contents() == old(writer.Contents()) + Extra(s)
  {
    hide EncodeLiteralLength, EncodeMatchLen, EncodeOffset, LookupLlCode, LookupMlCode, BitsOf, BytesToBits, Pow2,
      BitWriter.Contents, BitWriter.Valid;
    var l, m, o := EncodeLiteralLength(s.ll), EncodeMatchLen(s.ml), EncodeOffset(s.of);
    LiteralLengthInverts(s.ll);
    MatchLenInverts(s.ml);
    OffsetInverts(s.of);
    ghost var start := writer.Contents();
    writer.WriteBits(l.extra, l.bits);
    writer.WriteBits(m.extra, m.bits);
    writer.WriteBits(o.extra, o.bits);
    Join4(start, BitsOf(l.extra, l.bits), BitsOf(m.extra, m.bits), BitsOf(o.extra, o.bits));
  }

  /** The last sequence's extra bits, then for each sequence before it the three
      transitions and its extra bits, then the states and the marker. */
  method EncodeSequences(writer: BitWriter, seqs: seq<Sequence>, e: Encoders)
    requires writer.Valid() && |seqs| > 0 && CanEncodeSeqs(e, seqs) && TableSizes(e)
    modifies writer
    ensures writer.Valid()
    ensures writer.Contents() ==
      WithMarker(old(writer.Contents()) + (CodedSeqs(e, seqs).0 + StateBits(e, CodedSeqs(e, seqs).1)))
  {
    hide CanEncode, NextState, BitsOf, BytesToBits, Pow2, Step, StepStates, IsPow2, WithMarker, Extra,
      EncodeLiteralLength, EncodeMatchLen, EncodeOffset, BitWriter.Contents, BitWriter.Valid;
    ghost var start := writer.Contents();
    var last := seqs[|seqs| - 1];
    assert CanEncodeSeq(e, last);
    assert seqs[|seqs| - 1..] == [last];
    var ll := FirstState(e.ll, EncodeLiteralLength(last.ll).symbol);
    var ml := FirstState(e.ml, EncodeMatchLen(last.ml).symbol);
    var of := FirstState(e.of, EncodeOffset(last.of).symbol);
    WriteExtra(writer, last);
    for i := |seqs| - 1 downto 0
      invariant writer.Valid() && States(ll.index, ml.index, of.index) == CodedSeqs(e, seqs[i..]).1
      invariant writer.Contents() == start + CodedSeqs(e, seqs[i..]).0
    {
      assert CanEncodeSeq(e, seqs[i]);
      assert seqs[i..][1..] == seqs[i + 1..] && seqs[i..][0] == seqs[i];
      ll, ml, of := WriteSteps(writer, e, seqs[i], ll, ml, of);
      WriteExtra(writer, seqs[i]);
    }
    assert seqs[0..] == seqs;
    WriteState(writer, e.ml, ml);
    WriteState(writer, e.of, of);
    WriteState(writer, e.ll, ll);
    ghost var (b, st) := CodedSeqs(e, seqs);
    Join4(start + b, BitsOf(st.ml, AccLog(e.ml)), BitsOf(st.of, AccLog(e.of)), BitsOf(st.ll, AccLog(e.ll)));
    assert start + b + StateBits(e, st) == start + (b + StateBits(e, st));
    WriteMarker(writer);
  }

  method WriteSteps(writer: BitWriter, e: Encoders, s: Sequence, ll: State, ml: State, of: State)
    returns (ll': State, ml': State, of': State)
    requires writer.Valid() && CanEncodeSeq(e, s) && TableSizes(e)
    requires InTables(e, States(ll.index, ml.index, of.index))
    modifies writer
    ensures writer.Valid() && InTables(e, States(ll'.index, ml'.index, of'.index))
    ensures var (f, n) := StepStates(e, s, States(ll.index, ml.index, of.index));
      && writer.Contents() == old(writer.Contents()) + f
      && States(ll'.index, ml'.index, of'.index) == n
  {
    hide CanEncode, NextState, BitsOf, BytesToBits, Pow2, Step, IsPow2, EncodeLiteralLength, EncodeMatchLen,
      EncodeOffset, BitWriter.Contents, BitWriter.Valid;
    ghost var start := writer.Contents();
    of' := WriteStep(writer, e.of, EncodeOffset(s.of).symbol, of);
    ml' := WriteStep(writer, e.ml, EncodeMatchLen(s.ml).symbol, ml);
    ll' := WriteStep(writer, e.ll, EncodeLiteralLength(s.ll).symbol, ll);
    Join4(start, Step(e.of, EncodeOffset(s.of).symbol, of.index).0, Step(e.ml, EncodeMatchLen(s.ml).symbol, ml.index).0,
      Step(e.ll, EncodeLiteralLength(s.ll).symbol, ll.index).0);
  }

  // ----- decoding -----

  /** What the decoder keeps for one kind of code: a decoding table with its accuracy
      log, zero for a table never built, and the symbol that stands in for the table
      when the section has just one. */
  datatype CodeTable = CodeTable(decode: seq<Entry>, log: nat, single: Option<nat>)

  datatype CodeTables = CodeTables(ll: CodeTable, ml: CodeTable, of: CodeTable)

  /** The table in use: a single symbol is a table of one cell. */
  ghost function TableOf(t: CodeTable): seq<Entry> {
    if t.single.Some? then [Entry(0, 0, t.single.value)] else t.decode
  }

  ghost function LogOf(t: CodeTable): nat {
    if t.single.Some? then 0 else t.log
  }

  ghost predicate Ready(t: CodeTable) {
    t.single.Some? || t.log > 0
  }

  ghost predicate SymbolsUpTo(t: CodeTable, maxCode: nat) {
    && (forall c :: 0 <= c < |t.decode| ==> t.decode[c].symbol <= maxCode)
    && (t.single.Some? ==> t.single.value <= maxCode)
  }

  ghost predicate Decodable(t: CodeTables) {
    && FitsLog(t.ll.decode, t.ll.log) && FitsLog(t.ml.decode, t.ml.log) && FitsLog(t.of.decode, t.of.log)
    && SymbolsUpTo(t.ll, MAX_LITERAL_LENGTH_CODE) && SymbolsUpTo(t.ml, MAX_MATCH_LENGTH_CODE)
  }

  ghost predicate AllReady(t: CodeTables) {
    Ready(t.ll) && Ready(t.ml) && Ready(t.of)
  }

  ghost function TablesOf(t: CodeTables): Decoders {
    Decoders(TableOf(t.ll), TableOf(t.ml), TableOf(t.of))
  }

  /** Accuracy logs of the three decoding tables in use. */
  datatype Logs = Logs(ll: nat, ml: nat, of: nat)

  ghost function LogsOf(t: CodeTables): Logs {
    Logs(LogOf(t.ll), LogOf(t.ml), LogOf(t.of))
  }

  ghost predicate FitLogs(d: Decoders, k: Logs) {
    FullTable(d.ll, k.ll) && FullTable(d.ml, k.ml) && FullTable(d.of, k.of)
  }

  ghost predicate FullTable(d: seq<Entry>, k: nat) {
    |d| == Pow2(k) && k <= MAX_LOG
  }

  lemma ReadyTables(t: CodeTables)
    requires Decodable(t) && AllReady(t)
    ensures GoodDecoders(TablesOf(t)) && FitLogs(TablesOf(t), LogsOf(t))
  {
    Pow2Values();
  }

  /** The section of `n` sequences that ends at `pos`, the marker already skipped. */
  ghost function DecodedStates(d: Decoders, k: Logs, b: seq<bool>, pos: int, n: nat): (r: Result<seq<Sequence>, DecodeSequenceError>)
    requires GoodDecoders(d) && FitLogs(d, k)
  {
    ReadBackBound(b, pos, k.ll);
    ReadBackBound(b, pos - k.ll - k.of, k.ml);
    ReadBackBound(b, pos - k.ll, k.of);
    var st := States(ReadBack(b, pos, k.ll), ReadBack(b, pos - k.ll - k.of, k.ml), ReadBack(b, pos - k.ll, k.of));
    Concluded(DecodedSeqs(d, b, pos - k.ll - k.of - k.ml, st, n))
  }

  /** No bit may be left over. */
  ghost function Concluded(r: Result<(seq<Sequence>, int), DecodeSequenceError>): Result<seq<Sequence>, DecodeSequenceError> {
    if r.Err? then Err(r.error) else if r.value.1 > 0 then Err(ExtraBits(r.value.1)) else Ok(r.value.0)
  }

  ghost function DecodedCodes(t: CodeTables, b: seq<bool>, pos: int, n: nat): (r: Result<seq<Sequence>, DecodeSequenceError>)
    requires Decodable(t)
  {
    if !AllReady(t) then Err(DecoderError(TableIsUninitialized)) else
    ReadyTables(t);
    DecodedStates(TablesOf(t), LogsOf(t), b, pos, n)
  }

  /** The states are read in the order literal lengths, offsets, match lengths. */
  lemma StartStatesRead(t: CodeTables, b: seq<bool>, pos: int, n: nat)
    requires Decodable(t)
    ensures !AllReady(t) ==> DecodedCodes(t, b, pos, n) == Err(DecoderError(TableIsUninitialized))
    ensures AllReady(t) ==>
      var d, k := TablesOf(t), LogsOf(t);
      var st := States(ReadBack(b, pos, k.ll), ReadBack(b, pos - k.ll - k.of, k.ml), ReadBack(b, pos - k.ll, k.of));
      && GoodDecoders(d) && InDecoders(d, st)
      && DecodedCodes(t, b, pos, n) == Concluded(DecodedSeqs(d, b, pos - k.ll - k.of - k.ml, st, n))
  {
    hide ReadBack, Pow2, GoodDecoders, Decodable, TableOf, LogOf, DecodedSeqs, Concluded;
    if AllReady(t) {
      ReadyTables(t);
      var k := LogsOf(t);
      ReadBackBound(b, pos, k.ll);
      ReadBackBound(b, pos - k.ll - k.of, k.ml);
      ReadBackBound(b, pos - k.ll, k.of);
    }
  }

  ghost function DecodedSection(t: CodeTables, b: seq<bool>, n: nat): (r: Result<seq<Sequence>, DecodeSequenceError>)
    requires Decodable(t)
  {
    var m := SkipMarker(b, |b|, 0);
    if m > 8 then Err(ExtraPadding(m)) else DecodedCodes(t, b, |b| - m, n)
  }

  /** Literal lengths and match lengths have at most 16 extra bits. */
  lemma FewExtraBits(d: Decoders, st: States)
    requires GoodDecoders(d) && InDecoders(d, st)
    ensures LookupMlCode(d.ml[st.ml].symbol).1 <= 16 && LookupLlCode(d.ll[st.ll].symbol).1 <= 16
  {
  }

  /** One sequence: codes, bases, extra bits. The offset is never zero, as
      two to the power of its code is added. */
  method ReadSequence(br: BitReaderReversed, llCode: nat, mlCode: nat, ofCode: nat, ghost d: Decoders, ghost st: States)
    returns (r: Result<Sequence, DecodeSequenceError>)
    requires br.Valid() && GoodDecoders(d) && InDecoders(d, st)
    requires llCode == d.ll[st.ll].symbol && mlCode == d.ml[st.ml].symbol && ofCode == d.of[st.of].symbol
    modifies br
    ensures br.Valid()
    ensures if ofCode > MAX_OFFSET_CODE then r == Err(UnsupportedOffset(ofCode))
      else
        var (s, p) := SequenceAt(d, br.Bits(), old(br.BitsRemaining()), st);
        r == Ok(s) && br.BitsRemaining() == p && s.of >= 1
  {
    hide ReadBack, Consistent, Pow2, Remaining, Closed, LookupLlCode, LookupMlCode, BitReaderReversed.Valid,
      BitReaderReversed.Bits, BitReaderReversed.BitsRemaining;
    FewExtraBits(d, st);
    var (llValue, llNumBits) := LookupLlCode(llCode);
    var (mlValue, mlNumBits) := LookupMlCode(mlCode);
    if ofCode > MAX_OFFSET_CODE {
      return Err(UnsupportedOffset(ofCode));
    }
    var obits, mlAdd, llAdd := br.GetBitsTriple(ofCode, mlNumBits, llNumBits);
    var offset := obits + Pow2(ofCode);
    r := Ok(Sequence(llValue + llAdd, mlValue + mlAdd, offset));
  }

  ghost function After(done: seq<Sequence>, rest: Result<(seq<Sequence>, int), DecodeSequenceError>)
    : Result<(seq<Sequence>, int), DecodeSequenceError>
  {
    if rest.Err? then rest else Ok((done + rest.value.0, rest.value.1))
  }

  lemma AfterNothing(rest: Result<(seq<Sequence>, int), DecodeSequenceError>)
    ensures After([], rest) == rest
  {
    assert rest.Ok? ==> [] + rest.value.0 == rest.value.0;
  }

  lemma AfterOne(done: seq<Sequence>, s: Sequence, rest: Result<(seq<Sequence>, int), DecodeSequenceError>)
    ensures After(done, After([s], rest)) == After(done + [s], rest)
  {
    assert rest.Ok? ==> done + ([s] + rest.value.0) == (done + [s]) + rest.value.0;
  }

  /** One round of the decoding loop, seen from the sequences already decoded. */
  lemma Round(d: Decoders, b: seq<bool>, pos: int, st: States, n: nat, done: seq<Sequence>)
    requires GoodDecoders(d) && InDecoders(d, st) && n > 0 && d.of[st.of].symbol <= MAX_OFFSET_CODE
    ensures var (s, p1) := SequenceAt(d, b, pos, st);
      var (st', p2) := if n > 1 then FollowStates(d, b, p1, st) else (st, p1);
      After(done, DecodedSeqs(d, b, pos, st, n)) ==
        if p2 < 0 then Err(NotEnoughBytesForNumSequences) else After(done + [s], DecodedSeqs(d, b, p2, st', n - 1))
  {
    hide GoodDecoders, FollowStates, SequenceAt;
    var (s, p1) := SequenceAt(d, b, pos, st);
    var (st', p2) := if n > 1 then FollowStates(d, b, p1, st) else (st, p1);
    AfterOne(done, s, DecodedSeqs(d, b, p2, st', n - 1));
  }

  lemma Unsupported(d: Decoders, b: seq<bool>, pos: int, st: States, n: nat)
    requires GoodDecoders(d) && InDecoders(d, st) && n > 0 && d.of[st.of].symbol > MAX_OFFSET_CODE
    ensures DecodedSeqs(d, b, pos, st, n) == Err(UnsupportedOffset(d.of[st.of].symbol))
  {
  }

  lemma NoSequences(d: Decoders, b: seq<bool>, pos: int, st: States, target: seq<Sequence>)
    requires GoodDecoders(d) && InDecoders(d, st)
    ensures After(target, DecodedSeqs(d, b, pos, st, 0)) == Ok((target, pos))
  {
    assert target + [] == target;
  }

  // ----- one kind of code: a table or a single symbol -----

  ghost predicate Serves(dec: FseDecoder, t: CodeTable)
    reads dec
  {
    dec.decode == t.decode && dec.accuracyLog == t.log && FitsLog(t.decode, t.log) && (t.single.None? ==> dec.Valid())
  }

  /** The cell the decoder stands on in the table in use. */
  ghost function Cell(dec: FseDecoder, t: CodeTable): nat
    reads dec
  {
    if t.single.Some? then 0 else dec.index
  }

  lemma CellInside(dec: FseDecoder, t: CodeTable)
    requires Serves(dec, t)
    ensures Cell(dec, t) < |TableOf(t)|
    ensures TableOf(t)[Cell(dec, t)].symbol == if t.single.Some? then t.single.value else dec.state.symbol
  {
  }

  /** A single symbol needs no state. */
  method StartCode(br: BitReaderReversed, dec: FseDecoder, t: CodeTable) returns (r: Result<(), FseDecoderError>)
    requires br.Valid() && dec.decode == t.decode && dec.accuracyLog == t.log && FitsLog(t.decode, t.log)
    modifies dec, br
    ensures br.Valid()
    ensures !Ready(t) ==> r == Err(TableIsUninitialized)
    ensures Ready(t) ==> r == Ok(()) && Serves(dec, t) && Cell(dec, t) == ReadBack(br.Bits(), old(br.BitsRemaining()), LogOf(t))
    ensures r.Ok? ==> br.BitsRemaining() == old(br.BitsRemaining()) - LogOf(t)
  {
    hide Consistent, Pow2, Remaining, BitReaderReversed.Valid, BitReaderReversed.Bits,
      BitReaderReversed.BitsRemaining, FitsLog;
    r := Ok(());
    if t.single.None? {
      r := dec.InitState(br);
    }
  }

  method UpdateCode(br: BitReaderReversed, dec: FseDecoder, t: CodeTable)
    requires br.Valid() && Serves(dec, t) && Closed(TableOf(t)) && Cell(dec, t) < |TableOf(t)|
    modifies dec, br
    ensures br.Valid() && Serves(dec, t)
    ensures Cell(dec, t) == Follow(TableOf(t), br.Bits(), old(br.BitsRemaining()), old(Cell(dec, t)))
    ensures br.BitsRemaining() == old(br.BitsRemaining()) - TableOf(t)[old(Cell(dec, t))].numBits
  {
    hide Consistent, Pow2, Remaining, BitReaderReversed.Valid, BitReaderReversed.Bits,
      BitReaderReversed.BitsRemaining, FitsLog, Closed;
    if t.single.None? {
      dec.UpdateState(br);
    }
  }

  // ----- the two loops -----

  /** With a single symbol for at least one kind of code: the decoder of this kind is
      neither started nor updated. The result is as if the symbol had a table of one
      cell. */
  method DecodeSequencesWithRle(br: BitReaderReversed, t: CodeTables, numSequences: nat)
    returns (r: Result<seq<Sequence>, DecodeSequenceError>)
    requires br.Valid() && Decodable(t)
    modifies br
    ensures br.Valid()
    ensures r == DecodedCodes(t, br.Bits(), old(br.BitsRemaining()), numSequences)
    ensures r.Ok? && numSequences > 0 ==> br.BitsRemaining() == 0
  {
    hide ReadBack, Consistent, Pow2, Remaining, Closed, FollowStates, SequenceAt, DecodedSeqs, DecodedCodes, GoodDecoders,
      FitsLog, FitLogs, TableOf, LogOf, Ready, Cell, Serves,
      BitReaderReversed.Valid, BitReaderReversed.Bits, BitReaderReversed.BitsRemaining;
    ghost var b := br.Bits();
    StartStatesRead(t, b, br.BitsRemaining(), numSequences);
    var llDec := new FseDecoder(t.ll.decode, t.ll.log);
    var mlDec := new FseDecoder(t.ml.decode, t.ml.log);
    var ofDec := new FseDecoder(t.of.decode, t.of.log);
    var ll := StartCode(br, llDec, t.ll);
    if ll.Err? { return Err(DecoderError(ll.error)); }
    var of := StartCode(br, ofDec, t.of);
    if of.Err? { return Err(DecoderError(of.error)); }
    var ml := StartCode(br, mlDec, t.ml);
    if ml.Err? { return Err(DecoderError(ml.error)); }
    ghost var d := TablesOf(t);
    CellInside(llDec, t.ll);
    CellInside(mlDec, t.ml);
    CellInside(ofDec, t.of);

    ghost var all := DecodedSeqs(d, b, br.BitsRemaining(), States(Cell(llDec, t.ll), Cell(mlDec, t.ml), Cell(ofDec, t.of)), numSequences);
    var target: seq<Sequence> := [];
    AfterNothing(all);
    for i := 0 to numSequences
      invariant br.Valid() && Serves(llDec, t.ll) && Serves(mlDec, t.ml) && Serves(ofDec, t.of)
      invariant |target| == i && (i > 0 ==> br.BitsRemaining() >= 0)
      invariant InDecoders(d, States(Cell(llDec, t.ll), Cell(mlDec, t.ml), Cell(ofDec, t.of)))
      invariant all == After(target, DecodedSeqs(d, b, br.BitsRemaining(), States(Cell(llDec, t.ll), Cell(mlDec, t.ml), Cell(ofDec, t.of)), numSequences - i))
    {
      ghost var pos, st := br.BitsRemaining(), States(Cell(llDec, t.ll), Cell(mlDec, t.ml), Cell(ofDec, t.of));
      CellInside(llDec, t.ll);
      CellInside(mlDec, t.ml);
      CellInside(ofDec, t.of);
      var llCode := if t.ll.single.Some? then t.ll.single.value else llDec.DecodeSymbol();
      var mlCode := if t.ml.single.Some? then t.ml.single.value else mlDec.DecodeSymbol();
      var ofCode := if t.of.single.Some? then t.of.single.value else ofDec.DecodeSymbol();
      var s := ReadSequence(br, llCode, mlCode, ofCode, d, st);
      if s.Err? {
        Unsupported(d, b, pos, st, numSequences - i);
        return Err(s.error);
      }
      Round(d, b, pos, st, numSequences - i, target);
      target := target + [s.value];
      if |target| < numSequences {
        UpdateCodes(br, llDec, mlDec, ofDec, t);
      }
      if br.BitsRemaining() < 0 {
        return Err(NotEnoughBytesForNumSequences);
      }
    }
    NoSequences(d, b, br.BitsRemaining(), States(Cell(llDec, t.ll), Cell(mlDec, t.ml), Cell(ofDec, t.of)), target);
    if br.BitsRemaining() > 0 {
      r := Err(ExtraBits(br.BitsRemaining()));
    } else {
      r := Ok(target);
    }
  }

  method UpdateCodes(br: BitReaderReversed, llDec: FseDecoder, mlDec: FseDecoder, ofDec: FseDecoder, t: CodeTables)
    requires br.Valid() && Serves(llDec, t.ll) && Serves(mlDec, t.ml) && Serves(ofDec, t.of) && GoodDecoders(TablesOf(t))
    requires InDecoders(TablesOf(t), States(Cell(llDec, t.ll), Cell(mlDec, t.ml), Cell(ofDec, t.of)))
    requires llDec != mlDec && mlDec != ofDec && ofDec != llDec
    modifies br, llDec, mlDec, ofDec
    ensures br.Valid() && Serves(llDec, t.ll) && Serves(mlDec, t.ml) && Serves(ofDec, t.of)
    ensures (States(Cell(llDec, t.ll), Cell(mlDec, t.ml), Cell(ofDec, t.of)), br.BitsRemaining()) ==
      FollowStates(TablesOf(t), br.Bits(), old(br.BitsRemaining()), old(States(Cell(llDec, t.ll), Cell(mlDec, t.ml), Cell(ofDec, t.of))))
  {
    hide ReadBack, Consistent, Pow2, Remaining, Closed, Follow, BitReaderReversed.Valid, BitReaderReversed.Bits,
      BitReaderReversed.BitsRemaining, TableOf, FitsLog;
    UpdateCode(br, llDec, t.ll);
    UpdateCode(br, mlDec, t.ml);
    UpdateCode(br, ofDec, t.of);
  }

  method UpdateStates(br: BitReaderReversed, llDec: FseDecoder, mlDec: FseDecoder, ofDec: FseDecoder, ghost d: Decoders)
    requires br.Valid() && llDec.Valid() && mlDec.Valid() && ofDec.Valid() && GoodDecoders(d)
    requires d == Decoders(llDec.decode, mlDec.decode, ofDec.decode)
    requires llDec != mlDec && mlDec != ofDec && ofDec != llDec
    modifies br, llDec, mlDec, ofDec
    ensures br.Valid() && llDec.Valid() && mlDec.Valid() && ofDec.Valid()
    ensures (States(llDec.index, mlDec.index, ofDec.index), br.BitsRemaining()) ==
      FollowStates(d, br.Bits(), old(br.BitsRemaining()), old(States(llDec.index, mlDec.index, ofDec.index)))
  {
    hide ReadBack, Consistent, Pow2, Remaining, Closed, Follow, BitReaderReversed.Valid, BitReaderReversed.Bits,
      BitReaderReversed.BitsRemaining;
    llDec.UpdateState(br);
    mlDec.UpdateState(br);
    ofDec.UpdateState(br);
  }

  /** Three tables: the loop over the sequences and the check that no bit is left over. */
  method DecodeSequencesWithoutRle(br: BitReaderReversed, t: CodeTables, numSequences: nat)
    returns (r: Result<seq<Sequence>, DecodeSequenceError>)
    requires br.Valid() && Decodable(t) && t.ll.single.None? && t.ml.single.None? && t.of.single.None?
    modifies br
    ensures br.Valid()
    ensures r == DecodedCodes(t, br.Bits(), old(br.BitsRemaining()), numSequences)
    ensures r.Ok? && numSequences > 0 ==> br.BitsRemaining() == 0
  {
    hide ReadBack, Consistent, Pow2, Remaining, Closed, FollowStates, SequenceAt, DecodedSeqs, DecodedCodes, FitLogs,
      GoodDecoders, FitsLog, SymbolsUpTo,
      BitReaderReversed.Valid, BitReaderReversed.Bits, BitReaderReversed.BitsRemaining;
    ghost var b := br.Bits();
    StartStatesRead(t, b, br.BitsRemaining(), numSequences);
    var llDec := new FseDecoder(t.ll.decode, t.ll.log);
    var mlDec := new FseDecoder(t.ml.decode, t.ml.log);
    var ofDec := new FseDecoder(t.of.decode, t.of.log);
    var ll := llDec.InitState(br);
    if ll.Err? { return Err(DecoderError(ll.error)); }
    var of := ofDec.InitState(br);
    if of.Err? { return Err(DecoderError(of.error)); }
    var ml := mlDec.InitState(br);
    if ml.Err? { return Err(DecoderError(ml.error)); }

    ghost var d := TablesOf(t);
    ghost var all := DecodedSeqs(d, b, br.BitsRemaining(), States(llDec.index, mlDec.index, ofDec.index), numSequences);
    var target: seq<Sequence> := [];
    AfterNothing(all);
    for i := 0 to numSequences
      invariant br.Valid() && llDec.Valid() && mlDec.Valid() && ofDec.Valid()
      invariant |target| == i && (i > 0 ==> br.BitsRemaining() >= 0)
      invariant all == After(target, DecodedSeqs(d, b, br.BitsRemaining(), States(llDec.index, mlDec.index, ofDec.index), numSequences - i))
    {
      ghost var pos, st := br.BitsRemaining(), States(llDec.index, mlDec.index, ofDec.index);
      var llCode := llDec.DecodeSymbol();
      var mlCode := mlDec.DecodeSymbol();
      var ofCode := ofDec.DecodeSymbol();
      var s := ReadSequence(br, llCode, mlCode, ofCode, d, st);
      if s.Err? {
        Unsupported(d, b, pos, st, numSequences - i);
        return Err(s.error);
      }
      Round(d, b, pos, st, numSequences - i, target);
      target := target + [s.value];
      if |target| < numSequences {
        UpdateStates(br, llDec, mlDec, ofDec, d);
      }
      if br.BitsRemaining() < 0 {
        return Err(NotEnoughBytesForNumSequences);
      }
    }
    NoSequences(d, b, br.BitsRemaining(), States(llDec.index, mlDec.index, ofDec.index), target);
    if br.BitsRemaining() > 0 {
      r := Err(ExtraBits(br.BitsRemaining()));
    } else {
      r := Ok(target);
    }
  }

  /** Skip the marker, decode the sequences with the loop the tables call for. */
  method DecodeSequences(source: seq<byte>, t: CodeTables, numSequences: nat)
    returns (r: Result<seq<Sequence>, DecodeSequenceError>)
    requires Decodable(t)
    ensures r == DecodedSection(t, BytesToBits(source), numSequences)
  {
    hide ReadBack, Consistent, Pow2, Remaining, Closed, DecodedCodes, BytesToBits, SkipMarker, Decodable,
      BitReaderReversed.Valid, BitReaderReversed.BitsRemaining;
    var br := new BitReaderReversed(source);
    var skipped := SkipPadding(br);
    if skipped > 8 {
      return Err(ExtraPadding(skipped));
    }
    if t.ll.single.Some? || t.ml.single.Some? || t.of.single.Some? {
      r := DecodeSequencesWithRle(br, t, numSequences);
    } else {
      r := DecodeSequencesWithoutRle(br, t, numSequences);
    }
  }

  // ----- there and back -----

  ghost predicate AgreeLogs(e: Encoders, d: Decoders, k: Logs, seqs: seq<Sequence>) {
    && AgreeSeqs(e, d, k.ll, k.ml, k.of, seqs)
    && k.ll <= MAX_LOG && k.ml <= MAX_LOG && k.of <= MAX_LOG
  }

  ghost predicate AgreeCodes(e: Encoders, t: CodeTables, seqs: seq<Sequence>) {
    Decodable(t) && AllReady(t) && AgreeLogs(e, TablesOf(t), LogsOf(t), seqs)
  }

  /** For every list of sequences the codes can express, and tables or single symbols
      that agree on these codes, the section decodes to the list and no bit is left
      over. */
  lemma SectionRoundTrip(e: Encoders, t: CodeTables, seqs: seq<Sequence>)
    requires |seqs| > 0 && AgreeCodes(e, t, seqs)
    ensures CanEncodeSeqs(e, seqs) && TableSizes(e)
    ensures var (b, st) := CodedSeqs(e, seqs);
      DecodedSection(t, WithMarker(b + StateBits(e, st)), |seqs|) == Ok(seqs)
  {
    hide Decodable, AllReady, AgreeLogs, CodedSeqs, DecodedStates, StateBits, SkipMarker, GoodDecoders, FitLogs,
      CanEncodeSeqs, TableSizes, TablesOf, LogsOf, WithMarker;
    MarkerAndStates(e, TablesOf(t), LogsOf(t), seqs);
  }

  lemma MarkerAndStates(e: Encoders, d: Decoders, k: Logs, seqs: seq<Sequence>)
    requires |seqs| > 0 && AgreeLogs(e, d, k, seqs)
    ensures CanEncodeSeqs(e, seqs) && TableSizes(e) && GoodDecoders(d) && FitLogs(d, k)
    ensures var (b, st) := CodedSeqs(e, seqs);
      var all := WithMarker(b + StateBits(e, st));
      var m := SkipMarker(all, |all|, 0);
      m <= 8 && DecodedStates(d, k, all, |all| - m, |seqs|) == Ok(seqs)
  {
    hide GoodDecoders, AgreeSeq, CodedSeqs, DecodedSeqs, Pow2, BitsOf, ReadBack, SkipMarker, CanEncodeSeq,
      DecodedStates, StateBits, IsPow2, FitLogs;
    AgreeCanEncodeSeqs(e, d, k.ll, k.ml, k.of, seqs);
    LogsFit(e, d, k, seqs);
    var (b, st) := CodedSeqs(e, seqs);
    var head := b + StateBits(e, st);
    var m := MarkerLength(|head|);
    MarkerFound(head, m);
    StatesBack(e, d, k, seqs, BitsOf(1, m));
  }

  lemma LogsFit(e: Encoders, d: Decoders, k: Logs, seqs: seq<Sequence>)
    requires AgreeLogs(e, d, k, seqs)
    ensures TableSizes(e) && GoodDecoders(d) && FitLogs(d, k)
    ensures AccLog(e.ll) == k.ll && AccLog(e.ml) == k.ml && AccLog(e.of) == k.of
  {
    hide Closed, AgreeSeq, Pow2, IsPow2, Log2;
    IsPow2Iff(Pow2(k.ll), k.ll);
    IsPow2Iff(Pow2(k.ml), k.ml);
    IsPow2Iff(Pow2(k.of), k.of);
    Pow2Mono(k.ll, MAX_LOG);
    Pow2Mono(k.ml, MAX_LOG);
    Pow2Mono(k.of, MAX_LOG);
  }

  /** The states are read back in the order they are needed. */
  lemma StatesBack(e: Encoders, d: Decoders, k: Logs, seqs: seq<Sequence>, suffix: seq<bool>)
    requires |seqs| > 0 && AgreeLogs(e, d, k, seqs) && CanEncodeSeqs(e, seqs)
    requires TableSizes(e) && GoodDecoders(d) && FitLogs(d, k)
    ensures var (b, st) := CodedSeqs(e, seqs);
      var all := b + StateBits(e, st);
      DecodedStates(d, k, all + suffix, |all|, |seqs|) == Ok(seqs)
  {
    hide GoodDecoders, AgreeSeq, CodedSeqs, DecodedSeqs, Pow2, BitsOf, ReadBack, CanEncodeSeq, FitLogs, IsPow2,
      AccLog;
    LogsFit(e, d, k, seqs);
    var (b, st) := CodedSeqs(e, seqs);
    var m, o, l := BitsOf(st.ml, k.ml), BitsOf(st.of, k.of), BitsOf(st.ll, k.ll);
    Join5(b, m, o, l, suffix);
    assert b + (m + o + l) + suffix == [] + b + (m + (o + (l + suffix)));
    ReadBackLast(b + m + o, st.ll, k.ll, suffix);
    ReadBackLast(b + m, st.of, k.of, l + suffix);
    ReadBackLast(b, st.ml, k.ml, o + (l + suffix));
    SequencesRoundTrip(e, d, k.ll, k.ml, k.of, seqs, [], m + (o + (l + suffix)));
  }

  /** Behind the bytes `before` the bytes hold the coded sequences, the three states
      and the marker. */
  ghost predicate Carries(bytes: seq<byte>, before: seq<byte>, e: Encoders, seqs: seq<Sequence>) {
    && |seqs| > 0 && CanEncodeSeqs(e, seqs) && TableSizes(e)
    && var (b, st) := CodedSeqs(e, seqs);
      BytesToBits(bytes) == BytesToBits(before) + WithMarker(b + StateBits(e, st))
  }

  /** Encode behind whatever complete bytes come before. */
  method EncodeBehind(before: seq<byte>, seqs: seq<Sequence>, e: Encoders) returns (bytes: seq<byte>)
    requires |seqs| > 0 && CanEncodeSeqs(e, seqs) && TableSizes(e)
    ensures Carries(bytes, before, e, seqs)
  {
    hide CodedSeqs, StateBits, WithMarker, BytesToBits, Pow2, CanEncodeSeq, TableSizes, BitWriter.Contents,
      BitWriter.Valid;
    var writer := new BitWriter.From(before);
    EncodeSequences(writer, seqs, e);
    ghost var (b, st) := CodedSeqs(e, seqs);
    FseRoundTrip.MarkerBehind(BytesToBits(before), b + StateBits(e, st));
    bytes := writer.Dump();
  }

  /** Decode from byte `from` on: whatever the bytes carry there comes back. */
  method DecodeBehind(bytes: seq<byte>, from: nat, t: CodeTables, n: nat,
      ghost before: seq<byte>, ghost e: Encoders, ghost seqs: seq<Sequence>)
    returns (decoded: Result<seq<Sequence>, DecodeSequenceError>)
    requires Carries(bytes, before, e, seqs) && AgreeCodes(e, t, seqs) && from == |before| && n == |seqs|
    ensures decoded == Ok(seqs)
  {
    hide CodedSeqs, DecodedSection, StateBits, WithMarker, BytesToBits, CanEncodeSeqs, AgreeLogs, Decodable,
      TableSizes;
    SectionRoundTrip(e, t, seqs);
    ghost var (b, st) := CodedSeqs(e, seqs);
    SplitBytes(bytes, BytesToBits(before), WithMarker(b + StateBits(e, st)), from);
    decoded := DecodeSequences(bytes[from..], t, n);
  }

  /** There and back: the list comes back. */
  method RoundTrip(before: seq<byte>, seqs: seq<Sequence>, e: Encoders, t: CodeTables)
    returns (bytes: seq<byte>, decoded: Result<seq<Sequence>, DecodeSequenceError>)
    requires |seqs| > 0 && AgreeCodes(e, t, seqs)
    ensures Carries(bytes, before, e, seqs) && decoded == Ok(seqs)
  {
    hide Carries, AgreeLogs, Decodable, TableSizes, CanEncodeSeqs, DecodedSection;
    SectionRoundTrip(e, t, seqs);
    bytes := EncodeBehind(before, seqs, e);
    decoded := DecodeBehind(bytes, |before|, t, |seqs|, before, e, seqs);
  }

  lemma SymbolsBelow(probs: seq<int>, k: nat)
    requires ValidProbs(probs, k)
    ensures forall c :: 0 <= c < |DecodeTable(probs, k)| ==> DecodeTable(probs, k)[c].symbol < |probs|
  {
    hide DecodeTable, StatesOf, Pow2;
    forall c | 0 <= c < Pow2(k)
      ensures DecodeTable(probs, k)[c].symbol < |probs|
    {
      var j := StateOfCell(probs, k, c);
    }
  }
}
