/** The tables of a sequence section: each of the three kinds of codes has a mode that
    says where the decoder finds its table, and the decoder keeps what it found for
    the sections to come. */
module SequenceTables {
  import opened Concatenation
  import opened Numbers
  import opened Bits
  import opened Results
  import opened BackwardReading
  import opened FseDistribution
  import opened FseStream
  import opened FseCoding
  import opened FseDescription
  import opened FseDecodingTable
  import opened FseTableCoding
  import opened SequenceCodes
  import opened SequenceStream
  import opened SequenceCoding

  // ----- modes -----

  datatype Mode = Predefined | Rle | FseCompressed | Repeat

  function DecodeMode(m: nat): Mode
    requires m < 4
  {
    if m == 0 then Predefined else if m == 1 then Rle else if m == 2 then FseCompressed else Repeat
  }

  function LlMode(modes: byte): Mode {
    DecodeMode(modes / 64)
  }

  function OfMode(modes: byte): Mode {
    DecodeMode(modes / 16 % 4)
  }

  function MlMode(modes: byte): Mode {
    DecodeMode(modes / 4 % 4)
  }

  // ----- the three kinds of codes -----

  /** Limits, predefined distribution, and the error for a missing byte. */
  datatype Kind = Kind(maxLog: nat, maxCode: nat, defaultLog: nat, defaults: seq<int>, missing: DecodeSequenceError)

  function Times(n: nat, p: int): (run: seq<int>)
    ensures |run| == n && forall s :: 0 <= s < n ==> run[s] == p
  {
    seq(n, s => p)
  }

  const LL_DEFAULTS: seq<int> :=
    [4, 3] + Times(11, 2) + Times(3, 1) + Times(9, 2) + [3, 2] + Times(5, 1) + Times(4, -1)

  const ML_DEFAULTS: seq<int> :=
    [1, 4, 3] + Times(6, 2) + Times(37, 1) + Times(7, -1)

  const OF_DEFAULTS: seq<int> :=
    Times(6, 1) + Times(3, 2) + Times(15, 1) + Times(5, -1)

  const LL_MAX_LOG: nat := 9
  const ML_MAX_LOG: nat := 9
  const OF_MAX_LOG: nat := 8

  const LL_KIND: Kind := Kind(LL_MAX_LOG, MAX_LITERAL_LENGTH_CODE, 6, LL_DEFAULTS, MissingByteForRleLlTable)
  const ML_KIND: Kind := Kind(ML_MAX_LOG, MAX_MATCH_LENGTH_CODE, 6, ML_DEFAULTS, MissingByteForRleMlTable)
  const OF_KIND: Kind := Kind(OF_MAX_LOG, MAX_OFFSET_CODE, 5, OF_DEFAULTS, MissingByteForRleOfTable)

  ghost predicate GoodKind(kind: Kind) {
    && kind.maxLog <= 9 && kind.maxCode < 256
    && 0 < kind.defaultLog <= 9 && ValidProbs(kind.defaults, kind.defaultLog) && |kind.defaults| <= kind.maxCode + 1
  }

  /** Positive slots and -1 symbols of a distribution. */
  ghost predicate Adds(probs: seq<int>, slots: nat, negatives: nat) {
    && (forall s :: 0 <= s < |probs| ==> probs[s] >= -1)
    && Before(probs, |probs|) == slots && NegBefore(probs, |probs|) == negatives
  }

  lemma AddOne(probs: seq<int>, slots: nat, negatives: nat, p: int)
    requires Adds(probs, slots, negatives) && p >= -1
    ensures Adds(probs + [p], slots + Slots(p), negatives + if p == -1 then 1 else 0)
  {
    Front(probs, [p], |probs|);
  }

  lemma {:induction false} AddTimes(probs: seq<int>, slots: nat, negatives: nat, n: nat, p: int)
    requires Adds(probs, slots, negatives) && p >= -1
    ensures Adds(probs + Times(n, p), slots + n * Slots(p), negatives + if p == -1 then n else 0)
  {
    hide Adds;
    if n == 0 {
      assert probs + Times(0, p) == probs;
    } else {
      AddTimes(probs, slots, negatives, n - 1, p);
      AddOne(probs + Times(n - 1, p), slots + (n - 1) * Slots(p), negatives + if p == -1 then n - 1 else 0, p);
      assert Times(n, p) == Times(n - 1, p) + [p];
      Join3(probs, Times(n - 1, p), [p]);
      assert n * Slots(p) == (n - 1) * Slots(p) + Slots(p);
    }
  }

  lemma {:induction false} Front(a: seq<int>, b: seq<int>, n: nat)
    requires n <= |a|
    ensures Before(a + b, n) == Before(a, n) && NegBefore(a + b, n) == NegBefore(a, n)
  {
    if n > 0 {
      Front(a, b, n - 1);
    }
  }

  lemma LlDefaultsValid()
    ensures ValidProbs(LL_DEFAULTS, 6)
  {
    hide Times;
    Pow2Values();
    var p := [4, 3];
    AddTimes(p, 7, 0, 11, 2);
    p := p + Times(11, 2);
    AddTimes(p, 29, 0, 3, 1);
    p := p + Times(3, 1);
    AddTimes(p, 32, 0, 9, 2);
    p := p + Times(9, 2);
    AddTimes(p, 50, 0, 1, 3);
    p := p + Times(1, 3);
    AddTimes(p, 53, 0, 1, 2);
    p := p + Times(1, 2);
    AddTimes(p, 55, 0, 5, 1);
    p := p + Times(5, 1);
    AddTimes(p, 60, 0, 4, -1);
    assert LL_DEFAULTS == p + Times(4, -1);
  }

  lemma MlDefaultsValid()
    ensures ValidProbs(ML_DEFAULTS, 6)
  {
    hide Times;
    Pow2Values();
    var p := [1, 4, 3];
    assert Adds(p, 8, 0) by { assert p[..2] == [1, 4]; assert Before(p, 1) == 1; }
    AddTimes(p, 8, 0, 6, 2);
    p := p + Times(6, 2);
    AddTimes(p, 20, 0, 37, 1);
    p := p + Times(37, 1);
    AddTimes(p, 57, 0, 7, -1);
  }

  lemma OfDefaultsValid()
    ensures ValidProbs(OF_DEFAULTS, 5)
  {
    hide Times;
    Pow2Values();
    var p := [];
    AddTimes(p, 0, 0, 6, 1);
    p := p + Times(6, 1);
    AddTimes(p, 6, 0, 3, 2);
    p := p + Times(3, 2);
    AddTimes(p, 12, 0, 15, 1);
    p := p + Times(15, 1);
    AddTimes(p, 27, 0, 5, -1);
    assert OF_DEFAULTS == p + Times(5, -1);
  }

  /** The predefined distributions fill their tables. */
  lemma KindsAreGood()
    ensures GoodKind(LL_KIND) && GoodKind(ML_KIND) && GoodKind(OF_KIND)
  {
    hide ValidProbs, Times;
    LlDefaultsValid();
    MlDefaultsValid();
    OfDefaultsValid();
  }

  // ----- what the section says about one table -----

  ghost predicate Sound(t: CodeTable, maxCode: nat) {
    FitsLog(t.decode, t.log) && SymbolsUpTo(t, maxCode)
  }

  /** The table afterwards and the bytes it took; nothing when there is an error. */
  ghost function Updated(t: CodeTable, mode: Mode, source: seq<byte>, kind: Kind): (u: Option<(CodeTable, nat)>)
    requires GoodKind(kind)
    ensures u.Some? ==> u.value.1 <= |source|
  {
    match mode
    case FseCompressed =>
      var parsed := ParseDescription(BytesToBits(source));
      if parsed.Some? && parsed.value.1 <= kind.maxLog && |parsed.value.0| <= kind.maxCode + 1 then
        ParsedIsValid(source);
        Some((CodeTable(DecodeTable(parsed.value.0, parsed.value.1), parsed.value.1, None), BytesFor(parsed.value.2)))
      else
        None
    case Rle =>
      if source == [] || source[0] > kind.maxCode then None else Some((t.(single := Some(source[0])), 1))
    case Predefined => Some((CodeTable(DecodeTable(kind.defaults, kind.defaultLog), kind.defaultLog, None), 0))
    case Repeat => Some((t, 0))
  }

  lemma ParsedIsValid(source: seq<byte>)
    ensures var parsed := ParseDescription(BytesToBits(source));
      parsed.Some? ==> BytesFor(parsed.value.2) <= |source| && (|parsed.value.0| <= 256 ==> ValidProbs(parsed.value.0, parsed.value.1))
  {
    hide ReadFrom, ValidProbs, Probabilities, WeightFrom, BytesToBits;
    var b := BytesToBits(source);
    var parsed := ParseDescription(b);
    if parsed.Some? {
      ReadIsDistribution(b, 4, Pow2(parsed.value.1));
      if |parsed.value.0| <= 256 {
        WeightIsValid(parsed.value.0, parsed.value.1);
      }
    }
  }

  lemma BuiltSound(probs: seq<int>, k: nat, maxCode: nat)
    requires ValidProbs(probs, k) && k <= MAX_LOG && |probs| <= maxCode + 1
    ensures Sound(CodeTable(DecodeTable(probs, k), k, None), maxCode) && k > 0
  {
    hide DecodeTable, Pow2;
    TableClosed(probs, k);
    SymbolsBelow(probs, k);
    DecodeTableSize(probs, k);
  }

  lemma DecodeTableSize(probs: seq<int>, k: nat)
    requires ValidProbs(probs, k)
    ensures |DecodeTable(probs, k)| == Pow2(k) && k >= 4
  {
  }

  /** What the section says keeps the table sound, and usable unless it was repeated. */
  lemma UpdatedSound(t: CodeTable, mode: Mode, source: seq<byte>, kind: Kind)
    requires GoodKind(kind) && Sound(t, kind.maxCode)
    ensures var u := Updated(t, mode, source, kind);
      u.Some? ==> Sound(u.value.0, kind.maxCode) && (mode != Repeat ==> Ready(u.value.0))
  {
    hide BytesToBits, ParseDescription, ValidProbs, DecodeTable, FitsLog, BytesFor;
    var u := Updated(t, mode, source, kind);
    if mode == FseCompressed && u.Some? {
      ParsedIsValid(source);
      BuiltSound(ParseDescription(BytesToBits(source)).value.0, u.value.0.log, kind.maxCode);
    } else if mode == Predefined {
      BuiltSound(kind.defaults, kind.defaultLog, kind.maxCode);
    }
  }

  method UpdateTable(table: FseTable, rle: Option<nat>, mode: Mode, source: seq<byte>, kind: Kind)
    returns (r: Result<nat, DecodeSequenceError>, rle': Option<nat>)
    requires GoodKind(kind) && table.maxSymbol == kind.maxCode
    requires Sound(CodeTable(table.decode, table.accuracyLog, rle), kind.maxCode)
    modifies table
    ensures var u := Updated(old(CodeTable(table.decode, table.accuracyLog, rle)), mode, source, kind);
      && (r.Ok? <==> u.Some?)
      && (r.Ok? ==> u.value == (CodeTable(table.decode, table.accuracyLog, rle'), r.value))
    ensures mode.Rle? && source == [] ==> r == Err(kind.missing)
    ensures mode.Rle? && source != [] && source[0] > kind.maxCode ==> r == Err(MissingByteForRleMlTable)
  {
    hide BytesToBits, ParseDescription, ValidProbs, DecodeTable, Sound, BytesFor;
    rle' := rle;
    match mode
    case FseCompressed =>
      var built := FseTableCoding.BuildDecoder(table, source, kind.maxLog);
      if built.Err? { return Err(TableError(built.error)), rle'; }
      rle' := None;
      r := Ok(built.value);
    case Rle =>
      if source == [] { return Err(kind.missing), rle'; }
      if source[0] > kind.maxCode { return Err(MissingByteForRleMlTable), rle'; }
      rle' := Some(source[0]);
      r := Ok(1);
    case Predefined =>
      var built := table.BuildFromProbabilities(kind.defaultLog, kind.defaults);
      rle' := None;
      r := Ok(0);
    case Repeat =>
      r := Ok(0);
  }

  // ----- all three -----

  ghost predicate SoundTables(t: CodeTables) {
    Sound(t.ll, MAX_LITERAL_LENGTH_CODE) && Sound(t.ml, MAX_MATCH_LENGTH_CODE) && Sound(t.of, MAX_OFFSET_CODE)
  }

  /** Literal lengths, offsets, match lengths, one behind the other. */
  ghost function UpdatedTables(t: CodeTables, modes: byte, source: seq<byte>): (u: Option<(CodeTables, nat)>)
    ensures u.Some? ==> u.value.1 <= |source|
  {
    KindsAreGood();
    var ll := Updated(t.ll, LlMode(modes), source, LL_KIND);
    if ll.None? then None else
    var ofSource := source[ll.value.1..];
    var of := Updated(t.of, OfMode(modes), ofSource, OF_KIND);
    if of.None? then None else
    var mlSource := ofSource[of.value.1..];
    var ml := Updated(t.ml, MlMode(modes), mlSource, ML_KIND);
    if ml.None? then None else
    Some((CodeTables(ll.value.0, ml.value.0, of.value.0), ll.value.1 + of.value.1 + ml.value.1))
  }

  lemma UpdatedTablesSound(t: CodeTables, modes: byte, source: seq<byte>)
    requires SoundTables(t)
    ensures var u := UpdatedTables(t, modes, source); u.Some? ==> SoundTables(u.value.0)
  {
    hide Updated, Sound, GoodKind, LlMode, OfMode, MlMode;
    KindsAreGood();
    var u := UpdatedTables(t, modes, source);
    if u.Some? {
      UpdatedSound(t.ll, LlMode(modes), source, LL_KIND);
      var n1 := Updated(t.ll, LlMode(modes), source, LL_KIND).value.1;
      UpdatedSound(t.of, OfMode(modes), source[n1..], OF_KIND);
      var n2 := Updated(t.of, OfMode(modes), source[n1..], OF_KIND).value.1;
      UpdatedSound(t.ml, MlMode(modes), source[n1..][n2..], ML_KIND);
    }
  }

  /** With such tables the offset code is never too large: that error cannot occur. */
  lemma OffsetsSupported(t: CodeTables, b: seq<bool>, n: nat)
    requires SoundTables(t)
    ensures Decodable(t)
    ensures var r := DecodedSection(t, b, n); r.Err? ==> !r.error.UnsupportedOffset?
  {
    hide DecodedSeqs, ReadBack, SkipMarker, Pow2, Closed;
    if AllReady(t) {
      ReadyTables(t);
      var d, k, pos := TablesOf(t), LogsOf(t), |b| - SkipMarker(b, |b|, 0);
      ReadBackBound(b, pos, k.ll);
      ReadBackBound(b, pos - k.ll - k.of, k.ml);
      ReadBackBound(b, pos - k.ll, k.of);
      var st := States(ReadBack(b, pos, k.ll), ReadBack(b, pos - k.ll - k.of, k.ml), ReadBack(b, pos - k.ll, k.of));
      CodesSupported(d, b, pos - k.ll - k.of - k.ml, st, n);
    }
  }

  lemma {:induction false} CodesSupported(d: Decoders, b: seq<bool>, pos: int, st: States, n: nat)
    requires GoodDecoders(d) && InDecoders(d, st)
    requires forall c :: 0 <= c < |d.of| ==> d.of[c].symbol <= MAX_OFFSET_CODE
    ensures var r := DecodedSeqs(d, b, pos, st, n); r.Err? ==> !r.error.UnsupportedOffset?
    decreases n
  {
    hide SequenceAt, FollowStates, GoodDecoders;
    if n > 0 {
      var (_, p1) := SequenceAt(d, b, pos, st);
      var (st', p2) := if n > 1 then FollowStates(d, b, p1, st) else (st, p1);
      CodesSupported(d, b, p2, st', n - 1);
    }
  }

  /** The tables a decoder keeps from section to section. */
  class FseScratch {
    const offsets: FseTable
    var ofRle: Option<nat>
    const literalLengths: FseTable
    var llRle: Option<nat>
    const matchLengths: FseTable
    var mlRle: Option<nat>

    ghost function Tables(): CodeTables
      reads this, offsets, literalLengths, matchLengths
    {
      CodeTables(CodeTable(literalLengths.decode, literalLengths.accuracyLog, llRle),
        CodeTable(matchLengths.decode, matchLengths.accuracyLog, mlRle),
        CodeTable(offsets.decode, offsets.accuracyLog, ofRle))
    }

    /** The three tables are different objects with the limits of their codes. */
    ghost predicate Shape() {
      && literalLengths.maxSymbol == MAX_LITERAL_LENGTH_CODE && matchLengths.maxSymbol == MAX_MATCH_LENGTH_CODE
      && offsets.maxSymbol == MAX_OFFSET_CODE
      && literalLengths != offsets && offsets != matchLengths && matchLengths != literalLengths
    }

    ghost predicate Valid()
      reads this, offsets, literalLengths, matchLengths
    {
      Shape() && SoundTables(Tables())
    }

    constructor ()
      ensures Valid() && fresh(offsets) && fresh(literalLengths) && fresh(matchLengths)
      ensures var never := CodeTable([], 0, None); Tables() == CodeTables(never, never, never)
    {
      offsets := new FseTable(MAX_OFFSET_CODE);
      ofRle := None;
      literalLengths := new FseTable(MAX_LITERAL_LENGTH_CODE);
      llRle := None;
      matchLengths := new FseTable(MAX_MATCH_LENGTH_CODE);
      mlRle := None;
    }

    /** Take over what the section says about each table. */
    method MaybeUpdateFseTables(modes: Option<byte>, source: seq<byte>) returns (r: Result<nat, DecodeSequenceError>)
      requires Valid()
      modifies this, offsets, literalLengths, matchLengths
      ensures modes.None? ==> r == Err(MissingCompressionMode) && Tables() == old(Tables())
      ensures modes.Some? ==> var u := UpdatedTables(old(Tables()), modes.value, source);
        && (r.Ok? <==> u.Some?)
        && (r.Ok? ==> u.value == (Tables(), r.value))
      ensures r.Ok? ==> Valid()
    {
      hide Updated, Sound, LlMode, OfMode, MlMode, GoodKind;
      KindsAreGood();
      if modes.Some? {
        UpdatedTablesSound(Tables(), modes.value, source);
      }
      if modes.None? { return Err(MissingCompressionMode); }
      var ll, of, ml;
      ll, llRle := UpdateTable(literalLengths, llRle, LlMode(modes.value), source, LL_KIND);
      if ll.Err? { return ll; }
      var ofSource := source[ll.value..];
      of, ofRle := UpdateTable(offsets, ofRle, OfMode(modes.value), ofSource, OF_KIND);
      if of.Err? { return of; }
      var mlSource := ofSource[of.value..];
      ml, mlRle := UpdateTable(matchLengths, mlRle, MlMode(modes.value), mlSource, ML_KIND);
      if ml.Err? { return ml; }
      r := Ok(ll.value + of.value + ml.value);
    }
  }
}
