/** Where the tables of a sequence section come from, as a writer sees it: a
    distribution, described or known to both sides, a single symbol, or the section
    before. A decoder that follows the modes ends up with matching tables. */
module SequenceOrigins {
  import opened Numbers
  import opened Bits
  import opened Results
  import opened FseDistribution
  import opened FseAgreement
  import opened FseStream
  import opened FseCoding
  import opened FseTableCoding
  import FseRoundTrip
  import opened SequenceCodes
  import opened SequenceStream
  import opened SequenceCoding
  import opened SequenceTables

  datatype Origin = Unknown | FromProbs(probs: seq<int>, k: nat) | FromSingle(symbol: nat)

  ghost predicate GoodOrigin(o: Origin, maxCode: nat) {
    match o
    case Unknown => true
    case FromProbs(probs, k) => ValidProbs(probs, k) && k <= MAX_LOG && |probs| <= maxCode + 1
    case FromSingle(symbol) => symbol <= maxCode
  }

  /** The encoding table; one cell for a single symbol. */
  ghost function EncoderOf(o: Origin): EncodingTable
    requires o.FromProbs? ==> ValidProbs(o.probs, o.k)
  {
    match o
    case Unknown => EncodingTable([], 1)
    case FromProbs(probs, k) => EncodeTable(probs, k)
    case FromSingle(symbol) =>
      EncodingTable(seq(256, s => if s == symbol then SymbolStates([State(0, 0, 0, 0)], 1) else SymbolStates([], 0)), 1)
  }

  /** The decoder holds a table of this origin. */
  ghost predicate Fits(t: CodeTable, o: Origin)
    requires o.FromProbs? ==> ValidProbs(o.probs, o.k)
  {
    match o
    case Unknown => true
    case FromProbs(probs, k) => t == CodeTable(DecodeTable(probs, k), k, None)
    case FromSingle(symbol) => t.single == Some(symbol)
  }

  /** Tables of this origin have a code for the symbol. */
  predicate Covers(o: Origin, s: nat) {
    match o
    case Unknown => false
    case FromProbs(probs, k) => s < |probs| && probs[s] != 0
    case FromSingle(symbol) => s == symbol
  }

  lemma OriginAgrees(o: Origin, t: CodeTable, maxCode: nat, s: nat)
    requires GoodOrigin(o, maxCode) && maxCode < 256 && Fits(t, o) && Covers(o, s)
    ensures Agree(EncoderOf(o), TableOf(t), LogOf(t), s) && Ready(t)
  {
    hide EncodeTable, DecodeTable, Pow2;
    if o.FromProbs? {
      TablesAgree(o.probs, o.k, s);
    } else {
      SingleAgrees(s);
    }
  }

  lemma SingleAgrees(s: nat)
    requires s < 256
    ensures Agree(EncoderOf(FromSingle(s)), [Entry(0, 0, s)], 0, s)
  {
  }

  // ----- all three -----

  datatype Origins = Origins(ll: Origin, ml: Origin, of: Origin)

  ghost predicate GoodOrigins(o: Origins) {
    GoodOrigin(o.ll, MAX_LITERAL_LENGTH_CODE) && GoodOrigin(o.ml, MAX_MATCH_LENGTH_CODE) && GoodOrigin(o.of, MAX_OFFSET_CODE)
  }

  ghost function EncodersOf(o: Origins): Encoders
    requires GoodOrigins(o)
  {
    Encoders(EncoderOf(o.ll), EncoderOf(o.ml), EncoderOf(o.of))
  }

  ghost predicate AllFit(t: CodeTables, o: Origins)
    requires GoodOrigins(o)
  {
    Fits(t.ll, o.ll) && Fits(t.ml, o.ml) && Fits(t.of, o.of)
  }

  ghost predicate CoversSeq(o: Origins, s: Sequence) {
    && Codable(s)
    && Covers(o.ll, EncodeLiteralLength(s.ll).symbol)
    && Covers(o.ml, EncodeMatchLen(s.ml).symbol)
    && Covers(o.of, EncodeOffset(s.of).symbol)
  }

  ghost predicate CoversAll(o: Origins, seqs: seq<Sequence>) {
    forall i :: 0 <= i < |seqs| ==> CoversSeq(o, seqs[i])
  }

  /** Tables of the same origins agree on every list they cover. */
  lemma OriginsAgree(o: Origins, t: CodeTables, seqs: seq<Sequence>)
    requires GoodOrigins(o) && SoundTables(t) && AllFit(t, o) && CoversAll(o, seqs) && |seqs| > 0
    ensures AgreeCodes(EncodersOf(o), t, seqs)
  {
    hide GoodOrigin, EncoderOf, Fits, Covers, TableOf, LogOf, Ready, Agree, EncodeLiteralLength, EncodeMatchLen,
      EncodeOffset, FitsLog, SymbolsUpTo, Pow2, Closed;
    var e, d, k := EncodersOf(o), TablesOf(t), LogsOf(t);
    forall i | 0 <= i < |seqs|
      ensures AgreeSeq(e, d, k.ll, k.ml, k.of, seqs[i]) && AllReady(t)
    {
      assert CoversSeq(o, seqs[i]);
      OriginAgrees(o.ll, t.ll, MAX_LITERAL_LENGTH_CODE, EncodeLiteralLength(seqs[i].ll).symbol);
      OriginAgrees(o.ml, t.ml, MAX_MATCH_LENGTH_CODE, EncodeMatchLen(seqs[i].ml).symbol);
      OriginAgrees(o.of, t.of, MAX_OFFSET_CODE, EncodeOffset(seqs[i].of).symbol);
    }
    assert AgreeSeq(e, d, k.ll, k.ml, k.of, seqs[0]);
    ReadyTables(t);
    SizesAgree(e, d, k, seqs[0]);
  }

  lemma SizesAgree(e: Encoders, d: Decoders, k: Logs, s: Sequence)
    requires AgreeSeq(e, d, k.ll, k.ml, k.of, s)
    ensures e.ll.tableSize == Pow2(k.ll) == |d.ll| && e.ml.tableSize == Pow2(k.ml) == |d.ml| && e.of.tableSize == Pow2(k.of) == |d.of|
  {
  }

  // ----- the writer's choices -----

  datatype Choice = Standard | Single(symbol: byte) | Described(probs: seq<int>, k: nat) | Again

  datatype Choices = Choices(ll: Choice, ml: Choice, of: Choice)

  function ModeOf(c: Choice): Mode {
    match c
    case Standard => Predefined
    case Single(_) => Rle
    case Described(_, _) => FseCompressed
    case Again => Repeat
  }

  function ModeNumber(c: Choice): (m: nat)
    ensures m < 4 && DecodeMode(m) == ModeOf(c)
  {
    match c
    case Standard => 0
    case Single(_) => 1
    case Described(_, _) => 2
    case Again => 3
  }

  function ModesByte(c: Choices): (modes: byte)
    ensures LlMode(modes) == ModeOf(c.ll) && OfMode(modes) == ModeOf(c.of) && MlMode(modes) == ModeOf(c.ml)
  {
    ModeNumber(c.ll) * 64 + ModeNumber(c.of) * 16 + ModeNumber(c.ml) * 4
  }

  ghost predicate GoodChoice(c: Choice, kind: Kind) {
    match c
    case Single(symbol) => symbol <= kind.maxCode
    case Described(probs, k) => ValidProbs(probs, k) && 5 <= k <= kind.maxLog && |probs| <= kind.maxCode + 1
    case _ => true
  }

  ghost predicate GoodChoices(c: Choices) {
    GoodChoice(c.ll, LL_KIND) && GoodChoice(c.ml, ML_KIND) && GoodChoice(c.of, OF_KIND)
  }

  /** Where the table comes from afterwards. */
  function Chosen(before: Origin, c: Choice, kind: Kind): Origin {
    match c
    case Standard => FromProbs(kind.defaults, kind.defaultLog)
    case Single(symbol) => FromSingle(symbol)
    case Described(probs, k) => FromProbs(probs, k)
    case Again => before
  }

  function ChosenAll(before: Origins, c: Choices): Origins {
    Origins(Chosen(before.ll, c.ll, LL_KIND), Chosen(before.ml, c.ml, ML_KIND), Chosen(before.of, c.of, OF_KIND))
  }

  lemma ChosenGood(before: Origins, c: Choices)
    requires GoodOrigins(before) && GoodChoices(c)
    ensures GoodOrigins(ChosenAll(before, c))
  {
    hide ValidProbs;
    KindsAreGood();
  }

  /** A table description as it stands in the stream. */
  ghost function TableBits(probs: seq<int>, k: nat): (b: seq<bool>)
    requires ValidProbs(probs, k) && 5 <= k <= 20
    ensures |b| % 8 == 0
  {
    FseRoundTrip.TableIsDescribable(probs, k);
    Aligned(Description(ProbsOf(EncodeTable(probs, k)), k))
  }

  /** What the choice puts into the stream. */
  ghost function ChoiceBits(c: Choice, kind: Kind): (b: seq<bool>)
    requires GoodKind(kind) && GoodChoice(c, kind)
    ensures |b| % 8 == 0
  {
    match c
    case Single(symbol) => BytesToBits([symbol])
    case Described(probs, k) => TableBits(probs, k)
    case _ => []
  }

  /** A table description in front of anything is read back as the table. */
  lemma TableRead(bytes: seq<byte>, probs: seq<int>, k: nat, rest: seq<bool>)
    requires ValidProbs(probs, k) && 5 <= k <= 20 && BytesToBits(bytes) == TableBits(probs, k) + rest && rest != []
    ensures var parsed := ParseDescription(BytesToBits(bytes));
      && parsed.Some? && parsed.value.1 == k && |parsed.value.0| <= |probs| && ValidProbs(parsed.value.0, k)
      && DecodeTable(parsed.value.0, k) == DecodeTable(probs, k)
      && BytesFor(parsed.value.2) <= |bytes| && BytesToBits(bytes[BytesFor(parsed.value.2)..]) == rest
  {
    hide BytesToBits, ParseDescription, ValidProbs, DecodeTable, EncodeTable, Aligned, Description, BytesFor;
    FseRoundTrip.AlwaysParses(probs, k, rest);
    var n := BytesFor(ParseDescription(BytesToBits(bytes)).value.2);
    SplitBytes(bytes, TableBits(probs, k), rest, n);
  }

  lemma SymbolRead(bytes: seq<byte>, symbol: byte, rest: seq<bool>)
    requires BytesToBits(bytes) == BytesToBits([symbol]) + rest
    ensures bytes != [] && bytes[0] == symbol && BytesToBits(bytes[1..]) == rest
  {
    hide BytesToBits;
    SingleByte(symbol);
    SplitBytes(bytes, BytesToBits([symbol]), rest, 1);
    BytesInjective(bytes[..1], [symbol]);
    assert bytes[0] == bytes[..1][0];
  }

  /** The decoder finds what the choice is and holds the same table as the writer. */
  ghost predicate Tracks(t: CodeTable, before: Origin, c: Choice, kind: Kind, bytes: seq<byte>, rest: seq<bool>)
    requires GoodKind(kind)
  {
    var o, u := Chosen(before, c, kind), Updated(t, ModeOf(c), bytes, kind);
    GoodOrigin(o, kind.maxCode) && u.Some? && Fits(u.value.0, o) && BytesToBits(bytes[u.value.1..]) == rest
  }

  lemma DescribedRead(t: CodeTable, before: Origin, probs: seq<int>, k: nat, kind: Kind, bytes: seq<byte>, rest: seq<bool>)
    requires GoodKind(kind) && GoodChoice(Described(probs, k), kind)
    requires BytesToBits(bytes) == TableBits(probs, k) + rest && rest != []
    ensures Tracks(t, before, Described(probs, k), kind, bytes, rest)
  {
    hide BytesToBits, ParseDescription, ValidProbs, DecodeTable, TableBits, BytesFor;
    TableRead(bytes, probs, k, rest);
  }

  lemma SingleRead(t: CodeTable, before: Origin, symbol: byte, kind: Kind, bytes: seq<byte>, rest: seq<bool>)
    requires GoodKind(kind) && symbol <= kind.maxCode && BytesToBits(bytes) == BytesToBits([symbol]) + rest
    ensures Tracks(t, before, Single(symbol), kind, bytes, rest)
  {
    hide BytesToBits, ValidProbs;
    SymbolRead(bytes, symbol, rest);
  }

  lemma NothingRead(t: CodeTable, before: Origin, c: Choice, kind: Kind, bytes: seq<byte>, rest: seq<bool>)
    requires GoodKind(kind) && GoodOrigin(before, kind.maxCode) && Fits(t, before)
    requires (c.Standard? || c.Again?) && BytesToBits(bytes) == rest
    ensures Tracks(t, before, c, kind, bytes, rest)
  {
    hide BytesToBits, ValidProbs, DecodeTable;
    assert bytes[0..] == bytes;
  }

  /** This holds for every choice. */
  lemma ChoiceRead(t: CodeTable, before: Origin, c: Choice, kind: Kind, bytes: seq<byte>, rest: seq<bool>)
    requires GoodKind(kind) && GoodChoice(c, kind) && GoodOrigin(before, kind.maxCode) && Fits(t, before)
    requires BytesToBits(bytes) == ChoiceBits(c, kind) + rest && rest != []
    ensures Tracks(t, before, c, kind, bytes, rest)
  {
    hide BytesToBits, ValidProbs, TableBits, Tracks, GoodOrigin, Fits, GoodKind;
    match c
    case Described(probs, k) =>
      DescribedRead(t, before, probs, k, kind, bytes, rest);
    case Single(symbol) =>
      SingleRead(t, before, symbol, kind, bytes, rest);
    case _ =>
      assert [] + rest == rest;
      NothingRead(t, before, c, kind, bytes, rest);
  }
}
