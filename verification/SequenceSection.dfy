/** Whole sequence sections: number of sequences, modes, tables, bit stream. The
    encoder describes three tables of its own; the decoder reads sections of all modes
    and keeps its tables from one to the next. */
module SequenceSection {
  import opened Concatenation
  import opened Numbers
  import opened Bits
  import opened Results
  import opened BitWriting
  import opened BackwardReading
  import opened FseDistribution
  import opened FseStream
  import opened FseDescription
  import opened FseTableCoding
  import FseNormalise
  import FseRoundTrip
  import opened SequenceCodes
  import opened SequenceStream
  import opened SequenceCoding
  import opened SequenceHeader
  import opened SequenceTables
  import opened SequenceOrigins

  /** Three FSE coded tables: mode 2 for each kind of code. */
  const ALL_ENCODED: byte := 0xA8

  // ----- the codes of a list of sequences -----

  ghost predicate AllCodable(seqs: seq<Sequence>) {
    forall i :: 0 <= i < |seqs| ==> Codable(seqs[i])
  }

  function LlCodes(seqs: seq<Sequence>): (c: seq<nat>)
    requires AllCodable(seqs)
    ensures |c| == |seqs|
  {
    seq(|seqs|, i requires 0 <= i < |seqs| => EncodeLiteralLength(seqs[i].ll).symbol)
  }

  function MlCodes(seqs: seq<Sequence>): (c: seq<nat>)
    requires AllCodable(seqs)
    ensures |c| == |seqs|
  {
    seq(|seqs|, i requires 0 <= i < |seqs| => EncodeMatchLen(seqs[i].ml).symbol)
  }

  function OfCodes(seqs: seq<Sequence>): (c: seq<nat>)
    requires AllCodable(seqs)
    ensures |c| == |seqs|
  {
    seq(|seqs|, i requires 0 <= i < |seqs| => EncodeOffset(seqs[i].of).symbol)
  }

  ghost predicate SomePositive(codes: seq<nat>) {
    exists i :: 0 <= i < |codes| && codes[i] > 0
  }

  /** What the encoder needs: codable sequences, and of each kind a code above zero,
      since its table builder has to find a second symbol. */
  ghost predicate Encodable(seqs: seq<Sequence>) {
    && 1 <= |seqs| <= 0x7EFF && AllCodable(seqs)
    && SomePositive(LlCodes(seqs)) && SomePositive(MlCodes(seqs)) && SomePositive(OfCodes(seqs))
  }

  lemma CodeBounds(seqs: seq<Sequence>)
    requires AllCodable(seqs)
    ensures forall i :: 0 <= i < |seqs| ==> LlCodes(seqs)[i] <= MAX_LITERAL_LENGTH_CODE
    ensures forall i :: 0 <= i < |seqs| ==> MlCodes(seqs)[i] <= MAX_MATCH_LENGTH_CODE
    ensures forall i :: 0 <= i < |seqs| ==> OfCodes(seqs)[i] <= MAX_OFFSET_CODE
  {
    hide EncodeLiteralLength, EncodeMatchLen, EncodeOffset, LookupLlCode, LookupMlCode, Pow2;
    forall i | 0 <= i < |seqs|
      ensures LlCodes(seqs)[i] <= MAX_LITERAL_LENGTH_CODE && MlCodes(seqs)[i] <= MAX_MATCH_LENGTH_CODE && OfCodes(seqs)[i] <= MAX_OFFSET_CODE
    {
      LiteralLengthInverts(seqs[i].ll);
      MatchLenInverts(seqs[i].ml);
      OffsetInverts(seqs[i].of);
    }
  }

  // ----- tables for a list of sequences -----

  datatype Distributions = Distributions(ll: seq<int>, ml: seq<int>, of: seq<int>)

  ghost predicate MadeFor(e: Encoders, p: Distributions, k: Logs, seqs: seq<Sequence>) {
    && AllCodable(seqs)
    && FseNormalise.TableForData(p.ll, k.ll, LL_MAX_LOG, true, LlCodes(seqs)) && e.ll == EncodeTable(p.ll, k.ll)
    && FseNormalise.TableForData(p.ml, k.ml, ML_MAX_LOG, true, MlCodes(seqs)) && e.ml == EncodeTable(p.ml, k.ml)
    && FseNormalise.TableForData(p.of, k.of, OF_MAX_LOG, true, OfCodes(seqs)) && e.of == EncodeTable(p.of, k.of)
  }

  /** One table per kind of code, made from the codes themselves. */
  method ChooseTables(seqs: seq<Sequence>) returns (e: Encoders, ghost p: Distributions, ghost k: Logs)
    requires Encodable(seqs)
    ensures MadeFor(e, p, k, seqs)
  {
    hide EncodeTable, FseNormalise.TableForData, Pow2, EncodeLiteralLength, EncodeMatchLen, EncodeOffset;
    CodeBounds(seqs);
    Pow2Values();
    Pow2Mono(8, 9);
    FseNormalise.SmallSymbols(LlCodes(seqs), LL_MAX_LOG, true);
    FseNormalise.SmallSymbols(MlCodes(seqs), ML_MAX_LOG, true);
    FseNormalise.SmallSymbols(OfCodes(seqs), OF_MAX_LOG, true);
    var ll, ml, of;
    ghost var pl, pm, po, kl, km, ko;
    ll, pl, kl := FseNormalise.BuildTableFromData(LlCodes(seqs), LL_MAX_LOG, true);
    ml, pm, km := FseNormalise.BuildTableFromData(MlCodes(seqs), ML_MAX_LOG, true);
    of, po, ko := FseNormalise.BuildTableFromData(OfCodes(seqs), OF_MAX_LOG, true);
    e := Encoders(ll, ml, of);
    p := Distributions(pl, pm, po);
    k := Logs(kl, km, ko);
  }

  ghost function DescribedBy(p: Distributions, k: Logs): Choices {
    Choices(Described(p.ll, k.ll), Described(p.ml, k.ml), Described(p.of, k.of))
  }

  ghost function FromAll(p: Distributions, k: Logs): Origins {
    Origins(FromProbs(p.ll, k.ll), FromProbs(p.ml, k.ml), FromProbs(p.of, k.of))
  }

  /** Such tables code the list, and their descriptions are a possible choice. */
  lemma TablesCode(e: Encoders, p: Distributions, k: Logs, seqs: seq<Sequence>)
    requires MadeFor(e, p, k, seqs)
    ensures GoodChoices(DescribedBy(p, k)) && GoodOrigins(FromAll(p, k)) && ModesByte(DescribedBy(p, k)) == ALL_ENCODED
    ensures CoversAll(FromAll(p, k), seqs) && EncodersOf(FromAll(p, k)) == e
  {
    hide EncodeTable, DecodeTable, ValidProbs, EncodeLiteralLength, EncodeMatchLen, EncodeOffset, Pow2,
      FseNormalise.TableForData;
    CodeBounds(seqs);
    TableCovers(p.ll, k.ll, LL_MAX_LOG, LlCodes(seqs));
    TableCovers(p.ml, k.ml, ML_MAX_LOG, MlCodes(seqs));
    TableCovers(p.of, k.of, OF_MAX_LOG, OfCodes(seqs));
    forall i | 0 <= i < |seqs|
      ensures CoversSeq(FromAll(p, k), seqs[i])
    {
      assert LlCodes(seqs)[i] == EncodeLiteralLength(seqs[i].ll).symbol;
      assert MlCodes(seqs)[i] == EncodeMatchLen(seqs[i].ml).symbol;
      assert OfCodes(seqs)[i] == EncodeOffset(seqs[i].of).symbol;
    }
  }

  lemma TableCovers(probs: seq<int>, k: nat, maxLog: nat, codes: seq<nat>)
    requires FseNormalise.TableForData(probs, k, maxLog, true, codes)
    ensures ValidProbs(probs, k) && 5 <= k <= maxLog && Occur(probs, codes)
    ensures exists i :: 0 <= i < |codes| && codes[i] == |probs| - 1
  {
  }

  // ----- the bits of a section -----

  /** A list that tables of these origins, after these choices, can code. */
  ghost predicate Writable(seqs: seq<Sequence>, before: Origins, c: Choices) {
    && 1 <= |seqs| <= 0x7EFF && GoodOrigins(before) && GoodChoices(c)
    && CoversAll(ChosenAll(before, c), seqs)
  }

  /** A decoding table of the origin. */
  ghost function Holder(o: Origin): CodeTable
    requires o.FromProbs? ==> ValidProbs(o.probs, o.k)
  {
    match o
    case Unknown => CodeTable([], 0, None)
    case FromProbs(probs, k) => CodeTable(DecodeTable(probs, k), k, None)
    case FromSingle(symbol) => CodeTable([], 0, Some(symbol))
  }

  lemma HolderFits(o: Origin, maxCode: nat)
    requires GoodOrigin(o, maxCode)
    ensures Fits(Holder(o), o) && Sound(Holder(o), maxCode)
  {
    hide DecodeTable, Pow2, ValidProbs;
    if o.FromProbs? {
      BuiltSound(o.probs, o.k, maxCode);
    }
  }

  lemma WritableCodes(seqs: seq<Sequence>, before: Origins, c: Choices)
    requires Writable(seqs, before, c)
    ensures GoodOrigins(ChosenAll(before, c))
    ensures CanEncodeSeqs(EncodersOf(ChosenAll(before, c)), seqs) && TableSizes(EncodersOf(ChosenAll(before, c)))
  {
    hide ValidProbs, Sound, CoversAll, ChosenAll, GoodChoices, Fits, Holder, AgreeCodes, CanEncodeSeqs,
      TableSizes, CodedSeqs, EncodersOf;
    ChosenGood(before, c);
    var o := ChosenAll(before, c);
    HolderFits(o.ll, MAX_LITERAL_LENGTH_CODE);
    HolderFits(o.ml, MAX_MATCH_LENGTH_CODE);
    HolderFits(o.of, MAX_OFFSET_CODE);
    var t := CodeTables(Holder(o.ll), Holder(o.ml), Holder(o.of));
    OriginsAgree(o, t, seqs);
    SectionRoundTrip(EncodersOf(o), t, seqs);
  }

  ghost function StreamBits(e: Encoders, seqs: seq<Sequence>): (b: seq<bool>)
    requires |seqs| > 0 && CanEncodeSeqs(e, seqs) && TableSizes(e)
    ensures |b| % 8 == 0 && b != []
  {
    WithMarker(CodedSeqs(e, seqs).0 + StateBits(e, CodedSeqs(e, seqs).1))
  }

  /** Tables in the order literal lengths, offsets, match lengths, then the stream. */
  ghost function TablesAndStream(seqs: seq<Sequence>, before: Origins, c: Choices): (b: seq<bool>)
    requires Writable(seqs, before, c)
  {
    WritableCodes(seqs, before, c);
    KindsAreGood();
    ChoiceBits(c.ll, LL_KIND) + (ChoiceBits(c.of, OF_KIND) + (ChoiceBits(c.ml, ML_KIND) + StreamBits(EncodersOf(ChosenAll(before, c)), seqs)))
  }

  ghost function SectionBits(seqs: seq<Sequence>, before: Origins, c: Choices): (b: seq<bool>)
    requires Writable(seqs, before, c)
  {
    BytesToBits(SeqNumBytes(|seqs|) + [ModesByte(c)]) + TablesAndStream(seqs, before, c)
  }

  /** Behind the bytes `prefix` the bytes hold a section for the list, or a single zero
      for the empty list. */
  ghost predicate Carries(bytes: seq<byte>, prefix: seq<byte>, seqs: seq<Sequence>, before: Origins, c: Choices) {
    if seqs == [] then bytes == prefix + [0] else
    Writable(seqs, before, c) && BytesToBits(bytes) == BytesToBits(prefix) + SectionBits(seqs, before, c)
  }

  /** Where the tables come from behind a section. */
  ghost function Afterwards(seqs: seq<Sequence>, before: Origins, c: Choices): Origins {
    if seqs == [] then before else ChosenAll(before, c)
  }

  // ----- writing -----

  method AppendTable(writer: BitWriter, e: EncodingTable, ghost probs: seq<int>, ghost k: nat)
    requires writer.Valid() && |writer.Contents()| % 8 == 0
    requires ValidProbs(probs, k) && 5 <= k <= 20 && e == EncodeTable(probs, k)
    modifies writer
    ensures writer.Valid() && |writer.Contents()| % 8 == 0
    ensures writer.Contents() == old(writer.Contents()) + TableBits(probs, k)
  {
    hide EncodeTable, ValidProbs, Description, Aligned, Describable, BitWriter.Contents, BitWriter.Valid;
    ghost var start := writer.Contents();
    FseRoundTrip.TableIsDescribable(probs, k);
    WriteTable(writer, e, k);
    DescriptionIs(e, k);
    FseRoundTrip.AlignedBehind(start, Description(ProbsOf(e), k));
  }

  lemma DescriptionIs(e: EncodingTable, k: nat)
    requires Describable(e, k)
    ensures Probabilities(ProbsOf(e)) && WeightFrom(ProbsOf(e), 0) == Pow2(k) && k >= 5
  {
  }

  /** The three descriptions, in the order literal lengths, offsets, match lengths. */
  method AppendTables(writer: BitWriter, e: Encoders, ghost p: Distributions, ghost k: Logs)
    requires writer.Valid() && |writer.Contents()| % 8 == 0
    requires GoodChoices(DescribedBy(p, k))
    requires e.ll == EncodeTable(p.ll, k.ll) && e.of == EncodeTable(p.of, k.of) && e.ml == EncodeTable(p.ml, k.ml)
    modifies writer
    ensures writer.Valid() && |writer.Contents()| % 8 == 0
    ensures writer.Contents() == old(writer.Contents()) + (TableBits(p.ll, k.ll) + TableBits(p.of, k.of) + TableBits(p.ml, k.ml))
  {
    hide EncodeTable, ValidProbs, TableBits, BitWriter.Contents, BitWriter.Valid;
    ghost var start := writer.Contents();
    AppendTable(writer, e.ll, p.ll, k.ll);
    AppendTable(writer, e.of, p.of, k.of);
    AppendTable(writer, e.ml, p.ml, k.ml);
    Join4(start, TableBits(p.ll, k.ll), TableBits(p.of, k.of), TableBits(p.ml, k.ml));
  }

  /** Whatever the tables were before: all three are described anew. */
  method WriteSection(writer: BitWriter, seqs: seq<Sequence>, ghost before: Origins) returns (ghost c: Choices)
    requires writer.Valid() && |writer.Contents()| % 8 == 0 && Encodable(seqs) && GoodOrigins(before)
    modifies writer
    ensures writer.Valid() && |writer.Contents()| % 8 == 0
    ensures Writable(seqs, before, c) && ModesByte(c) == ALL_ENCODED
    ensures writer.Contents() == old(writer.Contents()) + SectionBits(seqs, before, c)
  {
    hide EncodeTable, BytesToBits, TableBits, CodedSeqs, StateBits, WithMarker, CanEncodeSeqs, MadeFor, Pow2,
      TableSizes, TablesAndStream, GoodOrigins, GoodChoices, CoversAll, BitWriter.Contents, BitWriter.Valid, EncodersOf;
    ghost var start := writer.Contents();
    EncodeSeqNum(writer, |seqs|);
    Pow2Values();
    var table;
    ghost var p, k;
    table, p, k := ChooseTables(seqs);
    c := DescribedBy(p, k);
    TablesCode(table, p, k, seqs);
    assert ChosenAll(before, c) == FromAll(p, k);
    WritableCodes(seqs, before, c);
    ModesBehind(start, SeqNumBytes(|seqs|));
    writer.WriteBits(ALL_ENCODED, 8);
    MadeTables(table, p, k, seqs);
    AppendTables(writer, table, p, k);
    ghost var tables := writer.Contents();
    EncodeSequences(writer, seqs, table);
    FseRoundTrip.MarkerBehind(tables, CodedSeqs(table, seqs).0 + StateBits(table, CodedSeqs(table, seqs).1));
    AllParts(start, seqs, before, table, p, k);
  }

  lemma MadeTables(e: Encoders, p: Distributions, k: Logs, seqs: seq<Sequence>)
    requires MadeFor(e, p, k, seqs)
    ensures ValidProbs(p.ll, k.ll) && ValidProbs(p.ml, k.ml) && ValidProbs(p.of, k.of)
    ensures e.ll == EncodeTable(p.ll, k.ll) && e.of == EncodeTable(p.of, k.of) && e.ml == EncodeTable(p.ml, k.ml)
  {
  }

  lemma AllParts(start: seq<bool>, seqs: seq<Sequence>, before: Origins, e: Encoders, p: Distributions, k: Logs)
    requires Writable(seqs, before, DescribedBy(p, k)) && GoodOrigins(FromAll(p, k)) && e == EncodersOf(FromAll(p, k))
    requires ModesByte(DescribedBy(p, k)) == ALL_ENCODED && CanEncodeSeqs(e, seqs) && TableSizes(e)
    ensures start + BytesToBits(SeqNumBytes(|seqs|) + [ALL_ENCODED])
      + (TableBits(p.ll, k.ll) + TableBits(p.of, k.of) + TableBits(p.ml, k.ml)) + StreamBits(e, seqs)
      == start + SectionBits(seqs, before, DescribedBy(p, k))
  {
    hide ValidProbs, CanEncodeSeqs, TableSizes, BytesToBits, TableBits, StreamBits, EncodersOf, CoversAll;
    var head := BytesToBits(SeqNumBytes(|seqs|) + [ALL_ENCODED]);
    var t1, t2, t3, s := TableBits(p.ll, k.ll), TableBits(p.of, k.of), TableBits(p.ml, k.ml), StreamBits(e, seqs);
    Join6(start, head, t1, t2, t3, s);
    Join4(start + head, t1, t2, t3);
  }

  lemma ModesBehind(start: seq<bool>, num: seq<byte>)
    ensures start + BytesToBits(num) + BitsOf(ALL_ENCODED, 8) == start + BytesToBits(num + [ALL_ENCODED])
    ensures |start| % 8 == 0 ==> |start + BytesToBits(num + [ALL_ENCODED])| % 8 == 0
  {
    hide BytesToBits, BitsOf;
    SingleByte(ALL_ENCODED);
    BytesAppend(num, [ALL_ENCODED]);
  }

  method WriteBehind(prefix: seq<byte>, seqs: seq<Sequence>, ghost before: Origins) returns (bytes: seq<byte>, ghost c: Choices)
    requires (seqs == [] || Encodable(seqs)) && GoodOrigins(before)
    ensures Carries(bytes, prefix, seqs, before, c)
  {
    hide BytesToBits, SectionBits, Encodable, GoodOrigins, CoversAll, GoodChoices, BitWriter.Contents, BitWriter.Valid;
    var writer := new BitWriter.From(prefix);
    if seqs == [] {
      writer.WriteBits(0, 8);
      bytes := writer.Dump();
      SingleByte(0);
      BytesAppend(prefix, [0]);
      BytesInjective(bytes, prefix + [0]);
      c := Choices(Again, Again, Again);
      return;
    }
    c := WriteSection(writer, seqs, before);
    bytes := writer.Dump();
  }

  // ----- reading -----

  datatype SectionError =
    | HeaderError(h: SequencesHeaderParseError)
    | SequenceError(s: DecodeSequenceError)

  /** What a decoder with these tables makes of a section: the sequences and the tables
      it goes on with, or nothing when there is an error. */
  ghost function SectionRead(t: CodeTables, source: seq<byte>): Option<(seq<Sequence>, CodeTables)>
    requires SoundTables(t)
  {
    var header := ParseFromHeader(source);
    HeaderInside(source);
    if header.Err? then None else
    var raw := source[header.value.bytesRead..];
    if header.value.numSequences == 0 then (if raw == [] then Some(([], t)) else None) else
    var u := UpdatedTables(t, header.value.modes.value, raw);
    if u.None? then None else
    UpdatedTablesSound(t, header.value.modes.value, raw);
    var r := DecodedSection(u.value.0, BytesToBits(raw[u.value.1..]), header.value.numSequences);
    if r.Err? then None else Some((r.value, u.value.0))
  }

  lemma HeaderInside(source: seq<byte>)
    ensures var header := ParseFromHeader(source);
      header.Ok? ==> header.value.bytesRead <= |source| && (header.value.modes.None? <==> header.value.numSequences == 0)
  {
  }

  lemma HeaderRead(source: seq<byte>, n: nat, modes: byte, rest: seq<bool>)
    requires 1 <= n <= 0x7EFF && BytesToBits(source) == BytesToBits(SeqNumBytes(n) + [modes]) + rest
    ensures ParseFromHeader(source) == Ok(Header(n, Some(modes), |SeqNumBytes(n)| + 1))
    ensures |SeqNumBytes(n)| + 1 <= |source| && BytesToBits(source[|SeqNumBytes(n)| + 1..]) == rest
  {
    hide BytesToBits, ParseFromHeader, SeqNumBytes;
    var head := SeqNumBytes(n) + [modes];
    SplitBytes(source, BytesToBits(head), rest, |head|);
    BytesInjective(source[..|head|], head);
    assert source == SeqNumBytes(n) + [modes] + source[|head|..];
    SeqNumRoundTrip(n, modes, source[|head|..]);
  }

  /** The tables the modes ask for are found, whatever comes next. */
  lemma TablesTrack(t: CodeTables, before: Origins, c: Choices, raw: seq<byte>, stream: seq<bool>)
    requires GoodOrigins(before) && AllFit(t, before) && GoodChoices(c) && stream != []
    requires KindsGood()
    requires BytesToBits(raw) == ChoiceBits(c.ll, LL_KIND) + (ChoiceBits(c.of, OF_KIND) + (ChoiceBits(c.ml, ML_KIND) + stream))
    ensures GoodOrigins(ChosenAll(before, c))
    ensures var u := UpdatedTables(t, ModesByte(c), raw);
      u.Some? && AllFit(u.value.0, ChosenAll(before, c)) && BytesToBits(raw[u.value.1..]) == stream
  {
    hide BytesToBits, Updated, GoodOrigin, GoodChoice, Fits, Chosen, ChoiceBits, LlMode, OfMode, MlMode, GoodKind;
    var afterOf := ChoiceBits(c.ml, ML_KIND) + stream;
    var afterLl := ChoiceBits(c.of, OF_KIND) + afterOf;
    ChoiceRead(t.ll, before.ll, c.ll, LL_KIND, raw, afterLl);
    var n1 := Updated(t.ll, ModeOf(c.ll), raw, LL_KIND).value.1;
    ChoiceRead(t.of, before.of, c.of, OF_KIND, raw[n1..], afterOf);
    var n2 := Updated(t.of, ModeOf(c.of), raw[n1..], OF_KIND).value.1;
    ChoiceRead(t.ml, before.ml, c.ml, ML_KIND, raw[n1..][n2..], stream);
    var n3 := Updated(t.ml, ModeOf(c.ml), raw[n1..][n2..], ML_KIND).value.1;
    assert raw[n1 + n2 + n3..] == raw[n1..][n2..][n3..];
  }

  ghost predicate KindsGood() {
    GoodKind(LL_KIND) && GoodKind(ML_KIND) && GoodKind(OF_KIND)
  }

  /** A decoder whose tables come from where the writer thinks they do reads the list
      and again has the tables the writer thinks it has: for every list, every choice
      of modes, and whatever was kept from the sections before. */
  lemma SectionTracks(t: CodeTables, source: seq<byte>, seqs: seq<Sequence>, before: Origins, c: Choices)
    requires SoundTables(t) && GoodOrigins(before) && AllFit(t, before) && Carries(source, [], seqs, before, c)
    ensures GoodOrigins(Afterwards(seqs, before, c))
    ensures var r := SectionRead(t, source);
      r.Some? && r.value.0 == seqs && SoundTables(r.value.1) && AllFit(r.value.1, Afterwards(seqs, before, c))
  {
    hide BytesToBits, ParseFromHeader, SeqNumBytes, UpdatedTables, DecodedSection, GoodOrigins, GoodChoices, CoversAll,
      AllFit, SoundTables, ChosenAll, EncodersOf, StreamBits, ChoiceBits, GoodKind;
    HeaderInside(source);
    if seqs == [] {
      EmptySection(source);
    } else {
      KindsAreGood();
      WritableCodes(seqs, before, c);
      var stream := StreamBits(EncodersOf(ChosenAll(before, c)), seqs);
      var rest := TablesAndStream(seqs, before, c);
      assert [] + SectionBits(seqs, before, c) == SectionBits(seqs, before, c);
      HeaderRead(source, |seqs|, ModesByte(c), rest);
      var raw := source[|SeqNumBytes(|seqs|)| + 1..];
      TablesTrack(t, before, c, raw, stream);
      UpdatedTablesSound(t, ModesByte(c), raw);
      StreamRead(UpdatedTables(t, ModesByte(c), raw).value.0, ChosenAll(before, c), seqs);
    }
  }

  lemma EmptySection(source: seq<byte>)
    requires source == [] + [0]
    ensures ParseFromHeader(source) == Ok(Header(0, None, 1)) && source[1..] == []
  {
  }

  lemma StreamRead(t: CodeTables, o: Origins, seqs: seq<Sequence>)
    requires SoundTables(t) && GoodOrigins(o) && AllFit(t, o) && CoversAll(o, seqs) && |seqs| > 0
    ensures var e := EncodersOf(o);
      CanEncodeSeqs(e, seqs) && TableSizes(e) && DecodedSection(t, StreamBits(e, seqs), |seqs|) == Ok(seqs)
  {
    hide SoundTables, GoodOrigins, AllFit, CoversAll, EncodersOf, CodedSeqs, StateBits, DecodedSection, AgreeCodes,
      CanEncodeSeqs, TableSizes;
    OriginsAgree(o, t, seqs);
    SectionRoundTrip(EncodersOf(o), t, seqs);
  }

  lemma SoundDecodable(t: CodeTables)
    requires SoundTables(t)
    ensures Decodable(t)
  {
  }

  /** Read one section of any modes. */
  method ReadSection(scratch: FseScratch, source: seq<byte>) returns (r: Result<seq<Sequence>, SectionError>)
    requires scratch.Valid()
    modifies scratch, scratch.literalLengths, scratch.offsets, scratch.matchLengths
    ensures var read := SectionRead(old(scratch.Tables()), source);
      && (r.Ok? <==> read.Some?)
      && (r.Ok? ==> scratch.Valid() && read.value == (r.value, scratch.Tables()))
    ensures var header := ParseFromHeader(source);
      && (header.Err? ==> r == Err(HeaderError(header.error)))
      && (header.Ok? && header.value.numSequences == 0 && header.value.bytesRead < |source| ==>
            r == Err(SequenceError(ExtraBits(8 * (|source| - header.value.bytesRead)))))
  {
    hide BytesToBits, ParseFromHeader, UpdatedTables, DecodedSection, Sound;
    HeaderInside(source);
    var header := ParseFromHeader(source);
    if header.Err? { return Err(HeaderError(header.error)); }
    var h := header.value;
    var raw := source[h.bytesRead..];
    if h.numSequences == 0 {
      if raw != [] { return Err(SequenceError(ExtraBits(8 * |raw|))); }
      return Ok([]);
    }
    var n := scratch.MaybeUpdateFseTables(h.modes, raw);
    if n.Err? { return Err(SequenceError(n.error)); }
    SoundDecodable(scratch.Tables());
    var decoded := DecodeSequences(raw[n.value..],
      CodeTables(CodeTable(scratch.literalLengths.decode, scratch.literalLengths.accuracyLog, scratch.llRle),
        CodeTable(scratch.matchLengths.decode, scratch.matchLengths.accuracyLog, scratch.mlRle),
        CodeTable(scratch.offsets.decode, scratch.offsets.accuracyLog, scratch.ofRle)), h.numSequences);
    r := if decoded.Err? then Err(SequenceError(decoded.error)) else Ok(decoded.value);
  }

  /** Whatever list the section behind `from` bytes was written for is read. */
  method ReadBehind(scratch: FseScratch, bytes: seq<byte>, from: nat,
      ghost prefix: seq<byte>, ghost seqs: seq<Sequence>, ghost before: Origins, ghost c: Choices)
    returns (decoded: Result<seq<Sequence>, SectionError>)
    requires scratch.Valid() && GoodOrigins(before) && AllFit(scratch.Tables(), before)
    requires Carries(bytes, prefix, seqs, before, c) && from == |prefix|
    modifies scratch, scratch.literalLengths, scratch.offsets, scratch.matchLengths
    ensures decoded == Ok(seqs) && scratch.Valid() && GoodOrigins(Afterwards(seqs, before, c))
    ensures AllFit(scratch.Tables(), Afterwards(seqs, before, c))
  {
    hide BytesToBits, SectionBits, SectionRead, GoodOrigins, AllFit, SoundTables, Afterwards, Writable;
    CarriesBehind(bytes, prefix, seqs, before, c);
    SectionTracks(scratch.Tables(), bytes[from..], seqs, before, c);
    decoded := ReadSection(scratch, bytes[from..]);
  }

  lemma CarriesBehind(bytes: seq<byte>, prefix: seq<byte>, seqs: seq<Sequence>, before: Origins, c: Choices)
    requires Carries(bytes, prefix, seqs, before, c)
    ensures |prefix| <= |bytes| && Carries(bytes[|prefix|..], [], seqs, before, c)
  {
    hide BytesToBits, SectionBits, Writable;
    if seqs == [] {
      assert bytes[|prefix|..] == [] + [0];
    } else {
      SplitBytes(bytes, BytesToBits(prefix), SectionBits(seqs, before, c), |prefix|);
      assert BytesToBits([]) + SectionBits(seqs, before, c) == SectionBits(seqs, before, c) by { assert BytesToBits([]) == []; }
    }
  }

  const NOTHING_KNOWN: Origins := Origins(Unknown, Unknown, Unknown)

  /** A list of sequences through a whole section and back, with any decoder. */
  method RoundTrip(scratch: FseScratch, prefix: seq<byte>, seqs: seq<Sequence>)
    returns (bytes: seq<byte>, decoded: Result<seq<Sequence>, SectionError>, ghost c: Choices)
    requires scratch.Valid() && (seqs == [] || Encodable(seqs))
    modifies scratch, scratch.literalLengths, scratch.offsets, scratch.matchLengths
    ensures Carries(bytes, prefix, seqs, NOTHING_KNOWN, c) && decoded == Ok(seqs) && scratch.Valid()
  {
    hide Carries, Encodable;
    bytes, c := WriteBehind(prefix, seqs, NOTHING_KNOWN);
    decoded := ReadBehind(scratch, bytes, |prefix|, prefix, seqs, NOTHING_KNOWN, c);
  }

  // ----- runs of sections -----

  datatype Written = Written(seqs: seq<Sequence>, c: Choices, bytes: seq<byte>)

  /** Sections one after the other, each choosing its tables, possibly again those of
      the section before. */
  ghost predicate WrittenRun(before: Origins, ws: seq<Written>)
    decreases |ws|
  {
    ws == [] || (
      && Carries(ws[0].bytes, [], ws[0].seqs, before, ws[0].c)
      && WrittenRun(Afterwards(ws[0].seqs, before, ws[0].c), ws[1..]))
  }

  ghost function RunRead(t: CodeTables, sections: seq<seq<byte>>): (r: Option<seq<seq<Sequence>>>)
    requires SoundTables(t)
    decreases |sections|
  {
    if sections == [] then Some([]) else
    var first := SectionRead(t, sections[0]);
    if first.None? then None else
    SectionReadSound(t, sections[0]);
    var rest := RunRead(first.value.1, sections[1..]);
    if rest.None? then None else Some([first.value.0] + rest.value)
  }

  lemma SectionReadSound(t: CodeTables, source: seq<byte>)
    requires SoundTables(t)
    ensures var r := SectionRead(t, source); r.Some? ==> SoundTables(r.value.1)
  {
    hide SoundTables, ParseFromHeader, UpdatedTables, DecodedSection, BytesToBits;
    HeaderInside(source);
    var header := ParseFromHeader(source);
    if header.Ok? && header.value.numSequences > 0 {
      UpdatedTablesSound(t, header.value.modes.value, source[header.value.bytesRead..]);
    }
  }

  /** Every list of a run is read, through any mixture of modes. */
  lemma {:induction false} RunTracks(t: CodeTables, before: Origins, ws: seq<Written>, sections: seq<seq<byte>>)
    requires SoundTables(t) && GoodOrigins(before) && AllFit(t, before) && WrittenRun(before, ws)
    requires |sections| == |ws| && forall i :: 0 <= i < |ws| ==> sections[i] == ws[i].bytes
    ensures var r := RunRead(t, sections);
      r.Some? && |r.value| == |ws| && forall i :: 0 <= i < |ws| ==> r.value[i] == ws[i].seqs
    decreases |ws|
  {
    hide SoundTables, GoodOrigins, AllFit, Carries, Afterwards, SectionRead;
    if ws != [] {
      var next := Afterwards(ws[0].seqs, before, ws[0].c);
      SectionTracks(t, sections[0], ws[0].seqs, before, ws[0].c);
      var t' := SectionRead(t, sections[0]).value.1;
      RunTracks(t', next, ws[1..], sections[1..]);
      var rest := RunRead(t', sections[1..]);
      forall i | 0 <= i < |ws|
        ensures ([ws[0].seqs] + rest.value)[i] == ws[i].seqs
      {
        assert i > 0 ==> rest.value[i - 1] == ws[1..][i - 1].seqs;
      }
    }
  }

  /** The sections of a frame, with the tables kept between them. */
  method ReadSections(scratch: FseScratch, sections: seq<seq<byte>>) returns (r: Option<seq<seq<Sequence>>>)
    requires scratch.Valid()
    modifies scratch, scratch.literalLengths, scratch.offsets, scratch.matchLengths
    ensures r == RunRead(old(scratch.Tables()), sections)
  {
    hide SectionRead, SoundTables;
    ghost var all := RunRead(scratch.Tables(), sections);
    var lists: seq<seq<Sequence>> := [];
    assert sections[0..] == sections;
    BehindNothing(all);
    for i := 0 to |sections|
      invariant scratch.Valid() && |lists| == i
      invariant all == Behind(lists, RunRead(scratch.Tables(), sections[i..]))
    {
      assert sections[i..][0] == sections[i] && sections[i..][1..] == sections[i + 1..];
      SectionReadSound(scratch.Tables(), sections[i]);
      BehindOne(lists, scratch.Tables(), sections[i..]);
      var read := ReadSection(scratch, sections[i]);
      if read.Err? { return None; }
      lists := lists + [read.value];
    }
    assert sections[|sections|..] == [];
    assert lists + [] == lists;
    r := Some(lists);
  }

  ghost function Behind(done: seq<seq<Sequence>>, rest: Option<seq<seq<Sequence>>>): Option<seq<seq<Sequence>>> {
    if rest.None? then None else Some(done + rest.value)
  }

  lemma BehindNothing(rest: Option<seq<seq<Sequence>>>)
    ensures Behind([], rest) == rest
  {
    assert rest.Some? ==> [] + rest.value == rest.value;
  }

  lemma BehindOne(done: seq<seq<Sequence>>, t: CodeTables, sections: seq<seq<byte>>)
    requires SoundTables(t) && sections != []
    ensures var first := SectionRead(t, sections[0]);
      if first.None? then Behind(done, RunRead(t, sections)) == None
      else
        && SoundTables(first.value.1)
        && Behind(done, RunRead(t, sections)) == Behind(done + [first.value.0], RunRead(first.value.1, sections[1..]))
  {
    hide SectionRead, SoundTables;
    SectionReadSound(t, sections[0]);
    var first := SectionRead(t, sections[0]);
    if first.Some? {
      var rest := RunRead(first.value.1, sections[1..]);
      if rest.Some? {
        Join3(done, [first.value.0], rest.value);
      }
    }
  }
}
