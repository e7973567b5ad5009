/** Writing a Huffman table's description and reading it back, and the literals
    round trip through table, streams and decoder. */
module HuffmanDescription {
  import opened Concatenation
  import opened Numbers
  import opened Bits
  import opened Results
  import opened BitWriting
  import opened BackwardReading
  import opened FseDistribution
  import opened FseStream
  import opened FseCoding
  import opened FseDescription
  import opened FseTableCoding
  import opened FseDecodingTable
  import FseRoundTrip
  import FseNormalise
  import opened HuffmanCodes
  import opened HuffmanDecodingTable
  import opened HuffmanTableCoding

  // ----- writing -----

  /** The description as it is written, padded. */
  ghost function TableBits(e: EncodingTable, k: nat): (b: seq<bool>)
    requires Describable(e, k)
    ensures |b| % 8 == 0
  {
    Aligned(Description(ProbsOf(e), k))
  }

  ghost predicate CodesWith(e: EncodingTable, k: nat, ws: seq<nat>) {
    Describable(e, k) && CanEncodeAll(e, ws)
  }

  ghost function FormOf(e: EncodingTable, k: nat, ws: seq<nat>): (b: seq<bool>)
    requires CodesWith(e, k, ws) && |ws| > 1
    ensures |b| % 8 == 0 && b != []
  {
    Behind(TableBits(e, k), TwoStreamOf(e, ws, k))
  }

  function Behind(a: seq<bool>, b: seq<bool>): (c: seq<bool>)
    requires |a| % 8 == 0 && |b| % 8 == 0 && b != []
    ensures |c| % 8 == 0 && c != []
  {
    a + b
  }

  /** Description and stream of FSE coded weights. */
  ghost function FseForm(probs: seq<int>, k: nat, ws: seq<nat>): (b: seq<bool>)
    requires WeightTable(probs, k, ws) && |ws| > 1
    ensures |b| % 8 == 0 && b != []
  {
    DescriptionReady(probs, k, ws);
    FormOf(EncodeTable(probs, k), k, ws)
  }

  lemma DescriptionReady(probs: seq<int>, k: nat, ws: seq<nat>)
    requires WeightTable(probs, k, ws)
    ensures ValidProbs(probs, k) && 5 <= k <= 6 && CodesWith(EncodeTable(probs, k), k, ws)
    ensures Usable(EncodeTable(probs, k), ws) && AccLog(EncodeTable(probs, k)) == k
  {
    hide EncodeTable, DecodeTable, Pow2, ValidProbs, CanEncodeAll, TablesFor;
    FseRoundTrip.TableIsDescribable(probs, k);
    FseRoundTrip.TableIsUsable(probs, k, ws);
  }

  /** Behind complete bytes the padding comes out as it does at the beginning. */
  lemma FormBehind(start: seq<bool>, e: EncodingTable, k: nat, ws: seq<nat>)
    requires |start| % 8 == 0 && CodesWith(e, k, ws) && |ws| > 1
    ensures var (b, x, y) := CodedTwo(e, ws);
      WithMarker(Aligned(start + Description(ProbsOf(e), k)) + b + BitsOf(y, k) + BitsOf(x, k)) == start + FormOf(e, k, ws)
  {
    hide CanEncodeAll, CodedTwo, Pow2, BitsOf, Description, WithMarker, Aligned, WeightFrom;
    var (b, x, y) := CodedTwo(e, ws);
    FseRoundTrip.AlignedBehind(start, Description(ProbsOf(e), k));
    var table, rest := start + TableBits(e, k), b + BitsOf(y, k) + BitsOf(x, k);
    FseRoundTrip.MarkerBehind(table, rest);
    Join4(table, b, BitsOf(y, k), BitsOf(x, k));
    Join3(start, TableBits(e, k), TwoStreamOf(e, ws, k));
  }

  method EncodeWeights(writer: BitWriter, e: EncodingTable, ws: seq<nat>, ghost probs: seq<int>, ghost k: nat)
    requires writer.Valid() && |writer.Contents()| % 8 == 0
    requires WeightTable(probs, k, ws) && e == EncodeTable(probs, k) && |ws| >= 4
    modifies writer
    ensures writer.Valid() && writer.Contents() == old(writer.Contents()) + FseForm(probs, k, ws)
  {
    hide EncodeTable, CanEncodeAll, CodedTwo, Pow2, BitsOf, BytesToBits, Description, WithMarker, Aligned, WeightFrom,
      WeightTable, Describable, Usable, FormOf, AccLog, BitWriter.Contents, BitWriter.Valid;
    ghost var start := writer.Contents();
    DescriptionReady(probs, k, ws);
    WriteTable(writer, e, k);
    EncodeInterleavedSymbols(writer, e, ws);
    FormBehind(start, e, k, ws);
  }

  /** What stands in the stream for the weights `ws`: up to 16 as nibbles, more of
      them FSE coded with the size in front. */
  ghost predicate DescriptionOf(b: seq<bool>, ws: seq<nat>, probs: seq<int>, k: nat) {
    && (forall i :: 0 <= i < |ws| ==> ws[i] < 16)
    && if |ws| > 16 then
        && WeightTable(probs, k, ws) && |FseForm(probs, k, ws)| / 8 < 128
        && b == BitsOf(|FseForm(probs, k, ws)| / 8, 8) + FseForm(probs, k, ws)
      else
        |ws| >= 1 && b == BitsOf(|ws| + 127, 8) + BytesToBits(Packed(ws))
  }

  /** Weights an encoding table has: at least two symbols in use, one of them the
      last, the smallest weight one. */
  ghost predicate GoodWeights(ws: seq<nat>, m: nat) {
    && 2 <= |ws| <= 256 && Complete(ws, m) && 0 < m <= MAX_MAX_NUM_BITS
    && ws[|ws| - 1] > 0 && (exists s :: 0 <= s < |ws| - 1 && ws[s] > 0)
    && (exists s :: 0 <= s < |ws| && ws[s] == 1)
  }

  lemma GoodWeightsSmall(ws: seq<nat>, m: nat)
    requires GoodWeights(ws, m)
    ensures forall s :: 0 <= s < |ws| ==> ws[s] <= m
  {
    hide Complete;
    forall s | 0 <= s < |ws|
      ensures ws[s] <= m
    {
      if s < |ws| - 1 {
        SmallSpan(ws, m, s);
      } else {
        LastSmall(ws, m);
      }
    }
  }

  lemma LastSmall(ws: seq<nat>, m: nat)
    requires |ws| > 1 && Complete(ws, m) && exists s :: 0 <= s < |ws| - 1 && ws[s] > 0
    ensures ws[|ws| - 1] <= m
  {
    hide Pow2;
    var n := |ws| - 1;
    var s :| 0 <= s < |ws| - 1 && ws[s] > 0;
    KraftPart(ws, s, n);
    WeightBound(ws, m, n);
    SpanOfAll(ws[n], m);
  }

  /** All weights but the last. */
  function Front(ws: seq<nat>): seq<nat>
    requires ws != []
  {
    ws[..|ws| - 1]
  }

  lemma GoodTabled(ws: seq<nat>, m: nat)
    requires GoodWeights(ws, m)
    ensures var weights := Front(ws);
      FseNormalise.Tabled(weights, 6, true) && forall i :: 0 <= i < |weights| ==> weights[i] <= m
  {
    hide Complete, Pow2;
    GoodWeightsSmall(ws, m);
    var weights := Front(ws);
    Pow2Values();
    var s :| 0 <= s < |ws| - 1 && ws[s] > 0;
    assert weights[s] > 0;
    FseNormalise.SmallSymbols(weights, 6, true);
  }

  /** The bytes FSE coded weights take. */
  ghost function CodedSize(weights: seq<nat>): (n: nat)
    requires FseNormalise.Tabled(weights, 6, true) && |weights| > 1
  {
    FseNormalise.TabledTable(weights, 6, true);
    var (probs, k) := FseNormalise.Normalised(FseNormalise.CountsOf(weights), 6, true);
    |FseForm(probs, k, weights)| / 8
  }

  /** The source's assertion: coded weights take less than 128 bytes. */
  ghost predicate HeaderFits(ws: seq<nat>, m: nat)
    requires GoodWeights(ws, m)
  {
    GoodTabled(ws, m);
    |ws| <= 17 || CodedSize(Front(ws)) < 128
  }

  /** The last weight is left out. */
  method WriteWeights(writer: BitWriter, codes: seq<(nat, nat)>, ghost ws: seq<nat>, ghost m: nat)
    returns (fits: bool, ghost b: seq<bool>, ghost probs: seq<int>, ghost k: nat)
    requires writer.Valid() && |writer.Contents()| % 8 == 0
    requires GoodWeights(ws, m) && codes == Codes(ws, m)
    modifies writer
    ensures writer.Valid()
    ensures fits <==> HeaderFits(ws, m)
    ensures fits ==> |b| % 8 == 0 && DescriptionOf(b, Front(ws), probs, k)
    ensures fits ==> writer.Contents() == old(writer.Contents()) + b
  {
    hide Complete, Codes, EncodeTable, WeightsOf, BitsOf, BytesToBits, WeightTable, FseForm, Pow2, Packed,
      FseNormalise.Tabled, CodedSize, BitWriter.Contents, BitWriter.Valid;
    ghost var start := writer.Contents();
    GoodWeightsSmall(ws, m);
    GoodTabled(ws, m);
    WeightsBack(ws, m);
    var all := WeightsOf(codes);
    var weights := Front(all);
    Pow2Values();
    if |weights| > 16 {
      fits, b, probs, k := WriteFseForm(writer, weights);
    } else {
      probs, k := [], 0;
      writer.WriteBits(|weights| + 127, 8);
      WriteNibbles(writer, weights);
      b := BitsOf(|weights| + 127, 8) + BytesToBits(Packed(weights));
      assert start + BitsOf(|weights| + 127, 8) + BytesToBits(Packed(weights)) == start + b;
      fits := true;
    }
  }

  method WriteFseForm(writer: BitWriter, ws: seq<nat>)
    returns (fits: bool, ghost b: seq<bool>, ghost probs: seq<int>, ghost k: nat)
    requires writer.Valid() && |writer.Contents()| % 8 == 0 && |ws| > 16
    requires (forall i :: 0 <= i < |ws| ==> ws[i] < 16) && FseNormalise.Tabled(ws, 6, true)
    modifies writer
    ensures writer.Valid()
    ensures fits <==> CodedSize(ws) < 128
    ensures fits ==> |b| % 8 == 0 && DescriptionOf(b, ws, probs, k)
    ensures fits ==> writer.Contents() == old(writer.Contents()) + b
  {
    hide EncodeTable, BitsOf, BytesToBits, FseForm, Pow2, FseNormalise.Tabled, FseNormalise.Normalised, WeightTable,
      CodedSize, BitWriter.Contents, BitWriter.Valid;
    ghost var start := writer.Contents();
    var sizeIdx := writer.Index();
    Pow2Values();
    writer.WriteBits(0, 8);
    var idxBefore := writer.Index();
    ghost var form;
    form, probs, k := WriteTableAndWeights(writer, ws);
    var encodedLen := (writer.Index() - idxBefore) / 8;
    FormLength(|start + BitsOf(0, 8)|, |form|, CodedSize(ws));
    b := BitsOf(encodedLen, 8) + form;
    fits := encodedLen < 128;
    if fits {
      PatchLength(writer, sizeIdx, encodedLen, start, form);
    }
  }

  lemma FormLength(before: nat, form: nat, size: nat)
    requires form == 8 * size
    ensures (before + form - before) / 8 == size && form / 8 == size && (8 + form) % 8 == 0
  {
  }

  /** Fill in the length in front of table and weights. */
  method PatchLength(writer: BitWriter, idx: nat, len: nat, ghost start: seq<bool>, ghost form: seq<bool>)
    requires writer.Valid() && writer.bitsInPartial % 8 == 0 && idx == |start| && idx % 8 == 0 && len < 256 && form != []
    requires writer.Contents() == start + BitsOf(0, 8) + form
    modifies writer
    ensures writer.Valid() && writer.Contents() == start + (BitsOf(len, 8) + form)
  {
    hide BitsOf, BytesToBits, Pow2, Splice, BitWriter.Contents, BitWriter.Valid;
    Pow2Values();
    writer.ChangeBits(idx, len, 8);
    PatchSize(start, BitsOf(0, 8), BitsOf(len, 8), form);
  }

  /** Table and weights behind whatever complete bytes come before. */
  method WriteTableAndWeights(writer: BitWriter, ws: seq<nat>) returns (ghost form: seq<bool>, ghost probs: seq<int>, ghost k: nat)
    requires writer.Valid() && |writer.Contents()| % 8 == 0 && |ws| > 16 && FseNormalise.Tabled(ws, 6, true)
    modifies writer
    ensures writer.Valid() && writer.bitsInPartial % 8 == 0
    ensures WeightTable(probs, k, ws) && form == FseForm(probs, k, ws) && |form| == 8 * CodedSize(ws)
    ensures writer.Contents() == old(writer.Contents()) + form
  {
    hide EncodeTable, BytesToBits, FseForm, FseNormalise.Tabled, FseNormalise.TableForData, CodedSize, ValidProbs,
      Pow2, BitWriter.Contents, BitWriter.Valid;
    var e;
    e, probs, k := FseNormalise.BuildTableFromData(ws, 6, true);
    CodedSizeIs(probs, k, ws);
    EncodeWeights(writer, e, ws, probs, k);
    form := FseForm(probs, k, ws);
    writer.AlignedPartial();
  }

  lemma CodedSizeIs(probs: seq<int>, k: nat, ws: seq<nat>)
    requires WeightTable(probs, k, ws) && |ws| > 1
    ensures ValidProbs(probs, k) && FseNormalise.Tabled(ws, 6, true) && |FseForm(probs, k, ws)| == 8 * CodedSize(ws)
  {
    hide FseForm, FseNormalise.Normalised, FseNormalise.Normalisable, ValidProbs;
  }

  lemma PatchSize(s: seq<bool>, x: seq<bool>, a: seq<bool>, t: seq<bool>)
    requires |x| == |a|
    ensures Splice(s + x + t, |s|, a) == s + (a + t)
  {
  }

  // ----- reading -----

  /** FSE coded weights: table, marker, two decoders taking turns. */
  method ReadFseWeights(fseTable: FseTable, fse: seq<byte>, header: nat) returns (r: Result<seq<nat>, HuffmanTableError>)
    requires fseTable.maxSymbol == 255
    modifies fseTable
    ensures r.Ok? <==> FseWeights(fse, header).Some?
    ensures r.Ok? ==> r.value == FseWeights(fse, header).value
    ensures header > |fse| ==> r == Err(NotEnoughBytesForWeights(|fse|, header))
  {
    hide ReadBack, Consistent, Pow2, Remaining, BytesToBits, ParseDescription, ValidProbs, DecodeTable, Closed,
      SkipMarker, DecodedTwo;
    if header > |fse| {
      return Err(NotEnoughBytesForWeights(|fse|, header));
    }
    var built := FseTableCoding.BuildDecoder(fseTable, fse, 6);
    if built.Err? {
      return Err(FseTableFailed(built.error));
    }
    var used := built.value;
    if used > header {
      return Err(FseTableUsedTooManyBytes(used, header));
    }
    ghost var parsed := ParseDescription(BytesToBits(fse)).value;
    TableClosed(parsed.0, parsed.1);
    var compressedWeights := fse[used..header];
    r := ReadInterleaved(fseTable.decode, fseTable.accuracyLog, compressedWeights);
  }

  method ReadInterleaved(decode: seq<Entry>, accuracyLog: nat, source: seq<byte>) returns (r: Result<seq<nat>, HuffmanTableError>)
    requires Closed(decode) && |decode| == Pow2(accuracyLog) && 0 < accuracyLog <= MAX_LOG
    ensures r.Ok? <==> ReadTwo(decode, accuracyLog, BytesToBits(source)).Some?
    ensures r.Ok? ==> r.value == ReadTwo(decode, accuracyLog, BytesToBits(source)).value
  {
    hide ReadBack, Consistent, Pow2, Remaining, BytesToBits, Closed, SkipMarker, DecodedTwo, BitReaderReversed.Valid,
      BitReaderReversed.BitsRemaining;
    var dec1 := new FseDecoder(decode, accuracyLog);
    var dec2 := new FseDecoder(decode, accuracyLog);
    var br := new BitReaderReversed(source);
    var skipped := SkipPadding(br);
    if skipped > 8 {
      return Err(ExtraPadding(skipped));
    }
    var init1 := dec1.InitState(br);
    var init2 := dec2.InitState(br);
    var weights := DecodeInterleaved(dec1, dec2, br);
    if weights.Err? {
      return Err(HuffmanTableError.TooManyWeights(weights.error.got));
    }
    r := Ok(weights.value);
  }

  /** One nibble per weight, the high one first. */
  method ReadNibbles(raw: seq<byte>, n: nat) returns (ws: seq<nat>)
    requires (n + 1) / 2 <= |raw|
    ensures ws == Unpacked(raw, n)
  {
    ws := seq(n, i => 0);
    for idx := 0 to n
      invariant |ws| == n && forall i :: 0 <= i < idx ==> ws[i] == NibbleAt(raw, i)
    {
      if idx % 2 == 0 {
        ws := ws[idx := raw[idx / 2] / 16];
      } else {
        ws := ws[idx := raw[idx / 2] % 16];
      }
    }
  }

  method ReadWeights(table: HuffmanTable, source: seq<byte>) returns (r: Result<nat, HuffmanTableError>)
    requires table.fseTable.maxSymbol == 255
    modifies table`weights, table.fseTable
    ensures r.Ok? <==> WeightsIn(source).Some?
    ensures r.Ok? ==> table.weights == WeightsIn(source).value.0 && r.value == WeightsIn(source).value.1 <= |source|
    ensures source == [] ==> r == Err(SourceIsEmpty)
  {
    hide FseWeights, BytesToBits;
    if source == [] {
      return Err(SourceIsEmpty);
    }
    var header: nat := source[0];
    if header <= 127 {
      FseWeightsInside(source[1..], header);
      var ws := ReadFseWeights(table.fseTable, source[1..], header);
      if ws.Err? {
        return Err(ws.error);
      }
      table.weights := ws.value;
      r := Ok(1 + header);
    } else {
      var weightsRaw := source[1..];
      var numWeights: nat := header - 127;
      var bytesNeeded := if numWeights % 2 == 0 then numWeights / 2 else numWeights / 2 + 1;
      if |weightsRaw| < bytesNeeded {
        return Err(NotEnoughBytesInSource(|weightsRaw|, bytesNeeded));
      }
      table.weights := ReadNibbles(weightsRaw, numWeights);
      r := Ok(1 + bytesNeeded);
    }
  }

  lemma FseWeightsInside(fse: seq<byte>, header: nat)
    ensures FseWeights(fse, header).Some? ==> header <= |fse|
  {
    hide ReadTwo, ParseDescription, ValidProbs, DecodeTable;
  }

  /** Read the weights, build the table. */
  method BuildDecoder(table: HuffmanTable, source: seq<byte>) returns (r: Result<nat, HuffmanTableError>)
    requires table.fseTable.maxSymbol == 255
    modifies table, table.fseTable
    ensures r.Ok? <==> WeightsIn(source).Some? && Inferred(WeightsIn(source).value.0).Ok?
    ensures r.Ok? ==>
      var (ws, used) := WeightsIn(source).value;
      var (m, last) := Inferred(ws).value;
      r.value == used <= |source| && table.maxNumBits == m && Decodes(table.decode, ws + [last], m)
  {
    hide WeightsIn, Inferred, Decodes;
    table.decode := [];
    r := ReadWeights(table, source);
    if r.Ok? {
      var built := table.BuildTableFromWeights();
      if built.Err? {
        r := Err(built.error);
      }
    }
  }
}
