/** Literals through the whole Huffman codec: weights, codes, description, streams,
    and back. */
module HuffmanRoundTrip {
  import opened Concatenation
  import opened Numbers
  import opened Bits
  import opened Results
  import opened BitWriting
  import opened BackwardReading
  import opened FseDistribution
  import opened FseStream
  import opened FseTableCoding
  import FseRoundTrip
  import opened HuffmanCodes
  import opened HuffmanEncodingTable
  import opened HuffmanDecodingTable
  import HuffmanStream
  import opened HuffmanTableCoding
  import opened HuffmanDescription
  import opened HuffmanCoding

  // ----- the description -----

  /** The bytes that begin with the bits `a` split there. */
  lemma FirstBytes(bytes: seq<byte>, a: seq<byte>, rest: seq<bool>)
    requires BytesToBits(bytes) == BytesToBits(a) + rest
    ensures |a| <= |bytes| && bytes[..|a|] == a && BytesToBits(bytes[|a|..]) == rest
  {
    hide BytesToBits;
    BytesSlice(bytes, 0, |a|);
    assert bytes[0..|a|] == bytes[..|a|];
    assert BytesToBits(bytes[..|a|]) == BytesToBits(a);
    BytesInjective(bytes[..|a|], a);
    SplitBytes(bytes, BytesToBits(a), rest, |a|);
  }

  lemma FirstByte(bytes: seq<byte>, x: byte, rest: seq<bool>)
    requires BytesToBits(bytes) == BitsOf(x, 8) + rest
    ensures bytes != [] && bytes[0] == x && BytesToBits(bytes[1..]) == rest
  {
    hide BytesToBits, BitsOf;
    SingleByte(x);
    FirstBytes(bytes, [x], rest);
    assert bytes[..1][0] == x;
  }

  /** Whatever follows it, a description is read back as the weights it was made of. */
  lemma DescriptionRead(bytes: seq<byte>, b: seq<bool>, ws: seq<nat>, probs: seq<int>, k: nat, rest: seq<bool>)
    requires DescriptionOf(b, ws, probs, k) && |b| % 8 == 0 && |ws| <= 255 && BytesToBits(bytes) == b + rest
    ensures WeightsIn(bytes) == Some((ws, |b| / 8))
  {
    hide BytesToBits, BitsOf, FseForm, WeightTable, Packed, Unpacked, FseWeights, Pow2;
    if |ws| > 16 {
      var form := FseForm(probs, k, ws);
      var len: byte := |form| / 8;
      assert b + rest == BitsOf(len, 8) + (form + rest);
      FirstByte(bytes, len, form + rest);
      FormRead(bytes[1..], ws, probs, k, rest);
    } else {
      var n: byte := |ws| + 127;
      assert b + rest == BitsOf(n, 8) + (BytesToBits(Packed(ws)) + rest);
      FirstByte(bytes, n, BytesToBits(Packed(ws)) + rest);
      FirstBytes(bytes[1..], Packed(ws), rest);
      assert bytes[1..] == Packed(ws) + bytes[1..][|Packed(ws)|..];
      UnpackPacked(ws, bytes[1..][|Packed(ws)|..]);
    }
  }

  lemma FormRead(fse: seq<byte>, ws: seq<nat>, probs: seq<int>, k: nat, rest: seq<bool>)
    requires WeightTable(probs, k, ws) && 17 <= |ws| <= 255
    requires BytesToBits(fse) == FseForm(probs, k, ws) + rest
    ensures FseWeights(fse, |FseForm(probs, k, ws)| / 8) == Some(ws)
  {
    hide BytesToBits, EncodeTable, DecodeTable, TableBits, TwoStreamOf, ParseDescription, ReadTwo, ValidProbs, Closed,
      Pow2, WeightTable, Describable, CanEncodeAll;
    DescriptionReady(probs, k, ws);
    var e := EncodeTable(probs, k);
    var table, stream := TableBits(e, k), TwoStreamOf(e, ws, k);
    var form := table + stream;
    assert form == FseForm(probs, k, ws);
    assert form + rest == table + (stream + rest);
    ParsedTable(probs, k, ws, stream + rest);
    FormSlice(fse, table, stream, rest, |table| / 8, |stream| / 8);
    WeightsRead(probs, k, ws);
  }

  lemma ParsedTable(probs: seq<int>, k: nat, ws: seq<nat>, rest: seq<bool>)
    requires WeightTable(probs, k, ws) && rest != []
    ensures ValidProbs(probs, k) && 5 <= k <= 6 && Describable(EncodeTable(probs, k), k)
    ensures var parsed := ParseDescription(TableBits(EncodeTable(probs, k), k) + rest);
      && parsed.Some? && parsed.value.1 == k && |parsed.value.0| <= 256 && ValidProbs(parsed.value.0, k)
      && DecodeTable(parsed.value.0, k) == DecodeTable(probs, k)
      && 8 * BytesFor(parsed.value.2) == |TableBits(EncodeTable(probs, k), k)|
  {
    hide EncodeTable, DecodeTable, ParseDescription, ValidProbs, Pow2, Aligned, Describable;
    DescriptionReady(probs, k, ws);
    FseRoundTrip.AlwaysParses(probs, k, rest);
  }

  lemma FormSlice(fse: seq<byte>, table: seq<bool>, stream: seq<bool>, rest: seq<bool>, a: nat, b: nat)
    requires BytesToBits(fse) == table + (stream + rest) && |table| == 8 * a && |stream| == 8 * b
    ensures a + b <= |fse| && BytesToBits(fse[a..a + b]) == stream
  {
    hide BytesToBits;
    SplitBytes(fse, table, stream + rest, a);
    SplitBytes(fse[a..], stream, rest, b);
    TakeDrop(fse, a, b);
  }

  lemma TakeDrop<T>(s: seq<T>, a: nat, b: nat)
    requires a + b <= |s|
    ensures s[a..][..b] == s[a..a + b] && s[a..][b..] == s[a + b..]
  {
  }

  // ----- the streams -----

  ghost predicate TableFor(d: seq<CodeEntry>, ws: seq<nat>, m: nat) {
    Decodes(d, ws, m) && |ws| <= 256 && HuffmanStream.Steps(d, m)
  }

  lemma StreamBack(d: seq<CodeEntry>, ws: seq<nat>, m: nat, data: seq<nat>)
    requires TableFor(d, ws, m) && Complete(ws, m) && HuffmanStream.CanCode(Codes(ws, m), data)
    ensures DecodedStream(d, m, StreamOf(Codes(ws, m), data)) == Ok((data, 0))
  {
    hide Decodes, HuffmanStream.Steps, HuffmanStream.CanCode, Codes, Complete, BitsOf, SkipMarker,
      HuffmanStream.Coded, HuffmanStream.Decoded;
    var b := HuffmanStream.Coded(Codes(ws, m), data);
    var n := MarkerLength(|b|);
    MarkerFound(b, n);
    HuffmanStream.StreamRoundTrip(d, ws, m, data, BitsOf(1, n));
  }

  lemma JumpValue(bytes: seq<byte>, v: nat)
    requires |bytes| == 2 && v < Pow2(16) && BytesToBits(bytes) == BitsOf(v, 16)
    ensures bytes[0] as int + 256 * bytes[1] as int == v
  {
    hide BytesToBits, BitsOf, Pow2;
    FromLeBytesIsVal(bytes);
    ValOfSmall(v, 16);
    assert FromLeBytes(bytes[1..]) == bytes[1] as int + 256 * FromLeBytes(bytes[1..][1..]);
    assert bytes[1..][1..] == [];
  }

  /** The bits of some of the bytes. */
  ghost predicate SliceIs(source: seq<byte>, from: nat, to: nat, b: seq<bool>) {
    from <= to <= |source| && BytesToBits(source[from..to]) == b
  }

  lemma WholeSlice(source: seq<byte>, b: seq<bool>)
    requires BytesToBits(source) == b
    ensures SliceIs(source, 0, |source|, b)
  {
    assert source[0..|source|] == source;
  }

  lemma LastSlice(source: seq<byte>, from: nat, b: seq<bool>)
    requires SliceIs(source, from, |source|, b)
    ensures from <= |source| && BytesToBits(source[from..]) == b
  {
    assert source[from..|source|] == source[from..];
  }

  /** The next `n` bytes, and the others. */
  lemma CutSlice(source: seq<byte>, from: nat, a: seq<bool>, rest: seq<bool>, n: nat)
    requires SliceIs(source, from, |source|, a + rest) && |a| == 8 * n
    ensures SliceIs(source, from, from + n, a) && SliceIs(source, from + n, |source|, rest)
  {
    hide BytesToBits;
    var tail := source[from..|source|];
    SplitBytes(tail, a, rest, n);
    assert tail[..n] == source[from..from + n] && tail[n..] == source[from + n..|source|];
  }

  /** Three parts of known length and the rest. */
  lemma CutThree(source: seq<byte>, a: seq<bool>, b: seq<bool>, c: seq<bool>, d: seq<bool>, i: nat, j: nat, k: nat)
    requires BytesToBits(source) == a + (b + (c + d)) && |a| == 8 * i && |b| == 8 * j && |c| == 8 * k
    ensures SliceIs(source, 0, i, a) && SliceIs(source, i, i + j, b) && SliceIs(source, i + j, i + j + k, c)
    ensures SliceIs(source, i + j + k, |source|, d)
  {
    hide BytesToBits, SliceIs;
    WholeSlice(source, a + (b + (c + d)));
    CutSlice(source, 0, a, b + (c + d), i);
    CutSlice(source, i, b, c + d, j);
    CutSlice(source, i + j, c, d, k);
  }

  lemma JumpFound(source: seq<byte>, i: nat, v: nat)
    requires v < Pow2(16) && SliceIs(source, i, i + 2, BitsOf(v, 16))
    ensures JumpAt(source, i) == v
  {
    hide BytesToBits, BitsOf, Pow2;
    JumpValue(source[i..i + 2], v);
  }

  lemma JumpsRead(source: seq<byte>, a: nat, b: nat, c: nat, rest: seq<bool>)
    requires a < Pow2(16) && b < Pow2(16) && c < Pow2(16)
    requires BytesToBits(source) == Jumps(a, b, c) + rest
    ensures |source| >= 6 && JumpAt(source, 0) == a && JumpAt(source, 2) == b && JumpAt(source, 4) == c
    ensures BytesToBits(source[6..]) == rest
  {
    hide BytesToBits, BitsOf, Pow2, JumpAt, SliceIs;
    Join4(BitsOf(a, 16), BitsOf(b, 16), BitsOf(c, 16), rest);
    CutThree(source, BitsOf(a, 16), BitsOf(b, 16), BitsOf(c, 16), rest, 2, 2, 2);
    JumpFound(source, 0, a);
    JumpFound(source, 2, b);
    JumpFound(source, 4, c);
    LastSlice(source, 6, rest);
  }

  /** Streams that decode to the parts decode to the whole. */
  lemma AllBack(d: seq<CodeEntry>, ws: seq<nat>, m: nat, streams: seq<seq<byte>>, data: seq<nat>)
    requires TableFor(d, ws, m) && Complete(ws, m) && |data| >= 4 && |data| != 5 && |streams| == 4
    requires HuffmanStream.CanCode(Codes(ws, m), data)
    requires forall i :: 0 <= i < 4 ==> BytesToBits(streams[i]) == PartStream(Codes(ws, m), data, i)
    ensures DecodedAll(d, m, streams) == Ok(data)
  {
    hide TableFor, Codes, Complete, HuffmanStream.CanCode, DecodedStream, StreamOf, Part, BytesToBits;
    TableForSteps(d, ws, m);
    CanCodeParts(Codes(ws, m), data);
    forall i | 0 <= i < 4
      ensures DecodedStream(d, m, BytesToBits(streams[i])) == Ok((Part(data, i), 0))
    {
      StreamBack(d, ws, m, Part(data, i));
    }
    DecodedFour(d, m, streams, Part(data, 0), Part(data, 1), Part(data, 2), Part(data, 3));
    PartsJoin(data);
  }

  lemma TableForSteps(d: seq<CodeEntry>, ws: seq<nat>, m: nat)
    requires TableFor(d, ws, m)
    ensures HuffmanStream.Steps(d, m)
  {
  }

  lemma DecodedFour(d: seq<CodeEntry>, m: nat, streams: seq<seq<byte>>, a: seq<nat>, b: seq<nat>, c: seq<nat>, e: seq<nat>)
    requires HuffmanStream.Steps(d, m) && |streams| == 4
    requires DecodedStream(d, m, BytesToBits(streams[0])) == Ok((a, 0))
    requires DecodedStream(d, m, BytesToBits(streams[1])) == Ok((b, 0))
    requires DecodedStream(d, m, BytesToBits(streams[2])) == Ok((c, 0))
    requires DecodedStream(d, m, BytesToBits(streams[3])) == Ok((e, 0))
    ensures DecodedAll(d, m, streams) == Ok(a + (b + (c + e)))
  {
    hide HuffmanStream.Steps, DecodedStream, BytesToBits;
    var s1, s2, s3, s4 := streams[1..], streams[2..], streams[3..], streams[4..];
    assert s1[1..] == s2 && s2[1..] == s3 && s3[1..] == s4 && s4 == [];
    assert DecodedAll(d, m, s4) == Ok([]);
    assert e + [] == e;
    assert DecodedAll(d, m, s3) == Ok(e);
    assert DecodedAll(d, m, s2) == Ok(c + e);
    assert DecodedAll(d, m, s1) == Ok(b + (c + e));
  }

  /** The bits behind the description. */
  ghost function LiteralBits(codes: seq<(nat, nat)>, data: seq<nat>, four: bool): seq<bool>
    requires HuffmanStream.CanCode(codes, data) && (four ==> |data| >= 4 && |data| != 5)
  {
    if four then FourStreams(codes, data) else StreamOf(codes, data)
  }

  lemma LiteralsBack(d: seq<CodeEntry>, ws: seq<nat>, m: nat, data: seq<nat>, four: bool, source: seq<byte>)
    requires TableFor(d, ws, m) && Complete(ws, m) && HuffmanStream.CanCode(Codes(ws, m), data)
    requires four ==> SizesFit(Codes(ws, m), data)
    requires BytesToBits(source) == LiteralBits(Codes(ws, m), data, four)
    ensures HuffmanStream.Steps(d, m) && Literals(d, m, source, four, |data|) == Ok(data)
  {
    hide TableFor, Codes, Complete, HuffmanStream.CanCode, DecodedStream, StreamOf, BytesToBits, DecodedAll,
      FourStreams, FourLiterals;
    TableForSteps(d, ws, m);
    if four {
      FourBack(d, ws, m, data, source);
    } else {
      StreamBack(d, ws, m, data);
    }
  }

  lemma FourBack(d: seq<CodeEntry>, ws: seq<nat>, m: nat, data: seq<nat>, source: seq<byte>)
    requires TableFor(d, ws, m) && Complete(ws, m) && SizesFit(Codes(ws, m), data)
    requires BytesToBits(source) == FourStreams(Codes(ws, m), data)
    ensures HuffmanStream.Steps(d, m) && FourLiterals(d, m, source) == Ok(data)
  {
    hide TableFor, Codes, Complete, HuffmanStream.CanCode, PartStream, BytesToBits, DecodedAll, Jumps, Pow2;
    var codes := Codes(ws, m);
    TableForSteps(d, ws, m);
    var s0, s1, s2, s3 := PartStream(codes, data, 0), PartStream(codes, data, 1), PartStream(codes, data, 2), PartStream(codes, data, 3);
    var n0: nat, n1: nat, n2: nat := |s0| / 8, |s1| / 8, |s2| / 8;
    SizesSmall(codes, data, n0, n1, n2);
    JumpsRead(source, n0, n1, n2, s0 + (s1 + (s2 + s3)));
    var rest := source[6..];
    CutThree(rest, s0, s1, s2, s3, n0, n1, n2);
    LastSlice(rest, n0 + n1 + n2, s3);
    assert rest[0..n0] == rest[..n0];
    var streams := [rest[..n0], rest[n0..n0 + n1], rest[n0 + n1..n0 + n1 + n2], rest[n0 + n1 + n2..]];
    AllBack(d, ws, m, streams, data);
  }

  // ----- everything -----

  /** All symbols of the data have a weight. */
  ghost predicate Covers(ws: seq<nat>, data: seq<nat>) {
    forall i :: 0 <= i < |data| ==> data[i] < |ws| && ws[data[i]] > 0
  }

  lemma CoveredCanCode(ws: seq<nat>, m: nat, data: seq<nat>)
    requires GoodWeights(ws, m) && Covers(ws, data)
    ensures Complete(ws, m) && HuffmanStream.CanCode(Codes(ws, m), data) && GoodCodes(Codes(ws, m))
  {
    hide Complete, Code, Pow2;
    GoodWeightsSmall(ws, m);
    forall i | 0 <= i < |ws|
      ensures Codes(ws, m)[i].1 <= 32 && Codes(ws, m)[i].0 < Pow2(Codes(ws, m)[i].1)
    {
      if ws[i] > 0 {
        CodeFits(ws, m, i);
      }
    }
  }

  /** The decoder's table is a table for the encoder's weights. */
  lemma TablesMeet(d: seq<CodeEntry>, ws: seq<nat>, m: nat)
    requires GoodWeights(ws, m)
    ensures Inferred(Front(ws)) == Ok((m, ws[|ws| - 1])) && Front(ws) + [ws[|ws| - 1]] == ws
    ensures Decodes(d, ws, m) ==> TableFor(d, ws, m)
  {
    hide Complete, Decodes, Inferred, HuffmanStream.Steps;
    LastWeightInferred(ws, m);
    GoodWeightsSmall(ws, m);
    if Decodes(d, ws, m) {
      HuffmanStream.TableSteps(d, ws, m);
    }
  }

  method WriteLiterals(writer: BitWriter, codes: seq<(nat, nat)>, data: seq<nat>, four: bool)
    requires writer.Valid() && |writer.Contents()| % 8 == 0 && GoodCodes(codes) && HuffmanStream.CanCode(codes, data)
    requires four ==> SizesFit(codes, data)
    modifies writer
    ensures writer.Valid() && |writer.Contents()| % 8 == 0
    ensures writer.Contents() == old(writer.Contents()) + LiteralBits(codes, data, four)
  {
    hide BytesToBits, BitsOf, FourStreams, StreamOf, HuffmanStream.CanCode, GoodCodes, BitWriter.Contents,
      BitWriter.Valid;
    if four {
      FourAligned(codes, data);
      Encode4x(writer, codes, data);
    } else {
      var size := AppendStream(writer, codes, data);
    }
  }

  lemma FourAligned(codes: seq<(nat, nat)>, data: seq<nat>)
    requires HuffmanStream.CanCode(codes, data) && |data| >= 4 && |data| != 5
    ensures |FourStreams(codes, data)| % 8 == 0
  {
    hide Streams, HuffmanStream.CanCode, PartStream, Jumps;
    StreamsAligned(codes, data);
  }

  /** The bytes hold the description of the weights and the streams of the data. */
  ghost predicate Carries(bytes: seq<byte>, ws: seq<nat>, m: nat, data: seq<nat>, four: bool) {
    && GoodWeights(ws, m) && HuffmanStream.CanCode(Codes(ws, m), data) && (four ==> |data| >= 4 && |data| != 5)
    && exists b, probs, k :: DescribedIn(BytesToBits(bytes), b, Front(ws), probs, k, LiteralBits(Codes(ws, m), data, four))
  }

  ghost predicate DescribedIn(all: seq<bool>, b: seq<bool>, weights: seq<nat>, probs: seq<int>, k: nat, rest: seq<bool>) {
    DescriptionOf(b, weights, probs, k) && |b| % 8 == 0 && all == b + rest
  }

  /** Encode with the table in front: exactly if the description is not too long. */
  method EncodeLiterals(ws: seq<nat>, ghost m: nat, data: seq<nat>, four: bool) returns (fits: bool, bytes: seq<byte>)
    requires GoodWeights(ws, m) && Covers(ws, data) && (four ==> SizesFit(Codes(ws, m), data))
    ensures fits <==> HeaderFits(ws, m)
    ensures fits ==> Carries(bytes, ws, m, data, four)
  {
    hide Complete, Codes, BytesToBits, LiteralBits, GoodCodes, HuffmanStream.CanCode, DescriptionOf, Covers,
      PartStream, HeaderFits, BitWriter.Contents, BitWriter.Valid;
    CoveredCanCode(ws, m, data);
    bytes := [];
    var codes := BuildFromWeights(ws, m);
    var writer := new BitWriter();
    ghost var b, probs, k;
    fits, b, probs, k := WriteWeights(writer, codes, ws, m);
    if fits {
      WriteLiterals(writer, codes, data, four);
      ghost var bits := LiteralBits(codes, data, four);
      assert [] + b + bits == b + bits;
      bytes := writer.Dump();
      assert DescribedIn(BytesToBits(bytes), b, Front(ws), probs, k, bits);
    }
  }

  /** Build the decoder from the bytes, decode: whatever they carry comes back. */
  method DecodeLiterals(bytes: seq<byte>, four: bool, n: nat, ghost ws: seq<nat>, ghost m: nat, ghost data: seq<nat>)
    returns (decoded: Result<seq<nat>, DecompressLiteralsError>)
    requires Carries(bytes, ws, m, data, four) && n == |data| && (four ==> SizesFit(Codes(ws, m), data))
    ensures decoded == Ok(data)
  {
    hide Complete, Codes, Decodes, BytesToBits, TableFor, WeightsIn, Inferred, Literals, LiteralBits, PartStream,
      HuffmanStream.CanCode, DescriptionOf, HuffmanStream.Steps;
    ghost var bits := LiteralBits(Codes(ws, m), data, four);
    ghost var b, probs, k :| DescribedIn(BytesToBits(bytes), b, Front(ws), probs, k, bits);
    var table := new HuffmanTable();
    TablesMeet(table.decode, ws, m);
    DescriptionRead(bytes, b, Front(ws), probs, k, bits);
    var used := HuffmanDescription.BuildDecoder(table, bytes);
    TablesMeet(table.decode, ws, m);
    SplitBytes(bytes, b, bits, used.value);
    var source := bytes[used.value..];
    LiteralsBack(table.decode, ws, m, data, four, source);
    decoded := DecompressLiterals(source, table.decode, table.maxNumBits, if four then 4 else 1, n);
  }

  /** The literals come back, in one stream or in four. */
  method RoundTrip(ws: seq<nat>, ghost m: nat, data: seq<nat>, four: bool)
    returns (fits: bool, bytes: seq<byte>, decoded: Result<seq<nat>, DecompressLiteralsError>)
    requires GoodWeights(ws, m) && Covers(ws, data) && (four ==> SizesFit(Codes(ws, m), data))
    ensures fits <==> HeaderFits(ws, m)
    ensures fits ==> Carries(bytes, ws, m, data, four) && decoded == Ok(data)
  {
    hide GoodWeights, Codes, Carries, Covers, SizesFit, HeaderFits;
    decoded := Ok([]);
    fits, bytes := EncodeLiterals(ws, m, data, four);
    if fits {
      decoded := DecodeLiterals(bytes, four, |data|, ws, m, data);
    }
  }
}
