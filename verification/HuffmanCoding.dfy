/** Huffman coded literals as they run: one stream or four with a jump table,
    written into a bit writer, decoded from a backward reader. */
module HuffmanCoding {
  import opened Concatenation
  import opened Numbers
  import opened Bits
  import opened Results
  import opened BitWriting
  import opened BackwardReading
  import opened FseCoding
  import FseRoundTrip
  import opened HuffmanCodes
  import opened HuffmanDecodingTable
  import opened HuffmanStream

  // ----- encoding -----

  /** Codes fit their lengths and a 32-bit word. */
  ghost predicate GoodCodes(codes: seq<(nat, nat)>) {
    forall i :: 0 <= i < |codes| ==> codes[i].1 <= 32 && codes[i].0 < Pow2(codes[i].1)
  }

  /** One stream on its own: the codes and the padding. */
  ghost function StreamOf(codes: seq<(nat, nat)>, data: seq<nat>): (b: seq<bool>)
    requires CanCode(codes, data)
    ensures |b| % 8 == 0 && b != []
  {
    WithMarker(Coded(codes, data))
  }

  /** From the last symbol to the first, then the marker. */
  method EncodeStream(writer: BitWriter, codes: seq<(nat, nat)>, data: seq<nat>)
    requires writer.Valid() && GoodCodes(codes) && CanCode(codes, data)
    modifies writer
    ensures writer.Valid()
    ensures writer.Contents() == WithMarker(old(writer.Contents()) + Coded(codes, data))
  {
    hide BitsOf, BytesToBits, Pow2, WithMarker, BitWriter.Contents, BitWriter.Valid;
    ghost var start := writer.Contents();
    for i := |data| downto 0
      invariant writer.Valid() && CanCode(codes, data[i..])
      invariant writer.Contents() == start + Coded(codes, data[i..])
    {
      var (code, numBits) := codes[data[i]];
      ghost var before := Coded(codes, data[i + 1..]);
      assert data[i..][1..] == data[i + 1..] && data[i..][0] == data[i];
      assert CanCode(codes, data[i..]);
      writer.WriteBits(code, numBits);
      assert start + before + BitsOf(code, numBits) == start + (before + BitsOf(code, numBits));
    }
    assert data[0..] == data;
    WriteMarker(writer);
  }

  /** A stream behind complete bytes. */
  method AppendStream(writer: BitWriter, codes: seq<(nat, nat)>, data: seq<nat>) returns (size: nat)
    requires writer.Valid() && GoodCodes(codes) && CanCode(codes, data) && |writer.Contents()| % 8 == 0
    modifies writer
    ensures writer.Valid() && writer.bitsInPartial % 8 == 0 && |writer.Contents()| % 8 == 0
    ensures writer.Contents() == old(writer.Contents()) + StreamOf(codes, data)
    ensures 8 * size == |StreamOf(codes, data)|
  {
    hide BitsOf, BytesToBits, Pow2, WithMarker, Coded, BitWriter.Contents, BitWriter.Valid;
    ghost var start := writer.Contents();
    var indexBefore := writer.Index();
    EncodeStream(writer, codes, data);
    FseRoundTrip.MarkerBehind(start, Coded(codes, data));
    writer.AlignedPartial();
    size := (writer.Index() - indexBefore) / 8;
  }

  /** Four parts, the last one possibly smaller. */
  function SplitSize(n: nat): nat {
    (n + 3) / 4
  }

  /** The slices exist for every length from four on except five. */
  lemma SplitExists(n: nat)
    requires n >= 4
    ensures 3 * SplitSize(n) <= n <==> n != 5
  {
  }

  function Part(data: seq<nat>, i: nat): seq<nat>
    requires |data| >= 4 && |data| != 5 && i < 4
  {
    SplitExists(|data|);
    var split := SplitSize(|data|);
    if i < 3 then data[i * split..(i + 1) * split] else data[3 * split..]
  }

  lemma PartsJoin(data: seq<nat>)
    requires |data| >= 4 && |data| != 5
    ensures Part(data, 0) + (Part(data, 1) + (Part(data, 2) + Part(data, 3))) == data
  {
    SplitExists(|data|);
    var split := SplitSize(|data|);
    assert data == data[..split] + data[split..];
    assert data[split..] == data[split..2 * split] + data[2 * split..];
    assert data[2 * split..] == data[2 * split..3 * split] + data[3 * split..];
  }

  lemma CanCodeParts(codes: seq<(nat, nat)>, data: seq<nat>)
    requires CanCode(codes, data) && |data| >= 4 && |data| != 5
    ensures forall i :: 0 <= i < 4 ==> CanCode(codes, Part(data, i))
  {
    SplitExists(|data|);
  }

  ghost function PartStream(codes: seq<(nat, nat)>, data: seq<nat>, i: nat): (b: seq<bool>)
    requires CanCode(codes, data) && |data| >= 4 && |data| != 5 && i < 4
    ensures |b| % 8 == 0 && b != []
  {
    CanCodeParts(codes, data);
    StreamOf(codes, Part(data, i))
  }

  /** Stream sizes are stored in 16 bits. */
  ghost predicate SizesFit(codes: seq<(nat, nat)>, data: seq<nat>) {
    && CanCode(codes, data) && |data| >= 4 && |data| != 5
    && forall i :: 0 <= i < 3 ==> |PartStream(codes, data, i)| / 8 <= 0xFFFF
  }

  /** The four streams one after the other. */
  ghost function Streams(codes: seq<(nat, nat)>, data: seq<nat>): seq<bool>
    requires CanCode(codes, data) && |data| >= 4 && |data| != 5
  {
    PartStream(codes, data, 0) + (PartStream(codes, data, 1) + (PartStream(codes, data, 2) + PartStream(codes, data, 3)))
  }

  lemma StreamsAligned(codes: seq<(nat, nat)>, data: seq<nat>)
    requires CanCode(codes, data) && |data| >= 4 && |data| != 5
    ensures |Streams(codes, data)| % 8 == 0
    ensures |Streams(codes, data)| > 0
  {
    hide PartStream, CanCode;
  }

  /** Three sizes of two bytes in front of the streams. */
  ghost function FourStreams(codes: seq<(nat, nat)>, data: seq<nat>): (b: seq<bool>)
    requires CanCode(codes, data) && |data| >= 4 && |data| != 5
  {
    var n0: nat, n1: nat, n2: nat := |PartStream(codes, data, 0)|, |PartStream(codes, data, 1)|, |PartStream(codes, data, 2)|;
    Jumps(n0 / 8, n1 / 8, n2 / 8) + Streams(codes, data)
  }

  function Jumps(a: nat, b: nat, c: nat): (j: seq<bool>)
    ensures |j| == 48
  {
    BitsOf(a, 16) + BitsOf(b, 16) + BitsOf(c, 16)
  }

  /** Three parts of `n` symbols, a quarter rounded up, and the rest, each with its own
      stream; in front of them six bytes with the sizes of three streams, low byte first. */
  ghost predicate CutInFour(codes: seq<(nat, nat)>, data: seq<nat>, n: nat, b: seq<bool>) {
    && CanCode(codes, data) && n >= 1 && 4 * (n - 1) < |data| <= 4 * n && 3 * n <= |data|
    && var s0, s1 := StreamOf(codes, data[..n]), StreamOf(codes, data[n..2 * n]);
      var s2, s3 := StreamOf(codes, data[2 * n..3 * n]), StreamOf(codes, data[3 * n..]);
      var n0, n1, n2 := |s0| / 8, |s1| / 8, |s2| / 8;
      && n0 < 0x10000 && n1 < 0x10000 && n2 < 0x10000
      && b == BytesToBits([n0 % 256, n0 / 256, n1 % 256, n1 / 256, n2 % 256, n2 / 256]) + (s0 + (s1 + (s2 + s3)))
  }

  lemma FourStreamsCut(codes: seq<(nat, nat)>, data: seq<nat>) returns (n: nat)
    requires SizesFit(codes, data)
    ensures CutInFour(codes, data, n, FourStreams(codes, data))
    ensures |data| - 3 * n <= n <= |data| - 3 * n + 3
  {
    hide StreamOf, BytesToBits, BitsOf, Jumps;
    SlicesAreParts(data);
    n := SplitSize(|data|);
    var n0: nat, n1: nat, n2: nat := |PartStream(codes, data, 0)|, |PartStream(codes, data, 1)|, |PartStream(codes, data, 2)|;
    JumpBytes(n0 / 8, n1 / 8, n2 / 8);
    assert n * 2 == 2 * n && n * 3 == 3 * n;
  }

  lemma JumpBytes(a: nat, b: nat, c: nat)
    requires a < 0x10000 && b < 0x10000 && c < 0x10000
    ensures Jumps(a, b, c) == BytesToBits([a % 256, a / 256, b % 256, b / 256, c % 256, c / 256])
  {
    hide BytesToBits, BitsOf;
    TwoByteBits(a);
    TwoByteBits(b);
    TwoByteBits(c);
    var x, y, z := [a % 256, a / 256], [b % 256, b / 256], [c % 256, c / 256];
    BytesAppend(x, y);
    BytesAppend(x + y, z);
    assert x + y + z == [a % 256, a / 256, b % 256, b / 256, c % 256, c / 256];
  }

  lemma TwoByteBits(a: nat)
    requires a < 0x10000
    ensures BitsOf(a, 16) == BytesToBits([a % 256, a / 256])
  {
    hide BytesToBits, BitsOf;
    SingleByte(a % 256);
    SingleByte(a / 256);
    Pow2Values();
    Up8(a / 256);
    BitsJoin(a % 256, 8, a / 256, 8);
    BytesAppend([a % 256], [a / 256]);
    assert [a % 256] + [a / 256] == [a % 256, a / 256];
  }

  /** The slices the encoder takes are the parts. */
  lemma SlicesAreParts(data: seq<nat>)
    requires |data| >= 4 && |data| != 5
    ensures var split := SplitSize(|data|);
      && 3 * split <= |data|
      && Part(data, 0) == data[..split] && Part(data, 1) == data[split..split * 2]
      && Part(data, 2) == data[split * 2..split * 3] && Part(data, 3) == data[split * 3..]
  {
    SplitExists(|data|);
  }

  lemma StreamsOfParts(codes: seq<(nat, nat)>, data: seq<nat>, s: seq<bool>)
    requires CanCode(codes, data) && |data| >= 4 && |data| != 5
    ensures forall i :: 0 <= i < 4 ==> CanCode(codes, Part(data, i)) && PartStream(codes, data, i) == StreamOf(codes, Part(data, i))
    ensures s + StreamOf(codes, Part(data, 0)) + StreamOf(codes, Part(data, 1)) + StreamOf(codes, Part(data, 2)) +
      StreamOf(codes, Part(data, 3)) == s + Streams(codes, data)
  {
    hide StreamOf, CanCode, Part;
    CanCodeParts(codes, data);
    Join5(s, StreamOf(codes, Part(data, 0)), StreamOf(codes, Part(data, 1)), StreamOf(codes, Part(data, 2)), StreamOf(codes, Part(data, 3)));
  }

  method WriteFourStreams(writer: BitWriter, codes: seq<(nat, nat)>, data: seq<nat>) returns (size1: nat, size2: nat, size3: nat)
    requires writer.Valid() && GoodCodes(codes) && |writer.Contents()| % 8 == 0
    requires CanCode(codes, data) && |data| >= 4 && |data| != 5
    modifies writer
    ensures writer.Valid() && writer.bitsInPartial % 8 == 0
    ensures writer.Contents() == old(writer.Contents()) + Streams(codes, data)
    ensures 8 * size1 == |PartStream(codes, data, 0)| && 8 * size2 == |PartStream(codes, data, 1)|
    ensures 8 * size3 == |PartStream(codes, data, 2)|
  {
    hide BitsOf, BytesToBits, Pow2, StreamOf, CanCode, GoodCodes, Part, PartStream, Streams, BitWriter.Contents,
      BitWriter.Valid;
    StreamsOfParts(codes, data, writer.Contents());
    var splitSize := SplitSize(|data|);
    SlicesAreParts(data);
    var src1 := data[..splitSize];
    var src2 := data[splitSize..splitSize * 2];
    var src3 := data[splitSize * 2..splitSize * 3];
    var src4 := data[splitSize * 3..];
    size1 := AppendStream(writer, codes, src1);
    size2 := AppendStream(writer, codes, src2);
    size3 := AppendStream(writer, codes, src3);
    var size4 := AppendStream(writer, codes, src4);
  }

  /** Fill in the three sizes at `idx`. */
  method PatchSizes(writer: BitWriter, idx: nat, a: nat, b: nat, c: nat, ghost start: seq<bool>, ghost rest: seq<bool>)
    requires writer.Valid() && writer.bitsInPartial % 8 == 0 && idx == |start| && idx % 8 == 0 && rest != []
    requires writer.Contents() == start + BitsOf(0, 16) + BitsOf(0, 16) + BitsOf(0, 16) + rest
    requires a < Pow2(16) && b < Pow2(16) && c < Pow2(16)
    modifies writer
    ensures writer.Valid() && writer.Contents() == start + (Jumps(a, b, c) + rest)
  {
    hide BitsOf, BytesToBits, Pow2, Splice, BitWriter.Contents, BitWriter.Valid;
    ghost var z := BitsOf(0, 16);
    assert |writer.Contents()| == idx + 48 + |rest|;
    writer.ChangeBits(idx, a, 16);
    writer.ChangeBits(idx + 16, b, 16);
    writer.ChangeBits(idx + 32, c, 16);
    PatchThree(start, z, z, z, BitsOf(a, 16), BitsOf(b, 16), BitsOf(c, 16), rest);
  }

  /** Reserve the jump table, write the streams, patch the sizes in. */
  method Encode4x(writer: BitWriter, codes: seq<(nat, nat)>, data: seq<nat>)
    requires writer.Valid() && GoodCodes(codes) && |writer.Contents()| % 8 == 0
    requires SizesFit(codes, data)
    modifies writer
    ensures writer.Valid()
    ensures writer.Contents() == old(writer.Contents()) + FourStreams(codes, data)
    ensures exists n :: CutInFour(codes, data, n, FourStreams(codes, data))
  {
    hide BitsOf, BytesToBits, Pow2, PartStream, CanCode, GoodCodes, Streams, Jumps, BitWriter.Contents,
      BitWriter.Valid;
    ghost var start := writer.Contents();
    var sizeIdx := writer.Index();
    writer.WriteBits(0, 16);
    writer.WriteBits(0, 16);
    writer.WriteBits(0, 16);
    var size1, size2, size3 := WriteFourStreams(writer, codes, data);
    SizesSmall(codes, data, size1, size2, size3);
    StreamsAligned(codes, data);
    PatchSizes(writer, sizeIdx, size1, size2, size3, start, Streams(codes, data));
    ghost var n := FourStreamsCut(codes, data);
  }

  lemma SizesSmall(codes: seq<(nat, nat)>, data: seq<nat>, a: nat, b: nat, c: nat)
    requires SizesFit(codes, data)
    requires 8 * a == |PartStream(codes, data, 0)| && 8 * b == |PartStream(codes, data, 1)| && 8 * c == |PartStream(codes, data, 2)|
    ensures a < Pow2(16) && b < Pow2(16) && c < Pow2(16)
  {
    Pow2Values();
    Pow2Add(8, 8);
  }

  lemma PatchThree(s: seq<bool>, x: seq<bool>, y: seq<bool>, z: seq<bool>, a: seq<bool>, b: seq<bool>, c: seq<bool>, t: seq<bool>)
    requires |x| == |y| == |z| == |a| == |b| == |c| == 16
    ensures var p := |s|;
      Splice(Splice(Splice(s + x + y + z + t, p, a), p + 16, b), p + 32, c) == s + ((a + b + c) + t)
  {
    PatchOne(s, x, a, y + (z + t));
    PatchOne(s + a, y, b, z + t);
    PatchOne(s + a + b, z, c, t);
    assert s + x + y + z + t == s + x + (y + (z + t));
    assert s + a + (y + (z + t)) == (s + a) + y + (z + t);
    assert (s + a) + b + (z + t) == (s + a + b) + z + t;
  }

  lemma PatchOne(s: seq<bool>, x: seq<bool>, a: seq<bool>, t: seq<bool>)
    requires |x| == |a|
    ensures Splice(s + x + t, |s|, a) == s + a + t
  {
  }

  // ----- decoding -----

  /** Stands on a window of `maxNumBits` bits that reaches from below the reader's
      position to the end of the code it looks at. */
  class HuffmanDecoder {
    const decode: seq<CodeEntry>
    const maxNumBits: nat
    var state: nat

    ghost predicate Valid() {
      Steps(decode, maxNumBits) && maxNumBits <= MAX_MAX_NUM_BITS
    }

    ghost predicate Window(br: BitReaderReversed)
      reads this, br
    {
      state == ReadBack(br.Bits(), br.BitsRemaining() + maxNumBits, maxNumBits)
    }

    constructor (decode: seq<CodeEntry>, maxNumBits: nat)
      requires Steps(decode, maxNumBits) && maxNumBits <= MAX_MAX_NUM_BITS
      ensures Valid() && this.decode == decode && this.maxNumBits == maxNumBits
    {
      this.decode := decode;
      this.maxNumBits := maxNumBits;
      state := 0;
    }

    function DecodeSymbol(): nat
      requires state < |decode|
      reads this
    {
      decode[state].symbol
    }

    method InitState(br: BitReaderReversed)
      requires Valid() && br.Valid()
      modifies this, br
      ensures br.Valid() && Window(br) && state < |decode|
      ensures br.BitsRemaining() == old(br.BitsRemaining()) - maxNumBits
    {
      hide ReadBack, Consistent, Pow2, Remaining, BitReaderReversed.Valid, BitReaderReversed.Bits,
        BitReaderReversed.BitsRemaining;
      ReadBackBound(br.Bits(), br.BitsRemaining(), maxNumBits);
      state := br.GetBits(maxNumBits);
    }

    /** Move the window on by the length of the code just decoded. */
    method NextState(br: BitReaderReversed)
      requires Valid() && br.Valid() && Window(br) && state < |decode|
      modifies this, br
      ensures br.Valid() && Window(br) && state < |decode|
      ensures br.BitsRemaining() == old(br.BitsRemaining() - decode[state].numBits)
    {
      hide ReadBack, Consistent, Pow2, Remaining, Shl64, And, Or, Up, BitReaderReversed.Valid, BitReaderReversed.Bits,
        BitReaderReversed.BitsRemaining;
      var numBits := decode[state].numBits;
      ghost var b, pos := br.Bits(), br.BitsRemaining() + maxNumBits;
      WindowMoves(b, pos, maxNumBits, numBits);
      ReadBackBound(b, pos - numBits, maxNumBits);
      ReadBackBound(b, pos, maxNumBits);
      ShlFits(state, maxNumBits, numBits);
      var newBits := br.GetBits(numBits);
      state := Shl64(state, numBits);
      state := And(state, |decode| - 1);
      state := Or(state, newBits);
    }
  }

  datatype DecompressLiteralsError =
    | MissingBytesForJumpHeader(got: nat)
    | MissingBytesForLiterals(got: nat, needed: nat)
    | ExtraPadding(skippedBits: nat)
    | BitstreamReadMismatch(readTil: int, expected: int)
    | DecodedLiteralCountMismatch(decoded: nat, expectedCount: nat)

  /** The symbols of one stream and where the decoder stands afterwards. */
  ghost function DecodedStream(d: seq<CodeEntry>, m: nat, b: seq<bool>): (r: Result<(seq<nat>, int), DecompressLiteralsError>)
    requires Steps(d, m)
  {
    var skipped := SkipMarker(b, |b|, 0);
    if skipped > 8 then Err(DecompressLiteralsError.ExtraPadding(skipped)) else Ok(Decoded(d, m, b, |b| - skipped))
  }

  method DecodeStream(source: seq<byte>, decode: seq<CodeEntry>, maxNumBits: nat)
    returns (r: Result<seq<nat>, DecompressLiteralsError>, remaining: int)
    requires Steps(decode, maxNumBits) && maxNumBits <= MAX_MAX_NUM_BITS
    ensures var all := DecodedStream(decode, maxNumBits, BytesToBits(source));
      if all.Err? then r == Err(all.error) else r == Ok(all.value.0) && remaining == all.value.1 - maxNumBits
  {
    hide ReadBack, Consistent, Pow2, Remaining, BytesToBits, Steps, SkipMarker, Decoded, BitReaderReversed.Valid,
      BitReaderReversed.BitsRemaining;
    remaining := 0;
    var decoder := new HuffmanDecoder(decode, maxNumBits);
    var br := new BitReaderReversed(source);
    var skipped := SkipPadding(br);
    if skipped > 8 {
      return Err(DecompressLiteralsError.ExtraPadding(skipped)), 0;
    }
    ghost var b, pos := br.Bits(), br.BitsRemaining();
    decoder.InitState(br);
    var target: seq<nat> := [];
    PrependNothing(Decoded(decode, maxNumBits, b, pos));
    while br.BitsRemaining() > -(maxNumBits as int)
      invariant br.Valid() && decoder.Window(br) && decoder.state < |decode|
      invariant Prepended(target, Decoded(decode, maxNumBits, b, br.BitsRemaining() + maxNumBits)) == Decoded(decode, maxNumBits, b, pos)
      decreases br.BitsRemaining() + maxNumBits
    {
      StepTaken(decode, maxNumBits, b, br.BitsRemaining() + maxNumBits, target);
      target := target + [decoder.DecodeSymbol()];
      decoder.NextState(br);
    }
    StreamEnds(decode, maxNumBits, b, br.BitsRemaining() + maxNumBits, target);
    remaining := br.BitsRemaining();
    r := Ok(target);
  }

  ghost function Prepended(s: seq<nat>, rest: (seq<nat>, int)): (seq<nat>, int) {
    (s + rest.0, rest.1)
  }

  lemma PrependNothing(rest: (seq<nat>, int))
    ensures Prepended([], rest) == rest
  {
    assert [] + rest.0 == rest.0;
  }

  lemma StepTaken(d: seq<CodeEntry>, m: nat, b: seq<bool>, pos: int, target: seq<nat>)
    requires Steps(d, m) && pos > 0
    ensures ReadBack(b, pos, m) < |d| && d[ReadBack(b, pos, m)].numBits >= 1
    ensures var e := d[ReadBack(b, pos, m)];
      Prepended(target, Decoded(d, m, b, pos)) == Prepended(target + [e.symbol], Decoded(d, m, b, pos - e.numBits))
  {
    hide ReadBack, Pow2;
    ReadBackBound(b, pos, m);
    var e := d[ReadBack(b, pos, m)];
    var rest := Decoded(d, m, b, pos - e.numBits).0;
    assert target + ([e.symbol] + rest) == target + [e.symbol] + rest;
  }

  lemma StreamEnds(d: seq<CodeEntry>, m: nat, b: seq<bool>, pos: int, target: seq<nat>)
    requires Steps(d, m) && pos <= 0
    ensures Prepended(target, Decoded(d, m, b, pos)) == (target, pos)
  {
    assert target + [] == target;
  }

  /** Several streams one after the other; each has to end exactly. */
  ghost function DecodedAll(d: seq<CodeEntry>, m: nat, streams: seq<seq<byte>>): (r: Result<seq<nat>, DecompressLiteralsError>)
    requires Steps(d, m)
  {
    if streams == [] then Ok([]) else
    var first := DecodedStream(d, m, BytesToBits(streams[0]));
    if first.Err? then Err(first.error)
    else if first.value.1 != 0 then Err(BitstreamReadMismatch(first.value.1 - m, -(m as int)))
    else
      var rest := DecodedAll(d, m, streams[1..]);
      if rest.Err? then rest else Ok(first.value.0 + rest.value)
  }

  /** The literals behind the table: one stream, whose end is not checked, or a
      jump table and four streams. */
  ghost function Literals(d: seq<CodeEntry>, m: nat, source: seq<byte>, four: bool, count: nat): (r: Result<seq<nat>, DecompressLiteralsError>)
    requires Steps(d, m)
  {
    var all := if four then FourLiterals(d, m, source) else
      var one := DecodedStream(d, m, BytesToBits(source));
      if one.Err? then Err(one.error) else Ok(one.value.0);
    if all.Ok? && |all.value| != count then Err(DecodedLiteralCountMismatch(|all.value|, count)) else all
  }

  function JumpAt(source: seq<byte>, i: nat): nat
    requires i + 1 < |source|
  {
    source[i] as int + 256 * source[i + 1] as int
  }

  ghost function FourLiterals(d: seq<CodeEntry>, m: nat, source: seq<byte>): (r: Result<seq<nat>, DecompressLiteralsError>)
    requires Steps(d, m)
  {
    if |source| < 6 then Err(MissingBytesForJumpHeader(|source|)) else
    var jump1 := JumpAt(source, 0);
    var jump2 := jump1 + JumpAt(source, 2);
    var jump3 := jump2 + JumpAt(source, 4);
    var rest := source[6..];
    if |rest| < jump3 then Err(MissingBytesForLiterals(|rest|, jump3))
    else DecodedAll(d, m, [rest[..jump1], rest[jump1..jump2], rest[jump2..jump3], rest[jump3..]])
  }

  method DecodeAll(streams: seq<seq<byte>>, decode: seq<CodeEntry>, maxNumBits: nat) returns (r: Result<seq<nat>, DecompressLiteralsError>)
    requires Steps(decode, maxNumBits) && maxNumBits <= MAX_MAX_NUM_BITS
    ensures r == DecodedAll(decode, maxNumBits, streams)
  {
    hide Steps, DecodedStream, BytesToBits, DecodedAll;
    var target: seq<nat> := [];
    AllBehindNothing(DecodedAll(decode, maxNumBits, streams));
    assert streams[0..] == streams;
    for i := 0 to |streams|
      invariant AllBehind(target, DecodedAll(decode, maxNumBits, streams[i..])) == DecodedAll(decode, maxNumBits, streams)
    {
      AllStep(decode, maxNumBits, streams[i..], target);
      assert streams[i..][1..] == streams[i + 1..];
      var s, remaining := DecodeStream(streams[i], decode, maxNumBits);
      if s.Err? { return Err(s.error); }
      target := target + s.value;
      if remaining != -(maxNumBits as int) {
        return Err(BitstreamReadMismatch(remaining, -(maxNumBits as int)));
      }
    }
    AllDone(decode, maxNumBits, streams[|streams|..], target);
    r := Ok(target);
  }

  ghost function AllBehind(s: seq<nat>, rest: Result<seq<nat>, DecompressLiteralsError>): Result<seq<nat>, DecompressLiteralsError> {
    if rest.Err? then rest else Ok(s + rest.value)
  }

  lemma AllBehindNothing(rest: Result<seq<nat>, DecompressLiteralsError>)
    ensures AllBehind([], rest) == rest
  {
    assert rest.Ok? ==> [] + rest.value == rest.value;
  }

  lemma AllStep(d: seq<CodeEntry>, m: nat, streams: seq<seq<byte>>, target: seq<nat>)
    requires Steps(d, m) && streams != []
    ensures var first := DecodedStream(d, m, BytesToBits(streams[0]));
      AllBehind(target, DecodedAll(d, m, streams)) ==
        if first.Err? then Err(first.error)
        else if first.value.1 != 0 then Err(BitstreamReadMismatch(first.value.1 - m, -(m as int)))
        else AllBehind(target + first.value.0, DecodedAll(d, m, streams[1..]))
  {
    hide Steps, DecodedStream, BytesToBits;
    var first, rest := DecodedStream(d, m, BytesToBits(streams[0])), DecodedAll(d, m, streams[1..]);
    if first.Ok? && rest.Ok? {
      assert target + (first.value.0 + rest.value) == target + first.value.0 + rest.value;
    }
  }

  lemma AllDone(d: seq<CodeEntry>, m: nat, streams: seq<seq<byte>>, target: seq<nat>)
    requires Steps(d, m) && streams == []
    ensures AllBehind(target, DecodedAll(d, m, streams)) == Ok(target)
  {
    assert target + [] == target;
  }

  method DecompressLiterals(source: seq<byte>, decode: seq<CodeEntry>, maxNumBits: nat, numStreams: nat, regeneratedSize: nat)
    returns (r: Result<seq<nat>, DecompressLiteralsError>)
    requires Steps(decode, maxNumBits) && maxNumBits <= MAX_MAX_NUM_BITS && (numStreams == 4 || numStreams == 1)
    ensures r == Literals(decode, maxNumBits, source, numStreams == 4, regeneratedSize)
  {
    hide Steps, DecodedStream, BytesToBits, DecodedAll;
    var target: seq<nat>;
    if numStreams == 4 {
      if |source| < 6 {
        return Err(MissingBytesForJumpHeader(|source|));
      }
      var jump1: nat := source[0] as int + source[1] as int * 256;
      var jump2: nat := jump1 + source[2] as int + source[3] as int * 256;
      var jump3: nat := jump2 + source[4] as int + source[5] as int * 256;
      var streams := source[6..];
      if |streams| < jump3 {
        return Err(MissingBytesForLiterals(|streams|, jump3));
      }
      var all := DecodeAll([streams[..jump1], streams[jump1..jump2], streams[jump2..jump3], streams[jump3..]], decode, maxNumBits);
      if all.Err? { return all; }
      target := all.value;
    } else {
      var one, remaining := DecodeStream(source, decode, maxNumBits);
      if one.Err? { return one; }
      target := one.value;
    }
    if |target| != regeneratedSize {
      return Err(DecodedLiteralCountMismatch(|target|, regeneratedSize));
    }
    r := Ok(target);
  }
}
