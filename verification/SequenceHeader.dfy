/** The number of sequences in front of a sequence section. */
module SequenceHeader {
  import opened Numbers
  import opened Bits
  import opened Results
  import opened BitWriting

  const UPPER_LIMIT: nat := 0xFFFF + 0x7F00

  // ----- writing -----

  /** One byte, two bytes, or three bytes. */
  function SeqNumBytes(n: nat): (bs: seq<byte>)
    requires 1 <= n <= UPPER_LIMIT
    ensures 1 <= |bs| <= 3
  {
    if n <= 127 then [n]
    else if n <= 0x7FFF then [(n / 256) % 128 + 128, n % 256]
    else [255, (n - 0x7F00) / 256, (n - 0x7F00) % 256]
  }

  method EncodeSeqNum(writer: BitWriter, seqNum: nat)
    requires writer.Valid() && 1 <= seqNum <= UPPER_LIMIT
    modifies writer
    ensures writer.Valid() && writer.Contents() == old(writer.Contents()) + BytesToBits(SeqNumBytes(seqNum))
  {
    hide BitsOf, BytesToBits, BitWriter.Contents, BitWriter.Valid;
    Pow2Values();
    ghost var start := writer.Contents();
    if seqNum <= 127 {
      writer.WriteBits(seqNum, 8);
      SingleByte(seqNum);
    } else if seqNum <= 0x7FFF {
      var upper: byte := (seqNum / 256) % 128 + 128;
      var lower: byte := seqNum % 256;
      writer.WriteBits(upper, 8);
      writer.WriteBits(lower, 8);
      TwoBytes(start, upper, lower);
    } else {
      var encode := seqNum - 0x7F00;
      var upper: byte := encode / 256;
      var lower: byte := encode % 256;
      writer.WriteBits(255, 8);
      writer.WriteBits(upper, 8);
      writer.WriteBits(lower, 8);
      TwoBytes(start, 255, upper);
      ThirdByte(start, 255, upper, lower);
    }
  }

  lemma TwoBytes(start: seq<bool>, x: byte, y: byte)
    ensures start + BitsOf(x, 8) + BitsOf(y, 8) == start + BytesToBits([x, y])
  {
    hide BitsOf, BytesToBits;
    SingleByte(x);
    SingleByte(y);
    BytesAppend([x], [y]);
    assert [x] + [y] == [x, y];
  }

  lemma ThirdByte(start: seq<bool>, x: byte, y: byte, z: byte)
    ensures start + BytesToBits([x, y]) + BitsOf(z, 8) == start + BytesToBits([x, y, z])
  {
    hide BitsOf, BytesToBits;
    SingleByte(z);
    BytesAppend([x, y], [z]);
    assert [x, y] + [z] == [x, y, z];
  }

  // ----- reading -----

  datatype SequencesHeaderParseError = NotEnoughBytes(needAtLeast: nat, have: nat)

  /** The number of sequences, the byte with the compression modes if there are any
      sequences, and the bytes read. */
  datatype Header = Header(numSequences: nat, modes: Option<byte>, bytesRead: nat)

  function ParseFromHeader(source: seq<byte>): Result<Header, SequencesHeaderParseError> {
    if source == [] then Err(NotEnoughBytes(1, 0))
    else if source[0] == 0 then Ok(Header(0, None, 1))
    else if source[0] <= 127 then
      if |source| < 2 then Err(NotEnoughBytes(2, |source|)) else Ok(Header(source[0], Some(source[1]), 2))
    else if source[0] <= 254 then
      if |source| < 2 then Err(NotEnoughBytes(2, |source|)) else
      var n: nat := (source[0] as int - 128) * 256 + source[1] as int;
      if n == 0 then Ok(Header(0, None, 2))
      else if |source| < 3 then Err(NotEnoughBytes(3, |source|))
      else Ok(Header(n, Some(source[2]), 3))
    else
      if |source| < 4 then Err(NotEnoughBytes(4, |source|)) else
      Ok(Header(source[1] as int + source[2] as int * 256 + 0x7F00, Some(source[3]), 4))
  }

  /** The two bytes of the long form can be swapped without harm. */
  predicate SameHalves(n: nat) {
    n >= 0x8000 && (n - 0x7F00) / 256 == (n - 0x7F00) % 256
  }

  /** A number is read back, together with the modes byte behind it, if and only if it
      is below 0x7F00 or its long form reads the same in both byte orders: the two-byte
      form runs into the marker of the long one, and the long form is written high
      byte first but read low byte first. */
  lemma SeqNumRoundTrip(n: nat, modes: byte, rest: seq<byte>)
    requires 1 <= n <= UPPER_LIMIT
    ensures ParseFromHeader(SeqNumBytes(n) + [modes] + rest) == Ok(Header(n, Some(modes), |SeqNumBytes(n)| + 1))
      <==> n <= 0x7EFF || SameHalves(n)
  {
    var source := SeqNumBytes(n) + [modes] + rest;
    if n <= 127 {
      assert source[0] == n && source[1] == modes;
    } else if n <= 0x7FFF {
      assert source[0] == (n / 256) % 128 + 128 && source[1] == n % 256 && source[2] == modes;
    } else {
      assert source[0] == 255 && source[1] == (n - 0x7F00) / 256 && source[2] == (n - 0x7F00) % 256 && source[3] == modes;
    }
  }

  /** The first number that does not survive. */
  lemma SeqNumCounterexample(modes: byte, rest: seq<byte>)
    ensures !SameHalves(0x7F00)
    ensures ParseFromHeader(SeqNumBytes(0x7F00) + [modes] + rest) != Ok(Header(0x7F00, Some(modes), 3))
  {
    SeqNumRoundTrip(0x7F00, modes, rest);
  }
}
