/** The codes for literal lengths, match lengths and offsets: a symbol and a
    number of extra bits (RFC 8878, section 3.1.1.3.2.1). */
module SequenceCodes {
  import opened Numbers
  import opened Bits

  /** A code symbol, the value of its extra bits and their number. */
  datatype Code = Code(symbol: nat, extra: nat, bits: nat)

  datatype Sequence = Sequence(ll: nat, ml: nat, of: nat)

  function EncodeLiteralLength(len: nat): Code
    requires len <= 131071
  {
    if len <= 15 then Code(len, 0, 0)
    else if len <= 17 then Code(16, len - 16, 1)
    else if len <= 19 then Code(17, len - 18, 1)
    else if len <= 21 then Code(18, len - 20, 1)
    else if len <= 23 then Code(19, len - 22, 1)
    else if len <= 27 then Code(20, len - 24, 2)
    else if len <= 31 then Code(21, len - 28, 2)
    else if len <= 39 then Code(22, len - 32, 3)
    else if len <= 47 then Code(23, len - 40, 3)
    else if len <= 63 then Code(24, len - 48, 4)
    else if len <= 127 then Code(25, len - 64, 6)
    else if len <= 255 then Code(26, len - 128, 7)
    else if len <= 511 then Code(27, len - 256, 8)
    else if len <= 1023 then Code(28, len - 512, 9)
    else if len <= 2047 then Code(29, len - 1024, 10)
    else if len <= 4095 then Code(30, len - 2048, 11)
    else if len <= 8191 then Code(31, len - 4096, 12)
    else if len <= 16383 then Code(32, len - 8192, 13)
    else if len <= 32767 then Code(33, len - 16384, 14)
    else if len <= 65535 then Code(34, len - 32768, 15)
    else Code(35, len - 65536, 16)
  }

  /** As the source has it, including the last arm. */
  function EncodeMatchLen(len: nat): Code
    requires 3 <= len <= 131074
  {
    if len <= 34 then Code(len - 3, 0, 0)
    else if len <= 36 then Code(32, len - 35, 1)
    else if len <= 38 then Code(33, len - 37, 1)
    else if len <= 40 then Code(34, len - 39, 1)
    else if len <= 42 then Code(35, len - 41, 1)
    else if len <= 46 then Code(36, len - 43, 2)
    else if len <= 50 then Code(37, len - 47, 2)
    else if len <= 58 then Code(38, len - 51, 3)
    else if len <= 66 then Code(39, len - 59, 3)
    else if len <= 82 then Code(40, len - 67, 4)
    else if len <= 98 then Code(41, len - 83, 4)
    else if len <= 130 then Code(42, len - 99, 5)
    else if len <= 258 then Code(43, len - 131, 7)
    else if len <= 514 then Code(44, len - 259, 8)
    else if len <= 1026 then Code(45, len - 515, 9)
    else if len <= 2050 then Code(46, len - 1027, 10)
    else if len <= 4098 then Code(47, len - 2051, 11)
    else if len <= 8194 then Code(48, len - 4099, 12)
    else if len <= 16386 then Code(49, len - 8195, 13)
    else if len <= 32770 then Code(50, len - 16387, 14)
    else if len <= 65538 then Code(51, len - 32771, 15)
    else Code(52, len - 32771, 16)
  }

  /** The position of the highest bit, and the bits below it. */
  function EncodeOffset(of: nat): Code
    requires of >= 1
  {
    Code(Log2(of), And(of, Pow2(Log2(of)) - 1), Log2(of))
  }

  const MAX_LITERAL_LENGTH_CODE: nat := 35
  const MAX_MATCH_LENGTH_CODE: nat := 52
  const MAX_OFFSET_CODE: nat := 31

  /** Base value and number of extra bits. */
  function LookupLlCode(code: nat): (nat, nat)
    requires code <= MAX_LITERAL_LENGTH_CODE
  {
    if code <= 15 then (code, 0) else
    [(16, 1), (18, 1), (20, 1), (22, 1), (24, 2), (28, 2), (32, 3), (40, 3), (48, 4), (64, 6),
     (128, 7), (256, 8), (512, 9), (1024, 10), (2048, 11), (4096, 12), (8192, 13), (16384, 14),
     (32768, 15), (65536, 16)][code - 16]
  }

  function LookupMlCode(code: nat): (nat, nat)
    requires code <= MAX_MATCH_LENGTH_CODE
  {
    if code <= 31 then (code + 3, 0) else
    [(35, 1), (37, 1), (39, 1), (41, 1), (43, 2), (47, 2), (51, 3), (59, 3), (67, 4), (83, 4),
     (99, 5), (131, 7), (259, 8), (515, 9), (1027, 10), (2051, 11), (4099, 12), (8195, 13),
     (16387, 14), (32771, 15), (65539, 16)][code - 32]
  }

  lemma MorePow2()
    ensures Pow2(10) == 1024 && Pow2(11) == 2048 && Pow2(12) == 4096 && Pow2(13) == 8192
    ensures Pow2(14) == 16384 && Pow2(15) == 32768 && Pow2(16) == 65536
  {
    Pow2Values();
    Pow2Add(8, 8);
  }

  /** Base plus extra bits is the length again, and the extra bits fit. */
  ghost predicate LengthInverts(len: nat)
    requires len <= 131071
  {
    var c := EncodeLiteralLength(len);
    && c.symbol <= MAX_LITERAL_LENGTH_CODE && c.bits <= 16 && c.extra < Pow2(c.bits)
    && LookupLlCode(c.symbol) == (len - c.extra, c.bits)
  }

  lemma ShortLengthInverts(len: nat)
    requires len <= 255
    ensures LengthInverts(len)
  {
    Pow2Values();
    hide Pow2;
  }

  lemma LongLengthInverts(len: nat)
    requires 255 < len <= 131071
    ensures LengthInverts(len)
  {
    Pow2Values();
    MorePow2();
    hide Pow2;
  }

  lemma LiteralLengthInverts(len: nat)
    requires len <= 131071
    ensures var c := EncodeLiteralLength(len);
      && c.symbol <= MAX_LITERAL_LENGTH_CODE && c.bits <= 16 && c.extra < Pow2(c.bits)
      && LookupLlCode(c.symbol) == (len - c.extra, c.bits)
  {
    hide EncodeLiteralLength, LookupLlCode, Pow2;
    if len <= 255 {
      ShortLengthInverts(len);
    } else {
      LongLengthInverts(len);
    }
  }

  lemma ShortMatchLen(len: nat)
    requires 3 <= len <= 130
    ensures var c := EncodeMatchLen(len);
      && c.symbol <= MAX_MATCH_LENGTH_CODE && c.bits <= 16 && LookupMlCode(c.symbol).1 == c.bits
      && LookupMlCode(c.symbol).0 + c.extra == len && c.extra < Pow2(c.bits)
  {
    Pow2Values();
  }

  lemma LongMatchLen(len: nat)
    requires 131 <= len <= 131074
    ensures var c := EncodeMatchLen(len);
      && c.symbol <= MAX_MATCH_LENGTH_CODE && c.bits <= 16 && LookupMlCode(c.symbol).1 == c.bits
      && (LookupMlCode(c.symbol).0 + c.extra == len && c.extra < Pow2(c.bits) <==> len <= 65538)
  {
    Pow2Values();
    MorePow2();
  }

  /** The match length code is inverted by its lookup exactly up to 65538: beyond,
      the last arm subtracts 32771 where the lookup adds 65539. */
  lemma MatchLenInverts(len: nat)
    requires 3 <= len <= 131074
    ensures var c := EncodeMatchLen(len);
      && c.symbol <= MAX_MATCH_LENGTH_CODE && c.bits <= 16
      && LookupMlCode(c.symbol).1 == c.bits
      && (LookupMlCode(c.symbol).0 + c.extra == len && c.extra < Pow2(c.bits) <==> len <= 65538)
  {
    hide EncodeMatchLen, LookupMlCode, Pow2;
    if len <= 130 {
      ShortMatchLen(len);
    } else {
      LongMatchLen(len);
    }
  }

  /** A length that does not survive. */
  lemma MatchLenCounterexample()
    ensures var c := EncodeMatchLen(65539);
      LookupMlCode(c.symbol).0 + c.extra == 98307
  {
  }

  lemma OffsetInverts(of: nat)
    requires 1 <= of < 0x1_0000_0000
    ensures var c := EncodeOffset(of);
      c.symbol <= MAX_OFFSET_CODE && c.bits == c.symbol && c.extra < Pow2(c.bits) && c.extra + Pow2(c.symbol) == of
  {
    hide And, Low, Up, Shr;
    var log := Log2(of);
    AndMask(of, log);
    UpOneIs(log);
    JoinParts(of - Pow2(log), 1, log);
    OffsetLog(of);
  }

  lemma UpOneIs(n: nat)
    ensures Up(1, n) == Pow2(n)
  {
  }

  lemma OffsetLog(of: nat)
    requires 1 <= of < 0x1_0000_0000
    ensures Log2(of) <= 31
  {
    Pow2Values();
    Pow2Add(8, 8);
    Pow2Add(16, 16);
    if Log2(of) >= 32 {
      Pow2Mono(32, Log2(of));
    }
  }
}
