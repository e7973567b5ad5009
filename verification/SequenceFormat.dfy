/** What the bits of a sequence section stand for, as sections 3.1.1.3.2.1.1 and
    3.1.1.4 of RFC 8878 tabulate it: widths and bases of the codes, the order of the
    fields, the modes and the header. Nothing here is taken from the coders; each
    statement holds them to the numbers of the standard. */
module SequenceFormat {
  import opened Concatenation
  import opened Numbers
  import opened Bits
  import opened Results
  import opened BackwardReading
  import opened FseDistribution
  import opened FseStream
  import opened FseTableCoding
  import opened SequenceCodes
  import opened SequenceStream
  import opened SequenceCoding
  import opened SequenceHeader
  import opened SequenceTables

  // ----- widths and bases -----

  /** Extra bits of literal length codes. */
  function LlBits(c: nat): nat {
    if c < 16 then 0
    else if c < 20 then 1
    else if c < 22 then 2
    else if c < 24 then 3
    else if c == 24 then 4
    else c - 19
  }

  /** Extra bits of match length codes. */
  function MlBits(c: nat): nat {
    if c < 32 then 0
    else if c < 36 then 1
    else if c < 38 then 2
    else if c < 40 then 3
    else if c < 42 then 4
    else if c == 42 then 5
    else c - 36
  }

  /** Codes follow each other without gap: each begins where the one before ends. */
  function LlBase(c: nat): nat {
    if c == 0 then 0 else LlBase(c - 1) + Pow2(LlBits(c - 1))
  }

  function MlBase(c: nat): nat {
    if c == 0 then 3 else MlBase(c - 1) + Pow2(MlBits(c - 1))
  }

  lemma SmallLl(c: nat)
    requires c <= 16
    ensures LlBase(c) == c
  {
  }

  lemma SmallMl(c: nat)
    requires c <= 32
    ensures MlBase(c) == c + 3
  {
  }

  /** In the code each base follows from the one before. */
  lemma LlStep(c: nat)
    requires 16 <= c <= 35
    ensures LookupLlCode(c).1 == LlBits(c)
    ensures c > 16 ==> LookupLlCode(c).0 == LookupLlCode(c - 1).0 + Pow2(LlBits(c - 1))
  {
    Pow2Values();
    MorePow2();
    hide Pow2;
  }

  lemma MlStep(c: nat)
    requires 32 <= c <= 52
    ensures LookupMlCode(c).1 == MlBits(c)
    ensures c > 32 ==> LookupMlCode(c).0 == LookupMlCode(c - 1).0 + Pow2(MlBits(c - 1))
  {
    Pow2Values();
    MorePow2();
    hide Pow2;
  }

  lemma FirstBases()
    ensures LookupLlCode(16).0 == 16 && LookupMlCode(32).0 == 35
  {
  }

  lemma {:induction false} LlLong(c: nat)
    requires 16 <= c <= 35
    ensures LookupLlCode(c) == (LlBase(c), LlBits(c))
  {
    hide LookupLlCode, LlBits, Pow2;
    LlStep(c);
    FirstBases();
    if c == 16 {
      SmallLl(c);
    } else {
      LlLong(c - 1);
    }
  }

  lemma {:induction false} MlLong(c: nat)
    requires 32 <= c <= 52
    ensures LookupMlCode(c) == (MlBase(c), MlBits(c))
  {
    hide LookupMlCode, MlBits, Pow2;
    MlStep(c);
    FirstBases();
    if c == 32 {
      SmallMl(c);
    } else {
      MlLong(c - 1);
    }
  }

  /** The table of literal length codes. */
  lemma LlTable(c: nat)
    requires c <= 35
    ensures LookupLlCode(c) == (LlBase(c), LlBits(c))
  {
    hide LlBase, Pow2;
    if c < 16 {
      SmallLl(c);
    } else {
      LlLong(c);
    }
  }

  /** The table of match length codes. */
  lemma MlTable(c: nat)
    requires c <= 52
    ensures LookupMlCode(c) == (MlBase(c), MlBits(c))
  {
    hide MlBase, Pow2;
    if c < 32 {
      SmallMl(c);
    } else {
      MlLong(c);
    }
  }

  /** The largest lengths: the codes reach 131071 and 131074. */
  lemma LastCodes()
    ensures LlBase(36) == 131072 && MlBase(53) == 131075
  {
    LlTable(35);
    MlTable(52);
    MorePow2();
  }

  // ----- the order of the fields -----

  /** Three fields of one sequence or one transition, the last one read first. */
  datatype Fields = Fields(first: seq<bool>, second: seq<bool>, third: seq<bool>)
  {
    function Bits(): seq<bool> {
      first + second + third
    }
  }

  lemma FieldsRead(prefix: seq<bool>, f: Fields, suffix: seq<bool>)
    ensures var b, pos := prefix + f.Bits() + suffix, |prefix| + |f.Bits()|;
      && ReadBack(b, pos, |f.third|) == ValOf(f.third) < Pow2(|f.third|)
      && ReadBack(b, pos - |f.third|, |f.second|) == ValOf(f.second) < Pow2(|f.second|)
      && ReadBack(b, pos - |f.third| - |f.second|, |f.first|) == ValOf(f.first) < Pow2(|f.first|)
  {
    hide ValOf, Pow2, ReadBack;
    Join5(prefix, f.first, f.second, f.third, suffix);
    FieldRead(prefix + f.first + f.second, f.third, suffix);
    FieldRead(prefix + f.first, f.second, f.third + suffix);
    FieldRead(prefix, f.first, f.second + (f.third + suffix));
  }

  /** Extra bits of the widths the codes ask for: literal length, match length, offset. */
  ghost predicate ExtraWidths(d: Decoders, st: States, f: Fields)
    requires InDecoders(d, st)
  {
    && |f.first| == LlBits(d.ll[st.ll].symbol) && |f.second| == MlBits(d.ml[st.ml].symbol)
    && |f.third| == d.of[st.of].symbol
  }

  /** A sequence is base plus extra bits for each of its three codes; the base of an
      offset code is a power of two. */
  lemma SequenceFields(d: Decoders, st: States, prefix: seq<bool>, f: Fields, suffix: seq<bool>)
    requires GoodDecoders(d) && InDecoders(d, st) && ExtraWidths(d, st, f)
    ensures var lc, mc, oc := d.ll[st.ll].symbol, d.ml[st.ml].symbol, d.of[st.of].symbol;
      SequenceAt(d, prefix + f.Bits() + suffix, |prefix| + |f.Bits()|, st) ==
        (Sequence(LlBase(lc) + ValOf(f.first), MlBase(mc) + ValOf(f.second), Pow2(oc) + ValOf(f.third)), |prefix|)
    ensures ValOf(f.first) < Pow2(|f.first|) && ValOf(f.second) < Pow2(|f.second|) && ValOf(f.third) < Pow2(|f.third|)
  {
    hide ValOf, Pow2, ReadBack, LlBase, MlBase, LlBits, MlBits, LookupLlCode, LookupMlCode, Closed;
    LlTable(d.ll[st.ll].symbol);
    MlTable(d.ml[st.ml].symbol);
    FieldsRead(prefix, f, suffix);
  }

  /** Bits of the widths the entries ask for: offset, match length, literal length. */
  ghost predicate TransitionWidths(d: Decoders, st: States, f: Fields)
    requires InDecoders(d, st)
  {
    |f.first| == d.of[st.of].numBits && |f.second| == d.ml[st.ml].numBits && |f.third| == d.ll[st.ll].numBits
  }

  /** The next states are baseline plus bits, those of literal lengths read first. */
  lemma TransitionFields(d: Decoders, st: States, prefix: seq<bool>, f: Fields, suffix: seq<bool>)
    requires GoodDecoders(d) && InDecoders(d, st) && TransitionWidths(d, st, f)
    ensures FollowStates(d, prefix + f.Bits() + suffix, |prefix| + |f.Bits()|, st) ==
      (States(d.ll[st.ll].baseLine + ValOf(f.third), d.ml[st.ml].baseLine + ValOf(f.second), d.of[st.of].baseLine + ValOf(f.first)), |prefix|)
  {
    hide ValOf, Pow2, ReadBack, Closed;
    FieldsRead(prefix, f, suffix);
  }

  /** The states to start in: literal lengths, offsets, match lengths, as wide as the
      accuracy logs. */
  lemma StartFields(d: Decoders, k: Logs, prefix: seq<bool>, f: Fields, suffix: seq<bool>, n: nat)
    requires GoodDecoders(d) && FitLogs(d, k) && |f.first| == k.ml && |f.second| == k.of && |f.third| == k.ll
    ensures var b, st := prefix + f.Bits() + suffix, States(ValOf(f.third), ValOf(f.first), ValOf(f.second));
      InDecoders(d, st) && DecodedStates(d, k, b, |prefix| + |f.Bits()|, n) == Concluded(DecodedSeqs(d, b, |prefix|, st, n))
  {
    hide ValOf, Pow2, ReadBack, GoodDecoders, DecodedSeqs, Concluded;
    FieldsRead(prefix, f, suffix);
  }

  /** Between two sequences stand the bits of the transition: the sequence, then the
      next states, then the other sequences. */
  lemma FirstOfMany(d: Decoders, st: States, prefix: seq<bool>, t: Fields, f: Fields, suffix: seq<bool>, n: nat)
    requires GoodDecoders(d) && InDecoders(d, st) && ExtraWidths(d, st, f) && TransitionWidths(d, st, t)
    requires n >= 2 && d.of[st.of].symbol <= MAX_OFFSET_CODE
    ensures var b := prefix + (t.Bits() + f.Bits()) + suffix;
      var s := SequenceAt(d, b, |prefix| + |t.Bits()| + |f.Bits()|, st).0;
      var next := States(d.ll[st.ll].baseLine + ValOf(t.third), d.ml[st.ml].baseLine + ValOf(t.second), d.of[st.of].baseLine + ValOf(t.first));
      && s == Sequence(LlBase(d.ll[st.ll].symbol) + ValOf(f.first), MlBase(d.ml[st.ml].symbol) + ValOf(f.second),
                       Pow2(d.of[st.of].symbol) + ValOf(f.third))
      && InDecoders(d, next)
      && DecodedSeqs(d, b, |prefix| + |t.Bits()| + |f.Bits()|, st, n) == After([s], DecodedSeqs(d, b, |prefix|, next, n - 1))
  {
    hide ValOf, Pow2, ReadBack, LlBase, MlBase, LlBits, MlBits, SequenceAt, FollowStates, GoodDecoders;
    Join4(prefix, t.Bits(), f.Bits(), suffix);
    SequenceFields(d, st, prefix + t.Bits(), f, suffix);
    TransitionFields(d, st, prefix, t, f.Bits() + suffix);
  }

  /** A last byte without a marker is refused. */
  lemma NoMarker(t: CodeTables, bytes: seq<byte>, n: nat)
    requires Decodable(t) && bytes != [] && bytes[|bytes| - 1] == 0
    ensures DecodedSection(t, BytesToBits(bytes), n) == Err(ExtraPadding(9))
  {
    hide BytesToBits, DecodedCodes, Decodable, ReadBack, SkipMarker;
    var b, k := BytesToBits(bytes), |bytes| - 1;
    forall i | 8 * k <= i < |b|
      ensures !b[i]
    {
      BitOfByte(bytes, k, i - 8 * k);
      assert 0 / Pow2(i - 8 * k) == 0 by { ModSmall(0, Pow2(i - 8 * k)); }
    }
    NineSkipped(b, |b|, 0);
  }

  lemma {:induction false} NineSkipped(b: seq<bool>, pos: int, skipped: nat)
    requires skipped <= 8 && pos + skipped >= 8 && pos <= |b|
    requires forall i :: pos - (8 - skipped) <= i < pos ==> !b[i]
    ensures SkipMarker(b, pos, skipped) == 9
    decreases 8 - skipped
  {
    hide ReadBack;
    if skipped < 8 {
      FieldRead(b[..pos - 1], [false], b[pos..]);
      assert b[..pos - 1] + [false] + b[pos..] == b;
      assert ValOf([false]) == 0 by { assert [false][1..] == []; }
      NineSkipped(b, pos - 1, skipped + 1);
    }
  }

  // ----- modes and header -----

  /** Two bits each from the top: literal lengths, offsets, match lengths; the lowest
      two are reserved. */
  lemma ModeBits(ll: nat, of: nat, ml: nat, reserved: nat)
    requires ll < 4 && of < 4 && ml < 4 && reserved < 4
    ensures var modes: byte := ll * 64 + of * 16 + ml * 4 + reserved;
      LlMode(modes) == ModeNumbered(ll) && OfMode(modes) == ModeNumbered(of) && MlMode(modes) == ModeNumbered(ml)
  {
    hide ModeNumbered, DecodeMode;
    var modes: byte := ll * 64 + of * 16 + ml * 4 + reserved;
    DivModUnique(64, ll, of * 16 + ml * 4 + reserved);
    DivModUnique(16, ll * 4 + of, ml * 4 + reserved);
    DivModUnique(4, ll * 16 + of * 4 + ml, reserved);
    DivModUnique(4, ll, of);
    DivModUnique(4, ll * 4 + of, ml);
    NumberIs(ll);
    NumberIs(of);
    NumberIs(ml);
  }

  lemma NumberIs(m: nat)
    requires m < 4
    ensures DecodeMode(m) == ModeNumbered(m)
  {
  }

  /** The largest accuracy logs and symbols of each kind, for described tables and for
      single symbols, and the predefined tables. */
  lemma TableLimits(t: CodeTable, source: seq<byte>)
    ensures GoodKind(LL_KIND) && GoodKind(ML_KIND) && GoodKind(OF_KIND)
    ensures var d := ParseDescription(BytesToBits(source));
      && (Updated(t, FseCompressed, source, LL_KIND).Some? <==> d.Some? && d.value.1 <= 9 && |d.value.0| <= 36)
      && (Updated(t, FseCompressed, source, ML_KIND).Some? <==> d.Some? && d.value.1 <= 9 && |d.value.0| <= 53)
      && (Updated(t, FseCompressed, source, OF_KIND).Some? <==> d.Some? && d.value.1 <= 8 && |d.value.0| <= 32)
    ensures Updated(t, Rle, source, LL_KIND).Some? <==> source != [] && source[0] <= 35
    ensures Updated(t, Rle, source, ML_KIND).Some? <==> source != [] && source[0] <= 52
    ensures Updated(t, Rle, source, OF_KIND).Some? <==> source != [] && source[0] <= 31
    ensures LL_KIND.missing == MissingByteForRleLlTable && OF_KIND.missing == MissingByteForRleOfTable
    ensures ML_KIND.missing == MissingByteForRleMlTable
    ensures Updated(t, Predefined, source, LL_KIND) == Some((CodeTable(DecodeTable(LL_DEFAULTS, 6), 6, None), 0))
    ensures Updated(t, Predefined, source, ML_KIND) == Some((CodeTable(DecodeTable(ML_DEFAULTS, 6), 6, None), 0))
    ensures Updated(t, Predefined, source, OF_KIND) == Some((CodeTable(DecodeTable(OF_DEFAULTS, 5), 5, None), 0))
  {
    hide ParseDescription, BytesToBits, DecodeTable, ValidProbs;
    KindsAreGood();
  }

  function ModeNumbered(m: nat): Mode
    requires m < 4
  {
    match m
    case 0 => Predefined
    case 1 => Rle
    case 2 => FseCompressed
    case 3 => Repeat
  }

  /** The number of sequences in one, two or three bytes, and a byte of modes when it
      is not zero. */
  lemma HeaderBytes(x: byte, y: byte, z: byte, modes: byte, rest: seq<byte>)
    ensures ParseFromHeader([0] + rest) == Ok(Header(0, None, 1))
    ensures 1 <= x <= 127 ==> ParseFromHeader([x, modes] + rest) == Ok(Header(x, Some(modes), 2))
    ensures ParseFromHeader([128, 0] + rest) == Ok(Header(0, None, 2))
    ensures 128 <= x <= 254 && (x > 128 || y > 0) ==>
      ParseFromHeader([x, y, modes] + rest) == Ok(Header((x - 128) * 256 + y, Some(modes), 3))
    ensures ParseFromHeader([255, y, z, modes] + rest) == Ok(Header(y as nat + z as nat * 256 + 32512, Some(modes), 4))
  {
  }

  /** The encoder's shortest form: one byte up to 127, two up to 32767, the higher one
      first and marked by its top bit; three bytes beyond. */
  lemma NumberBytes(n: nat)
    requires 1 <= n <= 65535 + 32512
    ensures n <= 127 ==> SeqNumBytes(n) == [n]
    ensures 128 <= n <= 32767 ==> SeqNumBytes(n) == [128 + n / 256, n % 256]
    ensures n >= 32768 ==> SeqNumBytes(n) == [255, (n - 32512) / 256, (n - 32512) % 256]
  {
  }

  /** What is too short. */
  lemma HeaderTooShort(x: byte, y: byte, z: byte)
    ensures ParseFromHeader([]) == Err(NotEnoughBytes(1, 0))
    ensures 1 <= x <= 254 ==> ParseFromHeader([x]) == Err(NotEnoughBytes(2, 1))
    ensures 128 <= x <= 254 && (x > 128 || y > 0) ==> ParseFromHeader([x, y]) == Err(NotEnoughBytes(3, 2))
    ensures ParseFromHeader([255]) == Err(NotEnoughBytes(4, 1)) && ParseFromHeader([255, y]) == Err(NotEnoughBytes(4, 2))
    ensures ParseFromHeader([255, y, z]) == Err(NotEnoughBytes(4, 3))
  {
  }
}
