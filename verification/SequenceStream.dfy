/** The bit stream of the sequence section: three interleaved FSE machines with
    extra bits between the transitions, and its decoding. */
module SequenceStream {
  import opened Concatenation
  import opened Numbers
  import opened Bits
  import opened Results
  import opened FseDistribution
  import opened FseAgreement
  import opened FseStream
  import opened FseCoding
  import opened FseDecodingTable
  import opened SequenceCodes

  /** What the encoder accepts and its codes invert. */
  predicate Codable(s: Sequence) {
    s.ll <= 131071 && 3 <= s.ml <= 65538 && 1 <= s.of < 0x1_0000_0000
  }

  datatype Encoders = Encoders(ll: EncodingTable, ml: EncodingTable, of: EncodingTable)

  /** One state per machine. */
  datatype States = States(ll: nat, ml: nat, of: nat)

  ghost predicate CanEncodeSeq(e: Encoders, s: Sequence) {
    && Codable(s)
    && CanEncode(e.ll, EncodeLiteralLength(s.ll).symbol)
    && CanEncode(e.ml, EncodeMatchLen(s.ml).symbol)
    && CanEncode(e.of, EncodeOffset(s.of).symbol)
  }

  ghost predicate CanEncodeSeqs(e: Encoders, seqs: seq<Sequence>) {
    forall i :: 0 <= i < |seqs| ==> CanEncodeSeq(e, seqs[i])
  }

  ghost predicate InTables(e: Encoders, st: States) {
    st.ll < e.ll.tableSize && st.ml < e.ml.tableSize && st.of < e.of.tableSize
  }

  /** The extra bits of one sequence. */
  function Extra(s: Sequence): seq<bool>
    requires Codable(s)
  {
    var l, m, o := EncodeLiteralLength(s.ll), EncodeMatchLen(s.ml), EncodeOffset(s.of);
    BitsOf(l.extra, l.bits) + BitsOf(m.extra, m.bits) + BitsOf(o.extra, o.bits)
  }

  ghost function StartStates(e: Encoders, s: Sequence): (st: States)
    requires CanEncodeSeq(e, s)
    ensures InTables(e, st)
  {
    States(Start(e.ll, EncodeLiteralLength(s.ll).symbol), Start(e.ml, EncodeMatchLen(s.ml).symbol),
      Start(e.of, EncodeOffset(s.of).symbol))
  }

  /** The three transitions in front of a sequence, offsets first. */
  ghost function StepStates(e: Encoders, s: Sequence, st: States): (r: (seq<bool>, States))
    requires CanEncodeSeq(e, s) && InTables(e, st)
    ensures InTables(e, r.1)
  {
    var (fo, o) := Step(e.of, EncodeOffset(s.of).symbol, st.of);
    var (fm, m) := Step(e.ml, EncodeMatchLen(s.ml).symbol, st.ml);
    var (fl, l) := Step(e.ll, EncodeLiteralLength(s.ll).symbol, st.ll);
    (fo + fm + fl, States(l, m, o))
  }

  /** All sequences, the last one first, and the states the decoder starts in. */
  ghost function CodedSeqs(e: Encoders, seqs: seq<Sequence>): (r: (seq<bool>, States))
    requires |seqs| > 0 && CanEncodeSeqs(e, seqs)
    ensures InTables(e, r.1)
  {
    if |seqs| == 1 then
      (Extra(seqs[0]), StartStates(e, seqs[0]))
    else
      var (b, st) := CodedSeqs(e, seqs[1..]);
      var (f, n) := StepStates(e, seqs[0], st);
      (b + f + Extra(seqs[0]), n)
  }

  // ----- decoding -----

  datatype Decoders = Decoders(ll: seq<Entry>, ml: seq<Entry>, of: seq<Entry>)

  datatype DecodeSequenceError =
    | ExtraPadding(skippedBits: nat)
    | UnsupportedOffset(code: nat)
    | NotEnoughBytesForNumSequences
    | ExtraBits(bitsRemaining: int)
    | DecoderError(e: FseDecoderError)
    | TableError(t: FseTableError)
    | MissingCompressionMode
    | MissingByteForRleLlTable
    | MissingByteForRleOfTable
    | MissingByteForRleMlTable

  /** Tables whose transitions stay inside and whose length codes exist. */
  ghost predicate GoodDecoders(d: Decoders) {
    && Closed(d.ll) && Closed(d.ml) && Closed(d.of)
    && (forall c :: 0 <= c < |d.ll| ==> d.ll[c].symbol <= MAX_LITERAL_LENGTH_CODE)
    && (forall c :: 0 <= c < |d.ml| ==> d.ml[c].symbol <= MAX_MATCH_LENGTH_CODE)
  }

  ghost predicate InDecoders(d: Decoders, st: States) {
    st.ll < |d.ll| && st.ml < |d.ml| && st.of < |d.of|
  }

  /** The sequence under the three states; its extra bits end at `pos`. */
  ghost function SequenceAt(d: Decoders, b: seq<bool>, pos: int, st: States): (r: (Sequence, int))
    requires GoodDecoders(d) && InDecoders(d, st)
  {
    var oc := d.of[st.of].symbol;
    var (mv, mn) := LookupMlCode(d.ml[st.ml].symbol);
    var (lv, ln) := LookupLlCode(d.ll[st.ll].symbol);
    (Sequence(lv + ReadBack(b, pos - oc - mn, ln), mv + ReadBack(b, pos - oc, mn), ReadBack(b, pos, oc) + Pow2(oc)),
     pos - oc - mn - ln)
  }

  /** The three transitions behind a sequence, literal lengths first. */
  ghost function FollowStates(d: Decoders, b: seq<bool>, pos: int, st: States): (r: (States, int))
    requires GoodDecoders(d) && InDecoders(d, st)
    ensures InDecoders(d, r.0)
  {
    var p1 := pos - d.ll[st.ll].numBits;
    var p2 := p1 - d.ml[st.ml].numBits;
    var p3 := p2 - d.of[st.of].numBits;
    (States(Follow(d.ll, b, pos, st.ll), Follow(d.ml, b, p1, st.ml), Follow(d.of, b, p2, st.of)), p3)
  }

  /** `n` sequences, the position behind them, or the error the decoder stops at. */
  ghost function DecodedSeqs(d: Decoders, b: seq<bool>, pos: int, st: States, n: nat)
    : (r: Result<(seq<Sequence>, int), DecodeSequenceError>)
    requires GoodDecoders(d) && InDecoders(d, st)
    ensures r.Ok? ==> |r.value.0| == n
    decreases n
  {
    if n == 0 then Ok(([], pos)) else
    if d.of[st.of].symbol > MAX_OFFSET_CODE then Err(UnsupportedOffset(d.of[st.of].symbol)) else
    var (s, p1) := SequenceAt(d, b, pos, st);
    var (st', p2) := if n > 1 then FollowStates(d, b, p1, st) else (st, p1);
    if p2 < 0 then Err(NotEnoughBytesForNumSequences) else
    var rest := DecodedSeqs(d, b, p2, st', n - 1);
    if rest.Err? then rest else Ok(([s] + rest.value.0, rest.value.1))
  }

  // ----- there and back -----

  ghost predicate AgreeSeq(e: Encoders, d: Decoders, kl: nat, km: nat, ko: nat, s: Sequence) {
    && Codable(s)
    && Agree(e.ll, d.ll, kl, EncodeLiteralLength(s.ll).symbol)
    && Agree(e.ml, d.ml, km, EncodeMatchLen(s.ml).symbol)
    && Agree(e.of, d.of, ko, EncodeOffset(s.of).symbol)
  }

  /** Table pairs that cover the codes of all sequences. */
  ghost predicate AgreeSeqs(e: Encoders, d: Decoders, kl: nat, km: nat, ko: nat, seqs: seq<Sequence>) {
    && GoodDecoders(d)
    && e.ll.tableSize == Pow2(kl) == |d.ll| && e.ml.tableSize == Pow2(km) == |d.ml| && e.of.tableSize == Pow2(ko) == |d.of|
    && forall i :: 0 <= i < |seqs| ==> AgreeSeq(e, d, kl, km, ko, seqs[i])
  }

  lemma AgreeCanEncodeSeqs(e: Encoders, d: Decoders, kl: nat, km: nat, ko: nat, seqs: seq<Sequence>)
    requires AgreeSeqs(e, d, kl, km, ko, seqs)
    ensures CanEncodeSeqs(e, seqs)
  {
    hide Agree, Closed, CanEncode, EncodeLiteralLength, EncodeMatchLen, EncodeOffset, Pow2;
    forall i | 0 <= i < |seqs|
      ensures CanEncodeSeq(e, seqs[i])
    {
      var s := seqs[i];
      assert AgreeSeq(e, d, kl, km, ko, s);
      AgreeCanEncode(e.ll, d.ll, kl, EncodeLiteralLength(s.ll).symbol);
      AgreeCanEncode(e.ml, d.ml, km, EncodeMatchLen(s.ml).symbol);
      AgreeCanEncode(e.of, d.of, ko, EncodeOffset(s.of).symbol);
    }
  }

  /** The decoder's states stand on the codes of `s`. */
  ghost predicate OnCodes(d: Decoders, st: States, s: Sequence)
    requires Codable(s)
  {
    && InDecoders(d, st)
    && d.ll[st.ll].symbol == EncodeLiteralLength(s.ll).symbol
    && d.ml[st.ml].symbol == EncodeMatchLen(s.ml).symbol
    && d.of[st.of].symbol == EncodeOffset(s.of).symbol
  }

  /** Extra bits are read back into the sequence. */
  lemma ExtraBack(d: Decoders, st: States, s: Sequence, prefix: seq<bool>, suffix: seq<bool>)
    requires GoodDecoders(d) && Codable(s) && OnCodes(d, st, s)
    ensures SequenceAt(d, prefix + Extra(s) + suffix, |prefix| + |Extra(s)|, st) == (s, |prefix|)
  {
    hide EncodeLiteralLength, EncodeMatchLen, EncodeOffset, LookupLlCode, LookupMlCode, Pow2, BitsOf, ReadBack,
      Closed;
    var l, m, o := EncodeLiteralLength(s.ll), EncodeMatchLen(s.ml), EncodeOffset(s.of);
    LiteralLengthInverts(s.ll);
    MatchLenInverts(s.ml);
    OffsetInverts(s.of);
    var bl, bm, bo := BitsOf(l.extra, l.bits), BitsOf(m.extra, m.bits), BitsOf(o.extra, o.bits);
    Join5(prefix, bl, bm, bo, suffix);
    ReadBackLast(prefix + bl + bm, o.extra, o.bits, suffix);
    ReadBackLast(prefix + bl, m.extra, m.bits, bo + suffix);
    ReadBackLast(prefix, l.extra, l.bits, bm + (bo + suffix));
  }

  /** The three transitions lead back to the states they were made from. */
  lemma StepsBack(e: Encoders, d: Decoders, kl: nat, km: nat, ko: nat, s: Sequence, st: States, prefix: seq<bool>, suffix: seq<bool>)
    requires GoodDecoders(d) && AgreeSeq(e, d, kl, km, ko, s) && CanEncodeSeq(e, s) && InTables(e, st)
    ensures var (f, n) := StepStates(e, s, st);
      && OnCodes(d, n, s)
      && FollowStates(d, prefix + f + suffix, |prefix| + |f|, n) == (st, |prefix|)
  {
    hide EncodeLiteralLength, EncodeMatchLen, EncodeOffset, Pow2, BitsOf, ReadBack, Closed, Agree, CanEncode, Step,
      Follow;
    var (fo, o) := Step(e.of, EncodeOffset(s.of).symbol, st.of);
    var (fm, m) := Step(e.ml, EncodeMatchLen(s.ml).symbol, st.ml);
    var (fl, l) := Step(e.ll, EncodeLiteralLength(s.ll).symbol, st.ll);
    Join5(prefix, fo, fm, fl, suffix);
    StepBack(e.ll, d.ll, kl, EncodeLiteralLength(s.ll).symbol, st.ll, prefix + fo + fm, suffix);
    StepBack(e.ml, d.ml, km, EncodeMatchLen(s.ml).symbol, st.ml, prefix + fo, fl + suffix);
    StepBack(e.of, d.of, ko, EncodeOffset(s.of).symbol, st.of, prefix, fm + (fl + suffix));
  }

  lemma StartOnCodes(e: Encoders, d: Decoders, kl: nat, km: nat, ko: nat, s: Sequence)
    requires AgreeSeq(e, d, kl, km, ko, s) && CanEncodeSeq(e, s)
    ensures OnCodes(d, StartStates(e, s), s)
  {
    hide EncodeLiteralLength, EncodeMatchLen, EncodeOffset, Pow2, Agree, CanEncode, Start;
    StartMatches(e.ll, d.ll, kl, EncodeLiteralLength(s.ll).symbol);
    StartMatches(e.ml, d.ml, km, EncodeMatchLen(s.ml).symbol);
    StartMatches(e.of, d.of, ko, EncodeOffset(s.of).symbol);
  }

  /** Decoding the coded sequences gives exactly these sequences, and the bits in
      front of them are untouched. */
  lemma {:induction false} SequencesRoundTrip(e: Encoders, d: Decoders, kl: nat, km: nat, ko: nat, seqs: seq<Sequence>, prefix: seq<bool>, suffix: seq<bool>)
    requires |seqs| > 0 && AgreeSeqs(e, d, kl, km, ko, seqs) && CanEncodeSeqs(e, seqs)
    ensures var (b, st) := CodedSeqs(e, seqs);
      && InDecoders(d, st)
      && DecodedSeqs(d, prefix + b + suffix, |prefix| + |b|, st, |seqs|) == Ok((seqs, |prefix|))
  {
    hide Codable, Extra, StepStates, FollowStates, SequenceAt, Pow2, AgreeSeq, CanEncodeSeq, GoodDecoders,
      StartStates;
    var s := seqs[0];
    assert AgreeSeq(e, d, kl, km, ko, s) && CanEncodeSeq(e, s);
    var (b, st) := CodedSeqs(e, seqs);
    CodesExist(e, d, kl, km, ko, s);
    if |seqs| == 1 {
      StartOnCodes(e, d, kl, km, ko, s);
      OnCodesOffset(d, st, s);
      ExtraBack(d, st, s, prefix, suffix);
      assert seqs == [s] + [];
    } else {
      var (b', st') := CodedSeqs(e, seqs[1..]);
      var (f, n) := StepStates(e, s, st');
      var x := Extra(s);
      Join5(prefix, b', f, x, suffix);
      StepsBack(e, d, kl, km, ko, s, st', prefix + b', x + suffix);
      OnCodesOffset(d, n, s);
      ExtraBack(d, n, s, prefix + b' + f, suffix);
      SequencesRoundTrip(e, d, kl, km, ko, seqs[1..], prefix, f + (x + suffix));
      assert seqs == [s] + seqs[1..];
    }
  }

  lemma CodesExist(e: Encoders, d: Decoders, kl: nat, km: nat, ko: nat, s: Sequence)
    requires AgreeSeq(e, d, kl, km, ko, s)
    ensures Codable(s)
  {
  }

  lemma OnCodesOffset(d: Decoders, st: States, s: Sequence)
    requires Codable(s) && OnCodes(d, st, s)
    ensures d.of[st.of].symbol <= MAX_OFFSET_CODE && InDecoders(d, st)
  {
    OffsetInverts(s.of);
  }
}
