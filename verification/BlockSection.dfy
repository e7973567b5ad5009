/** The sequences a block is turned into, through the sequence section and back. */
module BlockSection {
  import opened Numbers
  import opened Bits
  import opened Results
  import FseNormalise
  import opened DecodeBuffering
  import opened SequenceCodes
  import opened SequenceStream
  import opened SequenceExecution
  import opened SequenceTables
  import opened SequenceOrigins
  import opened SequenceSection
  import opened Matching
  import opened BlockSequences

  lemma CodeIsZero(s: Sequence)
    requires Codable(s)
    ensures EncodeLiteralLength(s.ll).symbol > 0 <==> s.ll > 0
    ensures EncodeMatchLen(s.ml).symbol > 0 <==> s.ml > 3
    ensures EncodeOffset(s.of).symbol > 0 <==> s.of > 1
  {
    hide Pow2;
    OffsetCode(s.of);
  }

  lemma OffsetCode(of: nat)
    requires of >= 1
    ensures Log2(of) > 0 <==> of > 1
  {
  }

  // ----- which blocks get a section -----

  /** Sequences in the encoder's range can be coded with tables of their own if and
      only if one of them has literals. */
  lemma RangeEncodable(seqs: seq<Sequence>)
    requires InRange(seqs)
    ensures Encodable(seqs) <==> SomeLiterals(seqs)
  {
    hide EncodeLiteralLength, EncodeMatchLen, EncodeOffset;
    assert AllCodable(seqs);
    forall i | 0 <= i < |seqs|
      ensures LlCodes(seqs)[i] > 0 <==> seqs[i].ll > 0
      ensures MlCodes(seqs)[i] > 0 && OfCodes(seqs)[i] > 0
    {
      CodeIsZero(seqs[i]);
    }
    if SomeLiterals(seqs) {
      assert MlCodes(seqs)[0] > 0 && OfCodes(seqs)[0] > 0;
    }
  }

  /** What the encoder makes of a block of at most 128 KiB is in that range. */
  lemma CollectedEncodable(ss: seq<Emitted>, size: nat)
    requires InWindow(ss, size) && CoveredAll(ss) <= size <= 131072
    ensures Encodable(SequencesOf(ss)) <==> SomeLiterals(SequencesOf(ss))
  {
    hide InRange, Encodable;
    SequencesCodable(ss, size);
    RangeEncodable(SequencesOf(ss));
  }

  /** Without any literals all literal length codes are zero: one slot, for which the
      table builder finds no second symbol. */
  lemma NoLiteralsNoTable(seqs: seq<Sequence>)
    requires seqs != [] && AllCodable(seqs)
    ensures var counts := FseNormalise.CountsOf(LlCodes(seqs));
      FseNormalise.Normalisable(counts, LL_MAX_LOG, false) && (FseNormalise.FindsNoSecond(counts, LL_MAX_LOG) <==> !SomeLiterals(seqs))
  {
    hide EncodeLiteralLength, EncodeMatchLen, EncodeOffset, Pow2, FseNormalise.FindsNoSecond,
      FseNormalise.Normalisable;
    var codes := LlCodes(seqs);
    forall i | 0 <= i < |seqs|
      ensures codes[i] > 0 <==> seqs[i].ll > 0
    {
      CodeIsZero(seqs[i]);
    }
    CodeBounds(seqs);
    Pow2Values();
    FseNormalise.SmallSymbols(codes, LL_MAX_LOG, false);
    FseNormalise.SingleSlot(FseNormalise.CountsOf(codes), LL_MAX_LOG);
  }

  /** Such a block: five bytes known from the block before. */
  lemma RepeatedBlock()
    ensures var h: seq<byte>, ss := [1, 2, 3, 4, 5], [Triple([], 5, 5)];
      && ReplayAll(h, ss) == Some(h + h) && LiteralsLast(ss) && InWindow(ss, 10)
      && SequencesOf(ss) == [Sequence(0, 5, 8)] && !SomeLiterals(SequencesOf(ss)) && !Encodable(SequencesOf(ss))
  {
    var h: seq<byte>, ss := [1, 2, 3, 4, 5], [Triple([], 5, 5)];
    assert ss[..0] == [];
    assert h + [] == h;
    LzPiece(h, 5);
    CollectedEncodable(ss, 10) by { assert CoveredAll(ss[..0]) == 0; }
  }

  lemma LzPiece(h: seq<byte>, n: nat)
    requires |h| == n > 0
    ensures LzCopy(h, n, n) == h + h
  {
    LzChunk(h, n, n);
    assert h[0..n] == h;
  }

  // ----- blocks through their sections -----

  /** The emissions of a block bring the output from `before` to `all`. */
  ghost predicate Emits(ss: seq<Emitted>, before: seq<byte>, all: seq<byte>) {
    LiteralsLast(ss) && ReplayAll(before, ss) == Some(all)
  }

  /** Match a committed block and write its sequences as a section: always, except
      when there are sequences and none of them has literals. */
  method EncodeBlock(g: MatchGenerator, ghost before: Origins)
    returns (coded: bool, literals: seq<byte>, bytes: seq<byte>, ghost ss: seq<Emitted>, ghost c: Choices)
    requires g.Valid() && g.window != [] && g.maxWindowSize <= 131072 && GoodOrigins(before)
    modifies g`window, g`suffixIdx, g`lastIdxInSequence
    ensures g.Valid() && g.All() == old(g.All())
    ensures Emits(ss, old(g.Emission()), g.All()) && literals == LiteralsOf(ss)
    ensures coded <==> SequencesOf(ss) == [] || SomeLiterals(SequencesOf(ss))
    ensures old(g.Emission()) == [] ==> coded
    ensures coded ==> Carries(bytes, [], SequencesOf(ss), before, c)
  {
    hide Joined, Stored, Distance, ReplayAll, InWindow, CoveredAll, Encodable, LiteralsLast, Carries, GoodOrigins;
    var emitted := StartMatching(g);
    ss := emitted;
    var sequences;
    literals, sequences := Collect(emitted);
    CollectedEncodable(ss, |g.All()|);
    coded := HasLiterals(sequences);
    coded := coded || sequences == [];
    if old(g.Emission()) == [] {
      FirstMatchHasLiterals(ss);
    }
    bytes := [];
    c := Choices(Again, Again, Again);
    if coded {
      bytes, c := WriteBehind([], sequences, before);
    }
  }

  /** Read the section of a block: a decoder that executes what it finds continues the
      output with the block, whatever its history was, and keeps the tables the encoder
      expects. */
  method DecodeBlock(scratch: FseScratch, bytes: seq<byte>, literals: seq<byte>, ghost ss: seq<Emitted>,
      ghost before: seq<byte>, ghost all: seq<byte>, ghost history: seq<nat>, ghost origins: Origins, ghost c: Choices)
    returns (decoded: seq<Sequence>)
    requires scratch.Valid() && GoodOrigins(origins) && AllFit(scratch.Tables(), origins)
    requires Carries(bytes, [], SequencesOf(ss), origins, c) && literals == LiteralsOf(ss)
    requires Emits(ss, before, all) && NonZero(history)
    modifies scratch, scratch.literalLengths, scratch.offsets, scratch.matchLengths
    ensures decoded == SequencesOf(ss) && Rebuilds(before, history, literals, decoded, all)
    ensures var next := Afterwards(SequencesOf(ss), origins, c);
      scratch.Valid() && GoodOrigins(next) && AllFit(scratch.Tables(), next)
  {
    hide Carries, Reference, ReplayAll, LiteralsLast, GoodOrigins, AllFit, Afterwards, SoundTables;
    var read := ReadBehind(scratch, bytes, 0, [], SequencesOf(ss), origins, c);
    decoded := read.value;
    CollectedExecute(before, history, ss);
  }

  /** Both: every block of a window that holds one block survives, and of a larger
      window every block except those whose sequences all lack literals. */
  method BlockRoundTrip(g: MatchGenerator, scratch: FseScratch, ghost history: seq<nat>)
    returns (coded: bool, literals: seq<byte>, bytes: seq<byte>, decoded: seq<Sequence>, ghost ss: seq<Emitted>)
    requires g.Valid() && g.window != [] && g.maxWindowSize <= 131072 && NonZero(history) && scratch.Valid()
    modifies g`window, g`suffixIdx, g`lastIdxInSequence
    modifies scratch, scratch.literalLengths, scratch.offsets, scratch.matchLengths
    ensures g.Valid() && g.All() == old(g.All()) && scratch.Valid()
    ensures Emits(ss, old(g.Emission()), g.All()) && literals == LiteralsOf(ss)
    ensures coded <==> SequencesOf(ss) == [] || SomeLiterals(SequencesOf(ss))
    ensures old(g.Emission()) == [] ==> coded
    ensures coded ==> (exists c :: Carries(bytes, [], SequencesOf(ss), NOTHING_KNOWN, c)) && decoded == SequencesOf(ss)
    ensures coded ==> Rebuilds(old(g.Emission()), history, literals, decoded, g.All())
  {
    hide Joined, Stored, Distance, Carries, Emits, Rebuilds;
    ghost var before := g.Emission();
    ghost var c;
    coded, literals, bytes, ss, c := EncodeBlock(g, NOTHING_KNOWN);
    decoded := [];
    if coded {
      decoded := DecodeBlock(scratch, bytes, literals, ss, before, g.All(), history, NOTHING_KNOWN, c);
    }
  }

  ghost predicate Rebuilds(output: seq<byte>, history: seq<nat>, literals: seq<byte>, seqs: seq<Sequence>, all: seq<byte>)
    requires NonZero(history)
  {
    Offsets(seqs) && var r := Reference(output, history, literals, seqs); r.Some? && r.value.0 == all
  }

  method HasLiterals(seqs: seq<Sequence>) returns (some: bool)
    ensures some <==> SomeLiterals(seqs)
  {
    some := false;
    for i := 0 to |seqs|
      invariant some <==> exists j :: 0 <= j < i && seqs[j].ll > 0
    {
      if seqs[i].ll > 0 {
        some := true;
      }
    }
  }

  // ----- whole frames -----

  const MAX_BLOCK_SIZE: nat := 131072

  /** Each compressed unit has its section. */
  ghost predicate SectionsFor(us: seq<Unit>, sections: seq<seq<byte>>) {
    |us| == |sections| && forall i :: 0 <= i < |us| && us[i].Compressed? ==> SectionFor(us[i].sequences, sections[i])
  }

  /** Written without recourse to earlier tables. */
  ghost predicate SectionFor(seqs: seq<Sequence>, bytes: seq<byte>) {
    exists c :: Carries(bytes, [], seqs, NOTHING_KNOWN, c)
  }

  /** The encoder as it is shipped, with a window of one block: whatever the data and
      the hash, each compressed block gets its section, and executing the units gives
      the data. */
  method EncodeFrame(hash: seq<byte> -> nat, blocks: seq<Block>)
    returns (us: seq<Unit>, sections: seq<seq<byte>>, ghost history: seq<nat>)
    requires forall i :: 0 <= i < |blocks| ==> 0 < |blocks[i].data| <= MAX_BLOCK_SIZE
    requires CutFull(blocks, MAX_BLOCK_SIZE)
    ensures |us| == |blocks| && SectionsFor(us, sections)
    ensures NonZero([1, 4, 8]) && DecodeUnits(([], [1, 4, 8]), us) == Some((Source(blocks, |blocks|), history))
  {
    hide DecodeUnits, InRange, SomeLiterals, Encodable, Carries, SectionFor;
    us, history := EncodeBlocks(MAX_BLOCK_SIZE, hash, blocks);
    sections := [];
    for i := 0 to |us|
      invariant |sections| == i
      invariant forall j :: 0 <= j < i && us[j].Compressed? ==> SectionFor(us[j].sequences, sections[j])
    {
      var bytes := [];
      if us[i].Compressed? {
        assert UnitCodable(us[i]) && UnitHasLiterals(us[i]);
        RangeEncodable(us[i].sequences);
        ghost var c;
        bytes, c := WriteBehind([], us[i].sequences, NOTHING_KNOWN);
        HasSection(us[i].sequences, bytes, c);
      }
      sections := sections + [bytes];
    }
  }

  lemma HasSection(seqs: seq<Sequence>, bytes: seq<byte>, c: Choices)
    requires Carries(bytes, [], seqs, NOTHING_KNOWN, c)
    ensures SectionFor(seqs, bytes)
  {
  }

  /** Reading the sections of the compressed blocks one after the other gives the
      sequences to execute. */
  method DecodeFrame(compressed: seq<bool>, sections: seq<seq<byte>>, ghost us: seq<Unit>) returns (sequences: seq<seq<Sequence>>)
    requires SectionsFor(us, sections)
    requires |compressed| == |us| && forall i :: 0 <= i < |us| ==> (compressed[i] <==> us[i].Compressed?)
    ensures |sequences| == |us| && forall i :: 0 <= i < |us| && us[i].Compressed? ==> sequences[i] == us[i].sequences
  {
    hide Carries, SoundTables;
    var scratch := new FseScratch();
    sequences := [];
    for i := 0 to |sections|
      invariant fresh(scratch) && fresh(scratch.literalLengths) && fresh(scratch.offsets) && fresh(scratch.matchLengths)
      invariant scratch.Valid() && |sequences| == i
      invariant forall j :: 0 <= j < i && us[j].Compressed? ==> sequences[j] == us[j].sequences
    {
      var one := [];
      if compressed[i] {
        assert SectionFor(us[i].sequences, sections[i]);
        ghost var c :| Carries(sections[i], [], us[i].sequences, NOTHING_KNOWN, c);
        var read := ReadBehind(scratch, sections[i], 0, [], us[i].sequences, NOTHING_KNOWN, c);
        one := read.value;
      }
      sequences := sequences + [one];
    }
  }
}
