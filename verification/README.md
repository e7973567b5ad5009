# Verified model of the Zstandard codec

A Dafny model of the lossless core of the codec in `ruzstd`: bit readers and
writers, FSE and Huffman coding, the sequence section, the match finder, and the
decoder's ring buffer, output buffer and sequence execution. Encoder and decoder
halves are modelled separately, as the source has them, and each pair is proved to
be inverse on everything the source accepts. RFC 8878 gives the formats.

Bit strings are `seq<bool>`, least significant bit first. A writer's state denotes
the bits written, a backward reader's state a signed position in the bits of its
source. Whatever loops over changing state in the source is a method with its
loops; classes stand for the source's structs. `Pow2`, `Up`, `Shr`, `Low`, `And`
and `Or` are the source's powers, shifts and masks on natural numbers; where a
word could overflow (the 64-bit words of the bit writer and the backward reader) the
truncation is written out.

The main results:

- **Format** (`SequenceFormat`, `FsePredefined`, `FseDescriptionFormat`, `HuffmanFormat`):
  what the bits stand for, held to the numbers of the standard: code bases and the order
  of fields, the predefined tables entry by entry, descriptions and codes by example.
- **Bit I/O** (`BitRuns`): any run of writes is read back, forwards and backwards.
- **FSE** (`FseSpread` to `FseNormalise`): the stride is a permutation, encoder and
  decoder describe the same machine, data and table descriptions survive, with one
  state and with two interleaved ones, for tables made from any counts.
- **Sequences** (`SequenceCodes` to `SequenceSection`): three interleaved machines
  with extra bits on one backward stream; whole sections with described, predefined,
  single-symbol or repeated tables, over runs of sections that share a decoder's tables
  (`SequenceSection.RunTracks`).
- **Huffman** (`HuffmanCodes` to `HuffmanCounts`): canonical codes and the flat
  table agree, and literals survive weights, description, one or four streams. The
  redistribution of weights is proved to find a weight to decrease in every step, to
  respect its limit and to leave at least half of the weights alike, which is why the
  table description always fits its length byte (`FseSize`, `FseDominance`,
  `HuffmanHeaderSize`).
- **Output** (`Ring`, `DecodeBuffering`, `SequenceExecution`): the ring refines a byte
  sequence, draining loses nothing whatever the sink does, and execution is the
  reference of the standard.
- **Matching** (`Matching`, `BlockSequences`, `BlockSection`): for any hash and any run
  of blocks the decoder's output is the source; with the window of one block that is
  shipped, every block's sequences survive their section (`BlockSection.EncodeFrame`).

Results that differ from what one would expect of the code:

- Match lengths from 65539 on do not survive (`SequenceCodes.MatchLenInverts`).
- Sequence counts from 0x7F00 on survive only if both bytes of the long form are
  equal (`SequenceHeader.SeqNumRoundTrip`).
- Four streams are possible for every length from four on except five
  (`HuffmanCoding.SplitExists`).
- A table description whose last field is short cannot be read when nothing follows
  it (`FseRoundTrip.DescriptionParses`, an input in `FseRoundTrip.ShortLastField`);
  a stream always follows.
- The two-state decoder misses the end when the last symbol but one owns more than
  half of the table (`FseStream.DistributionTwoStates`, an input in
  `FseStream.TwoStatesCounterexample`); the tables with `avoid_0_numbit` prevent it.
- A block whose sequences all have no literals cannot get a literal length table of
  its own: the table builder finds no second symbol (`BlockSection.NoLiteralsNoTable`,
  an input in `BlockSection.RepeatedBlock`). In the shipped window of one block no such
  block exists (`BlockSequences.FirstMatchHasLiterals`).
- The error for unsupported offset codes cannot occur (`SequenceTables.OffsetsSupported`).
- In a single Huffman stream it is not checked that the codes end where the stream begins
  (`HuffmanFormat.OneAccepted`); in each of four streams it is (`HuffmanFormat.FourAccepted`).
- A match that lies wholly in the dictionary does not count as output
  (`DecodeBuffering.DecodeBuffer.Repeat`).

## Model

| member | source | states |
|---|---|---|
| `BitWriting.BitWriter.WriteBits` | ruzstd/src/bit_io/bit_writer.rs:170-189 | the bit string of everything written grows by exactly the value's bits, lowest first |
| `BitWriting.BitWriter.WriteBitsCold` | ruzstd/src/bit_io/bit_writer.rs:134-167 | the same when the 64-bit word overflows: nothing is lost or duplicated between output bytes and partial word |
| `BitWriting.BitWriter.Flush` | ruzstd/src/bit_io/bit_writer.rs:115-124 | moves whole bytes out of the partial word without changing the bit string |
| `BitWriting.BitWriter.Dump` | ruzstd/src/bit_io/bit_writer.rs:195-202 | the bytes handed out denote exactly the bits written |
| `BitWriting.BitWriter.AppendBytes` | ruzstd/src/bit_io/bit_writer.rs:105-112 | appends the bits of the bytes |
| `BitWriting.BitWriter.ResetTo` | ruzstd/src/bit_io/bit_writer.rs:47-53 | cuts the bit string at an index in the complete bytes; beyond them the partial word is lost and zeros fill up |
| `BitWriting.PatchBytes` | ruzstd/src/bit_io/bit_writer.rs:71-101 | three phases (upper part of a byte, whole bytes, lower part of a byte) together replace exactly the addressed bits |
| `BitWriting.BitWriter.ChangeBits` | ruzstd/src/bit_io/bit_writer.rs:62-102 | only the addressed bits change and the index stays |
| `BitWriting.BitWriter.Index` | ruzstd/src/bit_io/bit_writer.rs:42-44 | the index is the length of the bit string |
| `BitWriting.BitWriter.AlignedPartial` | ruzstd/src/bit_io/bit_writer.rs:115-116 | on a byte border the flush assertion holds |
| `ForwardReading.BitReader.GetBits` | ruzstd/src/bit_io/bit_reader.rs:28-91 | the next bits as a number across byte borders, or the error the source reports, and the position moves only on success |
| `ForwardReading.BitReader.ReturnBits` | ruzstd/src/bit_io/bit_reader.rs:21-26 | moves the position back |
| `BackwardReading.Consistent` | ruzstd/src/bit_io/bit_reader_reverse.rs:6-41 | what the reader's fields mean for the source bits, in bounds in every state |
| `BackwardReading.BitReaderReversed.Refill` | ruzstd/src/bit_io/bit_reader_reverse.rs:43-87 | in all four branches the position in the bit string stays and at least 57 bits become available, with zeros below the beginning |
| `BackwardReading.BitReaderReversed.GetBits` | ruzstd/src/bit_io/bit_reader_reverse.rs:92-100 | the next slice from the end, zero-filled below the beginning; the signed remaining count goes down by exactly the bits asked for |
| `BackwardReading.BitReaderReversed.PeekBits` | ruzstd/src/bit_io/bit_reader_reverse.rs:105-113 | looks at the slice without moving |
| `BackwardReading.BitReaderReversed.PeekBitsTriple` | ruzstd/src/bit_io/bit_reader_reverse.rs:118-140 | three slices cut out of one word are the three consecutive reads |
| `BackwardReading.BitReaderReversed.GetBitsTriple` | ruzstd/src/bit_io/bit_reader_reverse.rs:151-162 | equals three single reads, whether done in one refill or three |
| `BackwardReading.SkipPadding` | ruzstd/src/decoding/sequence_section_decoder.rs:26-36 | skips zeros and the first one, at most nine bits |
| `BackwardReading.MarkerFound` | ruzstd/src/fse/fse_encoder.rs:102-112 | skipping finds exactly the marker an encoder appended |
| `Bits.BitOfByte` | ruzstd/src/bit_io/bit_reader.rs:28-91 | bit j of byte i, counted from the least significant one, is bit 8 i + j of the string |
| `BitRuns.ReadForward` | ruzstd/src/bit_io/bit_reader.rs:28-91 | bytes that hold any run of fields of at most 63 bits give their values one by one |
| `BitRuns.ForwardRoundTrip` | ruzstd/src/bit_io/bit_reader.rs:28-91 | the bytes written are exactly the fields and zeros up to the border, and reading them forwards gives the values |
| `BitRuns.ReadBackward` | ruzstd/src/bit_io/bit_reader_reverse.rs:92-100 | a reader standing behind any run of fields of at most 56 bits gives their values in opposite order and stops at the beginning |
| `BitRuns.BackwardRoundTrip` | ruzstd/src/bit_io/bit_reader_reverse.rs:92-100 | the bytes written are exactly the fields and the marker, and reading them backwards gives the values, no bit left |
| `FseSpread.PosInjective` | ruzstd/src/fse/fse_encoder.rs:415-419 | the stride visits no cell of a table of 2^k cells (k at least 4) twice within one cycle |
| `FseSpread.PosSurjective` | ruzstd/src/fse/fse_decoder.rs:334-338 | and it visits every cell: it is a permutation of the table |
| `FsePredefined.StepsOfWalk` | ruzstd/src/fse/fse_decoder.rs:334-338 | step i stands on cell i times half the size plus an eighth plus 3, modulo the size |
| `FseSpread.CellsExact` | ruzstd/src/fse/fse_decoder.rs:190-197 | skipping occupied cells, the placement fills exactly the free cells, each once |
| `FseSpread.NextFree` | ruzstd/src/fse/fse_decoder.rs:192-196 | the skip loop ends, on the next free cell of the walk |
| `FseDistribution.SymbolTable` | ruzstd/src/fse/fse_decoder.rs:177-197 | every free cell gets a symbol with positive probability |
| `FseDistribution.ChunkIsCells` | ruzstd/src/fse/fse_encoder.rs:347-359 | the cells a symbol receives in the walk are exactly the cells it owns in the table |
| `FseDistribution.CellAtRank` | ruzstd/src/fse/fse_decoder.rs:206-216 | counting a symbol's cells in table order enumerates them all |
| `FseDecodingTable.PlaceNegatives` | ruzstd/src/fse/fse_decoder.rs:164-174 | each symbol of probability -1 gets one cell, counted from the top |
| `FseDecodingTable.SpreadSymbols` | ruzstd/src/fse/fse_decoder.rs:176-197 | every other cell gets its symbol; no cell is written twice |
| `FseDecodingTable.AssignBaselines` | ruzstd/src/fse/fse_decoder.rs:199-217 | the loop produces the decoding table the distribution prescribes, and the assertion on bit counts holds |
| `FseDecodingTable.FseTable.BuildDecodingTable` | ruzstd/src/fse/fse_decoder.rs:141-220 | builds the table of the distribution (`FsePredefined.EveryEntry`) for every valid one, refuses too many symbols and then changes nothing |
| `FseDecodingTable.FseTable.BuildFromProbabilities` | ruzstd/src/fse/fse_decoder.rs:126-137 | the same for a given distribution, with the zero-log error |
| `FsePredefined.EntryFormula` | ruzstd/src/fse/fse_decoder.rs:340-366 | the n-th cell of a symbol with p cells reads the bits x = p + n lacks to the table size, and its baseline is what x shifted by them exceeds the size |
| `FsePredefined.EveryEntry` | ruzstd/src/fse/fse_decoder.rs:141-220 | each entry of each table: by the formula, or full width for the -1 symbols at the top |
| `FsePredefined.LlTable` | ruzstd/src/decoding/sequence_section_decoder.rs:412-421 | all 64 entries of the predefined literal length table of Appendix A of RFC 8878, literally; the cells of test_ll_default among them |
| `FsePredefined.MlTable` | ruzstd/src/decoding/sequence_section_decoder.rs:423-432 | all 64 entries of the predefined match length table, literally |
| `FsePredefined.OfTable` | ruzstd/src/decoding/sequence_section_decoder.rs:434-442 | all 32 entries of the predefined offset table, literally |
| `FseLayout.CalcIsRange` | ruzstd/src/fse/fse_decoder.rs:340-366 | the decoder's arithmetic gives the range of the right rank in the partition |
| `FseLayout.RangesAdjacent` | ruzstd/src/fse/fse_encoder.rs:388-404 | ranges follow each other without gap or overlap |
| `FseLayout.RangesSpan` | ruzstd/src/fse/fse_encoder.rs:388-404 | together they span the whole table |
| `FseLayout.HintSound` | ruzstd/src/fse/fse_encoder.rs:199-205 | the position estimated for the search never lies behind the range that contains the index |
| `FseLayout.ZeroBitsIff` | ruzstd/src/fse/fse_decoder.rs:340-366 | a range of zero bits occurs exactly when the symbol owns more than half of the table |
| `FseAgreement.GetIsUnique` | ruzstd/src/fse/fse_encoder.rs:199-205 | the search finds the one state whose range contains the index, for every symbol and every index |
| `FseAgreement.EntriesPartition` | ruzstd/src/fse/fse_decoder.rs:199-217 | for every symbol, each index is reached from exactly one of its entries |
| `FseAgreement.EveryStateMatches` | ruzstd/src/fse/mod.rs:32-43 | encoder and decoder assign the same baseline and bit count to each cell |
| `FseAgreement.TablesAgree` | ruzstd/src/fse/mod.rs:32-43 | every transition the encoder makes is undone by the decoder entry it points to |
| `FseAgreement.AbsentSymbols` | ruzstd/src/fse/fse_encoder.rs:313-413 | exactly the symbols of probability zero have no states |
| `FseEncodingTable.PlaceNegativeStates` | ruzstd/src/fse/fse_encoder.rs:320-337 | one full-width state per -1 symbol at the top |
| `FseEncodingTable.SpreadStates` | ruzstd/src/fse/fse_encoder.rs:341-361 | states in the order of the walk, each on its own free cell |
| `FseEncodingTable.ArrangeStates` | ruzstd/src/fse/fse_encoder.rs:371-404 | sorting by cell, handing out ranges and sorting by range gives the state list of the distribution |
| `FseEncodingTable.BuildTableFromProbabilities` | ruzstd/src/fse/fse_encoder.rs:313-413 | the result is the encoding table of the distribution, state by state, on the cells of `FsePredefined.StepsOfWalk` |
| `FseStream.StepBack` | ruzstd/src/fse/fse_decoder.rs:43-52 | one decoder transition undoes one encoder transition |
| `FseStream.StreamRoundTrip` | ruzstd/src/fse/fse_encoder.rs:26-45 | decoding any coded data gives the data in order and consumes exactly the written bits |
| `FseStream.TwoStatesRoundTrip` | ruzstd/src/fse/fse_encoder.rs:53-113 | with two alternating states, up to 256 symbols are recovered if and only if the start state of the last symbol but one reads a bit |
| `FseStream.DistributionTwoStates` | ruzstd/src/huff0/huff0_decoder.rs:202-234 | for the tables of a distribution: if and only if the last symbol but one owns at most half of the table |
| `FseStream.TwoStatesCounterexample` | ruzstd/src/huff0/huff0_decoder.rs:202-234 | with 17 of 32 cells for the first of two symbols the end is missed |
| `FseCoding.EncodeSymbols` | ruzstd/src/fse/fse_encoder.rs:29-45 | the loop writes the coded data, the last state and the marker |
| `FseCoding.EncodeInterleavedSymbols` | ruzstd/src/fse/fse_encoder.rs:56-113 | the two-state loop, for odd and even lengths, writes the two-state code and both states in the order the decoder needs |
| `FseCoding.FseDecoder.InitState` | ruzstd/src/fse/fse_decoder.rs:32-40 | reads the first state; an unbuilt table is an error and reads nothing |
| `FseCoding.FseDecoder.UpdateState` | ruzstd/src/fse/fse_decoder.rs:43-52 | one transition, never outside the table |
| `FseCoding.DecodeInterleaved` | ruzstd/src/huff0/huff0_decoder.rs:202-234 | the alternating loop computes the two-state decoding, with its limit on the number of weights |
| `FseDescription.DescriptionRoundTrip` | ruzstd/src/fse/fse_decoder.rs:241-281 | reading the fields gives the probabilities back, zero runs and short codes included; it fails exactly when the last field is short and ends with the input |
| `FseDescription.ReadIsDistribution` | ruzstd/src/fse/fse_decoder.rs:283-289 | whatever is read successfully sums up to exactly two to the power of the log: the mismatch error cannot occur |
| `FseDescriptionFormat.FieldIntervals` | ruzstd/src/fse/fse_decoder.rs:243-262 | the value of a field by the interval its full-width bits lie in, as section 4.1.1 of RFC 8878 tabulates it |
| `FseDescriptionFormat.FieldExample` | ruzstd/src/fse/fse_decoder.rs:243-262 | the example of the standard: with values up to 157 the 256 possible bytes decode as tabulated |
| `FseDescriptionFormat.WholeDescription` | ruzstd/src/fse/fse_encoder.rs:147-188 | one description field by field: log less five, probability plus one, runs of zeros, short and long fields, written and read |
| `FseTableCoding.WriteZeroRun` | ruzstd/src/fse/fse_encoder.rs:176-184 | a run of zeros as two-bit counts |
| `FseTableCoding.WriteTable` | ruzstd/src/fse/fse_encoder.rs:147-188 | writes the description of the table and pads it to a byte border |
| `FseTableCoding.ReadAllProbabilities` | ruzstd/src/fse/fse_decoder.rs:238-281 | the reading loop parses a description or fails with it |
| `FseTableCoding.ReadProbabilities` | ruzstd/src/fse/fse_decoder.rs:224-307 | success, probabilities and byte count exactly as the description says, and each error in its case |
| `FseTableCoding.BuildDecoder` | ruzstd/src/fse/fse_decoder.rs:116-123 | the table of the distribution described, or an error |
| `FseRoundTrip.DescriptionParses` | ruzstd/src/fse/fse_encoder.rs:147-188 | a written description parses to the trimmed probabilities and its own length, except when a short last field ends the source |
| `FseRoundTrip.TrimmedTable` | ruzstd/src/fse/fse_decoder.rs:224-307 | trailing zero probabilities do not change the table |
| `FseRoundTrip.StreamDecodes` | ruzstd/src/fse/fse_decoder.rs:32-52 | for every distribution and all non-empty data over its symbols the stream decodes to the data with zero bits left |
| `FseRoundTrip.ShortLastField` | ruzstd/src/fse/fse_encoder.rs:147-188 | the distribution 1, 30, -1 ends with a short field on a byte border: unreadable alone, readable with anything behind it |
| `FseRoundTrip.EncodeToBytes` | ruzstd/src/fse/fse_encoder.rs:29-45 | the bytes are the padded description of the table and the stream of the data |
| `FseRoundTrip.DecodeBytes` | ruzstd/src/fse/fse_decoder.rs:116-123 | from such bytes the table is rebuilt and the data comes back, with no bit left |
| `FseRoundTrip.RoundTrip` | ruzstd/src/fse/mod.rs:80-139 | both: the bytes carry table and data, and decoding them gives the data |
| `FseNormalise.NormaliseCounts` | ruzstd/src/fse/fse_encoder.rs:244-307 | the loops compute the normalisation step by step: shift, divide, raise the last maximum or reduce the first minima, balance |
| `FseNormalise.NormalisedIsDistribution` | ruzstd/src/fse/fse_encoder.rs:244-311 | the total is exactly two to the power of the log, no occurring symbol is lost, and on request none owns more than half |
| `FseScaling.ReducedIs` | ruzstd/src/fse/fse_encoder.rs:283-292 | the smallest probabilities give first, all they have but one, before the next one gives anything |
| `FseScaling.NormalisedIs` | ruzstd/src/fse/fse_encoder.rs:244-307 | the probabilities without the steps: scaled counts, table size, the last of the largest raised or the smallest reduced, and the half moved to the first second largest; conditions that leave one possibility |
| `FseNormalise.ReduceSmallest` | ruzstd/src/fse/fse_encoder.rs:286-292 | the reduction loop ends, always finds a probability to reduce, and keeps all positive ones positive |
| `FseNormalise.BalancePoints` | ruzstd/src/fse/fse_encoder.rs:295-307 | a second symbol exists and stays within one half: the source's assertion |
| `FseNormalise.SingleSlot` | ruzstd/src/fse/fse_encoder.rs:295-307 | the table builder finds no second symbol if and only if there is a single count slot |
| `FseNormalise.CountSymbols` | ruzstd/src/fse/fse_encoder.rs:226-242 | counts every symbol up to the largest that occurs |
| `FseNormalise.BuildTableFromData` | ruzstd/src/fse/fse_encoder.rs:226-242 | for data with at most 2^max_log different symbols, of any value, the table of exactly the normalised counts, which can code the data |
| `FseNormalise.AvoidZeroRecovers` | ruzstd/src/fse/fse_encoder.rs:295-307 | with avoid_0_numbit the two-state decoder recovers all data of 2 to 256 symbols |
| `FseNormalise.RoundTrip` | ruzstd/src/fse/mod.rs:80-139 | the bytes carry the table of the data's own normalised counts and the data, and decoding them gives the data |
| `FseSize.StreamBound` | ruzstd/src/fse/fse_encoder.rs:53-113 | data coded with two states takes at most the log per symbol, less the logarithm of its probability for each occurrence of a chosen symbol |
| `FseSize.DescribedBound` | ruzstd/src/fse/fse_encoder.rs:147-188 | a description takes at most the log and three bits per symbol |
| `FseDominance.OutweighingShare` | ruzstd/src/fse/fse_encoder.rs:244-307 | when one count outweighs the others, some symbol that occurs about as often ends up with a quarter of 32 cells or half of 64 |
| `SequenceCodes.LiteralLengthInverts` | ruzstd/src/encoding/blocks/compressed.rs:245-270 | code, extra bits and lookup give the literal length back; which code has which base is `SequenceFormat.LlTable` |
| `SequenceCodes.MatchLenInverts` | ruzstd/src/encoding/blocks/compressed.rs:272-299 | for match lengths this holds exactly up to 65538 |
| `SequenceCodes.MatchLenCounterexample` | ruzstd/src/encoding/blocks/compressed.rs:296-296 | 65539 comes back as 98307 |
| `SequenceCodes.OffsetInverts` | ruzstd/src/encoding/blocks/compressed.rs:301-305 | code and extra bits give the offset back, for all 32-bit offsets |
| `SequenceFormat.LlTable` | ruzstd/src/decoding/sequence_section_decoder.rs:227-252 | literal length codes follow each other from 0 on without gap, with these numbers of extra bits |
| `SequenceFormat.MlTable` | ruzstd/src/decoding/sequence_section_decoder.rs:258-284 | match length codes follow each other from 3 on without gap, with these numbers of extra bits |
| `SequenceFormat.LastCodes` | ruzstd/src/decoding/sequence_section_decoder.rs:227-284 | they end behind 131071 and 131074 |
| `SequenceFormat.SequenceFields` | ruzstd/src/decoding/sequence_section_decoder.rs:171-197 | a decoded sequence from its bits: base plus extra bits for each code, the offset read first, then match length, then literal length |
| `SequenceFormat.TransitionFields` | ruzstd/src/decoding/sequence_section_decoder.rs:203-207 | the next states are baseline plus bits, literal lengths read first, then match lengths, then offsets |
| `SequenceFormat.StartFields` | ruzstd/src/decoding/sequence_section_decoder.rs:164-166 | the first states from their bits: literal lengths, offsets, match lengths |
| `SequenceFormat.FirstOfMany` | ruzstd/src/decoding/sequence_section_decoder.rs:171-212 | a sequence, then its transition, then the other sequences |
| `SequenceFormat.NoMarker` | ruzstd/src/decoding/sequence_section_decoder.rs:26-36 | a last byte of zero is refused |
| `SequenceStream.StepsBack` | ruzstd/src/decoding/sequence_section_decoder.rs:203-210 | the three transitions lead back to the three states they were made from |
| `SequenceStream.ExtraBack` | ruzstd/src/decoding/sequence_section_decoder.rs:188-201 | the extra bits are read back into the sequence |
| `SequenceStream.SequencesRoundTrip` | ruzstd/src/encoding/blocks/compressed.rs:160-214 | three interleaved machines with extra bits: decoding gives exactly the sequences and stops in front of their bits |
| `SequenceCoding.EncodeSequences` | ruzstd/src/encoding/blocks/compressed.rs:160-221 | the loop writes the coded sequences, the three states and the marker |
| `SequenceCoding.DecodeSequencesWithoutRle` | ruzstd/src/decoding/sequence_section_decoder.rs:154-221 | the loop over three tables computes the decoding that `SequenceFormat` spells out bit by bit, every error in its case; success with sequences leaves zero bits |
| `SequenceCoding.DecodeSequencesWithRle` | ruzstd/src/decoding/sequence_section_decoder.rs:49-152 | the loop that neither starts nor updates the decoders of single symbols computes the same decoding, with a one-cell table for each of them |
| `SequenceCoding.DecodeSequences` | ruzstd/src/decoding/sequence_section_decoder.rs:24-46 | the marker is skipped or the padding refused, then the loop the tables call for; unbuilt tables are an error |
| `SequenceCoding.SectionRoundTrip` | ruzstd/src/decoding/sequence_section_decoder.rs:26-46 | for every list of codable sequences, and tables or single symbols that agree on their codes, the section decodes to the list |
| `SequenceTables.KindsAreGood` | ruzstd/src/decoding/sequence_section_decoder.rs:412-442 | the predefined distributions fill their tables: 64 cells for lengths, 32 for offsets |
| `SequenceTables.UpdateTable` | ruzstd/src/decoding/sequence_section_decoder.rs:304-335 | one kind of code: the table and the bytes taken in each of the four modes, and the error for a missing or too large symbol, which is always that of match lengths |
| `SequenceTables.UpdatedSound` | ruzstd/src/decoding/sequence_section_decoder.rs:304-335 | in every mode the table keeps its transitions inside and its symbols within the limit; it is built unless repeated |
| `SequenceTables.FseScratch.MaybeUpdateFseTables` | ruzstd/src/decoding/sequence_section_decoder.rs:294-410 | literal lengths, offsets, match lengths, one behind the other; afterwards no code can reach the arms the lookups call unreachable |
| `SequenceTables.OffsetsSupported` | ruzstd/src/decoding/sequence_section_decoder.rs:98-102 | with tables that were read the error for unsupported offsets cannot occur |
| `SequenceFormat.ModeBits` | ruzstd/src/blocks/sequence_section.rs:65-90 | two bits each from the top: literal lengths, offsets, match lengths; predefined, single, described, repeated |
| `SequenceFormat.TableLimits` | ruzstd/src/decoding/sequence_section_decoder.rs:286-410 | logs up to 9, 9, 8 and symbols up to 35, 52, 31, the errors for missing bytes, and the predefined tables |
| `SequenceOrigins.OriginsAgree` | ruzstd/src/decoding/sequence_section_decoder.rs:304-335 | tables of the same origins, described, predefined, single or repeated, agree on every list they cover |
| `SequenceOrigins.ChoiceRead` | ruzstd/src/decoding/sequence_section_decoder.rs:304-335 | whatever the writer chose, the decoder takes exactly its bytes and holds a table of the same origin |
| `SequenceCoding.EncodeBehind` | ruzstd/src/encoding/blocks/compressed.rs:160-221 | the bytes are those before, then the coded sequences, states and marker |
| `SequenceCoding.DecodeBehind` | ruzstd/src/decoding/sequence_section_decoder.rs:26-46 | from such bytes the sequences come back, with tables that agree |
| `SequenceCoding.RoundTrip` | ruzstd/src/encoding/blocks/compressed.rs:160-221 | both: bytes that carry the sequences, and the sequences decoded from them |
| `SequenceHeader.EncodeSeqNum` | ruzstd/src/encoding/blocks/compressed.rs:223-243 | writes the one, two or three bytes |
| `SequenceHeader.SeqNumRoundTrip` | ruzstd/src/blocks/sequence_section.rs:108-166 | a sequence count is read back if and only if it is at most 0x7EFF or both halves of its long form are equal |
| `SequenceHeader.SeqNumCounterexample` | ruzstd/src/encoding/blocks/compressed.rs:227-231 | 0x7F00 does not survive |
| `SequenceFormat.HeaderBytes` | ruzstd/src/blocks/sequence_section.rs:108-168 | the number of sequences from one, two or three bytes, low byte first in the long form, and the modes |
| `SequenceFormat.HeaderTooShort` | ruzstd/src/blocks/sequence_section.rs:108-168 | what is too short, and by how much |
| `SequenceFormat.NumberBytes` | ruzstd/src/encoding/blocks/compressed.rs:221-243 | the encoder writes the shortest form, high byte first |
| `SequenceSection.ChooseTables` | ruzstd/src/encoding/blocks/compressed.rs:119-135 | one table per kind of code, made from the codes |
| `SequenceSection.WriteSection` | ruzstd/src/encoding/blocks/compressed.rs:44-88 | count, modes, three descriptions, stream: a section by the format, whatever the tables were before |
| `SequenceSection.TablesTrack` | ruzstd/src/decoding/sequence_section_decoder.rs:294-410 | the same for all three kinds, whatever follows |
| `SequenceSection.SectionTracks` | ruzstd/src/decoding/sequence_section_decoder.rs:14-46 | for every list, every choice of modes and whatever was kept from earlier sections: the list is read, and the decoder again holds the tables the writer counts on |
| `SequenceSection.RunTracks` | ruzstd/src/decoding/block_decoder.rs:183-223 | every list of a run of sections is read, through any mixture of modes and repeats |
| `SequenceSection.WriteBehind` | ruzstd/src/encoding/blocks/compressed.rs:42-88 | the bytes are those before, then the section, a single zero for no sequences |
| `SequenceSection.ReadSection` | ruzstd/src/decoding/block_decoder.rs:183-220 | header, tables of any modes, stream, errors of the header and the one for bytes behind an empty section; the tables are kept |
| `SequenceSection.ReadSections` | ruzstd/src/decoding/block_decoder.rs:183-223 | section after section with the same tables computes the reading of the run |
| `SequenceSection.ReadBehind` | ruzstd/src/decoding/sequence_section_decoder.rs:14-46 | whatever list the bytes carry is read, headers, tables and stream, by any decoder with the tables counted on |
| `SequenceSection.RoundTrip` | ruzstd/src/decoding/sequence_section_decoder.rs:14-46 | both: bytes that carry the section of a codable list, and the list read from them by any decoder |
| `HuffmanCodes.RangesOrdered` | ruzstd/src/huff0/huff0_encoder.rs:216-250 | ranges of symbols follow each other in canonical order |
| `HuffmanCodes.RangesDisjoint` | ruzstd/src/huff0/huff0_decoder.rs:359-374 | no cell belongs to two symbols |
| `HuffmanCodes.RangesCover` | ruzstd/src/huff0/huff0_decoder.rs:359-374 | every cell belongs to a symbol |
| `HuffmanCodes.BaseIsMultiple` | ruzstd/src/huff0/huff0_encoder.rs:237-250 | in a complete list each range begins at a multiple of its size, so its common bits are a code |
| `HuffmanCodes.TableDecides` | ruzstd/src/huff0/huff0_decoder.rs:359-374 | a cell holds a symbol if and only if its number starts with the encoder's code of the symbol |
| `HuffmanDecodingTable.InferredCompletes` | ruzstd/src/huff0/huff0_decoder.rs:300-312 | the inferred weight completes the list and no code is empty |
| `HuffmanDecodingTable.LastWeightInferred` | ruzstd/src/huff0/huff0_decoder.rs:300-312 | the decoder infers exactly the weight the encoder left out |
| `HuffmanDecodingTable.RankStarts` | ruzstd/src/huff0/huff0_decoder.rs:345-357 | the start of each length lies behind all longer codes, and the size assertion holds |
| `HuffmanDecodingTable.FillTable` | ruzstd/src/huff0/huff0_decoder.rs:359-374 | the fill loop puts every symbol on all cells of its range and leaves no cell out |
| `HuffmanDecodingTable.HuffmanTable.BuildTableFromWeights` | ruzstd/src/huff0/huff0_decoder.rs:284-377 | the decoding table of the completed list, or the error, exactly when the weight cannot be inferred |
| `HuffmanEncodingTable.BuildFromWeights` | ruzstd/src/huff0/huff0_encoder.rs:196-253 | sorting and counting gives each symbol the code of its range; the power-of-two check never fails for complete lists |
| `HuffmanEncodingTable.CounterIsCode` | ruzstd/src/huff0/huff0_encoder.rs:237-250 | shifting the counter by the weight difference gives the next symbol's code |
| `HuffmanFormat.ExampleCodes` | ruzstd/src/huff0/huff0_encoder.rs:196-253 | the example of section 4.2.1 of RFC 8878: weights 4, 3, 2, 0, 1, 1 give the codes 1, 01, 001, none, 0000, 0001 |
| `HuffmanFormat.ExampleStream` | ruzstd/src/huff0/huff0_encoder.rs:87-104 | the bits of three symbols with these codes, the last symbol first |
| `HuffmanStream.WindowMoves` | ruzstd/src/huff0/huff0_decoder.rs:41-54 | shift, mask and or move the window by the length of a code |
| `HuffmanStream.StreamRoundTrip` | ruzstd/src/decoding/literals_section_decoder.rs:126-146 | decoding coded data through the window gives the data and stops exactly at the beginning |
| `HuffmanCoding.EncodeStream` | ruzstd/src/huff0/huff0_encoder.rs:87-104 | from the last symbol to the first, then the marker |
| `HuffmanCoding.SplitExists` | ruzstd/src/huff0/huff0_encoder.rs:42-47 | the four parts exist for every length from 4 except 5 |
| `HuffmanCoding.PartsJoin` | ruzstd/src/huff0/huff0_encoder.rs:42-47 | the parts together are the data |
| `HuffmanCoding.Encode4x` | ruzstd/src/huff0/huff0_encoder.rs:39-84 | jump table and four streams: three parts of a quarter of the symbols rounded up and the rest, sizes in two bytes each, low byte first; patching them changes nothing else |
| `HuffmanCoding.FourStreamsCut` | ruzstd/src/huff0/huff0_encoder.rs:42-47 | the common length of the first three parts, and that the last one is at most three shorter |
| `HuffmanCoding.HuffmanDecoder.NextState` | ruzstd/src/huff0/huff0_decoder.rs:41-54 | keeps the state equal to the window of bits in front of the reader |
| `HuffmanCoding.DecodeStream` | ruzstd/src/decoding/literals_section_decoder.rs:126-146 | the loop ends when the window has left the stream and returns the symbols looked up |
| `HuffmanCoding.DecodeAll` | ruzstd/src/decoding/literals_section_decoder.rs:83-120 | four streams one after the other, each error in its case |
| `HuffmanCoding.DecompressLiterals` | ruzstd/src/decoding/literals_section_decoder.rs:70-158 | one or four streams with all size checks |
| `HuffmanFormat.FourAccepted` | ruzstd/src/decoding/literals_section_decoder.rs:70-155 | four streams are accepted if and only if the sizes fit, each stream ends exactly, and the number of symbols is the one announced |
| `HuffmanFormat.OneAccepted` | ruzstd/src/decoding/literals_section_decoder.rs:125-155 | a single stream if and only if it has its marker and the number of symbols fits |
| `HuffmanTableCoding.WeightsBack` | ruzstd/src/huff0/huff0_encoder.rs:106-117 | the weights recomputed from the codes are the original ones if and only if one of them is 1 |
| `HuffmanTableCoding.UnpackPacked` | ruzstd/src/huff0/huff0_decoder.rs:243-273 | nibbles are read back in order |
| `HuffmanTableCoding.WriteNibbles` | ruzstd/src/huff0/huff0_encoder.rs:136-151 | two weights per byte, an odd one in the high half |
| `HuffmanTableCoding.WeightsRead` | ruzstd/src/huff0/huff0_decoder.rs:148-234 | FSE coded weights are recovered, for every table that avoids zero bits |
| `HuffmanFormat.DirectWeights` | ruzstd/src/huff0/huff0_decoder.rs:243-273 | a header byte above 127: number of weights, four bits each, high half first |
| `HuffmanFormat.CodedWeights` | ruzstd/src/huff0/huff0_decoder.rs:142-150 | a header byte up to 127: number of bytes of coded weights |
| `HuffmanFormat.CodedWeightsAccepted` | ruzstd/src/huff0/huff0_decoder.rs:142-234 | what is asked of coded weights |
| `HuffmanFormat.StatesStart` | ruzstd/src/huff0/huff0_decoder.rs:182-203 | the two states from their bits, the first one read first |
| `HuffmanFormat.StatesAlternate` | ruzstd/src/huff0/huff0_decoder.rs:205-235 | each state moves on by its own bits, in turns |
| `HuffmanFormat.StatesGiveUp` | ruzstd/src/huff0/huff0_decoder.rs:228-234 | after 256 transitions there is no result |
| `HuffmanFormat.StatesEnd` | ruzstd/src/huff0/huff0_decoder.rs:205-227 | where the bits do not suffice both states give their last symbols |
| `HuffmanDescription.WriteWeights` | ruzstd/src/huff0/huff0_encoder.rs:119-153 | nibbles up to 16 weights, FSE form with the size patched in otherwise; the size assertion holds if and only if the coded weights take less than 128 bytes |
| `HuffmanDescription.ReadWeights` | ruzstd/src/huff0/huff0_decoder.rs:132-278 | success, weights and byte count exactly as the description says |
| `HuffmanDescription.BuildDecoder` | ruzstd/src/huff0/huff0_decoder.rs:117-123 | a table exactly when weights can be read and completed |
| `HuffmanRoundTrip.DescriptionRead` | ruzstd/src/huff0/huff0_decoder.rs:132-278 | a description is read back as the weights it was made of, whatever follows it |
| `HuffmanRoundTrip.LiteralsBack` | ruzstd/src/decoding/literals_section_decoder.rs:70-158 | one stream or four decode to the data |
| `HuffmanRoundTrip.EncodeLiterals` | ruzstd/src/huff0/huff0_encoder.rs:25-84 | exactly when the header fits, bytes that carry description and streams |
| `HuffmanRoundTrip.DecodeLiterals` | ruzstd/src/decoding/literals_section_decoder.rs:40-158 | from such bytes the decoder is built and the literals return |
| `HuffmanRoundTrip.RoundTrip` | ruzstd/src/decoding/literals_section_decoder.rs:40-158 | both, for any acceptable weights, exactly when the header fits |
| `HuffmanWeights.DistributeWeights` | ruzstd/src/huff0/huff0_encoder.rs:295-340 | terminates with the list in closed form (`Distribution`): ascending weights, as many as asked for, whose powers of two add up to a power of two |
| `HuffmanWeights.RaiseWeights` | ruzstd/src/huff0/huff0_encoder.rs:360-371 | lifts the low weights and records exactly what that adds |
| `HuffmanWeights.Candidate` | ruzstd/src/huff0/huff0_encoder.rs:376-387 | finds the first of the highest weights that can be decreased, or reports that there is none |
| `HuffmanWeights.PayStep` | ruzstd/src/huff0/huff0_encoder.rs:374-391 | a weight to decrease always exists; a step keeps the order and the difference of total and debt |
| `HuffmanWeights.SmallestCanPay` | ruzstd/src/huff0/huff0_encoder.rs:374-391 | when only the smallest weights can be decreased they suffice |
| `HuffmanWeights.FloorKeepsHalf` | ruzstd/src/huff0/huff0_encoder.rs:374-391 | when only the smallest weights are left to decrease they can pay, and two to the power of ilog2 of the amount of them stay |
| `HuffmanWeights.RedistributeWeights` | ruzstd/src/huff0/huff0_encoder.rs:345-399 | raised, repaid always from the first of the highest weights that can be decreased, and shifted down (`Redistributed`); never fails for lists with at most two to the power of the limit entries; complete again, starting at 1, and no code longer than the limit; for the lists distribute_weights makes, at least two to the power of ilog2 of the amount entries end up equal, one or two, and none above ilog2 plus one |
| `HuffmanCounts.AssignWeights` | ruzstd/src/huff0/huff0_encoder.rs:179-190 | every occurring symbol gets one weight, rarer symbols no larger ones, equally frequent ones in their own order, and the sum stays |
| `HuffmanCounts.WeightsFromCounts` | ruzstd/src/huff0/huff0_encoder.rs:173-191 | for any counts of at least two symbols the weights of the redistributed list, acceptable to a decoder, with codes of at most 10 bits, and most of them alike |
| `HuffmanCounts.BlockSizesFit` | ruzstd/src/huff0/huff0_encoder.rs:76-78 | the jump table assertions hold for all blocks |
| `HuffmanHeaderSize.FewFit` | ruzstd/src/huff0/huff0_encoder.rs:131-133 | up to 148 acceptable weights always take less than 128 bytes |
| `HuffmanHeaderSize.AlwaysFits` | ruzstd/src/huff0/huff0_encoder.rs:131-133 | the weights made from any counts take less than 128 bytes: the size assertion always holds |
| `HuffmanCounts.RoundTrip` | ruzstd/src/huff0/huff0_encoder.rs:162-171 | for any literals with two different symbols, bytes that carry them with the table made for them, and the literals decoded from the bytes |
| `Ring.CopyBytesOvershooting` | ruzstd/src/decoding/ringbuffer.rs:556-600 | the wanted bytes arrive and only destination cells change, for any word size |
| `Ring.RingBuffer.Free` | ruzstd/src/decoding/ringbuffer.rs:47-50 | one cell always stays free |
| `Ring.RingBuffer.Reserve` | ruzstd/src/decoding/ringbuffer.rs:61-68 | room for the amount afterwards, contents unchanged |
| `Ring.RingBuffer.ReserveAmortized` | ruzstd/src/decoding/ringbuffer.rs:72-122 | the new capacity is one more than the least power of two that suffices, and the contents are moved to the front |
| `Ring.RingBuffer.Extend` | ruzstd/src/decoding/ringbuffer.rs:148-181 | appends the data, around the end if need be |
| `Ring.RingBuffer.DropFirstN` | ruzstd/src/decoding/ringbuffer.rs:185-191 | drops exactly the first bytes |
| `Ring.RingBuffer.AsSlices` | ruzstd/src/decoding/ringbuffer.rs:223-231 | the two slices joined are the contents |
| `Ring.ContiguousData` | ruzstd/src/decoding/ringbuffer.rs:296-367 | data in one piece, write possibly wrapping: every byte lands behind the tail |
| `Ring.WrappedSource` | ruzstd/src/decoding/ringbuffer.rs:370-400 | source wholly behind the wrap |
| `Ring.SplitSource` | ruzstd/src/decoding/ringbuffer.rs:401-460 | source across the wrap |
| `Ring.RingBuffer.ExtendFromWithinUnchecked` | ruzstd/src/decoding/ringbuffer.rs:292-463 | in all cases a copy of the chosen bytes is appended and nothing else changes |
| `Ring.RingBuffer.ExtendFromWithinBranchless` | ruzstd/src/decoding/ringbuffer.rs:472-523 | the branchless variant does the same |
| `Ring.Pieces` | ruzstd/src/decoding/ringbuffer.rs:472-515 | its piece lengths add up and stay inside the slices: the debug assertions |
| `DecodeBuffering.LzChunk` | ruzstd/src/decoding/decode_buffer.rs:101-129 | copying up to offset bytes at once is the byte by byte copy |
| `DecodeBuffering.LzPeriodic` | ruzstd/src/decoding/decode_buffer.rs:67-98 | a match repeats the last offset bytes |
| `DecodeBuffering.WriteAllBytes` | ruzstd/src/decoding/decode_buffer.rs:306-316 | reports exactly the bytes the sink took, also on errors, and stops short only at an error or when the sink takes nothing more |
| `DecodeBuffering.DecodeBuffer.Reset` | ruzstd/src/decoding/decode_buffer.rs:46-56 | an empty buffer without dictionary |
| `DecodeBuffering.DecodeBuffer.Push` | ruzstd/src/decoding/decode_buffer.rs:62-65 | appends to everything produced |
| `DecodeBuffering.DecodeBuffer.Repeat` | ruzstd/src/decoding/decode_buffer.rs:67-98 | succeeds exactly when the match start is reachable and then equals the byte by byte copy, dictionary in front; otherwise changes nothing; a match wholly in the dictionary is not counted |
| `DecodeBuffering.DecodeBuffer.RepeatInChunks` | ruzstd/src/decoding/decode_buffer.rs:101-129 | chunks of offset bytes give the overlapping copy |
| `DecodeBuffering.DecodeBuffer.RepeatFromDict` | ruzstd/src/decoding/decode_buffer.rs:132-167 | matches that begin in the dictionary and may run into the buffer |
| `DecodeBuffering.DecodeBuffer.RepeatOutput` | ruzstd/src/decoding/decode_buffer.rs:67-98 | seen from the whole output, drained or not |
| `DecodeBuffering.DecodeBuffer.DrainTo` | ruzstd/src/decoding/decode_buffer.rs:244-303 | what the sink took is what is dropped, for any sink, and it is less than asked for only if the sink stopped: drained bytes followed by the buffer stay everything produced |
| `DecodeBuffering.DecodeBuffer.DrainToWindowSizeWriter` | ruzstd/src/decoding/decode_buffer.rs:201-206 | keeps at least the window whatever the sink does |
| `DecodeBuffering.DecodeBuffer.DrainToWriter` | ruzstd/src/decoding/decode_buffer.rs:224-227 | nothing is lost between sink and buffer |
| `DecodeBuffering.DecodeBuffer.Drain` | ruzstd/src/decoding/decode_buffer.rs:209-222 | hands everything out once |
| `DecodeBuffering.DecodeBuffer.Read` | ruzstd/src/decoding/decode_buffer.rs:19-32 | hands out only what exceeds the window |
| `SequenceExecution.DoOffsetHistory` | ruzstd/src/decoding/sequence_execution.rs:59-115 | offset and history case by case for each value, with and without literals; the in-place updates are the move-to-front list of section 3.1.1.5 of RFC 8878 |
| `SequenceExecution.RepeatCodes` | ruzstd/src/decoding/sequence_execution.rs:59-115 | the same table for the reference: which recent offset each value means and what is recent afterwards |
| `SequenceExecution.OneSequence` | ruzstd/src/decoding/sequence_execution.rs:11-41 | one sequence byte by byte: the literals, then a copy from the offset the table gives; when it fails |
| `SequenceExecution.HistoryStays` | ruzstd/src/decoding/sequence_execution.rs:59-80 | the history stays free of zeros exactly when the offset is not zero, which happens in one case only |
| `SequenceExecution.ExecuteSequence` | ruzstd/src/decoding/sequence_execution.rs:11-41 | one round of the loop is one step of the reference |
| `SequenceExecution.ExecuteSequences` | ruzstd/src/decoding/sequence_execution.rs:5-53 | every successful run gives the reference output of section 3.1.1.4 (one sequence at a time, `SequenceExecution.OneSequence`), history without zeros, exact growth; without a dictionary it succeeds exactly when the reference is defined |
| `SequenceExecution.ExecuteOnOutput` | ruzstd/src/decoding/sequence_execution.rs:5-53 | the same over everything produced since the beginning of the frame |
| `SequenceExecution.ReferencePrefix` | ruzstd/src/decoding/sequence_execution.rs:5-53 | what lies before the window does not matter |
| `Matching.ChunksFindPrefix` | ruzstd/src/encoding/match_generator.rs:315-323 | comparing in chunks of any size finds the common prefix |
| `Matching.MatchGenerator.CandidateMatches` | ruzstd/src/encoding/match_generator.rs:239-252 | every candidate is a true match at the computed offset, whatever the hash |
| `Matching.MatchGenerator.FindCandidate` | ruzstd/src/encoding/match_generator.rs:236-270 | the longest candidate, the nearest of the longest |
| `Matching.MatchGenerator.AddSuffixesTill` | ruzstd/src/encoding/match_generator.rs:327-338 | each position whose five bytes end by the bound is registered: a filled slot stays, an empty one takes the first such position |
| `Matching.MatchGenerator.AddSuffixesTillNext` | ruzstd/src/encoding/match_generator.rs:298-303 | a position without a match is registered |
| `Matching.MatchGenerator.NextSequence` | ruzstd/src/encoding/match_generator.rs:204-305 | terminates; what is emitted, replayed, reproduces the data up to the new position; positions are passed only where no remembered position shares five bytes, a match emitted is the longest remembered there and the nearest of the longest |
| `Matching.MatchGenerator.SkipMatching` | ruzstd/src/encoding/match_generator.rs:341-346 | the whole block counts as processed, and all its positions are registered |
| `Matching.MatchGenerator.Reserve` | ruzstd/src/encoding/match_generator.rs:382-397 | drops oldest blocks until the new one fits, no more than necessary |
| `Matching.MatchGenerator.AddData` | ruzstd/src/encoding/match_generator.rs:350-378 | the window is a suffix of the old window, with all it remembers, followed by the new block, which remembers nothing; distances stay right |
| `BlockSequences.StartMatching` | ruzstd/src/encoding/match_generator.rs:85-87 | all emissions of a block rebuild the block, literals only at the end; over the whole block literals stand only where no match is remembered, and each match is the best one remembered |
| `BlockSequences.DoubledBlock` | ruzstd/src/encoding/match_generator.rs:204-305 | a block that repeats a string of at least five different bytes: whatever the hash, the string and the match that repeats it |
| `BlockSequences.Collect` | ruzstd/src/encoding/blocks/compressed.rs:13-33 | literals in one buffer, one sequence per match |
| `BlockSequences.CollectedExecute` | ruzstd/src/encoding/blocks/compressed.rs:13-33 | a decoder executing the collected sequences rebuilds the block from any offset history |
| `BlockSequences.SequencesCodable` | ruzstd/src/encoding/frame_compressor.rs:83-83 | with a window of 128 KiB every match has 5 to 65536 bytes, a block at most 26214 sequences, and all can be coded |
| `BlockSequences.FirstMatchHasLiterals` | ruzstd/src/encoding/frame_compressor.rs:83-83 | in a window of one block a block with matches has literals in front of one |
| `BlockSequences.EncodeBlocks` | ruzstd/src/encoding/levels/fastest.rs:20-67 | for any run of blocks and any hash the decoder's output is the source; when each block fills the window, each unit with sequences has literals |
| `BlockSection.CollectedEncodable` | ruzstd/src/encoding/blocks/compressed.rs:55-72 | a block's sequences can be coded with their own tables if and only if one of them has literals |
| `BlockSection.NoLiteralsNoTable` | ruzstd/src/fse/fse_encoder.rs:295-307 | without any literals, and only then, the builder of the literal length table finds no second symbol |
| `BlockSection.RepeatedBlock` | ruzstd/src/encoding/blocks/compressed.rs:55-61 | such a block: five bytes repeated from the block before |
| `BlockSection.EncodeBlock` | ruzstd/src/encoding/blocks/compressed.rs:12-98 | the bytes carry the section of the block's sequences, always except when there are sequences and all lack literals; always when the block starts on nothing |
| `BlockSection.DecodeBlock` | ruzstd/src/decoding/sequence_section_decoder.rs:14-46 | the section is read as the block's sequences, and executing them continues the output with the block |
| `BlockSection.BlockRoundTrip` | ruzstd/src/encoding/blocks/compressed.rs:12-98 | both, with the same condition |
| `BlockSection.EncodeFrame` | ruzstd/src/encoding/levels/fastest.rs:20-67 | with the shipped window of one block: every compressed block of any data gets its section, and executing the units gives the data |
| `BlockSection.DecodeFrame` | ruzstd/src/decoding/sequence_section_decoder.rs:14-46 | reading those sections gives the sequences to execute |

## Left out

- The encoder's predefined and repeated sequence tables: constants in `choose_table` switch them off; sections that use them are covered as input of the decoder.
- Headers of frames, blocks and literals sections, and the choice of literal types: bit fields without further difficulty.
- Table choice and other compression heuristics (`can_encode`, falling back to raw literals or raw blocks): whether a block is stored raw is an arbitrary choice in the model.
- Dictionaries: parsing and building; the decode buffer takes any dictionary content.
- Checksums, I/O errors beyond a sink that may take less or fail, `read` and `read_all` into fixed slices, progress reporting.
- Raw pointers, allocation failure and SIMD copies: the ring is an array, a word copy of any size stands for the platform's copy.
- Reuse of buffers and suffix stores through the pools: a block gets an empty store of its own size.
- Word widths outside the bit containers: counters, offsets and sums are unbounded numbers; the sums of `redistribute_weights` would need more than 64 bits only beyond the weights `distribute_weights` can produce for 256 symbols, which is not proved here.
- BitWriting.BitWriter.WriteBits: excludes a 64-bit value on an empty partial word, where the source shifts by 64.
- BitRuns.ForwardRoundTrip: excludes fields of width zero at the end of the last byte, as `GetBits` does.
- ForwardReading.BitReader.GetBits: excludes a read of zero bits at the very end, where the source indexes past its slice.
- Ring.RingBuffer.DropFirstN: excludes capacity zero, where the source takes a remainder by zero.
- DecodeBuffering.DecodeBuffer.Repeat: excludes offset zero, for which the source does not terminate; `execute_sequences` never passes it.
- FseDecodingTable.FseTable.BuildDecodingTable: takes valid distributions over at least 16 cells, which is what descriptions and the predefined tables provide; for other lists the source has no defined result.
- FseEncodingTable.BuildTableFromProbabilities: takes distributions with at least one positive probability, since with none the source's index counter runs below zero.
- FseNormalise.BuildTableFromData: with `avoid_0_numbit` some symbol other than zero has to occur, since the source otherwise finds no second symbol and panics (`FseNormalise.SingleSlot`), and at most 2^max_log different symbols may occur, since its reduction loop otherwise finds nothing to reduce.
- HuffmanRoundTrip.RoundTrip: nothing is written where the source's size assertion would fail, which is possible only for weights the encoder does not make.
- HuffmanCounts.RoundTrip: requires two different symbols, as the source's weight distribution does.
- BlockSection.BlockRoundTrip: the literals are handed over directly; their own round trip is `HuffmanCounts.RoundTrip`.
- BlockSection.EncodeFrame: as there, and without block headers.
