/** The FSE codec as a whole: description and data written to one byte vector,
    the table rebuilt from the bytes, the data decoded again. */
module FseRoundTrip {
  import opened Concatenation
  import opened Numbers
  import opened Bits
  import opened Results
  import opened BitWriting
  import opened BackwardReading
  import opened FseSpread
  import opened FseLayout
  import opened FseDistribution
  import opened FseAgreement
  import opened FseStream
  import opened FseCoding
  import opened FseDescription
  import opened FseTableCoding
  import opened FseDecodingTable
  import FseEncodingTable

  // ----- trailing zero probabilities do not matter -----

  ghost predicate AllZero(z: seq<int>) {
    forall i :: 0 <= i < |z| ==> z[i] == 0
  }

  lemma {:induction false} PrefixCounts(a: seq<int>, z: seq<int>, s: nat)
    requires AllZero(z) && s <= |a| + |z|
    ensures var t := if s <= |a| then s else |a|;
      && Before(a + z, s) == Before(a, t)
      && NegBefore(a + z, s) == NegBefore(a, t)
      && Owners(a + z, s) == Owners(a, t)
  {
    if s > 0 {
      PrefixCounts(a, z, s - 1);
    }
  }

  lemma TrailingZeros(a: seq<int>, z: seq<int>, k: nat)
    requires AllZero(z) && ValidProbs(a + z, k)
    ensures ValidProbs(a, k) && DecodeTable(a, k) == DecodeTable(a + z, k)
  {
    hide SymbolTable, DecodeTable, DecodeEntry;
    var p := a + z;
    PrefixCounts(a, z, |p|);
    assert forall s :: 0 <= s < |a| ==> a[s] == p[s];
    SameSymbols(a, z, k);
    forall c | 0 <= c < Pow2(k)
      ensures DecodeTable(a, k)[c] == DecodeTable(p, k)[c]
    {
      SameEntry(a, z, k, c);
    }
  }

  lemma SameSymbols(a: seq<int>, z: seq<int>, k: nat)
    requires AllZero(z) && ValidProbs(a + z, k) && ValidProbs(a, k)
    ensures SymbolTable(a, k) == SymbolTable(a + z, k)
  {
    hide Cells, IndexOf, Owners;
    PrefixCounts(a, z, |a + z|);
  }

  lemma SameEntry(a: seq<int>, z: seq<int>, k: nat, c: nat)
    requires AllZero(z) && ValidProbs(a + z, k) && ValidProbs(a, k) && c < Pow2(k)
    requires SymbolTable(a, k) == SymbolTable(a + z, k)
    ensures DecodeEntry(a, k, c) == DecodeEntry(a + z, k, c)
  {
    hide SymbolTable, CellsOf, RangeStart, RangeBits, Pow2;
    var p := a + z;
    PrefixCounts(a, z, |p|);
    if c >= Free(a) {
      var n := Pow2(k) - 1 - c;
      var r, r' := NegOwner(a, n, 0), NegOwner(p, n, 0);
      PrefixCounts(a, z, r);
      NegOwnerUnique(p, r, r');
    }
  }

  // ----- the description of an encoding table -----

  lemma TableIsDescribable(probs: seq<int>, k: nat)
    requires ValidProbs(probs, k) && 5 <= k <= 20
    ensures Describable(EncodeTable(probs, k), k)
    ensures ProbsOf(EncodeTable(probs, k)) == probs + seq(256 - |probs|, i => 0)
  {
    hide StateOf, Pow2, WeightFrom;
    var ps := ProbsOf(EncodeTable(probs, k));
    assert ps == probs + seq(256 - |probs|, i => 0);
    ValidIsWeight(probs, k);
    WeightZeros(256 - |probs|, 0);
    WeightAppend(probs, seq(256 - |probs|, i => 0), 0);
  }

  /** The trimmed list read back gives the same decoding table. */
  lemma TrimmedTable(probs: seq<int>, k: nat)
    requires ValidProbs(probs, k)
    ensures |probs| <= 256
    ensures var ps := probs + seq(256 - |probs|, i => 0);
      var trimmed := ps[0..EndOf(ps, 0)];
      |trimmed| <= |probs| && ValidProbs(trimmed, k) && DecodeTable(trimmed, k) == DecodeTable(probs, k)
  {
    hide DecodeTable, Pow2, ValidProbs;
    NonNegative(probs, k);
    var ps := probs + seq(256 - |probs|, i => 0);
    var n := EndOf(ps, 0);
    EndInside(probs, 256 - |probs|, 0);
    EndZero(ps, 0);
    assert ps[0..n] == probs[..n] && probs == probs[..n] + probs[n..];
    assert AllZero(probs[n..]) by { assert forall i :: n <= i < |probs| ==> probs[i] == ps[i]; }
    TrailingZeros(probs[..n], probs[n..], k);
  }

  lemma NonNegative(probs: seq<int>, k: nat)
    requires ValidProbs(probs, k)
    ensures |probs| <= 256 && Probabilities(probs)
  {
  }

  lemma {:induction false} EndInside(probs: seq<int>, z: nat, i: nat)
    requires i <= |probs|
    ensures EndOf(probs + seq(z, j => 0), i) <= |probs|
    decreases |probs| - i
  {
    var ps := probs + seq(z, j => 0);
    if i < |probs| {
      EndInside(probs, z, i + 1);
    } else {
      WeightZeros(z, 0);
      WeightShift(probs, seq(z, j => 0), 0);
    }
  }

  lemma {:induction false} EndZero(ps: seq<int>, i: nat)
    requires i <= |ps|
    ensures forall j :: EndOf(ps, i) <= j < |ps| ==> Weight(ps[j]) == 0
    decreases |ps| - i
  {
    if i < |ps| {
      EndZero(ps, i + 1);
    }
  }

  /** A description, padded and followed by anything, parses to the trimmed list:
      always, except that a description whose last field is short and ends on the
      last bit of the source cannot be read. */
  lemma DescriptionParses(ps: seq<int>, k: nat, rest: seq<bool>)
    requires 5 <= k <= 20 && Probabilities(ps) && WeightFrom(ps, 0) == Pow2(k)
    ensures var d := Description(ps, k);
      var suffix := Zeros(Misalignment(|d|)) + rest;
      ParseDescription(Aligned(d) + rest)
      == if ps[EndOf(ps, 0) - 1] > 0 || suffix != [] then Some((ps[0..EndOf(ps, 0)], k, |d|)) else None
  {
    hide ReadFrom, Described, ValOf, BitsOf, EndOf, WeightFrom, Pow2, Zeros, Misalignment;
    var head, body := BitsOf(k - 5, 4), Described(ps, 0, Pow2(k));
    var d := head + body;
    var suffix := Zeros(Misalignment(|d|)) + rest;
    Join4(head, body, Zeros(Misalignment(|d|)), rest);
    assert (head + (body + suffix))[0..|head|] == head;
    AccLogField(k);
    ValOfSmall(k - 5, 4);
    DescriptionRoundTrip(ps, 0, Pow2(k), head, suffix);
    EndPositive(ps);
  }

  /** A distribution whose description ends with a short field on a byte border. */
  lemma ShortLastField()
    ensures var ps := [1, 30, -1];
      && ValidProbs(ps, 5) && WeightFrom(ps, 0) == Pow2(5) && ParseDescription(Aligned(Description(ps, 5))) == None
      && forall rest :: rest != [] ==> ParseDescription(Aligned(Description(ps, 5)) + rest) == Some((ps, 5, 16))
  {
    hide ParseDescription, Described, Field;
    var ps := [1, 30, -1];
    Pow2Values();
    ShortWeights(ps);
    WeightIsValid(ps, 5);
    ShortFields(ps);
    DescriptionParses(ps, 5, []);
    assert Aligned(Description(ps, 5)) + [] == Aligned(Description(ps, 5));
    assert ps[0..3] == ps;
    forall rest: seq<bool> | rest != []
      ensures ParseDescription(Aligned(Description(ps, 5)) + rest) == Some((ps, 5, 16))
    {
      DescriptionParses(ps, 5, rest);
    }
  }

  lemma ShortWeights(ps: seq<int>)
    requires ps == [1, 30, -1]
    ensures WeightFrom(ps, 2) == 1 && WeightFrom(ps, 1) == 31 && WeightFrom(ps, 0) == 32 && EndOf(ps, 0) == 3
  {
    assert WeightFrom(ps, 3) == 0;
    assert EndOf(ps, 3) == 3 && EndOf(ps, 2) == 3 && EndOf(ps, 1) == 3;
  }

  /** Five, six and one bit behind the four of the log. */
  lemma ShortFields(ps: seq<int>)
    requires ps == [1, 30, -1] && WeightFrom(ps, 2) == 1 && WeightFrom(ps, 1) == 31 && WeightFrom(ps, 0) == 32
    ensures |Described(ps, 0, 32)| == 12
  {
    hide BitsOf, WeightFrom;
    Pow2Values();
    Log2Unique(33, 5);
    Log2Unique(32, 5);
    Log2Unique(2, 1);
    assert |Field(2, 32)| == 5 && |Field(31, 31)| == 6 && |Field(0, 1)| == 1;
    assert WeightFrom(ps, 3) == 0 by { WeightAtEnd(ps); }
    DescribedValue(ps, 0, 32);
    DescribedValue(ps, 1, 31);
    DescribedValue(ps, 2, 1);
  }

  lemma WeightAtEnd(ps: seq<int>)
    ensures WeightFrom(ps, |ps|) == 0 && (Probabilities(ps) ==> Described(ps, |ps|, 0) == [])
  {
  }

  lemma AlignedBytes(d: seq<bool>)
    ensures |Aligned(d)| == 8 * BytesFor(|d|)
  {
  }

  lemma EndPositive(ps: seq<int>)
    ensures WeightFrom(ps, 0) > 0 ==> EndOf(ps, 0) > 0
  {
  }

  // ----- streams -----

  /** The bits of one-state data: transitions, final state, marker. */
  ghost function StreamOf(e: EncodingTable, data: seq<nat>, k: nat): (s: seq<bool>)
    requires |data| > 0 && CanEncodeAll(e, data)
    ensures |s| % 8 == 0 && s != []
  {
    WithMarker(Coded(e, data).0 + BitsOf(Coded(e, data).1, k))
  }

  /** Skipping the marker, reading the state and decoding `|data|` symbols gives
      `data` and leaves no bit unread. */
  ghost predicate DecodesTo(d: seq<Entry>, s: seq<bool>, k: nat, data: seq<nat>) {
    var m := SkipMarker(s, |s|, 0);
    var x := ReadBack(s, |s| - m, k);
    && m <= 8 && |data| > 0 && Closed(d) && |d| == Pow2(k) && x < |d|
    && Decoded(d, s, |s| - m - k, x, |data|) == (data, 0)
  }

  /** What the encoder writes is decoded, for all data over the symbols of the
      distribution. */
  lemma StreamDecodes(probs: seq<int>, k: nat, data: seq<nat>)
    requires ValidProbs(probs, k) && Occur(probs, data) && |data| > 0
    ensures CanEncodeAll(EncodeTable(probs, k), data)
    ensures DecodesTo(DecodeTable(probs, k), StreamOf(EncodeTable(probs, k), data, k), k, data)
  {
    hide DecodeTable, EncodeTable, CanEncodeAll, DecodesTo, StreamOf;
    DistributionTables(probs, k, data);
    TablesCanEncode(EncodeTable(probs, k), DecodeTable(probs, k), k, data);
    TablesDecode(EncodeTable(probs, k), DecodeTable(probs, k), k, data);
  }

  lemma TablesDecode(e: EncodingTable, d: seq<Entry>, k: nat, data: seq<nat>)
    requires TablesFor(e, d, k, data) && CanEncodeAll(e, data) && |data| > 0
    ensures DecodesTo(d, StreamOf(e, data, k), k, data)
  {
    hide CanEncodeAll, Coded, Decoded, Pow2, BitsOf, ReadBack, SkipMarker, Agree, Closed;
    var (b, x) := Coded(e, data);
    var head := b + BitsOf(x, k);
    var m := MarkerLength(|head|);
    MarkerFound(head, m);
    ReadBackLast(b, x, k, BitsOf(1, m));
    StreamRoundTrip(e, d, k, data, [], BitsOf(x, k) + BitsOf(1, m));
    assert [] + b + (BitsOf(x, k) + BitsOf(1, m)) == head + BitsOf(1, m);
  }

  /** A marker fits behind byte aligned contents as it fits at the beginning. */
  lemma MarkerBehind(a: seq<bool>, b: seq<bool>)
    requires |a| % 8 == 0
    ensures WithMarker(a + b) == a + WithMarker(b)
  {
    hide BitsOf;
    MarkerShift(|a| / 8, |b|);
  }

  lemma MarkerShift(q: nat, n: nat)
    ensures MarkerLength(8 * q + n) == MarkerLength(n)
  {
  }

  lemma TableIsUsable(probs: seq<int>, k: nat, data: seq<nat>)
    requires ValidProbs(probs, k) && Occur(probs, data) && k <= MAX_LOG
    ensures Usable(EncodeTable(probs, k), data) && AccLog(EncodeTable(probs, k)) == k
  {
    hide DecodeTable, TablesFor, CanEncodeAll, Pow2;
    DistributionTables(probs, k, data);
    TablesCanEncode(EncodeTable(probs, k), DecodeTable(probs, k), k, data);
    EncodeTableSize(probs, k);
    IsPow2Iff(Pow2(k), k);
    Pow2Mono(k, MAX_LOG);
  }

  /** Table description, then data. */
  method Encode(writer: BitWriter, e: EncodingTable, data: seq<nat>, ghost probs: seq<int>, ghost k: nat)
    requires writer.Valid() && |writer.Contents()| % 8 == 0
    requires ValidProbs(probs, k) && 5 <= k <= 20 && e == EncodeTable(probs, k)
    requires |data| > 0 && Occur(probs, data)
    modifies writer
    ensures writer.Valid() && CanEncodeAll(e, data)
    ensures Probabilities(ProbsOf(e)) && WeightFrom(ProbsOf(e), 0) == Pow2(k)
    ensures writer.Contents() == old(writer.Contents()) + Aligned(Description(ProbsOf(e), k)) + StreamOf(e, data, k)
  {
    hide EncodeTable, CanEncodeAll, Coded, Pow2, BitsOf, BytesToBits, Description, WithMarker, Aligned, WeightFrom,
      BitWriter.Contents, BitWriter.Valid;
    ghost var start := writer.Contents();
    TableIsDescribable(probs, k);
    TableIsUsable(probs, k, data);
    WriteTable(writer, e, k);
    AlignedBehind(start, Description(ProbsOf(e), k));
    ghost var table := writer.Contents();
    EncodeSymbols(writer, e, data);
    ghost var (b, x) := Coded(e, data);
    assert table + b + BitsOf(x, k) == table + (b + BitsOf(x, k));
    MarkerBehind(table, b + BitsOf(x, k));
  }

  lemma AlignedBehind(a: seq<bool>, b: seq<bool>)
    requires |a| % 8 == 0
    ensures Aligned(a + b) == a + Aligned(b)
  {
  }

  /** A decoder for the stream in `bytes`: marker, first state, symbols. */
  method DecodeStream(table: FseTable, bytes: seq<byte>, n: nat, ghost data: seq<nat>)
    returns (decoded: seq<nat>, left: int)
    requires n == |data| && 0 < table.accuracyLog <= MAX_LOG
    requires DecodesTo(table.decode, BytesToBits(bytes), table.accuracyLog, data)
    ensures decoded == data && left == 0
  {
    hide Pow2, BytesToBits, Consistent, Decoded, ReadBack, SkipMarker, Closed, BitReaderReversed.Valid,
      BitReaderReversed.BitsRemaining;
    var dec := new FseDecoder(table.decode, table.accuracyLog);
    var br := new BitReaderReversed(bytes);
    var skipped := SkipPadding(br);
    var init := dec.InitState(br);
    decoded := DecodeSymbols(dec, br, n);
    left := br.BitsRemaining();
  }

  /** The bytes hold the padded table description and the stream of the data. */
  ghost predicate Carries(bytes: seq<byte>, probs: seq<int>, k: nat, data: seq<nat>) {
    && ValidProbs(probs, k) && 5 <= k <= 20 && |data| > 0 && Occur(probs, data)
    && var e := EncodeTable(probs, k);
      && Describable(e, k) && CanEncodeAll(e, data)
      && BytesToBits(bytes) == Aligned(Description(ProbsOf(e), k)) + StreamOf(e, data, k)
  }

  /** The bytes of table description and data. */
  method EncodeToBytes(probs: seq<int>, k: nat, data: seq<nat>) returns (bytes: seq<byte>)
    requires ValidProbs(probs, k) && Free(probs) > 0 && 5 <= k <= 20
    requires |data| > 0 && Occur(probs, data)
    ensures Carries(bytes, probs, k, data)
  {
    hide EncodeTable, CanEncodeAll, Pow2, BytesToBits, Description, StreamOf, Aligned, WeightFrom, ValidProbs,
      BitWriter.Contents, BitWriter.Valid;
    var e := FseEncodingTable.BuildTableFromProbabilities(probs, k);
    TableIsDescribable(probs, k);
    var writer := new BitWriter();
    Encode(writer, e, data, probs, k);
    ghost var table, stream := Aligned(Description(ProbsOf(e), k)), StreamOf(e, data, k);
    assert [] + table + stream == table + stream;
    bytes := writer.Dump();
  }

  /** Rebuild the table from the bytes, then decode `n` symbols: whatever the bytes
      carry comes back, and every bit of the stream has been used. */
  method DecodeBytes(bytes: seq<byte>, maxLog: nat, n: nat, ghost probs: seq<int>, ghost k: nat, ghost data: seq<nat>)
    returns (decoded: seq<nat>, left: int)
    requires Carries(bytes, probs, k, data) && k <= maxLog && n == |data|
    ensures decoded == data && left == 0
  {
    hide EncodeTable, DecodeTable, CanEncodeAll, Pow2, BytesToBits, Description, StreamOf, Aligned, WeightFrom, EndOf,
      ParseDescription, DecodesTo, ValidProbs;
    ghost var e := EncodeTable(probs, k);
    ghost var table, stream := Aligned(Description(ProbsOf(e), k)), StreamOf(e, data, k);
    AlwaysParses(probs, k, stream);
    var decTable := new FseTable(255);
    var tableBytes := BuildDecoder(decTable, bytes, maxLog);
    SplitBytes(bytes, table, stream, tableBytes.value);
    StreamDecodes(probs, k, data);
    decoded, left := DecodeStream(decTable, bytes[tableBytes.value..], n, data);
  }

  /** Encode, rebuild the table from the bytes, decode: the data comes back. */
  method RoundTrip(probs: seq<int>, k: nat, data: seq<nat>) returns (bytes: seq<byte>, decoded: seq<nat>, left: int)
    requires ValidProbs(probs, k) && Free(probs) > 0 && 5 <= k <= 20
    requires |data| > 0 && Occur(probs, data)
    ensures Carries(bytes, probs, k, data)
    ensures decoded == data && left == 0
  {
    hide Carries, ValidProbs;
    bytes := EncodeToBytes(probs, k, data);
    decoded, left := DecodeBytes(bytes, k, |data|, probs, k, data);
  }

  lemma AlwaysParses(probs: seq<int>, k: nat, stream: seq<bool>)
    requires ValidProbs(probs, k) && 5 <= k <= 20 && stream != []
    ensures var e := EncodeTable(probs, k);
      && Describable(e, k)
      && var t := Aligned(Description(ProbsOf(e), k));
        var parsed := ParseDescription(t + stream);
        && parsed.Some? && parsed.value.1 == k && |parsed.value.0| <= |probs| <= 256 && ValidProbs(parsed.value.0, k)
        && DecodeTable(parsed.value.0, k) == DecodeTable(probs, k)
        && 8 * BytesFor(parsed.value.2) == |t|
  {
    hide EncodeTable, DecodeTable, ParseDescription, WeightFrom, EndOf, Pow2, Aligned;
    var e := EncodeTable(probs, k);
    TableIsDescribable(probs, k);
    DescriptionParses(ProbsOf(e), k, stream);
    AlignedBytes(Description(ProbsOf(e), k));
    TrimmedTable(probs, k);
    NonNegative(probs, k);
  }
}
