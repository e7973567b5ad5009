/** Whole runs of writes and reads: whatever fields are written come back, forwards in
    the same order, backwards in the opposite order. */
module BitRuns {
  import opened Numbers
  import opened Bits
  import opened BitWriting
  import opened ForwardReading
  import opened BackwardReading
  import opened FseCoding

  datatype Field = Field(value: nat, width: nat)

  /** Upper bits clear, and a width one read can deliver. */
  ghost predicate Fields(fs: seq<Field>, max: nat) {
    forall i :: 0 <= i < |fs| ==> fs[i].width <= max && fs[i].value < Pow2(fs[i].width)
  }

  /** No field of width zero stands at the end of the last byte, where the forward
      reader would look behind its source. */
  ghost predicate NoneAtEnd(fs: seq<Field>) {
    forall i :: 0 <= i < |fs| && fs[i].width == 0 ==> |Concat(fs[..i])| < |Padded(fs)|
  }

  /** The fields and zeros up to a byte border. */
  function Padded(fs: seq<Field>): seq<bool> {
    Concat(fs) + BitsOf(0, Misalignment(|Concat(fs)|))
  }

  /** The fields one after the other. */
  function Concat(fs: seq<Field>): seq<bool> {
    if fs == [] then [] else Concat(fs[..|fs| - 1]) + BitsOf(fs[|fs| - 1].value, fs[|fs| - 1].width)
  }

  function Widths(fs: seq<Field>): (ws: seq<nat>)
    ensures |ws| == |fs|
  {
    seq(|fs|, i requires 0 <= i < |fs| => fs[i].width)
  }

  function Values(fs: seq<Field>): (vs: seq<nat>)
    ensures |vs| == |fs|
  {
    seq(|fs|, i requires 0 <= i < |fs| => fs[i].value)
  }

  lemma ConcatNext(fs: seq<Field>, n: nat)
    requires n < |fs|
    ensures Concat(fs[..n + 1]) == Concat(fs[..n]) + BitsOf(fs[n].value, fs[n].width)
  {
    hide BitsOf;
    assert fs[..n + 1][..n] == fs[..n];
  }

  lemma {:induction false} ConcatPrefix(fs: seq<Field>, n: nat)
    requires n <= |fs|
    ensures Concat(fs[..n]) <= Concat(fs)
    decreases |fs|
  {
    hide BitsOf;
    if n < |fs| {
      ConcatPrefix(fs[..|fs| - 1], n);
      assert fs[..|fs| - 1][..n] == fs[..n];
    } else {
      assert fs[..n] == fs;
    }
  }

  /** Where a field lies in the whole string. */
  lemma FieldAt(fs: seq<Field>, n: nat, rest: seq<bool>)
    requires n < |fs|
    ensures var from := |Concat(fs[..n])|;
      && from + fs[n].width == |Concat(fs[..n + 1])| <= |Concat(fs) + rest|
      && (Concat(fs) + rest)[from..from + fs[n].width] == BitsOf(fs[n].value, fs[n].width)
  {
    hide BitsOf;
    ConcatNext(fs, n);
    ConcatPrefix(fs, n + 1);
    var a, b := Concat(fs[..n]), BitsOf(fs[n].value, fs[n].width);
    assert (Concat(fs) + rest)[..|a + b|] == a + b;
    assert (a + b)[|a|..] == b;
    assert (Concat(fs) + rest)[|a|..|a + b|] == (Concat(fs) + rest)[..|a + b|][|a|..];
  }

  method WriteFields(writer: BitWriter, fs: seq<Field>)
    requires writer.Valid() && Fields(fs, 63)
    modifies writer
    ensures writer.Valid() && writer.Contents() == old(writer.Contents()) + Concat(fs)
  {
    hide BitsOf, BytesToBits, Concat, Pow2, BitWriter.Contents, BitWriter.Valid;
    ghost var start := writer.Contents();
    NoFields(start);
    assert fs[..0] == [];
    for i := 0 to |fs|
      invariant writer.Valid() && writer.Contents() == start + Concat(fs[..i])
    {
      ConcatNext(fs, i);
      writer.WriteBits(fs[i].value, fs[i].width);
      assert start + Concat(fs[..i]) + BitsOf(fs[i].value, fs[i].width) == start + Concat(fs[..i + 1]);
    }
    assert fs[..|fs|] == fs;
  }

  lemma NoFields(start: seq<bool>)
    ensures start + Concat([]) == start && Concat([]) == []
  {
  }

  /** Reading the widths in order. */
  method ReadForward(br: BitReader, widths: seq<nat>, ghost fs: seq<Field>) returns (values: seq<nat>)
    requires br.Valid() && br.idx == 0 && Fields(fs, 63) && NoneAtEnd(fs) && widths == Widths(fs)
    requires br.Bits() == Padded(fs)
    modifies br
    ensures values == Values(fs)
  {
    hide BitsOf, BytesToBits, Concat, Pow2, ValOf;
    values := [];
    NoFields([]);
    assert fs[..0] == [];
    for i := 0 to |widths|
      invariant br.Valid() && br.idx == |Concat(fs[..i])| && |values| == i
      invariant forall j :: 0 <= j < i ==> values[j] == fs[j].value
    {
      FieldAt(fs, i, BitsOf(0, Misalignment(|Concat(fs)|)));
      ValOfSmall(fs[i].value, fs[i].width);
      assert br.idx + widths[i] <= 8 * |br.source|;
      var v := br.GetBits(widths[i]);
      values := values + [v.value];
    }
  }

  method WriteForward(fs: seq<Field>) returns (bytes: seq<byte>)
    requires Fields(fs, 63)
    ensures BytesToBits(bytes) == Padded(fs)
  {
    hide BitsOf, BytesToBits, Concat, Pow2, BitWriter.Contents, BitWriter.Valid;
    var writer := new BitWriter();
    WriteFields(writer, fs);
    var pad := writer.Misaligned();
    writer.WriteBits(0, pad);
    assert [] + Concat(fs) == Concat(fs);
    bytes := writer.Dump();
  }

  /** Any fields written, padded with zeros and read forwards, come back. */
  method ForwardRoundTrip(fs: seq<Field>) returns (bytes: seq<byte>, values: seq<nat>)
    requires Fields(fs, 63) && NoneAtEnd(fs)
    ensures BytesToBits(bytes) == Padded(fs) && values == Values(fs)
  {
    hide Padded, BytesToBits, Values, Fields, NoneAtEnd;
    bytes := WriteForward(fs);
    var br := new BitReader(bytes);
    values := ReadForward(br, Widths(fs), fs);
  }

  /** Reading the widths from the last one to the first. */
  method ReadBackward(br: BitReaderReversed, widths: seq<nat>, ghost fs: seq<Field>, ghost rest: seq<bool>) returns (values: seq<nat>)
    requires br.Valid() && Fields(fs, 56) && widths == Widths(fs)
    requires br.Bits() == Concat(fs) + rest && br.BitsRemaining() == |Concat(fs)|
    modifies br
    ensures values == Values(fs) && br.Valid() && br.BitsRemaining() == 0
  {
    hide BitsOf, BytesToBits, Concat, Pow2, ReadBack, Consistent, Remaining, BitReaderReversed.Valid,
      BitReaderReversed.Bits, BitReaderReversed.BitsRemaining;
    values := seq(|widths|, i => 0);
    assert fs[..|fs|] == fs;
    for i := |widths| downto 0
      invariant br.Valid() && br.BitsRemaining() == |Concat(fs[..i])| && |values| == |fs|
      invariant forall j :: i <= j < |fs| ==> values[j] == fs[j].value
    {
      LastField(fs, i, rest);
      var v := br.GetBits(widths[i]);
      values := values[i := v];
    }
    NoFields([]);
    assert fs[..0] == [];
  }

  lemma LastField(fs: seq<Field>, i: nat, rest: seq<bool>)
    requires i < |fs| && fs[i].value < Pow2(fs[i].width)
    ensures |Concat(fs[..i])| + fs[i].width == |Concat(fs[..i + 1])|
    ensures ReadBack(Concat(fs) + rest, |Concat(fs[..i + 1])|, fs[i].width) == fs[i].value
  {
    hide BitsOf, Concat, ReadBack, Pow2;
    ConcatNext(fs, i);
    ConcatPrefix(fs, i + 1);
    var all, done := Concat(fs), Concat(fs[..i + 1]);
    ReadBackLast(Concat(fs[..i]), fs[i].value, fs[i].width, all[|done|..] + rest);
    assert all + rest == done + (all[|done|..] + rest);
  }

  method WriteBackward(fs: seq<Field>) returns (bytes: seq<byte>)
    requires Fields(fs, 63)
    ensures BytesToBits(bytes) == WithMarker(Concat(fs))
  {
    hide BitsOf, BytesToBits, Concat, Pow2, WithMarker, BitWriter.Contents, BitWriter.Valid;
    var writer := new BitWriter();
    WriteFields(writer, fs);
    WriteMarker(writer);
    assert [] + Concat(fs) == Concat(fs);
    bytes := writer.Dump();
  }

  /** Any fields written, closed with the end marker and read backwards, come back, and
      no bit is left. */
  method BackwardRoundTrip(fs: seq<Field>) returns (bytes: seq<byte>, values: seq<nat>, left: int)
    requires Fields(fs, 56)
    ensures BytesToBits(bytes) == WithMarker(Concat(fs)) && values == Values(fs) && left == 0
  {
    hide BitsOf, BytesToBits, Concat, Pow2, Values, SkipMarker, ReadBack, Consistent, Remaining,
      BitReaderReversed.Valid, BitReaderReversed.BitsRemaining;
    bytes := WriteBackward(fs);
    var br := new BitReaderReversed(bytes);
    MarkerFound(Concat(fs), MarkerLength(|Concat(fs)|));
    var skipped := SkipPadding(br);
    values := ReadBackward(br, Widths(fs), fs, BitsOf(1, MarkerLength(|Concat(fs)|)));
    left := br.BitsRemaining();
  }
}
