/** The description of a Huffman table: the list of weights without the last one,
    as nibbles or FSE coded with two states. */
module HuffmanTableCoding {
  import opened Concatenation
  import opened Numbers
  import opened Bits
  import opened Results
  import opened BitWriting
  import opened BackwardReading
  import opened FseDistribution
  import opened FseAgreement
  import opened FseStream
  import opened FseTableCoding
  import FseNormalise
  import opened HuffmanCodes

  // ----- the encoder's weights -----

  function MaxLength(codes: seq<(nat, nat)>, n: nat): (m: nat)
    requires n <= |codes|
    ensures forall i :: 0 <= i < n ==> codes[i].1 <= m
    ensures m > 0 ==> exists i :: 0 <= i < n && codes[i].1 == m
  {
    if n == 0 then 0 else
    var m := MaxLength(codes, n - 1);
    if codes[n - 1].1 > m then codes[n - 1].1 else m
  }

  /** The weights a list of codes stands for. */
  function WeightsOf(codes: seq<(nat, nat)>): (ws: seq<nat>)
    ensures |ws| == |codes|
  {
    var max := MaxLength(codes, |codes|);
    seq(|codes|, i requires 0 <= i < |codes| => if codes[i].1 == 0 then 0 else max - codes[i].1 + 1)
  }

  /** They are the weights the codes were made from exactly when one weight is 1. */
  lemma WeightsBack(ws: seq<nat>, m: nat)
    requires Complete(ws, m) && m > 0 && forall s :: 0 <= s < |ws| ==> ws[s] <= m
    ensures WeightsOf(Codes(ws, m)) == ws <==> exists s :: 0 <= s < |ws| && ws[s] == 1
  {
    hide Complete, Code;
    var codes := Codes(ws, m);
    var max := MaxLength(codes, |codes|);
    LengthsAre(ws, m);
    if s :| 0 <= s < |ws| && ws[s] == 1 {
      assert codes[s].1 == m;
      assert max == m;
      assert WeightsOf(codes) == ws;
    } else {
      var t := SomeUsed(ws, m);
      assert codes[t].1 > 0;
      assert forall i :: 0 <= i < |codes| ==> codes[i].1 != m;
      assert WeightsOf(codes)[t] != ws[t];
    }
  }

  lemma LengthsAre(ws: seq<nat>, m: nat)
    requires Complete(ws, m) && m > 0 && forall s :: 0 <= s < |ws| ==> ws[s] <= m
    ensures forall s :: 0 <= s < |ws| ==> Codes(ws, m)[s].1 == if ws[s] == 0 then 0 else m + 1 - ws[s]
  {
    hide Complete, Code;
  }

  lemma SomeUsed(ws: seq<nat>, m: nat) returns (s: nat)
    requires Complete(ws, m)
    ensures s < |ws| && ws[s] > 0
  {
    s := RangesCover(ws, 0);
  }

  // ----- nibbles -----

  /** Two weights per byte, the first one in the high half. */
  function Packed(ws: seq<nat>): (bs: seq<byte>)
    requires forall i :: 0 <= i < |ws| ==> ws[i] < 16
    ensures |bs| == (|ws| + 1) / 2
  {
    if |ws| == 0 then [] else if |ws| == 1 then [16 * ws[0]] else [16 * ws[0] + ws[1]] + Packed(ws[2..])
  }

  function NibbleAt(raw: seq<byte>, i: nat): nat
    requires i / 2 < |raw|
  {
    if i % 2 == 0 then raw[i / 2] / 16 else raw[i / 2] % 16
  }

  function Unpacked(raw: seq<byte>, n: nat): (ws: seq<nat>)
    requires (n + 1) / 2 <= |raw|
  {
    seq(n, i requires 0 <= i < n => NibbleAt(raw, i))
  }

  lemma {:induction false} UnpackPacked(ws: seq<nat>, rest: seq<byte>)
    requires forall i :: 0 <= i < |ws| ==> ws[i] < 16
    ensures Unpacked(Packed(ws) + rest, |ws|) == ws
  {
    if |ws| >= 2 {
      UnpackPacked(ws[2..], rest);
      var raw, tail := Packed(ws) + rest, Packed(ws[2..]) + rest;
      assert raw == [raw[0]] + tail;
      forall i | 0 <= i < |ws|
        ensures Unpacked(raw, |ws|)[i] == ws[i]
      {
        if i >= 2 {
          assert NibbleAt(raw, i) == NibbleAt(tail, i - 2);
          assert Unpacked(tail, |ws| - 2)[i - 2] == ws[2..][i - 2];
        }
      }
    }
  }

  lemma NibbleBits(hi: nat, lo: nat)
    requires hi < 16 && lo < 16
    ensures BitsOf(lo, 4) + BitsOf(hi, 4) == BitsOf(16 * hi + lo, 8)
  {
    hide BitsOf;
    Pow2Values();
    UpIsProduct(hi, 4);
    BitsJoin(lo, 4, hi, 4);
  }

  method WriteNibbles(writer: BitWriter, ws: seq<nat>)
    requires writer.Valid() && forall i :: 0 <= i < |ws| ==> ws[i] < 16
    modifies writer
    ensures writer.Valid()
    ensures writer.Contents() == old(writer.Contents()) + BytesToBits(Packed(ws))
  {
    hide BitsOf, BytesToBits, Packed, Pow2, BitWriter.Contents, BitWriter.Valid;
    ghost var start := writer.Contents();
    Pow2Values();
    var i := 0;
    ghost var done: seq<byte> := [];
    PackedStart(start, ws);
    while i + 1 < |ws|
      invariant writer.Valid() && i <= |ws| && Packed(ws) == done + Packed(ws[i..])
      invariant writer.Contents() == start + BytesToBits(done)
    {
      var weight1 := ws[i];
      var weight2 := ws[i + 1];
      writer.WriteBits(weight2, 4);
      writer.WriteBits(weight1, 4);
      OnePair(start, done, weight1, weight2);
      PackedStep(done, ws[i..]);
      assert ws[i..][2..] == ws[i + 2..];
      done := done + [16 * weight1 + weight2];
      i := i + 2;
    }
    if i < |ws| {
      var weight := ws[i];
      writer.WriteBits(weight * 16, 8);
      OneByte(start, done, 16 * weight);
      PackedEnd(done, ws[i..]);
      done := done + [16 * weight];
    } else {
      PackedEnd(done, ws[i..]);
    }
  }

  lemma PackedStart(start: seq<bool>, ws: seq<nat>)
    requires forall i :: 0 <= i < |ws| ==> ws[i] < 16
    ensures start + BytesToBits([]) == start && Packed(ws) == [] + Packed(ws[0..])
  {
    assert ws[0..] == ws;
  }

  lemma PackedEnd(done: seq<byte>, ws: seq<nat>)
    requires |ws| <= 1 && forall i :: 0 <= i < |ws| ==> ws[i] < 16
    ensures done + Packed(ws) == if |ws| == 1 then done + [16 * ws[0]] else done
  {
  }

  lemma PackedStep(done: seq<byte>, ws: seq<nat>)
    requires |ws| >= 2 && forall i :: 0 <= i < |ws| ==> ws[i] < 16
    ensures done + Packed(ws) == (done + [16 * ws[0] + ws[1]]) + Packed(ws[2..])
  {
  }

  lemma OneByte(start: seq<bool>, done: seq<byte>, x: byte)
    ensures start + BytesToBits(done) + BitsOf(x, 8) == start + BytesToBits(done + [x])
  {
    hide BytesToBits, BitsOf;
    SingleByte(x);
    BytesAppend(done, [x]);
  }

  lemma OnePair(start: seq<bool>, done: seq<byte>, hi: nat, lo: nat)
    requires hi < 16 && lo < 16
    ensures start + BytesToBits(done) + BitsOf(lo, 4) + BitsOf(hi, 4) == start + BytesToBits(done + [16 * hi + lo])
  {
    hide BytesToBits, BitsOf;
    NibbleBits(hi, lo);
    OneByte(start, done, 16 * hi + lo);
  }

  // ----- FSE coded weights -----

  /** The bits of data coded with two states. */
  ghost function TwoStreamOf(e: EncodingTable, data: seq<nat>, k: nat): (s: seq<bool>)
    requires |data| > 1 && CanEncodeAll(e, data)
    ensures |s| % 8 == 0 && s != []
  {
    var (b, x, y) := CodedTwo(e, data);
    WithMarker(b + BitsOf(y, k) + BitsOf(x, k))
  }

  /** Marker, two states, then the alternating decoder. */
  ghost function ReadTwo(d: seq<Entry>, k: nat, s: seq<bool>): Option<seq<nat>>
    requires Closed(d) && |d| == Pow2(k)
  {
    var m := SkipMarker(s, |s|, 0);
    if m > 8 then None else
    var pos := |s| - m;
    ReadBackBound(s, pos, k);
    ReadBackBound(s, pos - k, k);
    DecodedTwo(d, s, pos - 2 * k, ReadBack(s, pos, k), ReadBack(s, pos - k, k), 0)
  }

  lemma TwoStreamRead(e: EncodingTable, d: seq<Entry>, k: nat, data: seq<nat>)
    requires 1 < |data| <= 256 && TablesFor(e, d, k, data) && CanEncodeAll(e, data)
    requires forall suffix :: TwoBack(e, d, data, suffix)
    ensures Closed(d) && |d| == Pow2(k)
    ensures ReadTwo(d, k, TwoStreamOf(e, data, k)) == Some(data)
  {
    hide CanEncodeAll, CodedTwo, DecodedTwo, Pow2, BitsOf, ReadBack, SkipMarker, Agree, Closed;
    var (b, x, y) := CodedTwo(e, data);
    var head := b + BitsOf(y, k) + BitsOf(x, k);
    var m := MarkerLength(|head|);
    MarkerFound(head, m);
    ReadBackLast(b + BitsOf(y, k), x, k, BitsOf(1, m));
    ReadBackLast(b, y, k, BitsOf(x, k) + BitsOf(1, m));
    Join4(b, BitsOf(y, k), BitsOf(x, k), BitsOf(1, m));
    assert TwoBack(e, d, data, BitsOf(y, k) + (BitsOf(x, k) + BitsOf(1, m)));
  }

  ghost predicate TwoBack(e: EncodingTable, d: seq<Entry>, data: seq<nat>, suffix: seq<bool>)
    requires |data| > 1 && CanEncodeAll(e, data) && |d| == e.tableSize && Closed(d)
  {
    var (b, x, y) := CodedTwo(e, data);
    DecodedTwo(d, b + suffix, |b|, x, y, 0) == Some(data)
  }

  /** The table for a list of weights and its coded form. */
  ghost predicate WeightTable(probs: seq<int>, k: nat, ws: seq<nat>) {
    FseNormalise.TableForData(probs, k, 6, true, ws)
  }

  lemma WeightsRead(probs: seq<int>, k: nat, ws: seq<nat>)
    requires WeightTable(probs, k, ws) && 2 <= |ws| <= 256
    ensures var e, d := EncodeTable(probs, k), DecodeTable(probs, k);
      && CanEncodeAll(e, ws) && Closed(d) && |d| == Pow2(k)
      && ReadTwo(d, k, TwoStreamOf(e, ws, k)) == Some(ws)
  {
    hide EncodeTable, DecodeTable, CodedTwo, DecodedTwo, Pow2, ValidProbs, ReadTwo, TwoStreamOf, CanEncodeAll;
    var e, d := EncodeTable(probs, k), DecodeTable(probs, k);
    FseNormalise.AvoidZeroRecovers(probs, k, 6, ws, []);
    TablesAre(e, d, k, ws);
    forall suffix
      ensures TwoBack(e, d, ws, suffix)
    {
      FseNormalise.AvoidZeroRecovers(probs, k, 6, ws, suffix);
    }
    TwoStreamRead(e, d, k, ws);
  }

  lemma TablesAre(e: EncodingTable, d: seq<Entry>, k: nat, data: seq<nat>)
    requires TablesFor(e, d, k, data)
    ensures Closed(d) && |d| == Pow2(k) == e.tableSize
  {
  }

  // ----- reading -----

  /** Coded weights behind the header byte: `header` bytes with description and stream. */
  ghost function FseWeights(fse: seq<byte>, header: nat): Option<seq<nat>> {
    if header > |fse| then None else
    var parsed := ParseDescription(BytesToBits(fse));
    if parsed.None? || parsed.value.1 > 6 || |parsed.value.0| > 256 || !ValidProbs(parsed.value.0, parsed.value.1) then None else
    var used := BytesFor(parsed.value.2);
    if used > header then None else
    var k, d := parsed.value.1, DecodeTable(parsed.value.0, parsed.value.1);
    if !(Closed(d) && |d| == Pow2(k)) then None else ReadTwo(d, k, BytesToBits(fse[used..header]))
  }

  /** The weights at the beginning of `source` and the bytes they take. */
  ghost function WeightsIn(source: seq<byte>): Option<(seq<nat>, nat)> {
    if source == [] then None else
    var header: nat := source[0];
    if header <= 127 then
      var ws := FseWeights(source[1..], header);
      if ws.None? then None else Some((ws.value, 1 + header))
    else
      var n: nat := header - 127;
      if |source| - 1 < (n + 1) / 2 then None
      else Some((Unpacked(source[1..], n), 1 + (n + 1) / 2))
  }
}
