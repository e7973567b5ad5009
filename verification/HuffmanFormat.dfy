/** Huffman coding held to section 4.2 of RFC 8878: the example codes, the forms of the
    list of weights, and the two interleaved states of coded weights, bit by bit. */
module HuffmanFormat {
  import opened Concatenation
  import opened Numbers
  import opened Bits
  import opened Results
  import opened BackwardReading
  import opened FseDistribution
  import opened FseStream
  import opened HuffmanCodes
  import opened HuffmanStream
  import opened HuffmanCoding
  import opened HuffmanTableCoding
  import opened FseTableCoding

  // ----- codes -----

  /** The weights 4, 3, 2, 0, 1, 1 give the codes 1, 01, 001, none, 0000, 0001. */
  lemma ExampleCodes()
    ensures var ws := [4, 3, 2, 0, 1, 1];
      && Complete(ws, 4)
      && Codes(ws, 4) == [(1, 1), (1, 2), (1, 3), (0, 0), (0, 4), (1, 4)]
  {
    var ws := [4, 3, 2, 0, 1, 1];
    Pow2Values();
    ExampleSums(ws);
    ExampleBases(ws);
    assert Shr(8, 3) == 1 && Shr(4, 2) == 1 && Shr(2, 1) == 1;
    assert Codes(ws, 4)[0] == (1, 1);
    assert Codes(ws, 4)[1] == (1, 2);
    assert Codes(ws, 4)[2] == (1, 3);
    assert Codes(ws, 4)[3] == (0, 0);
    assert Codes(ws, 4)[4] == (0, 4);
    assert Codes(ws, 4)[5] == (1, 4);
  }

  lemma Spans()
    ensures Span(4) == 8 && Span(3) == 4 && Span(2) == 2 && Span(1) == 1 && Span(0) == 0 && Pow2(4) == 16
  {
    Pow2Values();
  }

  lemma ExampleSums(ws: seq<nat>)
    requires ws == [4, 3, 2, 0, 1, 1]
    ensures Complete(ws, 4)
  {
    hide Span, Pow2;
    Spans();
    assert Kraft(ws, 1) == 8;
    assert Kraft(ws, 3) == 14;
    assert Kraft(ws, 5) == 15;
  }

  function SmallerSpan(v: nat, w: nat): nat {
    if v < w then Span(v) else 0
  }

  lemma BelowSix(ws: seq<nat>, w: nat)
    requires |ws| == 6
    ensures Below(ws, w, 6) == SmallerSpan(ws[0], w) + SmallerSpan(ws[1], w) + SmallerSpan(ws[2], w)
      + SmallerSpan(ws[3], w) + SmallerSpan(ws[4], w) + SmallerSpan(ws[5], w)
  {
    hide Span;
    assert Below(ws, w, 1) == SmallerSpan(ws[0], w);
    assert Below(ws, w, 2) == Below(ws, w, 1) + SmallerSpan(ws[1], w);
    assert Below(ws, w, 3) == Below(ws, w, 2) + SmallerSpan(ws[2], w);
    assert Below(ws, w, 4) == Below(ws, w, 3) + SmallerSpan(ws[3], w);
    assert Below(ws, w, 5) == Below(ws, w, 4) + SmallerSpan(ws[4], w);
  }

  /** Nothing of the same weight comes before. */
  lemma {:induction false} NoneOfLevel(ws: seq<nat>, w: nat, n: nat)
    requires n <= |ws| && forall i :: 0 <= i < n ==> ws[i] != w
    ensures Level(ws, w, n) == 0
  {
    if n > 0 {
      NoneOfLevel(ws, w, n - 1);
    }
  }

  lemma ExampleBases(ws: seq<nat>)
    requires ws == [4, 3, 2, 0, 1, 1]
    ensures Base(ws, 0) == 8 && Base(ws, 1) == 4 && Base(ws, 2) == 2 && Base(ws, 4) == 0 && Base(ws, 5) == 1
  {
    hide Span, Below, Level;
    Spans();
    BelowSix(ws, 4);
    BelowSix(ws, 3);
    BelowSix(ws, 2);
    BelowSix(ws, 1);
    NoneOfLevel(ws, 4, 0);
    NoneOfLevel(ws, 3, 1);
    NoneOfLevel(ws, 2, 2);
    NoneOfLevel(ws, 1, 4);
    LevelNext(ws, 1, 4);
  }

  lemma LevelNext(ws: seq<nat>, w: nat, n: nat)
    requires n < |ws|
    ensures Level(ws, w, n + 1) == Level(ws, w, n) + if ws[n] == w then Span(w) else 0
  {
  }

  /** The symbols 0, 1, 4 with these codes: the last one stands first, so that reading
      backwards gives 1, 01, 0000. */
  lemma ExampleStream()
    ensures var codes := [(1, 1), (1, 2), (1, 3), (0, 0), (0, 4), (1, 4)];
      && CanCode(codes, [0, 1, 4])
      && HuffmanStream.Coded(codes, [0, 1, 4]) == [false, false, false, false, true, false, true]
  {
    hide HuffmanStream.Coded, BitsOf;
    var codes := [(1, 1), (1, 2), (1, 3), (0, 0), (0, 4), (1, 4)];
    ShortBits();
    OneCoded(codes, 4, []);
    OneCoded(codes, 1, [4]);
    OneCoded(codes, 0, [1, 4]);
    assert [4] + [] == [4] && [1] + [4] == [1, 4] && [0] + [1, 4] == [0, 1, 4];
  }

  lemma ShortBits()
    ensures BitsOf(0, 4) == [false, false, false, false] && BitsOf(1, 2) == [true, false] && BitsOf(1, 1) == [true]
  {
    assert BitsOf(0, 2) == [false, false];
  }

  lemma OneCoded(codes: seq<(nat, nat)>, s: nat, data: seq<nat>)
    requires CanCode(codes, data) && s < |codes| && codes[s].1 > 0
    ensures CanCode(codes, [s] + data)
    ensures HuffmanStream.Coded(codes, [s] + data) == HuffmanStream.Coded(codes, data) + BitsOf(codes[s].0, codes[s].1)
    ensures HuffmanStream.Coded(codes, []) == []
  {
    hide BitsOf;
    assert ([s] + data)[1..] == data;
  }

  // ----- the list of weights -----

  /** A header byte above 127: that many weights less 127 follow, four bits each, the
      high half of a byte first. */
  lemma DirectWeights(n: nat, raw: seq<byte>)
    requires 1 <= n <= 128 && |raw| >= (n + 1) / 2
    ensures var header: byte := 127 + n;
      var read := WeightsIn([header] + raw);
      && read.Some? && read.value.1 == 1 + (n + 1) / 2 && |read.value.0| == n
      && forall i :: 0 <= i < n ==> read.value.0[i] == if i % 2 == 0 then raw[i / 2] / 16 else raw[i / 2] % 16
  {
    var header: byte := 127 + n;
    assert ([header] + raw)[1..] == raw;
  }

  /** A header byte up to 127: so many bytes with a description and a stream follow. */
  lemma CodedWeights(header: byte, fse: seq<byte>)
    requires header <= 127
    ensures var read := WeightsIn([header] + fse);
      && (read.Some? ==> read.value.1 == 1 + header as nat && header as nat <= |fse| && FseWeights(fse, header) == Some(read.value.0))
      && (read.None? ==> FseWeights(fse, header) == None)
  {
    hide FseWeights;
    assert ([header] + fse)[1..] == fse;
    if FseWeights(fse, header).Some? {
      EnoughBytes(fse, header);
    }
  }

  lemma EnoughBytes(fse: seq<byte>, header: nat)
    requires FseWeights(fse, header).Some?
    ensures header <= |fse|
  {
  }

  // ----- two interleaved states -----

  /** The first state stands last in front of the marker, the second one before it. */
  lemma StatesStart(d: seq<Entry>, k: nat, prefix: seq<bool>, y: seq<bool>, x: seq<bool>)
    requires Closed(d) && |d| == Pow2(k) && |x| == |y| == k
    ensures ValOf(x) < |d| && ValOf(y) < |d|
    ensures var s := WithMarker(prefix + y + x);
      ReadTwo(d, k, s) == DecodedTwo(d, s, |prefix|, ValOf(x), ValOf(y), 0)
  {
    hide ValOf, Pow2, ReadBack, DecodedTwo, SkipMarker, ReadTwo, Closed, WithMarker;
    var m := MarkedFields(k, prefix, y, x);
    StatesFrom(d, k, WithMarker(prefix + y + x), m, |prefix|, ValOf(x), ValOf(y));
  }

  lemma MarkedFields(k: nat, prefix: seq<bool>, y: seq<bool>, x: seq<bool>) returns (m: nat)
    requires |x| == |y| == k
    ensures var s := WithMarker(prefix + y + x);
      && |s| == |prefix| + k + k + m && SkipMarker(s, |s|, 0) == m <= 8
      && ReadBack(s, |prefix| + k + k, k) == ValOf(x) < Pow2(k)
      && ReadBack(s, |prefix| + k, k) == ValOf(y) < Pow2(k)
  {
    hide ValOf, Pow2, ReadBack, SkipMarker, BitsOf;
    m := MarkerLength(|prefix + y + x|);
    MarkerFound(prefix + y + x, m);
    TwoFields(k, prefix, y, x, BitsOf(1, m));
  }

  lemma TwoFields(k: nat, prefix: seq<bool>, y: seq<bool>, x: seq<bool>, marker: seq<bool>)
    requires |x| == |y| == k
    ensures var s := prefix + y + x + marker;
      && |s| == |prefix| + k + k + |marker|
      && ReadBack(s, |prefix| + k + k, k) == ValOf(x) < Pow2(k)
      && ReadBack(s, |prefix| + k, k) == ValOf(y) < Pow2(k)
  {
    hide ValOf, Pow2, ReadBack;
    FieldRead(prefix + y, x, marker);
    FieldRead(prefix, y, x + marker);
    Join3(prefix + y, x, marker);
  }

  lemma StatesFrom(d: seq<Entry>, k: nat, s: seq<bool>, m: nat, start: nat, x: nat, y: nat)
    requires Closed(d) && |d| == Pow2(k) && |s| == start + k + k + m && SkipMarker(s, |s|, 0) == m <= 8
    requires ReadBack(s, start + k + k, k) == x < |d| && ReadBack(s, start + k, k) == y < |d|
    ensures ReadTwo(d, k, s) == DecodedTwo(d, s, start, x, y, 0)
  {
    hide ReadBack, DecodedTwo, SkipMarker, Pow2, Closed;
    assert start + k + k - 2 * k == start && start + k + k - k == start + k;
  }

  /** The first state's bits move it on while the second one's turn comes. */
  lemma StatesAlternate(d: seq<Entry>, prefix: seq<bool>, f: seq<bool>, suffix: seq<bool>, x: nat, y: nat, done: nat)
    requires Closed(d) && x < |d| && y < |d| && |f| == d[x].numBits && done < 256
    ensures var b, next := prefix + f + suffix, d[x].baseLine + ValOf(f);
      && next < |d|
      && var rest := DecodedTwo(d, b, |prefix|, y, next, done + 1);
        DecodedTwo(d, b, |prefix| + |f|, x, y, done) == if rest.None? then None else Some([d[x].symbol] + rest.value)
  {
    hide ValOf, Pow2, ReadBack;
    FieldRead(prefix, f, suffix);
  }

  /** After 256 transitions the decoder gives up. */
  lemma StatesGiveUp(d: seq<Entry>, b: seq<bool>, pos: int, x: nat, y: nat)
    requires Closed(d) && x < |d| && y < |d|
    ensures DecodedTwo(d, b, pos, x, y, 256) == None
  {
  }

  /** When the bits do not suffice both states give their symbols and all is read. */
  lemma StatesEnd(d: seq<Entry>, b: seq<bool>, pos: nat, x: nat, y: nat, done: nat)
    requires Closed(d) && x < |d| && y < |d| && pos < d[x].numBits && done < 256
    ensures DecodedTwo(d, b, pos, x, y, done) == Some([d[x].symbol, d[y].symbol])
  {
  }

  // ----- literals -----

  /** A stream of whole bytes has its marker in the last one, and its codes end exactly
      where it begins. */
  ghost predicate EndsExactly(d: seq<CodeEntry>, m: nat, stream: seq<byte>)
    requires Steps(d, m)
  {
    var b := BytesToBits(stream);
    var skipped := SkipMarker(b, |b|, 0);
    skipped <= 8 && HuffmanStream.Decoded(d, m, b, |b| - skipped).1 == 0
  }

  ghost function Symbols(d: seq<CodeEntry>, m: nat, stream: seq<byte>): seq<nat>
    requires Steps(d, m)
  {
    var b := BytesToBits(stream);
    HuffmanStream.Decoded(d, m, b, |b| - SkipMarker(b, |b|, 0)).0
  }

  /** Four streams are accepted if and only if six bytes give three sizes, low byte first,
      that leave a fourth stream, all four end exactly, and the number of symbols is the
      one announced. */
  lemma FourAccepted(d: seq<CodeEntry>, m: nat, source: seq<byte>, count: nat)
    requires Steps(d, m)
    ensures var r := Literals(d, m, source, true, count);
      if |source| < 6 then r == Err(MissingBytesForJumpHeader(|source|)) else
      var n0 := source[0] as nat + 256 * source[1] as nat;
      var n1 := source[2] as nat + 256 * source[3] as nat;
      var n2 := source[4] as nat + 256 * source[5] as nat;
      if |source| < 6 + n0 + n1 + n2 then r == Err(MissingBytesForLiterals(|source| - 6, n0 + n1 + n2)) else
      var a, b := source[6..6 + n0], source[6 + n0..6 + n0 + n1];
      var c, e := source[6 + n0 + n1..6 + n0 + n1 + n2], source[6 + n0 + n1 + n2..];
      var all := Symbols(d, m, a) + Symbols(d, m, b) + Symbols(d, m, c) + Symbols(d, m, e);
      && (r.Ok? <==> EndsExactly(d, m, a) && EndsExactly(d, m, b) && EndsExactly(d, m, c) && EndsExactly(d, m, e) && |all| == count)
      && (r.Ok? ==> r.value == all)
  {
    hide HuffmanStream.Decoded, SkipMarker, BytesToBits;
    if |source| >= 6 {
      var n0 := source[0] as nat + 256 * source[1] as nat;
      var n1 := source[2] as nat + 256 * source[3] as nat;
      var n2 := source[4] as nat + 256 * source[5] as nat;
      if |source| >= 6 + n0 + n1 + n2 {
        var rest := source[6..];
        assert rest[..n0] == source[6..6 + n0] && rest[n0..n0 + n1] == source[6 + n0..6 + n0 + n1];
        assert rest[n0 + n1..n0 + n1 + n2] == source[6 + n0 + n1..6 + n0 + n1 + n2];
        assert rest[n0 + n1 + n2..] == source[6 + n0 + n1 + n2..];
        FourDecoded(d, m, rest[..n0], rest[n0..n0 + n1], rest[n0 + n1..n0 + n1 + n2], rest[n0 + n1 + n2..]);
      }
    }
  }

  lemma FourDecoded(d: seq<CodeEntry>, m: nat, a: seq<byte>, b: seq<byte>, c: seq<byte>, e: seq<byte>)
    requires Steps(d, m)
    ensures var r := DecodedAll(d, m, [a, b, c, e]);
      && (r.Ok? <==> EndsExactly(d, m, a) && EndsExactly(d, m, b) && EndsExactly(d, m, c) && EndsExactly(d, m, e))
      && (r.Ok? ==> r.value == Symbols(d, m, a) + Symbols(d, m, b) + Symbols(d, m, c) + Symbols(d, m, e))
  {
    hide EndsExactly, Symbols, DecodedAll;
    assert DecodedAll(d, m, []) == Ok([]) by { OneDecoded(d, m, a, []); }
    OneDecoded(d, m, e, []);
    OneDecoded(d, m, c, [e]);
    OneDecoded(d, m, b, [c, e]);
    OneDecoded(d, m, a, [b, c, e]);
    assert [e] + [] == [e] && [c] + [e] == [c, e] && [b] + [c, e] == [b, c, e] && [a] + [b, c, e] == [a, b, c, e];
    Join4(Symbols(d, m, a), Symbols(d, m, b), Symbols(d, m, c), Symbols(d, m, e));
    assert Symbols(d, m, e) + [] == Symbols(d, m, e);
  }

  lemma OneDecoded(d: seq<CodeEntry>, m: nat, first: seq<byte>, rest: seq<seq<byte>>)
    requires Steps(d, m)
    ensures DecodedAll(d, m, []) == Ok([])
    ensures var all, r := DecodedAll(d, m, [first] + rest), DecodedAll(d, m, rest);
      && (all.Ok? <==> EndsExactly(d, m, first) && r.Ok?)
      && (all.Ok? ==> all.value == Symbols(d, m, first) + r.value)
  {
    hide HuffmanStream.Decoded, SkipMarker, BytesToBits;
    assert ([first] + rest)[1..] == rest;
  }

  /** A single stream is accepted if and only if it has its marker and the number of
      symbols is the one announced; where the codes end is not checked. */
  lemma OneAccepted(d: seq<CodeEntry>, m: nat, source: seq<byte>, count: nat)
    requires Steps(d, m)
    ensures var r, b := Literals(d, m, source, false, count), BytesToBits(source);
      && (r.Ok? <==> SkipMarker(b, |b|, 0) <= 8 && |Symbols(d, m, source)| == count)
      && (r.Ok? ==> r.value == Symbols(d, m, source))
  {
    hide HuffmanStream.Decoded, SkipMarker, BytesToBits;
  }

  /** What is asked of coded weights: the bytes announced are there, the description has
      at most 64 cells and ends within them, and the two states find the end. */
  lemma CodedWeightsAccepted(fse: seq<byte>, header: nat)
    ensures FseWeights(fse, header).Some? ==>
      var parsed := ParseDescription(BytesToBits(fse));
      && header <= |fse| && parsed.Some? && parsed.value.1 <= 6 && BytesFor(parsed.value.2) <= header
      && ValidProbs(parsed.value.0, parsed.value.1)
      && var d := DecodeTable(parsed.value.0, parsed.value.1);
        && Closed(d) && |d| == Pow2(parsed.value.1)
        && FseWeights(fse, header) == ReadTwo(d, parsed.value.1, BytesToBits(fse[BytesFor(parsed.value.2)..header]))
  {
    hide ParseDescription, ReadTwo, DecodeTable, ValidProbs, BytesToBits, Closed, BytesFor;
  }
}
