/** Huffman coded bit strings and their decoding through a window of bits. */
module HuffmanStream {
  import opened Numbers
  import opened Bits
  import opened BackwardReading
  import opened HuffmanCodes

  /** Every symbol of the data has a code. */
  ghost predicate CanCode(codes: seq<(nat, nat)>, data: seq<nat>) {
    forall i :: 0 <= i < |data| ==> data[i] < |codes| && codes[data[i]].1 > 0
  }

  /** The last symbol is written first. */
  ghost function Coded(codes: seq<(nat, nat)>, data: seq<nat>): seq<bool>
    requires CanCode(codes, data)
  {
    if data == [] then [] else Coded(codes, data[1..]) + BitsOf(codes[data[0]].0, codes[data[0]].1)
  }

  /** A table of `2^m` cells that always moves on. */
  ghost predicate Steps(d: seq<CodeEntry>, m: nat) {
    |d| == Pow2(m) && forall i :: 0 <= i < |d| ==> 1 <= d[i].numBits <= m
  }

  /** Looking up windows of `m` bits, each ending where the last code began, until
      the string is used up. */
  ghost function Decoded(d: seq<CodeEntry>, m: nat, b: seq<bool>, pos: int): (r: (seq<nat>, int))
    requires Steps(d, m)
    ensures r.1 <= 0
    decreases if pos > 0 then pos else 0
  {
    if pos <= 0 then ([], pos) else
    ReadBackBound(b, pos, m);
    var e := d[ReadBack(b, pos, m)];
    var rest := Decoded(d, m, b, pos - e.numBits);
    ([e.symbol] + rest.0, rest.1)
  }

  /** The table of a complete list in which no code is empty. */
  lemma TableSteps(d: seq<CodeEntry>, ws: seq<nat>, m: nat)
    requires Decodes(d, ws, m) && |ws| <= 256 && forall s :: 0 <= s < |ws| ==> ws[s] <= m
    ensures Steps(d, m)
  {
    hide Decodes;
    TableSize(d, ws, m);
    forall i | 0 <= i < |d|
      ensures 1 <= d[i].numBits <= m
    {
      TableFull(d, ws, m, i);
    }
  }

  lemma TableSize(d: seq<CodeEntry>, ws: seq<nat>, m: nat)
    requires Decodes(d, ws, m)
    ensures |d| == Pow2(m) && Complete(ws, m)
  {
  }

  lemma UsedSymbol(ws: seq<nat>, m: nat, s: nat)
    requires Complete(ws, m) && s < |ws| && Codes(ws, m)[s].1 > 0
    ensures 0 < ws[s] <= m && Codes(ws, m)[s] == (Code(ws, s), m + 1 - ws[s])
    ensures Code(ws, s) < Pow2(m + 1 - ws[s])
  {
    hide Code, Complete;
    if ws[s] > 0 {
      CodeFits(ws, m, s);
    }
  }

  /** The window that ends behind a symbol's code finds the symbol. */
  lemma WindowFinds(d: seq<CodeEntry>, ws: seq<nat>, m: nat, s: nat, prefix: seq<bool>, suffix: seq<bool>)
    requires Decodes(d, ws, m) && |ws| <= 256 && s < |ws| && Codes(ws, m)[s].1 > 0
    ensures var bits := BitsOf(Codes(ws, m)[s].0, Codes(ws, m)[s].1);
      var x := ReadBack(prefix + bits + suffix, |prefix| + |bits|, m);
      x < |d| && d[x] == CodeEntry(s, |bits|)
  {
    hide Decodes, Codes, Code, BitsOf, ReadBack, Complete, Shr;
    TableSize(d, ws, m);
    UsedSymbol(ws, m, s);
    var n := m + 1 - ws[s];
    var bits := BitsOf(Code(ws, s), n);
    var b := prefix + bits + suffix;
    var pos := |prefix| + n;
    ReadBackBound(b, pos, m);
    ReadBackSplit(b, pos, ws[s] - 1, n);
    ReadBackLast(prefix, Code(ws, s), n, suffix);
    TableDecides(d, ws, m, s, ReadBack(b, pos, m));
    LengthIs(m, ws[s]);
  }

  lemma LengthIs(m: nat, w: nat)
    requires 0 < w <= m
    ensures Length(m, w) == m + 1 - w
  {
  }

  /** Decoding what was coded gives the data and ends exactly at the beginning. */
  lemma {:induction false} StreamRoundTrip(d: seq<CodeEntry>, ws: seq<nat>, m: nat, data: seq<nat>, suffix: seq<bool>)
    requires Decodes(d, ws, m) && |ws| <= 256 && Steps(d, m) && CanCode(Codes(ws, m), data)
    ensures var b := Coded(Codes(ws, m), data);
      Decoded(d, m, b + suffix, |b|) == (data, 0)
  {
    hide Decodes, Codes, Steps, BitsOf, ReadBack, Complete;
    if data != [] {
      TableSize(d, ws, m);
      var codes := Codes(ws, m);
      var b := Coded(codes, data[1..]);
      var bits := BitsOf(codes[data[0]].0, codes[data[0]].1);
      WindowFinds(d, ws, m, data[0], b, suffix);
      StreamRoundTrip(d, ws, m, data[1..], bits + suffix);
      assert b + bits + suffix == b + (bits + suffix);
      assert data == [data[0]] + data[1..];
    }
  }

  // ----- moving the window -----

  /** Shifting out the bits of a code and reading as many new ones moves the window. */
  lemma WindowMoves(b: seq<bool>, pos: int, m: nat, n: nat)
    requires n <= m
    ensures Or(And(Up(ReadBack(b, pos, m), n), Pow2(m) - 1), ReadBack(b, pos - m, n)) == ReadBack(b, pos - n, m)
  {
    hide ReadBack, Or, And, Up, Low, Pow2;
    var x := ReadBack(b, pos, m);
    AndMask(Up(x, n), m);
    LowUp(x, n, m - n);
    ReadBackSplit(b, pos, m - n, n);
    ReadBackSplit(b, pos - n, n, m - n);
    ReadBackBound(b, pos - m, n);
    OrDisjoint(ReadBack(b, pos - m, n), n, Low(x, m - n));
    SplitParts(ReadBack(b, pos - n, m), n);
  }
}
