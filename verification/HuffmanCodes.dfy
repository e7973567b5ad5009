/** Canonical Huffman codes: a list of weights assigns every symbol a range of the
    code space and thereby its code (RFC 8878, section 4.2.1). Encoder and decoder
    are both proved against these ranges. */
module HuffmanCodes {
  import opened Numbers

  /** The share of the code space a weight takes. */
  function Span(w: nat): nat {
    if w > 0 then Pow2(w - 1) else 0
  }

  /** The spans of all weights smaller than `w` among the first `n`. */
  function Below(ws: seq<nat>, w: nat, n: nat): nat
    requires n <= |ws|
  {
    if n == 0 then 0 else Below(ws, w, n - 1) + if ws[n - 1] < w then Span(ws[n - 1]) else 0
  }

  /** The spans of all weights equal to `w` among the first `n`. */
  function Level(ws: seq<nat>, w: nat, n: nat): nat
    requires n <= |ws|
  {
    if n == 0 then 0 else Level(ws, w, n - 1) + if ws[n - 1] == w then Span(w) else 0
  }

  function Kraft(ws: seq<nat>, n: nat): nat
    requires n <= |ws|
  {
    if n == 0 then 0 else Kraft(ws, n - 1) + Span(ws[n - 1])
  }

  /** A symbol's range begins behind all smaller weights and behind the symbols of
      its own weight that come before it. */
  function Base(ws: seq<nat>, s: nat): nat
    requires s < |ws|
  {
    Below(ws, ws[s], |ws|) + Level(ws, ws[s], s)
  }

  ghost predicate InRange(ws: seq<nat>, s: nat, i: nat)
    requires s < |ws|
  {
    Base(ws, s) <= i < Base(ws, s) + Span(ws[s])
  }

  /** The weights fill a code space of `2^m`. */
  ghost predicate Complete(ws: seq<nat>, m: nat) {
    Kraft(ws, |ws|) == Pow2(m)
  }

  /** Canonical order: by weight, then by symbol. */
  ghost predicate Precedes(ws: seq<nat>, s: nat, t: nat)
    requires s < |ws| && t < |ws|
  {
    ws[s] < ws[t] || (ws[s] == ws[t] && s < t)
  }

  // ----- the ranges -----

  lemma {:induction false} BelowStep(ws: seq<nat>, w: nat, n: nat)
    requires n <= |ws|
    ensures Below(ws, w + 1, n) == Below(ws, w, n) + Level(ws, w, n)
  {
    if n > 0 {
      BelowStep(ws, w, n - 1);
    }
  }

  lemma {:induction false} BelowZero(ws: seq<nat>, n: nat)
    requires n <= |ws|
    ensures Below(ws, 0, n) == 0 && Below(ws, 1, n) == 0 && Level(ws, 0, n) == 0
  {
    if n > 0 {
      BelowZero(ws, n - 1);
    }
  }

  lemma {:induction false} BelowMono(ws: seq<nat>, v: nat, w: nat, n: nat)
    requires v <= w && n <= |ws|
    ensures Below(ws, v, n) <= Below(ws, w, n) <= Kraft(ws, n)
  {
    if n > 0 {
      BelowMono(ws, v, w, n - 1);
    }
  }

  lemma {:induction false} BelowAll(ws: seq<nat>, w: nat, n: nat)
    requires n <= |ws| && forall t :: 0 <= t < n ==> ws[t] < w
    ensures Below(ws, w, n) == Kraft(ws, n)
  {
    if n > 0 {
      BelowAll(ws, w, n - 1);
    }
  }

  lemma {:induction false} LevelMono(ws: seq<nat>, w: nat, s: nat, t: nat)
    requires s <= t <= |ws|
    ensures Level(ws, w, s) <= Level(ws, w, t)
    ensures s < t && ws[s] == w ==> Level(ws, w, s) + Span(w) <= Level(ws, w, t)
    decreases t
  {
    if s < t {
      LevelMono(ws, w, s, t - 1);
    }
  }

  /** Ranges follow each other in canonical order. */
  lemma RangesOrdered(ws: seq<nat>, s: nat, t: nat)
    requires s < |ws| && t < |ws| && Precedes(ws, s, t)
    ensures Base(ws, s) + Span(ws[s]) <= Base(ws, t)
  {
    hide Below, Level, Span;
    if ws[s] == ws[t] {
      LevelMono(ws, ws[s], s, t);
    } else {
      LevelMono(ws, ws[s], s, |ws|);
      BelowStep(ws, ws[s], |ws|);
      BelowMono(ws, ws[s] + 1, ws[t], |ws|);
    }
  }

  /** Ranges stay inside the code space. */
  lemma RangeInside(ws: seq<nat>, s: nat)
    requires s < |ws|
    ensures Base(ws, s) + Span(ws[s]) <= Kraft(ws, |ws|)
  {
    hide Below, Level, Span, Kraft;
    LevelMono(ws, ws[s], s, |ws|);
    BelowStep(ws, ws[s], |ws|);
    BelowMono(ws, ws[s], ws[s] + 1, |ws|);
  }

  /** No point belongs to two symbols. */
  lemma RangesDisjoint(ws: seq<nat>, s: nat, t: nat, i: nat)
    requires s < |ws| && t < |ws| && InRange(ws, s, i) && InRange(ws, t, i)
    ensures s == t
  {
    hide Base, Span;
    if s != t {
      if Precedes(ws, s, t) {
        RangesOrdered(ws, s, t);
      } else {
        RangesOrdered(ws, t, s);
      }
    }
  }

  /** Every point of the code space belongs to a symbol. */
  lemma RangesCover(ws: seq<nat>, i: nat) returns (s: nat)
    requires i < Kraft(ws, |ws|)
    ensures s < |ws| && InRange(ws, s, i) && ws[s] > 0
  {
    hide Below, Level, Kraft;
    var top := Largest(ws, |ws|);
    BelowAll(ws, top + 1, |ws|);
    var w := FindWeight(ws, i, top + 1);
    BelowStep(ws, w, |ws|);
    s := FindSymbol(ws, w, i - Below(ws, w, |ws|), |ws|);
  }

  function Largest(ws: seq<nat>, n: nat): (w: nat)
    requires n <= |ws|
    ensures forall t :: 0 <= t < n ==> ws[t] <= w
  {
    if n == 0 then 0 else
    var w := Largest(ws, n - 1);
    if ws[n - 1] > w then ws[n - 1] else w
  }

  lemma {:induction false} FindWeight(ws: seq<nat>, i: nat, w: nat) returns (v: nat)
    requires i < Below(ws, w, |ws|)
    ensures v < w && Below(ws, v, |ws|) <= i < Below(ws, v + 1, |ws|)
  {
    BelowZero(ws, |ws|);
    if Below(ws, w - 1, |ws|) <= i {
      v := w - 1;
    } else {
      v := FindWeight(ws, i, w - 1);
    }
  }

  lemma {:induction false} FindSymbol(ws: seq<nat>, w: nat, r: nat, n: nat) returns (s: nat)
    requires n <= |ws| && r < Level(ws, w, n)
    ensures s < n && ws[s] == w && Level(ws, w, s) <= r < Level(ws, w, s) + Span(w)
  {
    if Level(ws, w, n - 1) <= r {
      s := n - 1;
    } else {
      s := FindSymbol(ws, w, r, n - 1);
    }
  }

  // ----- codes -----

  /** What is not smaller than `w` takes whole multiples of the span of `w`. */
  lemma {:induction false} RestIsMultiple(ws: seq<nat>, w: nat, n: nat) returns (q: nat)
    requires n <= |ws| && w > 0
    ensures Kraft(ws, n) == Below(ws, w, n) + Up(q, w - 1)
  {
    if n == 0 {
      q := 0;
      UpZero(w - 1);
    } else {
      q := RestIsMultiple(ws, w, n - 1);
      if ws[n - 1] >= w {
        Pow2IsUp(ws[n - 1] - w, w - 1);
        UpSum(q, Pow2(ws[n - 1] - w), w - 1);
        q := q + Pow2(ws[n - 1] - w);
      }
    }
  }

  lemma {:induction false} LevelIsMultiple(ws: seq<nat>, w: nat, n: nat) returns (q: nat)
    requires n <= |ws| && w > 0
    ensures Level(ws, w, n) == Up(q, w - 1)
  {
    if n == 0 {
      q := 0;
      UpZero(w - 1);
    } else {
      q := LevelIsMultiple(ws, w, n - 1);
      if ws[n - 1] == w {
        Pow2IsUp(0, w - 1);
        UpSum(q, 1, w - 1);
        q := q + 1;
      }
    }
  }

  lemma {:induction false} UpSum(a: nat, b: nat, n: nat)
    ensures Up(a + b, n) == Up(a, n) + Up(b, n)
  {
    if n > 0 {
      UpSum(a, b, n - 1);
    }
  }

  lemma {:induction false} Pow2IsUp(a: nat, n: nat)
    ensures Up(Pow2(a), n) == Pow2(a + n)
  {
    if n > 0 {
      Pow2IsUp(a, n - 1);
    }
  }

  lemma {:induction false} UpMonotone(a: nat, b: nat, n: nat)
    requires Up(a, n) <= Up(b, n)
    ensures a <= b
  {
    if n > 0 {
      UpMonotone(a, b, n - 1);
    }
  }

  /** The code of a symbol: its range without the bits its span leaves open. */
  function Code(ws: seq<nat>, s: nat): nat
    requires s < |ws| && ws[s] > 0
  {
    Shr(Base(ws, s), ws[s] - 1)
  }

  lemma WeightBound(ws: seq<nat>, m: nat, s: nat)
    requires Complete(ws, m) && s < |ws|
    ensures ws[s] <= m + 1
  {
    hide Base, Kraft;
    RangeInside(ws, s);
    if ws[s] > 0 {
      Pow2Reflects(ws[s] - 1, m);
    }
  }

  /** In a complete list every range begins at a multiple of its span: this is
      what makes its common leading bits a code. */
  lemma BaseIsMultiple(ws: seq<nat>, m: nat, s: nat)
    requires Complete(ws, m) && s < |ws| && ws[s] > 0
    ensures Base(ws, s) == Up(Code(ws, s), ws[s] - 1)
  {
    hide Below, Level, Kraft, Up, Shr;
    var w := ws[s];
    WeightBound(ws, m, s);
    var q := RestIsMultiple(ws, w, |ws|);
    var l := LevelIsMultiple(ws, w, s);
    Pow2IsUp(m + 1 - w, w - 1);
    var p := Pow2(m + 1 - w);
    assert Up(q, w - 1) <= Up(p, w - 1);
    UpMonotone(q, p, w - 1);
    UpSum(p - q, q, w - 1);
    UpSum(p - q, l, w - 1);
    JoinParts(0, p - q + l, w - 1);
  }

  /** A point lies in a symbol's range exactly when its leading bits are the code. */
  lemma CodeDecides(ws: seq<nat>, m: nat, s: nat, i: nat)
    requires Complete(ws, m) && s < |ws| && ws[s] > 0
    ensures InRange(ws, s, i) <==> Shr(i, ws[s] - 1) == Code(ws, s)
  {
    hide Base, Code, Kraft, Up, Shr;
    var f := ws[s] - 1;
    BaseIsMultiple(ws, m, s);
    SplitParts(i, f);
    if Shr(i, f) != Code(ws, s) && InRange(ws, s, i) {
      JoinParts(i - Base(ws, s), Code(ws, s), f);
    }
  }

  lemma CodeFits(ws: seq<nat>, m: nat, s: nat)
    requires Complete(ws, m) && s < |ws| && ws[s] > 0
    ensures ws[s] <= m + 1 && Code(ws, s) < Pow2(m + 1 - ws[s])
  {
    hide Base, Kraft, Up, Shr;
    WeightBound(ws, m, s);
    RangeInside(ws, s);
    ShrBound(Base(ws, s), m, ws[s] - 1);
  }

  /** The length of the codes of weight `w`. */
  function Length(m: nat, w: nat): nat {
    if 0 < w <= m + 1 then m + 1 - w else 0
  }

  /** Code and number of bits per symbol, nothing for unused symbols. */
  ghost function Codes(ws: seq<nat>, m: nat): (c: seq<(nat, nat)>)
    requires Complete(ws, m)
    ensures |c| == |ws|
  {
    seq(|ws|, s requires 0 <= s < |ws| => CodeOf(ws, m, s))
  }

  ghost function CodeOf(ws: seq<nat>, m: nat, s: nat): (c: (nat, nat))
    requires Complete(ws, m) && s < |ws|
    ensures c.0 < Pow2(c.1)
  {
    if ws[s] == 0 then (0, 0)
    else
      CodeFits(ws, m, s);
      (Code(ws, s), Length(m, ws[s]))
  }

  // ----- the flat decoding table -----

  datatype CodeEntry = CodeEntry(symbol: nat, numBits: nat)

  /** Every point of a symbol's range decodes to the symbol, kept in a byte, and
      its code length. */
  ghost predicate Decodes(d: seq<CodeEntry>, ws: seq<nat>, m: nat) {
    && Complete(ws, m) && |d| == Pow2(m)
    && forall s, i :: 0 <= s < |ws| && 0 <= i < |d| && ws[s] > 0 && InRange(ws, s, i) ==> d[i] == CodeEntry(s % 256, Length(m, ws[s]))
  }

  /** A cell holds a symbol if and only if the cell number starts with its code. */
  lemma TableDecides(d: seq<CodeEntry>, ws: seq<nat>, m: nat, s: nat, i: nat)
    requires Decodes(d, ws, m) && |ws| <= 256 && s < |ws| && ws[s] > 0 && i < |d|
    ensures d[i].symbol == s <==> Shr(i, ws[s] - 1) == Code(ws, s)
    ensures d[i].symbol == s ==> d[i].numBits == Length(m, ws[s])
  {
    hide InRange, Code, Kraft, Shr, Length;
    CodeDecides(ws, m, s, i);
    var t := RangesCover(ws, i);
    if InRange(ws, s, i) {
      RangesDisjoint(ws, s, t, i);
    }
  }

  /** Every cell is filled, with a symbol in use. */
  lemma TableFull(d: seq<CodeEntry>, ws: seq<nat>, m: nat, i: nat)
    requires Decodes(d, ws, m) && |ws| <= 256 && i < |d|
    ensures d[i].symbol < |ws| && ws[d[i].symbol] > 0 && d[i].numBits == Length(m, ws[d[i].symbol]) <= m
  {
    hide InRange, Kraft;
    var t := RangesCover(ws, i);
  }
}
