/** Table descriptions held to section 4.1.1 of RFC 8878: which values the bits of a
    field stand for, and one description field by field. */
module FseDescriptionFormat {
  import opened Concatenation
  import opened Numbers
  import opened Bits
  import opened Results
  import opened FseDescription
  import opened FseTableCoding

  // ----- one field -----

  /** With `r` cells to describe the values 0 to `r + 1` are possible; `w` bits hold all
      of them and some to spare. As many of the lowest values as are to spare take one
      bit less: `w` bits are looked at, and their value lies in one of four intervals. */
  lemma FieldIntervals(b: seq<bool>, pos: nat, r: nat, w: nat)
    requires r >= 1 && w >= 1 && Pow2(w - 1) <= r + 1 < Pow2(w) && pos + w <= |b|
    ensures var u, half, spare := ValOf(b[pos..pos + w]), Pow2(w - 1), Pow2(w) - 1 - (r + 1);
      ReadField(b, pos, r) == Some(
        if u < spare then (u, pos + w - 1)
        else if u < half then (u, pos + w)
        else if u < half + spare then (u - half, pos + w - 1)
        else (u - spare, pos + w))
  {
    hide ValOf, And, FieldWidth;
    WidthIs(r, w);
    ThresholdIs(r);
    ValBound(b[pos..pos + w]);
    SmallPart(ValOf(b[pos..pos + w]), w);
    assert Pow2(w) == 2 * Pow2(w - 1);
  }

  lemma WidthIs(r: nat, w: nat)
    requires w >= 1 && Pow2(w - 1) <= r + 1 < Pow2(w)
    ensures FieldWidth(r) == w
  {
    Log2Unique(r + 1, w - 1);
  }

  /** The example of the standard: values up to 157. */
  lemma FieldExample(u: nat, rest: seq<bool>)
    requires u < 256
    ensures ReadField(BitsOf(u, 8) + rest, 0, 156) == Some(
      if u <= 97 then (u, 7) else if u <= 127 then (u, 8) else if u <= 225 then (u - 128, 7) else (u - 98, 8))
  {
    hide BitsOf, ValOf, ReadField;
    Pow2Values();
    var b := BitsOf(u, 8) + rest;
    assert b[0..8] == BitsOf(u, 8);
    ValOfSmall(u, 8);
    FieldIntervals(b, 0, 156, 8);
  }

  /** What is written for a value, by interval. */
  lemma FieldIs(value: nat, r: nat, w: nat)
    requires w >= 1 && Pow2(w - 1) <= r + 1 < Pow2(w) && value <= r + 1
    ensures var half, spare := Pow2(w - 1), Pow2(w) - 1 - (r + 1);
      Field(value, r) ==
        if value < spare then BitsOf(value, w - 1)
        else if value < half then BitsOf(value, w)
        else BitsOf(value + spare, w)
  {
    hide BitsOf, FieldWidth;
    WidthIs(r, w);
    ThresholdIs(r);
  }

  // ----- one description -----

  /** Probability plus one in each field, a zero followed by two-bit counts of further
      zeros of which three says that another one follows, four bits for the accuracy
      log less five: three cells, six zeros, minus one, 28 cells of 32. */
  lemma WholeDescription(rest: seq<bool>)
    ensures var ps := [3, 0, 0, 0, 0, 0, 0, -1, 28];
      && Probabilities(ps) && WeightFrom(ps, 0) == Pow2(5)
      && Description(ps, 5) == BitsOf(0, 4) + (BitsOf(4, 5) + (BitsOf(1, 5) + (BitsOf(3, 2) + (BitsOf(2, 2)
           + (BitsOf(0, 4) + BitsOf(31, 5))))))
      && (rest != [] ==> ParseDescription(Description(ps, 5) + rest) == Some((ps, 5, 27)))
  {
    var ps := [3, 0, 0, 0, 0, 0, 0, -1, 28];
    ExampleWeights(ps);
    ExampleFields(ps);
    assert |Description(ps, 5)| == 27;
    if rest != [] {
      ExampleRead(ps, rest);
    }
  }

  lemma ExampleWeights(ps: seq<int>)
    requires ps == [3, 0, 0, 0, 0, 0, 0, -1, 28]
    ensures Probabilities(ps) && Pow2(5) == 32 && ZeroRun(ps, 2) == 5
    ensures WeightFrom(ps, 9) == 0 && WeightFrom(ps, 8) == 28 && WeightFrom(ps, 7) == 29
    ensures WeightFrom(ps, 1) == 29 && WeightFrom(ps, 0) == 32
    ensures EndOf(ps, 0) == 9
  {
    Pow2Values();
    assert WeightFrom(ps, 9) == 0;
    assert WeightFrom(ps, 8) == 28;
    assert WeightFrom(ps, 7) == 29;
    assert WeightFrom(ps, 6) == 29;
    assert WeightFrom(ps, 5) == 29;
    assert WeightFrom(ps, 4) == 29;
    assert WeightFrom(ps, 3) == 29;
    assert WeightFrom(ps, 2) == 29;
    assert WeightFrom(ps, 1) == 29;
    assert ZeroRun(ps, 7) == 0;
    assert ZeroRun(ps, 6) == 1;
    assert ZeroRun(ps, 5) == 2;
    assert ZeroRun(ps, 4) == 3;
    assert ZeroRun(ps, 3) == 4;
    NonZeroEnd(ps);
  }

  lemma NonZeroEnd(ps: seq<int>)
    requires |ps| > 0 && ps[|ps| - 1] != 0 && Probabilities(ps)
    ensures EndOf(ps, 0) == |ps|
  {
    hide EndOf;
    EndBehind(ps, 0);
  }

  /** Symbols that occur lie before the end. */
  lemma {:induction false} EndBehind(ps: seq<int>, i: nat)
    requires i < |ps| && ps[|ps| - 1] != 0 && Probabilities(ps)
    ensures WeightFrom(ps, i) > 0 && EndOf(ps, i) == |ps|
    decreases |ps| - i
  {
    assert WeightFrom(ps, |ps|) == 0;
    if i < |ps| - 1 {
      EndBehind(ps, i + 1);
    }
  }

  lemma ExampleFields(ps: seq<int>)
    requires ps == [3, 0, 0, 0, 0, 0, 0, -1, 28]
    requires Probabilities(ps) && Pow2(5) == 32 && ZeroRun(ps, 2) == 5
    requires WeightFrom(ps, 9) == 0 && WeightFrom(ps, 8) == 28 && WeightFrom(ps, 7) == 29
    requires WeightFrom(ps, 1) == 29 && WeightFrom(ps, 0) == 32
    ensures Described(ps, 0, 32) == BitsOf(4, 5) + (BitsOf(1, 5) + (BitsOf(3, 2) + (BitsOf(2, 2) + (BitsOf(0, 4) + BitsOf(31, 5)))))
  {
    hide BitsOf, Field, WeightFrom, ZeroRun, Pow2;
    Pow2Values();
    FieldIs(4, 32, 6);
    FieldIs(1, 29, 5);
    FieldIs(0, 29, 5);
    FieldIs(29, 28, 5);
    assert Described(ps, 9, 0) == [];
    assert Described(ps, 8, 28) == BitsOf(31, 5) + [];
    assert Described(ps, 8, 28) == BitsOf(31, 5);
    assert Described(ps, 7, 29) == BitsOf(0, 4) + BitsOf(31, 5);
    assert ZeroRunBits(5) == BitsOf(3, 2) + BitsOf(2, 2);
    assert Described(ps, 1, 29) == BitsOf(1, 5) + (ZeroRunBits(5) + Described(ps, 7, 29));
    Join3(BitsOf(3, 2), BitsOf(2, 2), Described(ps, 7, 29));
  }

  lemma ExampleRead(ps: seq<int>, rest: seq<bool>)
    requires Probabilities(ps) && Pow2(5) == 32 == WeightFrom(ps, 0) && EndOf(ps, 0) == |ps|
    requires rest != [] && |Description(ps, 5)| == 27
    ensures ParseDescription(Description(ps, 5) + rest) == Some((ps, 5, 27))
  {
    hide BitsOf, ValOf, Described, ReadFrom, WeightFrom, EndOf, Pow2;
    Pow2Values();
    var d := Described(ps, 0, 32);
    var b := BitsOf(0, 4) + d + rest;
    assert b == Description(ps, 5) + rest && b[0..4] == BitsOf(0, 4);
    ValOfSmall(0, 4);
    DescriptionRoundTrip(ps, 0, 32, BitsOf(0, 4), rest);
    assert ps[0..|ps|] == ps;
  }
}
