/** The table description: probabilities in fields of varying width, runs of
    zeros as two-bit counts. What is written can be read back, and whatever is
    read is a distribution. */
module FseDescription {
  import opened Concatenation
  import opened Numbers
  import opened Bits
  import opened Results
  import opened FseDistribution

  // ----- weights -----

  /** The number of cells a probability stands for. */
  function Weight(p: int): nat {
    if p == -1 then 1 else if p > 0 then p else 0
  }

  function WeightFrom(ps: seq<int>, i: nat): nat
    requires i <= |ps|
    decreases |ps| - i
  {
    if i == |ps| then 0 else Weight(ps[i]) + WeightFrom(ps, i + 1)
  }

  /** The position behind the last symbol that occurs, searching from `i`. */
  function EndOf(ps: seq<int>, i: nat): (n: nat)
    requires i <= |ps|
    ensures i <= n <= |ps| && (n == i <==> WeightFrom(ps, i) == 0)
    decreases |ps| - i
  {
    if WeightFrom(ps, i) == 0 then i else EndOf(ps, i + 1)
  }

  /** The number of zeros from position `i` on. */
  function ZeroRun(ps: seq<int>, i: nat): (z: nat)
    requires i <= |ps|
    ensures i + z <= |ps|
    ensures forall j :: i <= j < i + z ==> ps[j] == 0
    ensures WeightFrom(ps, i + z) == WeightFrom(ps, i)
    ensures i + z == |ps| || ps[i + z] != 0
    decreases |ps| - i
  {
    if i < |ps| && ps[i] == 0 then 1 + ZeroRun(ps, i + 1) else 0
  }

  // ----- one field -----

  /** Bits of a full-width field when `r` cells are still to be described. */
  function FieldWidth(r: nat): (w: nat)
    ensures w >= 1 && Pow2(w - 1) <= r + 1 < Pow2(w)
    ensures r >= 1 ==> w >= 2
  {
    Log2(r + 1) + 1
  }

  /** Values below this are written with one bit less. */
  function LowThreshold(r: nat): (t: nat)
    ensures t < Pow2(FieldWidth(r) - 1)
  {
    Pow2(FieldWidth(r)) - 1 - (r + 1)
  }

  function Field(value: nat, r: nat): (b: seq<bool>)
    ensures |b| <= FieldWidth(r)
  {
    var w, low := FieldWidth(r), LowThreshold(r);
    if value < low then BitsOf(value, w - 1)
    else if value > Pow2(w - 1) - 1 then BitsOf(value + low, w)
    else BitsOf(value, w)
  }

  /** Read a full-width field and give one bit back if it was a short one. */
  function ReadField(b: seq<bool>, pos: nat, r: nat): (v: Option<(nat, nat)>)
    requires pos <= |b| && r >= 1
    ensures v.Some? ==> v.value.0 <= r + 1 && pos < v.value.1 <= |b|
  {
    var w, low := FieldWidth(r), LowThreshold(r);
    if pos + w > |b| then
      None
    else
      var unchecked := ValOf(b[pos..pos + w]);
      var small := And(unchecked, Pow2(w - 1) - 1);
      ValBound(b[pos..pos + w]);
      if small < low then Some((small, pos + w - 1))
      else if unchecked > Pow2(w - 1) - 1 then
        SmallPart(unchecked, w);
        Some((unchecked - low, pos + w))
      else Some((unchecked, pos + w))
  }

  /** Masking off the top bit of a `w`-bit value. */
  lemma SmallPart(v: nat, w: nat)
    requires w >= 1 && v < Pow2(w)
    ensures And(v, Pow2(w - 1) - 1) == if v >= Pow2(w - 1) then v - Pow2(w - 1) else v
  {
    hide And, Low, Up;
    AndMask(v, w - 1);
    if v >= Pow2(w - 1) {
      UpOne(w - 1);
      JoinParts(v - Pow2(w - 1), 1, w - 1);
    } else {
      LowSmall(v, w - 1);
    }
  }

  lemma UpOne(n: nat)
    ensures Up(1, n) == Pow2(n)
  {
  }

  /** A field is read back, unless it is a short one and nothing follows. */
  lemma FieldBack(value: nat, r: nat, prefix: seq<bool>, rest: seq<bool>)
    requires 1 <= r && value <= r + 1
    ensures ReadField(prefix + Field(value, r) + rest, |prefix|, r)
      == if value < LowThreshold(r) && rest == [] then None else Some((value, |prefix| + |Field(value, r)|))
  {
    hide BitsOf, ValOf, And, FieldWidth, LowThreshold;
    var w, low, f := FieldWidth(r), LowThreshold(r), Field(value, r);
    var b, pos := prefix + f + rest, |prefix|;
    assert low == Pow2(w) - 1 - (r + 1) by { ThresholdIs(r); }
    assert Pow2(w) == 2 * Pow2(w - 1);
    if value < low {
      if rest != [] {
        var u := b[pos..pos + w];
        assert u == f + [rest[0]];
        ValConcat(f, [rest[0]]);
        ValOfSmall(value, w - 1);
        AndMask(ValOf(u), w - 1);
      }
    } else {
      var v := if value > Pow2(w - 1) - 1 then value + low else value;
      assert b[pos..pos + w] == f;
      ValOfSmall(v, w);
      SmallPart(v, w);
    }
  }

  lemma ThresholdIs(r: nat)
    ensures LowThreshold(r) == Pow2(FieldWidth(r)) - 1 - (r + 1)
  {
  }

  // ----- runs of zeros -----

  function ZeroRunBits(z: nat): seq<bool> {
    if z >= 3 then BitsOf(3, 2) + ZeroRunBits(z - 3) else BitsOf(z, 2)
  }

  function ReadZeros(b: seq<bool>, pos: nat): (z: Option<(nat, nat)>)
    requires pos <= |b|
    ensures z.Some? ==> pos < z.value.1 <= |b|
    decreases |b| - pos
  {
    if pos + 2 > |b| then None else
    var s := ValOf(b[pos..pos + 2]);
    if s != 3 then Some((s, pos + 2)) else
    var more := ReadZeros(b, pos + 2);
    if more.None? then None else Some((3 + more.value.0, more.value.1))
  }

  lemma {:induction false} ZerosBack(z: nat, prefix: seq<bool>, rest: seq<bool>)
    ensures ReadZeros(prefix + ZeroRunBits(z) + rest, |prefix|) == Some((z, |prefix| + |ZeroRunBits(z)|))
  {
    hide BitsOf, ValOf;
    Pow2Values();
    var b := prefix + ZeroRunBits(z) + rest;
    if z >= 3 {
      assert b[|prefix|..|prefix| + 2] == BitsOf(3, 2);
      ValOfSmall(3, 2);
      ZerosBack(z - 3, prefix + BitsOf(3, 2), rest);
      assert b == prefix + BitsOf(3, 2) + ZeroRunBits(z - 3) + rest;
    } else {
      assert b[|prefix|..|prefix| + 2] == BitsOf(z, 2);
      ValOfSmall(z, 2);
    }
  }

  // ----- the whole list -----

  ghost predicate Probabilities(ps: seq<int>) {
    forall i :: 0 <= i < |ps| ==> ps[i] >= -1
  }

  /** The fields from symbol `i` on; `r` cells are still to be described. */
  function Described(ps: seq<int>, i: nat, r: nat): seq<bool>
    requires i <= |ps| && r == WeightFrom(ps, i) && Probabilities(ps)
    decreases |ps| - i
  {
    if r == 0 then []
    else if ps[i] == 0 then
      var z := ZeroRun(ps, i + 1);
      Field(1, r) + (ZeroRunBits(z) + Described(ps, i + 1 + z, r))
    else
      Field(ps[i] + 1, r) + Described(ps, i + 1, r - Weight(ps[i]))
  }

  /** Read until all cells are accounted for. */
  function ReadFrom(b: seq<bool>, pos: nat, r: nat): (res: Option<(seq<int>, nat)>)
    requires pos <= |b|
    ensures res.Some? ==> pos <= res.value.1 <= |b|
    decreases |b| - pos
  {
    if r == 0 then Some(([], pos)) else
    var field := ReadField(b, pos, r);
    if field.None? then None else
    var prob, p1 := field.value.0 - 1, field.value.1;
    if prob == 0 then
      var zeros := ReadZeros(b, p1);
      if zeros.None? then None else
      var rest := ReadFrom(b, zeros.value.1, r);
      if rest.None? then None else Some(([0] + seq(zeros.value.0, i => 0) + rest.value.0, rest.value.1))
    else
      var rest := ReadFrom(b, p1, r - Weight(prob));
      if rest.None? then None else Some(([prob] + rest.value.0, rest.value.1))
  }

  /** The condition under which the last field can be read: it is not a short one,
      or a bit follows. */
  predicate Readable(ps: seq<int>, i: nat, suffix: seq<bool>)
    requires i <= |ps|
  {
    WeightFrom(ps, i) == 0 || ps[EndOf(ps, i) - 1] > 0 || suffix != []
  }

  /** What reading the description of `ps[i..]` has to give. */
  ghost function Outcome(ps: seq<int>, i: nat, pos: nat, suffix: seq<bool>): Option<(seq<int>, nat)>
    requires i <= |ps|
  {
    if Readable(ps, i, suffix) then Some((ps[i..EndOf(ps, i)], pos)) else None
  }

  /** The list is read back up to its last non-zero element, and all its bits are
      consumed, exactly if the last field is readable. */
  lemma {:induction false} DescriptionRoundTrip(ps: seq<int>, i: nat, r: nat, prefix: seq<bool>, suffix: seq<bool>)
    requires i <= |ps| && r == WeightFrom(ps, i) && Probabilities(ps)
    ensures ReadFrom(prefix + Described(ps, i, r) + suffix, |prefix|, r)
      == Outcome(ps, i, |prefix| + |Described(ps, i, r)|, suffix)
    decreases |ps| - i, 1
  {
    hide ReadField, Field, ReadZeros, ZeroRunBits, LowThreshold;
    if r == 0 {
      assert ps[i..EndOf(ps, i)] == [];
    } else if ps[i] == 0 {
      ZeroStep(ps, i, r, prefix, suffix);
    } else {
      ValueStep(ps, i, r, prefix, suffix);
    }
  }

  lemma ValueStep(ps: seq<int>, i: nat, r: nat, prefix: seq<bool>, suffix: seq<bool>)
    requires i < |ps| && r == WeightFrom(ps, i) > 0 && Probabilities(ps) && ps[i] != 0
    ensures ReadFrom(prefix + Described(ps, i, r) + suffix, |prefix|, r)
      == Outcome(ps, i, |prefix| + |Described(ps, i, r)|, suffix)
    decreases |ps| - i, 0
  {
    hide ReadField, Field, ReadFrom, Described, LowThreshold, FieldWidth;
    var f, r' := Field(ps[i] + 1, r), r - Weight(ps[i]);
    var rest := Described(ps, i + 1, r');
    DescribedValue(ps, i, r);
    var b := prefix + (f + rest) + suffix;
    FieldBack(ps[i] + 1, r, prefix, rest + suffix);
    Join4(prefix, f, rest, suffix);
    EmptyTogether(rest, suffix);
    DescriptionRoundTrip(ps, i + 1, r', prefix + f, suffix);
    ShortOnlyLast(ps, i, r);
    DescribedEmpty(ps, i + 1, r');
    EndStep(ps, i);
    ReadValueStep(b, |prefix|, r);
  }

  lemma EmptyTogether<T>(d: seq<T>, s: seq<T>)
    ensures d + s == [] <==> d == [] && s == []
  {
  }

  lemma DescribedValue(ps: seq<int>, i: nat, r: nat)
    requires i < |ps| && r == WeightFrom(ps, i) > 0 && Probabilities(ps) && ps[i] != 0
    ensures Described(ps, i, r) == Field(ps[i] + 1, r) + Described(ps, i + 1, r - Weight(ps[i]))
  {
    hide Field;
  }

  lemma ReadValueStep(b: seq<bool>, pos: nat, r: nat)
    requires pos <= |b| && r > 0
    ensures var field := ReadField(b, pos, r);
      if field.None? then ReadFrom(b, pos, r) == None else
      var prob, p1 := field.value.0 - 1, field.value.1;
      prob != 0 && Weight(prob) <= r ==>
        var rest := ReadFrom(b, p1, r - Weight(prob));
        ReadFrom(b, pos, r) == if rest.None? then None else Some(([prob] + rest.value.0, rest.value.1))
  {
    hide ReadField, ReadZeros;
  }

  lemma ReadZeroStep(b: seq<bool>, pos: nat, r: nat, p1: nat, z: nat, p2: nat)
    requires pos <= |b| && r > 0 && ReadField(b, pos, r) == Some((1, p1)) && p1 <= |b|
    requires ReadZeros(b, p1) == Some((z, p2)) && p2 <= |b|
    ensures var rest := ReadFrom(b, p2, r);
      ReadFrom(b, pos, r) == if rest.None? then None else Some(([0] + seq(z, i => 0) + rest.value.0, rest.value.1))
  {
    hide ReadField, ReadZeros;
  }

  lemma DescribedZero(ps: seq<int>, i: nat, r: nat)
    requires i < |ps| && r == WeightFrom(ps, i) > 0 && Probabilities(ps) && ps[i] == 0
    ensures var z := ZeroRun(ps, i + 1);
      Described(ps, i, r) == Field(1, r) + (ZeroRunBits(z) + Described(ps, i + 1 + z, r))
  {
    hide Field, ZeroRunBits;
  }

  lemma ZeroStep(ps: seq<int>, i: nat, r: nat, prefix: seq<bool>, suffix: seq<bool>)
    requires i < |ps| && r == WeightFrom(ps, i) > 0 && Probabilities(ps) && ps[i] == 0
    ensures ReadFrom(prefix + Described(ps, i, r) + suffix, |prefix|, r)
      == Outcome(ps, i, |prefix| + |Described(ps, i, r)|, suffix)
    decreases |ps| - i, 0
  {
    hide ReadField, Field, ReadZeros, ZeroRunBits, LowThreshold, ReadFrom, Described, Outcome;
    var z := ZeroRun(ps, i + 1);
    var f, zs, rest := Field(1, r), ZeroRunBits(z), Described(ps, i + 1 + z, r);
    DescribedZero(ps, i, r);
    var b := prefix + (f + (zs + rest)) + suffix;
    Join5(prefix, f, zs, rest, suffix);
    ZeroBitsNonEmpty(z);
    FieldBack(1, r, prefix, zs + (rest + suffix));
    ZerosBack(z, prefix + f, rest + suffix);
    DescriptionRoundTrip(ps, i + 1 + z, r, prefix + f + zs, suffix);
    OutcomeSkip(ps, i, z, |prefix| + |f| + |zs| + |rest|, suffix);
    ReadZeroStep(b, |prefix|, r, |prefix| + |f|, z, |prefix| + |f| + |zs|);
  }

  lemma ZeroBitsNonEmpty(z: nat)
    ensures |ZeroRunBits(z)| > 0
  {
  }

  /** A short field that ends the description is the field of a -1. */
  lemma ShortOnlyLast(ps: seq<int>, i: nat, r: nat)
    requires i < |ps| && r == WeightFrom(ps, i) > 0 && Probabilities(ps) && ps[i] != 0
    ensures Weight(ps[i]) == r ==> (ps[i] + 1 < LowThreshold(r) <==> ps[i] == -1)
  {
    if r == 1 {
      Pow2Values();
      Log2Unique(2, 1);
    }
  }

  lemma DescribedEmpty(ps: seq<int>, i: nat, r: nat)
    requires i <= |ps| && r == WeightFrom(ps, i) && Probabilities(ps)
    ensures Described(ps, i, r) == [] <==> r == 0
  {
    hide BitsOf;
    if r > 0 {
      ZeroBitsNonEmpty(ZeroRun(ps, i + 1));
    }
  }

  lemma EndStep(ps: seq<int>, i: nat)
    requires i < |ps| && ps[i] != 0 && WeightFrom(ps, i) > 0
    ensures EndOf(ps, i) == EndOf(ps, i + 1)
    ensures ps[i..EndOf(ps, i)] == [ps[i]] + ps[i + 1..EndOf(ps, i + 1)]
    ensures WeightFrom(ps, i + 1) == 0 ==> EndOf(ps, i) == i + 1
  {
  }

  lemma {:induction false} EndZeros(ps: seq<int>, i: nat, z: nat)
    requires i + z <= |ps| && WeightFrom(ps, i + z) > 0 && forall j :: i <= j < i + z ==> ps[j] == 0
    ensures WeightFrom(ps, i) == WeightFrom(ps, i + z) && EndOf(ps, i) == EndOf(ps, i + z)
    decreases z
  {
    if z > 0 {
      EndZeros(ps, i + 1, z - 1);
    }
  }

  lemma EndSkip(ps: seq<int>, i: nat, z: nat)
    requires i < |ps| && ps[i] == 0 && WeightFrom(ps, i) > 0 && z == ZeroRun(ps, i + 1)
    ensures EndOf(ps, i) == EndOf(ps, i + 1 + z) && WeightFrom(ps, i) == WeightFrom(ps, i + 1 + z)
    ensures ps[i..EndOf(ps, i)] == [0] + seq(z, j => 0) + ps[i + 1 + z..EndOf(ps, i + 1 + z)]
  {
    hide EndOf;
    EndZeros(ps, i, z + 1);
    ZerosInFront(ps, i, z, EndOf(ps, i));
  }

  lemma ZerosInFront(ps: seq<int>, i: nat, z: nat, n: nat)
    requires i + 1 + z <= n <= |ps| && forall j :: i <= j < i + 1 + z ==> ps[j] == 0
    ensures ps[i..n] == [0] + seq(z, j => 0) + ps[i + 1 + z..n]
  {
    var s, t := ps[i..n], [0] + seq(z, j => 0) + ps[i + 1 + z..n];
    forall j | 0 <= j < n - i
      ensures s[j] == t[j]
    {
      assert s[j] == ps[i + j];
    }
  }

  lemma OutcomeSkip(ps: seq<int>, i: nat, z: nat, pos: nat, suffix: seq<bool>)
    requires i < |ps| && ps[i] == 0 && WeightFrom(ps, i) > 0 && z == ZeroRun(ps, i + 1)
    ensures var rest := Outcome(ps, i + 1 + z, pos, suffix);
      Outcome(ps, i, pos, suffix) == if rest.None? then None else Some(([0] + seq(z, j => 0) + rest.value.0, rest.value.1))
  {
    EndSkip(ps, i, z);
  }

  // ----- everything readable is a distribution -----

  lemma WeightAppend(a: seq<int>, b: seq<int>, i: nat)
    requires i <= |a|
    ensures WeightFrom(a + b, i) == WeightFrom(a, i) + WeightFrom(b, 0)
    decreases |a| - i
  {
    if i == |a| {
      WeightShift(a, b, 0);
    } else {
      WeightAppend(a, b, i + 1);
    }
  }

  lemma {:induction false} WeightShift(a: seq<int>, b: seq<int>, i: nat)
    requires i <= |b|
    ensures WeightFrom(a + b, |a| + i) == WeightFrom(b, i)
    decreases |b| - i
  {
    if i < |b| {
      WeightShift(a, b, i + 1);
    }
  }

  lemma {:induction false} WeightZeros(z: nat, i: nat)
    requires i <= z
    ensures WeightFrom(seq(z, j => 0), i) == 0
    decreases z - i
  {
    if i < z {
      WeightZeros(z, i + 1);
    }
  }

  /** Whatever bits are read: the probabilities are at least -1 and stand for
      exactly the requested number of cells, never for more. */
  lemma {:induction false} ReadIsDistribution(b: seq<bool>, pos: nat, r: nat)
    requires pos <= |b|
    ensures var res := ReadFrom(b, pos, r);
      res.Some? ==> Probabilities(res.value.0) && WeightFrom(res.value.0, 0) == r
    decreases |b| - pos
  {
    hide ReadField, ReadZeros;
    var field := ReadField(b, pos, if r == 0 then 1 else r);
    if r > 0 && field.Some? {
      var v: int, p1: nat := field.value.0, field.value.1;
      var prob := v - 1;
      if prob == 0 {
        var zeros := ReadZeros(b, p1);
        if zeros.Some? {
          ReadIsDistribution(b, zeros.value.1, r);
          var rest := ReadFrom(b, zeros.value.1, r);
          if rest.Some? {
            var z := seq(zeros.value.0, i => 0);
            WeightZeros(zeros.value.0, 0);
            WeightAppend([0], z, 0);
            WeightAppend([0] + z, rest.value.0, 0);
          }
        }
      } else {
        ReadIsDistribution(b, p1, r - Weight(prob));
        var rest := ReadFrom(b, p1, r - Weight(prob));
        if rest.Some? {
          WeightAppend([prob], rest.value.0, 0);
        }
      }
    }
  }

  /** Weights are the cells counted by the table builders. */
  lemma {:induction false} WeightIsCells(ps: seq<int>, s: nat)
    requires s <= |ps|
    ensures WeightFrom(ps, 0) == Before(ps, s) + NegBefore(ps, s) + WeightFrom(ps, s)
  {
    if s > 0 {
      WeightIsCells(ps, s - 1);
    }
  }

  lemma WeightIsValid(ps: seq<int>, k: nat)
    requires 4 <= k && |ps| <= 256 && Probabilities(ps) && WeightFrom(ps, 0) == Pow2(k)
    ensures ValidProbs(ps, k)
  {
    WeightIsCells(ps, |ps|);
  }

  lemma ValidIsWeight(ps: seq<int>, k: nat)
    requires ValidProbs(ps, k)
    ensures Probabilities(ps) && WeightFrom(ps, 0) == Pow2(k)
  {
    WeightIsCells(ps, |ps|);
  }
}
