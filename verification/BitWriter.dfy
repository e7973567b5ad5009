/** The bit writer: full bytes in `output`, up to 63 pending bits in `partial`. */
module BitWriting {
  import opened Concatenation
  import opened Numbers
  import opened Bits

  /** How many bits are missing to fill the last byte. */
  function Misalignment(index: nat): (m: nat)
    ensures m < 8 && (index + m) % 8 == 0
  {
    if index % 8 == 0 then 0 else 8 - index % 8
  }

  // ----- arithmetic behind the operations -----

  lemma MergePartial(p: nat, k: nat, v: nat, n: nat)
    requires p < Pow2(k) && v < Pow2(n) && k + n < 64
    ensures Or(p, Shl64(v, k)) < Pow2(k + n)
    ensures BitsOf(Or(p, Shl64(v, k)), k + n) == BitsOf(p, k) + BitsOf(v, n)
  {
    hide Up, Or, BitsOf, Shl64;
    ShlFits(v, n, k);
    OrDisjoint(p, k, v);
    UpBound(p, v, n, k);
    BitsJoin(p, k, v, n);
  }

  lemma SpillPartial(p: nat, k: nat, v: nat)
    requires p < Pow2(k) && k < 64
    ensures BitsOf(Or(p, Shl64(v, k)), 64) == BitsOf(p, k) + BitsOf(v, 64 - k)
  {
    hide Up, Or, Low, BitsOf;
    var low := Low(v, 64 - k);
    LowUp(v, k, 64 - k);
    OrDisjoint(p, k, low);
    BitsJoin(p, k, low, 64 - k);
    BitsOfLow(v, 64 - k);
  }

  lemma OneByte(v: nat)
    ensures BytesToBits([v % 256]) == BitsOf(v, 8)
  {
    hide BitsOf, BytesToBits;
    SingleByte(v % 256);
    LowByte(v);
    BitsOfLow(v, 8);
  }

  lemma TakeByte(output: seq<byte>, v: nat, n: nat)
    requires v < Pow2(n) && n >= 8
    ensures BytesToBits(output + [v % 256]) + BitsOf(Shr(v, 8), n - 8) == BytesToBits(output) + BitsOf(v, n)
    ensures Shr(v, 8) < Pow2(n - 8)
  {
    hide BitsOf, BytesToBits, Shr;
    ShrBits(v, n, 8);
    OneByte(v);
    BytesAppend(output, [v % 256]);
    Join3(BytesToBits(output), BitsOf(v, 8), BitsOf(Shr(v, 8), n - 8));
  }

  lemma TakeWord(output: seq<byte>, p: nat, k: nat, v: nat, n: nat)
    requires p < Pow2(k) && k < 64 && v < Pow2(n) && k + n >= 64
    ensures var merged := Or(p, Shl64(v, k));
      BytesToBits(output + ToLeBytes(merged, 8)) + BitsOf(Shr(v, 64 - k), n - (64 - k))
      == BytesToBits(output) + BitsOf(p, k) + BitsOf(v, n)
    ensures Shr(v, 64 - k) < Pow2(n - (64 - k))
  {
    hide Or, BitsOf, BytesToBits, Shr, Shl64;
    var merged := Or(p, Shl64(v, k));
    SpillPartial(p, k, v);
    ToLeBytesBits(merged, 8);
    BytesAppend(output, ToLeBytes(merged, 8));
    ShrBits(v, n, 64 - k);
    Join3(BitsOf(p, k), BitsOf(v, 64 - k), BitsOf(Shr(v, 64 - k), n - (64 - k)));
    Join3(BytesToBits(output), BitsOf(p, k) + BitsOf(v, 64 - k), BitsOf(Shr(v, 64 - k), n - (64 - k)));
    Join3(BytesToBits(output), BitsOf(p, k), BitsOf(v, n));
  }

  // ----- patching bits in place -----

  /** `s` with the bits from position `p` on replaced by `v`. */
  ghost function Splice(s: seq<bool>, p: nat, v: seq<bool>): (r: seq<bool>)
    requires p + |v| <= |s|
    ensures |r| == |s|
  {
    s[..p] + v + s[p + |v|..]
  }

  lemma SpliceTwice(s: seq<bool>, p: nat, v: seq<bool>, d: nat, e: nat)
    requires p + |v| <= |s| && d + e <= |v|
    ensures Splice(Splice(s, p, v[..d]), p + d, v[d..d + e]) == Splice(s, p, v[..d + e])
  {
  }

  lemma ByteUpdate(bs: seq<byte>, i: nat, x: byte)
    requires i < |bs|
    ensures BytesToBits(bs[i := x]) == Splice(BytesToBits(bs), 8 * i, BitsOf(x, 8))
  {
    hide BytesToBits, BitsOf, Splice;
    var a, z := bs[..i], bs[i + 1..];
    UpdateParts(bs, i, x);
    BytesAppend(a, [bs[i]] + z);
    BytesAppend(a, [x] + z);
    BytesAppend([bs[i]], z);
    BytesAppend([x], z);
    SingleByte(x);
    SpliceConcat(BytesToBits(a), BytesToBits([bs[i]]), BitsOf(x, 8), BytesToBits(z), 8 * i);
  }

  lemma UpdateParts<T>(s: seq<T>, i: nat, x: T)
    requires i < |s|
    ensures s == s[..i] + ([s[i]] + s[i + 1..])
    ensures s[i := x] == s[..i] + ([x] + s[i + 1..])
  {
  }

  lemma SpliceConcat(a: seq<bool>, b: seq<bool>, v: seq<bool>, z: seq<bool>, p: nat)
    requires |b| == |v| && p == |a|
    ensures Splice(a + (b + z), p, v) == a + (v + z)
  {
  }

  /** Replacing one byte by one that differs only in bits `k..k + |v|`. */
  lemma PatchByte(bs: seq<byte>, i: nat, x: byte, k: nat, v: seq<bool>)
    requires i < |bs| && k + |v| <= 8
    requires BitsOf(x, 8) == Splice(BitsOf(bs[i], 8), k, v)
    ensures BytesToBits(bs[i := x]) == Splice(BytesToBits(bs), 8 * i + k, v)
  {
    hide BytesToBits, BitsOf, Splice;
    ByteUpdate(bs, i, x);
    ByteAt(bs, i);
    SpliceInner(BytesToBits(bs), 8 * i, BitsOf(bs[i], 8), k, v);
  }

  lemma SpliceInner(s: seq<bool>, p: nat, w: seq<bool>, k: nat, v: seq<bool>)
    requires p + |w| <= |s| && k + |v| <= |w| && s[p..p + |w|] == w
    ensures Splice(s, p, Splice(w, k, v)) == Splice(s, p + k, v)
  {
    var l, r := Splice(s, p, Splice(w, k, v)), Splice(s, p + k, v);
    assert forall i :: p <= i < p + |w| ==> s[i] == w[i - p];
    assert l == r;
  }

  lemma {:induction false} MaskShr(n: nat, f: nat)
    requires f <= n
    ensures Shr(Pow2(n) - 1, f) == Pow2(n - f) - 1
  {
    if f > 0 {
      var m := Pow2(n) - 1;
      assert m / 2 == Pow2(n - 1) - 1;
      MaskShr(n - 1, f - 1);
    }
  }

  lemma {:induction false} MaskUp(m: nat, n: nat)
    ensures Up(Pow2(m) - 1, n) == Pow2(m + n) - Pow2(n)
  {
    if n > 0 {
      MaskUp(m, n - 1);
    }
  }

  /** `x << n` on an 8-bit value. */
  function Shl8(x: nat, n: nat): nat {
    Low(Up(x, n), 8)
  }

  /** The new first byte: the low `k` bits are kept. */
  function HighByte(b: byte, v: nat, f: nat): nat
    requires f <= 8
  {
    Or(And(b, Shr(0xFF, f)), Shl64(v, 8 - f) % 256)
  }

  /** The new last byte: the high `8 - n` bits are kept. */
  function LowByteOf(b: byte, v: nat, n: nat): nat {
    Or(And(b, Shl8(0xFF, n)), v % 256)
  }

  lemma HighByteValue(b: byte, v: nat, k: nat, f: nat)
    requires k + f == 8
    ensures HighByte(b, v, f) == Low(b, k) + Up(Low(v, f), k)
  {
    hide And, Or, Low, Up, Shr;
    Pow2Values();
    hide Pow2;
    MaskShr(8, f);
    AndMask(b, k);
    LowByte(Shl64(v, k));
    LowLow(Up(v, k), 8, 56);
    LowUp(v, k, f);
    OrDisjoint(Low(b, k), k, Low(v, f));
  }

  /** The upper `f` bits of a byte are replaced, the lower ones kept. */
  lemma HighBits(b: byte, v: nat, k: nat, f: nat)
    requires k + f == 8
    ensures HighByte(b, v, f) < 256
    ensures BitsOf(HighByte(b, v, f), 8) == Splice(BitsOf(b, 8), k, BitsOf(v, f))
  {
    hide HighByte, Low, Up, Shr, BitsOf;
    HighByteValue(b, v, k, f);
    Pow2Values();
    UpBound(Low(b, k), Low(v, f), f, k);
    BitsJoin(Low(b, k), k, Low(v, f), f);
    BitsOfLow(b, k);
    BitsOfLow(v, f);
    BitsAppend(b, k, f);
  }

  lemma LowByteValue(b: byte, v: nat, n: nat)
    requires n <= 8 && v < Pow2(n)
    ensures LowByteOf(b, v, n) == v + Up(Shr(b, n), n)
  {
    hide And, Or, Low, Up, Shr;
    Pow2Values();
    Pow2Mono(n, 8);
    LowUp(0xFF, n, 8 - n);
    LowOfMask(8 - n, n);
    MaskUp(8 - n, n);
    AndHighMask(b, n, 8);
    assert v % 256 == v;
    OrDisjoint(v, n, Shr(b, n));
  }

  lemma {:induction false} LowOfMask(n: nat, k: nat)
    ensures Low(Pow2(n + k) - 1, n) == Pow2(n) - 1
  {
    if n > 0 {
      var m := Pow2(n + k) - 1;
      assert m % 2 == 1 && m / 2 == Pow2(n - 1 + k) - 1;
      LowOfMask(n - 1, k);
    }
  }

  /** The lower `n` bits of a byte are replaced, the upper ones kept. */
  lemma LowBits(b: byte, v: nat, n: nat)
    requires n <= 8 && v < Pow2(n)
    ensures LowByteOf(b, v, n) < 256
    ensures BitsOf(LowByteOf(b, v, n), 8) == Splice(BitsOf(b, 8), 0, BitsOf(v, n))
  {
    hide LowByteOf, Low, Up, Shr, BitsOf;
    LowByteValue(b, v, n);
    Pow2Values();
    ShrBits(b, 8, n);
    UpBound(v, Shr(b, n), 8 - n, n);
    BitsJoin(v, n, Shr(b, n), 8 - n);
  }

  /** `bs` is `before` with all but the last `left` bits of `all` patched in at
      `idx`; `rest` holds those last bits and `8 * pos` is where they go. */
  ghost predicate Patching(bs: seq<byte>, before: seq<bool>, idx: nat, all: seq<bool>, rest: nat, left: nat, pos: nat) {
    && left <= |all| && idx + |all| < |before|
    && (left > 0 ==> 8 * pos == idx + |all| - left)
    && 8 * |bs| == |before|
    && rest < Pow2(left)
    && BitsOf(rest, left) == all[|all| - left..]
    && BytesToBits(bs) == Splice(before, idx, all[..|all| - left])
  }

  lemma SplicePrefix(s: seq<bool>, p: nat, a: seq<bool>, z: seq<bool>)
    requires p + |a| + |z| <= |s|
    ensures (a + z)[..|a|] == a && (a + z)[|a|..] == z
    ensures Splice(s, p, (a + z)[..0]) == s
  {
    assert (a + z)[..0] == [];
  }

  lemma PatchAligned(bs: seq<byte>, idx: nat, pos: nat, v: nat, n: nat)
    requires idx + n < 8 * |bs| && v < Pow2(n) && idx == 8 * pos
    ensures Patching(bs, BytesToBits(bs), idx, BitsOf(v, n), v, n, pos)
  {
    hide Splice, BytesToBits, BitsOf;
    SplicePrefix(BytesToBits(bs), idx, [], BitsOf(v, n));
    assert [] + BitsOf(v, n) == BitsOf(v, n);
  }

  lemma PatchHigh(bs: seq<byte>, idx: nat, pos: nat, v: nat, n: nat, first: nat)
    requires idx + n < 8 * |bs| && v < Pow2(n) && first <= n
    requires 1 <= first < 8 && idx + first == 8 * pos + 8
    ensures pos < |bs|
    ensures var x := HighByte(bs[pos], v, first);
      x < 256 && Patching(bs[pos := x], BytesToBits(bs), idx, BitsOf(v, n), Shr(v, first), n - first, pos + 1)
  {
    hide HighByte, Splice, BytesToBits, BitsOf, Shr;
    var x := HighByte(bs[pos], v, first);
    HighBits(bs[pos], v, 8 - first, first);
    ShrBits(v, n, first);
    PatchByte(bs, pos, x, 8 - first, BitsOf(v, first));
    SplicePrefix(BytesToBits(bs), idx, BitsOf(v, first), BitsOf(Shr(v, first), n - first));
  }

  lemma PatchWhole(bs: seq<byte>, before: seq<bool>, idx: nat, all: seq<bool>, rest: nat, left: nat, pos: nat)
    requires Patching(bs, before, idx, all, rest, left, pos) && left >= 8
    ensures pos < |bs| && Patching(bs[pos := rest % 256], before, idx, all, Shr(rest, 8), left - 8, pos + 1)
  {
    hide Splice, BytesToBits, BitsOf, Shr, Low;
    var done := |all| - left;
    ShrBits(rest, left, 8);
    TailParts(all, done, BitsOf(rest, 8), BitsOf(Shr(rest, 8), left - 8));
    LowByte(rest);
    BitsOfLow(rest, 8);
    SpliceAll(BitsOf(bs[pos], 8), BitsOf(rest, 8));
    PatchByte(bs, pos, rest % 256, 0, BitsOf(rest, 8));
    SpliceTwice(before, idx, all, done, 8);
  }

  lemma TailParts(all: seq<bool>, done: nat, a: seq<bool>, z: seq<bool>)
    requires done <= |all| && all[done..] == a + z
    ensures all[done..done + |a|] == a && all[done + |a|..] == z
  {
    assert all == all[..done] + (a + z);
  }

  lemma SpliceAll(s: seq<bool>, v: seq<bool>)
    requires |v| == |s|
    ensures Splice(s, 0, v) == v
  {
  }

  lemma PatchLow(bs: seq<byte>, before: seq<bool>, idx: nat, all: seq<bool>, rest: nat, left: nat, pos: nat)
    requires Patching(bs, before, idx, all, rest, left, pos) && 0 < left < 8
    ensures pos < |bs|
    ensures var x := LowByteOf(bs[pos], rest, left);
      x < 256 && BytesToBits(bs[pos := x]) == Splice(before, idx, all)
  {
    hide LowByteOf, Splice, BytesToBits, BitsOf;
    var done := |all| - left;
    LowBits(bs[pos], rest, left);
    PatchByte(bs, pos, LowByteOf(bs[pos], rest, left), 0, BitsOf(rest, left));
    SpliceTwice(before, idx, all, done, left);
    assert all[..|all|] == all && all[done..done + left] == all[done..];
  }

  lemma PatchingDone(bs: seq<byte>, before: seq<bool>, idx: nat, all: seq<bool>, rest: nat, left: nat, pos: nat)
    requires Patching(bs, before, idx, all, rest, left, pos) && left == 0
    ensures 8 * |bs| == |before| && BytesToBits(bs) == Splice(before, idx, all)
  {
    hide Splice;
    assert all[..|all|] == all;
  }

  /** The in-place patch: a partial first byte, whole bytes, a partial last byte. */
  method PatchBytes(bytes: seq<byte>, idx: nat, bits: nat, numBits: nat) returns (bs: seq<byte>)
    requires bits < Pow2(numBits) && idx + numBits < 8 * |bytes|
    requires idx % 8 != 0 ==> 8 - idx % 8 <= numBits
    ensures |bs| == |bytes|
    ensures BytesToBits(bs) == Splice(BytesToBits(bytes), idx, BitsOf(bits, numBits))
  {
    hide HighByte, LowByteOf, Shr, Patching, Splice, BitsOf, BytesToBits;
    bs := bytes;
    ghost var before, all := BytesToBits(bytes), BitsOf(bits, numBits);
    var pos: nat, rest: nat, left: nat := idx / 8, bits, numBits;
    if idx % 8 != 0 {
      var first := 8 - idx % 8;
      PatchHigh(bs, idx, pos, rest, left, first);
      bs := bs[pos := HighByte(bs[pos], rest, first)];
      left := left - first;
      rest := Shr(rest, first);
      pos := pos + 1;
    } else {
      PatchAligned(bs, idx, pos, rest, left);
    }
    while left >= 8
      invariant Patching(bs, before, idx, all, rest, left, pos)
    {
      PatchWhole(bs, before, idx, all, rest, left, pos);
      bs := bs[pos := rest % 256];
      left := left - 8;
      rest := Shr(rest, 8);
      pos := pos + 1;
    }
    if left > 0 {
      PatchLow(bs, before, idx, all, rest, left, pos);
      bs := bs[pos := LowByteOf(bs[pos], rest, left)];
    } else {
      PatchingDone(bs, before, idx, all, rest, left, pos);
    }
  }

  class BitWriter {
    var output: seq<byte>
    var partial: nat
    var bitsInPartial: nat
    var bitIdx: nat

    ghost predicate Valid()
      reads this
    {
      && bitIdx == 8 * |output|
      && bitsInPartial < 64
      && partial < Pow2(bitsInPartial)
    }

    /** Everything written so far, as one bit string. */
    ghost function Contents(): (b: seq<bool>)
      reads this
    {
      BytesToBits(output) + BitsOf(partial, bitsInPartial)
    }

    constructor ()
      ensures Valid() && Contents() == []
    {
      output, partial, bitsInPartial, bitIdx := [], 0, 0, 0;
    }

    /** Continue an existing byte vector. */
    constructor From(bytes: seq<byte>)
      ensures Valid() && Contents() == BytesToBits(bytes)
    {
      output, partial, bitsInPartial, bitIdx := bytes, 0, 0, 8 * |bytes|;
    }

    /** On a byte border the partial word holds whole bytes. */
    lemma AlignedPartial()
      requires Valid() && |Contents()| % 8 == 0
      ensures bitsInPartial % 8 == 0
    {
    }

    function Index(): (i: nat)
      reads this
      ensures Valid() ==> i == |Contents()|
    {
      bitIdx + bitsInPartial
    }

    function Misaligned(): (m: nat)
      reads this
    {
      Misalignment(Index())
    }

    /** Append the low `numBits` bits of `bits`. A full 64-bit value needs a
        non-empty partial word. */
    method WriteBits(bits: nat, numBits: nat)
      requires Valid() && numBits <= 64 && bits < Pow2(numBits)
      requires numBits == 64 ==> bitsInPartial > 0
      modifies this
      ensures Valid()
      ensures Contents() == old(Contents()) + BitsOf(bits, numBits)
    {
      if numBits == 0 {
        return;
      }
      if numBits + bitsInPartial < 64 {
        hide Or, Shl64, BitsOf, BytesToBits;
        var part := Shl64(bits, bitsInPartial);
        MergePartial(partial, bitsInPartial, bits, numBits);
        partial := Or(partial, part);
        bitsInPartial := bitsInPartial + numBits;
      } else {
        WriteBitsCold(bits, numBits);
      }
    }

    /** The partial word overflows: spill it and keep fewer than eight bits. */
    method WriteBitsCold(bits: nat, numBits: nat)
      requires Valid() && numBits <= 64 && bits < Pow2(numBits)
      requires bitsInPartial + numBits >= 64
      requires numBits == 64 ==> bitsInPartial > 0
      modifies this
      ensures Valid()
      ensures Contents() == old(Contents()) + BitsOf(bits, numBits)
    {
      hide Or, Shl64, BitsOf, BytesToBits, Shr, And, Low;
      ghost var start, all := Contents(), BitsOf(bits, numBits);
      var free := 64 - bitsInPartial;
      var part := Shl64(bits, 64 - free);
      var merged := Or(partial, part);
      TakeWord(output, partial, bitsInPartial, bits, numBits);
      output := output + ToLeBytes(merged, 8);
      bitIdx := bitIdx + 64;
      partial := 0;
      bitsInPartial := 0;

      var left: nat := numBits - free;
      var rest: nat := Shr(bits, free);
      while left / 8 > 0
        invariant bitIdx == 8 * |output| && partial == 0 && bitsInPartial == 0
        invariant rest < Pow2(left)
        invariant BytesToBits(output) + BitsOf(rest, left) == start + all
      {
        TakeByte(output, rest, left);
        output := output + [rest % 256];
        left := left - 8;
        bitIdx := bitIdx + 8;
        rest := Shr(rest, 8);
      }
      if left > 0 {
        AndMask(rest, left);
        LowSmall(rest, left);
        partial := And(rest, Pow2(left) - 1);
        bitsInPartial := left;
      }
    }

    /** Move whole pending bytes to the output; the index does not change. */
    method Flush()
      requires Valid() && bitsInPartial % 8 == 0
      modifies this
      ensures Valid() && bitsInPartial == 0
      ensures Contents() == old(Contents()) && BytesToBits(output) == Contents()
    {
      hide BitsOf, BytesToBits, Shr, ToLeBytes;
      var full := bitsInPartial / 8;
      ToLeBytesBits(partial, full);
      BytesAppend(output, ToLeBytes(partial, full));
      output := output + ToLeBytes(partial, full);
      ShrBound(partial, bitsInPartial, full * 8);
      partial := Shr(partial, full * 8);
      bitsInPartial := bitsInPartial - full * 8;
      bitIdx := bitIdx + full * 8;
    }

    /** The finished byte vector; only possible on a byte border. */
    method Dump() returns (bytes: seq<byte>)
      requires Valid() && Misaligned() == 0
      modifies this
      ensures BytesToBits(bytes) == old(Contents())
    {
      hide BitsOf, BytesToBits;
      Flush();
      bytes := output;
    }

    method AppendBytes(data: seq<byte>)
      requires Valid() && Misaligned() == 0
      modifies this
      ensures Valid()
      ensures Contents() == old(Contents()) + BytesToBits(data)
    {
      hide BytesToBits;
      Flush();
      BytesAppend(output, data);
      output := output + data;
      bitIdx := bitIdx + |data| * 8;
    }

    /** Back to a byte aligned index. Complete bytes behind it are forgotten; an index
        that lies beyond them is filled up with zeros, since the partial word is
        forgotten too. */
    method ResetTo(index: nat)
      requires Valid() && index % 8 == 0
      modifies this
      ensures Valid() && Index() == index
      ensures index <= old(bitIdx) ==> Contents() == old(Contents())[..index]
      ensures index > old(bitIdx) ==> Contents() == old(Contents())[..old(bitIdx)] + Zeros(index - old(bitIdx))
    {
      hide BytesToBits, Zeros;
      var size := index / 8;
      ghost var before := BytesToBits(output);
      if size <= |output| {
        BytesSlice(output, 0, size);
        assert output[0..size] == output[..size];
        output := output[..size];
      } else {
        ZeroBytes(size - |output|);
        BytesAppend(output, seq(size - |output|, i => 0));
        output := output + seq(size - |output|, i => 0);
      }
      partial := 0;
      bitsInPartial := 0;
      bitIdx := index;
    }

    /** Overwrite `numBits` bits at `idx` in place. Nothing else changes: not
        the bits around the range, not the index. */
    method ChangeBits(idx: nat, bits: nat, numBits: nat)
      requires Valid() && bitsInPartial % 8 == 0
      requires numBits <= 64 && bits < Pow2(numBits)
      requires idx + numBits < Index()
      requires idx % 8 != 0 ==> 8 - idx % 8 <= numBits
      modifies this
      ensures Valid() && Index() == old(Index()) && bitsInPartial == 0
      ensures Contents() == Splice(old(Contents()), idx, BitsOf(bits, numBits))
    {
      Flush();
      output := PatchBytes(output, idx, bits, numBits);
    }
  }
}
