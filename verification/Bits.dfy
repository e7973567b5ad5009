/** Bit strings, least significant bit first, and their numeric values.
    Every reader and writer of the codec is specified against these. */
module Bits {
  import opened Numbers

  type byte = x: int | 0 <= x < 256

  /** The number a bit string denotes; the first bit is the least significant. */
  function ValOf(b: seq<bool>): nat {
    if |b| == 0 then 0 else (if b[0] then 1 else 0) + 2 * ValOf(b[1..])
  }

  /** The low `n` bits of `v`. */
  function BitsOf(v: nat, n: nat): (b: seq<bool>)
    ensures |b| == n
  {
    if n == 0 then [] else [v % 2 == 1] + BitsOf(v / 2, n - 1)
  }

  lemma ValBound(b: seq<bool>)
    ensures ValOf(b) < Pow2(|b|)
  {
  }

  /** Reading back `n` written bits yields the low `n` bits of the value. */
  lemma {:induction false} ValOfBitsOf(v: nat, n: nat)
    ensures ValOf(BitsOf(v, n)) == Low(v, n)
  {
    if n > 0 {
      ValOfBitsOf(v / 2, n - 1);
      assert BitsOf(v, n)[1..] == BitsOf(v / 2, n - 1);
    }
  }

  lemma ValOfSmall(v: nat, n: nat)
    requires v < Pow2(n)
    ensures ValOf(BitsOf(v, n)) == v
  {
    ValOfBitsOf(v, n);
    LowSmall(v, n);
  }

  lemma {:induction false} ValAppend(a: seq<bool>, b: seq<bool>)
    ensures ValOf(a + b) == ValOf(a) + Up(ValOf(b), |a|)
  {
    if |a| == 0 {
      assert a + b == b;
    } else {
      assert (a + b)[1..] == a[1..] + b;
      ValAppend(a[1..], b);
    }
  }

  lemma ValConcat(lo: seq<bool>, hi: seq<bool>)
    ensures Low(ValOf(lo + hi), |lo|) == ValOf(lo)
    ensures Shr(ValOf(lo + hi), |lo|) == ValOf(hi)
  {
    hide ValOf, Low, Shr, Up;
    ValAppend(lo, hi);
    ValBound(lo);
    JoinParts(ValOf(lo), ValOf(hi), |lo|);
  }

  lemma ValSplit(b: seq<bool>, i: nat)
    requires i <= |b|
    ensures ValOf(b[..i]) == Low(ValOf(b), i)
    ensures ValOf(b[i..]) == Shr(ValOf(b), i)
  {
    hide ValOf, Low, Shr;
    assert b == b[..i] + b[i..];
    ValConcat(b[..i], b[i..]);
  }

  /** Shifting right and masking selects a slice. */
  lemma ValSlice(b: seq<bool>, i: nat, j: nat)
    requires i <= j <= |b|
    ensures ValOf(b[i..j]) == Low(Shr(ValOf(b), i), j - i)
  {
    hide ValOf, Low, Shr;
    ValSplit(b, i);
    ValSplit(b[i..], j - i);
    assert b[i..][..j - i] == b[i..j];
  }

  lemma {:induction false} BitsAppend(v: nat, m: nat, n: nat)
    ensures BitsOf(v, m + n) == BitsOf(v, m) + BitsOf(Shr(v, m), n)
  {
    if m > 0 {
      BitsAppend(v / 2, m - 1, n);
    }
  }

  lemma {:induction false} BitsOfLow(v: nat, n: nat)
    ensures BitsOf(Low(v, n), n) == BitsOf(v, n)
  {
    if n > 0 {
      BitsOfLow(v / 2, n - 1);
      var x := Low(v / 2, n - 1);
      assert (v % 2 + 2 * x) / 2 == x;
    }
  }

  /** Dropping the low `f` bits. */
  lemma ShrBits(v: nat, n: nat, f: nat)
    requires v < Pow2(n) && f <= n
    ensures BitsOf(v, n) == BitsOf(v, f) + BitsOf(Shr(v, f), n - f)
    ensures Shr(v, f) < Pow2(n - f)
  {
    hide BitsOf, Shr;
    BitsAppend(v, f, n - f);
    ShrBound(v, n, f);
  }

  /** Adding `hi` above `n` bits of `lo` appends the bits of `hi`. */
  lemma BitsJoin(lo: nat, n: nat, hi: nat, m: nat)
    requires lo < Pow2(n)
    ensures BitsOf(lo + Up(hi, n), n + m) == BitsOf(lo, n) + BitsOf(hi, m)
  {
    hide BitsOf, Low, Shr, Up;
    var v := lo + Up(hi, n);
    JoinParts(lo, hi, n);
    BitsAppend(v, n, m);
    BitsOfLow(v, n);
  }

  // ----- bytes -----

  function BytesToBits(bs: seq<byte>): (b: seq<bool>)
    ensures |b| == 8 * |bs|
  {
    if |bs| == 0 then [] else BitsOf(bs[0], 8) + BytesToBits(bs[1..])
  }

  /** Bit `j` of byte `i`, counted from the least significant one, stands at `8 * i + j`. */
  lemma {:induction false} BitOfByte(bs: seq<byte>, i: nat, j: nat)
    requires i < |bs| && j < 8
    ensures BytesToBits(bs)[8 * i + j] <==> bs[i] as int / Pow2(j) % 2 == 1
  {
    if i > 0 {
      BitOfByte(bs[1..], i - 1, j);
    } else {
      BitOfValue(bs[0], 8, j);
    }
  }

  lemma {:induction false} BitOfValue(v: nat, n: nat, j: nat)
    requires j < n
    ensures BitsOf(v, n)[j] <==> v / Pow2(j) % 2 == 1
  {
    if j > 0 {
      BitOfValue(v / 2, n - 1, j - 1);
      DivDiv(v, 2, Pow2(j - 1));
    }
  }

  lemma {:induction false} BytesAppend(a: seq<byte>, b: seq<byte>)
    ensures BytesToBits(a + b) == BytesToBits(a) + BytesToBits(b)
  {
    hide BitsOf;
    if |a| == 0 {
      assert a + b == b;
    } else {
      assert (a + b)[1..] == a[1..] + b;
      BytesAppend(a[1..], b);
    }
  }

  lemma SliceMiddle<T>(s: seq<T>, x: seq<T>, y: seq<T>, z: seq<T>, i: nat, j: nat)
    requires s == x + (y + z) && i == |x| && j == i + |y|
    ensures s[i..j] == y
  {
  }

  lemma ThreeParts<T>(s: seq<T>, i: nat, j: nat)
    requires i <= j <= |s|
    ensures s == s[..i] + (s[i..j] + s[j..])
  {
    assert s[i..] == s[i..j] + s[j..];
    assert s == s[..i] + s[i..];
  }

  lemma BytesSlice(bs: seq<byte>, i: nat, j: nat)
    requires i <= j <= |bs|
    ensures BytesToBits(bs)[8 * i..8 * j] == BytesToBits(bs[i..j])
  {
    hide BytesToBits;
    var a, m, z := bs[..i], bs[i..j], bs[j..];
    ThreeParts(bs, i, j);
    BytesAppend(a, m + z);
    BytesAppend(m, z);
    SliceMiddle(BytesToBits(bs), BytesToBits(a), BytesToBits(m), BytesToBits(z), 8 * i, 8 * j);
  }

  lemma SingleByte(x: byte)
    ensures BytesToBits([x]) == BitsOf(x, 8)
  {
    hide BitsOf;
    assert [x][1..] == [];
    assert BytesToBits([x]) == BitsOf(x, 8) + BytesToBits([x][1..]);
  }

  lemma ByteAt(bs: seq<byte>, i: nat)
    requires i < |bs|
    ensures BytesToBits(bs)[8 * i..8 * i + 8] == BitsOf(bs[i], 8)
  {
    hide BytesToBits, BitsOf;
    BytesSlice(bs, i, i + 1);
    assert bs[i..i + 1] == [bs[i]];
    SingleByte(bs[i]);
  }

  lemma {:induction false} BytesInjective(a: seq<byte>, b: seq<byte>)
    requires BytesToBits(a) == BytesToBits(b)
    ensures a == b
  {
    hide BytesToBits, BitsOf;
    if |a| > 0 {
      ByteAt(a, 0);
      ByteAt(b, 0);
      Pow2Values();
      ValOfSmall(a[0], 8);
      ValOfSmall(b[0], 8);
      BytesSlice(a, 1, |a|);
      BytesSlice(b, 1, |b|);
      assert a[1..|a|] == a[1..] && b[1..|b|] == b[1..];
      BytesInjective(a[1..], b[1..]);
    }
  }

  /** Bytes that begin with `n` bytes' worth of bits split behind them. */
  lemma SplitBytes(bytes: seq<byte>, a: seq<bool>, b: seq<bool>, n: nat)
    requires BytesToBits(bytes) == a + b && |a| == 8 * n
    ensures n <= |bytes| && BytesToBits(bytes[..n]) == a && BytesToBits(bytes[n..]) == b
  {
    hide BytesToBits;
    LongEnough(|bytes|, |a|, |b|, n);
    BytesSlice(bytes, 0, n);
    BytesSlice(bytes, n, |bytes|);
    assert bytes[0..n] == bytes[..n] && bytes[n..|bytes|] == bytes[n..];
    assert (a + b)[0..8 * n] == a && (a + b)[8 * n..] == b;
  }

  lemma LongEnough(len: nat, a: nat, b: nat, n: nat)
    requires 8 * len == a + b && a == 8 * n
    ensures n <= len
  {
  }

  /** `u64::from_le_bytes` for any number of bytes. */
  function FromLeBytes(bs: seq<byte>): nat {
    if |bs| == 0 then 0 else bs[0] + 256 * FromLeBytes(bs[1..])
  }

  lemma Up8(v: nat)
    ensures Up(v, 8) == 256 * v
  {
    UpIsProduct(v, 8);
    Pow2Values();
  }

  lemma {:induction false} FromLeBytesIsVal(bs: seq<byte>)
    ensures FromLeBytes(bs) == ValOf(BytesToBits(bs))
  {
    hide ValOf, BitsOf, Up;
    if |bs| > 0 {
      FromLeBytesIsVal(bs[1..]);
      ValAppend(BitsOf(bs[0], 8), BytesToBits(bs[1..]));
      Pow2Values();
      ValOfSmall(bs[0], 8);
      Up8(ValOf(BytesToBits(bs[1..])));
    } else {
      assert ValOf([]) == 0 by { ValBound([]); }
    }
  }

  /** `u64::to_le_bytes`, truncated to `n` bytes. */
  function ToLeBytes(v: nat, n: nat): (bs: seq<byte>)
    ensures |bs| == n
  {
    if n == 0 then [] else [v % 256] + ToLeBytes(v / 256, n - 1)
  }

  lemma LowByte(v: nat)
    ensures Low(v, 8) == v % 256 && Shr(v, 8) == v / 256
  {
    ShrIsQuotient(v, 8);
    Pow2Values();
  }

  lemma {:induction false} ToLeBytesBits(v: nat, n: nat)
    ensures BytesToBits(ToLeBytes(v, n)) == BitsOf(v, 8 * n)
  {
    hide BitsOf, Low, Shr;
    if n > 0 {
      ToLeBytesBits(v / 256, n - 1);
      LowByte(v);
      BitsAppend(v, 8, 8 * (n - 1));
      BitsOfLow(v, 8);
      assert ToLeBytes(v, n)[1..] == ToLeBytes(v / 256, n - 1);
    } else {
      assert BitsOf(v, 0) == [];
    }
  }

  // ----- reading past the beginning -----

  function Zeros(n: nat): (z: seq<bool>)
    ensures |z| == n && forall i :: 0 <= i < n ==> !z[i]
  {
    seq(n, i => false)
  }

  lemma ZerosVal(n: nat)
    ensures ValOf(Zeros(n)) == 0
  {
    if n > 0 {
      assert Zeros(n)[1..] == Zeros(n - 1);
      ZerosVal(n - 1);
    }
  }

  lemma {:induction false} ZeroBytes(n: nat)
    ensures BytesToBits(seq(n, i => 0)) == Zeros(8 * n)
  {
    hide BitsOf;
    if n > 0 {
      ZeroBytes(n - 1);
      assert seq(n, i => 0)[1..] == seq(n - 1, i => 0);
      ZeroBits(8);
    }
  }

  lemma {:induction false} ZeroBits(n: nat)
    ensures BitsOf(0, n) == Zeros(n)
  {
    if n > 0 {
      ZeroBits(n - 1);
    }
  }

  /** Bits `lo..hi` of `b`, where every position outside `b` holds a zero. */
  function Window(b: seq<bool>, lo: int, hi: int): (w: seq<bool>)
    requires lo <= hi
    ensures |w| == hi - lo
    ensures forall i :: 0 <= i < hi - lo ==> w[i] == (0 <= lo + i < |b| && b[lo + i])
  {
    seq(hi - lo, i requires 0 <= i < hi - lo => 0 <= lo + i < |b| && b[lo + i])
  }

  lemma WindowInside(b: seq<bool>, lo: int, hi: int)
    requires 0 <= lo <= hi <= |b|
    ensures Window(b, lo, hi) == b[lo..hi]
  {
  }

  lemma WindowSplit(b: seq<bool>, lo: int, mid: int, hi: int)
    requires lo <= mid <= hi
    ensures Window(b, lo, hi) == Window(b, lo, mid) + Window(b, mid, hi)
  {
  }

  /** What a backward reader standing at position `pos` gets for `n` bits. */
  function ReadBack(b: seq<bool>, pos: int, n: nat): nat {
    ValOf(Window(b, pos - n, pos))
  }

  lemma ReadBackBound(b: seq<bool>, pos: int, n: nat)
    ensures ReadBack(b, pos, n) < Pow2(n)
  {
    ValBound(Window(b, pos - n, pos));
  }

  /** A field is read back from its end. */
  lemma FieldRead(a: seq<bool>, f: seq<bool>, rest: seq<bool>)
    ensures ReadBack(a + f + rest, |a| + |f|, |f|) == ValOf(f) < Pow2(|f|)
  {
    hide ValOf, Pow2;
    WindowInside(a + f + rest, |a|, |a| + |f|);
    assert (a + f + rest)[|a|..|a| + |f|] == f;
    ValBound(f);
  }

  /** The value written last is the first one read back. */
  lemma ReadBackLast(a: seq<bool>, v: nat, n: nat, rest: seq<bool>)
    requires v < Pow2(n)
    ensures ReadBack(a + BitsOf(v, n) + rest, |a| + n, n) == v
  {
    hide BitsOf, ValOf;
    var s := a + BitsOf(v, n) + rest;
    WindowInside(s, |a|, |a| + n);
    assert s[|a|..|a| + n] == BitsOf(v, n);
    ValOfSmall(v, n);
  }

  // ----- bitwise operators -----

  function Or(a: nat, b: nat): nat
    decreases a + b
  {
    if a == 0 && b == 0 then 0
    else (if a % 2 == 1 || b % 2 == 1 then 1 else 0) + 2 * Or(a / 2, b / 2)
  }

  function And(a: nat, b: nat): nat
    decreases a + b
  {
    if a == 0 || b == 0 then 0
    else (if a % 2 == 1 && b % 2 == 1 then 1 else 0) + 2 * And(a / 2, b / 2)
  }

  lemma OrZero(a: nat)
    ensures Or(a, 0) == a && Or(0, a) == a
  {
  }

  /** Or of values with no common bit positions is addition. */
  lemma {:induction false} OrDisjoint(a: nat, k: nat, b: nat)
    requires a < Pow2(k)
    ensures Or(a, Up(b, k)) == a + Up(b, k)
    ensures Or(Up(b, k), a) == a + Up(b, k)
  {
    if k == 0 {
      OrZero(b);
    } else {
      var x := Up(b, k - 1);
      OrDisjoint(a / 2, k - 1, b);
      assert (2 * x) / 2 == x;
    }
  }

  lemma {:induction false} AndMask(a: nat, n: nat)
    ensures And(a, Pow2(n) - 1) == Low(a, n)
  {
    if n > 0 {
      AndMask(a / 2, n - 1);
      var m := Pow2(n) - 1;
      assert m % 2 == 1 && m / 2 == Pow2(n - 1) - 1;
      if a == 0 {
        LowSmall(0, n);
      }
    }
  }

  /** A mask of `k` bits that clears the low `n`. */
  lemma {:induction false} AndHighMask(a: nat, n: nat, k: nat)
    requires n <= k && a < Pow2(k)
    ensures Pow2(k) - Pow2(n) >= 0
    ensures And(a, Pow2(k) - Pow2(n)) == Up(Shr(a, n), n)
  {
    Pow2Mono(n, k);
    if n == 0 {
      AndMask(a, k);
      LowSmall(a, k);
    } else {
      AndHighMask(a / 2, n - 1, k - 1);
      var m := Pow2(k - 1) - Pow2(n - 1);
      assert (2 * m) / 2 == m;
      if m == 0 {
        Pow2Injective(n, k);
        LowSmall(a, n);
        UpZero(n);
      } else if a == 0 {
        LowSmall(0, n);
        UpZero(n);
      }
    }
  }

  // ----- 64-bit words -----

  /** `x << n` on a 64-bit word: the bits pushed out at the top are lost. */
  function Shl64(x: nat, n: nat): nat {
    Low(Up(x, n), 64)
  }

  /** Shifting into free bits loses nothing. */
  lemma ShlFits(v: nat, n: nat, k: nat)
    requires v < Pow2(n) && k + n <= 64
    ensures Shl64(v, k) == Up(v, k)
  {
    hide Up, Low;
    UpBound(0, v, n, k);
    Pow2Mono(k + n, 64);
    LowSmall(Up(v, k), 64);
  }
}
