/** The forward bit reader: fields are read from the first byte on, least
    significant bit first, and bits can be handed back. */
module ForwardReading {
  import opened Numbers
  import opened Bits
  import opened Results

  datatype GetBitsError =
    | TooManyBits(requested: nat, limit: nat)
    | NotEnoughRemainingBits(requested: nat, remaining: nat)

  /** Or-ing in the next field above the bits collected so far. */
  lemma Extend(b: seq<bool>, lo: nat, mid: nat, hi: nat, v: nat)
    requires lo <= mid <= hi <= |b| && hi - lo <= 64
    requires v == ValOf(b[mid..hi])
    ensures Or(ValOf(b[lo..mid]), Shl64(v, mid - lo)) == ValOf(b[lo..hi])
  {
    hide ValOf, Or, Up, Shl64;
    ValBound(b[mid..hi]);
    ValBound(b[lo..mid]);
    ShlFits(v, hi - mid, mid - lo);
    OrDisjoint(ValOf(b[lo..mid]), mid - lo, v);
    ValAppend(b[lo..mid], b[mid..hi]);
    assert b[lo..hi] == b[lo..mid] + b[mid..hi];
  }

  /** Field `lo..hi` of byte `i`, by shifting and masking. */
  lemma ByteField(bs: seq<byte>, i: nat, lo: nat, hi: nat)
    requires i < |bs| && lo <= hi <= 8
    ensures And(Shr(bs[i], lo), Pow2(hi - lo) - 1) == ValOf(BytesToBits(bs)[8 * i + lo..8 * i + hi])
    ensures hi == 8 ==> Shr(bs[i], lo) == ValOf(BytesToBits(bs)[8 * i + lo..8 * i + 8])
    ensures lo == 0 && hi == 8 ==> bs[i] == ValOf(BytesToBits(bs)[8 * i..8 * i + 8])
  {
    hide ValOf, And, Shr, Low, BytesToBits, BitsOf;
    var w := BitsOf(bs[i], 8);
    ByteAt(bs, i);
    Pow2Values();
    ValOfSmall(bs[i], 8);
    ValSlice(w, lo, hi);
    ValSplit(w, lo);
    AndMask(Shr(bs[i], lo), hi - lo);
    ShrZero(bs[i]);
    SubSlice(BytesToBits(bs), 8 * i, w, lo, hi);
    SubSlice(BytesToBits(bs), 8 * i, w, lo, 8);
    assert w[lo..8] == w[lo..];
  }

  lemma SubSlice(b: seq<bool>, p: nat, w: seq<bool>, lo: nat, hi: nat)
    requires p + |w| <= |b| && b[p..p + |w|] == w && lo <= hi <= |w|
    ensures b[p + lo..p + hi] == w[lo..hi]
  {
    var s := b[p..p + |w|];
    forall k | 0 <= k < hi - lo
      ensures b[p + lo..p + hi][k] == w[lo..hi][k]
    {
      assert s[lo + k] == b[p + (lo + k)];
    }
  }

  class BitReader {
    var idx: nat
    const source: seq<byte>

    ghost function Bits(): seq<bool> {
      BytesToBits(source)
    }

    ghost predicate Valid()
      reads this
    {
      idx <= 8 * |source|
    }

    constructor (source: seq<byte>)
      ensures Valid() && idx == 0 && this.source == source
    {
      this.source := source;
      idx := 0;
    }

    function BitsLeft(): nat
      requires Valid()
      reads this
    {
      |source| * 8 - idx
    }

    /** Hand the last `n` bits back. */
    method ReturnBits(n: nat)
      requires Valid() && n <= idx
      modifies this
      ensures Valid() && idx == old(idx) - n
    {
      idx := idx - n;
    }

    /** The next `n` bits as a number. Reading nothing at the very end is the one
        call the source does not support. */
    method GetBits(n: nat) returns (r: Result<nat, GetBitsError>)
      requires Valid() && (n == 0 ==> idx < 8 * |source|)
      modifies this
      ensures Valid()
      ensures n > 64 ==> r == Err(TooManyBits(n, 64))
      ensures n <= 64 && n > old(BitsLeft()) ==> r == Err(NotEnoughRemainingBits(n, old(BitsLeft())))
      ensures n <= 64 && n <= old(BitsLeft()) ==> r == Ok(ValOf(Bits()[old(idx)..old(idx) + n]))
      ensures idx == old(idx) + if r.Ok? then n else 0
    {
      hide ValOf, BytesToBits, Or, And, Shr, Shl64;
      if n > 64 {
        return Err(TooManyBits(n, 64));
      }
      if BitsLeft() < n {
        return Err(NotEnoughRemainingBits(n, BitsLeft()));
      }
      var leftInByte := 8 - idx % 8;
      var at := idx / 8;
      var value: nat := Shr(source[at], 8 - leftInByte);
      if leftInByte >= n {
        ByteField(source, at, idx % 8, idx % 8 + n);
        value := And(value, Pow2(n) - 1);
        idx := idx + n;
      } else {
        ByteField(source, at, idx % 8, 8);
        idx := idx + leftInByte;
        value := CollectBytes(at + 1, value, leftInByte, n);
      }
      r := Ok(value);
    }

    /** From the byte border at `at` on: whole bytes, then some bits of one more. */
    method CollectBytes(first: nat, collected: nat, leftInByte: nat, n: nat) returns (value: nat)
      requires Valid() && idx == 8 * first && leftInByte <= n <= 64 && leftInByte <= idx && n - leftInByte <= BitsLeft()
      requires collected == ValOf(Bits()[idx - leftInByte..idx])
      modifies this
      ensures Valid() && idx == old(idx) - leftInByte + n
      ensures value == ValOf(Bits()[old(idx) - leftInByte..old(idx) - leftInByte + n])
    {
      hide ValOf, BytesToBits, Or, And, Shr, Shl64;
      ghost var from, b := idx - leftInByte, Bits();
      var at := first;
      value := collected;
      var fullBytes := (n - leftInByte) / 8;
      var lastBits := n - leftInByte - fullBytes * 8;
      var shift: nat := leftInByte;
      for k := 0 to fullBytes
        invariant idx == 8 * at && at * 8 + (fullBytes - k) * 8 + lastBits == from + n
        invariant shift == idx - from && value == ValOf(b[from..idx])
        invariant b == Bits()
      {
        ByteField(source, at, 0, 8);
        Extend(b, from, idx, idx + 8, source[at]);
        value := Or(value, Shl64(source[at], shift));
        idx := idx + 8;
        shift := shift + 8;
        at := at + 1;
      }
      if lastBits > 0 {
        ByteField(source, at, 0, lastBits);
        ShrZero(source[at]);
        Extend(b, from, idx, idx + lastBits, And(source[at], Pow2(lastBits) - 1));
        value := Or(value, Shl64(And(source[at], Pow2(lastBits) - 1), shift));
        idx := idx + lastBits;
      }
    }
  }
}
