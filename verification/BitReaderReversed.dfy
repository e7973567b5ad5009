/** The backward bit reader: a 64-bit container refilled from the end of the
    source, zero-filled once the source is used up. It refines reading a fixed
    bit string downwards from a position that may become negative. */
module BackwardReading {
  import opened Numbers
  import opened Bits

  // ----- the container -----

  /** The low `n` bits of the container hold bits `pos - n..pos` of the source. */
  ghost predicate Holds(container: nat, n: nat, b: seq<bool>, pos: int) {
    container < Pow2(64) && n <= 64 && Low(container, n) == ReadBack(b, pos, n)
  }

  /** A window falls apart into its low and its high bits. */
  lemma ReadBackSplit(b: seq<bool>, pos: int, low: nat, n: nat)
    ensures Low(ReadBack(b, pos, low + n), low) == ReadBack(b, pos - n, low)
    ensures Shr(ReadBack(b, pos, low + n), low) == ReadBack(b, pos, n)
  {
    hide ValOf, Window, Low, Shr;
    var lo := pos - n - low;
    WindowSplit(b, lo, pos - n, pos);
    ValConcat(Window(b, lo, pos - n), Window(b, pos - n, pos));
  }

  /** Selecting `n` bits just below the consumed ones. */
  lemma PeekSelects(container: nat, avail: nat, b: seq<bool>, pos: int, n: nat)
    requires Holds(container, avail, b, pos) && n <= avail
    ensures And(Shr(container, avail - n), Pow2(n) - 1) == ReadBack(b, pos, n)
    ensures Holds(container, avail - n, b, pos - n)
  {
    hide And, Shr, Low, ReadBack;
    var low := avail - n;
    AndMask(Shr(container, low), n);
    LowLow(container, low, n);
    ReadBackSplit(b, pos, low, n);
  }

  /** Shifting the consumed bits out at the top zero-fills below the source. */
  lemma ShiftFills(container: nat, used: nat, b: seq<bool>, pos: int)
    requires used < 64 && Holds(container, 64 - used, b, pos)
    requires pos <= 64 - used
    ensures Holds(Shl64(container, used), 64, b, pos)
  {
    hide Low, Up, ValOf, Window, Zeros;
    var avail := 64 - used;
    LowUp(container, used, avail);
    WindowSplit(b, pos - 64, pos - avail, pos);
    WindowBelow(b, pos - 64, used);
    ZerosVal(used);
    ValAppend(Zeros(used), Window(b, pos - avail, pos));
    LowSmall(Shl64(container, used), 64);
  }

  lemma WindowBelow(b: seq<bool>, lo: int, n: nat)
    requires lo + n <= 0
    ensures Window(b, lo, lo + n) == Zeros(n)
  {
  }

  /** Loading eight source bytes. */
  lemma LoadHolds(source: seq<byte>, index: nat, word: seq<byte>, used: nat)
    requires |word| == 8 && used <= 64
    requires BytesToBits(word) == Window(BytesToBits(source), 8 * index, 8 * index + 64)
    ensures Holds(FromLeBytes(word), 64 - used, BytesToBits(source), 8 * index + 64 - used)
  {
    hide FromLeBytes, ValOf, BytesToBits, Low;
    FromLeBytesIsVal(word);
    var b, w := BytesToBits(source), BytesToBits(word);
    ValBound(w);
    ValSplit(w, 64 - used);
    assert w[..64 - used] == Window(b, 8 * index, 8 * index + 64 - used);
  }

  lemma LoadFull(source: seq<byte>, index: nat)
    requires index + 8 <= |source|
    ensures BytesToBits(source[index..][..8]) == Window(BytesToBits(source), 8 * index, 8 * index + 64)
  {
    hide BytesToBits;
    assert source[index..][..8] == source[index..index + 8];
    BytesSlice(source, index, index + 8);
    WindowInside(BytesToBits(source), 8 * index, 8 * (index + 8));
  }

  lemma LoadPadded(source: seq<byte>)
    requires |source| < 8
    ensures BytesToBits(source + seq(8 - |source|, i => 0)) == Window(BytesToBits(source), 0, 64)
  {
    hide BytesToBits;
    BytesAppend(source, seq(8 - |source|, i => 0));
    ZeroBytes(8 - |source|);
  }

  /** Nothing of the source is left: only zeros follow. */
  lemma EmptyHolds(b: seq<bool>, pos: int)
    requires pos <= 0
    ensures Holds(0, 64, b, pos)
  {
    hide ValOf, Low, Window, Zeros;
    WindowBelow(b, pos - 64, 64);
    ZerosVal(64);
    LowSmall(0, 64);
  }

  /** The first eight bytes of the source, padded when there are fewer. */
  function FirstWord(source: seq<byte>): (word: seq<byte>)
    ensures |word| == 8
  {
    if |source| >= 8 then source[0..][..8] else source + seq(8 - |source|, i => 0)
  }

  /** The invariant tying the fields to the source. */
  ghost predicate Consistent(source: seq<byte>, index: nat, used: nat, extra: nat, container: nat): (r: bool)
    ensures r ==> index <= |source| && used <= 64
  {
    && index <= |source|
    && used <= 64
    && (index > 0 ==> extra == 0)
    && (index > 0 ==> index + 8 <= |source| || (index == |source| && used == 64))
    && Holds(container, 64 - used, BytesToBits(source), Remaining(index, used, extra))
  }

  function Remaining(index: nat, used: nat, extra: nat): int {
    index * 8 + (64 - used) - extra
  }

  /** There are enough source bytes to slide the container down. */
  lemma RefillFull(source: seq<byte>, index: nat, used: nat, extra: nat, container: nat)
    requires Consistent(source, index, used, extra, container) && 1 <= used / 8 <= index
    ensures index - used / 8 + 8 <= |source|
    ensures Consistent(source, index - used / 8, used % 8, extra, FromLeBytes(source[index - used / 8..][..8]))
    ensures Remaining(index - used / 8, used % 8, extra) == Remaining(index, used, extra)
  {
    hide Holds, Window, BytesToBits, FromLeBytes, Shl64;
    var i := index - used / 8;
    LoadFull(source, i);
    LoadHolds(source, i, source[i..][..8], used % 8);
  }

  /** The container reaches the beginning of the source. */
  lemma RefillLast(source: seq<byte>, index: nat, used: nat, extra: nat, container: nat)
    requires Consistent(source, index, used, extra, container) && 0 < index < used / 8
    ensures used - 8 * index < 64
    ensures var left := used - 8 * index;
      && Consistent(source, 0, 0, extra + left, Shl64(FromLeBytes(FirstWord(source)), left))
      && Remaining(0, 0, extra + left) == Remaining(index, used, extra)
  {
    hide Holds, Window, BytesToBits, FromLeBytes, Shl64;
    var left := used - 8 * index;
    if |source| >= 8 {
      LoadFull(source, 0);
    } else {
      LoadPadded(source);
    }
    LoadHolds(source, 0, FirstWord(source), left);
    ShiftFills(FromLeBytes(FirstWord(source)), left, BytesToBits(source), 64 - left);
  }

  /** Only container bits are left: shift them up. */
  lemma RefillShift(source: seq<byte>, used: nat, extra: nat, container: nat)
    requires Consistent(source, 0, used, extra, container) && used < 64
    ensures Consistent(source, 0, 0, extra + used, Shl64(container, used))
    ensures Remaining(0, 0, extra + used) == Remaining(0, used, extra)
  {
    hide Holds, Window, BytesToBits, FromLeBytes, Shl64;
    ShiftFills(container, used, BytesToBits(source), Remaining(0, used, extra));
  }

  /** Everything was read: only zeros follow. */
  lemma RefillEmpty(source: seq<byte>, extra: nat, container: nat)
    requires Consistent(source, 0, 64, extra, container)
    ensures Consistent(source, 0, 0, extra + 64, 0)
    ensures Remaining(0, 0, extra + 64) == Remaining(0, 64, extra)
  {
    hide Holds, Window, BytesToBits, FromLeBytes, Shl64;
    EmptyHolds(BytesToBits(source), Remaining(0, 64, extra));
  }

  /** The three fields on top of the `avail` bits of a container. */
  function CutFields(container: nat, avail: nat, sum: nat, n1: nat, n2: nat, n3: nat): (nat, nat, nat)
    requires sum <= avail
  {
    if sum == 0 then
      (0, 0, 0)
    else
      var allThree := Shr(container, avail - sum);
      (And(Shr(allThree, n3 + n2), Pow2(n1) - 1),
       And(Shr(allThree, n3), Pow2(n2) - 1),
       And(allThree, Pow2(n3) - 1))
  }

  class BitReaderReversed {
    const source: seq<byte>
    var index: nat
    var bitsConsumed: nat
    var extraBits: nat
    var bitContainer: nat

    ghost function Bits(): seq<bool> {
      BytesToBits(source)
    }

    ghost predicate Valid()
      reads this
    {
      Consistent(source, index, bitsConsumed, extraBits, bitContainer)
    }

    /** How many bits are left; negative once zero-fill has been handed out. */
    function BitsRemaining(): (pos: int)
      reads this
    {
      Remaining(index, bitsConsumed, extraBits)
    }

    constructor (source: seq<byte>)
      ensures Valid() && this.source == source && BitsRemaining() == 8 * |source|
    {
      this.source := source;
      index := |source|;
      bitsConsumed := 64;
      extraBits := 0;
      bitContainer := 0;
    }

    /** Afterwards at least 57 bits can be read; the position does not move. */
    method Refill()
      requires Valid()
      modifies this
      ensures Valid() && BitsRemaining() == old(BitsRemaining()) && bitsConsumed < 8
    {
      hide Consistent, FromLeBytes, Shl64, Remaining, FirstWord, BytesToBits;
      var bytesConsumed := bitsConsumed / 8;
      if bytesConsumed == 0 {
        return;
      }
      if index >= bytesConsumed {
        RefillFull(source, index, bitsConsumed, extraBits, bitContainer);
        index := index - bytesConsumed;
        bitsConsumed := bitsConsumed % 8;
        bitContainer := FromLeBytes(source[index..][..8]);
      } else if index > 0 {
        RefillLast(source, index, bitsConsumed, extraBits, bitContainer);
        bitsConsumed := bitsConsumed - 8 * index;
        index := 0;
        bitContainer := Shl64(FromLeBytes(FirstWord(source)), bitsConsumed);
        extraBits := extraBits + bitsConsumed;
        bitsConsumed := 0;
      } else if bitsConsumed < 64 {
        RefillShift(source, bitsConsumed, extraBits, bitContainer);
        bitContainer := Shl64(bitContainer, bitsConsumed);
        extraBits := extraBits + bitsConsumed;
        bitsConsumed := 0;
      } else {
        RefillEmpty(source, extraBits, bitContainer);
        extraBits := extraBits + bitsConsumed;
        bitsConsumed := 0;
        bitContainer := 0;
      }
    }

    /** The next `n` bits, without consuming them. */
    function PeekBits(n: nat): (v: nat)
      requires Valid() && bitsConsumed + n <= 64
      reads this
      ensures v == ReadBack(Bits(), BitsRemaining(), n)
    {
      if n == 0 then
        0
      else
        PeekSelects(bitContainer, 64 - bitsConsumed, Bits(), BitsRemaining(), n);
        And(Shr(bitContainer, 64 - bitsConsumed - n), Pow2(n) - 1)
    }

    method Consume(n: nat)
      requires Valid() && bitsConsumed + n <= 64
      modifies this`bitsConsumed
      ensures Valid() && BitsRemaining() == old(BitsRemaining()) - n
    {
      hide Holds, ReadBack, And, Shr, BytesToBits;
      PeekSelects(bitContainer, 64 - bitsConsumed, Bits(), BitsRemaining(), n);
      bitsConsumed := bitsConsumed + n;
    }

    /** The next `n` bits below the position, zeros beyond the beginning. */
    method GetBits(n: nat) returns (v: nat)
      requires Valid() && n <= 56
      modifies this
      ensures Valid()
      ensures v == ReadBack(Bits(), old(BitsRemaining()), n)
      ensures BitsRemaining() == old(BitsRemaining()) - n
    {
      hide Consistent, ReadBack, BytesToBits;
      if bitsConsumed + n > 64 {
        Refill();
      }
      v := PeekBits(n);
      Consume(n);
    }

    lemma ThreeFields(sum: nat, n1: nat, n2: nat, n3: nat)
      requires Valid() && bitsConsumed + sum <= 64 && sum == n1 + n2 + n3
      ensures CutFields(bitContainer, 64 - bitsConsumed, sum, n1, n2, n3) ==
        (ReadBack(Bits(), BitsRemaining(), n1), ReadBack(Bits(), BitsRemaining() - n1, n2), ReadBack(Bits(), BitsRemaining() - n1 - n2, n3))
    {
      hide Shr, And, ReadBack, Holds, BytesToBits, Pow2;
      PeekThrice(bitContainer, 64 - bitsConsumed, Bits(), BitsRemaining(), n1, n2, n3);
      ReadBackNothing(Bits(), BitsRemaining());
    }

    /** Three fields cut out of the container at once. */
    function PeekBitsTriple(sum: nat, n1: nat, n2: nat, n3: nat): (v: (nat, nat, nat))
      requires Valid() && bitsConsumed + sum <= 64 && sum == n1 + n2 + n3
      reads this
      ensures v.0 == ReadBack(Bits(), BitsRemaining(), n1)
      ensures v.1 == ReadBack(Bits(), BitsRemaining() - n1, n2)
      ensures v.2 == ReadBack(Bits(), BitsRemaining() - n1 - n2, n3)
    {
      ThreeFields(sum, n1, n2, n3);
      CutFields(bitContainer, 64 - bitsConsumed, sum, n1, n2, n3)
    }

    /** The same as three single reads, whichever branch is taken. */
    method GetBitsTriple(n1: nat, n2: nat, n3: nat) returns (v1: nat, v2: nat, v3: nat)
      requires Valid() && n1 <= 56 && n2 <= 56 && n3 <= 56
      modifies this
      ensures Valid()
      ensures v1 == ReadBack(Bits(), old(BitsRemaining()), n1)
      ensures v2 == ReadBack(Bits(), old(BitsRemaining()) - n1, n2)
      ensures v3 == ReadBack(Bits(), old(BitsRemaining()) - n1 - n2, n3)
      ensures BitsRemaining() == old(BitsRemaining()) - n1 - n2 - n3
    {
      hide Consistent, ReadBack, BytesToBits;
      var sum := n1 + n2 + n3;
      if sum <= 56 {
        Refill();
        var t := PeekBitsTriple(sum, n1, n2, n3);
        Consume(sum);
        return t.0, t.1, t.2;
      }
      v1 := GetBits(n1);
      v2 := GetBits(n2);
      v3 := GetBits(n3);
    }
  }

  /** A field selected in two shifts. */
  lemma PeekTwice(container: nat, avail: nat, b: seq<bool>, pos: int, n: nat, low: nat, mid: nat)
    requires Holds(container, avail, b, pos) && low + mid + n <= avail
    ensures And(Shr(Shr(container, low), mid), Pow2(n) - 1) == ReadBack(b, pos - (avail - low - mid - n), n)
  {
    hide Shr, And, ReadBack, Holds;
    var skip := avail - low - mid - n;
    PeekSelects(container, avail, b, pos, skip);
    PeekSelects(container, avail - skip, b, pos - skip, n);
    ShrShr(container, low, mid);
    assert avail - skip - n == low + mid;
  }

  lemma ReadBackNothing(b: seq<bool>, pos: int)
    ensures ReadBack(b, pos, 0) == 0
  {
  }

  /** Three adjacent fields. */
  lemma PeekThrice(container: nat, avail: nat, b: seq<bool>, pos: int, n1: nat, n2: nat, n3: nat)
    requires Holds(container, avail, b, pos) && n1 + n2 + n3 <= avail
    ensures var all := Shr(container, avail - (n1 + n2 + n3));
      && And(Shr(all, n3 + n2), Pow2(n1) - 1) == ReadBack(b, pos, n1)
      && And(Shr(all, n3), Pow2(n2) - 1) == ReadBack(b, pos - n1, n2)
      && And(all, Pow2(n3) - 1) == ReadBack(b, pos - n1 - n2, n3)
  {
    hide Shr, And, Holds, ReadBack, Pow2;
    var low := avail - (n1 + n2 + n3);
    PeekTwice(container, avail, b, pos, n1, low, n3 + n2);
    PeekTwice(container, avail, b, pos, n2, low, n3);
    PeekTwice(container, avail, b, pos, n3, low, 0);
    ShrZero(Shr(container, low));
  }

  // ----- the end marker -----

  /** Reading single bits down from `pos` until a one is found or nine bits were
      tried: the number of bits skipped. */
  function SkipMarker(b: seq<bool>, pos: int, skipped: nat): (n: nat)
    requires skipped <= 8
    decreases 9 - skipped
  {
    if ReadBack(b, pos, 1) == 1 || skipped == 8 then skipped + 1 else SkipMarker(b, pos - 1, skipped + 1)
  }

  method SkipPadding(br: BitReaderReversed) returns (skipped: nat)
    requires br.Valid()
    modifies br
    ensures br.Valid()
    ensures skipped == SkipMarker(br.Bits(), old(br.BitsRemaining()), 0)
    ensures br.BitsRemaining() == old(br.BitsRemaining()) - skipped
  {
    hide ReadBack, BytesToBits, Consistent, Remaining;
    skipped := 0;
    var val := 0;
    while val != 1 && skipped <= 8
      invariant br.Valid() && skipped <= 9
      invariant br.BitsRemaining() == old(br.BitsRemaining()) - skipped
      invariant val != 1 && skipped <= 8 ==>
        SkipMarker(br.Bits(), old(br.BitsRemaining()), 0) == SkipMarker(br.Bits(), br.BitsRemaining(), skipped)
      invariant val == 1 || skipped > 8 ==> skipped == SkipMarker(br.Bits(), old(br.BitsRemaining()), 0)
      decreases 9 - skipped, val != 1
    {
      val := br.GetBits(1);
      skipped := skipped + 1;
    }
  }

  /** The padding every encoder appends: a one and zeros up to a byte border;
      a whole byte when already aligned. */
  function MarkerLength(len: nat): (n: nat)
    ensures 1 <= n <= 8 && (len + n) % 8 == 0
  {
    if len % 8 == 0 then 8 else 8 - len % 8
  }

  function WithMarker(b: seq<bool>): (r: seq<bool>)
    ensures |r| % 8 == 0 && r != []
  {
    b + BitsOf(1, MarkerLength(|b|))
  }

  /** Skipping finds the marker an encoder appended and nothing else. */
  lemma MarkerFound(b: seq<bool>, m: nat)
    requires 1 <= m <= 8
    ensures SkipMarker(b + BitsOf(1, m), |b| + m, 0) == m
  {
    hide BitsOf, ReadBack;
    MarkerBits(m);
    MarkerFrom(b, m, 0);
  }

  lemma MarkerBits(m: nat)
    requires m >= 1
    ensures BitsOf(1, m) == [true] + Zeros(m - 1)
  {
    hide Zeros;
    ZeroBits(m - 1);
  }

  lemma {:induction false} MarkerFrom(b: seq<bool>, m: nat, skipped: nat)
    requires skipped < m <= 8 && BitsOf(1, m) == [true] + Zeros(m - 1)
    ensures SkipMarker(b + BitsOf(1, m), |b| + m - skipped, skipped) == m
    decreases m - skipped
  {
    hide BitsOf, ReadBack;
    var s := b + BitsOf(1, m);
    var pos := |b| + m - skipped;
    TopBit(s, pos);
    if skipped < m - 1 {
      MarkerFrom(b, m, skipped + 1);
    }
  }

  lemma TopBit(s: seq<bool>, pos: nat)
    requires 0 < pos <= |s|
    ensures ReadBack(s, pos, 1) == if s[pos - 1] then 1 else 0
  {
    var w := Window(s, pos - 1, pos);
    assert w == [s[pos - 1]];
    assert ValOf(w) == (if w[0] then 1 else 0) + 2 * ValOf(w[1..]);
  }
}
