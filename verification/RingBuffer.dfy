/** The decoder's circular buffer: a byte sequence in a fixed array with one free
    cell as sentinel. */
module Ring {
  import opened Numbers
  import opened Bits

  // ----- cells -----

  /** Where the `i`th byte behind `head` lies. */
  function Cell(cap: nat, head: nat, i: nat): (c: nat)
    requires head < cap && i <= cap
    ensures c < cap || c == head + i - cap
  {
    if head + i < cap then head + i else head + i - cap
  }

  ghost predicate InBounds(cap: nat, head: nat, tail: nat) {
    if cap == 0 then head == 0 && tail == 0 else head < cap && tail < cap
  }

  function RingLen(cap: nat, head: nat, tail: nat): nat
    requires InBounds(cap, head, tail)
  {
    if tail >= head then tail - head else cap - head + tail
  }

  /** The bytes from `head` to `tail`, around the end of the array if need be. */
  ghost function Bytes(b: seq<byte>, head: nat, tail: nat): (s: seq<byte>)
    requires InBounds(|b|, head, tail)
    ensures |s| == RingLen(|b|, head, tail)
  {
    if tail >= head then b[head..tail] else b[head..] + b[..tail]
  }

  lemma ByteAtCell(b: seq<byte>, head: nat, tail: nat, i: nat)
    requires |b| > 0 && InBounds(|b|, head, tail) && i < RingLen(|b|, head, tail)
    ensures Cell(|b|, head, i) < |b| && Bytes(b, head, tail)[i] == b[Cell(|b|, head, i)]
  {
  }

  /** A cell that holds data. */
  ghost predicate Occupied(head: nat, tail: nat, c: nat) {
    if tail >= head then head <= c < tail else c < tail || head <= c
  }

  lemma CellOccupied(cap: nat, head: nat, tail: nat, i: nat)
    requires cap > 0 && InBounds(cap, head, tail) && i < RingLen(cap, head, tail)
    ensures Occupied(head, tail, Cell(cap, head, i))
  {
  }

  /** Writing data into the cells behind the tail and moving the tail appends it. */
  lemma Appended(b: seq<byte>, b': seq<byte>, head: nat, tail: nat, tail': nat, data: seq<byte>)
    requires |b| > 0 && InBounds(|b|, head, tail) && RingLen(|b|, head, tail) + |data| < |b|
    requires tail' == (tail + |data|) % |b|
    requires Behind(b, b', head, tail, data)
    ensures |b'| == |b| && InBounds(|b|, head, tail') && Bytes(b', head, tail') == Bytes(b, head, tail) + data
  {
    var n := RingLen(|b|, head, tail);
    WrapOnce(tail + |data|, |b|);
    var r := Bytes(b', head, tail');
    assert |r| == n + |data|;
    forall i | 0 <= i < |r|
      ensures r[i] == (Bytes(b, head, tail) + data)[i]
    {
      ByteAtCell(b', head, tail', i);
      if i < n {
        ByteAtCell(b, head, tail, i);
        CellOccupied(|b|, head, tail, i);
      } else {
        assert Cell(|b|, head, i) == Cell(|b|, tail, i - n);
      }
    }
  }

  lemma WrapOnce(x: nat, cap: nat)
    requires x < 2 * cap
    ensures x % cap == if x < cap then x else x - cap
  {
    if x < cap {
      ModSmall(x, cap);
    } else {
      DivModUnique(cap, 1, x - cap);
    }
  }

  // ----- copying -----

  function NextMultiple(n: nat, of: nat): (m: nat)
    requires of > 0
    ensures n <= m && m % of == 0
  {
    if n % of == 0 then n else
    DivMod(n, of);
    MultipleAbove(n, of);
    n + (of - n % of)
  }

  lemma MultipleAbove(n: nat, of: nat)
    requires of > 0 && n % of != 0
    ensures (n + (of - n % of)) % of == 0
  {
    DivMod(n, of);
    var q := n / of + 1;
    assert n + (of - n % of) == q * of;
    DivNonneg(n, of);
    MulSign(q, of);
    DivModUnique(of, q, 0);
  }

  /** What a copy may do: the wanted bytes arrive, nothing outside the destination
      changes. */
  ghost predicate Copied(b: seq<byte>, b': seq<byte>, src: nat, dst: nat, dstLen: nat, n: nat) {
    && |b| == |b'| && src + n <= |b| && dst + dstLen <= |b| && n <= dstLen
    && (forall c :: dst <= c < dst + n ==> b'[c] == b[src + (c - dst)])
    && (forall c :: 0 <= c < |b| && !(dst <= c < dst + dstLen) ==> b'[c] == b[c])
  }

  /** Copy at least `n` bytes in words of `word` bytes, more if both sides have
      room; byte by byte otherwise. Source and destination do not overlap. */
  method CopyBytesOvershooting(a: array<byte>, src: nat, srcLen: nat, dst: nat, dstLen: nat, n: nat, word: nat)
    requires word > 0 && n <= srcLen && n <= dstLen && src + srcLen <= a.Length && dst + dstLen <= a.Length
    requires src + srcLen <= dst || dst + dstLen <= src
    modifies a
    ensures Copied(old(a[..]), a[..], src, dst, dstLen, n)
  {
    var minBufferSize := if srcLen < dstLen then srcLen else dstLen;
    if minBufferSize >= word && n <= word {
      CopyBytes(a, src, dst, word);
    } else {
      var copyMultiple := NextMultiple(n, word);
      if minBufferSize >= copyMultiple {
        CopyWords(a, src, dst, copyMultiple, word);
      } else {
        CopyBytes(a, src, dst, n);
      }
    }
  }

  method CopyBytes(a: array<byte>, src: nat, dst: nat, n: nat)
    requires src + n <= a.Length && dst + n <= a.Length
    modifies a
    ensures forall c :: 0 <= c < a.Length ==> a[c] == if dst <= c < dst + n then old(a[src + (c - dst)]) else old(a[c])
  {
    forall c | dst <= c < dst + n {
      a[c] := a[src + (c - dst)];
    }
  }

  method CopyWords(a: array<byte>, src: nat, dst: nat, n: nat, word: nat)
    requires word > 0 && n % word == 0 && src + n <= a.Length && dst + n <= a.Length
    requires src + n <= dst || dst + n <= src
    modifies a
    ensures forall c :: 0 <= c < a.Length ==> a[c] == if dst <= c < dst + n then old(a[src + (c - dst)]) else old(a[c])
  {
    var done := 0;
    while done < n
      invariant 0 <= done <= n && (n - done) % word == 0
      invariant forall c :: 0 <= c < a.Length ==> a[c] == if dst <= c < dst + done then old(a[src + (c - dst)]) else old(a[c])
      decreases n - done
    {
      WordLeft(n - done, word);
      CopyBytes(a, src + done, dst + done, word);
      done := done + word;
    }
  }

  lemma WordLeft(left: nat, word: nat)
    requires word > 0 && left > 0 && left % word == 0
    ensures left >= word && (left - word) % word == 0
  {
    if left < word {
      ModSmall(left, word);
    }
    DivMod(left, word);
    var q := left / word;
    assert left - word == (q - 1) * word;
    DivModUnique(word, q - 1, 0);
  }

  function NextPowerOfTwo(n: nat): (p: nat)
    ensures p >= n && p >= 1
  {
    if n <= 1 then 1 else
    if IsPow2(n) then n else Pow2(Log2(n) + 1)
  }

  ghost predicate LeastPower(p: int, n: nat) {
    exists k: nat :: IsLeast(p, k, n)
  }

  ghost predicate IsLeast(p: int, k: nat, n: nat) {
    p == Pow2(k) >= n && (k > 0 ==> Pow2(k - 1) < n)
  }

  lemma NextIsLeast(n: nat) returns (k: nat)
    ensures IsLeast(NextPowerOfTwo(n), k, n)
  {
    if n <= 1 {
      k := 0;
    } else if IsPow2(n) {
      k := Log2(n);
    } else {
      k := Log2(n) + 1;
    }
  }

  lemma PowersOrdered(m: nat, n: nat)
    requires m <= n
    ensures NextPowerOfTwo(m) <= NextPowerOfTwo(n) && LeastPower(NextPowerOfTwo(n), n)
  {
    hide NextPowerOfTwo, Pow2;
    var k := NextIsLeast(m);
    var l := NextIsLeast(n);
    if k > l {
      Pow2Mono(l, k - 1);
      assert false;
    } else {
      Pow2Mono(k, l);
    }
  }

  /** Store `data` from position `at` on. */
  method WriteAt(a: array<byte>, at: nat, data: seq<byte>)
    requires at + |data| <= a.Length
    modifies a
    ensures a[..] == Overwritten(old(a[..]), at, data)
  {
    forall c | at <= c < at + |data| {
      a[c] := data[c - at];
    }
  }

  ghost function Overwritten(b: seq<byte>, at: nat, data: seq<byte>): (b': seq<byte>)
    requires at + |data| <= |b|
    ensures |b'| == |b|
  {
    b[..at] + data + b[at + |data|..]
  }

  /** Data put into the cells behind the tail, in two pieces if they wrap around. */
  ghost predicate Behind(b: seq<byte>, b': seq<byte>, head: nat, tail: nat, data: seq<byte>)
    requires |b| > 0 && InBounds(|b|, head, tail) && RingLen(|b|, head, tail) + |data| < |b|
  {
    && |b'| == |b|
    && (forall c :: 0 <= c < |b| && Occupied(head, tail, c) ==> b'[c] == b[c])
    && (forall j :: 0 <= j < |data| ==> Cell(|b|, tail, j) < |b| && b'[Cell(|b|, tail, j)] == data[j])
  }

  lemma TwoPieces(b: seq<byte>, head: nat, tail: nat, data: seq<byte>, n: nat)
    requires |b| > 0 && InBounds(|b|, head, tail) && RingLen(|b|, head, tail) + |data| < |b|
    requires n <= |data| && tail + n <= |b| && (n < |data| ==> tail + n == |b|)
    ensures |data| - n <= |b|
    ensures Behind(b, Overwritten(Overwritten(b, tail, data[..n]), 0, data[n..]), head, tail, data)
  {
  }

  /** Bytes duplicated behind the tail. */
  ghost predicate Duplicated(b: seq<byte>, b': seq<byte>, head: nat, tail: nat, start: nat, len: nat) {
    && |b'| == |b| > 0 && InBounds(|b|, head, tail)
    && start + len <= RingLen(|b|, head, tail) && RingLen(|b|, head, tail) + len < |b|
    && (forall c :: 0 <= c < |b| && Occupied(head, tail, c) ==> b'[c] == b[c])
    && (forall j :: 0 <= j < len ==> Cell(|b|, tail, j) < |b| && b'[Cell(|b|, tail, j)] == b[Cell(|b|, head, start + j)])
  }

  /** The data lies in one piece; the free cells may wrap around. */
  lemma ContiguousData(b: seq<byte>, m: seq<byte>, b': seq<byte>, head: nat, tail: nat, start: nat, len: nat, n: nat)
    requires InBounds(|b|, head, tail) && head < tail && start + len <= tail - head && tail - head + len < |b|
    requires n == (if len < |b| - tail then len else |b| - tail)
    requires Copied(b, m, head + start, tail, |b| - tail, n)
    requires if n < len then Copied(m, b', head + start + n, 0, head, len - n) else b' == m
    ensures Duplicated(b, b', head, tail, start, len)
  {
  }

  /** The bytes to copy lie wholly behind the wrap. */
  lemma WrappedSource(b: seq<byte>, b': seq<byte>, head: nat, tail: nat, start: nat, len: nat)
    requires |b| > 0 && InBounds(|b|, head, tail) && tail <= head && head + start > |b|
    requires start + len <= RingLen(|b|, head, tail) && RingLen(|b|, head, tail) + len < |b|
    requires Copied(b, b', head + start - |b|, tail, head - tail, len)
    ensures Duplicated(b, b', head, tail, start, len)
  {
  }

  /** The bytes to copy begin before the wrap and may go on behind it. */
  lemma SplitSource(b: seq<byte>, m: seq<byte>, b': seq<byte>, head: nat, tail: nat, start: nat, len: nat, n: nat)
    requires |b| > 0 && InBounds(|b|, head, tail) && tail <= head && head + start <= |b|
    requires start + len <= RingLen(|b|, head, tail) && RingLen(|b|, head, tail) + len < |b|
    requires n == (if len < |b| - head - start then len else |b| - head - start)
    requires Copied(b, m, head + start, tail, head - tail, n)
    requires if n < len then Copied(m, b', 0, tail + n, head - tail - n, len - n) else b' == m
    ensures Duplicated(b, b', head, tail, start, len)
  {
  }

  // ----- the buffer -----

  class RingBuffer {
    const word: nat
    var buf: array<byte>
    var head: nat
    var tail: nat

    ghost predicate Valid()
      reads this
    {
      word > 0 && InBounds(buf.Length, head, tail)
    }

    ghost function Contents(): (s: seq<byte>)
      requires Valid()
      reads this, buf
      ensures |s| == RingLen(buf.Length, head, tail)
    {
      Bytes(buf[..], head, tail)
    }

    /** The size of a word is the platform's business. */
    constructor (word: nat)
      requires word > 0
      ensures Valid() && fresh(buf) && Contents() == [] && buf.Length == 0
    {
      this.word := word;
      buf := new byte[0];
      head, tail := 0, 0;
    }

    function Len(): (n: nat)
      requires Valid()
      reads this, buf
      ensures n == |Contents()|
    {
      RingLen(buf.Length, head, tail)
    }

    /** Room for that many more bytes; one cell always stays free. */
    function Free(): (n: nat)
      requires Valid()
      reads this, buf
      ensures buf.Length > 0 ==> n + |Contents()| + 1 == buf.Length
      ensures buf.Length == 0 ==> n == 0
    {
      var free := if tail < head then head - tail else (buf.Length - tail) + head;
      if free > 0 then free - 1 else 0
    }

    /** The contents in at most two pieces. */
    function AsSlices(): (s: (seq<byte>, seq<byte>))
      requires Valid()
      reads this, buf
      ensures s.0 + s.1 == Contents()
      ensures s.0 == [] ==> s.1 == []
    {
      if tail >= head then (buf[head..tail], []) else (buf[head..], buf[..tail])
    }

    method Clear()
      requires Valid()
      modifies `head, `tail
      ensures Valid() && Contents() == []
    {
      head := 0;
      tail := 0;
    }

    method Reserve(amount: nat)
      requires Valid()
      modifies this
      ensures Valid() && (buf == old(buf) || fresh(buf))
      ensures Contents() == old(Contents()) && Free() >= amount
      ensures old(Free()) >= amount ==> buf == old(buf) && head == old(head) && tail == old(tail)
      ensures amount > 0 ==> buf.Length > 0
      ensures old(Free()) < amount ==> LeastPower(buf.Length - 1, old(buf.Length) + amount - old(Free()))
    {
      var free := Free();
      if free >= amount {
        return;
      }
      ReserveAmortized(amount - free);
    }

    /** Copy the contents to the front of a new array. */
    method MoveTo(newBuf: array<byte>) returns (len: nat)
      requires Valid() && buf.Length > 0 && newBuf != buf && newBuf.Length >= |Contents()|
      modifies newBuf
      ensures len == |Contents()| && newBuf[..len] == Contents()
    {
      var cap := buf.Length;
      var len1 := if tail >= head then tail - head else cap - head;
      var len2 := if tail >= head then 0 else tail;
      WriteAt(newBuf, 0, buf[head..head + len1]);
      WriteAt(newBuf, len1, buf[..len2]);
      len := len1 + len2;
    }

    /** Move to a larger array, contents first. */
    method ReserveAmortized(amount: nat)
      requires Valid() && amount > 0
      modifies this
      ensures Valid() && fresh(buf) && Contents() == old(Contents()) && Free() >= old(Free()) + amount
      ensures buf.Length > 0 && LeastPower(buf.Length - 1, old(buf.Length) + amount)
    {
      hide NextPowerOfTwo, LeastPower;
      var cap := buf.Length;
      var p, q := NextPowerOfTwo(cap), NextPowerOfTwo(cap + amount);
      var newCap := (if p > q then p else q) + 1;
      PowersOrdered(cap, cap + amount);
      var newBuf := new byte[newCap];
      if cap > 0 {
        var len := MoveTo(newBuf);
        tail := len;
        head := 0;
        FromFront(newBuf[..], len);
      }
      buf := newBuf;
    }

    /** Store `data` behind the tail, in at most two pieces. */
    method StoreBehind(data: seq<byte>)
      requires Valid() && buf.Length > 0 && Free() >= |data|
      modifies buf
      ensures Behind(old(buf[..]), buf[..], head, tail, data)
    {
      hide Behind, Overwritten;
      var len, cap := |data|, buf.Length;
      var f1 := if tail < head then head - tail else cap - tail;
      var inF1 := if len < f1 then len else f1;
      TwoPieces(buf[..], head, tail, data, inF1);
      WriteAt(buf, tail, data[..inF1]);
      WriteAt(buf, 0, data[inF1..]);
    }

    method Extend(data: seq<byte>)
      requires Valid()
      modifies this, buf
      ensures Valid() && (buf == old(buf) || fresh(buf))
      ensures Contents() == old(Contents()) + data
    {
      hide Behind, Bytes;
      var len := |data|;
      if len == 0 {
        return;
      }
      Reserve(len);
      ghost var before := buf[..];
      StoreBehind(data);
      Appended(before, buf[..], head, tail, (tail + len) % buf.Length, data);
      tail := (tail + len) % buf.Length;
    }

    /** Forget the first `amount` bytes. */
    method DropFirstN(amount: nat)
      requires Valid() && amount <= |Contents()| && buf.Length > 0
      modifies `head
      ensures Valid() && Contents() == old(Contents())[amount..]
    {
      WrapOnce(head + amount, buf.Length);
      ghost var before := Contents();
      head := (head + amount) % buf.Length;
      Dropped(buf[..], old(head), head, tail, amount);
    }

    /** The data lies in one piece. */
    method CopyContiguous(start: nat, len: nat)
      requires Valid() && head < tail && start + len <= |Contents()| && Free() >= len && buf.Length > 0
      modifies buf
      ensures Duplicated(old(buf[..]), buf[..], head, tail, start, len)
    {
      hide Copied, Duplicated;
      var cap := buf.Length;
      ghost var before := buf[..];
      var afterTail := if len < cap - tail then len else cap - tail;
      CopyBytesOvershooting(buf, head + start, tail - head - start, tail, cap - tail, afterTail, word);
      ghost var middle := buf[..];
      if afterTail < len {
        CopyBytesOvershooting(buf, head + start + afterTail, tail - head - start - afterTail, 0, head, len - afterTail, word);
      }
      ContiguousData(before, middle, buf[..], head, tail, start, len, afterTail);
    }

    /** The data wraps around, or there is none. */
    method CopyWrapped(start: nat, len: nat)
      requires Valid() && tail <= head && start + len <= |Contents()| && Free() >= len && buf.Length > 0
      modifies buf
      ensures Duplicated(old(buf[..]), buf[..], head, tail, start, len)
    {
      hide Copied, Duplicated;
      var cap := buf.Length;
      ghost var before := buf[..];
      if head + start > cap {
        WrapOnce(head + start, cap);
        var start' := (head + start) % cap;
        CopyBytesOvershooting(buf, start', tail - start', tail, head - tail, len, word);
        WrappedSource(before, buf[..], head, tail, start, len);
      } else {
        var afterStart := if len < cap - head - start then len else cap - head - start;
        CopyBytesOvershooting(buf, head + start, cap - head - start, tail, head - tail, afterStart, word);
        ghost var middle := buf[..];
        if afterStart < len {
          CopyBytesOvershooting(buf, 0, tail, tail + afterStart, head - tail - afterStart, len - afterStart, word);
        }
        SplitSource(before, middle, buf[..], head, tail, start, len, afterStart);
      }
    }

    /** Append a copy of `len` bytes from position `start`, however the data, the
        bytes to copy and the free cells wrap around. */
    method ExtendFromWithinUnchecked(start: nat, len: nat)
      requires Valid() && start + len <= |Contents()| && Free() >= len && buf.Length > 0
      modifies `tail, buf
      ensures Valid() && Contents() == old(Contents()) + old(Contents())[start..start + len]
    {
      hide Duplicated, Bytes;
      ghost var before := buf[..];
      if head < tail {
        CopyContiguous(start, len);
      } else {
        CopyWrapped(start, len);
      }
      CopiedWithin(before, buf[..], head, tail, start, len);
      tail := (tail + len) % buf.Length;
    }

    /** The same by arithmetic: how much of both data slices goes where in both free
        slices. */
    method ExtendFromWithinBranchless(start: nat, len: nat)
      requires Valid() && start + len <= |Contents()| && Free() >= len && buf.Length > 0
      modifies `tail, buf
      ensures Valid() && Contents() == old(Contents()) + old(Contents())[start..start + len]
    {
      hide Duplicated, Bytes;
      ghost var before := buf[..];
      CopyPieces(start, len);
      CopiedWithin(before, buf[..], head, tail, start, len);
      tail := (tail + len) % buf.Length;
    }

    method CopyPieces(start: nat, len: nat)
      requires Valid() && start + len <= |Contents()| && Free() >= len && buf.Length > 0
      modifies buf
      ensures Duplicated(old(buf[..]), buf[..], head, tail, start, len)
    {
      hide Duplicated, Bytes, Copied, Pieces;
      ghost var b0 := buf[..];
      var p := Pieces(buf.Length, head, tail, start, len);
      CopyExact(buf, p.m1, tail, p.m1InF1);
      ghost var b1 := buf[..];
      CopyExact(buf, p.m2, tail + p.m1InF1, p.m2InF1);
      ghost var b2 := buf[..];
      CopyExact(buf, p.m1 + p.m1InF1, 0, p.m1InF2);
      ghost var b3 := buf[..];
      CopyExact(buf, p.m2 + p.m2InF1, p.m1InF2, p.m2InF2);
      FourPieces(b0, b1, b2, b3, buf[..], head, tail, start, len);
    }
  }

  /** The pieces of a copy: where the two sources begin, and how many bytes of each
      go behind the tail and to the front of the array. */
  datatype Piece = Piece(m1: nat, m2: nat, m1InF1: nat, m2InF1: nat, m1InF2: nat, m2InF2: nat)

  function Min(a: nat, b: nat): nat {
    if a < b then a else b
  }

  function Pieces(cap: nat, head: nat, tail: nat, start: nat, len: nat): (p: Piece)
    requires cap > 0 && InBounds(cap, head, tail) && start + len <= RingLen(cap, head, tail) && RingLen(cap, head, tail) + len < cap
    ensures p.m1InF1 + p.m2InF1 + p.m1InF2 + p.m2InF2 == len
    ensures p.m1InF2 == 0 || p.m2InF1 == 0
    ensures p.m1 + p.m1InF1 + p.m1InF2 <= cap && p.m2 + p.m2InF1 + p.m2InF2 <= cap
    ensures tail + p.m1InF1 + p.m2InF1 <= cap && p.m1InF2 + p.m2InF2 <= cap
  {
    var s1Len := if tail >= head then tail - head else cap - head;
    var s2Len := if tail >= head then 0 else tail;
    var startInS1, endInS1 := Min(s1Len, start), Min(s1Len, start + len);
    var m1Len := endInS1 - startInS1;
    var startInS2 := if start > s1Len then start - s1Len else 0;
    var endInS2 := startInS2 + (len - m1Len);
    assert startInS2 <= s2Len && endInS2 <= s2Len;
    var m2Len := endInS2 - startInS2;
    var f1Len := if tail < head then head - tail else cap - tail;
    var m1InF1 := Min(m1Len, f1Len);
    var m2InF1 := Min(f1Len - m1InF1, m2Len);
    Piece(head + startInS1, startInS2, m1InF1, m2InF1, m1Len - m1InF1, m2Len - m2InF1)
  }

  method CopyExact(a: array<byte>, src: nat, dst: nat, n: nat)
    requires src + n <= a.Length && dst + n <= a.Length
    modifies a
    ensures Copied(old(a[..]), a[..], src, dst, n, n)
  {
    if n != 0 {
      CopyBytes(a, src, dst, n);
    }
  }

  /** The four pieces together put every byte where it belongs. */
  lemma FourPieces(b0: seq<byte>, b1: seq<byte>, b2: seq<byte>, b3: seq<byte>, b4: seq<byte>, head: nat, tail: nat, start: nat, len: nat)
    requires |b0| > 0 && InBounds(|b0|, head, tail)
    requires start + len <= RingLen(|b0|, head, tail) && RingLen(|b0|, head, tail) + len < |b0|
    requires var p := Pieces(|b0|, head, tail, start, len);
      && Copied(b0, b1, p.m1, tail, p.m1InF1, p.m1InF1)
      && Copied(b1, b2, p.m2, tail + p.m1InF1, p.m2InF1, p.m2InF1)
      && Copied(b2, b3, p.m1 + p.m1InF1, 0, p.m1InF2, p.m1InF2)
      && Copied(b3, b4, p.m2 + p.m2InF1, p.m1InF2, p.m2InF2, p.m2InF2)
    ensures Duplicated(b0, b4, head, tail, start, len)
  {
    var p := Pieces(|b0|, head, tail, start, len);
    forall c | 0 <= c < |b0| && Occupied(head, tail, c)
      ensures b4[c] == b0[c]
    {
      assert b1[c] == b0[c] && b2[c] == b1[c] && b3[c] == b2[c] && b4[c] == b3[c];
    }
    forall j | 0 <= j < len
      ensures Cell(|b0|, tail, j) < |b0| && b4[Cell(|b0|, tail, j)] == b0[Cell(|b0|, head, start + j)]
    {
      PieceOf(b0, b1, b2, b3, b4, head, tail, start, len, j);
    }
  }

  lemma CopiedCell(b: seq<byte>, b': seq<byte>, src: nat, dst: nat, n: nat, c: nat)
    requires Copied(b, b', src, dst, n, n) && c < |b|
    ensures |b'| == |b| && src + n <= |b|
    ensures b'[c] == if dst <= c < dst + n then b[src + (c - dst)] else b[c]
  {
  }

  /** Which piece a cell behind the tail gets its byte from; the source is in no piece's way. */
  lemma PieceCells(cap: nat, head: nat, tail: nat, start: nat, len: nat, j: nat)
    requires cap > 0 && InBounds(cap, head, tail) && j < len
    requires start + len <= RingLen(cap, head, tail) && RingLen(cap, head, tail) + len < cap
    ensures var p, c, s := Pieces(cap, head, tail, start, len), Cell(cap, tail, j), Cell(cap, head, start + j);
      && c < cap && s < cap
      && !(tail <= s < tail + p.m1InF1 + p.m2InF1) && !(s < p.m1InF2 + p.m2InF2)
    ensures var p, c, s := Pieces(cap, head, tail, start, len), Cell(cap, tail, j), Cell(cap, head, start + j);
      if c >= tail then
        && p.m1InF2 + p.m2InF2 <= c < tail + p.m1InF1 + p.m2InF1
        && s == if c < tail + p.m1InF1 then p.m1 + (c - tail) else p.m2 + (c - (tail + p.m1InF1))
      else
        && c < p.m1InF2 + p.m2InF2
        && s == if c < p.m1InF2 then p.m1 + p.m1InF1 + c else p.m2 + p.m2InF1 + (c - p.m1InF2)
  {
  }

  lemma PieceOf(b0: seq<byte>, b1: seq<byte>, b2: seq<byte>, b3: seq<byte>, b4: seq<byte>, head: nat, tail: nat, start: nat, len: nat, j: nat)
    requires |b0| > 0 && InBounds(|b0|, head, tail) && j < len
    requires start + len <= RingLen(|b0|, head, tail) && RingLen(|b0|, head, tail) + len < |b0|
    requires var p := Pieces(|b0|, head, tail, start, len);
      && Copied(b0, b1, p.m1, tail, p.m1InF1, p.m1InF1)
      && Copied(b1, b2, p.m2, tail + p.m1InF1, p.m2InF1, p.m2InF1)
      && Copied(b2, b3, p.m1 + p.m1InF1, 0, p.m1InF2, p.m1InF2)
      && Copied(b3, b4, p.m2 + p.m2InF1, p.m1InF2, p.m2InF2, p.m2InF2)
    ensures Cell(|b0|, tail, j) < |b0| && b4[Cell(|b0|, tail, j)] == b0[Cell(|b0|, head, start + j)]
  {
    hide Copied, Cell, Pieces;
    var p := Pieces(|b0|, head, tail, start, len);
    PieceCells(|b0|, head, tail, start, len, j);
    var c, s := Cell(|b0|, tail, j), Cell(|b0|, head, start + j);
    CopiedCell(b0, b1, p.m1, tail, p.m1InF1, c);
    CopiedCell(b1, b2, p.m2, tail + p.m1InF1, p.m2InF1, c);
    CopiedCell(b2, b3, p.m1 + p.m1InF1, 0, p.m1InF2, c);
    CopiedCell(b3, b4, p.m2 + p.m2InF1, p.m1InF2, p.m2InF2, c);
    CopiedCell(b0, b1, p.m1, tail, p.m1InF1, s);
    CopiedCell(b1, b2, p.m2, tail + p.m1InF1, p.m2InF1, s);
    CopiedCell(b2, b3, p.m1 + p.m1InF1, 0, p.m1InF2, s);
  }

  lemma FromFront(b: seq<byte>, n: nat)
    requires n < |b|
    ensures Bytes(b, 0, n) == b[..n]
  {
  }

  lemma Dropped(b: seq<byte>, head: nat, head': nat, tail: nat, amount: nat)
    requires |b| > 0 && InBounds(|b|, head, tail) && amount <= RingLen(|b|, head, tail)
    requires head' == if head + amount < |b| then head + amount else head + amount - |b|
    ensures InBounds(|b|, head', tail) && Bytes(b, head', tail) == Bytes(b, head, tail)[amount..]
  {
  }

  /** Data stays, and every byte behind the tail is the one `start` bytes behind the head. */
  lemma CopiedWithin(b: seq<byte>, b': seq<byte>, head: nat, tail: nat, start: nat, len: nat)
    requires Duplicated(b, b', head, tail, start, len)
    ensures var tail' := (tail + len) % |b|;
      |b'| == |b| && InBounds(|b|, head, tail') && Bytes(b', head, tail') == Bytes(b, head, tail) + Bytes(b, head, tail)[start..start + len]
  {
    hide Bytes;
    var data := Bytes(b, head, tail)[start..start + len];
    forall j | 0 <= j < len
      ensures Cell(|b|, tail, j) < |b| && b'[Cell(|b|, tail, j)] == data[j]
    {
      ByteAtCell(b, head, tail, start + j);
    }
    WrapOnce(tail + len, |b|);
    Appended(b, b', head, tail, (tail + len) % |b|, data);
  }
}
