/** The encoder's match finder: a window of recent blocks, each with a lossy store of
    positions by hash. Whatever the hash, only true matches are emitted. */
module Matching {
  import opened Concatenation
  import opened Bits
  import opened Results
  import opened DecodeBuffering

  const MIN_MATCH_LEN: nat := 5

  // ----- common prefixes -----

  /** The number of equal bytes at the beginning. */
  function CommonPrefix(a: seq<byte>, b: seq<byte>): (n: nat)
    ensures n <= |a| && n <= |b| && a[..n] == b[..n]
    ensures n < |a| && n < |b| ==> a[n] != b[n]
  {
    if a == [] || b == [] || a[0] != b[0] then 0 else
    var n := CommonPrefix(a[1..], b[1..]);
    assert a[..n + 1] == [a[0]] + a[1..][..n] && b[..n + 1] == [b[0]] + b[1..][..n];
    n + 1
  }

  /** The number of equal chunks at the beginning. */
  function EqualChunks(xs: seq<byte>, ys: seq<byte>, size: nat): (n: nat)
    requires size > 0
    ensures n * size <= |xs| && n * size <= |ys|
    decreases |xs|
  {
    if |xs| < size || |ys| < size || xs[..size] != ys[..size] then 0 else
    var n := EqualChunks(xs[size..], ys[size..], size);
    assert (n + 1) * size == n * size + size;
    n + 1
  }

  /** Whole chunks first, then byte by byte. */
  function MismatchChunks(xs: seq<byte>, ys: seq<byte>, size: nat): nat
    requires size > 0
  {
    var off := EqualChunks(xs, ys, size) * size;
    off + CommonPrefix(xs[off..], ys[off..])
  }

  lemma MismatchStep(xs: seq<byte>, ys: seq<byte>, size: nat)
    requires size > 0 && |xs| >= size && |ys| >= size && xs[..size] == ys[..size]
    ensures MismatchChunks(xs, ys, size) == size + MismatchChunks(xs[size..], ys[size..], size)
  {
    hide CommonPrefix;
    var n := EqualChunks(xs[size..], ys[size..], size);
    assert EqualChunks(xs, ys, size) == n + 1;
    assert (n + 1) * size == n * size + size;
    DropTwice(xs, size, n * size);
    DropTwice(ys, size, n * size);
  }

  lemma MismatchNone(xs: seq<byte>, ys: seq<byte>, size: nat)
    requires size > 0 && (|xs| < size || |ys| < size || xs[..size] != ys[..size])
    ensures MismatchChunks(xs, ys, size) == CommonPrefix(xs, ys)
  {
    hide CommonPrefix;
    assert EqualChunks(xs, ys, size) == 0;
    assert xs[0..] == xs && ys[0..] == ys;
  }

  /** Comparing in chunks finds the common prefix, whatever their size. */
  lemma {:induction false} ChunksFindPrefix(xs: seq<byte>, ys: seq<byte>, size: nat)
    requires size > 0
    ensures MismatchChunks(xs, ys, size) == CommonPrefix(xs, ys)
    decreases |xs|
  {
    hide CommonPrefix, MismatchChunks;
    if |xs| < size || |ys| < size || xs[..size] != ys[..size] {
      MismatchNone(xs, ys, size);
    } else {
      MismatchStep(xs, ys, size);
      ChunksFindPrefix(xs[size..], ys[size..], size);
      PrefixSkips(xs, ys, size);
    }
  }

  lemma DropTwice(s: seq<byte>, a: nat, b: nat)
    requires a + b <= |s|
    ensures s[a..][b..] == s[a + b..]
  {
  }

  lemma {:induction false} PrefixSkips(xs: seq<byte>, ys: seq<byte>, n: nat)
    requires n <= |xs| && n <= |ys| && xs[..n] == ys[..n]
    ensures CommonPrefix(xs, ys) == n + CommonPrefix(xs[n..], ys[n..])
  {
    if n == 0 {
      assert xs[0..] == xs && ys[0..] == ys;
    } else {
      assert xs[..n][0] == xs[0] && ys[..n][0] == ys[0];
      assert xs[1..][..n - 1] == xs[..n][1..] && ys[1..][..n - 1] == ys[..n][1..];
      PrefixSkips(xs[1..], ys[1..], n - 1);
      assert xs[1..][n - 1..] == xs[n..] && ys[1..][n - 1..] == ys[n..];
    }
  }

  // ----- the window -----

  datatype WindowEntry = WindowEntry(data: seq<byte>, slots: seq<Option<nat>>, baseOffset: nat)

  /** All data of the first `n` entries. */
  function Joined(w: seq<WindowEntry>, n: nat): seq<byte>
    requires n <= |w|
  {
    if n == 0 then [] else Joined(w, n - 1) + w[n - 1].data
  }

  lemma {:induction false} JoinedParts(w: seq<WindowEntry>, i: nat, n: nat)
    requires i < n <= |w|
    ensures |Joined(w, i)| + |w[i].data| <= |Joined(w, n)|
    ensures Joined(w, n)[|Joined(w, i)|..|Joined(w, i)| + |w[i].data|] == w[i].data
    ensures Joined(w, n)[..|Joined(w, i)|] == Joined(w, i)
  {
    if i < n - 1 {
      JoinedParts(w, i, n - 1);
      var j, s := Joined(w, n - 1), |Joined(w, i)|;
      assert Joined(w, n)[s..s + |w[i].data|] == j[s..s + |w[i].data|];
    }
  }

  ghost predicate SameData(v: seq<WindowEntry>, w: seq<WindowEntry>) {
    |v| == |w| && forall i :: 0 <= i < |w| ==> v[i].data == w[i].data
  }

  lemma {:induction false} SameJoined(v: seq<WindowEntry>, w: seq<WindowEntry>, n: nat)
    requires n <= |v| && n <= |w| && forall i :: 0 <= i < n ==> v[i].data == w[i].data
    ensures Joined(v, n) == Joined(w, n)
  {
    if n > 0 {
      SameJoined(v, w, n - 1);
    }
  }

  /** Removing the oldest entry removes the beginning. */
  lemma {:induction false} JoinedTail(w: seq<WindowEntry>, n: nat)
    requires 0 < n <= |w|
    ensures w[0].data + Joined(w[1..], n - 1) == Joined(w, n)
  {
    if n > 1 {
      JoinedTail(w, n - 1);
      assert w[0].data + (Joined(w[1..], n - 2) + w[n - 1].data) == (w[0].data + Joined(w[1..], n - 2)) + w[n - 1].data;
    } else {
      assert Joined(w, 0) == [] && Joined(w[1..], 0) == [];
    }
  }

  /** A position stored for a block lies in the part already looked at. */
  ghost predicate Stored(e: WindowEntry, limit: nat) {
    |e.slots| > 0 && forall k :: 0 <= k < |e.slots| && e.slots[k].Some? ==> e.slots[k].value <= limit
  }

  /** The distance from an entry's beginning to the last entry's beginning. */
  ghost predicate Distance(w: seq<WindowEntry>, i: nat)
    requires i < |w|
  {
    w[i].baseOffset + |Joined(w, i)| == |Joined(w, |w| - 1)|
  }

  // ----- matches -----

  datatype Emitted =
    | Literals(literals: seq<byte>)
    | Triple(literals: seq<byte>, offset: nat, matchLen: nat)

  /** `n` bytes at `pos` equal the bytes `offset` further back; they do not overlap. */
  ghost predicate IsMatch(all: seq<byte>, pos: nat, offset: nat, n: nat) {
    && MIN_MATCH_LEN <= n <= offset <= pos && pos + n <= |all|
    && all[pos - offset..pos - offset + n] == all[pos..pos + n]
  }

  /** What a decoder makes of an emission, if the match lies in its output. */
  function Replay(h: seq<byte>, s: Emitted): Option<seq<byte>> {
    match s
    case Literals(literals) => Some(h + literals)
    case Triple(literals, offset, n) =>
      if 1 <= offset <= |h + literals| then Some(LzCopy(h + literals, offset, n)) else None
  }

  function ReplayAll(h: seq<byte>, ss: seq<Emitted>): Option<seq<byte>> {
    if ss == [] then Some(h) else
    var one := ReplayAll(h, ss[..|ss| - 1]);
    if one.None? then None else Replay(one.value, ss[|ss| - 1])
  }

  /** Replaying the literals up to `pos` and the match gives the data behind the match. */
  lemma MatchReplays(all: seq<byte>, from: nat, pos: nat, offset: nat, n: nat)
    requires from <= pos && IsMatch(all, pos, offset, n)
    ensures Replay(all[..from], Triple(all[from..pos], offset, n)) == Some(all[..pos + n])
  {
    hide LzCopy;
    var h := all[..pos];
    assert all[..from] + all[from..pos] == h;
    LzChunk(h, offset, n);
    assert h[pos - offset..pos - offset + n] == all[pos - offset..pos - offset + n];
    assert all[..pos] + all[pos..pos + n] == all[..pos + n];
  }

  lemma MatchInside(all: seq<byte>, pos: nat, offset: nat, n: nat)
    requires IsMatch(all, pos, offset, n)
    ensures pos + n <= |all| && MIN_MATCH_LEN <= n <= offset <= pos
  {
  }

  // ----- what is registered and what is found -----

  type Hash = seq<byte> -> nat

  /** The slot of the five bytes at `p`. */
  function SlotOf(hash: Hash, data: seq<byte>, p: nat, slots: nat): (k: nat)
    requires p + MIN_MATCH_LEN <= |data| && slots > 0
    ensures k < slots
  {
    ModBound(hash(data[p..p + MIN_MATCH_LEN]), slots);
    hash(data[p..p + MIN_MATCH_LEN]) % slots
  }

  /** `r` is the first position from `from` on that belongs to slot `k` and whose five
      bytes end by `end`. */
  ghost predicate FirstIn(hash: Hash, data: seq<byte>, slots: nat, from: nat, end: nat, k: nat, r: Option<nat>)
    requires slots > 0 && end <= |data|
  {
    match r
    case None => forall p :: from <= p && p + MIN_MATCH_LEN <= end ==> SlotOf(hash, data, p, slots) != k
    case Some(q) =>
      && from <= q && q + MIN_MATCH_LEN <= end && SlotOf(hash, data, q, slots) == k
      && forall p :: from <= p < q ==> SlotOf(hash, data, p, slots) != k
  }

  /** All positions from `from` on whose five bytes end by `end` are registered: a slot
      that was filled stays, an empty one takes the first position that belongs to it. */
  ghost predicate Registered(hash: Hash, e: WindowEntry, e': WindowEntry, from: nat, end: nat) {
    && e'.data == e.data && e'.baseOffset == e.baseOffset && |e'.slots| == |e.slots| > 0 && end <= |e.data|
    && (forall k :: 0 <= k < |e.slots| && e.slots[k].Some? ==> e'.slots[k] == e.slots[k])
    && (forall k :: 0 <= k < |e.slots| && e.slots[k].None? ==> FirstIn(hash, e.data, |e.slots|, from, end, k, e'.slots[k]))
  }

  lemma RegisteredNone(hash: Hash, e: WindowEntry, from: nat, end: nat)
    requires |e.slots| > 0 && end <= |e.data| && end < from + MIN_MATCH_LEN
    ensures Registered(hash, e, e, from, end)
  {
  }

  /** Registering goes on where it stopped. */
  lemma RegisteredOn(hash: Hash, e: WindowEntry, f: WindowEntry, g: WindowEntry, from: nat, mid: nat, end: nat)
    requires from + MIN_MATCH_LEN <= mid + 1 && mid <= end
    requires Registered(hash, e, f, from, mid) && Registered(hash, f, g, mid + 1 - MIN_MATCH_LEN, end)
    ensures Registered(hash, e, g, from, end)
  {
    hide SlotOf;
    forall k | 0 <= k < |e.slots| && e.slots[k].None?
      ensures FirstIn(hash, e.data, |e.slots|, from, end, k, g.slots[k])
    {
      assert FirstIn(hash, e.data, |e.slots|, from, mid, k, f.slots[k]);
    }
  }

  function Least(a: nat, b: nat): nat {
    if a < b then a else b
  }

  /** Only positions with all their bytes before the end count. */
  lemma RegisteredEnd(hash: Hash, e: WindowEntry, f: WindowEntry, from: nat, end: nat, end': nat)
    requires Registered(hash, e, f, from, end) && end' <= |e.data|
    requires end == end' || (end <= from + MIN_MATCH_LEN - 1 && end' <= from + MIN_MATCH_LEN - 1)
    ensures Registered(hash, e, f, from, end')
  {
    hide SlotOf;
    forall k | 0 <= k < |e.slots| && e.slots[k].None?
      ensures FirstIn(hash, e.data, |e.slots|, from, end', k, f.slots[k])
    {
      assert FirstIn(hash, e.data, |e.slots|, from, end, k, f.slots[k]);
    }
  }

  lemma RegisteredSame(hash: Hash, e: WindowEntry, f: WindowEntry, from: nat, end: nat)
    requires Registered(hash, e, f, from, end)
    ensures f.data == e.data && f.baseOffset == e.baseOffset
  {
  }

  lemma SomeSlots(e: WindowEntry, limit: nat)
    requires Stored(e, limit)
    ensures |e.slots| > 0
  {
  }

  /** Only the last entry registers. */
  ghost predicate LastRegistered(hash: Hash, v: seq<WindowEntry>, w: seq<WindowEntry>, from: nat, end: nat) {
    && |v| == |w| > 0 && (forall i :: 0 <= i < |v| - 1 ==> w[i] == v[i])
    && Registered(hash, v[|v| - 1], w[|w| - 1], from, end)
  }

  /** How many bytes from position `p` of entry `i` on equal those from position `q` of
      the last entry on; in the last entry itself only bytes before `q` count. */
  function Shared(w: seq<WindowEntry>, i: nat, p: nat, q: nat): nat
    requires i < |w| && q <= |w[|w| - 1].data| && p <= if i == |w| - 1 then q else |w[i].data|
  {
    CommonPrefix(if i == |w| - 1 then w[i].data[p..q] else w[i].data[p..], w[|w| - 1].data[q..])
  }

  /** The position entry `i` remembers for the five bytes at position `q` of the last. */
  function Remembered(hash: Hash, w: seq<WindowEntry>, i: nat, q: nat): Option<nat>
    requires i < |w| && q + MIN_MATCH_LEN <= |w[|w| - 1].data| && |w[i].slots| > 0
  {
    w[i].slots[SlotOf(hash, w[|w| - 1].data, q, |w[i].slots|)]
  }

  /** Position `q` can be looked up in entry `i`, and a position of the last entry has
      been registered for it. */
  ghost predicate LookedUp(hash: Hash, w: seq<WindowEntry>, i: nat, q: nat) {
    && i < |w| && q + MIN_MATCH_LEN <= |w[|w| - 1].data| && |w[i].slots| > 0
    && var r := Remembered(hash, w, i, q);
      && (i == |w| - 1 ==> r.Some?)
      && (r.Some? ==> r.value <= if i == |w| - 1 then q else |w[i].data|)
  }

  /** Nowhere in the window is a match remembered for position `q`. */
  ghost predicate Passed(hash: Hash, w: seq<WindowEntry>, q: nat) {
    forall i :: 0 <= i < |w| ==> PassedIn(hash, w, i, q)
  }

  ghost predicate PassedIn(hash: Hash, w: seq<WindowEntry>, i: nat, q: nat) {
    && LookedUp(hash, w, i, q)
    && var r := Remembered(hash, w, i, q);
      r.Some? ==> Shared(w, i, r.value, q) < MIN_MATCH_LEN
  }

  /** The match is the best one remembered for position `q`: there is such a position,
      and no remembered position is longer, or as long and nearer. */
  ghost predicate BestAt(hash: Hash, w: seq<WindowEntry>, q: nat, offset: nat, n: nat) {
    && n >= MIN_MATCH_LEN
    && (forall i :: 0 <= i < |w| ==> NoBetterIn(hash, w, i, q, offset, n))
    && exists i :: 0 <= i < |w| && FoundIn(hash, w, i, q, offset, n)
  }

  ghost predicate FoundIn(hash: Hash, w: seq<WindowEntry>, i: nat, q: nat, offset: nat, n: nat) {
    && LookedUp(hash, w, i, q)
    && var r := Remembered(hash, w, i, q);
      r.Some? && Shared(w, i, r.value, q) == n && offset == w[i].baseOffset + q - r.value
  }

  ghost predicate NoBetterIn(hash: Hash, w: seq<WindowEntry>, i: nat, q: nat, offset: nat, n: nat) {
    && LookedUp(hash, w, i, q)
    && var r := Remembered(hash, w, i, q);
      r.Some? ==> Shared(w, i, r.value, q) < n || (Shared(w, i, r.value, q) == n && offset <= w[i].baseOffset + q - r.value)
  }

  /** What was looked up stays as it was when more is registered. */
  lemma StillLookedUp(hash: Hash, v: seq<WindowEntry>, w: seq<WindowEntry>, from: nat, end: nat, i: nat, q: nat)
    requires LastRegistered(hash, v, w, from, end) && LookedUp(hash, v, i, q)
    ensures LookedUp(hash, w, i, q) && Remembered(hash, w, i, q) == Remembered(hash, v, i, q)
    ensures w[i].data == v[i].data && w[|w| - 1].data == v[|v| - 1].data && w[i].baseOffset == v[i].baseOffset
  {
    hide SlotOf;
  }

  lemma StillPassed(hash: Hash, v: seq<WindowEntry>, w: seq<WindowEntry>, from: nat, end: nat, q: nat)
    requires LastRegistered(hash, v, w, from, end) && Passed(hash, v, q)
    ensures Passed(hash, w, q)
  {
    hide LastRegistered, LookedUp, Remembered, CommonPrefix;
    assert |v| == |w| by { RegisteredLength(hash, v, w, from, end); }
    forall i | 0 <= i < |w|
      ensures PassedIn(hash, w, i, q)
    {
      assert PassedIn(hash, v, i, q);
      StillPassedIn(hash, v, w, from, end, i, q);
    }
  }

  lemma RegisteredLength(hash: Hash, v: seq<WindowEntry>, w: seq<WindowEntry>, from: nat, end: nat)
    requires LastRegistered(hash, v, w, from, end)
    ensures |v| == |w| > 0
  {
  }

  lemma StillPassedIn(hash: Hash, v: seq<WindowEntry>, w: seq<WindowEntry>, from: nat, end: nat, i: nat, q: nat)
    requires LastRegistered(hash, v, w, from, end) && PassedIn(hash, v, i, q)
    ensures PassedIn(hash, w, i, q)
  {
    hide SlotOf, CommonPrefix, Registered;
    StillLookedUp(hash, v, w, from, end, i, q);
  }

  lemma StillBest(hash: Hash, v: seq<WindowEntry>, w: seq<WindowEntry>, from: nat, end: nat, q: nat, offset: nat, n: nat)
    requires LastRegistered(hash, v, w, from, end) && BestAt(hash, v, q, offset, n)
    ensures BestAt(hash, w, q, offset, n)
  {
    hide LastRegistered, NoBetterIn, FoundIn;
    RegisteredLength(hash, v, w, from, end);
    forall i | 0 <= i < |w|
      ensures NoBetterIn(hash, w, i, q, offset, n)
    {
      assert NoBetterIn(hash, v, i, q, offset, n);
      StillNoBetter(hash, v, w, from, end, i, q, offset, n);
    }
    var i :| 0 <= i < |v| && FoundIn(hash, v, i, q, offset, n);
    StillFound(hash, v, w, from, end, i, q, offset, n);
  }

  lemma StillNoBetter(hash: Hash, v: seq<WindowEntry>, w: seq<WindowEntry>, from: nat, end: nat, i: nat, q: nat, offset: nat, n: nat)
    requires LastRegistered(hash, v, w, from, end) && NoBetterIn(hash, v, i, q, offset, n)
    ensures NoBetterIn(hash, w, i, q, offset, n)
  {
    hide SlotOf, CommonPrefix, Registered;
    StillLookedUp(hash, v, w, from, end, i, q);
  }

  lemma StillFound(hash: Hash, v: seq<WindowEntry>, w: seq<WindowEntry>, from: nat, end: nat, i: nat, q: nat, offset: nat, n: nat)
    requires LastRegistered(hash, v, w, from, end) && FoundIn(hash, v, i, q, offset, n)
    ensures FoundIn(hash, w, i, q, offset, n)
  {
    hide SlotOf, CommonPrefix, Registered;
    StillLookedUp(hash, v, w, from, end, i, q);
  }

  /** What entry `i` has to offer at position `q` before the position is registered. */
  ghost predicate Offers(hash: Hash, w: seq<WindowEntry>, i: nat, q: nat, c: Option<(nat, nat)>) {
    && i < |w| && q + MIN_MATCH_LEN <= |w[|w| - 1].data| && |w[i].slots| > 0
    && var r := Remembered(hash, w, i, q);
      && (r.Some? ==> r.value <= if i == |w| - 1 then q else |w[i].data|)
      && (c.None? <==> r.None? || Shared(w, i, r.value, q) < MIN_MATCH_LEN)
      && (c.Some? ==> Shared(w, i, r.value, q) == c.value.1 && c.value.0 == w[i].baseOffset + q - r.value)
  }

  /** Registering position `q` itself adds nothing that shares bytes with it. */
  lemma OfferRegistered(hash: Hash, v: seq<WindowEntry>, w: seq<WindowEntry>, end: nat, i: nat, q: nat, c: Option<(nat, nat)>)
    requires LastRegistered(hash, v, w, q, end) && q + MIN_MATCH_LEN <= end && Offers(hash, v, i, q, c)
    ensures |w| == |v| && LookedUp(hash, w, i, q)
    ensures Remembered(hash, w, i, q) == Remembered(hash, v, i, q)
      || (i == |w| - 1 && Remembered(hash, v, i, q).None? && Remembered(hash, w, i, q) == Some(q))
    ensures w[i].data == v[i].data && w[|w| - 1].data == v[|v| - 1].data && w[i].baseOffset == v[i].baseOffset
  {
    hide CommonPrefix;
  }

  lemma OfferPassed(hash: Hash, v: seq<WindowEntry>, w: seq<WindowEntry>, end: nat, i: nat, q: nat)
    requires LastRegistered(hash, v, w, q, end) && q + MIN_MATCH_LEN <= end && Offers(hash, v, i, q, None)
    ensures PassedIn(hash, w, i, q)
  {
    hide CommonPrefix, LastRegistered, SlotOf;
    OfferRegistered(hash, v, w, end, i, q, None);
  }

  lemma OfferNoBetter(hash: Hash, v: seq<WindowEntry>, w: seq<WindowEntry>, end: nat, i: nat, q: nat, c: Option<(nat, nat)>, offset: nat, n: nat)
    requires LastRegistered(hash, v, w, q, end) && q + MIN_MATCH_LEN <= end && Offers(hash, v, i, q, c)
    requires n >= MIN_MATCH_LEN && (c.Some? ==> BetterOrEqual((offset, n), c.value))
    ensures NoBetterIn(hash, w, i, q, offset, n)
    ensures c == Some((offset, n)) ==> FoundIn(hash, w, i, q, offset, n)
  {
    hide CommonPrefix, LastRegistered, SlotOf;
    OfferRegistered(hash, v, w, end, i, q, c);
  }

  ghost predicate NoOffer(hash: Hash, w: seq<WindowEntry>, q: nat) {
    forall i :: 0 <= i < |w| ==> Offers(hash, w, i, q, None)
  }

  ghost predicate NoBetterOffer(hash: Hash, w: seq<WindowEntry>, i: nat, q: nat, offset: nat, n: nat) {
    exists c :: Offers(hash, w, i, q, c) && (c.Some? ==> BetterOrEqual((offset, n), c.value))
  }

  ghost predicate BestOffer(hash: Hash, w: seq<WindowEntry>, q: nat, offset: nat, n: nat) {
    && n >= MIN_MATCH_LEN
    && (forall i :: 0 <= i < |w| ==> NoBetterOffer(hash, w, i, q, offset, n))
    && exists i :: 0 <= i < |w| && Offers(hash, w, i, q, Some((offset, n)))
  }

  /** Without an offer the position is passed once it is registered. */
  lemma NoOfferPasses(hash: Hash, v: seq<WindowEntry>, w: seq<WindowEntry>, q: nat, end: nat)
    requires NoOffer(hash, v, q) && LastRegistered(hash, v, w, q, end) && q + MIN_MATCH_LEN <= end
    ensures Passed(hash, w, q)
  {
    hide LastRegistered, PassedIn, Offers;
    RegisteredLength(hash, v, w, q, end);
    forall i | 0 <= i < |w|
      ensures PassedIn(hash, w, i, q)
    {
      OfferPassed(hash, v, w, end, i, q);
    }
  }

  /** The best offer is the best match once the position is registered. */
  lemma BestOfferIsBest(hash: Hash, v: seq<WindowEntry>, w: seq<WindowEntry>, q: nat, end: nat, offset: nat, n: nat)
    requires BestOffer(hash, v, q, offset, n) && LastRegistered(hash, v, w, q, end) && q + MIN_MATCH_LEN <= end
    ensures BestAt(hash, w, q, offset, n)
  {
    hide LastRegistered, NoBetterIn, FoundIn, Offers, BetterOrEqual;
    RegisteredLength(hash, v, w, q, end);
    forall i | 0 <= i < |w|
      ensures NoBetterIn(hash, w, i, q, offset, n)
    {
      assert NoBetterOffer(hash, v, i, q, offset, n);
      var c :| Offers(hash, v, i, q, c) && (c.Some? ==> BetterOrEqual((offset, n), c.value));
      OfferNoBetter(hash, v, w, end, i, q, c, offset, n);
    }
    var i :| 0 <= i < |v| && Offers(hash, v, i, q, Some((offset, n)));
    assert BetterOrEqual((offset, n), (offset, n)) by { SelfIsAsGood(offset, n); }
    OfferNoBetter(hash, v, w, end, i, q, Some((offset, n)), offset, n);
    assert FoundIn(hash, w, i, q, offset, n);
  }

  lemma SelfIsAsGood(offset: nat, n: nat)
    ensures BetterOrEqual((offset, n), (offset, n))
  {
  }

  lemma LastRegisteredOn(hash: Hash, u: seq<WindowEntry>, v: seq<WindowEntry>, w: seq<WindowEntry>, from: nat, q: nat, end: nat)
    requires from <= q && q + MIN_MATCH_LEN <= end + 1
    requires LastRegistered(hash, u, v, from, q + MIN_MATCH_LEN - 1) && LastRegistered(hash, v, w, q, end)
    ensures LastRegistered(hash, u, w, from, end)
  {
    hide Registered;
    var n := |u|;
    RegisteredOn(hash, u[n - 1], v[n - 1], w[n - 1], from, q + MIN_MATCH_LEN - 1, end);
  }

  /** All positions in between that can be looked up are passed. */
  ghost predicate AllPassed(hash: Hash, w: seq<WindowEntry>, from: nat, to: nat)
    requires w != []
  {
    forall q :: from <= q < to && q + MIN_MATCH_LEN <= |w[|w| - 1].data| ==> Passed(hash, w, q)
  }

  lemma AllStillPassed(hash: Hash, v: seq<WindowEntry>, w: seq<WindowEntry>, from: nat, to: nat, at: nat, end: nat)
    requires v != [] && LastRegistered(hash, v, w, at, end) && AllPassed(hash, v, from, to)
    ensures w != [] && AllPassed(hash, w, from, to)
  {
    hide Passed;
    forall q | from <= q < to && q + MIN_MATCH_LEN <= |w[|w| - 1].data|
      ensures Passed(hash, w, q)
    {
      StillPassed(hash, v, w, at, end, q);
    }
  }

  lemma OneMorePassed(hash: Hash, w: seq<WindowEntry>, from: nat, q: nat)
    requires w != [] && AllPassed(hash, w, from, q) && Passed(hash, w, q)
    ensures AllPassed(hash, w, from, q + 1)
  {
    hide Passed;
  }

  /** The last four positions cannot be looked up. */
  lemma PassedToEnd(hash: Hash, w: seq<WindowEntry>, from: nat, q: nat, end: nat)
    requires w != [] && AllPassed(hash, w, from, q) && |w[|w| - 1].data| < q + MIN_MATCH_LEN
    ensures AllPassed(hash, w, from, end)
  {
    hide Passed;
  }

  /** Literals come from passed positions, a match from behind them is the best one. */
  ghost predicate EmittedBest(hash: Hash, w: seq<WindowEntry>, s: Emitted, from: nat, to: nat)
    requires w != []
  {
    match s
    case Literals(_) => AllPassed(hash, w, from, to)
    case Triple(_, offset, n) => from + n <= to && AllPassed(hash, w, from, to - n) && BestAt(hash, w, to - n, offset, n)
  }

  // ----- the generator -----

  class MatchGenerator {
    const hash: seq<byte> -> nat
    const maxWindowSize: nat
    var window: seq<WindowEntry>
    var windowSize: nat
    var suffixIdx: nat
    var lastIdxInSequence: nat

    ghost predicate Valid()
      reads this
    {
      && windowSize == |Joined(window, |window|)| <= maxWindowSize
      && lastIdxInSequence <= suffixIdx
      && (window == [] ==> suffixIdx == 0)
      && (window != [] ==> suffixIdx <= |window[|window| - 1].data|)
      && (forall i :: 0 <= i < |window| ==> Distance(window, i))
      && (forall i :: 0 <= i < |window| ==> Stored(window[i], if i == |window| - 1 then suffixIdx else |window[i].data|))
    }

    /** All bytes of the window. */
    ghost function All(): seq<byte>
      reads this
    {
      Joined(window, |window|)
    }

    ghost function LastStart(): nat
      requires window != []
      reads this
    {
      |Joined(window, |window| - 1)|
    }

    /** The bytes a decoder has once everything emitted so far is replayed. */
    ghost function Emission(): seq<byte>
      requires Valid()
      reads this
    {
      if window == [] then [] else
      EmissionInside();
      All()[..LastStart() + lastIdxInSequence]
    }

    lemma EmissionInside()
      requires Valid() && window != []
      ensures LastStart() + suffixIdx <= |All()|
      ensures All() == Joined(window, |window| - 1) + window[|window| - 1].data
    {
    }

    constructor (maxSize: nat, hash: seq<byte> -> nat)
      ensures Valid() && window == [] && maxWindowSize == maxSize && this.hash == hash
    {
      this.hash := hash;
      maxWindowSize := maxSize;
      window, windowSize, suffixIdx, lastIdxInSequence := [], 0, 0, 0;
    }

    function Key(slots: seq<Option<nat>>, suffix: seq<byte>): (k: nat)
      requires |slots| > 0
      ensures k < |slots|
    {
      ModBound(hash(suffix), |slots|);
      hash(suffix) % |slots|
    }

    /** What one entry has to offer for the suffix at the current position. */
    function CandidateIn(i: nat): (r: Option<(nat, nat)>)
      requires Valid() && i < |window| && suffixIdx + MIN_MATCH_LEN <= |window[|window| - 1].data|
      reads this
    {
      var e, last := window[i], window[|window| - 1];
      var dataSlice := last.data[suffixIdx..];
      assert Stored(e, if i == |window| - 1 then suffixIdx else |e.data|);
      var stored := e.slots[Key(e.slots, dataSlice[..MIN_MATCH_LEN])];
      if stored.None? then None else
      var matchIndex := stored.value;
      var matchSlice := if i == |window| - 1 then e.data[matchIndex..suffixIdx] else e.data[matchIndex..];
      var matchLen := MismatchChunks(matchSlice, dataSlice, 8);
      if matchLen < MIN_MATCH_LEN then None
      else
        DistanceCovers(i, matchIndex);
        Some((e.baseOffset + suffixIdx - matchIndex, matchLen))
    }

    lemma DistanceCovers(i: nat, matchIndex: nat)
      requires Valid() && i < |window| && matchIndex <= if i == |window| - 1 then suffixIdx else |window[i].data|
      ensures matchIndex <= window[i].baseOffset + suffixIdx
      ensures i < |window| - 1 ==> |window[i].data| <= window[i].baseOffset
      ensures i == |window| - 1 ==> window[i].baseOffset == 0
    {
      assert Distance(window, i);
      if i < |window| - 1 {
        JoinedParts(window, i, |window| - 1);
      }
    }

    /** Every candidate is a true match inside the window. */
    lemma CandidateMatches(i: nat)
      requires Valid() && i < |window| && suffixIdx + MIN_MATCH_LEN <= |window[|window| - 1].data|
      requires CandidateIn(i).Some?
      ensures IsMatch(All(), LastStart() + suffixIdx, CandidateIn(i).value.0, CandidateIn(i).value.1)
    {
      hide CommonPrefix, MismatchChunks, Joined, IsMatch;
      var e, last := window[i], window[|window| - 1];
      assert Stored(e, if i == |window| - 1 then suffixIdx else |e.data|);
      EntryMatches(window, suffixIdx, i, e.slots[Key(e.slots, last.data[suffixIdx..][..MIN_MATCH_LEN])].value);
    }

    lemma CandidateIs(i: nat)
      requires Valid() && i < |window| && suffixIdx + MIN_MATCH_LEN <= |window[|window| - 1].data|
      ensures Offers(hash, window, i, suffixIdx, CandidateIn(i))
    {
      hide CommonPrefix, MismatchChunks, Joined;
      var e, last := window[i], window[|window| - 1];
      assert Stored(e, if i == |window| - 1 then suffixIdx else |e.data|);
      assert last.data[suffixIdx..][..MIN_MATCH_LEN] == last.data[suffixIdx..suffixIdx + MIN_MATCH_LEN];
      var r := Remembered(hash, window, i, suffixIdx);
      if r.Some? {
        DistanceCovers(i, r.value);
        ChunksFindPrefix(if i == |window| - 1 then e.data[r.value..suffixIdx] else e.data[r.value..], last.data[suffixIdx..], 8);
      }
    }

    /** The current position can be looked up. */
    ghost predicate CanSearch()
      requires Valid()
      reads this
    {
      window != [] && suffixIdx + MIN_MATCH_LEN <= |window[|window| - 1].data|
    }

    /** `c` is the best of the first `n` entries' candidates: the longest, the nearest
        of the longest. */
    ghost predicate Best(c: Option<(nat, nat)>, n: nat)
      requires Valid() && CanSearch() && n <= |window|
      reads this
    {
      && (c.Some? ==> exists i :: 0 <= i < n && CandidateIn(i) == c)
      && forall i :: 0 <= i < n && CandidateIn(i).Some? ==> c.Some? && BetterOrEqual(c.value, CandidateIn(i).value)
    }

    /** Look in each window entry. */
    method FindCandidate() returns (candidate: Option<(nat, nat)>)
      requires Valid() && CanSearch()
      ensures Best(candidate, |window|)
      ensures candidate.None? ==> NoOffer(hash, window, suffixIdx)
      ensures candidate.Some? ==> BestOffer(hash, window, suffixIdx, candidate.value.0, candidate.value.1)
      ensures candidate.Some? ==> IsMatch(All(), LastStart() + suffixIdx, candidate.value.0, candidate.value.1)
    {
      hide CandidateIn, IsMatch, Stored, Distance;
      candidate := None;
      for i := 0 to |window|
        invariant Best(candidate, i)
        invariant candidate.Some? ==> IsMatch(All(), LastStart() + suffixIdx, candidate.value.0, candidate.value.1)
      {
        var found := CandidateIn(i);
        if found.Some? {
          CandidateMatches(i);
          var (offset, matchLen) := found.value;
          if candidate.Some? {
            var (oldOffset, oldMatchLen) := candidate.value;
            if matchLen > oldMatchLen || (matchLen == oldMatchLen && offset < oldOffset) {
              candidate := found;
            }
          } else {
            candidate := found;
          }
        }
      }
      BestIsBest(candidate);
    }

    lemma BestIsBest(c: Option<(nat, nat)>)
      requires Valid() && CanSearch() && Best(c, |window|)
      requires c.Some? ==> IsMatch(All(), LastStart() + suffixIdx, c.value.0, c.value.1)
      ensures c.None? ==> NoOffer(hash, window, suffixIdx)
      ensures c.Some? ==> BestOffer(hash, window, suffixIdx, c.value.0, c.value.1)
    {
      hide CandidateIn, Offers, IsMatch, Joined, Stored, Distance, BetterOrEqual;
      forall i | 0 <= i < |window|
        ensures Offers(hash, window, i, suffixIdx, CandidateIn(i))
        ensures c.None? ==> Offers(hash, window, i, suffixIdx, None)
        ensures c.Some? ==> NoBetterOffer(hash, window, i, suffixIdx, c.value.0, c.value.1)
      {
        CandidateIs(i);
      }
      if c.Some? {
        var (offset, n) := c.value;
        MatchInside(All(), LastStart() + suffixIdx, offset, n);
        var i :| 0 <= i < |window| && CandidateIn(i) == c;
        assert Offers(hash, window, i, suffixIdx, Some((offset, n)));
      }
    }

    /** Remember position `idx` for its key, unless the slot is taken. */
    function Remember(e: WindowEntry, idx: nat): (e': WindowEntry)
      requires |e.slots| > 0 && idx + MIN_MATCH_LEN <= |e.data|
      ensures e'.data == e.data && e'.baseOffset == e.baseOffset && |e'.slots| == |e.slots|
      ensures forall limit :: Stored(e, limit) && idx <= limit ==> Stored(e', limit)
      ensures Registered(hash, e, e', idx, idx + MIN_MATCH_LEN)
    {
      var k := Key(e.slots, e.data[idx..idx + MIN_MATCH_LEN]);
      if e.slots[k].Some? then e else e.(slots := e.slots[k := Some(idx)])
    }

    /** Remember the positions whose whole key lies before `idx`; the next look-up
        will be at `idx`. */
    method AddSuffixesTill(idx: nat)
      requires Valid() && window != [] && suffixIdx <= idx <= |window[|window| - 1].data|
      modifies `window, `suffixIdx
      ensures Valid() && suffixIdx == idx && SameData(window, old(window)) && All() == old(All())
      ensures LastStart() == old(LastStart())
      ensures LastRegistered(hash, old(window), window, old(suffixIdx), idx)
    {
      hide Registered, Joined, Distance, Stored;
      ghost var before := window;
      var n := |window|;
      var entry := window[n - 1];
      assert Stored(entry, suffixIdx);
      SomeSlots(entry, suffixIdx);
      StoredMore(entry, suffixIdx, idx);
      if |entry.data| >= MIN_MATCH_LEN {
        var keyIndex := suffixIdx;
        ghost var reached := Least(suffixIdx + MIN_MATCH_LEN - 1, |entry.data|);
        RegisteredNone(hash, entry, suffixIdx, reached);
        while keyIndex + MIN_MATCH_LEN <= idx
          invariant window == before && suffixIdx == old(suffixIdx) <= keyIndex && entry.data == before[n - 1].data && entry.baseOffset == before[n - 1].baseOffset
          invariant |entry.slots| > 0 && Stored(entry, idx)
          invariant keyIndex == suffixIdx || keyIndex + MIN_MATCH_LEN <= idx + 1
          invariant Registered(hash, before[n - 1], entry, suffixIdx, Least(keyIndex + MIN_MATCH_LEN - 1, |entry.data|))
        {
          ghost var previous := entry;
          entry := Remember(entry, keyIndex);
          RegisteredOn(hash, before[n - 1], previous, entry, suffixIdx, keyIndex + MIN_MATCH_LEN - 1, keyIndex + MIN_MATCH_LEN);
          keyIndex := keyIndex + 1;
        }
        RegisteredEnd(hash, before[n - 1], entry, suffixIdx, Least(keyIndex + MIN_MATCH_LEN - 1, |entry.data|), idx);
        RegisteredSame(hash, before[n - 1], entry, suffixIdx, idx);
        window := window[n - 1 := entry];
      } else {
        RegisteredNone(hash, entry, suffixIdx, idx);
      }
      suffixIdx := idx;
      Replaced(before, window);
      assert Registered(hash, before[n - 1], window[n - 1], old(suffixIdx), idx);
      assert LastRegistered(hash, before, window, old(suffixIdx), idx);
      assert Stored(window[n - 1], idx);
      assert forall i :: 0 <= i < n ==> Stored(window[i], if i == n - 1 then suffixIdx else |window[i].data|);
      assert forall i :: 0 <= i < n ==> Distance(window, i);
    }

    /** Go on until a sequence is complete: a match with the literals before it, the
        literals at the end, or nothing more. What is emitted, replayed on what was
        emitted before, reproduces the data up to the new position. Every position gone
        over is registered; a position is passed, or counted among the literals at the
        end, only where no match is remembered for it, and a match emitted is the best
        one remembered for its position. */
    method NextSequence() returns (s: Option<Emitted>)
      requires Valid() && window != []
      modifies `window, `suffixIdx, `lastIdxInSequence
      ensures Valid() && SameData(window, old(window)) && All() == old(All()) && LastStart() == old(LastStart())
      ensures s.None? ==> old(Emission()) == Emission() == All() && lastIdxInSequence == old(lastIdxInSequence)
      ensures s.Some? ==> Replay(old(Emission()), s.value) == Some(Emission()) && lastIdxInSequence > old(lastIdxInSequence)
      ensures s.Some? && s.value.Literals? ==> Emission() == All()
      ensures s.Some? && s.value.Triple? ==>
        && MIN_MATCH_LEN <= s.value.matchLen <= s.value.offset
        && s.value.offset + s.value.matchLen <= |All()|
        && lastIdxInSequence == old(lastIdxInSequence) + |s.value.literals| + s.value.matchLen
      ensures LastRegistered(hash, old(window), window, old(suffixIdx), suffixIdx)
      ensures s.None? <==> old(lastIdxInSequence) == |window[|window| - 1].data|
      ensures s.Some? ==> suffixIdx == lastIdxInSequence && EmittedBest(hash, window, s.value, old(suffixIdx), suffixIdx)
    {
      hide Replay, Joined, Stored, Distance, LastRegistered, AllPassed, Registered, MatchGenerator.All,
        MatchGenerator.LastStart, MatchGenerator.Emission;
      ghost var w, from, data := window, suffixIdx, window[|window| - 1].data;
      NothingRegistered();
      while true
        invariant Valid() && window != [] && SameData(window, w) && All() == old(All())
        invariant lastIdxInSequence == old(lastIdxInSequence) && LastStart() == old(LastStart()) && from <= suffixIdx
        invariant Emission() == old(Emission())
        invariant LastRegistered(hash, w, window, from, Least(suffixIdx + MIN_MATCH_LEN - 1, |data|))
        invariant AllPassed(hash, window, from, suffixIdx)
        decreases |data| - suffixIdx
      {
        var data := window[|window| - 1].data;
        if suffixIdx >= |data| {
          if lastIdxInSequence != suffixIdx {
            s := EmitRest();
            return;
          } else {
            AllEmitted();
            return None;
          }
        }
        if |data| - suffixIdx < MIN_MATCH_LEN {
          ghost var q := suffixIdx;
          s := EmitRest();
          PassedToEnd(hash, window, from, q, suffixIdx);
          return;
        }
        s := EmitOrStep(w, from);
        if s.Some? {
          return;
        }
      }
    }

    /** Emit the best match at the current position or step over it. */
    method EmitOrStep(ghost w: seq<WindowEntry>, ghost from: nat) returns (s: Option<Emitted>)
      requires Valid() && CanSearch() && from <= suffixIdx
      requires LastRegistered(hash, w, window, from, suffixIdx + MIN_MATCH_LEN - 1) && AllPassed(hash, window, from, suffixIdx)
      modifies `window, `suffixIdx, `lastIdxInSequence
      ensures Valid() && SameData(window, old(window)) && All() == old(All()) && LastStart() == old(LastStart()) && window != []
      ensures s.None? ==>
        && suffixIdx == old(suffixIdx) + 1 && lastIdxInSequence == old(lastIdxInSequence) && Emission() == old(Emission())
        && LastRegistered(hash, w, window, from, suffixIdx + MIN_MATCH_LEN - 1) && AllPassed(hash, window, from, suffixIdx)
      ensures s.Some? ==>
        && s.value.Triple? && Replay(old(Emission()), s.value) == Some(Emission())
        && MIN_MATCH_LEN <= s.value.matchLen <= s.value.offset
        && s.value.offset + s.value.matchLen <= |All()|
        && suffixIdx == lastIdxInSequence == old(lastIdxInSequence) + |s.value.literals| + s.value.matchLen
        && LastRegistered(hash, w, window, from, suffixIdx) && EmittedBest(hash, window, s.value, from, suffixIdx)
    {
      hide IsMatch, Best, CandidateIn, Replay, Joined, Stored, Distance, LzCopy, LastRegistered, Passed, BestAt,
        BestOffer, NoOffer, AllPassed, Registered, MatchGenerator.All, MatchGenerator.LastStart,
        MatchGenerator.Emission;
      ghost var v, q := window, suffixIdx;
      var candidate := FindCandidate();
      if candidate.Some? {
        var (offset, matchLen) := candidate.value;
        MatchInside(All(), LastStart() + suffixIdx, offset, matchLen);
        s := EmitMatch(offset, matchLen);
        LastRegisteredOn(hash, w, v, window, from, q, suffixIdx);
        BestOfferIsBest(hash, v, window, q, suffixIdx, offset, matchLen);
        AllStillPassed(hash, v, window, from, q, q, suffixIdx);
        return;
      }
      s := None;
      AddSuffixesTillNext();
      LastRegisteredOn(hash, w, v, window, from, q, q + MIN_MATCH_LEN);
      NoOfferPasses(hash, v, window, q, q + MIN_MATCH_LEN);
      AllStillPassed(hash, v, window, from, q, q, q + MIN_MATCH_LEN);
      OneMorePassed(hash, window, from, q);
    }

    lemma NothingRegistered()
      requires Valid() && window != []
      ensures var data := window[|window| - 1].data;
        LastRegistered(hash, window, window, suffixIdx, Least(suffixIdx + MIN_MATCH_LEN - 1, |data|))
      ensures AllPassed(hash, window, suffixIdx, suffixIdx)
    {
      var e := window[|window| - 1];
      assert Stored(e, suffixIdx);
      RegisteredNone(hash, e, suffixIdx, Least(suffixIdx + MIN_MATCH_LEN - 1, |e.data|));
    }

    lemma AllEmitted()
      requires Valid() && window != [] && lastIdxInSequence == |window[|window| - 1].data|
      ensures Emission() == All()
    {
      EmissionInside();
    }

    /** What is left of the block, as literals. */
    method EmitRest() returns (s: Option<Emitted>)
      requires Valid() && window != [] && lastIdxInSequence < |window[|window| - 1].data|
      modifies `suffixIdx, `lastIdxInSequence
      ensures Valid() && Emission() == All() && lastIdxInSequence > old(lastIdxInSequence)
      ensures s == Some(Literals(window[|window| - 1].data[old(lastIdxInSequence)..]))
      ensures suffixIdx == lastIdxInSequence == |window[|window| - 1].data|
      ensures All() == old(All()) && LastStart() == old(LastStart())
      ensures Replay(old(Emission()), s.value) == Some(Emission())
    {
      EmissionInside();
      var data := window[|window| - 1].data;
      var literals := data[lastIdxInSequence..];
      AllLiterals(All(), data, LastStart(), lastIdxInSequence);
      StoredMore(window[|window| - 1], suffixIdx, |data|);
      lastIdxInSequence := |data|;
      suffixIdx := |data|;
      s := Some(Literals(literals));
    }

    /** Register the positions inside the match and emit it. */
    method EmitMatch(offset: nat, matchLen: nat) returns (s: Option<Emitted>)
      requires Valid() && window != [] && IsMatch(All(), LastStart() + suffixIdx, offset, matchLen)
      modifies `window, `suffixIdx, `lastIdxInSequence
      ensures LastRegistered(hash, old(window), window, old(suffixIdx), suffixIdx) && suffixIdx == lastIdxInSequence
      ensures Valid() && SameData(window, old(window)) && All() == old(All()) && LastStart() == old(LastStart())
      ensures s.Some? && s.value == Triple(old(window)[|window| - 1].data[old(lastIdxInSequence)..old(suffixIdx)], offset, matchLen)
      ensures Replay(old(Emission()), s.value) == Some(Emission())
      ensures lastIdxInSequence == old(suffixIdx) + matchLen
      ensures MIN_MATCH_LEN <= matchLen <= offset && offset + matchLen <= |All()|
    {
      hide IsMatch, Joined, Replay, Stored, Distance, LzCopy, LastRegistered;
      EmissionInside();
      ghost var all, start, pos := All(), LastStart(), LastStart() + suffixIdx;
      var from, at := lastIdxInSequence, suffixIdx;
      MatchInside(all, pos, offset, matchLen);
      AddSuffixesTill(suffixIdx + matchLen);
      var lastData := window[|window| - 1].data;
      var literals := lastData[from..at];
      lastIdxInSequence := suffixIdx;
      LiteralSlice(all, lastData, start, from, at);
      MatchReplays(all, start + from, pos, offset, matchLen);
      s := Some(Triple(literals, offset, matchLen));
    }

    /** No match here: remember the position and move on by one byte. */
    method AddSuffixesTillNext()
      requires Valid() && CanSearch()
      modifies `window, `suffixIdx
      ensures Valid() && suffixIdx == old(suffixIdx) + 1 && SameData(window, old(window)) && All() == old(All())
      ensures LastStart() == old(LastStart())
      ensures LastRegistered(hash, old(window), window, old(suffixIdx), old(suffixIdx) + MIN_MATCH_LEN)
      ensures Emission() == old(Emission())
    {
      hide Registered, Joined, Distance;
      ghost var before := window;
      var n := |window|;
      assert Stored(window[n - 1], suffixIdx);
      StoredMore(window[n - 1], suffixIdx, suffixIdx + 1);
      window := window[n - 1 := Remember(window[n - 1], suffixIdx)];
      suffixIdx := suffixIdx + 1;
      Replaced(before, window);
    }

    /** Take the whole block as processed without looking for matches. */
    method SkipMatching()
      requires Valid() && window != []
      modifies `window, `suffixIdx, `lastIdxInSequence
      ensures Valid() && SameData(window, old(window)) && All() == old(All()) && Emission() == All()
      ensures window != [] && suffixIdx == |window[|window| - 1].data|
      ensures LastRegistered(hash, old(window), window, old(suffixIdx), suffixIdx)
    {
      AddSuffixesTill(|window[|window| - 1].data|);
      lastIdxInSequence := suffixIdx;
      EmissionInside();
    }

    /** Remove the oldest blocks until the new one fits. */
    method Reserve(amount: nat)
      requires Valid() && maxWindowSize >= amount && (window == [] || suffixIdx == |window[|window| - 1].data|)
      modifies `window, `windowSize, `suffixIdx, `lastIdxInSequence
      ensures Valid() && windowSize + amount <= maxWindowSize && (window == [] || suffixIdx == |window[|window| - 1].data|)
      ensures exists dropped :: dropped + All() == old(All())
      ensures old(windowSize) + amount <= maxWindowSize ==> window == old(window)
      ensures |old(window)| == 1 && old(windowSize) + amount > maxWindowSize ==> window == []
      ensures exists d :: DropsOldest(old(window), window, d, amount, maxWindowSize)
    {
      hide Joined, Stored, Distance;
      ghost var all := All();
      ghost var dropped: seq<byte> := [];
      assert dropped + All() == all;
      ghost var w, d := window, 0;
      assert w[0..] == w;
      while windowSize + amount > maxWindowSize
        invariant Valid() && dropped + All() == all && (window == [] || suffixIdx == |window[|window| - 1].data|)
        invariant old(windowSize) + amount <= maxWindowSize ==> window == old(window)
        invariant DropsOldest(w, window, d, amount, maxWindowSize)
        invariant |old(window)| == 1 ==> window == [] || (window == old(window) && windowSize == old(windowSize))
        decreases |window|
      {
        SizeIs();
        ghost var first, rest := window[0].data, Joined(window[1..], |window| - 1);
        JoinedTail(window, |window|);
        Join3(dropped, first, rest);
        dropped := dropped + first;
        RemoveOldest();
        d := d + 1;
      }
    }

    lemma SizeIs()
      requires Valid()
      ensures windowSize == |All()| && (window == [] ==> windowSize == 0)
    {
    }

    method RemoveOldest()
      requires Valid() && window != [] && suffixIdx == |window[|window| - 1].data|
      modifies `window, `windowSize, `suffixIdx, `lastIdxInSequence
      ensures Valid() && window == old(window)[1..] && (window == [] || suffixIdx == |window[|window| - 1].data|)
    {
      ghost var w := window;
      JoinedTail(w, |w|);
      StillDistances(w);
      windowSize := windowSize - |window[0].data|;
      window := window[1..];
      if window == [] {
        suffixIdx := 0;
        lastIdxInSequence := 0;
      }
    }

    /** Start a new block. The one before has to be finished. */
    method AddData(data: seq<byte>, capacity: nat)
      requires Valid() && capacity > 0 && |data| <= maxWindowSize
      requires window == [] || suffixIdx == |window[|window| - 1].data|
      modifies `window, `windowSize, `suffixIdx, `lastIdxInSequence
      ensures Valid() && window != [] && window[|window| - 1].data == data && suffixIdx == 0 && lastIdxInSequence == 0
      ensures exists kept, d :: DropsOldest(old(window), kept, d, |data|, maxWindowSize) && Pushed(kept, window, data, capacity)
      ensures exists dropped, kept :: dropped + kept == old(All()) && All() == kept + data && Emission() == kept
      ensures old(windowSize) + |data| <= maxWindowSize ==> All() == old(All()) + data
      ensures old(window) == [] || (|old(window)| == 1 && old(windowSize) + |data| > maxWindowSize) ==>
        |window| == 1 && All() == data && Emission() == []
    {
      ghost var all := All();
      Reserve(|data|);
      ghost var w, d :| w == window && DropsOldest(old(window), w, d, |data|, maxWindowSize);
      ghost var kept := All();
      ghost var dropped :| dropped + kept == all;
      PushEntry(data, capacity);
      assert DropsOldest(old(window), w, d, |data|, maxWindowSize) && Pushed(w, window, data, capacity);
      assert dropped + kept == old(All()) && All() == kept + data && Emission() == kept;
    }

    /** The new entry at the end, all others that much further away. */
    method PushEntry(data: seq<byte>, capacity: nat)
      requires Valid() && capacity > 0 && windowSize + |data| <= maxWindowSize
      requires window == [] || suffixIdx == |window[|window| - 1].data|
      modifies `window, `windowSize, `suffixIdx, `lastIdxInSequence
      ensures Valid() && window != [] && window[|window| - 1].data == data && suffixIdx == 0 && lastIdxInSequence == 0
      ensures All() == old(All()) + data && Emission() == old(All()) && Pushed(old(window), window, data, capacity)
    {
      hide Joined, Stored, Distance;
      ghost var before := window;
      if window != [] {
        var lastLen := |window[|window| - 1].data|;
        var w := window;
        window := seq(|w|, i requires 0 <= i < |w| => w[i].(baseOffset := w[i].baseOffset + lastLen));
      }
      MovedBack(before, window, data, capacity);
      StillStored(before, window, data, capacity);
      window := window + [WindowEntry(data, seq(capacity, k => None), 0)];
      windowSize := windowSize + |data|;
      suffixIdx := 0;
      lastIdxInSequence := 0;
      StartOfEntry(window, data);
    }
  }

  /** The oldest `d` entries are gone, no more than necessary to make room. */
  ghost predicate DropsOldest(v: seq<WindowEntry>, w: seq<WindowEntry>, d: nat, amount: nat, maxSize: nat) {
    d <= |v| && w == v[d..] && (d > 0 ==> |Joined(v[d - 1..], |v| - d + 1)| + amount > maxSize)
  }

  /** Behind the old entries, moved back by the length of the last one with all they
      remember, stands a new entry that remembers nothing. */
  ghost predicate Pushed(v: seq<WindowEntry>, w: seq<WindowEntry>, data: seq<byte>, capacity: nat) {
    && |w| == |v| + 1 && w[|v|] == WindowEntry(data, seq(capacity, k => None), 0)
    && forall i :: 0 <= i < |v| ==>
      w[i].data == v[i].data && w[i].slots == v[i].slots && w[i].baseOffset == v[i].baseOffset + |v[|v| - 1].data|
  }

  /** The part of an entry a match may be taken from. */
  function MatchSlice(w: seq<WindowEntry>, suffix: nat, i: nat, matchIndex: nat): seq<byte>
    requires i < |w| && matchIndex <= (if i == |w| - 1 then suffix else |w[i].data|)
    requires suffix <= |w[|w| - 1].data|
  {
    if i == |w| - 1 then w[i].data[matchIndex..suffix] else w[i].data[matchIndex..]
  }

  /** A stored position with a common prefix is a match at the computed offset. */
  lemma EntryMatches(w: seq<WindowEntry>, suffix: nat, i: nat, matchIndex: nat)
    requires i < |w| && suffix <= |w[|w| - 1].data| && Distance(w, i)
    requires matchIndex <= if i == |w| - 1 then suffix else |w[i].data|
    requires MismatchChunks(MatchSlice(w, suffix, i, matchIndex), w[|w| - 1].data[suffix..], 8) >= MIN_MATCH_LEN
    ensures matchIndex <= w[i].baseOffset + suffix
    ensures IsMatch(Joined(w, |w|), |Joined(w, |w| - 1)| + suffix, w[i].baseOffset + suffix - matchIndex,
      MismatchChunks(MatchSlice(w, suffix, i, matchIndex), w[|w| - 1].data[suffix..], 8))
  {
    hide CommonPrefix, MismatchChunks, Joined, Distance, MatchSlice;
    var n := |w|;
    var slice, data := MatchSlice(w, suffix, i, matchIndex), w[n - 1].data[suffix..];
    ChunksFindPrefix(slice, data, 8);
    var len := CommonPrefix(slice, data);
    JoinedParts(w, i, n);
    JoinedParts(w, n - 1, n);
    EntryOffset(w, suffix, i, matchIndex);
    SlicesMatch(Joined(w, n), w[i].data, w[n - 1].data, |Joined(w, i)|, |Joined(w, n - 1)|, matchIndex, suffix, slice, len);
  }

  /** The offset leads from the current position to the stored one, and a match
      slice does not reach beyond the current position. */
  lemma EntryOffset(w: seq<WindowEntry>, suffix: nat, i: nat, matchIndex: nat)
    requires i < |w| && suffix <= |w[|w| - 1].data| && Distance(w, i)
    requires matchIndex <= if i == |w| - 1 then suffix else |w[i].data|
    ensures matchIndex <= w[i].baseOffset + suffix
    ensures var offset := w[i].baseOffset + suffix - matchIndex;
      && |Joined(w, |w| - 1)| + suffix - offset == |Joined(w, i)| + matchIndex
      && |MatchSlice(w, suffix, i, matchIndex)| <= offset
      && |MatchSlice(w, suffix, i, matchIndex)| <= |w[i].data| - matchIndex
      && MatchSlice(w, suffix, i, matchIndex) == w[i].data[matchIndex..matchIndex + |MatchSlice(w, suffix, i, matchIndex)|]
  {
    hide Joined;
    if i < |w| - 1 {
      JoinedParts(w, i, |w| - 1);
    }
  }

  /** Equal slices of two blocks are equal slices of the whole. */
  lemma SlicesMatch(all: seq<byte>, a: seq<byte>, b: seq<byte>, startA: nat, startB: nat, i: nat, j: nat, slice: seq<byte>, n: nat)
    requires startA + |a| <= |all| && startB + |b| <= |all|
    requires all[startA..startA + |a|] == a && all[startB..startB + |b|] == b
    requires i <= |a| && j <= |b| && |slice| <= |a| - i && slice == a[i..i + |slice|]
    requires n <= |slice| && n <= |b| - j && slice[..n] == b[j..][..n]
    ensures startA + i + n <= |all| && startB + j + n <= |all|
    ensures all[startA + i..startA + i + n] == all[startB + j..startB + j + n]
  {
    SubSlice(all, a, startA, i, n);
    SubSlice(all, b, startB, j, n);
    assert a[i..i + |slice|][..n] == a[i..i + n];
    assert b[j..][..n] == b[j..j + n];
  }

  lemma SubSlice(all: seq<byte>, a: seq<byte>, start: nat, i: nat, n: nat)
    requires start + |a| <= |all| && all[start..start + |a|] == a && i + n <= |a|
    ensures all[start + i..start + i + n] == a[i..i + n]
  {
    var x, y := all[start + i..start + i + n], a[i..i + n];
    forall k | 0 <= k < n
      ensures x[k] == y[k]
    {
      assert all[start..start + |a|][i + k] == a[i + k];
    }
  }

  lemma ModBound(x: nat, m: nat)
    requires m > 0
    ensures x % m < m
  {
  }

  /** Longer, or as long and not further away. */
  ghost predicate BetterOrEqual(c: (nat, nat), d: (nat, nat)) {
    c.1 > d.1 || (c.1 == d.1 && c.0 <= d.0)
  }

  lemma StoredMore(e: WindowEntry, limit: nat, more: nat)
    requires Stored(e, limit) && limit <= more
    ensures Stored(e, more)
  {
  }

  /** Only the stored positions of the last entry changed. */
  lemma Replaced(v: seq<WindowEntry>, w: seq<WindowEntry>)
    requires |v| == |w| > 0 && forall i :: 0 <= i < |v| ==> v[i].data == w[i].data && v[i].baseOffset == w[i].baseOffset
    ensures SameData(w, v) && Joined(v, |v|) == Joined(w, |w|) && Joined(v, |v| - 1) == Joined(w, |w| - 1)
    ensures forall i :: 0 <= i < |v| && Distance(v, i) ==> Distance(w, i)
  {
    SameJoined(v, w, |v|);
    SameJoined(v, w, |v| - 1);
    forall i | 0 <= i < |v| && Distance(v, i)
      ensures Distance(w, i)
    {
      SameJoined(v, w, i);
    }
  }

  /** The end of the last block as literals. */
  lemma AllLiterals(all: seq<byte>, data: seq<byte>, start: nat, from: nat)
    requires start <= |all| && all[start..] == data && from <= |data|
    ensures start + |data| == |all| && all[..start + from] + data[from..] == all
    ensures all[..start + |data|] == all
  {
    assert all[start + from..] == all[start..][from..];
  }

  lemma LiteralSlice(all: seq<byte>, data: seq<byte>, start: nat, from: nat, to: nat)
    requires start <= |all| && all[start..] == data && from <= to <= |data|
    ensures start + to <= |all| && data[from..to] == all[start + from..start + to]
  {
    SubSlice(all, data, start, from, to - from);
  }

  /** Distances do not depend on what was removed at the front. */
  lemma StillDistances(w: seq<WindowEntry>)
    requires |w| > 0 && forall i :: 0 <= i < |w| ==> Distance(w, i)
    ensures forall i :: 0 <= i < |w| - 1 ==> Distance(w[1..], i)
  {
    hide Distance;
    forall i | 0 <= i < |w| - 1
      ensures Distance(w[1..], i)
    {
      StillDistance(w, i);
    }
  }

  lemma StillDistance(w: seq<WindowEntry>, i: nat)
    requires i < |w| - 1 && Distance(w, i + 1)
    ensures Distance(w[1..], i)
  {
    hide Joined;
    JoinedTail(w, i + 1);
    JoinedTail(w, |w| - 1);
    assert w[1..][i] == w[i + 1];
    assert |w[0].data| + |Joined(w[1..], i)| == |Joined(w, i + 1)|;
    assert |w[0].data| + |Joined(w[1..], |w| - 2)| == |Joined(w, |w| - 1)|;
  }

  lemma StillStored(v: seq<WindowEntry>, w: seq<WindowEntry>, data: seq<byte>, capacity: nat)
    requires |v| == |w| && capacity > 0
    requires forall i :: 0 <= i < |v| ==> Stored(v[i], |v[i].data|)
    requires forall i :: 0 <= i < |v| ==> w[i].data == v[i].data && w[i].slots == v[i].slots
    ensures var r := w + [WindowEntry(data, seq(capacity, k => None), 0)];
      forall i :: 0 <= i < |r| ==> Stored(r[i], if i == |r| - 1 then 0 else |r[i].data|)
  {
  }

  lemma StartOfEntry(w: seq<WindowEntry>, data: seq<byte>)
    requires |w| > 0 && w[|w| - 1].data == data
    ensures Joined(w, |w|) == Joined(w, |w| - 1) + data
    ensures Joined(w, |w|)[..|Joined(w, |w| - 1)|] == Joined(w, |w| - 1)
  {
  }

  /** The new block moves all others back by the length of the block before it. */
  lemma MovedBack(v: seq<WindowEntry>, w: seq<WindowEntry>, data: seq<byte>, capacity: nat)
    requires |v| == |w| && forall i :: 0 <= i < |v| ==> Distance(v, i)
    requires forall i :: 0 <= i < |v| ==> w[i].data == v[i].data && w[i].baseOffset == v[i].baseOffset + |v[|v| - 1].data|
    ensures var r := w + [WindowEntry(data, seq(capacity, k => None), 0)];
      && (forall i :: 0 <= i < |r| ==> Distance(r, i))
      && Joined(r, |w|) == Joined(v, |v|) && Joined(r, |r|) == Joined(v, |v|) + data
  {
    var r := w + [WindowEntry(data, seq(capacity, k => None), 0)];
    SameJoined(r, v, |v|);
    forall i | 0 <= i < |r|
      ensures Distance(r, i)
    {
      if i < |v| {
        assert Distance(v, i);
        SameJoined(r, v, i);
        SameJoined(r, v, |v| - 1);
      }
    }
  }
}
