/** The tables as the standard has them: every entry of every table by the formula of
    the reference implementation, and the three predefined tables literally, entry by
    entry, as in Appendix A of RFC 8878. */
module FsePredefined {
  import opened Numbers
  import opened FseSpread
  import opened FseLayout
  import opened FseDistribution
  import opened SequenceTables

  // ----- the stride -----

  lemma {:induction false} LowIsMod(v: nat, k: nat)
    ensures Low(v, k) == v % Pow2(k)
  {
    if k > 0 {
      LowIsMod(v / 2, k - 1);
      DivDiv(v, 2, Pow2(k - 1));
    }
  }

  /** In a table of `2^k` cells step `i` of the walk stands on this cell; in
      particular one step from cell 0 leads to half the size plus an eighth plus 3. */
  lemma StepsOfWalk(k: nat, i: nat)
    requires k >= 4
    ensures Pos(k, i) == i * (Pow2(k - 1) + Pow2(k - 3) + 3) % Pow2(k)
    ensures NextPosition(0, Pow2(k)) == (Pow2(k - 1) + Pow2(k - 3) + 3) % Pow2(k)
  {
    hide Low, Pow2, NextPosition;
    LowIsMod(i * Stride(k), k);
    PosNext(k, 0);
    LowIsMod(0 * Stride(k), k);
    ModSmall(0, Pow2(k));
    LowIsMod(1 * Stride(k), k);
  }

  // ----- entries -----

  /** State `n` of a symbol with `p` of `2^k` cells, counted in table order: with
      `x == p + n` it reads the bits missing from `x` to the table size, and its
      baseline is what `x` shifted by them exceeds the table size. */
  lemma EntryFormula(k: nat, p: nat, n: nat)
    requires 0 < p <= Pow2(k) && n < p
    ensures var j, x := RankToRange(p, n), p + n;
      && Log2(x) <= k
      && RangeBits(k, p, j) == k - Log2(x)
      && RangeStart(k, p, j) == x * Pow2(k - Log2(x)) - Pow2(k)
  {
    hide CeilLog, Doubles, Singles, RankToRange, RangeBits, RangeStart, Width, WidthBits, Log2, Pow2;
    CeilLogBound(p, k);
    var a, w := CeilLog(p), Pow2(k - CeilLog(p));
    RangesByRank(k, p, n);
    Pow2Add(a, k - a);
    if p + n < Pow2(a) {
      CeilLogPositive(p, a);
      Log2Unique(p + n, a - 1);
      Pow2Double(k - a + 1);
      Halves(p, n, Pow2(a), w);
    } else {
      Pow2Double(a + 1);
      Log2Unique(p + n, a);
      Wholes(p + n, Pow2(a), w);
    }
  }

  lemma RangesByRank(k: nat, p: nat, n: nat)
    requires 0 < p <= Pow2(k) && n < p && CeilLog(p) <= k
    ensures var j, a, w := RankToRange(p, n), CeilLog(p), Pow2(k - CeilLog(p));
      && Pow2(a) >= p && 2 * p > Pow2(a)
      && (p + n < Pow2(a) ==> RangeBits(k, p, j) == k - a + 1 && RangeStart(k, p, j) == (2 * p - Pow2(a)) * w + n * (2 * w))
      && (p + n >= Pow2(a) ==> RangeBits(k, p, j) == k - a && RangeStart(k, p, j) == (p + n - Pow2(a)) * w)
  {
    hide CeilLog, Pow2;
    var s := Singles(p);
    if n < Doubles(p) && n == 0 {
      assert 0 * (2 * Width(k, p)) == 0;
    }
  }

  lemma CeilLogPositive(p: nat, a: nat)
    requires 0 < p < Pow2(a) && 2 * p > Pow2(a)
    ensures a > 0 && Pow2(a - 1) <= p && Pow2(a) == 2 * Pow2(a - 1)
  {
  }

  lemma Halves(p: nat, n: nat, size: nat, w: nat)
    requires 2 * p >= size
    ensures (2 * p - size) * w + n * (2 * w) == (p + n) * (2 * w) - size * w
  {
  }

  lemma Wholes(x: nat, size: nat, w: nat)
    requires x >= size
    ensures (x - size) * w == x * w - size * w
  {
  }

  /** Every entry of a table: below the -1 symbols by the formula, at the top one
      full-width entry for each of them. */
  lemma EveryEntry(probs: seq<int>, k: nat, c: nat)
    requires ValidProbs(probs, k) && c < Pow2(k)
    ensures var e := DecodeTable(probs, k)[c];
      && e.symbol < |probs|
      && (c >= Free(probs) ==> e.baseLine == 0 && e.numBits == k && probs[e.symbol] == -1 && NegBefore(probs, e.symbol) == Pow2(k) - 1 - c)
      && (c < Free(probs) ==>
            var x := probs[e.symbol] + Rank(SymbolTable(probs, k), c);
            && e.symbol == SymbolTable(probs, k)[c] && 0 < x && Log2(x) <= k
            && e.numBits == k - Log2(x) && e.baseLine == x * Pow2(k - Log2(x)) - Pow2(k))
  {
    hide SymbolTable, CellsOf, RangeStart, RangeBits, RankToRange, Log2, Pow2;
    if c < Free(probs) {
      RankBound(probs, k, c);
      var tab := SymbolTable(probs, k);
      EntryFormula(k, probs[tab[c]], Rank(tab, c));
    }
  }

  // ----- the cells of a symbol, named one by one -----

  lemma {:induction false} StrictIndices(f: seq<nat>, i: nat)
    requires (forall a, b :: 0 <= a < b < |f| ==> f[a] < f[b]) && forall a :: 0 <= a < |f| ==> f[a] < |f|
    requires i < |f|
    ensures f[i] == i
    decreases |f|
  {
    if |f| > 1 {
      var g, last := f[..|f| - 1], f[|f| - 1];
      assert forall a :: 0 <= a < |g| ==> g[a] < last;
      StrictIndices(g, if i < |g| then i else |g| - 1);
    }
  }

  /** Cell `c` is the one the walk reaches in `step` steps, behind `m` other cells. */
  lemma OwnerOf(probs: seq<int>, k: nat, s: nat, c: nat, step: nat, m: nat)
    requires ValidProbs(probs, k) && s < |probs| && step < Pow2(k) && c == Pos(k, step) < Free(probs)
    requires m == |Walk(k, Free(probs), step)| && Before(probs, s) <= m < Before(probs, s) + Slots(probs[s])
    ensures SymbolTable(probs, k)[c] == s
  {
    hide Pos, SymbolTable, Owners, Before, Pow2;
    var free := Free(probs);
    WalkPrefix(k, free, step + 1, Pow2(k));
    assert Walk(k, free, step + 1)[m] == c;
    SlotBound(probs, k, s);
    SymbolAtCell(probs, k, m);
    OwnerIff(probs, |probs|, s, m);
  }

  /** All cells of a symbol in ascending order have ascending ranks. */
  lemma RankOf(probs: seq<int>, k: nat, s: nat, cells: seq<nat>, r: nat)
    requires ValidProbs(probs, k) && s < |probs| && probs[s] == |cells| && r < |cells| && Ascending(cells)
    requires forall i :: 0 <= i < |cells| ==> cells[i] < Free(probs) && SymbolTable(probs, k)[cells[i]] == s
    ensures Rank(SymbolTable(probs, k), cells[r]) == r
  {
    hide SymbolTable, CellsOf, Pow2;
    var tab := SymbolTable(probs, k);
    var ranks := seq(|cells|, i requires 0 <= i < |cells| => Rank(tab, cells[i]));
    forall i | 0 <= i < |cells|
      ensures ranks[i] < |cells|
    {
      RankBound(probs, k, cells[i]);
    }
    forall i, j | 0 <= i < j < |cells|
      ensures ranks[i] < ranks[j]
    {
      CellAtRank(tab, s, cells[j], cells[i]);
    }
    StrictIndices(ranks, r);
  }

  /** Entry number `x` of a symbol in a table of 64 cells, `x` below eight. */
  function Of64(x: nat, s: nat): Entry
    requires 0 < x < 8
  {
    if x == 1 then Entry(0, 6, s)
    else if x < 4 then Entry((x - 2) * 32, 5, s)
    else Entry((x - 4) * 16, 4, s)
  }

  function Of32(x: nat, s: nat): Entry
    requires 0 < x < 4
  {
    if x == 1 then Entry(0, 5, s) else Entry((x - 2) * 16, 4, s)
  }

  /** Four entries from state `c` on. */
  predicate Row(t: seq<Entry>, c: nat, e0: Entry, e1: Entry, e2: Entry, e3: Entry) {
    |t| >= c + 4 && t[c] == e0 && t[c + 1] == e1 && t[c + 2] == e2 && t[c + 3] == e3
  }

  lemma SmallLogs(x: nat)
    requires 0 < x < 8
    ensures Log2(x) == if x == 1 then 0 else if x < 4 then 1 else 2
  {
    Pow2Values();
    Log2Unique(x, if x == 1 then 0 else if x < 4 then 1 else 2);
  }

  lemma EntryValue(k: nat, x: nat, e: Entry)
    requires (k == 6 && 0 < x < 8) || (k == 5 && 0 < x < 4)
    requires Log2(x) <= k && e.numBits == k - Log2(x) && e.baseLine == x * Pow2(k - Log2(x)) - Pow2(k)
    ensures e == if k == 6 then Of64(x, e.symbol) else Of32(x, e.symbol)
  {
    hide Log2, Pow2;
    SmallLogs(x);
    Pow2Values();
    if x == 1 {
    } else if x < 4 {
      assert x * Pow2(k - 1) == if k == 6 then 32 * x else 16 * x;
    } else {
      assert x * Pow2(k - 2) == 16 * x;
    }
  }

  lemma EntryOfRank(probs: seq<int>, k: nat, c: nat, s: nat, r: nat)
    requires ValidProbs(probs, k) && c < Free(probs) && (k == 6 || k == 5)
    requires s < |probs| && SymbolTable(probs, k)[c] == s && Rank(SymbolTable(probs, k), c) == r
    requires 0 < probs[s] + r < (if k == 6 then 8 else 4)
    ensures c < Pow2(k)
    ensures DecodeTable(probs, k)[c] == if k == 6 then Of64(probs[s] + r, s) else Of32(probs[s] + r, s)
  {
    hide SymbolTable, CellsOf, Rank, Log2, Pow2, DecodeTable, DecodeEntry, ValidProbs, Before, Of64, Of32;
    FreeInside(probs, k);
    EveryEntry(probs, k, c);
    EntryValue(k, probs[s] + r, DecodeTable(probs, k)[c]);
  }

  lemma FreeInside(probs: seq<int>, k: nat)
    requires ValidProbs(probs, k)
    ensures Free(probs) <= Pow2(k)
  {
    hide Before, NegBefore;
  }

  // ----- literal lengths -----

  function LlProbability(s: nat): int {
    if s < 1 then 4 else if s < 2 then 3 else if s < 13 then 2 else if s < 16 then 1 else if s < 25 then 2 else if s < 26 then 3 else if s < 27 then 2 else if s < 32 then 1 else -1
  }

  lemma LlProb(s: nat)
    requires s < 36
    ensures |LL_DEFAULTS| == 36 && LL_DEFAULTS[s] == LlProbability(s)
  {
  }

  /** Slots in front of a symbol. */
  function LlFirst(s: nat): int {
    if s < 1 then 4 * s else if s < 2 then 3 * s + 1 else if s < 13 then 2 * s + 3 else if s < 16 then s + 16 else if s < 25 then 2 * s else if s < 26 then 3 * s - 25 else if s < 27 then 2 * s + 1 else if s < 32 then s + 28 else 60
  }

  lemma {:induction false} LlBefore(s: nat)
    requires s <= 36
    ensures Before(LL_DEFAULTS, s) == LlFirst(s) && NegBefore(LL_DEFAULTS, s) == if s < 32 then 0 else s - 32
  {
    hide LL_DEFAULTS;
    if s > 0 {
      LlBefore(s - 1);
      LlProb(s - 1);
    } else {
      LlProb(0);
    }
  }

  /** Free cells met in `i` steps. */
  function LlMet(i: nat): int {
    if i <= 52 then i else if i <= 55 then i - 1 else if i <= 58 then i - 2 else if i <= 61 then i - 3 else i - 4
  }

  lemma {:induction false} LlWalk(i: nat)
    requires i <= 64
    ensures |Walk(6, 60, i)| == LlMet(i)
  {
    hide Pos;
    if i > 0 {
      LlWalk(i - 1);
      LlPos(i - 1);
    }
  }

  lemma LlPos(i: nat)
    requires i < 64
    ensures Pos(6, i) == 43 * i % 64
    ensures Pos(6, i) < 60 <==> i != 52 && i != 55 && i != 58 && i != 61
  {
    hide Pos, Pow2;
    Pow2Values();
    StepsOfWalk(6, i);
    LlStride(i);
  }

  lemma LlStride(i: nat)
    requires i < 64
    ensures 43 * i % 64 < 60 <==> i != 52 && i != 55 && i != 58 && i != 61
  {
  }

  lemma LlBack(c: nat)
    requires c < 64
    ensures 43 * (3 * c % 64) % 64 == c
  {
    var q, r := 3 * c / 64, 3 * c % 64;
    DivModUnique(64, 2 * c - 43 * q, c);
  }

  /** The walk reaches the cell while it places the symbol. */
  predicate LlHas(s: nat, c: nat) {
    c < 60 && LlFirst(s) <= LlMet(3 * c % 64) < LlFirst(s) + LlProbability(s)
  }

  lemma LlOwner(s: nat, c: nat)
    requires s < 32 && LlHas(s, c) && ValidProbs(LL_DEFAULTS, 6)
    ensures c < Free(LL_DEFAULTS) == 60 && LL_DEFAULTS[s] == LlProbability(s) > 0 && |LL_DEFAULTS| == 36
    ensures SymbolTable(LL_DEFAULTS, 6)[c] == s
  {
    hide LL_DEFAULTS, SymbolTable, Pow2, Pos, LlFirst, LlMet, LlProbability, Walk;
    Pow2Values();
    var step := 3 * c % 64;
    LlBefore(s);
    LlProb(s);
    LlBefore(36);
    LlAll();
    LlWalk(step);
    LlPos(step);
    LlBack(c);
    OwnerOf(LL_DEFAULTS, 6, s, c, step, LlMet(step));
  }

  lemma LlAll()
    ensures LlFirst(36) == 60
  {
  }

  /** A symbol and all its cells. */
  lemma LlSymbol(s: nat, cells: seq<nat>)
    requires s < 32 && 0 < |cells| <= 4 && LlProbability(s) == |cells| && Ascending(cells) && ValidProbs(LL_DEFAULTS, 6)
    requires forall r :: 0 <= r < |cells| ==> LlHas(s, cells[r])
    ensures var t, p := DecodeTable(LL_DEFAULTS, 6), |cells|;
      |t| == 64 && forall r :: 0 <= r < p ==> cells[r] < 60 && t[cells[r]] == Of64(p + r, s)
  {
    hide LL_DEFAULTS, SymbolTable, DecodeTable, DecodeEntry, Rank, ValidProbs, Pow2, Of64, LlHas, LlProbability;
    Pow2Values();
    forall r | 0 <= r < |cells|
      ensures cells[r] < Free(LL_DEFAULTS) == 60 && SymbolTable(LL_DEFAULTS, 6)[cells[r]] == s && |LL_DEFAULTS| == 36 && LL_DEFAULTS[s] == |cells|
    {
      LlOwner(s, cells[r]);
    }
    var first := cells[0];
    forall r | 0 <= r < |cells|
      ensures DecodeTable(LL_DEFAULTS, 6)[cells[r]] == Of64(|cells| + r, s)
    {
      RankOf(LL_DEFAULTS, 6, s, cells, r);
      EntryOfRank(LL_DEFAULTS, 6, cells[r], s, r);
    }
  }

  lemma LlOne(s: nat, a: nat)
    requires s < 32 && LlProbability(s) == 1 && ValidProbs(LL_DEFAULTS, 6) && a < 60
    requires LlHas(s, a)
    ensures var t := DecodeTable(LL_DEFAULTS, 6);
      |t| == 64 && t[a] == Of64(1, s)
  {
    hide ValidProbs, DecodeTable, DecodeEntry, Pow2, LL_DEFAULTS, Of64, LlHas, LlProbability;
    var cells := [a];
    LlSymbol(s, cells);
    assert cells[0] == a;
  }

  lemma LlTwo(s: nat, a: nat, b: nat)
    requires s < 32 && LlProbability(s) == 2 && ValidProbs(LL_DEFAULTS, 6) && a < b < 60
    requires LlHas(s, a) && LlHas(s, b)
    ensures var t := DecodeTable(LL_DEFAULTS, 6);
      |t| == 64 && t[a] == Of64(2, s) && t[b] == Of64(3, s)
  {
    hide ValidProbs, DecodeTable, DecodeEntry, Pow2, LL_DEFAULTS, Of64, LlHas, LlProbability;
    var cells := [a, b];
    LlSymbol(s, cells);
    assert cells[0] == a && cells[1] == b;
  }

  lemma LlThree(s: nat, a: nat, b: nat, c: nat)
    requires s < 32 && LlProbability(s) == 3 && ValidProbs(LL_DEFAULTS, 6) && a < b < c < 60
    requires LlHas(s, a) && LlHas(s, b) && LlHas(s, c)
    ensures var t := DecodeTable(LL_DEFAULTS, 6);
      |t| == 64 && t[a] == Of64(3, s) && t[b] == Of64(4, s) && t[c] == Of64(5, s)
  {
    hide ValidProbs, DecodeTable, DecodeEntry, Pow2, LL_DEFAULTS, Of64, LlHas, LlProbability;
    var cells := [a, b, c];
    LlSymbol(s, cells);
    assert cells[0] == a && cells[1] == b && cells[2] == c;
  }

  lemma LlFour(s: nat, a: nat, b: nat, c: nat, d: nat)
    requires s < 32 && LlProbability(s) == 4 && ValidProbs(LL_DEFAULTS, 6) && a < b < c < d < 60
    requires LlHas(s, a) && LlHas(s, b) && LlHas(s, c) && LlHas(s, d)
    ensures var t := DecodeTable(LL_DEFAULTS, 6);
      |t| == 64 && t[a] == Of64(4, s) && t[b] == Of64(5, s) && t[c] == Of64(6, s) && t[d] == Of64(7, s)
  {
    hide ValidProbs, DecodeTable, DecodeEntry, Pow2, LL_DEFAULTS, Of64, LlHas, LlProbability;
    var cells := [a, b, c, d];
    LlSymbol(s, cells);
    assert cells[0] == a && cells[1] == b && cells[2] == c && cells[3] == d;
  }

  lemma LlSymbols0To3()
    requires ValidProbs(LL_DEFAULTS, 6)
    ensures var t := DecodeTable(LL_DEFAULTS, 6);
      && |t| == 64
      && t[0] == Entry(0, 4, 0) && t[1] == Entry(16, 4, 0) && t[22] == Entry(32, 4, 0) && t[43] == Entry(48, 4, 0)
      && t[2] == Entry(32, 5, 1) && t[23] == Entry(0, 4, 1) && t[44] == Entry(16, 4, 1)
      && t[24] == Entry(0, 5, 2) && t[45] == Entry(32, 5, 2)
      && t[3] == Entry(0, 5, 3) && t[46] == Entry(32, 5, 3)
  {
    hide ValidProbs, DecodeTable, DecodeEntry, Pow2, LL_DEFAULTS;
    LlFour(0, 0, 1, 22, 43);
    LlThree(1, 2, 23, 44);
    LlTwo(2, 24, 45);
    LlTwo(3, 3, 46);
  }

  lemma LlSymbols4To7()
    requires ValidProbs(LL_DEFAULTS, 6)
    ensures var t := DecodeTable(LL_DEFAULTS, 6);
      && |t| == 64
      && t[4] == Entry(0, 5, 4) && t[25] == Entry(32, 5, 4)
      && t[26] == Entry(0, 5, 5) && t[47] == Entry(32, 5, 5)
      && t[5] == Entry(0, 5, 6) && t[48] == Entry(32, 5, 6)
      && t[6] == Entry(0, 5, 7) && t[27] == Entry(32, 5, 7)
  {
    hide ValidProbs, DecodeTable, DecodeEntry, Pow2, LL_DEFAULTS;
    LlTwo(4, 4, 25);
    LlTwo(5, 26, 47);
    LlTwo(6, 5, 48);
    LlTwo(7, 6, 27);
  }

  lemma LlSymbols8To11()
    requires ValidProbs(LL_DEFAULTS, 6)
    ensures var t := DecodeTable(LL_DEFAULTS, 6);
      && |t| == 64
      && t[28] == Entry(0, 5, 8) && t[49] == Entry(32, 5, 8)
      && t[7] == Entry(0, 5, 9) && t[50] == Entry(32, 5, 9)
      && t[8] == Entry(0, 5, 10) && t[29] == Entry(32, 5, 10)
      && t[30] == Entry(0, 5, 11) && t[51] == Entry(32, 5, 11)
  {
    hide ValidProbs, DecodeTable, DecodeEntry, Pow2, LL_DEFAULTS;
    LlTwo(8, 28, 49);
    LlTwo(9, 7, 50);
    LlTwo(10, 8, 29);
    LlTwo(11, 30, 51);
  }

  lemma LlSymbols12To15()
    requires ValidProbs(LL_DEFAULTS, 6)
    ensures var t := DecodeTable(LL_DEFAULTS, 6);
      && |t| == 64
      && t[9] == Entry(0, 5, 12) && t[52] == Entry(32, 5, 12)
      && t[31] == Entry(0, 6, 13)
      && t[10] == Entry(0, 6, 14)
      && t[53] == Entry(0, 6, 15)
  {
    hide ValidProbs, DecodeTable, DecodeEntry, Pow2, LL_DEFAULTS;
    LlTwo(12, 9, 52);
    LlOne(13, 31);
    LlOne(14, 10);
    LlOne(15, 53);
  }

  lemma LlSymbols16To19()
    requires ValidProbs(LL_DEFAULTS, 6)
    ensures var t := DecodeTable(LL_DEFAULTS, 6);
      && |t| == 64
      && t[11] == Entry(0, 5, 16) && t[32] == Entry(32, 5, 16)
      && t[33] == Entry(0, 5, 17) && t[54] == Entry(32, 5, 17)
      && t[12] == Entry(0, 5, 18) && t[55] == Entry(32, 5, 18)
      && t[13] == Entry(0, 5, 19) && t[34] == Entry(32, 5, 19)
  {
    hide ValidProbs, DecodeTable, DecodeEntry, Pow2, LL_DEFAULTS;
    LlTwo(16, 11, 32);
    LlTwo(17, 33, 54);
    LlTwo(18, 12, 55);
    LlTwo(19, 13, 34);
  }

  lemma LlSymbols20To23()
    requires ValidProbs(LL_DEFAULTS, 6)
    ensures var t := DecodeTable(LL_DEFAULTS, 6);
      && |t| == 64
      && t[35] == Entry(0, 5, 20) && t[56] == Entry(32, 5, 20)
      && t[14] == Entry(0, 5, 21) && t[57] == Entry(32, 5, 21)
      && t[15] == Entry(0, 5, 22) && t[36] == Entry(32, 5, 22)
      && t[37] == Entry(0, 5, 23) && t[58] == Entry(32, 5, 23)
  {
    hide ValidProbs, DecodeTable, DecodeEntry, Pow2, LL_DEFAULTS;
    LlTwo(20, 35, 56);
    LlTwo(21, 14, 57);
    LlTwo(22, 15, 36);
    LlTwo(23, 37, 58);
  }

  lemma LlSymbols24To27()
    requires ValidProbs(LL_DEFAULTS, 6)
    ensures var t := DecodeTable(LL_DEFAULTS, 6);
      && |t| == 64
      && t[16] == Entry(0, 5, 24) && t[59] == Entry(32, 5, 24)
      && t[17] == Entry(32, 5, 25) && t[38] == Entry(0, 4, 25) && t[39] == Entry(16, 4, 25)
      && t[18] == Entry(0, 5, 26) && t[40] == Entry(32, 5, 26)
      && t[19] == Entry(0, 6, 27)
  {
    hide ValidProbs, DecodeTable, DecodeEntry, Pow2, LL_DEFAULTS;
    LlTwo(24, 16, 59);
    LlThree(25, 17, 38, 39);
    LlTwo(26, 18, 40);
    LlOne(27, 19);
  }

  lemma LlSymbols28To31()
    requires ValidProbs(LL_DEFAULTS, 6)
    ensures var t := DecodeTable(LL_DEFAULTS, 6);
      && |t| == 64
      && t[41] == Entry(0, 6, 28)
      && t[20] == Entry(0, 6, 29)
      && t[42] == Entry(0, 6, 30)
      && t[21] == Entry(0, 6, 31)
  {
    hide ValidProbs, DecodeTable, DecodeEntry, Pow2, LL_DEFAULTS;
    LlOne(28, 41);
    LlOne(29, 20);
    LlOne(30, 42);
    LlOne(31, 21);
  }

  lemma LlTop(c: nat)
    requires 60 <= c < 64 && ValidProbs(LL_DEFAULTS, 6)
    ensures |DecodeTable(LL_DEFAULTS, 6)| == 64 && DecodeTable(LL_DEFAULTS, 6)[c] == Entry(0, 6, 95 - c)
  {
    hide DecodeTable, SymbolTable, LL_DEFAULTS, Pow2;
    Pow2Values();
    LlBefore(36);
    LlProb(0);
    EveryEntry(LL_DEFAULTS, 6, c);
    var s := DecodeTable(LL_DEFAULTS, 6)[c].symbol;
    LlProb(s);
    LlBefore(s);
  }

  /** The whole table of Appendix A. */
  lemma LlTable()
    ensures ValidProbs(LL_DEFAULTS, 6)
    ensures var t := DecodeTable(LL_DEFAULTS, 6);
      && |t| == 64
      && Row(t, 0, Entry(0, 4, 0), Entry(16, 4, 0), Entry(32, 5, 1), Entry(0, 5, 3))
      && Row(t, 4, Entry(0, 5, 4), Entry(0, 5, 6), Entry(0, 5, 7), Entry(0, 5, 9))
      && Row(t, 8, Entry(0, 5, 10), Entry(0, 5, 12), Entry(0, 6, 14), Entry(0, 5, 16))
      && Row(t, 12, Entry(0, 5, 18), Entry(0, 5, 19), Entry(0, 5, 21), Entry(0, 5, 22))
      && Row(t, 16, Entry(0, 5, 24), Entry(32, 5, 25), Entry(0, 5, 26), Entry(0, 6, 27))
      && Row(t, 20, Entry(0, 6, 29), Entry(0, 6, 31), Entry(32, 4, 0), Entry(0, 4, 1))
      && Row(t, 24, Entry(0, 5, 2), Entry(32, 5, 4), Entry(0, 5, 5), Entry(32, 5, 7))
      && Row(t, 28, Entry(0, 5, 8), Entry(32, 5, 10), Entry(0, 5, 11), Entry(0, 6, 13))
      && Row(t, 32, Entry(32, 5, 16), Entry(0, 5, 17), Entry(32, 5, 19), Entry(0, 5, 20))
      && Row(t, 36, Entry(32, 5, 22), Entry(0, 5, 23), Entry(0, 4, 25), Entry(16, 4, 25))
      && Row(t, 40, Entry(32, 5, 26), Entry(0, 6, 28), Entry(0, 6, 30), Entry(48, 4, 0))
      && Row(t, 44, Entry(16, 4, 1), Entry(32, 5, 2), Entry(32, 5, 3), Entry(32, 5, 5))
      && Row(t, 48, Entry(32, 5, 6), Entry(32, 5, 8), Entry(32, 5, 9), Entry(32, 5, 11))
      && Row(t, 52, Entry(32, 5, 12), Entry(0, 6, 15), Entry(32, 5, 17), Entry(32, 5, 18))
      && Row(t, 56, Entry(32, 5, 20), Entry(32, 5, 21), Entry(32, 5, 23), Entry(32, 5, 24))
      && Row(t, 60, Entry(0, 6, 35), Entry(0, 6, 34), Entry(0, 6, 33), Entry(0, 6, 32))
  {
    hide ValidProbs, DecodeTable, DecodeEntry, Pow2, LL_DEFAULTS;
    LlDefaultsValid();
    LlSymbols0To3();
    LlSymbols4To7();
    LlSymbols8To11();
    LlSymbols12To15();
    LlSymbols16To19();
    LlSymbols20To23();
    LlSymbols24To27();
    LlSymbols28To31();
    LlTop(60);
    LlTop(61);
    LlTop(62);
    LlTop(63);
  }

  // ----- match lengths -----

  function MlProbability(s: nat): int {
    if s < 1 then 1 else if s < 2 then 4 else if s < 3 then 3 else if s < 9 then 2 else if s < 46 then 1 else -1
  }

  lemma MlProb(s: nat)
    requires s < 53
    ensures |ML_DEFAULTS| == 53 && ML_DEFAULTS[s] == MlProbability(s)
  {
  }

  /** Slots in front of a symbol. */
  function MlFirst(s: nat): int {
    if s < 1 then s else if s < 2 then 4 * s - 3 else if s < 3 then 3 * s - 1 else if s < 9 then 2 * s + 2 else if s < 46 then s + 11 else 57
  }

  lemma {:induction false} MlBefore(s: nat)
    requires s <= 53
    ensures Before(ML_DEFAULTS, s) == MlFirst(s) && NegBefore(ML_DEFAULTS, s) == if s < 46 then 0 else s - 46
  {
    hide ML_DEFAULTS;
    if s > 0 {
      MlBefore(s - 1);
      MlProb(s - 1);
    } else {
      MlProb(0);
    }
  }

  /** Free cells met in `i` steps. */
  function MlMet(i: nat): int {
    if i <= 43 then i else if i <= 46 then i - 1 else if i <= 49 then i - 2 else if i <= 52 then i - 3 else if i <= 55 then i - 4 else if i <= 58 then i - 5 else if i <= 61 then i - 6 else i - 7
  }

  lemma {:induction false} MlWalk(i: nat)
    requires i <= 64
    ensures |Walk(6, 57, i)| == MlMet(i)
  {
    hide Pos;
    if i > 0 {
      MlWalk(i - 1);
      MlPos(i - 1);
    }
  }

  lemma MlPos(i: nat)
    requires i < 64
    ensures Pos(6, i) == 43 * i % 64
    ensures Pos(6, i) < 57 <==> i != 43 && i != 46 && i != 49 && i != 52 && i != 55 && i != 58 && i != 61
  {
    hide Pos, Pow2;
    Pow2Values();
    StepsOfWalk(6, i);
    MlStride(i);
  }

  lemma MlStride(i: nat)
    requires i < 64
    ensures 43 * i % 64 < 57 <==> i != 43 && i != 46 && i != 49 && i != 52 && i != 55 && i != 58 && i != 61
  {
  }

  lemma MlBack(c: nat)
    requires c < 64
    ensures 43 * (3 * c % 64) % 64 == c
  {
    var q, r := 3 * c / 64, 3 * c % 64;
    DivModUnique(64, 2 * c - 43 * q, c);
  }

  /** The walk reaches the cell while it places the symbol. */
  predicate MlHas(s: nat, c: nat) {
    c < 57 && MlFirst(s) <= MlMet(3 * c % 64) < MlFirst(s) + MlProbability(s)
  }

  lemma MlOwner(s: nat, c: nat)
    requires s < 46 && MlHas(s, c) && ValidProbs(ML_DEFAULTS, 6)
    ensures c < Free(ML_DEFAULTS) == 57 && ML_DEFAULTS[s] == MlProbability(s) > 0 && |ML_DEFAULTS| == 53
    ensures SymbolTable(ML_DEFAULTS, 6)[c] == s
  {
    hide ML_DEFAULTS, SymbolTable, Pow2, Pos, MlFirst, MlMet, MlProbability, Walk;
    Pow2Values();
    var step := 3 * c % 64;
    MlBefore(s);
    MlProb(s);
    MlBefore(53);
    MlAll();
    MlWalk(step);
    MlPos(step);
    MlBack(c);
    OwnerOf(ML_DEFAULTS, 6, s, c, step, MlMet(step));
  }

  lemma MlAll()
    ensures MlFirst(53) == 57
  {
  }

  /** A symbol and all its cells. */
  lemma MlSymbol(s: nat, cells: seq<nat>)
    requires s < 46 && 0 < |cells| <= 4 && MlProbability(s) == |cells| && Ascending(cells) && ValidProbs(ML_DEFAULTS, 6)
    requires forall r :: 0 <= r < |cells| ==> MlHas(s, cells[r])
    ensures var t, p := DecodeTable(ML_DEFAULTS, 6), |cells|;
      |t| == 64 && forall r :: 0 <= r < p ==> cells[r] < 57 && t[cells[r]] == Of64(p + r, s)
  {
    hide ML_DEFAULTS, SymbolTable, DecodeTable, DecodeEntry, Rank, ValidProbs, Pow2, Of64, MlHas, MlProbability;
    Pow2Values();
    forall r | 0 <= r < |cells|
      ensures cells[r] < Free(ML_DEFAULTS) == 57 && SymbolTable(ML_DEFAULTS, 6)[cells[r]] == s && |ML_DEFAULTS| == 53 && ML_DEFAULTS[s] == |cells|
    {
      MlOwner(s, cells[r]);
    }
    var first := cells[0];
    forall r | 0 <= r < |cells|
      ensures DecodeTable(ML_DEFAULTS, 6)[cells[r]] == Of64(|cells| + r, s)
    {
      RankOf(ML_DEFAULTS, 6, s, cells, r);
      EntryOfRank(ML_DEFAULTS, 6, cells[r], s, r);
    }
  }

  lemma MlOne(s: nat, a: nat)
    requires s < 46 && MlProbability(s) == 1 && ValidProbs(ML_DEFAULTS, 6) && a < 57
    requires MlHas(s, a)
    ensures var t := DecodeTable(ML_DEFAULTS, 6);
      |t| == 64 && t[a] == Of64(1, s)
  {
    hide ValidProbs, DecodeTable, DecodeEntry, Pow2, ML_DEFAULTS, Of64, MlHas, MlProbability;
    var cells := [a];
    MlSymbol(s, cells);
    assert cells[0] == a;
  }

  lemma MlTwo(s: nat, a: nat, b: nat)
    requires s < 46 && MlProbability(s) == 2 && ValidProbs(ML_DEFAULTS, 6) && a < b < 57
    requires MlHas(s, a) && MlHas(s, b)
    ensures var t := DecodeTable(ML_DEFAULTS, 6);
      |t| == 64 && t[a] == Of64(2, s) && t[b] == Of64(3, s)
  {
    hide ValidProbs, DecodeTable, DecodeEntry, Pow2, ML_DEFAULTS, Of64, MlHas, MlProbability;
    var cells := [a, b];
    MlSymbol(s, cells);
    assert cells[0] == a && cells[1] == b;
  }

  lemma MlThree(s: nat, a: nat, b: nat, c: nat)
    requires s < 46 && MlProbability(s) == 3 && ValidProbs(ML_DEFAULTS, 6) && a < b < c < 57
    requires MlHas(s, a) && MlHas(s, b) && MlHas(s, c)
    ensures var t := DecodeTable(ML_DEFAULTS, 6);
      |t| == 64 && t[a] == Of64(3, s) && t[b] == Of64(4, s) && t[c] == Of64(5, s)
  {
    hide ValidProbs, DecodeTable, DecodeEntry, Pow2, ML_DEFAULTS, Of64, MlHas, MlProbability;
    var cells := [a, b, c];
    MlSymbol(s, cells);
    assert cells[0] == a && cells[1] == b && cells[2] == c;
  }

  lemma MlFour(s: nat, a: nat, b: nat, c: nat, d: nat)
    requires s < 46 && MlProbability(s) == 4 && ValidProbs(ML_DEFAULTS, 6) && a < b < c < d < 57
    requires MlHas(s, a) && MlHas(s, b) && MlHas(s, c) && MlHas(s, d)
    ensures var t := DecodeTable(ML_DEFAULTS, 6);
      |t| == 64 && t[a] == Of64(4, s) && t[b] == Of64(5, s) && t[c] == Of64(6, s) && t[d] == Of64(7, s)
  {
    hide ValidProbs, DecodeTable, DecodeEntry, Pow2, ML_DEFAULTS, Of64, MlHas, MlProbability;
    var cells := [a, b, c, d];
    MlSymbol(s, cells);
    assert cells[0] == a && cells[1] == b && cells[2] == c && cells[3] == d;
  }

  lemma MlSymbols0To3()
    requires ValidProbs(ML_DEFAULTS, 6)
    ensures var t := DecodeTable(ML_DEFAULTS, 6);
      && |t| == 64
      && t[0] == Entry(0, 6, 0)
      && t[1] == Entry(0, 4, 1) && t[22] == Entry(16, 4, 1) && t[43] == Entry(32, 4, 1) && t[44] == Entry(48, 4, 1)
      && t[2] == Entry(32, 5, 2) && t[23] == Entry(0, 4, 2) && t[45] == Entry(16, 4, 2)
      && t[3] == Entry(0, 5, 3) && t[24] == Entry(32, 5, 3)
  {
    hide ValidProbs, DecodeTable, DecodeEntry, Pow2, ML_DEFAULTS;
    MlOne(0, 0);
    MlFour(1, 1, 22, 43, 44);
    MlThree(2, 2, 23, 45);
    MlTwo(3, 3, 24);
  }

  lemma MlSymbols4To7()
    requires ValidProbs(ML_DEFAULTS, 6)
    ensures var t := DecodeTable(ML_DEFAULTS, 6);
      && |t| == 64
      && t[25] == Entry(0, 5, 4) && t[46] == Entry(32, 5, 4)
      && t[4] == Entry(0, 5, 5) && t[47] == Entry(32, 5, 5)
      && t[5] == Entry(0, 5, 6) && t[26] == Entry(32, 5, 6)
      && t[27] == Entry(0, 5, 7) && t[48] == Entry(32, 5, 7)
  {
    hide ValidProbs, DecodeTable, DecodeEntry, Pow2, ML_DEFAULTS;
    MlTwo(4, 25, 46);
    MlTwo(5, 4, 47);
    MlTwo(6, 5, 26);
    MlTwo(7, 27, 48);
  }

  lemma MlSymbols8To11()
    requires ValidProbs(ML_DEFAULTS, 6)
    ensures var t := DecodeTable(ML_DEFAULTS, 6);
      && |t| == 64
      && t[6] == Entry(0, 5, 8) && t[49] == Entry(32, 5, 8)
      && t[28] == Entry(0, 6, 9)
      && t[7] == Entry(0, 6, 10)
      && t[50] == Entry(0, 6, 11)
  {
    hide ValidProbs, DecodeTable, DecodeEntry, Pow2, ML_DEFAULTS;
    MlTwo(8, 6, 49);
    MlOne(9, 28);
    MlOne(10, 7);
    MlOne(11, 50);
  }

  lemma MlSymbols12To15()
    requires ValidProbs(ML_DEFAULTS, 6)
    ensures var t := DecodeTable(ML_DEFAULTS, 6);
      && |t| == 64
      && t[29] == Entry(0, 6, 12)
      && t[8] == Entry(0, 6, 13)
      && t[51] == Entry(0, 6, 14)
      && t[30] == Entry(0, 6, 15)
  {
    hide ValidProbs, DecodeTable, DecodeEntry, Pow2, ML_DEFAULTS;
    MlOne(12, 29);
    MlOne(13, 8);
    MlOne(14, 51);
    MlOne(15, 30);
  }

  lemma MlSymbols16To19()
    requires ValidProbs(ML_DEFAULTS, 6)
    ensures var t := DecodeTable(ML_DEFAULTS, 6);
      && |t| == 64
      && t[9] == Entry(0, 6, 16)
      && t[52] == Entry(0, 6, 17)
      && t[31] == Entry(0, 6, 18)
      && t[10] == Entry(0, 6, 19)
  {
    hide ValidProbs, DecodeTable, DecodeEntry, Pow2, ML_DEFAULTS;
    MlOne(16, 9);
    MlOne(17, 52);
    MlOne(18, 31);
    MlOne(19, 10);
  }

  lemma MlSymbols20To23()
    requires ValidProbs(ML_DEFAULTS, 6)
    ensures var t := DecodeTable(ML_DEFAULTS, 6);
      && |t| == 64
      && t[53] == Entry(0, 6, 20)
      && t[32] == Entry(0, 6, 21)
      && t[11] == Entry(0, 6, 22)
      && t[54] == Entry(0, 6, 23)
  {
    hide ValidProbs, DecodeTable, DecodeEntry, Pow2, ML_DEFAULTS;
    MlOne(20, 53);
    MlOne(21, 32);
    MlOne(22, 11);
    MlOne(23, 54);
  }

  lemma MlSymbols24To27()
    requires ValidProbs(ML_DEFAULTS, 6)
    ensures var t := DecodeTable(ML_DEFAULTS, 6);
      && |t| == 64
      && t[33] == Entry(0, 6, 24)
      && t[12] == Entry(0, 6, 25)
      && t[55] == Entry(0, 6, 26)
      && t[34] == Entry(0, 6, 27)
  {
    hide ValidProbs, DecodeTable, DecodeEntry, Pow2, ML_DEFAULTS;
    MlOne(24, 33);
    MlOne(25, 12);
    MlOne(26, 55);
    MlOne(27, 34);
  }

  lemma MlSymbols28To31()
    requires ValidProbs(ML_DEFAULTS, 6)
    ensures var t := DecodeTable(ML_DEFAULTS, 6);
      && |t| == 64
      && t[13] == Entry(0, 6, 28)
      && t[56] == Entry(0, 6, 29)
      && t[35] == Entry(0, 6, 30)
      && t[14] == Entry(0, 6, 31)
  {
    hide ValidProbs, DecodeTable, DecodeEntry, Pow2, ML_DEFAULTS;
    MlOne(28, 13);
    MlOne(29, 56);
    MlOne(30, 35);
    MlOne(31, 14);
  }

  lemma MlSymbols32To35()
    requires ValidProbs(ML_DEFAULTS, 6)
    ensures var t := DecodeTable(ML_DEFAULTS, 6);
      && |t| == 64
      && t[36] == Entry(0, 6, 32)
      && t[15] == Entry(0, 6, 33)
      && t[37] == Entry(0, 6, 34)
      && t[16] == Entry(0, 6, 35)
  {
    hide ValidProbs, DecodeTable, DecodeEntry, Pow2, ML_DEFAULTS;
    MlOne(32, 36);
    MlOne(33, 15);
    MlOne(34, 37);
    MlOne(35, 16);
  }

  lemma MlSymbols36To39()
    requires ValidProbs(ML_DEFAULTS, 6)
    ensures var t := DecodeTable(ML_DEFAULTS, 6);
      && |t| == 64
      && t[38] == Entry(0, 6, 36)
      && t[17] == Entry(0, 6, 37)
      && t[39] == Entry(0, 6, 38)
      && t[18] == Entry(0, 6, 39)
  {
    hide ValidProbs, DecodeTable, DecodeEntry, Pow2, ML_DEFAULTS;
    MlOne(36, 38);
    MlOne(37, 17);
    MlOne(38, 39);
    MlOne(39, 18);
  }

  lemma MlSymbols40To43()
    requires ValidProbs(ML_DEFAULTS, 6)
    ensures var t := DecodeTable(ML_DEFAULTS, 6);
      && |t| == 64
      && t[40] == Entry(0, 6, 40)
      && t[19] == Entry(0, 6, 41)
      && t[41] == Entry(0, 6, 42)
      && t[20] == Entry(0, 6, 43)
  {
    hide ValidProbs, DecodeTable, DecodeEntry, Pow2, ML_DEFAULTS;
    MlOne(40, 40);
    MlOne(41, 19);
    MlOne(42, 41);
    MlOne(43, 20);
  }

  lemma MlSymbols44To45()
    requires ValidProbs(ML_DEFAULTS, 6)
    ensures var t := DecodeTable(ML_DEFAULTS, 6);
      && |t| == 64
      && t[42] == Entry(0, 6, 44)
      && t[21] == Entry(0, 6, 45)
  {
    hide ValidProbs, DecodeTable, DecodeEntry, Pow2, ML_DEFAULTS;
    MlOne(44, 42);
    MlOne(45, 21);
  }

  lemma MlTop(c: nat)
    requires 57 <= c < 64 && ValidProbs(ML_DEFAULTS, 6)
    ensures |DecodeTable(ML_DEFAULTS, 6)| == 64 && DecodeTable(ML_DEFAULTS, 6)[c] == Entry(0, 6, 109 - c)
  {
    hide DecodeTable, SymbolTable, ML_DEFAULTS, Pow2;
    Pow2Values();
    MlBefore(53);
    MlProb(0);
    EveryEntry(ML_DEFAULTS, 6, c);
    var s := DecodeTable(ML_DEFAULTS, 6)[c].symbol;
    MlProb(s);
    MlBefore(s);
  }

  /** The whole table of Appendix A. */
  lemma MlTable()
    ensures ValidProbs(ML_DEFAULTS, 6)
    ensures var t := DecodeTable(ML_DEFAULTS, 6);
      && |t| == 64
      && Row(t, 0, Entry(0, 6, 0), Entry(0, 4, 1), Entry(32, 5, 2), Entry(0, 5, 3))
      && Row(t, 4, Entry(0, 5, 5), Entry(0, 5, 6), Entry(0, 5, 8), Entry(0, 6, 10))
      && Row(t, 8, Entry(0, 6, 13), Entry(0, 6, 16), Entry(0, 6, 19), Entry(0, 6, 22))
      && Row(t, 12, Entry(0, 6, 25), Entry(0, 6, 28), Entry(0, 6, 31), Entry(0, 6, 33))
      && Row(t, 16, Entry(0, 6, 35), Entry(0, 6, 37), Entry(0, 6, 39), Entry(0, 6, 41))
      && Row(t, 20, Entry(0, 6, 43), Entry(0, 6, 45), Entry(16, 4, 1), Entry(0, 4, 2))
      && Row(t, 24, Entry(32, 5, 3), Entry(0, 5, 4), Entry(32, 5, 6), Entry(0, 5, 7))
      && Row(t, 28, Entry(0, 6, 9), Entry(0, 6, 12), Entry(0, 6, 15), Entry(0, 6, 18))
      && Row(t, 32, Entry(0, 6, 21), Entry(0, 6, 24), Entry(0, 6, 27), Entry(0, 6, 30))
      && Row(t, 36, Entry(0, 6, 32), Entry(0, 6, 34), Entry(0, 6, 36), Entry(0, 6, 38))
      && Row(t, 40, Entry(0, 6, 40), Entry(0, 6, 42), Entry(0, 6, 44), Entry(32, 4, 1))
      && Row(t, 44, Entry(48, 4, 1), Entry(16, 4, 2), Entry(32, 5, 4), Entry(32, 5, 5))
      && Row(t, 48, Entry(32, 5, 7), Entry(32, 5, 8), Entry(0, 6, 11), Entry(0, 6, 14))
      && Row(t, 52, Entry(0, 6, 17), Entry(0, 6, 20), Entry(0, 6, 23), Entry(0, 6, 26))
      && Row(t, 56, Entry(0, 6, 29), Entry(0, 6, 52), Entry(0, 6, 51), Entry(0, 6, 50))
      && Row(t, 60, Entry(0, 6, 49), Entry(0, 6, 48), Entry(0, 6, 47), Entry(0, 6, 46))
  {
    hide ValidProbs, DecodeTable, DecodeEntry, Pow2, ML_DEFAULTS;
    MlDefaultsValid();
    MlSymbols0To3();
    MlSymbols4To7();
    MlSymbols8To11();
    MlSymbols12To15();
    MlSymbols16To19();
    MlSymbols20To23();
    MlSymbols24To27();
    MlSymbols28To31();
    MlSymbols32To35();
    MlSymbols36To39();
    MlSymbols40To43();
    MlSymbols44To45();
    MlTop(57);
    MlTop(58);
    MlTop(59);
    MlTop(60);
    MlTop(61);
    MlTop(62);
    MlTop(63);
  }

  // ----- offsets -----

  function OfProbability(s: nat): int {
    if s < 6 then 1 else if s < 9 then 2 else if s < 24 then 1 else -1
  }

  lemma OfProb(s: nat)
    requires s < 29
    ensures |OF_DEFAULTS| == 29 && OF_DEFAULTS[s] == OfProbability(s)
  {
  }

  /** Slots in front of a symbol. */
  function OfFirst(s: nat): int {
    if s < 6 then s else if s < 9 then 2 * s - 6 else if s < 24 then s + 3 else 27
  }

  lemma {:induction false} OfBefore(s: nat)
    requires s <= 29
    ensures Before(OF_DEFAULTS, s) == OfFirst(s) && NegBefore(OF_DEFAULTS, s) == if s < 24 then 0 else s - 24
  {
    hide OF_DEFAULTS;
    if s > 0 {
      OfBefore(s - 1);
      OfProb(s - 1);
    } else {
      OfProb(0);
    }
  }

  /** Free cells met in `i` steps. */
  function OfMet(i: nat): int {
    if i <= 4 then i else if i <= 11 then i - 1 else if i <= 18 then i - 2 else if i <= 25 then i - 3 else if i <= 29 then i - 4 else i - 5
  }

  lemma {:induction false} OfWalk(i: nat)
    requires i <= 32
    ensures |Walk(5, 27, i)| == OfMet(i)
  {
    hide Pos;
    if i > 0 {
      OfWalk(i - 1);
      OfPos(i - 1);
    }
  }

  lemma OfPos(i: nat)
    requires i < 32
    ensures Pos(5, i) == 23 * i % 32
    ensures Pos(5, i) < 27 <==> i != 4 && i != 11 && i != 18 && i != 25 && i != 29
  {
    hide Pos, Pow2;
    Pow2Values();
    StepsOfWalk(5, i);
    OfStride(i);
  }

  lemma OfStride(i: nat)
    requires i < 32
    ensures 23 * i % 32 < 27 <==> i != 4 && i != 11 && i != 18 && i != 25 && i != 29
  {
  }

  lemma OfBack(c: nat)
    requires c < 32
    ensures 23 * (7 * c % 32) % 32 == c
  {
    var q, r := 7 * c / 32, 7 * c % 32;
    DivModUnique(32, 5 * c - 23 * q, c);
  }

  /** The walk reaches the cell while it places the symbol. */
  predicate OfHas(s: nat, c: nat) {
    c < 27 && OfFirst(s) <= OfMet(7 * c % 32) < OfFirst(s) + OfProbability(s)
  }

  lemma OfOwner(s: nat, c: nat)
    requires s < 24 && OfHas(s, c) && ValidProbs(OF_DEFAULTS, 5)
    ensures c < Free(OF_DEFAULTS) == 27 && OF_DEFAULTS[s] == OfProbability(s) > 0 && |OF_DEFAULTS| == 29
    ensures SymbolTable(OF_DEFAULTS, 5)[c] == s
  {
    hide OF_DEFAULTS, SymbolTable, Pow2, Pos, OfFirst, OfMet, OfProbability, Walk;
    Pow2Values();
    var step := 7 * c % 32;
    OfBefore(s);
    OfProb(s);
    OfBefore(29);
    OfAll();
    OfWalk(step);
    OfPos(step);
    OfBack(c);
    OwnerOf(OF_DEFAULTS, 5, s, c, step, OfMet(step));
  }

  lemma OfAll()
    ensures OfFirst(29) == 27
  {
  }

  /** A symbol and all its cells. */
  lemma OfSymbol(s: nat, cells: seq<nat>)
    requires s < 24 && 0 < |cells| <= 2 && OfProbability(s) == |cells| && Ascending(cells) && ValidProbs(OF_DEFAULTS, 5)
    requires forall r :: 0 <= r < |cells| ==> OfHas(s, cells[r])
    ensures var t, p := DecodeTable(OF_DEFAULTS, 5), |cells|;
      |t| == 32 && forall r :: 0 <= r < p ==> cells[r] < 27 && t[cells[r]] == Of32(p + r, s)
  {
    hide OF_DEFAULTS, SymbolTable, DecodeTable, DecodeEntry, Rank, ValidProbs, Pow2, Of32, OfHas, OfProbability;
    Pow2Values();
    forall r | 0 <= r < |cells|
      ensures cells[r] < Free(OF_DEFAULTS) == 27 && SymbolTable(OF_DEFAULTS, 5)[cells[r]] == s && |OF_DEFAULTS| == 29 && OF_DEFAULTS[s] == |cells|
    {
      OfOwner(s, cells[r]);
    }
    var first := cells[0];
    forall r | 0 <= r < |cells|
      ensures DecodeTable(OF_DEFAULTS, 5)[cells[r]] == Of32(|cells| + r, s)
    {
      RankOf(OF_DEFAULTS, 5, s, cells, r);
      EntryOfRank(OF_DEFAULTS, 5, cells[r], s, r);
    }
  }

  lemma OfOne(s: nat, a: nat)
    requires s < 24 && OfProbability(s) == 1 && ValidProbs(OF_DEFAULTS, 5) && a < 27
    requires OfHas(s, a)
    ensures var t := DecodeTable(OF_DEFAULTS, 5);
      |t| == 32 && t[a] == Of32(1, s)
  {
    hide ValidProbs, DecodeTable, DecodeEntry, Pow2, OF_DEFAULTS, Of32, OfHas, OfProbability;
    var cells := [a];
    OfSymbol(s, cells);
    assert cells[0] == a;
  }

  lemma OfTwo(s: nat, a: nat, b: nat)
    requires s < 24 && OfProbability(s) == 2 && ValidProbs(OF_DEFAULTS, 5) && a < b < 27
    requires OfHas(s, a) && OfHas(s, b)
    ensures var t := DecodeTable(OF_DEFAULTS, 5);
      |t| == 32 && t[a] == Of32(2, s) && t[b] == Of32(3, s)
  {
    hide ValidProbs, DecodeTable, DecodeEntry, Pow2, OF_DEFAULTS, Of32, OfHas, OfProbability;
    var cells := [a, b];
    OfSymbol(s, cells);
    assert cells[0] == a && cells[1] == b;
  }

  lemma OfSymbols0To3()
    requires ValidProbs(OF_DEFAULTS, 5)
    ensures var t := DecodeTable(OF_DEFAULTS, 5);
      && |t| == 32
      && t[0] == Entry(0, 5, 0)
      && t[23] == Entry(0, 5, 1)
      && t[14] == Entry(0, 5, 2)
      && t[5] == Entry(0, 5, 3)
  {
    hide ValidProbs, DecodeTable, DecodeEntry, Pow2, OF_DEFAULTS;
    OfOne(0, 0);
    OfOne(1, 23);
    OfOne(2, 14);
    OfOne(3, 5);
  }

  lemma OfSymbols4To7()
    requires ValidProbs(OF_DEFAULTS, 5)
    ensures var t := DecodeTable(OF_DEFAULTS, 5);
      && |t| == 32
      && t[19] == Entry(0, 5, 4)
      && t[10] == Entry(0, 5, 5)
      && t[1] == Entry(0, 4, 6) && t[24] == Entry(16, 4, 6)
      && t[6] == Entry(0, 4, 7) && t[15] == Entry(16, 4, 7)
  {
    hide ValidProbs, DecodeTable, DecodeEntry, Pow2, OF_DEFAULTS;
    OfOne(4, 19);
    OfOne(5, 10);
    OfTwo(6, 1, 24);
    OfTwo(7, 6, 15);
  }

  lemma OfSymbols8To11()
    requires ValidProbs(OF_DEFAULTS, 5)
    ensures var t := DecodeTable(OF_DEFAULTS, 5);
      && |t| == 32
      && t[11] == Entry(0, 4, 8) && t[20] == Entry(16, 4, 8)
      && t[2] == Entry(0, 5, 9)
      && t[25] == Entry(0, 5, 10)
      && t[16] == Entry(0, 5, 11)
  {
    hide ValidProbs, DecodeTable, DecodeEntry, Pow2, OF_DEFAULTS;
    OfTwo(8, 11, 20);
    OfOne(9, 2);
    OfOne(10, 25);
    OfOne(11, 16);
  }

  lemma OfSymbols12To15()
    requires ValidProbs(OF_DEFAULTS, 5)
    ensures var t := DecodeTable(OF_DEFAULTS, 5);
      && |t| == 32
      && t[7] == Entry(0, 5, 12)
      && t[21] == Entry(0, 5, 13)
      && t[12] == Entry(0, 5, 14)
      && t[3] == Entry(0, 5, 15)
  {
    hide ValidProbs, DecodeTable, DecodeEntry, Pow2, OF_DEFAULTS;
    OfOne(12, 7);
    OfOne(13, 21);
    OfOne(14, 12);
    OfOne(15, 3);
  }

  lemma OfSymbols16To19()
    requires ValidProbs(OF_DEFAULTS, 5)
    ensures var t := DecodeTable(OF_DEFAULTS, 5);
      && |t| == 32
      && t[26] == Entry(0, 5, 16)
      && t[17] == Entry(0, 5, 17)
      && t[8] == Entry(0, 5, 18)
      && t[22] == Entry(0, 5, 19)
  {
    hide ValidProbs, DecodeTable, DecodeEntry, Pow2, OF_DEFAULTS;
    OfOne(16, 26);
    OfOne(17, 17);
    OfOne(18, 8);
    OfOne(19, 22);
  }

  lemma OfSymbols20To23()
    requires ValidProbs(OF_DEFAULTS, 5)
    ensures var t := DecodeTable(OF_DEFAULTS, 5);
      && |t| == 32
      && t[13] == Entry(0, 5, 20)
      && t[4] == Entry(0, 5, 21)
      && t[18] == Entry(0, 5, 22)
      && t[9] == Entry(0, 5, 23)
  {
    hide ValidProbs, DecodeTable, DecodeEntry, Pow2, OF_DEFAULTS;
    OfOne(20, 13);
    OfOne(21, 4);
    OfOne(22, 18);
    OfOne(23, 9);
  }

  lemma OfTop(c: nat)
    requires 27 <= c < 32 && ValidProbs(OF_DEFAULTS, 5)
    ensures |DecodeTable(OF_DEFAULTS, 5)| == 32 && DecodeTable(OF_DEFAULTS, 5)[c] == Entry(0, 5, 55 - c)
  {
    hide DecodeTable, SymbolTable, OF_DEFAULTS, Pow2;
    Pow2Values();
    OfBefore(29);
    OfProb(0);
    EveryEntry(OF_DEFAULTS, 5, c);
    var s := DecodeTable(OF_DEFAULTS, 5)[c].symbol;
    OfProb(s);
    OfBefore(s);
  }

  /** The whole table of Appendix A. */
  lemma OfTable()
    ensures ValidProbs(OF_DEFAULTS, 5)
    ensures var t := DecodeTable(OF_DEFAULTS, 5);
      && |t| == 32
      && Row(t, 0, Entry(0, 5, 0), Entry(0, 4, 6), Entry(0, 5, 9), Entry(0, 5, 15))
      && Row(t, 4, Entry(0, 5, 21), Entry(0, 5, 3), Entry(0, 4, 7), Entry(0, 5, 12))
      && Row(t, 8, Entry(0, 5, 18), Entry(0, 5, 23), Entry(0, 5, 5), Entry(0, 4, 8))
      && Row(t, 12, Entry(0, 5, 14), Entry(0, 5, 20), Entry(0, 5, 2), Entry(16, 4, 7))
      && Row(t, 16, Entry(0, 5, 11), Entry(0, 5, 17), Entry(0, 5, 22), Entry(0, 5, 4))
      && Row(t, 20, Entry(16, 4, 8), Entry(0, 5, 13), Entry(0, 5, 19), Entry(0, 5, 1))
      && Row(t, 24, Entry(16, 4, 6), Entry(0, 5, 10), Entry(0, 5, 16), Entry(0, 5, 28))
      && Row(t, 28, Entry(0, 5, 27), Entry(0, 5, 26), Entry(0, 5, 25), Entry(0, 5, 24))
  {
    hide ValidProbs, DecodeTable, DecodeEntry, Pow2, OF_DEFAULTS;
    OfDefaultsValid();
    OfSymbols0To3();
    OfSymbols4To7();
    OfSymbols8To11();
    OfSymbols12To15();
    OfSymbols16To19();
    OfSymbols20To23();
    OfTop(27);
    OfTop(28);
    OfTop(29);
    OfTop(30);
    OfTop(31);
  }
}
