/** Probability distributions and the table contents they prescribe. Both the
    decoding table and the encoding table are defined here, cell by cell and
    state by state, independently of how the two builders compute them. */
module FseDistribution {
  import opened Numbers
  import opened FseSpread
  import opened FseLayout

  /** Cells placed by the stride; -1 symbols get their one cell at the top. */
  function Slots(p: int): nat {
    if p > 0 then p else 0
  }

  function Before(probs: seq<int>, s: nat): nat
    requires s <= |probs|
  {
    if s == 0 then 0 else Before(probs, s - 1) + Slots(probs[s - 1])
  }

  /** The number of -1 probabilities among the first `s` symbols. */
  function NegBefore(probs: seq<int>, s: nat): nat
    requires s <= |probs|
  {
    if s == 0 then 0 else NegBefore(probs, s - 1) + if probs[s - 1] == -1 then 1 else 0
  }

  /** A distribution over a table of `2^k` cells. */
  ghost predicate ValidProbs(probs: seq<int>, k: nat) {
    && 4 <= k
    && |probs| <= 256
    && (forall s :: 0 <= s < |probs| ==> probs[s] >= -1)
    && Before(probs, |probs|) + NegBefore(probs, |probs|) == Pow2(k)
  }

  /** The cells not taken by -1 symbols. */
  function Free(probs: seq<int>): nat {
    Before(probs, |probs|)
  }

  lemma {:induction false} BeforeMono(probs: seq<int>, s: nat, t: nat)
    requires s <= t <= |probs|
    ensures Before(probs, s) <= Before(probs, t)
    ensures NegBefore(probs, s) <= NegBefore(probs, t)
    ensures s < t ==> Before(probs, s) + Slots(probs[s]) <= Before(probs, t)
    ensures s < t && probs[s] == -1 ==> NegBefore(probs, s) < NegBefore(probs, t)
    decreases t
  {
    if s < t {
      BeforeMono(probs, s, t - 1);
    }
  }

  lemma SlotBound(probs: seq<int>, k: nat, s: nat)
    requires ValidProbs(probs, k) && s < |probs|
    ensures Before(probs, s) + Slots(probs[s]) <= Free(probs) <= Pow2(k)
    ensures probs[s] <= Pow2(k)
    ensures probs[s] == -1 ==> Free(probs) <= Pow2(k) - 1 - NegBefore(probs, s) < Pow2(k)
  {
    BeforeMono(probs, s, |probs|);
  }

  // ----- which symbol owns which cell -----

  /** The symbols in spreading order, each repeated as often as it has slots. */
  function Owners(probs: seq<int>, s: nat): (o: seq<nat>)
    requires s <= |probs|
    ensures |o| == Before(probs, s)
    ensures forall m :: 0 <= m < |o| ==> o[m] < s && probs[o[m]] > 0
  {
    if s == 0 then [] else Owners(probs, s - 1) + seq(Slots(probs[s - 1]), i => s - 1)
  }

  lemma {:induction false} OwnerIff(probs: seq<int>, t: nat, s: nat, m: nat)
    requires s < |probs| && t <= |probs| && m < Before(probs, t)
    ensures Owners(probs, t)[m] == s <==> Before(probs, s) <= m < Before(probs, s) + Slots(probs[s])
  {
    if m < Before(probs, t - 1) {
      OwnerIff(probs, t - 1, s, m);
    } else if s < t {
      BeforeMono(probs, s, t - 1);
    } else {
      BeforeMono(probs, t, s);
    }
  }

  function IndexOf(s: seq<nat>, x: nat): (i: nat)
    requires x in s
    ensures i < |s| && s[i] == x
  {
    if s[0] == x then 0 else 1 + IndexOf(s[1..], x)
  }

  /** The symbol of every free cell. */
  function SymbolTable(probs: seq<int>, k: nat): (tab: seq<nat>)
    requires ValidProbs(probs, k)
    ensures |tab| == Free(probs)
    ensures forall c :: 0 <= c < |tab| ==> tab[c] < |probs| && probs[tab[c]] > 0
  {
    CellsExact(k, Free(probs));
    seq(Free(probs), c requires 0 <= c < Free(probs) => Owners(probs, |probs|)[IndexOf(Cells(k, Free(probs)), c)])
  }

  lemma SymbolAtCell(probs: seq<int>, k: nat, m: nat)
    requires ValidProbs(probs, k) && m < Free(probs)
    ensures |Cells(k, Free(probs))| == Free(probs) && Cells(k, Free(probs))[m] < Free(probs)
    ensures SymbolTable(probs, k)[Cells(k, Free(probs))[m]] == Owners(probs, |probs|)[m]
  {
    hide Cells;
    CellsExact(k, Free(probs));
    var cells := Cells(k, Free(probs));
    var c := cells[m];
    assert c in cells;
    assert cells[IndexOf(cells, c)] == cells[m];
  }

  // ----- the cells of one symbol, in table order -----

  function CellsOf(tab: seq<nat>, s: nat, n: nat): (cs: seq<nat>)
    requires n <= |tab|
  {
    if n == 0 then []
    else if tab[n - 1] == s then CellsOf(tab, s, n - 1) + [n - 1]
    else CellsOf(tab, s, n - 1)
  }

  ghost predicate Ascending(s: seq<nat>) {
    forall i, j :: 0 <= i < j < |s| ==> s[i] < s[j]
  }

  lemma {:induction false} CellsOfAscending(tab: seq<nat>, s: nat, n: nat)
    requires n <= |tab|
    ensures Ascending(CellsOf(tab, s, n))
    ensures forall c :: c in CellsOf(tab, s, n) <==> 0 <= c < n && tab[c] == s
  {
    if n > 0 {
      CellsOfAscending(tab, s, n - 1);
      var w := CellsOf(tab, s, n - 1);
      assert forall i :: 0 <= i < |w| ==> w[i] in w;
    }
  }

  /** A cell of symbol `s` is preceded by as many cells of `s` as its rank says. */
  lemma {:induction false} CellAtRank(tab: seq<nat>, s: nat, n: nat, c: nat)
    requires n <= |tab| && c < n && tab[c] == s
    ensures |CellsOf(tab, s, c)| < |CellsOf(tab, s, n)|
    ensures CellsOf(tab, s, n)[|CellsOf(tab, s, c)|] == c
  {
    if c < n - 1 {
      CellAtRank(tab, s, n - 1, c);
    }
  }

  lemma {:induction false} RankOfCell(tab: seq<nat>, s: nat, n: nat, r: nat)
    requires n <= |tab| && r < |CellsOf(tab, s, n)|
    ensures var c := CellsOf(tab, s, n)[r]; c < n && tab[c] == s && |CellsOf(tab, s, c)| == r
  {
    if n > 0 && r < |CellsOf(tab, s, n - 1)| {
      RankOfCell(tab, s, n - 1, r);
    }
  }

  /** The chunk of the walk in which the builders place symbol `s`. */
  function Chunk(probs: seq<int>, k: nat, s: nat): (c: seq<nat>)
    requires ValidProbs(probs, k) && s < |probs|
    ensures |c| == Slots(probs[s])
  {
    CellsExact(k, Free(probs));
    SlotBound(probs, k, s);
    Cells(k, Free(probs))[Before(probs, s)..Before(probs, s) + Slots(probs[s])]
  }

  lemma ChunkMember(probs: seq<int>, k: nat, s: nat, c: nat)
    requires ValidProbs(probs, k) && s < |probs|
    ensures c in Chunk(probs, k, s) <==> c < Free(probs) && SymbolTable(probs, k)[c] == s
  {
    hide Cells, SymbolTable, IndexOf, Owners;
    var free, tab := Free(probs), SymbolTable(probs, k);
    var cells, chunk := Cells(k, free), Chunk(probs, k, s);
    var lo := Before(probs, s);
    CellsExact(k, free);
    SlotBound(probs, k, s);
    if c in chunk {
      var m :| 0 <= m < |chunk| && chunk[m] == c;
      assert cells[lo + m] == c;
      SymbolAtCell(probs, k, lo + m);
      OwnerIff(probs, |probs|, s, lo + m);
    }
    if c < free && tab[c] == s {
      assert c in cells;
      var m :| 0 <= m < free && cells[m] == c;
      SymbolAtCell(probs, k, m);
      OwnerIff(probs, |probs|, s, m);
      assert chunk[m - lo] == c;
    }
  }

  /** The chunk holds exactly the cells of the symbol, so the symbol owns as many
      cells as its probability says. */
  lemma ChunkIsCells(probs: seq<int>, k: nat, s: nat)
    requires ValidProbs(probs, k) && s < |probs|
    ensures Distinct(Chunk(probs, k, s))
    ensures forall c :: c in Chunk(probs, k, s) <==> c in CellsOf(SymbolTable(probs, k), s, Free(probs))
    ensures |CellsOf(SymbolTable(probs, k), s, Free(probs))| == Slots(probs[s])
  {
    hide SymbolTable, CellsOf, Chunk;
    var chunk, mine := Chunk(probs, k, s), CellsOf(SymbolTable(probs, k), s, Free(probs));
    ChunkDistinct(probs, k, s);
    CellsOfAscending(SymbolTable(probs, k), s, Free(probs));
    forall c: nat
      ensures c in chunk <==> c in mine
    {
      ChunkMember(probs, k, s, c);
    }
    DistinctSize(chunk);
    DistinctSize(mine);
    assert Elems(chunk) == Elems(mine);
  }

  lemma ChunkDistinct(probs: seq<int>, k: nat, s: nat)
    requires ValidProbs(probs, k) && s < |probs|
    ensures Distinct(Chunk(probs, k, s))
  {
    hide Cells;
    CellsExact(k, Free(probs));
    SlotBound(probs, k, s);
  }

  // ----- the decoding table -----

  datatype Entry = Entry(baseLine: nat, numBits: nat, symbol: nat)

  /** The rank of a cell among the cells of its symbol. */
  function Rank(tab: seq<nat>, c: nat): nat
    requires c < |tab|
  {
    |CellsOf(tab, tab[c], c)|
  }

  lemma RankBound(probs: seq<int>, k: nat, c: nat)
    requires ValidProbs(probs, k) && c < Free(probs)
    ensures var tab := SymbolTable(probs, k);
      Rank(tab, c) < probs[tab[c]] <= Pow2(k)
  {
    hide SymbolTable, CellsOf;
    var tab := SymbolTable(probs, k);
    CellAtRank(tab, tab[c], Free(probs), c);
    ChunkIsCells(probs, k, tab[c]);
    SlotBound(probs, k, tab[c]);
  }

  /** The symbol with a -1 probability that owns cell `c` at the top. */
  function NegOwner(probs: seq<int>, n: nat, s: nat): (r: nat)
    requires s <= |probs| && NegBefore(probs, s) <= n < NegBefore(probs, |probs|)
    ensures r < |probs| && probs[r] == -1 && NegBefore(probs, r) == n
    decreases |probs| - s
  {
    if probs[s] == -1 && NegBefore(probs, s) == n then s else NegOwner(probs, n, s + 1)
  }

  lemma NegOwnerUnique(probs: seq<int>, r: nat, s: nat)
    requires r < |probs| && s < |probs| && probs[r] == -1 && probs[s] == -1
    requires NegBefore(probs, r) == NegBefore(probs, s)
    ensures r == s
  {
    if r < s {
      BeforeMono(probs, r, s);
    } else if s < r {
      BeforeMono(probs, s, r);
    }
  }

  function DecodeEntry(probs: seq<int>, k: nat, c: nat): Entry
    requires ValidProbs(probs, k) && c < Pow2(k)
  {
    if c >= Free(probs) then
      Entry(0, k, NegOwner(probs, Pow2(k) - 1 - c, 0))
    else
      var tab := SymbolTable(probs, k);
      RankBound(probs, k, c);
      var p := probs[tab[c]];
      var j := RankToRange(p, Rank(tab, c));
      Entry(RangeStart(k, p, j), RangeBits(k, p, j), tab[c])
  }

  function DecodeTable(probs: seq<int>, k: nat): (t: seq<Entry>)
    requires ValidProbs(probs, k)
    ensures |t| == Pow2(k)
    ensures forall c :: 0 <= c < Pow2(k) ==> t[c] == DecodeEntry(probs, k, c)
  {
    seq(Pow2(k), c requires 0 <= c < Pow2(k) => DecodeEntry(probs, k, c))
  }

  // ----- the encoding table -----

  datatype State = State(numBits: nat, baseline: nat, lastIndex: nat, index: nat)
  {
    predicate Contains(idx: nat) {
      baseline <= idx <= lastIndex
    }
  }

  /** `states` is ordered by baseline. */
  datatype SymbolStates = SymbolStates(states: seq<State>, probability: int)

  datatype EncodingTable = EncodingTable(states: seq<SymbolStates>, tableSize: nat)

  /** The `j`-th of the states on `cells`, in the order of baselines. */
  function StateFor(k: nat, p: nat, cells: seq<nat>, j: nat): State
    requires 0 < p <= Pow2(k) && |cells| == p && j < p
  {
    var start, bits := RangeStart(k, p, j), RangeBits(k, p, j);
    State(bits, start, start + Pow2(bits) - 1, cells[RangeToRank(p, j)])
  }

  function StateOf(probs: seq<int>, k: nat, s: nat, j: nat): State
    requires ValidProbs(probs, k) && s < |probs| && j < Slots(probs[s])
  {
    SlotBound(probs, k, s);
    ChunkIsCells(probs, k, s);
    StateFor(k, probs[s], CellsOf(SymbolTable(probs, k), s, Free(probs)), j)
  }

  function StatesOf(probs: seq<int>, k: nat, s: nat): SymbolStates
    requires ValidProbs(probs, k)
  {
    if s >= |probs| || probs[s] == 0 then
      SymbolStates([], 0)
    else if probs[s] == -1 then
      SlotBound(probs, k, s);
      SymbolStates([State(k, 0, Pow2(k) - 1, Pow2(k) - 1 - NegBefore(probs, s))], -1)
    else
      SymbolStates(seq(probs[s], j requires 0 <= j < probs[s] => StateOf(probs, k, s, j)), probs[s])
  }

  function EncodeTable(probs: seq<int>, k: nat): EncodingTable
    requires ValidProbs(probs, k)
  {
    EncodingTable(seq(256, s requires 0 <= s < 256 => StatesOf(probs, k, s)), Pow2(k))
  }
}
