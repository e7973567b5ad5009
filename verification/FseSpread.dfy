/** Where the symbols of an FSE table go: a stride through a table of `2^k`
    cells that skips the cells reserved at the top. */
module FseSpread {
  import opened Numbers
  import opened Bits

  /** Both halves of the codec advance by this stride. */
  function NextPosition(p: nat, tableSize: nat): nat
    requires tableSize > 0
  {
    And(p + Shr(tableSize, 1) + Shr(tableSize, 3) + 3, tableSize - 1)
  }

  function Stride(k: nat): nat
    requires k >= 4
  {
    Pow2(k - 1) + Pow2(k - 3) + 3
  }

  /** The position after `i` steps from cell 0. */
  function Pos(k: nat, i: nat): (p: nat)
    requires k >= 4
    ensures p < Pow2(k)
  {
    Low(i * Stride(k), k)
  }

  lemma ShrPow2(k: nat, n: nat)
    requires n <= k
    ensures Shr(Pow2(k), n) == Pow2(k - n)
  {
    if n > 0 {
      assert Pow2(k) / 2 == Pow2(k - 1);
      ShrPow2(k - 1, n - 1);
    }
  }

  lemma {:induction false} LowOfSum(a: nat, b: nat, k: nat)
    ensures Low(Low(a, k) + b, k) == Low(a + b, k)
  {
    if k > 0 {
      var x := Low(a / 2, k - 1);
      var c := (a % 2 + b) / 2;
      LowOfSum(a / 2, c, k - 1);
      assert (a % 2 + 2 * x + b) / 2 == x + c;
      assert (a + b) / 2 == a / 2 + c;
    }
  }

  lemma NextIsSum(k: nat, a: nat)
    requires k >= 4
    ensures NextPosition(Low(a, k), Pow2(k)) == Low(a + Stride(k), k)
  {
    hide Low, Shr, And, Pow2;
    ShrPow2(k, 1);
    ShrPow2(k, 3);
    AndMask(Low(a, k) + Stride(k), k);
    LowOfSum(a, Stride(k), k);
  }

  lemma PosNext(k: nat, i: nat)
    requires k >= 4
    ensures NextPosition(Pos(k, i), Pow2(k)) == Pos(k, i + 1)
  {
    hide Low, Pow2, Stride, NextPosition;
    MulNext(i, Stride(k));
    NextIsSum(k, i * Stride(k));
  }

  lemma StrideOdd(k: nat)
    requires k >= 4
    ensures Stride(k) % 2 == 1
  {
    assert Pow2(k - 1) == 2 * Pow2(k - 2) && Pow2(k - 3) == 2 * Pow2(k - 4);
  }

  /** An odd factor does not help with divisibility by a power of two. */
  lemma {:induction false} OddFactor(d: nat, m: nat, k: nat)
    requires m % 2 == 1 && Low(d * m, k) == 0
    ensures Low(d, k) == 0
  {
    if k > 0 {
      OddTimes(d, m);
      var h := d / 2;
      MulDouble(h, m);
      assert d == 2 * h;
      assert (2 * (h * m)) / 2 == h * m;
      OddFactor(h, m, k - 1);
    }
  }

  lemma OddTimes(d: nat, m: nat)
    requires m % 2 == 1 && (d * m) % 2 == 0
    ensures d % 2 == 0
  {
    var n := m / 2;
    assert m == 2 * n + 1;
    assert d * m == 2 * (d * n) + d;
  }

  lemma {:induction false} LowZeroDifference(a: nat, b: nat, k: nat)
    requires a <= b && Low(a, k) == Low(b, k)
    ensures Low(b - a, k) == 0
  {
    if k > 0 {
      LowZeroDifference(a / 2, b / 2, k - 1);
      assert a % 2 == b % 2;
      assert (b - a) / 2 == b / 2 - a / 2;
    }
  }

  /** No cell is visited twice in one cycle. */
  lemma PosInjective(k: nat, i: nat, j: nat)
    requires k >= 4 && i <= j < Pow2(k) && Pos(k, i) == Pos(k, j)
    ensures i == j
  {
    hide Low, Stride, Pow2;
    var m := Stride(k);
    MulSub(i, j, m);
    LowZeroDifference(i * m, j * m, k);
    StrideOdd(k);
    OddFactor(j - i, m, k);
    LowSmall(j - i, k);
  }

  /** A cycle ends where it began. */
  lemma PosCycle(k: nat)
    requires k >= 4
    ensures Pos(k, 0) == 0 && Pos(k, Pow2(k)) == 0
  {
    hide Low, Up, Stride, Pow2;
    LowSmall(0, k);
    UpIsProduct(Stride(k), k);
    JoinParts(0, Stride(k), k);
    assert 0 * Stride(k) == 0;
  }

  // ----- counting -----

  function Range(n: nat): (s: set<int>)
    ensures |s| == n && forall x :: x in s <==> 0 <= x < n
  {
    if n == 0 then {} else Range(n - 1) + {n - 1}
  }

  ghost predicate Distinct<T>(s: seq<T>) {
    forall i, j :: 0 <= i < j < |s| ==> s[i] != s[j]
  }

  function Elems<T(!new)>(s: seq<T>): (e: set<T>)
    ensures forall x :: x in e <==> x in s
  {
    set x | x in s
  }

  lemma DistinctSize<T(!new)>(s: seq<T>)
    requires Distinct(s)
    ensures |Elems(s)| == |s|
  {
    if |s| > 0 {
      var t := s[..|s| - 1];
      var last := s[|s| - 1];
      DistinctSize(t);
      assert s == t + [last];
      assert Elems(s) == Elems(t) + {last};
    } else {
      assert Elems(s) == {};
    }
  }

  lemma SubsetSize<T>(a: set<T>, b: set<T>)
    requires a <= b
    ensures |a| <= |b|
  {
    if a != {} {
      var x :| x in a;
      SubsetSize(a - {x}, b - {x});
    }
  }

  lemma SubsetFull<T>(a: set<T>, b: set<T>)
    requires a <= b && |a| >= |b|
    ensures a == b
  {
    if x :| x in b && x !in a {
      SubsetSize(a, b - {x});
    }
  }

  // ----- the walk -----

  /** The cells below `free` among the first `i` positions, in visiting order. */
  function Walk(k: nat, free: nat, i: nat): seq<nat>
    requires k >= 4
  {
    if i == 0 then []
    else if Pos(k, i - 1) < free then Walk(k, free, i - 1) + [Pos(k, i - 1)]
    else Walk(k, free, i - 1)
  }

  /** All the cells below `free`, in visiting order. */
  function Cells(k: nat, free: nat): seq<nat>
    requires k >= 4
  {
    Walk(k, free, Pow2(k))
  }

  lemma {:induction false} WalkElements(k: nat, free: nat, i: nat, c: nat)
    requires k >= 4
    ensures c in Walk(k, free, i) <==> c < free && exists j :: 0 <= j < i && Pos(k, j) == c
  {
    hide Pos;
    if i > 0 {
      WalkElements(k, free, i - 1, c);
      if c == Pos(k, i - 1) {
        assert 0 <= i - 1 < i && Pos(k, i - 1) == c;
      }
    }
  }

  lemma {:induction false} WalkPrefix(k: nat, free: nat, i: nat, j: nat)
    requires k >= 4 && i <= j
    ensures |Walk(k, free, i)| <= |Walk(k, free, j)|
    ensures Walk(k, free, i) == Walk(k, free, j)[..|Walk(k, free, i)|]
    decreases j
  {
    hide Pos;
    if i < j {
      WalkPrefix(k, free, i, j - 1);
    }
  }

  lemma {:induction false} WalkDistinct(k: nat, free: nat, i: nat)
    requires k >= 4 && i <= Pow2(k)
    ensures Distinct(Walk(k, free, i))
  {
    hide Pos;
    if i > 0 {
      WalkDistinct(k, free, i - 1);
      var w, last := Walk(k, free, i - 1), Pos(k, i - 1);
      WalkElements(k, free, i - 1, last);
      if last in w {
        var j :| 0 <= j < i - 1 && Pos(k, j) == last;
        PosInjective(k, j, i - 1);
      }
    }
  }

  /** The positions of one cycle are all the cells of the table. */
  lemma PosSurjective(k: nat, c: nat)
    requires k >= 4 && c < Pow2(k)
    ensures exists j :: 0 <= j < Pow2(k) && Pos(k, j) == c
  {
    hide Pos, Walk;
    var n := Pow2(k);
    var w := Walk(k, n, n);
    WalkDistinct(k, n, n);
    WalkAll(k, n);
    DistinctSize(w);
    forall x | x in Elems(w) ensures x in Range(n) { WalkElements(k, n, n, x); }
    SubsetFull(Elems(w), Range(n));
    assert c in Range(n);
    WalkElements(k, n, n, c);
  }

  lemma {:induction false} WalkAll(k: nat, i: nat)
    requires k >= 4
    ensures |Walk(k, Pow2(k), i)| == i
  {
    hide Pos;
    if i > 0 {
      WalkAll(k, i - 1);
    }
  }

  /** The walk fills the free cells exactly: each one once, none left out. */
  lemma CellsExact(k: nat, free: nat)
    requires k >= 4 && free <= Pow2(k)
    ensures |Cells(k, free)| == free
    ensures Distinct(Cells(k, free))
    ensures forall c :: c in Cells(k, free) <==> 0 <= c < free
  {
    hide Pos, Walk;
    var n := Pow2(k);
    var w := Walk(k, free, n);
    WalkDistinct(k, free, n);
    DistinctSize(w);
    forall c: nat
      ensures c in w <==> c < free
    {
      WalkElements(k, free, n, c);
      if c < free {
        PosSurjective(k, c);
      }
    }
    assert Elems(w) == Range(free);
  }

  /** After the first `i` positions the walk stands on a free cell. */
  ghost predicate Standing(k: nat, free: nat, i: nat, position: nat, placed: nat) {
    && k >= 4 && 0 < free <= Pow2(k)
    && i <= Pow2(k) && position == Pos(k, i) < free
    && |Walk(k, free, i)| == placed
  }

  lemma StandingStart(k: nat, free: nat)
    requires k >= 4 && 0 < free <= Pow2(k)
    ensures Standing(k, free, 0, 0, 0)
  {
    PosCycle(k);
  }

  /** While cells are missing, the cell stood on is the next one of the walk. */
  lemma StandingCell(k: nat, free: nat, i: nat, position: nat, placed: nat)
    requires Standing(k, free, i, position, placed) && placed < free
    ensures i < Pow2(k)
    ensures |Cells(k, free)| == free && Cells(k, free)[placed] == position
  {
    hide Pos;
    CellsExact(k, free);
    assert i != Pow2(k);
    WalkPrefix(k, free, i + 1, Pow2(k));
    assert Walk(k, free, i + 1)[placed] == position;
  }

  /** Step to the next free cell. The reserved cells at the top are skipped, and
      the cycle's return to cell 0 ends the search. */
  method NextFree(k: nat, free: nat, position: nat, ghost i: nat, ghost placed: nat) returns (p: nat, ghost n: nat)
    requires Standing(k, free, i, position, placed) && placed < free
    ensures Standing(k, free, n, p, placed + 1)
  {
    hide Pos, Walk, NextPosition, Pow2;
    StandingCell(k, free, i, position, placed);
    PosNext(k, i);
    WalkStep(k, free, i);
    PosCycle(k);
    p := NextPosition(position, Pow2(k));
    n := i + 1;
    while p >= free
      invariant n <= Pow2(k) && p == Pos(k, n) && |Walk(k, free, n)| == placed + 1
      decreases Pow2(k) - n
    {
      PosNext(k, n);
      WalkStep(k, free, n);
      p := NextPosition(p, Pow2(k));
      n := n + 1;
    }
  }

  lemma WalkStep(k: nat, free: nat, i: nat)
    requires k >= 4
    ensures |Walk(k, free, i + 1)| == |Walk(k, free, i)| + if Pos(k, i) < free then 1 else 0
  {
    hide Pos;
  }
}
