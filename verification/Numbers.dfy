/** Powers of two, integer logarithms, Euclidean division and the bitwise
    operators of the source, written on natural numbers. */
module Numbers {

  function Pow2(n: nat): (r: nat)
    ensures r > 0
  {
    if n == 0 then 1 else 2 * Pow2(n - 1)
  }

  lemma {:induction false} Pow2Add(a: nat, b: nat)
    ensures Pow2(a + b) == Pow2(a) * Pow2(b)
  {
    if a != 0 {
      Pow2Add(a - 1, b);
      MulDouble(Pow2(a - 1), Pow2(b));
    }
  }

  lemma Pow2Double(n: nat)
    requires n > 0
    ensures Pow2(n) == 2 * Pow2(n - 1)
  {
  }

  lemma Pow2Mono(a: nat, b: nat)
    requires a <= b
    ensures Pow2(a) <= Pow2(b)
    ensures a < b ==> 2 * Pow2(a) <= Pow2(b)
  {
    if a < b {
      Pow2Mono(a, b - 1);
    }
  }

  lemma Pow2Reflects(a: nat, b: nat)
    requires Pow2(a) <= Pow2(b)
    ensures a <= b
  {
    if b < a {
      Pow2Mono(b, a);
    }
  }

  lemma Pow2Injective(a: nat, b: nat)
    requires Pow2(a) == Pow2(b)
    ensures a == b
  {
    Pow2Mono(if a < b then a else b, if a < b then b else a);
  }

  lemma Pow2Values()
    ensures Pow2(1) == 2 && Pow2(2) == 4 && Pow2(3) == 8 && Pow2(4) == 16 && Pow2(5) == 32
    ensures Pow2(6) == 64 && Pow2(7) == 128 && Pow2(8) == 256 && Pow2(9) == 512
  {
  }

  /** The floor of the binary logarithm (`ilog2`). */
  function Log2(n: nat): (r: nat)
    requires n > 0
    ensures Pow2(r) <= n < Pow2(r + 1)
  {
    if n < 2 then 0 else 1 + Log2(n / 2)
  }

  lemma Log2Unique(n: nat, r: nat)
    requires Pow2(r) <= n < Pow2(r + 1)
    ensures Log2(n) == r
  {
    var l := Log2(n);
    if l < r {
      Pow2Mono(l + 1, r);
    } else if r < l {
      Pow2Mono(r + 1, l);
    }
  }

  predicate IsPow2(n: nat) {
    n > 0 && n == Pow2(Log2(n))
  }

  lemma IsPow2Iff(n: nat, k: nat)
    requires n == Pow2(k)
    ensures n > 0 && Log2(n) == k && IsPow2(n)
  {
    Log2Unique(n, k);
  }

  lemma MulSign(t: int, d: nat)
    ensures t >= 1 ==> t * d >= d && (d > 0 ==> t * d >= t)
    ensures t <= -1 ==> t * d <= -(d as int)
  {
  }

  lemma SmallMultiple(t: int, d: nat)
    requires -(d as int) < t * d < d
    ensures t == 0
  {
    MulSign(t, d);
  }

  /** Quotient and remainder are unique. */
  lemma DivModUnique(d: nat, q: int, r: int)
    requires 0 <= r < d
    ensures (q * d + r) / d == q
    ensures (q * d + r) % d == r
  {
    var n := q * d + r;
    var q', r' := n / d, n % d;
    DivMod(n, d);
    assert (q - q') * d == r' - r by { assert (q - q') * d == q * d - q' * d; }
    SmallMultiple(q - q', d);
  }

  lemma DivMod(n: int, d: nat)
    requires d > 0
    ensures n == (n / d) * d + n % d
    ensures 0 <= n % d < d
  {
  }

  lemma DivNonneg(n: nat, d: nat)
    requires d > 0
    ensures 0 <= n / d <= n
  {
    var q := n / d;
    DivMod(n, d);
    MulSign(q, d);
  }

  lemma MulDouble(a: nat, b: nat)
    ensures (2 * a) * b == 2 * (a * b)
    ensures b * (2 * a) == 2 * (b * a)
  {
  }

  lemma MulNext(a: nat, p: nat)
    ensures (a + 1) * p == a * p + p && 0 * p == 0
  {
  }

  lemma MulMono(a: nat, b: nat, c: nat)
    requires a <= b
    ensures a * c <= b * c
  {
  }

  lemma MulSub(a: nat, b: nat, c: nat)
    requires a <= b
    ensures a * c <= b * c && b * c - a * c == (b - a) * c
  {
  }

  lemma MulStrict(a: nat, b: nat, c: nat)
    requires a < b && c > 0
    ensures a * c + c <= b * c
  {
    MulMono(a + 1, b, c);
  }

  lemma DivBound(n: nat, d: nat, q: nat)
    requires d > 0 && n < q * d
    ensures 0 <= n / d < q
  {
    DivNonneg(n, d);
    DivMod(n, d);
    if n / d >= q {
      MulMono(q, n / d, d);
    }
  }

  lemma ModSmall(n: nat, d: nat)
    requires n < d
    ensures n % d == n && n / d == 0
  {
    DivModUnique(d, 0, n);
  }

  lemma DivDiv(n: nat, a: nat, b: nat)
    requires a > 0 && b > 0
    ensures a * b > 0
    ensures n / a >= 0
    ensures (n / a) / b == n / (a * b)
    ensures n % (a * b) == n % a + a * ((n / a) % b)
  {
    var q, r := n / a, n % a;
    var q2, r2 := q / b, q % b;
    DivNonneg(n, a);
    DivMod(n, a);
    DivMod(q, b);
    Regroup(n, a, b, q2, r2, r);
    DivModUnique(a * b, q2, r2 * a + r);
  }

  lemma Regroup(n: nat, a: nat, b: nat, q2: int, r2: int, r: int)
    requires 0 <= r2 < b && 0 <= r < a && n == (q2 * b + r2) * a + r
    ensures n == q2 * (a * b) + (r2 * a + r)
    ensures 0 <= r2 * a + r < a * b
  {
    calc {
      (q2 * b + r2) * a;
      (q2 * b) * a + r2 * a;
      q2 * (a * b) + r2 * a;
    }
    MulMono(0, r2, a);
    MulStrict(r2, b, a);
  }

  // ----- shifts and masks on unbounded naturals -----

  /** `v << n` without loss. */
  function Up(v: nat, n: nat): nat {
    if n == 0 then v else 2 * Up(v, n - 1)
  }

  /** `v >> n`. */
  function Shr(v: nat, n: nat): nat {
    if n == 0 then v else Shr(v / 2, n - 1)
  }

  /** The low `n` bits of `v`. */
  function Low(v: nat, n: nat): (r: nat)
    ensures r < Pow2(n)
  {
    if n == 0 then 0 else v % 2 + 2 * Low(v / 2, n - 1)
  }

  lemma {:induction false} UpZero(n: nat)
    ensures Up(0, n) == 0
  {
    if n > 0 {
      UpZero(n - 1);
    }
  }

  lemma {:induction false} UpIsProduct(v: nat, n: nat)
    ensures Up(v, n) == v * Pow2(n)
    ensures Up(v, n) == Pow2(n) * v
  {
    if n > 0 {
      UpIsProduct(v, n - 1);
      MulDouble(Pow2(n - 1), v);
    }
  }

  /** The other two are division and remainder. */
  lemma {:induction false} ShrIsQuotient(v: nat, n: nat)
    ensures Shr(v, n) == v / Pow2(n)
    ensures Low(v, n) == v % Pow2(n)
  {
    if n > 0 {
      ShrIsQuotient(v / 2, n - 1);
      DivDiv(v, 2, Pow2(n - 1));
    }
  }

  lemma {:induction false} JoinParts(lo: nat, hi: nat, n: nat)
    requires lo < Pow2(n)
    ensures Low(lo + Up(hi, n), n) == lo
    ensures Shr(lo + Up(hi, n), n) == hi
  {
    if n > 0 {
      var x := Up(hi, n - 1);
      JoinParts(lo / 2, hi, n - 1);
      assert (lo + 2 * x) / 2 == lo / 2 + x;
    }
  }

  lemma {:induction false} SplitParts(v: nat, n: nat)
    ensures v == Low(v, n) + Up(Shr(v, n), n)
  {
    if n > 0 {
      SplitParts(v / 2, n - 1);
    }
  }

  lemma {:induction false} LowSmall(v: nat, n: nat)
    requires v < Pow2(n)
    ensures Low(v, n) == v && Shr(v, n) == 0
  {
    if n > 0 {
      LowSmall(v / 2, n - 1);
    }
  }

  lemma {:induction false} UpBound(lo: nat, v: nat, n: nat, k: nat)
    requires lo < Pow2(k) && v < Pow2(n)
    ensures lo + Up(v, k) < Pow2(k + n)
  {
    if k > 0 {
      UpBound(lo / 2, v, n, k - 1);
    }
  }

  lemma {:induction false} ShrBound(v: nat, n: nat, f: nat)
    requires v < Pow2(n) && f <= n
    ensures Shr(v, f) < Pow2(n - f)
  {
    if f > 0 {
      ShrBound(v / 2, n - 1, f - 1);
    }
  }

  lemma ShrZero(v: nat)
    ensures Shr(v, 0) == v
  {
  }

  lemma {:induction false} ShrShr(v: nat, a: nat, b: nat)
    ensures Shr(Shr(v, a), b) == Shr(v, a + b)
  {
    if a > 0 {
      ShrShr(v / 2, a - 1, b);
    }
  }

  lemma {:induction false} UpUp(v: nat, a: nat, b: nat)
    ensures Up(Up(v, a), b) == Up(v, a + b)
  {
    if b > 0 {
      UpUp(v, a, b - 1);
    }
  }

  /** Taking fields out of a value that was already cut off. */
  lemma {:induction false} LowLow(v: nat, m: nat, n: nat)
    ensures Low(Low(v, m + n), m) == Low(v, m)
    ensures Shr(Low(v, m + n), m) == Low(Shr(v, m), n)
  {
    if m > 0 {
      LowLow(v / 2, m - 1, n);
      var x := Low(v / 2, m - 1 + n);
      assert (v % 2 + 2 * x) / 2 == x;
    }
  }

  /** Bits pushed out at the top of a word of `k + n` bits are lost. */
  lemma {:induction false} LowUp(v: nat, k: nat, n: nat)
    ensures Low(Up(v, k), k + n) == Up(Low(v, n), k)
  {
    if k > 0 {
      LowUp(v, k - 1, n);
    }
  }
}
