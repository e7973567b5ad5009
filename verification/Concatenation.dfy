/** Concatenation is associative: the groupings the proofs need, stated once. */
module Concatenation {

  lemma Join3<T>(a: seq<T>, b: seq<T>, c: seq<T>)
    ensures a + b + c == a + (b + c)
  {
  }

  lemma Join4<T>(a: seq<T>, b: seq<T>, c: seq<T>, d: seq<T>)
    ensures a + b + c + d == a + (b + c) + d == a + b + (c + d) == a + (b + c + d) == a + (b + (c + d))
  {
  }

  lemma Join5<T>(a: seq<T>, b: seq<T>, c: seq<T>, d: seq<T>, e: seq<T>)
    ensures a + b + c + d + e == a + (b + c + d) + e == a + (b + (c + d)) + e
    ensures a + b + c + d + e == a + b + c + (d + e) == a + b + (c + (d + e)) == a + (b + (c + (d + e)))
  {
  }

  lemma Join6<T>(a: seq<T>, b: seq<T>, c: seq<T>, d: seq<T>, e: seq<T>, f: seq<T>)
    ensures a + b + c + d + e + f == a + (b + (c + (d + (e + f))))
  {
  }
}
