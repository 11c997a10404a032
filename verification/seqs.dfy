/** Facts about sequence concatenation, stated for any element type. Over
    sequences of strings the solver reaches them only slowly, because every
    element comparison is itself a sequence comparison; proved once here for an
    opaque element type, they are simply applied. */
module Seqs {

  lemma ConcatAssoc<T>(p: seq<T>, q: seq<T>, r: seq<T>)
    ensures p + (q + r) == (p + q) + r
  {
  }

  /** A non-empty sequence followed by another is its head followed by the
      rest of both. */
  lemma ConcatCons<T>(a: seq<T>, b: seq<T>)
    requires |a| > 0
    ensures a + b == [a[0]] + (a[1..] + b)
    ensures (a + b)[0] == a[0] && (a + b)[1..] == a[1..] + b
  {
  }

  /** A head followed by two parts is the head and the first part, followed
      by the second part. */
  lemma Regroup<T>(x: T, p: seq<T>, q: seq<T>, whole: seq<T>, left: seq<T>)
    requires whole == [x] + (p + q) && left == [x] + p
    ensures whole == left + q
  {
    ConcatAssoc([x], p, q);
  }

  lemma EmptyConcat<T>(a: seq<T>)
    ensures [] + a == a && a + [] == a
  {
  }

  /** An element put in front of a sequence is its head, and the sequence is
      its tail. */
  lemma ConsParts<T>(x: T, b: seq<T>)
    ensures |[x] + b| == |b| + 1 && ([x] + b)[0] == x && ([x] + b)[1..] == b
  {
  }

  /** The head and tail of a non-empty sequence make it up again. */
  lemma HeadTail<T>(a: seq<T>)
    requires |a| > 0
    ensures [a[0]] + a[1..] == a
  {
  }

  /** `a` is `b` with some elements left out, the rest in their order. */
  predicate Subsequence<T(==)>(a: seq<T>, b: seq<T>)
    decreases |b|
  {
    || |a| == 0
    || (|b| > 0 && ((a[0] == b[0] && Subsequence(a[1..], b[1..])) || Subsequence(a, b[1..])))
  }

  /** Skipping the first element of the longer sequence keeps a subsequence. */
  lemma SubsequenceOfTail<T>(a: seq<T>, b: seq<T>)
    requires |b| > 0 && Subsequence(a, b[1..])
    ensures Subsequence(a, b)
  {
  }
}
