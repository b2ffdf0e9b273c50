/** Regrouping concatenations. */
module Sequences {
  lemma Regroup<T>(a: seq<T>, b: seq<T>, c: seq<T>, d: seq<T>)
    ensures a + (b + c + d) == a + b + c + d && b + [] == b && a + b + [] == a + b
    ensures |a + b + c + d| == |a| + |b| + |c| + |d|
  {}

  lemma Chain<T>(a: seq<T>, b: seq<T>, c: seq<T>)
    ensures a + b + c == a + (b + c) && a + b + [] == a + b
  {}
}
