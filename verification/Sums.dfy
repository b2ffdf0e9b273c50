/** Finite sums over an index range, and double sums over a rectangle. */
module Sums {

  ghost function Sum(n: nat, f: int -> int): int {
    if n == 0 then 0 else Sum(n - 1, f) + f(n - 1)
  }

  ghost function Row(F: (int, int) -> int, u: int): int -> int {
    v => F(u, v)
  }

  ghost function Column(F: (int, int) -> int, v: int): int -> int {
    u => F(u, v)
  }

  ghost function Flip(F: (int, int) -> int): (int, int) -> int {
    (u, v) => F(v, u)
  }

  /** The sum of F over the m-by-n rectangle, row by row. */
  ghost function Sum2(m: nat, n: nat, F: (int, int) -> int): int {
    if m == 0 then 0 else Sum2(m - 1, n, F) + Sum(n, Row(F, m - 1))
  }

  lemma {:induction false} SumEqual(n: nat, f: int -> int, g: int -> int)
    requires forall i :: 0 <= i < n ==> f(i) == g(i)
    ensures Sum(n, f) == Sum(n, g)
  {
    if n > 0 { SumEqual(n - 1, f, g); }
  }

  lemma {:induction false} SumLinear(n: nat, f: int -> int, g: int -> int, h: int -> int)
    requires forall i :: 0 <= i < n ==> h(i) == f(i) + g(i)
    ensures Sum(n, h) == Sum(n, f) + Sum(n, g)
  {
    if n > 0 { SumLinear(n - 1, f, g, h); }
  }

  lemma {:induction false} SumMonotone(n: nat, f: int -> int, g: int -> int)
    requires forall i :: 0 <= i < n ==> f(i) <= g(i)
    ensures Sum(n, f) <= Sum(n, g)
  {
    if n > 0 { SumMonotone(n - 1, f, g); }
  }

  lemma {:induction false} SumZero(n: nat, f: int -> int)
    requires forall i :: 0 <= i < n ==> f(i) == 0
    ensures Sum(n, f) == 0
  {
    if n > 0 { SumZero(n - 1, f); }
  }

  /** Changing one term changes the sum by the same amount. */
  lemma {:induction false} SumUpdate(n: nat, f: int -> int, g: int -> int, k: int, delta: int)
    requires 0 <= k < n
    requires forall i :: 0 <= i < n && i != k ==> g(i) == f(i)
    requires g(k) == f(k) + delta
    ensures Sum(n, g) == Sum(n, f) + delta
  {
    if k == n - 1 { SumEqual(n - 1, f, g); } else { SumUpdate(n - 1, f, g, k, delta); }
  }

  lemma {:induction false} Sum2Equal(m: nat, n: nat, F: (int, int) -> int, G: (int, int) -> int)
    requires forall u, v :: 0 <= u < m && 0 <= v < n ==> F(u, v) == G(u, v)
    ensures Sum2(m, n, F) == Sum2(m, n, G)
  {
    if m > 0 {
      Sum2Equal(m - 1, n, F, G);
      SumEqual(n, Row(F, m - 1), Row(G, m - 1));
    }
  }

  lemma {:induction false} Sum2Linear(m: nat, n: nat, F: (int, int) -> int, G: (int, int) -> int, H: (int, int) -> int)
    requires forall u, v :: 0 <= u < m && 0 <= v < n ==> H(u, v) == F(u, v) + G(u, v)
    ensures Sum2(m, n, H) == Sum2(m, n, F) + Sum2(m, n, G)
  {
    if m > 0 {
      Sum2Linear(m - 1, n, F, G, H);
      SumLinear(n, Row(F, m - 1), Row(G, m - 1), Row(H, m - 1));
    }
  }

  lemma {:induction false} Sum2Monotone(m: nat, n: nat, F: (int, int) -> int, G: (int, int) -> int)
    requires forall u, v :: 0 <= u < m && 0 <= v < n ==> F(u, v) <= G(u, v)
    ensures Sum2(m, n, F) <= Sum2(m, n, G)
  {
    if m > 0 {
      Sum2Monotone(m - 1, n, F, G);
      SumMonotone(n, Row(F, m - 1), Row(G, m - 1));
    }
  }

  lemma {:induction false} Sum2Zero(m: nat, n: nat, F: (int, int) -> int)
    requires forall u, v :: 0 <= u < m && 0 <= v < n ==> F(u, v) == 0
    ensures Sum2(m, n, F) == 0
  {
    if m > 0 {
      Sum2Zero(m - 1, n, F);
      SumZero(n, Row(F, m - 1));
    }
  }

  /** Splitting off the last column. */
  lemma {:induction false} Sum2LastColumn(m: nat, n: nat, F: (int, int) -> int)
    ensures Sum2(m, n + 1, F) == Sum2(m, n, F) + Sum(m, Column(F, n))
  {
    if m > 0 { Sum2LastColumn(m - 1, n, F); }
  }

  /** The order of summation does not matter. */
  lemma {:induction false} Sum2Swap(m: nat, n: nat, F: (int, int) -> int)
    ensures Sum2(m, n, F) == Sum2(n, m, Flip(F))
  {
    if m == 0 {
      Sum2Zero(n, 0, Flip(F));
    } else {
      Sum2Swap(m - 1, n, F);
      Sum2LastColumn(n, m - 1, Flip(F));
      SumEqual(n, Row(F, m - 1), Column(Flip(F), m - 1));
    }
  }

  /** An antisymmetric table sums to zero over a square. */
  lemma AntisymmetricSumsToZero(n: nat, F: (int, int) -> int)
    requires forall u, v :: 0 <= u < n && 0 <= v < n ==> F(u, v) == -F(v, u)
    ensures Sum2(n, n, F) == 0
  {
    var zero: (int, int) -> int := (u, v) => 0;
    Sum2Swap(n, n, F);
    Sum2Linear(n, n, F, Flip(F), zero);
    Sum2Zero(n, n, zero);
  }
}
