/** Multiplication facts the flat board layout needs (the solver does not find them alone). */
module Arith {

  lemma MulMono(n: nat, a: nat, b: nat)
    requires a <= b
    ensures n * a <= n * b
  {
    assert n * b == n * a + n * (b - a);
  }

  lemma MulLeIff(n: nat, a: nat, b: nat)
    requires n > 0
    ensures n * a <= n * b <==> a <= b
  {
    if a <= b {
      MulMono(n, a, b);
    } else {
      MulMono(n, b + 1, a);
      assert n * (b + 1) == n * b + n;
    }
  }

  /** The cell (row, column) of an n-wide grid lies inside the n*n tiles, and so does the end of its row. */
  lemma CellInGrid(n: nat, row: nat, column: nat)
    requires row < n && column < n
    ensures n * row + column < n * n
    ensures n * row + n <= n * n
  {
    MulMono(n, row + 1, n);
    assert n * (row + 1) == n * row + n;
  }

  lemma CellInGridWhenInRange(n: nat, row: nat, column: nat)
    ensures row < n && column < n ==> n * row + column < n * n
  {
    if row < n && column < n {
      CellInGrid(n, row, column);
    }
  }

  /** Row-major cells of an n-wide grid have distinct flat indices. */
  lemma FlatIndexInjective(n: nat, r1: nat, c1: nat, r2: nat, c2: nat)
    requires c1 < n && c2 < n && n * r1 + c1 == n * r2 + c2
    ensures r1 == r2 && c1 == c2
  {
    if r1 < r2 {
      MulMono(n, r1 + 1, r2);
    } else if r2 < r1 {
      MulMono(n, r2 + 1, r1);
    }
  }
}
