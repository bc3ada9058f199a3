/** Row-major positions `c*E + j` (row `c`, column `j < E`) of an
    `n x E` array laid out flat, as numpy's `arange(n*E).reshape(n, E)`
    numbers them. */
module RowMajor {

  /** The flat position of row `c`, column `j` when rows are `E` long. */
  function Flat(c: nat, E: nat, j: nat): nat {
    c * E + j
  }

  /** Row `c` of `n` rows ends no later than the last row does. */
  lemma MulStep(c: nat, n: nat, E: nat)
    requires c < n
    ensures c * E + E <= n * E
  {
    assert (n - c) * E >= E by {
      assert n - c >= 1;
    }
    assert n * E == c * E + (n - c) * E;
  }

  /** Every position below `n*E` is a row-major position `c*E + j`. */
  lemma RowMajorSplit(d: nat, n: nat, E: nat) returns (c: nat, j: nat)
    requires d < n * E
    ensures c < n && j < E && d == c * E + j
  {
    c, j := 0, d;
    while j >= E
      invariant d == c * E + j
      decreases j
    {
      c, j := c + 1, j - E;
    }
    if c >= n {
      MulStep(n, c + 1, E);
    }
  }

  /** Row-major positions `c*E + j` with `j < E` determine `c` and `j`. */
  lemma RowMajorUnique(c: nat, j: nat, c': nat, j': nat, E: nat)
    requires j < E && j' < E && c * E + j == c' * E + j'
    ensures c == c' && j == j'
  {
    if c < c' {
      MulStep(c, c', E);
    } else if c' < c {
      MulStep(c', c, E);
    }
  }
}
