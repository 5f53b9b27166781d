/** Row-major positions: rows of n entries laid one after the other. */
module RowMajor {
  /** The length of i full rows of n. */
  function Rows(i: nat, n: nat): nat { i * n }

  lemma RowsStep(i: nat, n: nat)
    ensures Rows(0, n) == 0 && Rows(i + 1, n) == Rows(i, n) + n
  {}

  lemma RowsBelow(i: nat, rows: nat, n: nat)
    requires i < rows
    ensures Rows(i, n) + n <= Rows(rows, n)
  {
    assert (rows - i) * n >= 1 * n by { assert (rows - i - 1) * n >= 0; }
  }

  lemma RowUnique(i: nat, b: nat, j: nat, c: nat, n: nat)
    requires b < n && c < n && Rows(i, n) + b == Rows(j, n) + c
    ensures i == j && b == c
  {
    if i < j { RowsBelow(i, j, n); }
    if j < i { RowsBelow(j, i, n); }
  }

  lemma RowOf(k: nat, rows: nat, n: nat) returns (i: nat, b: nat)
    requires n > 0 && k < Rows(rows, n)
    ensures i < rows && b < n && Rows(i, n) + b == k
  {
    i, b := k / n, k % n;
    assert Rows(i, n) + b == k;
    if i == rows {
      assert false;
    } else if i > rows {
      RowsBelow(rows, i, n);
      assert false;
    }
  }
}
