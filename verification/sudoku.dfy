/** The competitive Sudoku board and the moves played on it.

    A board of N x N cells is split into blocks of m rows by n columns, so that
    N = m * n. A cell holds Empty or a value; moves place a value in a cell. */
module Sudoku {

  /** The value of a cell that has not been filled in. */
  const Empty: nat := 0

  /** A placement of `value` in row `i`, column `j`. Taboo moves have the same shape. */
  datatype Move = Move(i: nat, j: nat, value: nat)

  datatype Board = Board(m: nat, n: nat, cells: seq<seq<nat>>) {

    /** The side length of the board. */
    function N(): nat {
      m * n
    }

    /** Non-empty block dimensions and an N x N grid of cells. */
    predicate WellFormed() {
      && m > 0
      && n > 0
      && |cells| == N()
      && forall r :: 0 <= r < |cells| ==> |cells[r]| == N()
    }

    predicate InRange(i: int, j: int) {
      0 <= i < N() && 0 <= j < N()
    }

    function Get(i: nat, j: nat): nat
      requires WellFormed() && InRange(i, j)
    {
      cells[i][j]
    }

    /** The board with `v` written into cell (i, j). */
    function Put(i: nat, j: nat, v: nat): (b: Board)
      requires WellFormed() && InRange(i, j)
      ensures b.WellFormed() && b.m == m && b.n == n
      ensures b.Get(i, j) == v
      ensures forall r, c :: InRange(r, c) && (r != i || c != j) ==> b.Get(r, c) == Get(r, c)
    {
      var row: seq<nat> := cells[i][j := v];
      Board(m, n, cells[i := row])
    }

    /** Cells (i, j) and (r, c) lie in the same m x n block. */
    predicate SameBlock(i: nat, j: nat, r: nat, c: nat)
      requires m > 0 && n > 0
    {
      r / m == i / m && c / n == j / n
    }

    /** The first row of the block holding row i. */
    function BlockTop(i: nat): nat
      requires m > 0
    {
      i - i % m
    }

    /** The first column of the block holding column j. */
    function BlockLeft(j: nat): nat
      requires n > 0
    {
      j - j % n
    }
  }

  /** Multiplying by k keeps a gap of at least one step between a < b. */
  lemma {:induction false} MulStep(k: nat, a: nat, b: nat)
    requires a < b
    ensures k * a + k <= k * b
    decreases b - a
  {
    if b > a + 1 {
      MulStep(k, a, b - 1);
      assert k * (b - 1) + k == k * b;
    }
  }

  /** The rows of the block are exactly the rows with the same quotient by k. */
  lemma BlockSpan(k: nat, i: nat, r: nat)
    requires k > 0
    ensures r / k == i / k <==> i - i % k <= r < i - i % k + k
  {
    var q := i / k;
    var p := r / k;
    assert i - i % k == k * q;
    assert k * p <= r < k * p + k;
    if p < q {
      MulStep(k, p, q);
    } else if p > q {
      MulStep(k, q, p);
    }
  }

  /** A block that starts at the block row of i < k * h ends inside the board. */
  lemma BlockFits(k: nat, h: nat, i: nat)
    requires k > 0 && i < k * h
    ensures i - i % k + k <= k * h
  {
    var q := i / k;
    assert k * q <= i;
    assert q < h by {
      if q >= h {
        if q > h {
          MulStep(k, h, q);
        }
      }
    }
    MulStep(k, q, h);
  }
}
