/** The legal-move enumerator: every placement that fills an empty cell with a
    value of 1..N that is not taboo and does not repeat a value already present
    in the cell's block, column or row (constraint C0). */
module LegalMoves {
  import opened Sudoku

  /** Value v already occurs somewhere in row i. */
  predicate InRow(b: Board, i: nat, v: nat)
    requires b.WellFormed() && i < b.N()
  {
    exists c :: 0 <= c < b.N() && b.Get(i, c) == v
  }

  /** Value v already occurs somewhere in column j. */
  predicate InColumn(b: Board, j: nat, v: nat)
    requires b.WellFormed() && j < b.N()
  {
    exists r :: 0 <= r < b.N() && b.Get(r, j) == v
  }

  /** Value v already occurs somewhere in the block containing cell (i, j). */
  predicate InBlock(b: Board, i: nat, j: nat, v: nat)
    requires b.WellFormed() && b.InRange(i, j)
  {
    exists r, c :: 0 <= r < b.N() && 0 <= c < b.N() && b.SameBlock(i, j, r, c) && b.Get(r, c) == v
  }

  /** The placement may be proposed: it is on the board, fills an empty cell
      with a value of 1..N, was never declared taboo and violates no C0 constraint. */
  predicate IsLegal(b: Board, taboo: set<Move>, mv: Move)
    requires b.WellFormed()
  {
    && b.InRange(mv.i, mv.j)
    && 1 <= mv.value <= b.N()
    && b.Get(mv.i, mv.j) == Empty
    && mv !in taboo
    && !InBlock(b, mv.i, mv.j, mv.value)
    && !InColumn(b, mv.j, mv.value)
    && !InRow(b, mv.i, mv.value)
  }

  /** Row-major order: by row, then by column, then by value. */
  predicate Precedes(a: Move, x: Move) {
    || a.i < x.i
    || (a.i == x.i && a.j < x.j)
    || (a.i == x.i && a.j == x.j && a.value < x.value)
  }

  /** Each move strictly precedes every later one, so no move appears twice. */
  predicate StrictlySorted(ms: seq<Move>) {
    forall s, t :: 0 <= s < t < |ms| ==> Precedes(ms[s], ms[t])
  }

  /** The candidates of cell (i, j) from value v up to N that pass IsLegal, by ascending value. */
  function Values(b: Board, taboo: set<Move>, i: nat, j: nat, v: nat): seq<Move>
    requires b.WellFormed() && b.InRange(i, j) && 1 <= v
    decreases b.N() + 1 - v
  {
    if v > b.N() then []
    else
      var here := if IsLegal(b, taboo, Move(i, j, v)) then [Move(i, j, v)] else [];
      here + Values(b, taboo, i, j, v + 1)
  }

  /** The candidates of row i from column j on that pass IsLegal, column by column. */
  function Cells(b: Board, taboo: set<Move>, i: nat, j: nat): seq<Move>
    requires b.WellFormed() && i < b.N() && j <= b.N()
    decreases b.N() - j
  {
    if j == b.N() then []
    else Values(b, taboo, i, j, 1) + Cells(b, taboo, i, j + 1)
  }

  /** The candidates from row i on that pass IsLegal, row by row. */
  function Rows(b: Board, taboo: set<Move>, i: nat): seq<Move>
    requires b.WellFormed() && i <= b.N()
    decreases b.N() - i
  {
    if i == b.N() then []
    else Cells(b, taboo, i, 0) + Rows(b, taboo, i + 1)
  }

  /** Appending a sequence whose moves all come later keeps strict order. */
  lemma ConcatSorted(a: seq<Move>, c: seq<Move>)
    requires StrictlySorted(a) && StrictlySorted(c)
    requires forall x, y :: x in a && y in c ==> Precedes(x, y)
    ensures StrictlySorted(a + c)
  {
  }

  /** The values of cell (i, j) from v on list exactly the legal moves of that
      cell with value at least v, in strictly ascending order. */
  lemma {:induction false} ValuesListing(b: Board, taboo: set<Move>, i: nat, j: nat, v: nat)
    requires b.WellFormed() && b.InRange(i, j) && 1 <= v
    ensures forall mv :: mv in Values(b, taboo, i, j, v) <==>
      mv.i == i && mv.j == j && v <= mv.value && IsLegal(b, taboo, mv)
    ensures StrictlySorted(Values(b, taboo, i, j, v))
    decreases b.N() + 1 - v
  {
    if v <= b.N() {
      ValuesListing(b, taboo, i, j, v + 1);
      var here := if IsLegal(b, taboo, Move(i, j, v)) then [Move(i, j, v)] else [];
      ConcatSorted(here, Values(b, taboo, i, j, v + 1));
    }
  }

  /** The cells of row i from column j on list exactly the legal moves of that
      row with column at least j, in row-major order. */
  lemma {:induction false} CellsListing(b: Board, taboo: set<Move>, i: nat, j: nat)
    requires b.WellFormed() && i < b.N() && j <= b.N()
    ensures forall mv :: mv in Cells(b, taboo, i, j) <==> mv.i == i && j <= mv.j && IsLegal(b, taboo, mv)
    ensures StrictlySorted(Cells(b, taboo, i, j))
    decreases b.N() - j
  {
    if j < b.N() {
      ValuesListing(b, taboo, i, j, 1);
      CellsListing(b, taboo, i, j + 1);
      ConcatSorted(Values(b, taboo, i, j, 1), Cells(b, taboo, i, j + 1));
    }
  }

  /** The rows from i on list exactly the legal moves with row at least i, in
      row-major order. */
  lemma {:induction false} RowsListing(b: Board, taboo: set<Move>, i: nat)
    requires b.WellFormed() && i <= b.N()
    ensures forall mv :: mv in Rows(b, taboo, i) <==> i <= mv.i && IsLegal(b, taboo, mv)
    ensures StrictlySorted(Rows(b, taboo, i))
    decreases b.N() - i
  {
    if i < b.N() {
      CellsListing(b, taboo, i, 0);
      RowsListing(b, taboo, i + 1);
      ConcatSorted(Cells(b, taboo, i, 0), Rows(b, taboo, i + 1));
    }
  }

  /** All legal moves of the board, in row-major order and by ascending value. */
  function Enumerate(b: Board, taboo: set<Move>): (ms: seq<Move>)
    requires b.WellFormed()
    ensures forall mv :: mv in ms <==> IsLegal(b, taboo, mv)
    ensures StrictlySorted(ms)
  {
    RowsListing(b, taboo, 0);
    Rows(b, taboo, 0)
  }

  /** Value v occurs in column j on a row outside the block of row i. */
  predicate InColumnOutsideBlock(b: Board, i: nat, j: nat, v: nat)
    requires b.WellFormed() && b.InRange(i, j)
  {
    exists r :: 0 <= r < b.N() && !(b.BlockTop(i) <= r < b.BlockTop(i) + b.m) && b.Get(r, j) == v
  }

  /** Value v occurs in row i in a column outside the block of column j. */
  predicate InRowOutsideBlock(b: Board, i: nat, j: nat, v: nat)
    requires b.WellFormed() && b.InRange(i, j)
  {
    exists c :: 0 <= c < b.N() && !(b.BlockLeft(j) <= c < b.BlockLeft(j) + b.n) && b.Get(i, c) == v
  }

  /** The block of (i, j) is the rectangle of m rows from BlockTop(i) and n
      columns from BlockLeft(j), and that rectangle lies on the board. */
  lemma BlockRectangle(b: Board, i: nat, j: nat, v: nat)
    requires b.WellFormed() && b.InRange(i, j)
    ensures b.BlockTop(i) + b.m <= b.N() && b.BlockLeft(j) + b.n <= b.N()
    ensures InBlock(b, i, j, v) <==>
      exists r, c :: b.BlockTop(i) <= r < b.BlockTop(i) + b.m && b.BlockLeft(j) <= c < b.BlockLeft(j) + b.n && b.Get(r, c) == v
  {
    BlockFits(b.m, b.n, i);
    assert b.n * b.m == b.N();
    BlockFits(b.n, b.m, j);
    var top, left := b.BlockTop(i), b.BlockLeft(j);
    if InBlock(b, i, j, v) {
      var r, c :| 0 <= r < b.N() && 0 <= c < b.N() && b.SameBlock(i, j, r, c) && b.Get(r, c) == v;
      BlockSpan(b.m, i, r);
      BlockSpan(b.n, j, c);
    }
    if exists r, c :: top <= r < top + b.m && left <= c < left + b.n && b.Get(r, c) == v {
      var r, c :| top <= r < top + b.m && left <= c < left + b.n && b.Get(r, c) == v;
      BlockSpan(b.m, i, r);
      BlockSpan(b.n, j, c);
      assert b.SameBlock(i, j, r, c);
    }
  }

  /** A repeat in column j lies either in the block of (i, j) or outside its
      rows, and likewise for row i: the three scans together cover the row,
      the column and the block. */
  lemma ScansCoverLines(b: Board, i: nat, j: nat, v: nat)
    requires b.WellFormed() && b.InRange(i, j)
    ensures InBlock(b, i, j, v) || InColumn(b, j, v) || InRow(b, i, v) <==>
      InBlock(b, i, j, v) || InColumnOutsideBlock(b, i, j, v) || InRowOutsideBlock(b, i, j, v)
  {
    BlockRectangle(b, i, j, v);
    var top, left := b.BlockTop(i), b.BlockLeft(j);
    BlockSpan(b.n, j, j);
    BlockSpan(b.m, i, i);
    if InColumn(b, j, v) && !InColumnOutsideBlock(b, i, j, v) {
      var r :| 0 <= r < b.N() && b.Get(r, j) == v;
      assert top <= r < top + b.m && left <= j < left + b.n;
    }
    if InRow(b, i, v) && !InRowOutsideBlock(b, i, j, v) {
      var c :| 0 <= c < b.N() && b.Get(i, c) == v;
      assert top <= i < top + b.m && left <= c < left + b.n;
    }
  }

  /** The block scan: every cell of the m x n block holding (i, j) is read,
      without stopping at the first hit. */
  method ScanBlock(b: Board, i: nat, j: nat, v: nat) returns (found: bool)
    requires b.WellFormed() && b.InRange(i, j)
    ensures found <==> InBlock(b, i, j, v)
  {
    BlockRectangle(b, i, j, v);
    var top, left := b.BlockTop(i), b.BlockLeft(j);
    found := false;
    var r := top;
    while r < top + b.m
      invariant top <= r <= top + b.m
      invariant found <==> exists r', c :: top <= r' < r && left <= c < left + b.n && b.Get(r', c) == v
    {
      var c := left;
      while c < left + b.n
        invariant left <= c <= left + b.n
        invariant found <==>
          || (exists r', c' :: top <= r' < r && left <= c' < left + b.n && b.Get(r', c') == v)
          || (exists c' :: left <= c' < c && b.Get(r, c') == v)
      {
        if b.Get(r, c) == v {
          found := true;
        }
        c := c + 1;
      }
      r := r + 1;
    }
  }

  /** The column scan: rows outside the block, top to bottom, stopping at the first hit. */
  method ScanColumnOutsideBlock(b: Board, i: nat, j: nat, v: nat) returns (found: bool)
    requires b.WellFormed() && b.InRange(i, j)
    ensures found <==> InColumnOutsideBlock(b, i, j, v)
  {
    var top := b.BlockTop(i);
    found := false;
    var r := 0;
    while r < b.N()
      invariant r <= b.N()
      invariant forall r' :: 0 <= r' < r && !(top <= r' < top + b.m) ==> b.Get(r', j) != v
    {
      if !(top <= r < top + b.m) && b.Get(r, j) == v {
        found := true;
        break;
      }
      r := r + 1;
    }
  }

  /** The row scan: columns outside the block, left to right, stopping at the first hit. */
  method ScanRowOutsideBlock(b: Board, i: nat, j: nat, v: nat) returns (found: bool)
    requires b.WellFormed() && b.InRange(i, j)
    ensures found <==> InRowOutsideBlock(b, i, j, v)
  {
    var left := b.BlockLeft(j);
    found := false;
    var c := 0;
    while c < b.N()
      invariant c <= b.N()
      invariant forall c' :: 0 <= c' < c && !(left <= c' < left + b.n) ==> b.Get(i, c') != v
    {
      if !(left <= c < left + b.n) && b.Get(i, c) == v {
        found := true;
        break;
      }
      c := c + 1;
    }
  }

  /** The tests applied to one candidate, in the order the enumerator applies
      them: occupied cell, taboo, block, then column and row outside the block. */
  method CheckCandidate(b: Board, taboo: set<Move>, i: nat, j: nat, v: nat) returns (legal: bool)
    requires b.WellFormed() && b.InRange(i, j) && 1 <= v <= b.N()
    ensures legal <==> IsLegal(b, taboo, Move(i, j, v))
  {
    if b.Get(i, j) != Empty {
      return false;
    }
    if Move(i, j, v) in taboo {
      return false;
    }
    ScansCoverLines(b, i, j, v);
    var inBlock := ScanBlock(b, i, j, v);
    if inBlock {
      return false;
    }
    var inColumn := ScanColumnOutsideBlock(b, i, j, v);
    if inColumn {
      return false;
    }
    var inRow := ScanRowOutsideBlock(b, i, j, v);
    legal := !inRow;
  }

  /** The innermost loop of the enumerator: values 1..N for cell (i, j). */
  method LegalMovesOfCell(b: Board, taboo: set<Move>, i: nat, j: nat) returns (moves: seq<Move>)
    requires b.WellFormed() && b.InRange(i, j)
    ensures moves == Values(b, taboo, i, j, 1)
  {
    moves := [];
    var v := 1;
    while v <= b.N()
      invariant 1 <= v <= b.N() + 1
      invariant moves + Values(b, taboo, i, j, v) == Values(b, taboo, i, j, 1)
    {
      var legal := CheckCandidate(b, taboo, i, j, v);
      var here := if legal then [Move(i, j, v)] else [];
      assert Values(b, taboo, i, j, v) == here + Values(b, taboo, i, j, v + 1);
      assert moves + Values(b, taboo, i, j, v) == (moves + here) + Values(b, taboo, i, j, v + 1);
      moves := moves + here;
      v := v + 1;
    }
  }

  /** The middle loop of the enumerator: the cells of row i, left to right. */
  method LegalMovesOfRow(b: Board, taboo: set<Move>, i: nat) returns (moves: seq<Move>)
    requires b.WellFormed() && i < b.N()
    ensures moves == Cells(b, taboo, i, 0)
  {
    moves := [];
    var j := 0;
    while j < b.N()
      invariant j <= b.N()
      invariant moves + Cells(b, taboo, i, j) == Cells(b, taboo, i, 0)
    {
      var cell := LegalMovesOfCell(b, taboo, i, j);
      assert Cells(b, taboo, i, j) == cell + Cells(b, taboo, i, j + 1);
      assert moves + Cells(b, taboo, i, j) == (moves + cell) + Cells(b, taboo, i, j + 1);
      moves := moves + cell;
      j := j + 1;
    }
  }

  /** The enumerator as written: rows top to bottom, then columns, then values
      1..N, each candidate tested and appended when it passes. */
  method FindAllLegalMoves(b: Board, taboo: set<Move>) returns (moves: seq<Move>)
    requires b.WellFormed()
    ensures forall mv :: mv in moves <==> IsLegal(b, taboo, mv)
    ensures StrictlySorted(moves)
    ensures moves == Enumerate(b, taboo)
  {
    moves := [];
    var i := 0;
    while i < b.N()
      invariant i <= b.N()
      invariant moves + Rows(b, taboo, i) == Rows(b, taboo, 0)
    {
      var row := LegalMovesOfRow(b, taboo, i);
      assert Rows(b, taboo, i) == row + Rows(b, taboo, i + 1);
      assert moves + Rows(b, taboo, i) == (moves + row) + Rows(b, taboo, i + 1);
      moves := moves + row;
      i := i + 1;
    }
    assert moves == Enumerate(b, taboo);
  }

  lemma HeadIsMember(c: seq<Move>)
    ensures |c| > 0 ==> c[0] in c
  {
  }

  /** Two strictly sorted listings of the same moves are the same sequence. */
  lemma {:induction false} SortedListingUnique(a: seq<Move>, c: seq<Move>)
    requires StrictlySorted(a) && StrictlySorted(c)
    requires forall mv :: mv in a <==> mv in c
    ensures a == c
    decreases |a|
  {
    HeadIsMember(c);
    if |a| == 0 {
    } else {
      assert a[0] in c;
      assert |c| > 0;
      assert c[0] in a;
      var s :| 0 <= s < |a| && a[s] == c[0];
      var t :| 0 <= t < |c| && c[t] == a[0];
      assert a[0] == c[0];
      forall mv
        ensures mv in a[1..] <==> mv in c[1..]
      {
        if mv in a[1..] {
          var k :| 1 <= k < |a| && a[k] == mv;
          assert Precedes(a[0], mv);
          assert mv in c;
          var k' :| 0 <= k' < |c| && c[k'] == mv;
          assert k' != 0;
          assert c[1..][k' - 1] == mv;
        }
        if mv in c[1..] {
          var k :| 1 <= k < |c| && c[k] == mv;
          assert Precedes(c[0], mv);
          assert mv in a;
          var k' :| 0 <= k' < |a| && a[k'] == mv;
          assert k' != 0;
          assert a[1..][k' - 1] == mv;
        }
      }
      SortedListingUnique(a[1..], c[1..]);
      assert a == [a[0]] + a[1..];
      assert c == [c[0]] + c[1..];
    }
  }

  /** Enumerate is the one row-major listing of the legal moves: any strictly
      sorted sequence holding exactly the legal moves equals it, so each legal
      move appears exactly once. */
  lemma EnumerateIsTheSortedListing(b: Board, taboo: set<Move>, ms: seq<Move>)
    requires b.WellFormed()
    requires StrictlySorted(ms)
    requires forall mv :: mv in ms <==> IsLegal(b, taboo, mv)
    ensures ms == Enumerate(b, taboo)
  {
    SortedListingUnique(ms, Enumerate(b, taboo));
  }

  /** A board without an empty cell admits no move. */
  lemma FullBoardHasNoMoves(b: Board, taboo: set<Move>)
    requires b.WellFormed()
    requires forall r, c :: 0 <= r < b.N() && 0 <= c < b.N() ==> b.Get(r, c) != Empty
    ensures Enumerate(b, taboo) == []
  {
    var ms := Enumerate(b, taboo);
    HeadIsMember(ms);
  }
}

/** A 4 x 4 board with 2 x 2 blocks whose first row is 1, _, _, 4. */
module LegalMovesExample {
  import opened Sudoku
  import opened LegalMoves

  function ExampleBoard(): (b: Board)
    ensures b.WellFormed() && b.N() == 4
  {
    Board(2, 2, [[1, 0, 0, 4], [0, 0, 0, 0], [0, 0, 0, 0], [0, 0, 0, 0]])
  }

  lemma ExampleValues(r: nat, c: nat)
    requires r < 4 && c < 4
    ensures ExampleBoard().Get(r, c) in {0, 1, 4}
  {
  }

  /** Apart from taboo, value v fits cell (0, 1) exactly when it is 2 or 3:
      1 and 4 already occur in row 0. */
  lemma ExampleCellFits(v: nat)
    ensures (1 <= v <= 4 && !InBlock(ExampleBoard(), 0, 1, v) && !InColumn(ExampleBoard(), 1, v)
             && !InRow(ExampleBoard(), 0, v)) <==> v == 2 || v == 3
  {
    var b := ExampleBoard();
    if v == 1 {
      assert b.Get(0, 0) == v;
    } else if v == 4 {
      assert b.Get(0, 3) == v;
    } else if v == 2 || v == 3 {
      forall r, c | 0 <= r < 4 && 0 <= c < 4
        ensures b.Get(r, c) != v
      {
        ExampleValues(r, c);
      }
    }
  }

  /** Cell (0, 1) admits exactly the values 2 and 3 that are not taboo. */
  lemma ExampleCellListed(taboo: set<Move>, v: nat)
    ensures Move(0, 1, v) in Enumerate(ExampleBoard(), taboo) <==> (v == 2 || v == 3) && Move(0, 1, v) !in taboo
  {
    var b := ExampleBoard();
    ExampleCellFits(v);
    assert b.Get(0, 1) == Empty;
    assert Move(0, 1, v) in Enumerate(b, taboo) <==> IsLegal(b, taboo, Move(0, 1, v));
  }

  /** Without taboo moves, cell (0, 1) admits exactly the values 2 and 3. */
  lemma ExampleCellCandidates(v: nat)
    ensures Move(0, 1, v) in Enumerate(ExampleBoard(), {}) <==> v == 2 || v == 3
  {
    ExampleCellListed({}, v);
  }

  /** Once (0, 1, 2) is declared taboo, cell (0, 1) admits only the value 3. */
  lemma ExampleTabooCandidates(v: nat)
    ensures Move(0, 1, v) in Enumerate(ExampleBoard(), {Move(0, 1, 2)}) <==> v == 3
  {
    var taboo := {Move(0, 1, 2)};
    assert Move(0, 1, v) in taboo <==> v == 2;
    ExampleCellListed(taboo, v);
  }
}
