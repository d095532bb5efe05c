/** Positions, shapes and cell counting on a board. These are the vocabulary the
    game logic's contracts are written in; the source has them only implicitly
    (its `rows = board.length`, `cols = board[0].length` and its counting loops). */
module Grid {
  import opened Types

  /** (r, c) addresses a cell of b. */
  predicate InBounds(b: Board, r: int, c: int) {
    0 <= r < |b| && 0 <= c < |b[r]|
  }

  /** b has `rows` rows of `cols` cells each. */
  ghost predicate HasShape(b: Board, rows: nat, cols: nat) {
    |b| == rows && forall r :: 0 <= r < rows ==> |b[r]| == cols
  }

  /** The boards the game works on: at least one row, every row as long as the first. */
  ghost predicate IsBoard(b: Board) {
    |b| > 0 && HasShape(b, |b|, |b[0]|)
  }

  ghost predicate SameShape(b: Board, b': Board) {
    |b'| == |b| && forall r :: 0 <= r < |b| ==> |b'[r]| == |b[r]|
  }

  lemma SameShapeIsBoard(b: Board, b': Board)
    requires IsBoard(b) && SameShape(b, b')
    ensures IsBoard(b') && |b'[0]| == |b[0]|
  {
  }

  /** (r2, c2) is one of the up-to-eight cells at Chebyshev distance exactly 1 from (r, c). */
  predicate Adjacent(r: int, c: int, r2: int, c2: int) {
    -1 <= r2 - r <= 1 && -1 <= c2 - c <= 1 && (r2 != r || c2 != c)
  }

  /** b with the cell at (r, c) replaced by x. */
  function SetCell(b: Board, r: int, c: int, x: Cell): (b': Board)
    requires InBounds(b, r, c)
    ensures SameShape(b, b') && b'[r][c] == x
    ensures forall r2, c2 :: InBounds(b, r2, c2) && (r2 != r || c2 != c) ==> b'[r2][c2] == b[r2][c2]
  {
    b[r := b[r][c := x]]
  }

  // ---------------------------------------------------------------------------
  // Counting cells

  /** A test on a cell and its position. */
  type CellTest = (int, int, Cell) -> bool

  function Ind(holds: bool): nat {
    if holds then 1 else 0
  }

  /** The number of the first n cells of row r that pass p. */
  function CountInRow(row: seq<Cell>, r: int, p: CellTest, n: nat): nat
    requires n <= |row|
  {
    if n == 0 then 0 else CountInRow(row, r, p, n - 1) + Ind(p(r, n - 1, row[n - 1]))
  }

  /** The number of cells in the first n rows of b that pass p. */
  function CountInRows(b: Board, p: CellTest, n: nat): nat
    requires n <= |b|
  {
    if n == 0 then 0 else CountInRows(b, p, n - 1) + CountInRow(b[n - 1], n - 1, p, |b[n - 1]|)
  }

  /** The number of cells of b that pass p. */
  function Count(b: Board, p: CellTest): nat {
    CountInRows(b, p, |b|)
  }

  predicate AnyCell(r: int, c: int, x: Cell) { true }
  predicate MineCell(r: int, c: int, x: Cell) { x.isMine }
  predicate SafeCell(r: int, c: int, x: Cell) { !x.isMine }
  predicate HiddenCell(r: int, c: int, x: Cell) { !x.isRevealed }
  predicate FlaggedCell(r: int, c: int, x: Cell) { x.isFlagged }
  predicate RevealedSafeCell(r: int, c: int, x: Cell) { x.isRevealed && !x.isMine }
  predicate HiddenSafeCell(r: int, c: int, x: Cell) { !x.isRevealed && !x.isMine }

  lemma {:induction false} CountInRowMono(row: seq<Cell>, row': seq<Cell>, r: int, p: CellTest, q: CellTest, n: nat)
    requires n <= |row| == |row'|
    requires forall c :: 0 <= c < n && p(r, c, row'[c]) ==> q(r, c, row[c])
    ensures CountInRow(row', r, p, n) <= CountInRow(row, r, q, n)
  {
    if n > 0 {
      CountInRowMono(row, row', r, p, q, n - 1);
    }
  }

  lemma {:induction false} CountInRowsMono(b: Board, b': Board, p: CellTest, q: CellTest, n: nat)
    requires n <= |b| && SameShape(b, b')
    requires forall r, c :: InBounds(b, r, c) && p(r, c, b'[r][c]) ==> q(r, c, b[r][c])
    ensures CountInRows(b', p, n) <= CountInRows(b, q, n)
  {
    if n > 0 {
      CountInRowsMono(b, b', p, q, n - 1);
      CountInRowMono(b[n - 1], b'[n - 1], n - 1, p, q, |b[n - 1]|);
    }
  }

  /** If every cell of b' that passes p sits where b has a cell passing q, b' has at most as many. */
  lemma CountMono(b: Board, b': Board, p: CellTest, q: CellTest)
    requires SameShape(b, b')
    requires forall r, c :: InBounds(b, r, c) && p(r, c, b'[r][c]) ==> q(r, c, b[r][c])
    ensures Count(b', p) <= Count(b, q)
  {
    CountInRowsMono(b, b', p, q, |b|);
  }

  /** Two boards of one shape that agree on p cell by cell have equally many cells passing p. */
  lemma CountSame(b: Board, b': Board, p: CellTest)
    requires SameShape(b, b')
    requires forall r, c :: InBounds(b, r, c) ==> p(r, c, b'[r][c]) == p(r, c, b[r][c])
    ensures Count(b', p) == Count(b, p)
  {
    CountMono(b, b', p, p);
    assert SameShape(b', b);
    CountMono(b', b, p, p);
  }

  lemma {:induction false} CountInRowUpdate(row: seq<Cell>, r: int, p: CellTest, c: nat, x: Cell, n: nat)
    requires c < |row| && n <= |row|
    ensures CountInRow(row[c := x], r, p, n) + (if c < n then Ind(p(r, c, row[c])) else 0)
         == CountInRow(row, r, p, n) + (if c < n then Ind(p(r, c, x)) else 0)
  {
    if n > 0 {
      CountInRowUpdate(row, r, p, c, x, n - 1);
    }
  }

  lemma {:induction false} CountInRowsUpdate(b: Board, r: int, c: int, x: Cell, p: CellTest, n: nat)
    requires InBounds(b, r, c) && n <= |b|
    ensures CountInRows(SetCell(b, r, c, x), p, n) + (if r < n then Ind(p(r, c, b[r][c])) else 0)
         == CountInRows(b, p, n) + (if r < n then Ind(p(r, c, x)) else 0)
  {
    if n > 0 {
      CountInRowsUpdate(b, r, c, x, p, n - 1);
      if n - 1 == r {
        CountInRowUpdate(b[r], r, p, c, x, |b[r]|);
      } else {
        assert SetCell(b, r, c, x)[n - 1] == b[n - 1];
      }
    }
  }

  /** Replacing one cell changes a count by at most the two cells' contributions. */
  lemma CountUpdate(b: Board, r: int, c: int, x: Cell, p: CellTest)
    requires InBounds(b, r, c)
    ensures Count(SetCell(b, r, c, x), p) + Ind(p(r, c, b[r][c])) == Count(b, p) + Ind(p(r, c, x))
  {
    CountInRowsUpdate(b, r, c, x, p, |b|);
  }

  lemma {:induction false} CountInRowZero(row: seq<Cell>, r: int, p: CellTest, n: nat)
    requires n <= |row|
    ensures CountInRow(row, r, p, n) == 0 <==> forall c :: 0 <= c < n ==> !p(r, c, row[c])
  {
    if n > 0 {
      CountInRowZero(row, r, p, n - 1);
    }
  }

  lemma {:induction false} CountInRowsZero(b: Board, p: CellTest, n: nat)
    requires n <= |b|
    ensures CountInRows(b, p, n) == 0 <==> forall r, c :: r < n && InBounds(b, r, c) ==> !p(r, c, b[r][c])
  {
    if n > 0 {
      CountInRowsZero(b, p, n - 1);
      CountInRowZero(b[n - 1], n - 1, p, |b[n - 1]|);
    }
  }

  /** A count is zero exactly when no cell passes the test. */
  lemma CountZero(b: Board, p: CellTest)
    ensures Count(b, p) == 0 <==> forall r, c :: InBounds(b, r, c) ==> !p(r, c, b[r][c])
  {
    CountInRowsZero(b, p, |b|);
  }

  lemma {:induction false} CountInRowSum(row: seq<Cell>, r: int, p: CellTest, q: CellTest, s: CellTest, n: nat)
    requires n <= |row|
    requires forall c :: 0 <= c < n ==> Ind(p(r, c, row[c])) + Ind(q(r, c, row[c])) == Ind(s(r, c, row[c]))
    ensures CountInRow(row, r, p, n) + CountInRow(row, r, q, n) == CountInRow(row, r, s, n)
  {
    if n > 0 {
      CountInRowSum(row, r, p, q, s, n - 1);
    }
  }

  lemma {:induction false} CountInRowsSum(b: Board, p: CellTest, q: CellTest, s: CellTest, n: nat)
    requires n <= |b|
    requires forall r, c :: InBounds(b, r, c) ==> Ind(p(r, c, b[r][c])) + Ind(q(r, c, b[r][c])) == Ind(s(r, c, b[r][c]))
    ensures CountInRows(b, p, n) + CountInRows(b, q, n) == CountInRows(b, s, n)
  {
    if n > 0 {
      CountInRowsSum(b, p, q, s, n - 1);
      CountInRowSum(b[n - 1], n - 1, p, q, s, |b[n - 1]|);
    }
  }

  /** When s holds of a cell exactly when one of the disjoint tests p, q does, the counts add up. */
  lemma CountSum(b: Board, p: CellTest, q: CellTest, s: CellTest)
    requires forall r, c :: InBounds(b, r, c) ==> Ind(p(r, c, b[r][c])) + Ind(q(r, c, b[r][c])) == Ind(s(r, c, b[r][c]))
    ensures Count(b, p) + Count(b, q) == Count(b, s)
  {
    CountInRowsSum(b, p, q, s, |b|);
  }

  lemma {:induction false} CountInRowAll(row: seq<Cell>, r: int, n: nat)
    requires n <= |row|
    ensures CountInRow(row, r, AnyCell, n) == n
  {
    if n > 0 {
      CountInRowAll(row, r, n - 1);
    }
  }

  lemma {:induction false} CountInRowsAll(b: Board, rows: nat, cols: nat, n: nat)
    requires HasShape(b, rows, cols) && n <= rows
    ensures CountInRows(b, AnyCell, n) == n * cols
  {
    if n > 0 {
      CountInRowsAll(b, rows, cols, n - 1);
      CountInRowAll(b[n - 1], n - 1, cols);
      assert n * cols == (n - 1) * cols + cols;
    }
  }

  /** A rows-by-cols board has rows * cols cells. */
  lemma CountAll(b: Board, rows: nat, cols: nat)
    requires HasShape(b, rows, cols)
    ensures Count(b, AnyCell) == rows * cols
  {
    CountInRowsAll(b, rows, cols, rows);
  }
}
