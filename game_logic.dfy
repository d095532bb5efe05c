/** The board logic: difficulty table, empty board, mine placement with
    first-click safety, adjacency counting, the flood-fill reveal and the win test.
    Every operation of the source copies the board and updates the copy, so each
    is modelled on board values: the methods update a local copy in their loops. */
module GameLogic {
  import opened Types
  import opened Grid

  // ---------------------------------------------------------------------------
  // Difficulty table

  /** The fixed difficulty table. Each configuration leaves at least nine cells
      free of mines, so the placement loop always finds room outside the 3x3
      block around any first click. */
  function ConfigFor(d: Difficulty): (cfg: DifficultyConfig)
    ensures cfg.rows > 0 && cfg.cols > 0
    ensures cfg.mines + 9 <= cfg.rows * cfg.cols
  {
    match d
    case Easy => DifficultyConfig(8, 8, 10)
    case Medium => DifficultyConfig(12, 12, 25)
    case Hard => DifficultyConfig(16, 16, 50)
  }

  // ---------------------------------------------------------------------------
  // Empty board

  const EmptyCell := Cell(false, false, false, 0)

  /** A rows-by-cols board of hidden, unflagged, mine-free cells with count 0. */
  function CreateEmptyBoard(rows: nat, cols: nat): (b: Board)
    ensures HasShape(b, rows, cols)
    ensures forall r, c :: InBounds(b, r, c) ==> b[r][c] == EmptyCell
  {
    seq(rows, _ => seq(cols, _ => EmptyCell))
  }

  /** The empty board has no mine, no flag, every cell hidden, and its counts are already right. */
  lemma EmptyBoardFacts(rows: nat, cols: nat)
    ensures var b := CreateEmptyBoard(rows, cols);
      Count(b, MineCell) == 0 && Count(b, FlaggedCell) == 0 && Count(b, RevealedSafeCell) == 0
      && Count(b, HiddenCell) == rows * cols && AdjacencyCorrect(b)
  {
    var b := CreateEmptyBoard(rows, cols);
    CountZero(b, MineCell);
    CountZero(b, FlaggedCell);
    CountZero(b, RevealedSafeCell);
    CountAll(b, rows, cols);
    assert forall r, c :: InBounds(b, r, c) ==> AnyCell(r, c, b[r][c]) == HiddenCell(r, c, b[r][c]);
    CountSameTests(b, AnyCell, HiddenCell);
    forall r, c | InBounds(b, r, c)
      ensures b[r][c].adjacentMines == NeighbourMines(b, r, c)
    {
      NoMineNeighbours(b, r, c);
    }
  }

  /** Two tests that agree on every cell of b count the same. */
  lemma CountSameTests(b: Board, p: CellTest, q: CellTest)
    requires forall r, c :: InBounds(b, r, c) ==> p(r, c, b[r][c]) == q(r, c, b[r][c])
    ensures Count(b, p) == Count(b, q)
  {
    CountMono(b, b, p, q);
    CountMono(b, b, q, p);
  }

  // ---------------------------------------------------------------------------
  // Adjacency counts

  /** 1 when (r, c) is on the board and holds a mine; off-board positions hold none. */
  function MineBit(b: Board, r: int, c: int): nat {
    if InBounds(b, r, c) && b[r][c].isMine then 1 else 0
  }

  /** The number of mines among the up-to-eight neighbours of (r, c), recounted directly. */
  function NeighbourMines(b: Board, r: int, c: int): (n: nat)
    ensures n <= 8
  {
    MineBit(b, r - 1, c - 1) + MineBit(b, r - 1, c) + MineBit(b, r - 1, c + 1)
    + MineBit(b, r, c - 1) + MineBit(b, r, c + 1)
    + MineBit(b, r + 1, c - 1) + MineBit(b, r + 1, c) + MineBit(b, r + 1, c + 1)
  }

  /** Every non-mine cell carries the number of its neighbouring mines. */
  ghost predicate AdjacencyCorrect(b: Board) {
    forall r, c {:trigger NeighbourMines(b, r, c)} ::
      InBounds(b, r, c) && !b[r][c].isMine ==> b[r][c].adjacentMines == NeighbourMines(b, r, c)
  }

  /** A cell's neighbour count is zero exactly when none of its on-board neighbours is a mine. */
  lemma NoMineNeighbours(b: Board, r: int, c: int)
    ensures NeighbourMines(b, r, c) == 0 <==>
      forall r2, c2 :: Adjacent(r, c, r2, c2) && InBounds(b, r2, c2) ==> !b[r2][c2].isMine
  {
  }

  /** Two boards of one shape with the same mines have the same neighbour counts everywhere. */
  lemma SameMinesSameCounts(b: Board, b': Board)
    requires SameShape(b, b')
    requires forall r, c :: InBounds(b, r, c) ==> b'[r][c].isMine == b[r][c].isMine
    ensures forall r, c :: NeighbourMines(b', r, c) == NeighbourMines(b, r, c)
  {
    assert forall r, c :: MineBit(b', r, c) == MineBit(b, r, c);
  }

  /** The mines the source's inner loop has counted at column offsets -1 .. j-1 of row r. */
  function RowTally(b: Board, r: int, c: int, j: int): nat {
    (if j > -1 then MineBit(b, r, c - 1) else 0)
    + (if j > 0 then MineBit(b, r, c) else 0)
    + (if j > 1 then MineBit(b, r, c + 1) else 0)
  }

  /** The mines the source's loops have counted at row offsets -1 .. i-1 around (r, c). */
  function BlockTally(b: Board, r: int, c: int, i: int): nat {
    (if i > -1 then RowTally(b, r - 1, c, 2) else 0)
    + (if i > 0 then RowTally(b, r, c, 2) else 0)
    + (if i > 1 then RowTally(b, r + 1, c, 2) else 0)
  }

  /** The cell at (r, c) after the adjacency pass: a non-mine gets its neighbour count. */
  function Recounted(b: Board, r: int, c: int): Cell
    requires InBounds(b, r, c)
  {
    if b[r][c].isMine then b[r][c] else b[r][c].(adjacentMines := NeighbourMines(b, r, c))
  }

  /** Writes into every non-mine cell the number of mines among its neighbours.
      The loops visit all nine offsets; the cell's own offset adds nothing because
      the cell is not a mine. */
  method CalculateAdjacentMines(board: Board) returns (newBoard: Board)
    requires IsBoard(board)
    ensures SameShape(board, newBoard)
    ensures forall r, c :: InBounds(board, r, c) ==> newBoard[r][c] == Recounted(board, r, c)
    ensures AdjacencyCorrect(newBoard)
  {
    var rows := |board|;
    var cols := |board[0]|;
    newBoard := board;
    for row := 0 to rows
      invariant SameShape(board, newBoard)
      invariant forall r, c :: InBounds(board, r, c) ==>
        newBoard[r][c] == if r < row then Recounted(board, r, c) else board[r][c]
    {
      for col := 0 to cols
        invariant SameShape(board, newBoard)
        invariant forall r, c :: InBounds(board, r, c) ==>
          newBoard[r][c] == if r < row || (r == row && c < col) then Recounted(board, r, c) else board[r][c]
      {
        if !newBoard[row][col].isMine {
          var count: nat := 0;
          for i := -1 to 2
            invariant count == BlockTally(board, row, col, i)
          {
            for j := -1 to 2
              invariant count == BlockTally(board, row, col, i) + RowTally(board, row + i, col, j)
            {
              var newRow := row + i;
              var newCol := col + j;
              if newRow >= 0 && newRow < rows && newCol >= 0 && newCol < cols && newBoard[newRow][newCol].isMine {
                count := count + 1;
              }
            }
          }
          newBoard := SetCell(newBoard, row, col, newBoard[row][col].(adjacentMines := count));
        }
      }
    }
    SameMinesSameCounts(board, newBoard);
  }

  // ---------------------------------------------------------------------------
  // Mine placement

  function Abs(x: int): nat {
    if x < 0 then -x else x
  }

  /** (r, c) is the first-clicked cell or one of its neighbours. */
  predicate NearFirstClick(fr: int, fc: int, r: int, c: int) {
    Abs(r - fr) <= 1 && Abs(c - fc) <= 1
  }

  /** A cell the placement loop accepts: not already a mine, not the first click, not next to it. */
  predicate Eligible(fr: int, fc: int, r: int, c: int, x: Cell) {
    !x.isMine && !(r == fr && c == fc) && !NearFirstClick(fr, fc, r, c)
  }

  function EligibleFor(fr: int, fc: int): CellTest {
    (r: int, c: int, x: Cell) => Eligible(fr, fc, r, c, x)
  }

  /** What placing totalMines mines around a first click at (fr, fc) does to board. */
  ghost predicate MinesPlaced(board: Board, newBoard: Board, totalMines: nat, fr: int, fc: int) {
    SameShape(board, newBoard)
    && Count(newBoard, MineCell) == Count(board, MineCell) + totalMines
    && (forall r, c :: InBounds(board, r, c) ==>
          newBoard[r][c].isRevealed == board[r][c].isRevealed
          && newBoard[r][c].isFlagged == board[r][c].isFlagged
          && (board[r][c].isMine ==> newBoard[r][c].isMine)
          && (newBoard[r][c].isMine && !board[r][c].isMine ==> !NearFirstClick(fr, fc, r, c))
          && (newBoard[r][c].isMine ==> newBoard[r][c].adjacentMines == board[r][c].adjacentMines))
    && AdjacencyCorrect(newBoard)
  }

  /** Places totalMines new mines, none on or next to the first click, then recomputes
      the counts. The random samples are a nondeterministic choice among the cells
      the loop would accept; a rejected sample leaves the board as it was. The loop
      ends only if there are enough acceptable cells, which the caller guarantees. */
  method PlaceMines(board: Board, totalMines: nat, firstClickRow: int, firstClickCol: int)
    returns (newBoard: Board)
    requires IsBoard(board)
    requires totalMines <= Count(board, EligibleFor(firstClickRow, firstClickCol))
    ensures MinesPlaced(board, newBoard, totalMines, firstClickRow, firstClickCol)
  {
    var eligible := EligibleFor(firstClickRow, firstClickCol);
    newBoard := board;
    var minesPlaced := 0;
    while minesPlaced < totalMines
      invariant minesPlaced <= totalMines
      invariant SameShape(board, newBoard)
      invariant Count(newBoard, MineCell) == Count(board, MineCell) + minesPlaced
      invariant Count(newBoard, eligible) + minesPlaced == Count(board, eligible)
      invariant forall r, c :: InBounds(board, r, c) ==>
        newBoard[r][c] == board[r][c]
        || (newBoard[r][c] == board[r][c].(isMine := true) && Eligible(firstClickRow, firstClickCol, r, c, board[r][c]))
      decreases totalMines - minesPlaced
    {
      CountZero(newBoard, eligible);
      var row, col :| InBounds(newBoard, row, col) && Eligible(firstClickRow, firstClickCol, row, col, newBoard[row][col]);
      var mined := newBoard[row][col].(isMine := true);
      CountUpdate(newBoard, row, col, mined, MineCell);
      CountUpdate(newBoard, row, col, mined, eligible);
      newBoard := SetCell(newBoard, row, col, mined);
      minesPlaced := minesPlaced + 1;
    }
    SameShapeIsBoard(board, newBoard);
    var placed := newBoard;
    newBoard := CalculateAdjacentMines(placed);
    CountSame(placed, newBoard, MineCell);
  }

  /** First-click safety: on a board without mines, no mine lands on or next to the first click. */
  lemma FirstClickSafe(board: Board, newBoard: Board, totalMines: nat, fr: int, fc: int)
    requires MinesPlaced(board, newBoard, totalMines, fr, fc)
    requires Count(board, MineCell) == 0
    ensures forall r, c :: InBounds(newBoard, r, c) && NearFirstClick(fr, fc, r, c) ==> !newBoard[r][c].isMine
  {
    CountZero(board, MineCell);
  }

  /** The number of positions among 0 .. n-1 within distance 1 of x. */
  function ZoneWidth(x: int, n: nat): (w: nat)
    ensures w <= 3
  {
    var lo := if x - 1 < 0 then 0 else x - 1;
    var hi := if x + 2 > n then n else x + 2;
    if hi <= lo then 0 else hi - lo
  }

  lemma {:induction false} EligibleInRow(row: seq<Cell>, r: int, fr: int, fc: int, n: nat)
    requires n <= |row|
    requires forall c :: 0 <= c < |row| ==> !row[c].isMine
    ensures CountInRow(row, r, EligibleFor(fr, fc), n) + (if Abs(r - fr) <= 1 then ZoneWidth(fc, n) else 0) >= n
  {
    if n > 0 {
      EligibleInRow(row, r, fr, fc, n - 1);
    }
  }

  lemma {:induction false} EligibleInRows(b: Board, rows: nat, cols: nat, fr: int, fc: int, n: nat)
    requires HasShape(b, rows, cols) && n <= rows
    requires forall r, c :: InBounds(b, r, c) ==> !b[r][c].isMine
    ensures CountInRows(b, EligibleFor(fr, fc), n) + 3 * ZoneWidth(fr, n) >= n * cols
  {
    if n > 0 {
      EligibleInRows(b, rows, cols, fr, fc, n - 1);
      EligibleInRow(b[n - 1], n - 1, fr, fc, cols);
      assert n * cols == (n - 1) * cols + cols;
    }
  }

  /** A mine-free board loses at most the nine cells of the first click's block to the
      safety rule, so the placement loop has rows * cols - 9 cells to choose from. */
  lemma EligibleOnMineFreeBoard(b: Board, rows: nat, cols: nat, fr: int, fc: int)
    requires HasShape(b, rows, cols)
    requires forall r, c :: InBounds(b, r, c) ==> !b[r][c].isMine
    ensures Count(b, EligibleFor(fr, fc)) + 9 >= rows * cols
  {
    EligibleInRows(b, rows, cols, fr, fc, rows);
  }

  /** For every difficulty and every first click, the empty board has room for all the mines. */
  lemma ConfigLeavesRoom(d: Difficulty, fr: int, fc: int)
    ensures var cfg := ConfigFor(d);
      cfg.mines <= Count(CreateEmptyBoard(cfg.rows, cfg.cols), EligibleFor(fr, fc))
  {
    var cfg := ConfigFor(d);
    EligibleOnMineFreeBoard(CreateEmptyBoard(cfg.rows, cfg.cols), cfg.rows, cfg.cols, fr, fc);
  }

  // ---------------------------------------------------------------------------
  // Reveal with flood fill

  /** The reveal at (r, c) does something: the cell is on the board, hidden and not flagged. */
  ghost predicate Revealable(b: Board, r: int, c: int) {
    InBounds(b, r, c) && !b[r][c].isRevealed && !b[r][c].isFlagged
  }

  predicate RevealedAt(b: Board, r: int, c: int) {
    InBounds(b, r, c) && b[r][c].isRevealed
  }

  /** A non-mine cell with no neighbouring mine: revealing it cascades. */
  predicate BlankAt(b: Board, r: int, c: int) {
    InBounds(b, r, c) && !b[r][c].isMine && b[r][c].adjacentMines == 0
  }

  /** (r, c) was hidden in b and is revealed in b'. */
  ghost predicate Newly(b: Board, b': Board, r: int, c: int) {
    InBounds(b, r, c) && !b[r][c].isRevealed && RevealedAt(b', r, c)
  }

  /** b' is b with some hidden, unflagged cells turned revealed and nothing else changed. */
  ghost predicate OnlyReveals(b: Board, b': Board) {
    SameShape(b, b')
    && forall r, c :: InBounds(b, r, c) ==>
         b'[r][c] == b[r][c] || (b'[r][c] == b[r][c].(isRevealed := true) && !b[r][c].isFlagged)
  }

  /** Every on-board, unflagged neighbour of (r, c) is revealed in b'. */
  ghost predicate NeighboursRevealed(b: Board, b': Board, r: int, c: int) {
    forall r2, c2 :: Adjacent(r, c, r2, c2) && InBounds(b, r2, c2) && !b[r2][c2].isFlagged ==> RevealedAt(b', r2, c2)
  }

  /** The cascade went as far as it should: every blank cell the reveal uncovered has its
      unflagged neighbours uncovered too. */
  ghost predicate CascadeClosed(b: Board, b': Board) {
    forall r, c :: Newly(b, b', r, c) && BlankAt(b, r, c) ==> NeighboursRevealed(b, b', r, c)
  }

  /** trail lists the cells uncovered between b and b' in the order they were uncovered:
      the first is the target and every later one neighbours an earlier blank one. */
  ghost predicate Traced(b: Board, b': Board, trail: seq<(int, int)>, row: int, col: int) {
    (forall r, c :: Newly(b, b', r, c) <==> (r, c) in trail)
    && (|trail| > 0 ==> trail[0] == (row, col))
    && forall k :: 0 < k < |trail| ==> Reached(b, trail, k)
  }

  /** The k-th entry of trail neighbours an earlier entry that is blank on b. */
  ghost predicate Reached(b: Board, trail: seq<(int, int)>, k: int)
    requires 0 <= k < |trail|
  {
    exists k' :: 0 <= k' < k && Adjacent(trail[k'].0, trail[k'].1, trail[k].0, trail[k].1)
                             && BlankAt(b, trail[k'].0, trail[k'].1)
  }

  /** What revealing (row, col) on b does: a no-op when the target is off the board,
      revealed or flagged; otherwise the target is uncovered, only hidden unflagged
      cells change and only in isRevealed, the cascade is closed, and each uncovered
      cell is reached from the target through blank uncovered cells. */
  ghost predicate RevealOutcome(b: Board, b': Board, trail: seq<(int, int)>, row: int, col: int) {
    OnlyReveals(b, b')
    && (!Revealable(b, row, col) ==> b' == b && trail == [])
    && (Revealable(b, row, col) ==> RevealedAt(b', row, col))
    && CascadeClosed(b, b')
    && Traced(b, b', trail, row, col)
  }

  /** The state of a cascade from (row, col) part-way through its neighbours. */
  ghost predicate Cascading(b: Board, b': Board, trail: seq<(int, int)>, row: int, col: int) {
    OnlyReveals(b, b')
    && Newly(b, b', row, col)
    && (forall r, c :: Newly(b, b', r, c) && BlankAt(b, r, c) && (r != row || c != col) ==> NeighboursRevealed(b, b', r, c))
    && Traced(b, b', trail, row, col)
    && |trail| > 0
  }

  lemma OnlyRevealsTrans(b0: Board, b1: Board, b2: Board)
    requires OnlyReveals(b0, b1) && OnlyReveals(b1, b2)
    ensures OnlyReveals(b0, b2)
    ensures forall r, c :: Newly(b0, b2, r, c) <==> Newly(b0, b1, r, c) || Newly(b1, b2, r, c)
    ensures forall r, c :: RevealedAt(b1, r, c) ==> RevealedAt(b2, r, c)
    ensures forall r, c :: BlankAt(b1, r, c) == BlankAt(b0, r, c)
    ensures forall r, c :: InBounds(b0, r, c) ==> b1[r][c].isFlagged == b0[r][c].isFlagged
  {
  }

  /** The position of the offset (r2 - row, c2 - col) in the order the source's two loops visit the nine offsets. */
  function OffsetIndex(row: int, col: int, r2: int, c2: int): int {
    3 * (r2 - row + 1) + (c2 - col + 1)
  }

  /** Every on-board, unflagged neighbour of (row, col) at an offset the loops visited before
      the k-th is revealed in b'. */
  ghost predicate DoneBefore(b: Board, b': Board, row: int, col: int, k: int) {
    forall r2, c2 ::
      Adjacent(row, col, r2, c2) && OffsetIndex(row, col, r2, c2) < k && InBounds(b, r2, c2) && !b[r2][c2].isFlagged
      ==> RevealedAt(b', r2, c2)
  }

  /** One step of the cascade keeps every uncovered blank cell other than the target closed. */
  lemma CascadeStepClosed(b0: Board, b1: Board, b2: Board, t1: seq<(int, int)>, t2: seq<(int, int)>,
                          row: int, col: int, nr: int, nc: int)
    requires Cascading(b0, b1, t1, row, col) && RevealOutcome(b1, b2, t2, nr, nc)
    ensures forall r, c :: Newly(b0, b2, r, c) && BlankAt(b0, r, c) && (r != row || c != col) ==> NeighboursRevealed(b0, b2, r, c)
  {
  }

  /** One step of the cascade extends the trail by the neighbour's own trail. */
  lemma CascadeStepTraced(b0: Board, b1: Board, b2: Board, t1: seq<(int, int)>, t2: seq<(int, int)>,
                          row: int, col: int, nr: int, nc: int)
    requires Cascading(b0, b1, t1, row, col) && BlankAt(b0, row, col) && Adjacent(row, col, nr, nc)
    requires RevealOutcome(b1, b2, t2, nr, nc)
    ensures Traced(b0, b2, t1 + t2, row, col)
  {
    OnlyRevealsTrans(b0, b1, b2);
    var t := t1 + t2;
    forall k | 0 < k < |t|
      ensures Reached(b0, t, k)
    {
      if k < |t1| {
        assert Reached(b0, t1, k);
        var k' :| 0 <= k' < k && Adjacent(t1[k'].0, t1[k'].1, t1[k].0, t1[k].1) && BlankAt(b0, t1[k'].0, t1[k'].1);
        assert t[k'] == t1[k'] && t[k] == t1[k];
      } else if k == |t1| {
        assert t[k] == t2[0] == (nr, nc) && t[0] == t1[0] == (row, col);
        assert Adjacent(t[0].0, t[0].1, t[k].0, t[k].1) && BlankAt(b0, t[0].0, t[0].1);
      } else {
        var m := k - |t1|;
        assert Reached(b1, t2, m);
        var m' :| 0 <= m' < m && Adjacent(t2[m'].0, t2[m'].1, t2[m].0, t2[m].1) && BlankAt(b1, t2[m'].0, t2[m'].1);
        assert t[|t1| + m'] == t2[m'] && t[k] == t2[m];
      }
    }
    forall r, c
      ensures Newly(b0, b2, r, c) <==> (r, c) in t
    {
      assert (r, c) in t <==> (r, c) in t1 || (r, c) in t2;
    }
  }

  /** One step of the cascade adds the neighbour (nr, nc) to the neighbours already done. */
  lemma CascadeStepDone(b0: Board, b1: Board, b2: Board, t2: seq<(int, int)>, row: int, col: int, nr: int, nc: int)
    requires OnlyReveals(b0, b1) && Adjacent(row, col, nr, nc)
    requires RevealOutcome(b1, b2, t2, nr, nc)
    requires DoneBefore(b0, b1, row, col, OffsetIndex(row, col, nr, nc))
    ensures DoneBefore(b0, b2, row, col, OffsetIndex(row, col, nr, nc) + 1)
  {
  }

  /** One step of the cascade: the recursive reveal of the neighbour (nr, nc) keeps the
      cascade's state and uncovers that neighbour if it can be uncovered. */
  lemma CascadeStep(b0: Board, b1: Board, b2: Board, t1: seq<(int, int)>, t2: seq<(int, int)>,
                    row: int, col: int, nr: int, nc: int)
    requires Cascading(b0, b1, t1, row, col) && BlankAt(b0, row, col) && Adjacent(row, col, nr, nc)
    requires RevealOutcome(b1, b2, t2, nr, nc)
    requires DoneBefore(b0, b1, row, col, OffsetIndex(row, col, nr, nc))
    ensures Cascading(b0, b2, t1 + t2, row, col)
    ensures DoneBefore(b0, b2, row, col, OffsetIndex(row, col, nr, nc) + 1)
  {
    OnlyRevealsTrans(b0, b1, b2);
    CascadeStepClosed(b0, b1, b2, t1, t2, row, col, nr, nc);
    CascadeStepTraced(b0, b1, b2, t1, t2, row, col, nr, nc);
    CascadeStepDone(b0, b1, b2, t2, row, col, nr, nc);
  }

  /** Uncovering a hidden, unflagged target starts a cascade whose only uncovered cell is the target. */
  lemma CascadeStart(b: Board, row: int, col: int)
    requires Revealable(b, row, col)
    ensures var b' := SetCell(b, row, col, b[row][col].(isRevealed := true));
      Cascading(b, b', [(row, col)], row, col)
      && (!BlankAt(b, row, col) ==> RevealOutcome(b, b', [(row, col)], row, col))
  {
  }

  /** A cascade from a blank target whose neighbours have all been visited is complete. */
  lemma CascadeFinish(b: Board, b': Board, trail: seq<(int, int)>, row: int, col: int)
    requires Cascading(b, b', trail, row, col) && Revealable(b, row, col)
    requires DoneBefore(b, b', row, col, 9)
    ensures RevealOutcome(b, b', trail, row, col)
  {
  }

  /** Reveals (row, col). If the cell is a non-mine with no neighbouring mine, reveals
      its eight neighbours recursively; positions off the board, revealed cells and
      flagged cells are left alone. Each recursive call sees strictly fewer hidden
      cells, which is why the recursion ends. */
  method RevealCell(board: Board, row: int, col: int) returns (newBoard: Board, ghost trail: seq<(int, int)>)
    requires IsBoard(board)
    ensures RevealOutcome(board, newBoard, trail, row, col)
    ensures Count(newBoard, HiddenCell) + Ind(Revealable(board, row, col)) <= Count(board, HiddenCell)
    decreases Count(board, HiddenCell), 1
  {
    var rows := |board|;
    var cols := |board[0]|;
    newBoard := board;
    trail := [];
    if row < 0 || row >= rows || col < 0 || col >= cols || newBoard[row][col].isRevealed || newBoard[row][col].isFlagged {
      return;
    }
    var uncovered := newBoard[row][col].(isRevealed := true);
    CountUpdate(newBoard, row, col, uncovered, HiddenCell);
    CascadeStart(board, row, col);
    newBoard := SetCell(newBoard, row, col, uncovered);
    trail := [(row, col)];
    if newBoard[row][col].adjacentMines == 0 && !newBoard[row][col].isMine {
      assert BlankAt(board, row, col);
      newBoard, trail := RevealNeighbours(board, newBoard, trail, row, col);
    }
  }

  /** The outer loop of the reveal, over the row offsets -1 .. 1 around a blank target
      (row, col) that has just been uncovered on b1. */
  method RevealNeighbours(board: Board, b1: Board, ghost t1: seq<(int, int)>, row: int, col: int)
    returns (newBoard: Board, ghost trail: seq<(int, int)>)
    requires IsBoard(board) && Revealable(board, row, col) && BlankAt(board, row, col)
    requires Cascading(board, b1, t1, row, col)
    requires Count(b1, HiddenCell) < Count(board, HiddenCell)
    ensures RevealOutcome(board, newBoard, trail, row, col)
    ensures Count(newBoard, HiddenCell) <= Count(b1, HiddenCell)
    decreases Count(b1, HiddenCell), 3
  {
    newBoard := b1;
    trail := t1;
    for i := -1 to 2
      invariant Cascading(board, newBoard, trail, row, col)
      invariant Count(newBoard, HiddenCell) <= Count(b1, HiddenCell)
      invariant DoneBefore(board, newBoard, row, col, OffsetIndex(row, col, row + i, col - 1))
    {
      newBoard, trail := RevealNeighbourRow(board, newBoard, trail, row, col, i);
    }
    CascadeFinish(board, newBoard, trail, row, col);
  }

  /** The inner loop of the reveal: the column offsets -1 .. 1 in row offset i around the
      blank target (row, col), revealing each neighbour in turn. */
  method RevealNeighbourRow(board: Board, b1: Board, ghost t1: seq<(int, int)>, row: int, col: int, i: int)
    returns (newBoard: Board, ghost trail: seq<(int, int)>)
    requires IsBoard(board) && BlankAt(board, row, col) && -1 <= i <= 1
    requires Cascading(board, b1, t1, row, col)
    requires DoneBefore(board, b1, row, col, OffsetIndex(row, col, row + i, col - 1))
    ensures Cascading(board, newBoard, trail, row, col)
    ensures DoneBefore(board, newBoard, row, col, OffsetIndex(row, col, row + i + 1, col - 1))
    ensures Count(newBoard, HiddenCell) <= Count(b1, HiddenCell)
    decreases Count(b1, HiddenCell), 2
  {
    newBoard := b1;
    trail := t1;
    for j := -1 to 2
      invariant Cascading(board, newBoard, trail, row, col)
      invariant Count(newBoard, HiddenCell) <= Count(b1, HiddenCell)
      invariant DoneBefore(board, newBoard, row, col, OffsetIndex(row, col, row + i, col + j))
    {
      if i != 0 || j != 0 {
        SameShapeIsBoard(board, newBoard);
        var result, sub := RevealCell(newBoard, row + i, col + j);
        CascadeStep(board, newBoard, result, trail, sub, row, col, row + i, col + j);
        newBoard := result;
        trail := trail + sub;
      }
    }
  }

  /** Revealing a cell that is already revealed (or cannot be revealed) changes nothing,
      so a second reveal of the same cell is a no-op. */
  lemma RevealIdempotent(b: Board, b1: Board, t1: seq<(int, int)>, b2: Board, t2: seq<(int, int)>, row: int, col: int)
    requires RevealOutcome(b, b1, t1, row, col) && RevealOutcome(b1, b2, t2, row, col)
    ensures b2 == b1 && t2 == []
  {
  }

  /** With correct adjacency counts, a reveal uncovers no mine except possibly its target:
      the cascade only spreads from cells that have no neighbouring mine. */
  lemma CascadeRevealsNoMine(b: Board, b': Board, trail: seq<(int, int)>, row: int, col: int)
    requires AdjacencyCorrect(b) && RevealOutcome(b, b', trail, row, col)
    ensures forall r, c :: Newly(b, b', r, c) && (r != row || c != col) ==> !b[r][c].isMine
  {
    forall r, c | Newly(b, b', r, c) && (r != row || c != col)
      ensures !b[r][c].isMine
    {
      assert (r, c) in trail;
      var k :| 0 <= k < |trail| && trail[k] == (r, c);
      assert k != 0 && Reached(b, trail, k);
      var k' :| 0 <= k' < k && Adjacent(trail[k'].0, trail[k'].1, r, c) && BlankAt(b, trail[k'].0, trail[k'].1);
      NoMineNeighbours(b, trail[k'].0, trail[k'].1);
    }
  }

  /** A reveal keeps the mines, the flags and the adjacency counts, so it keeps their counts
      and their correctness, and it never increases the number of hidden cells. */
  lemma RevealKeepsBoardFacts(b: Board, b': Board)
    requires OnlyReveals(b, b')
    ensures Count(b', MineCell) == Count(b, MineCell)
    ensures Count(b', FlaggedCell) == Count(b, FlaggedCell)
    ensures Count(b', HiddenCell) <= Count(b, HiddenCell)
    ensures AdjacencyCorrect(b) ==> AdjacencyCorrect(b')
  {
    CountSame(b, b', MineCell);
    CountSame(b, b', FlaggedCell);
    CountMono(b, b', HiddenCell, HiddenCell);
    SameMinesSameCounts(b, b');
  }

  // ---------------------------------------------------------------------------
  // Win test

  /** The source's win rule: the revealed non-mine cells number all cells less the mines. */
  ghost predicate WinCondition(b: Board, totalMines: int) {
    Count(b, RevealedSafeCell) == Count(b, AnyCell) - totalMines
  }

  /** Counts the revealed non-mine cells and all cells, and compares. */
  method CheckWin(board: Board, totalMines: int) returns (won: bool)
    ensures won <==> WinCondition(board, totalMines)
  {
    var revealedCount := 0;
    var totalCells := 0;
    for r := 0 to |board|
      invariant revealedCount == CountInRows(board, RevealedSafeCell, r)
      invariant totalCells == CountInRows(board, AnyCell, r)
    {
      for c := 0 to |board[r]|
        invariant revealedCount == CountInRows(board, RevealedSafeCell, r) + CountInRow(board[r], r, RevealedSafeCell, c)
        invariant totalCells == CountInRows(board, AnyCell, r) + CountInRow(board[r], r, AnyCell, c)
      {
        totalCells := totalCells + 1;
        if board[r][c].isRevealed && !board[r][c].isMine {
          revealedCount := revealedCount + 1;
        }
      }
    }
    won := revealedCount == totalCells - totalMines;
  }

  /** When totalMines is the board's mine count, the win rule holds exactly when every
      non-mine cell is revealed. */
  lemma WinIffAllSafeRevealed(b: Board, totalMines: int)
    requires Count(b, MineCell) == totalMines
    ensures WinCondition(b, totalMines) <==> forall r, c :: InBounds(b, r, c) && !b[r][c].isMine ==> b[r][c].isRevealed
  {
    CountSum(b, RevealedSafeCell, HiddenSafeCell, SafeCell);
    CountSum(b, SafeCell, MineCell, AnyCell);
    CountZero(b, HiddenSafeCell);
  }

  /** Flags play no part in the win rule: boards that agree on mines and reveals agree on it. */
  lemma WinIgnoresFlags(b: Board, b': Board, totalMines: int)
    requires SameShape(b, b')
    requires forall r, c :: InBounds(b, r, c) ==> b'[r][c].isMine == b[r][c].isMine && b'[r][c].isRevealed == b[r][c].isRevealed
    ensures WinCondition(b', totalMines) <==> WinCondition(b, totalMines)
  {
    CountSame(b, b', RevealedSafeCell);
    CountSame(b, b', AnyCell);
  }
}
