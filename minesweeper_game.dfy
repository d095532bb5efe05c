/** The game session: the state the game component keeps (board, game-over and won
    flags, first-click flag, flag budget, elapsed time, timer switch) and the three
    handlers that change it, plus the two display helpers. */
module MinesweeperGame {
  import opened Types
  import opened Grid
  import opened GameLogic

  // ---------------------------------------------------------------------------
  // Board transformations done inline by the handlers

  /** The board shown after a loss: every cell revealed, nothing else changed. */
  function RevealAll(b: Board): (b': Board)
    ensures SameShape(b, b')
    ensures forall r, c :: InBounds(b, r, c) ==> b'[r][c] == b[r][c].(isRevealed := true)
  {
    seq(|b|, r requires 0 <= r < |b| => seq(|b[r]|, c requires 0 <= c < |b[r]| => b[r][c].(isRevealed := true)))
  }

  /** After a loss nothing is hidden, and mines, flags and counts are as they were. */
  lemma RevealAllFacts(b: Board)
    ensures Count(RevealAll(b), HiddenCell) == 0
    ensures Count(RevealAll(b), MineCell) == Count(b, MineCell)
    ensures Count(RevealAll(b), FlaggedCell) == Count(b, FlaggedCell)
    ensures AdjacencyCorrect(b) ==> AdjacencyCorrect(RevealAll(b))
  {
    var b' := RevealAll(b);
    CountZero(b', HiddenCell);
    CountSame(b, b', MineCell);
    CountSame(b, b', FlaggedCell);
    SameMinesSameCounts(b, b');
  }

  /** The board after a right click on (row, col): that cell's flag flipped, all else kept. */
  function ToggleFlag(b: Board, row: int, col: int): (b': Board)
    requires InBounds(b, row, col)
    ensures SameShape(b, b')
    ensures b'[row][col] == b[row][col].(isFlagged := !b[row][col].isFlagged)
    ensures forall r, c :: InBounds(b, r, c) && (r != row || c != col) ==> b'[r][c] == b[r][c]
  {
    SetCell(b, row, col, b[row][col].(isFlagged := !b[row][col].isFlagged))
  }

  /** Flagging twice gives back the board one started with. */
  lemma ToggleFlagTwice(b: Board, row: int, col: int)
    requires InBounds(b, row, col)
    ensures ToggleFlag(ToggleFlag(b, row, col), row, col) == b
  {
    var b2 := ToggleFlag(ToggleFlag(b, row, col), row, col);
    assert forall r :: 0 <= r < |b| ==> b2[r] == b[r];
  }

  /** A flip adds one flag to the board when it sets one and removes one when it clears one. */
  lemma ToggleFlagCount(b: Board, row: int, col: int)
    requires InBounds(b, row, col)
    ensures Count(ToggleFlag(b, row, col), FlaggedCell) == Count(b, FlaggedCell) + (if b[row][col].isFlagged then -1 else 1)
  {
    CountUpdate(b, row, col, b[row][col].(isFlagged := !b[row][col].isFlagged), FlaggedCell);
  }

  // ---------------------------------------------------------------------------
  // Session invariant

  /** What holds of the session state once a difficulty has been chosen. */
  ghost predicate SessionInvariant(cfg: DifficultyConfig, board: Board, gameOver: bool, gameWon: bool,
                                   firstClick: bool, flagsRemaining: int, isTimerRunning: bool) {
    HasShape(board, cfg.rows, cfg.cols)
    && flagsRemaining + Count(board, FlaggedCell) == cfg.mines
    && !(gameOver && gameWon)
    && (firstClick ==> board == CreateEmptyBoard(cfg.rows, cfg.cols) && !gameOver && !gameWon)
    && (!firstClick ==> Count(board, MineCell) == cfg.mines && AdjacencyCorrect(board))
    && (gameOver ==> Count(board, HiddenCell) == 0)
    && (!gameOver ==> forall r, c :: InBounds(board, r, c) && board[r][c].isRevealed ==>
                        !board[r][c].isMine && !board[r][c].isFlagged)
    && (gameWon ==> forall r, c :: InBounds(board, r, c) && !board[r][c].isMine ==> board[r][c].isRevealed)
    && (isTimerRunning ==> !firstClick && !gameOver && !gameWon)
  }

  /** A reveal on a board whose revealed cells are all safe and unflagged keeps them so,
      provided the target itself is not a mine. */
  lemma RevealKeepsRevealedSafe(b: Board, b': Board, trail: seq<(int, int)>, row: int, col: int)
    requires AdjacencyCorrect(b) && RevealOutcome(b, b', trail, row, col)
    requires forall r, c :: InBounds(b, r, c) && b[r][c].isRevealed ==> !b[r][c].isMine && !b[r][c].isFlagged
    requires InBounds(b, row, col) ==> !b[row][col].isMine
    ensures forall r, c :: InBounds(b', r, c) && b'[r][c].isRevealed ==> !b'[r][c].isMine && !b'[r][c].isFlagged
  {
    CascadeRevealsNoMine(b, b', trail, row, col);
  }

  /** The first click keeps the invariant: the mines go onto the empty board away from
      the click, the click is revealed, and the timer starts. */
  lemma FirstClickKeepsInvariant(cfg: DifficultyConfig, placed: Board, revealed: Board, trail: seq<(int, int)>,
                                 row: int, col: int, flagsRemaining: int)
    requires SessionInvariant(cfg, CreateEmptyBoard(cfg.rows, cfg.cols), false, false, true, flagsRemaining, false)
    requires InBounds(CreateEmptyBoard(cfg.rows, cfg.cols), row, col)
    requires MinesPlaced(CreateEmptyBoard(cfg.rows, cfg.cols), placed, cfg.mines, row, col)
    requires RevealOutcome(placed, revealed, trail, row, col)
    ensures SessionInvariant(cfg, revealed, false, false, false, flagsRemaining, true)
    ensures revealed[row][col].isRevealed
    ensures forall r, c :: InBounds(revealed, r, c) && NearFirstClick(row, col, r, c) ==> !revealed[r][c].isMine
  {
    var empty := CreateEmptyBoard(cfg.rows, cfg.cols);
    EmptyBoardFacts(cfg.rows, cfg.cols);
    FirstClickSafe(empty, placed, cfg.mines, row, col);
    CountSame(empty, placed, FlaggedCell);
    RevealKeepsBoardFacts(placed, revealed);
    assert NearFirstClick(row, col, row, col);
    assert Revealable(placed, row, col);
    RevealKeepsRevealedSafe(placed, revealed, trail, row, col);
  }

  /** A later click on a mine keeps the invariant: the game is lost with every cell shown. */
  lemma LossKeepsInvariant(cfg: DifficultyConfig, board: Board, flagsRemaining: int, isTimerRunning: bool)
    requires SessionInvariant(cfg, board, false, false, false, flagsRemaining, isTimerRunning)
    ensures SessionInvariant(cfg, RevealAll(board), true, false, false, flagsRemaining, false)
  {
    RevealAllFacts(board);
  }

  /** A later click on a safe cell keeps the invariant, and the game is won exactly when
      the win rule holds, which then means every safe cell is revealed. */
  lemma SafeClickKeepsInvariant(cfg: DifficultyConfig, board: Board, newBoard: Board, trail: seq<(int, int)>,
                                row: int, col: int, flagsRemaining: int, isTimerRunning: bool, won: bool)
    requires SessionInvariant(cfg, board, false, false, false, flagsRemaining, isTimerRunning)
    requires InBounds(board, row, col) && !board[row][col].isMine
    requires RevealOutcome(board, newBoard, trail, row, col)
    requires won == WinCondition(newBoard, cfg.mines)
    ensures SessionInvariant(cfg, newBoard, false, won, false, flagsRemaining, isTimerRunning && !won)
  {
    RevealKeepsBoardFacts(board, newBoard);
    RevealKeepsRevealedSafe(board, newBoard, trail, row, col);
    WinIffAllSafeRevealed(newBoard, cfg.mines);
  }

  /** A right click that is not ignored keeps the invariant. */
  lemma ToggleKeepsInvariant(cfg: DifficultyConfig, board: Board, row: int, col: int,
                             flagsRemaining: int, isTimerRunning: bool)
    requires SessionInvariant(cfg, board, false, false, false, flagsRemaining, isTimerRunning)
    requires InBounds(board, row, col) && !board[row][col].isRevealed
    ensures SessionInvariant(cfg, ToggleFlag(board, row, col), false, false, false,
                             flagsRemaining + (if board[row][col].isFlagged then 1 else -1), isTimerRunning)
  {
    var newBoard := ToggleFlag(board, row, col);
    ToggleFlagCount(board, row, col);
    SameMinesSameCounts(board, newBoard);
    CountSame(board, newBoard, MineCell);
  }

  /** The board work of the first left click on a session waiting for it: the mines go
      onto the empty board away from (row, col), then the clicked cell is revealed on the
      mined board (the deferred reveal, run at once). The session it leaves has its timer on. */
  method FirstClickBoard(cfg: DifficultyConfig, board: Board, flagsRemaining: int, row: int, col: int)
    returns (boardWithMines: Board, revealed: Board, ghost trail: seq<(int, int)>)
    requires cfg.rows > 0 && cfg.cols > 0 && cfg.mines + 9 <= cfg.rows * cfg.cols
    requires SessionInvariant(cfg, board, false, false, true, flagsRemaining, false)
    requires InBounds(board, row, col)
    ensures MinesPlaced(board, boardWithMines, cfg.mines, row, col)
    ensures RevealOutcome(boardWithMines, revealed, trail, row, col)
    ensures revealed[row][col].isRevealed
    ensures forall r, c :: InBounds(revealed, r, c) && NearFirstClick(row, col, r, c) ==> !revealed[r][c].isMine
    ensures SessionInvariant(cfg, revealed, false, false, false, flagsRemaining, true)
  {
    EligibleOnMineFreeBoard(board, cfg.rows, cfg.cols, row, col);
    boardWithMines := PlaceMines(board, cfg.mines, row, col);
    SameShapeIsBoard(board, boardWithMines);
    revealed, trail := RevealCell(boardWithMines, row, col);
    FirstClickKeepsInvariant(cfg, boardWithMines, revealed, trail, row, col, flagsRemaining);
  }

  // ---------------------------------------------------------------------------
  // The session

  /** The game component's state. `difficulty` is None until the player picks one;
      `board` is the empty sequence until then. */
  class Game {
    var difficulty: Option<Difficulty>
    var board: Board
    var gameOver: bool
    var gameWon: bool
    var firstClick: bool
    var flagsRemaining: int
    var time: nat
    var isTimerRunning: bool

    /** Once a difficulty is chosen, the state satisfies the session invariant for its configuration. */
    ghost predicate Valid()
      reads this
    {
      difficulty.Some? ==>
        SessionInvariant(ConfigFor(difficulty.value), board, gameOver, gameWon, firstClick, flagsRemaining, isTimerRunning)
    }

    /** The state before any difficulty is chosen. */
    constructor ()
      ensures Valid()
      ensures difficulty == None && board == [] && !gameOver && !gameWon && firstClick
      ensures flagsRemaining == 0 && time == 0 && !isTimerRunning
    {
      difficulty := None;
      board := [];
      gameOver := false;
      gameWon := false;
      firstClick := true;
      flagsRemaining := 0;
      time := 0;
      isTimerRunning := false;
    }

    /** Starts a game at difficulty d: an empty board of d's size, a full flag budget,
        the clock at zero and stopped, waiting for the first click. */
    method StartNewGame(d: Difficulty)
      modifies this
      ensures Valid()
      ensures difficulty == Some(d)
      ensures board == CreateEmptyBoard(ConfigFor(d).rows, ConfigFor(d).cols)
      ensures !gameOver && !gameWon && firstClick
      ensures flagsRemaining == ConfigFor(d).mines && time == 0 && !isTimerRunning
    {
      var config := ConfigFor(d);
      difficulty := Some(d);
      board := CreateEmptyBoard(config.rows, config.cols);
      gameOver := false;
      gameWon := false;
      firstClick := true;
      flagsRemaining := config.mines;
      time := 0;
      isTimerRunning := false;
      EmptyBoardFacts(config.rows, config.cols);
    }

    /** A left click is ignored once the game is over or won, and on a flagged or revealed cell. */
    ghost predicate LeftClickIgnored(row: int, col: int)
      reads this
      requires InBounds(board, row, col)
    {
      gameOver || gameWon || board[row][col].isFlagged || board[row][col].isRevealed
    }

    /** A left click on (row, col). The first one places the mines around it and reveals
        it; a later one on a mine loses and shows the whole board; a later one on a safe
        cell reveals it and wins when the win rule holds, handing back the score record. */
    method HandleCellClick(row: int, col: int) returns (score: Option<GameScore>)
      requires Valid() && difficulty.Some? && InBounds(board, row, col)
      modifies this
      ensures Valid() && difficulty == old(difficulty) && time == old(time)
      ensures old(LeftClickIgnored(row, col)) ==> unchanged(this) && score == None
      // first click: mines placed away from the click, then the click revealed; no win check
      ensures !old(LeftClickIgnored(row, col)) && old(firstClick) ==>
        !firstClick && isTimerRunning && !gameOver && !gameWon
        && flagsRemaining == old(flagsRemaining) && score == None
        && (exists placed, trail :: MinesPlaced(old(board), placed, ConfigFor(difficulty.value).mines, row, col)
                                    && RevealOutcome(placed, board, trail, row, col))
        && board[row][col].isRevealed
        && (forall r, c :: InBounds(board, r, c) && NearFirstClick(row, col, r, c) ==> !board[r][c].isMine)
      // later click on a mine: lost, everything shown
      ensures !old(LeftClickIgnored(row, col)) && !old(firstClick) && old(board[row][col].isMine) ==>
        gameOver && !gameWon && board == RevealAll(old(board)) && !isTimerRunning
        && !firstClick && flagsRemaining == old(flagsRemaining) && score == None
      // later click on a safe cell: reveal with cascade, then the win check
      ensures !old(LeftClickIgnored(row, col)) && !old(firstClick) && !old(board[row][col].isMine) ==>
        (exists trail :: RevealOutcome(old(board), board, trail, row, col))
        && !gameOver && !firstClick && flagsRemaining == old(flagsRemaining)
        && (gameWon <==> WinCondition(board, ConfigFor(difficulty.value).mines))
        && (gameWon ==> !isTimerRunning && score == Some(GameScore(difficulty.value, time)))
        && (!gameWon ==> isTimerRunning == old(isTimerRunning) && score == None)
    {
      score := None;
      if gameOver || gameWon || board[row][col].isFlagged || board[row][col].isRevealed {
        return;
      }
      var config := ConfigFor(difficulty.value);
      if firstClick {
        FirstClick(row, col);
        return;
      }
      if board[row][col].isMine {
        LossKeepsInvariant(config, board, flagsRemaining, isTimerRunning);
        board := RevealAll(board);
        gameOver := true;
        isTimerRunning := false;
      } else {
        var newBoard, trail := RevealCell(board, row, col);
        board := newBoard;
        var won := CheckWin(newBoard, config.mines);
        SafeClickKeepsInvariant(config, old(board), newBoard, trail, row, col, flagsRemaining, isTimerRunning, won);
        if won {
          gameWon := true;
          isTimerRunning := false;
          score := Some(GameScore(difficulty.value, time));
        }
      }
    }

    /** The first-click branch of a left click: the mined board goes in, the first-click
        flag goes off and the timer starts, then the clicked cell is revealed. */
    method FirstClick(row: int, col: int)
      requires Valid() && difficulty.Some? && InBounds(board, row, col)
      requires firstClick && !LeftClickIgnored(row, col)
      modifies this
      ensures Valid() && difficulty == old(difficulty) && time == old(time)
      ensures !firstClick && isTimerRunning && !gameOver && !gameWon && flagsRemaining == old(flagsRemaining)
      ensures exists placed, trail :: MinesPlaced(old(board), placed, ConfigFor(difficulty.value).mines, row, col)
                                      && RevealOutcome(placed, board, trail, row, col)
      ensures board[row][col].isRevealed
      ensures forall r, c :: InBounds(board, r, c) && NearFirstClick(row, col, r, c) ==> !board[r][c].isMine
    {
      var config := ConfigFor(difficulty.value);
      assert SessionInvariant(config, board, false, false, true, flagsRemaining, false);
      var boardWithMines, revealed, trail := FirstClickBoard(config, board, flagsRemaining, row, col);
      board := boardWithMines;
      firstClick := false;
      isTimerRunning := true;
      board := revealed;
    }

    /** A right click is ignored once the game is over or won, on a revealed cell, and
        before the first left click. */
    ghost predicate RightClickIgnored(row: int, col: int)
      reads this
      requires InBounds(board, row, col)
    {
      gameOver || gameWon || board[row][col].isRevealed || firstClick
    }

    /** A right click on (row, col): flips that cell's flag and moves the flag budget the
        other way. The budget has no lower bound. */
    method HandleCellRightClick(row: int, col: int)
      requires Valid() && difficulty.Some? && InBounds(board, row, col)
      modifies this
      ensures Valid()
      ensures old(RightClickIgnored(row, col)) ==> unchanged(this)
      ensures !old(RightClickIgnored(row, col)) ==>
        board == ToggleFlag(old(board), row, col)
        && flagsRemaining == old(flagsRemaining) + (if board[row][col].isFlagged then -1 else 1)
        && difficulty == old(difficulty) && gameOver == old(gameOver) && gameWon == old(gameWon)
        && firstClick == old(firstClick) && time == old(time) && isTimerRunning == old(isTimerRunning)
    {
      if gameOver || gameWon || board[row][col].isRevealed || firstClick {
        return;
      }
      ToggleKeepsInvariant(ConfigFor(difficulty.value), board, row, col, flagsRemaining, isTimerRunning);
      var newFlagged := !board[row][col].isFlagged;
      flagsRemaining := flagsRemaining + (if newFlagged then -1 else 1);
      board := ToggleFlag(board, row, col);
    }

    /** One tick of the one-second interval, which runs only while the timer is on and the
        game is neither lost nor won. */
    method Tick()
      requires Valid()
      modifies this
      ensures Valid()
      ensures time == if old(isTimerRunning && !gameOver && !gameWon) then old(time) + 1 else old(time)
      ensures board == old(board) && difficulty == old(difficulty) && gameOver == old(gameOver)
      ensures gameWon == old(gameWon) && firstClick == old(firstClick)
      ensures flagsRemaining == old(flagsRemaining) && isTimerRunning == old(isTimerRunning)
    {
      if isTimerRunning && !gameOver && !gameWon {
        time := time + 1;
      }
    }
  }

  /** Right-clicking the same cell twice gives back the board and the flag budget. */
  method RightClickTwice(g: Game, row: int, col: int)
    requires g.Valid() && g.difficulty.Some? && InBounds(g.board, row, col)
    modifies g
    ensures g.Valid()
    ensures g.board == old(g.board) && g.flagsRemaining == old(g.flagsRemaining)
  {
    g.HandleCellRightClick(row, col);
    g.HandleCellRightClick(row, col);
    if !old(g.RightClickIgnored(row, col)) {
      ToggleFlagTwice(old(g.board), row, col);
    }
  }

  /** The first click never runs the win test, so a first cascade that uncovers every
      safe cell leaves a game that is not won. From such a state no left click wins:
      a click on a revealed cell is ignored and a click on a hidden cell hits a mine. */
  method NoWinOnceAllSafeRevealed(g: Game, row: int, col: int) returns (score: Option<GameScore>)
    requires g.Valid() && g.difficulty.Some? && InBounds(g.board, row, col)
    requires !g.firstClick && !g.gameOver && !g.gameWon
    requires forall r, c :: InBounds(g.board, r, c) && !g.board[r][c].isMine ==> g.board[r][c].isRevealed
    modifies g
    ensures !g.gameWon && score == None
    ensures g.gameOver || g.board == old(g.board)
  {
    score := g.HandleCellClick(row, col);
  }

  /** An easy game whose first click is at (4, 4): that cell and its block are free of
      mines, it is revealed, and the board holds ten mines. */
  method EasyFirstClickScenario() returns (g: Game)
    ensures g.Valid() && g.difficulty == Some(Easy) && !g.firstClick && !g.gameOver && !g.gameWon
    ensures InBounds(g.board, 4, 4) && g.board[4][4].isRevealed
    ensures forall r, c :: 3 <= r <= 5 && 3 <= c <= 5 ==> !g.board[r][c].isMine
    ensures Count(g.board, MineCell) == 10
  {
    g := new Game();
    g.StartNewGame(Easy);
    var score := g.HandleCellClick(4, 4);
  }

  // ---------------------------------------------------------------------------
  // Display helpers

  /** What a cell button shows: nothing, a flag, a mine, or its neighbour count. */
  datatype CellDisplay = Empty | FlagIcon | MineIcon | Number(n: nat)

  /** A flag is shown whatever else holds; a hidden cell shows nothing; a revealed mine
      shows a mine; a revealed safe cell shows its count, or nothing when it is zero. */
  function GetCellContent(cell: Cell): (d: CellDisplay)
    ensures d == FlagIcon <==> cell.isFlagged
    ensures d == Empty <==> !cell.isFlagged && (!cell.isRevealed || (!cell.isMine && cell.adjacentMines == 0))
    ensures d == MineIcon <==> !cell.isFlagged && cell.isRevealed && cell.isMine
    ensures d.Number? <==> !cell.isFlagged && cell.isRevealed && !cell.isMine && cell.adjacentMines != 0
    ensures d.Number? ==> d.n == cell.adjacentMines
  {
    if cell.isFlagged then FlagIcon
    else if !cell.isRevealed then Empty
    else if cell.isMine then MineIcon
    else if cell.adjacentMines == 0 then Empty
    else Number(cell.adjacentMines)
  }

  /** On a board with correct counts, a revealed, unflagged safe cell shows the number of
      its neighbouring mines, and shows nothing exactly when it has none. */
  lemma DisplayShowsNeighbourMines(b: Board, r: int, c: int)
    requires AdjacencyCorrect(b) && InBounds(b, r, c)
    requires b[r][c].isRevealed && !b[r][c].isFlagged && !b[r][c].isMine
    ensures GetCellContent(b[r][c]) == if NeighbourMines(b, r, c) == 0 then Empty else Number(NeighbourMines(b, r, c))
    ensures GetCellContent(b[r][c]).Number? ==> 1 <= GetCellContent(b[r][c]).n <= 8
  {
  }

  /** The decimal digit for d. */
  function DigitChar(d: nat): char
    requires d < 10
  {
    ('0' as int + d) as char
  }

  /** The value of a decimal digit character (0 for anything else). */
  function DigitValue(ch: char): nat {
    if '0' <= ch <= '9' then ch as int - '0' as int else 0
  }

  /** The decimal form of n, as number-to-string conversion writes it. */
  function NatToString(n: nat): string
    decreases n
  {
    if n < 10 then [DigitChar(n)] else NatToString(n / 10) + [DigitChar(n % 10)]
  }

  /** The value of a string of decimal digits. */
  function ParseNat(s: string): nat
    decreases |s|
  {
    if s == [] then 0 else ParseNat(s[..|s| - 1]) * 10 + DigitValue(s[|s| - 1])
  }

  /** s left-padded with '0' to two characters. */
  function PadStart2(s: string): string {
    if |s| >= 2 then s else seq(2 - |s|, _ => '0') + s
  }

  /** The clock shown for an elapsed time: the whole minutes in decimal, a colon, and
      the seconds within the minute on two digits. */
  function FormatTime(seconds: nat): (t: string)
    ensures ShowsClock(t, seconds / 60, seconds % 60)
  {
    NatToStringRoundTrip(seconds / 60);
    NatToStringRoundTrip(seconds % 60);
    PadStart2Digits(NatToString(seconds % 60));
    SplitClock(NatToString(seconds / 60), PadStart2(NatToString(seconds % 60)));
    NatToString(seconds / 60) + ":" + PadStart2(NatToString(seconds % 60))
  }

  /** Reads a clock string back: the minutes before the colon and the two seconds digits after it. */
  function ParseClock(t: string): nat
    requires |t| >= 3
  {
    ParseNat(t[..|t| - 3]) * 60 + ParseNat(t[|t| - 2..])
  }

  /** Every character of s is a decimal digit. */
  predicate AllDigits(s: string) {
    forall i :: 0 <= i < |s| ==> '0' <= s[i] <= '9'
  }

  /** The decimal form of n is a non-empty string of digits with no leading zero
      (except for 0 itself), one character long exactly below 10, and reads back as n. */
  lemma {:induction false} NatToStringRoundTrip(n: nat)
    ensures |NatToString(n)| >= 1 && AllDigits(NatToString(n))
    ensures n > 0 ==> NatToString(n)[0] != '0'
    ensures ParseNat(NatToString(n)) == n
    ensures n < 10 <==> |NatToString(n)| == 1
    decreases n
  {
    if n >= 10 {
      NatToStringRoundTrip(n / 10);
      var s := NatToString(n);
      assert s[..|s| - 1] == NatToString(n / 10);
      assert s[0] == NatToString(n / 10)[0];
    }
  }

  /** Padding a one- or two-digit string to two characters keeps it digits and keeps its value. */
  lemma PadStart2Digits(s: string)
    requires 1 <= |s| <= 2 && AllDigits(s)
    ensures |PadStart2(s)| == 2 && AllDigits(PadStart2(s))
    ensures ParseNat(PadStart2(s)) == ParseNat(s)
  {
    if |s| == 1 {
      var padded := PadStart2(s);
      assert padded == ['0'] + s;
      assert padded[..1] == ['0'];
      assert ParseNat(['0']) == ParseNat([]) * 10 + DigitValue('0');
      assert s[..0] == [];
    }
  }

  /** t is a clock string showing mins minutes and secs seconds: a decimal minutes field
      without leading zeros, a colon, and a seconds field of exactly two digits. */
  ghost predicate ShowsClock(t: string, mins: nat, secs: nat) {
    |t| >= 4 && t[|t| - 3] == ':'
    && AllDigits(t[..|t| - 3]) && ParseNat(t[..|t| - 3]) == mins && (|t| > 4 ==> t[0] != '0')
    && AllDigits(t[|t| - 2..]) && ParseNat(t[|t| - 2..]) == secs
  }

  /** A non-empty minutes field without leading zeros, a colon and a two-digit seconds
      field make a clock string, which reads back field by field. */
  lemma SplitClock(m: string, p: string)
    requires |m| >= 1 && AllDigits(m) && (|m| > 1 ==> m[0] != '0') && |p| == 2 && AllDigits(p)
    ensures ShowsClock(m + ":" + p, ParseNat(m), ParseNat(p))
    ensures ParseClock(m + ":" + p) == ParseNat(m) * 60 + ParseNat(p)
  {
    ClockParts(m, p);
  }

  /** The fields of m + ":" + p sit where a clock string's fields are cut out. */
  lemma ClockParts(m: string, p: string)
    requires |p| == 2
    ensures var t := m + ":" + p;
      |t| == |m| + 3 && t[|t| - 3] == ':' && t[..|t| - 3] == m && t[|t| - 2..] == p
  {
    var t := m + ":" + p;
    assert t[..|t| - 3] == m;
    assert t[|t| - 2..] == p;
  }

  /** The clock string shows the whole minutes and the seconds within the minute, and
      reads back as the elapsed time. */
  lemma FormatTimeRoundTrip(seconds: nat)
    ensures ShowsClock(FormatTime(seconds), seconds / 60, seconds % 60)
    ensures ParseClock(FormatTime(seconds)) == seconds
  {
  }
}
