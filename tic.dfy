/** The rules of the console Tic-Tac-Toe game of `debugging/tic.py`: the win
    and draw tests over a 3 x 3 board of one-character strings, and the step
    of the game loop that places a mark and hands the turn over. */
module TicTacToe {

  /** A board is a list of rows, each a list of cells; a cell holds "X", "O"
      or the blank " ". */
  type Board = seq<seq<string>>

  const Blank: string := " "
  const PlayerX: string := "X"
  const PlayerO: string := "O"

  /** The shape every board of the game has: three rows of three cells. */
  predicate IsBoard(b: Board) {
    |b| == 3 && forall r :: 0 <= r < 3 ==> |b[r]| == 3
  }

  /** The board the game starts from: every cell blank. */
  function EmptyBoard(): (b: Board)
    ensures IsBoard(b)
    ensures forall r, c :: 0 <= r < 3 && 0 <= c < 3 ==> b[r][c] == Blank
  {
    [[Blank, Blank, Blank], [Blank, Blank, Blank], [Blank, Blank, Blank]]
  }

  // ---------------------------------------------------------------------
  // check_winner
  // ---------------------------------------------------------------------

  /** The number of occurrences of v in row (Python's list.count). */
  function Count(row: seq<string>, v: string): (n: nat)
    ensures n <= |row|
  {
    if row == [] then 0 else (if row[0] == v then 1 else 0) + Count(row[1..], v)
  }

  /** A row wins when all its entries equal its first entry and that entry is
      not blank. */
  predicate RowWins(row: seq<string>)
    requires |row| > 0
  {
    Count(row, row[0]) == |row| && row[0] != Blank
  }

  /** The loop over the rows: some row wins. */
  predicate AnyRowWins(rows: Board)
    requires forall r :: 0 <= r < |rows| ==> |rows[r]| > 0
  {
    |rows| > 0 && (RowWins(rows[0]) || AnyRowWins(rows[1..]))
  }

  /** The loop over the columns: some column holds three equal non-blank
      entries. */
  predicate AnyColumnWins(b: Board)
    requires IsBoard(b)
  {
    exists col | 0 <= col < |b[0]| :: b[0][col] == b[1][col] == b[2][col] && b[0][col] != Blank
  }

  /** check_winner: a row, a column, the main diagonal or the anti-diagonal
      is uniform and non-blank, tested in that order. */
  predicate CheckWinner(b: Board)
    requires IsBoard(b)
  {
    AnyRowWins(b)
    || AnyColumnWins(b)
    || (b[0][0] == b[1][1] == b[2][2] && b[0][0] != Blank)
    || (b[0][2] == b[1][1] == b[2][0] && b[0][2] != Blank)
  }

  // ---------------------------------------------------------------------
  // The eight lines, an independent description of a win
  // ---------------------------------------------------------------------

  /** A line is three (row, column) positions. */
  type Line = seq<(int, int)>

  /** The three rows, the three columns and the two diagonals. */
  const Lines: seq<Line> := [
    [(0, 0), (0, 1), (0, 2)], [(1, 0), (1, 1), (1, 2)], [(2, 0), (2, 1), (2, 2)],
    [(0, 0), (1, 0), (2, 0)], [(0, 1), (1, 1), (2, 1)], [(0, 2), (1, 2), (2, 2)],
    [(0, 0), (1, 1), (2, 2)], [(0, 2), (1, 1), (2, 0)]
  ]

  function At(b: Board, p: (int, int)): (r: string)
    requires IsBoard(b) && 0 <= p.0 < 3 && 0 <= p.1 < 3
  {
    b[p.0][p.1]
  }

  /** Line k is held by one player: its three cells are equal and not blank. */
  predicate LineHeld(b: Board, k: int)
    requires IsBoard(b) && 0 <= k < 8
  {
    var l := Lines[k];
    At(b, l[0]) == At(b, l[1]) == At(b, l[2]) && At(b, l[0]) != Blank
  }

  /** All entries of row equal v exactly when v occurs |row| times. */
  lemma {:induction false} CountIsLength(row: seq<string>, v: string)
    ensures Count(row, v) == |row| <==> forall i :: 0 <= i < |row| ==> row[i] == v
  {
    if row != [] {
      CountIsLength(row[1..], v);
      if Count(row, v) == |row| {
        assert row[0] == v;
      }
      if forall i :: 0 <= i < |row| ==> row[i] == v {
        assert forall i :: 0 <= i < |row[1..]| ==> row[1..][i] == v by {
          forall i | 0 <= i < |row[1..]| ensures row[1..][i] == v {
            assert row[1..][i] == row[i + 1];
          }
        }
      }
    }
  }

  /** A three-cell row wins exactly when its cells are equal and not blank. */
  lemma RowWinsIff(row: seq<string>)
    requires |row| == 3
    ensures RowWins(row) <==> row[0] == row[1] == row[2] && row[0] != Blank
  {
    CountIsLength(row, row[0]);
  }

  /** The row loop visits the three rows in turn. */
  lemma AnyRowWinsUnfolded(b: Board)
    requires IsBoard(b)
    ensures AnyRowWins(b) <==> RowWins(b[0]) || RowWins(b[1]) || RowWins(b[2])
  {
    var t1, t2 := b[1..], b[1..][1..];
    assert t1[0] == b[1] && t2[0] == b[2] && t2[1..] == [];
    assert AnyRowWins(t2) <==> RowWins(b[2]);
    assert AnyRowWins(t1) <==> RowWins(b[1]) || AnyRowWins(t2);
  }

  /** The row loop finds a winner exactly when one of lines 0..2 is held. */
  lemma RowsWinIff(b: Board)
    requires IsBoard(b)
    ensures AnyRowWins(b) <==> LineHeld(b, 0) || LineHeld(b, 1) || LineHeld(b, 2)
  {
    AnyRowWinsUnfolded(b);
    RowWinsIff(b[0]);
    RowWinsIff(b[1]);
    RowWinsIff(b[2]);
  }

  /** The column loop finds a winner exactly when one of lines 3..5 is held. */
  lemma ColumnsWinIff(b: Board)
    requires IsBoard(b)
    ensures AnyColumnWins(b) <==> LineHeld(b, 3) || LineHeld(b, 4) || LineHeld(b, 5)
  {
    if AnyColumnWins(b) {
      var col :| 0 <= col < 3 && b[0][col] == b[1][col] == b[2][col] && b[0][col] != Blank;
      assert LineHeld(b, 3 + col);
    }
  }

  /** check_winner is true exactly when one of the eight lines is uniform and
      non-blank; in particular it is false when no line is. */
  lemma CheckWinnerIff(b: Board)
    requires IsBoard(b)
    ensures CheckWinner(b) <==> exists k :: 0 <= k < 8 && LineHeld(b, k)
  {
    RowsWinIff(b);
    ColumnsWinIff(b);
    if exists k :: 0 <= k < 8 && LineHeld(b, k) {
      var k :| 0 <= k < 8 && LineHeld(b, k);
      assert k == 0 || k == 1 || k == 2 || k == 3 || k == 4 || k == 5 || k == 6 || k == 7;
    }
    if CheckWinner(b) {
      if AnyRowWins(b) {
        assert LineHeld(b, 0) || LineHeld(b, 1) || LineHeld(b, 2);
      } else if AnyColumnWins(b) {
        assert LineHeld(b, 3) || LineHeld(b, 4) || LineHeld(b, 5);
      } else if b[0][0] == b[1][1] == b[2][2] && b[0][0] != Blank {
        assert LineHeld(b, 6);
      } else {
        assert LineHeld(b, 7);
      }
    }
  }

  /** Nobody has won on the initial board. */
  lemma EmptyBoardHasNoWinner()
    ensures !CheckWinner(EmptyBoard())
  {
    CheckWinnerIff(EmptyBoard());
  }

  // ---------------------------------------------------------------------
  // check_draw
  // ---------------------------------------------------------------------

  /** check_draw: no row contains a blank cell. It does not look for a
      winner; the game loop asks check_winner first. */
  predicate CheckDraw(rows: Board) {
    |rows| == 0 || (Blank !in rows[0] && CheckDraw(rows[1..]))
  }

  /** check_draw holds exactly when no cell of the board is blank. */
  lemma {:induction false} CheckDrawIff(rows: Board)
    ensures CheckDraw(rows) <==>
      forall r, c :: 0 <= r < |rows| && 0 <= c < |rows[r]| ==> rows[r][c] != Blank
  {
    if |rows| > 0 {
      CheckDrawIff(rows[1..]);
      assert forall r :: 1 <= r < |rows| ==> rows[1..][r - 1] == rows[r];
      if forall r, c :: 0 <= r < |rows| && 0 <= c < |rows[r]| ==> rows[r][c] != Blank {
        assert forall c :: 0 <= c < |rows[0]| ==> rows[0][c] != Blank;
      }
    }
  }

  /** The initial board is not a draw. */
  lemma EmptyBoardIsNoDraw()
    ensures !CheckDraw(EmptyBoard())
  {
    assert EmptyBoard()[0][0] == Blank;
    CheckDrawIff(EmptyBoard());
  }

  // ---------------------------------------------------------------------
  // Counting blanks: every accepted move uses one up
  // ---------------------------------------------------------------------

  /** The number of blank cells of the board. */
  function Blanks(rows: Board): (r: nat) {
    if rows == [] then 0 else Count(rows[0], Blank) + Blanks(rows[1..])
  }

  /** The board with the cell at (row, col) set to p and every other cell as
      before. */
  function Mark(b: Board, row: int, col: int, p: string): (m: Board)
    requires IsBoard(b) && 0 <= row < 3 && 0 <= col < 3
    ensures IsBoard(m)
    ensures forall r, c :: 0 <= r < 3 && 0 <= c < 3 ==>
      m[r][c] == if r == row && c == col then p else b[r][c]
  {
    b[row := b[row][col := p]]
  }

  /** The blanks of a board are those of its three rows. */
  lemma BlanksOfBoard(b: Board)
    requires IsBoard(b)
    ensures Blanks(b) == Count(b[0], Blank) + Count(b[1], Blank) + Count(b[2], Blank)
  {
    var t1, t2 := b[1..], b[1..][1..];
    assert t1[0] == b[1] && t2[0] == b[2] && t2[1..] == [];
    assert Blanks(t2) == Count(b[2], Blank) + Blanks(t2[1..]);
  }

  /** Writing a non-blank mark into a blank cell of a row removes exactly one
      blank from it. */
  lemma {:induction false} CountAfterUpdate(row: seq<string>, col: nat, p: string)
    requires col < |row| && row[col] == Blank && p != Blank
    ensures Count(row[col := p], Blank) == Count(row, Blank) - 1
  {
    if col > 0 {
      CountAfterUpdate(row[1..], col - 1, p);
      assert row[col := p][1..] == row[1..][col - 1 := p];
    } else {
      assert row[col := p][1..] == row[1..];
    }
  }

  /** Each move the game accepts turns one blank into a mark, so after at
      most nine accepted moves the board is full. */
  lemma MarkUsesOneBlank(b: Board, row: int, col: int, p: string)
    requires IsBoard(b) && 0 <= row < 3 && 0 <= col < 3
    requires b[row][col] == Blank && p != Blank
    ensures Blanks(Mark(b, row, col, p)) == Blanks(b) - 1
  {
    var m := Mark(b, row, col, p);
    CountAfterUpdate(b[row], col, p);
    BlanksOfBoard(b);
    BlanksOfBoard(m);
    assert m[row] == b[row][col := p];
  }

  /** A board has at most nine blank cells; with MarkUsesOneBlank, the game
      accepts at most nine moves. */
  lemma BlanksAtMostNine(b: Board)
    requires IsBoard(b)
    ensures Blanks(b) <= 9
  {
    BlanksOfBoard(b);
  }

  /** A board with no blank cell left is a draw (or is won). */
  lemma {:induction false} NoBlanksIsDraw(rows: Board)
    ensures Blanks(rows) == 0 <==> CheckDraw(rows)
  {
    if rows != [] {
      NoBlanksIsDraw(rows[1..]);
      CountIsLength(rows[0], Blank);
      assert Count(rows[0], Blank) == 0 <==> Blank !in rows[0] by {
        CountZero(rows[0], Blank);
      }
    }
  }

  /** A value occurs zero times exactly when it is absent. */
  lemma {:induction false} CountZero(row: seq<string>, v: string)
    ensures Count(row, v) == 0 <==> v !in row
  {
    if row != [] {
      CountZero(row[1..], v);
      assert row == [row[0]] + row[1..];
    }
  }

  // ---------------------------------------------------------------------
  // The move step of the game loop
  // ---------------------------------------------------------------------

  /** What one pass through the game loop reports after reading a valid
      position. */
  datatype Outcome =
    | Taken     // the cell was occupied: nothing changes, the same player retries
    | Won       // the mark completed a line: the current player wins
    | Drawn     // the mark filled the board without a winner
    | Continue  // the game goes on with the other player

  /** The state of the game loop: the board and the player to move. */
  class Game {
    var board: Board
    var player: string

    ghost predicate Valid()
      reads this
    {
      IsBoard(board) && (player == PlayerX || player == PlayerO)
    }

    /** An empty board, and "X" moves first. */
    constructor ()
      ensures Valid()
      ensures board == EmptyBoard() && player == PlayerX
    {
      board := EmptyBoard();
      player := PlayerX;
    }

    /** One move at a position the caller has already checked to be on the
        board. The mark goes on the cell only when it is empty; then a win is
        tested before a draw, and only when neither ends the game does the
        turn pass to the other player. */
    method Move(row: int, col: int) returns (outcome: Outcome)
      requires Valid()
      requires 0 <= row < 3 && 0 <= col < 3
      modifies this
      ensures Valid()
      ensures old(board[row][col]) != Blank ==>
        outcome == Taken && board == old(board) && player == old(player)
      ensures old(board[row][col]) == Blank ==>
        outcome != Taken &&
        (forall r, c :: 0 <= r < 3 && 0 <= c < 3 ==>
          board[r][c] == if r == row && c == col then old(player) else old(board[r][c])) &&
        Blanks(board) == Blanks(old(board)) - 1
      ensures outcome == Won <==> outcome != Taken && CheckWinner(board)
      ensures outcome == Drawn <==> outcome != Taken && !CheckWinner(board) && CheckDraw(board)
      ensures outcome == Continue ==> player != old(player)
      ensures outcome != Continue ==> player == old(player)
    {
      if board[row][col] == Blank {
        MarkUsesOneBlank(board, row, col, player);
        board := Mark(board, row, col, player);
        if CheckWinner(board) {
          return Won;
        }
        if CheckDraw(board) {
          return Drawn;
        }
        player := if player == PlayerX then PlayerO else PlayerX;
        outcome := Continue;
      } else {
        outcome := Taken;
      }
    }
  }
}
