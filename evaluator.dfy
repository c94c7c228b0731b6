/**
 * Terminal-state evaluator of the tic-tac-toe engine: who has a completed
 * line, whether the board is full, and the combined game result.
 */
module Evaluator {
  import opened Wrappers

  /** A cell holds nothing, the human's mark X or the computer's mark O. */
  datatype Cell = Empty | X | O

  /** Whose mark, and whose turn. */
  datatype Player = Human | Ai

  /** The mark a player writes: X for the human, O for the computer. */
  function Mark(p: Player): Cell {
    if p == Human then X else O
  }

  function Opponent(p: Player): Player {
    if p == Human then Ai else Human
  }

  /** The 3x3 board, cells 0..8 in row-major order. */
  type Board = b: seq<Cell> | |b| == 9
    witness [Empty, Empty, Empty, Empty, Empty, Empty, Empty, Empty, Empty]

  /** The cell in row `r` and column `c` of the grid. */
  function At(b: Board, r: nat, c: nat): Cell
    requires r < 3 && c < 3
  {
    b[3 * r + c]
  }

  /** The eight winning index triples: three rows, three columns, two diagonals. */
  const WinningLines: seq<seq<nat>> :=
    [[0, 1, 2], [3, 4, 5], [6, 7, 8],
     [0, 3, 6], [1, 4, 7], [2, 5, 8],
     [0, 4, 8], [2, 4, 6]]

  /**
   * `p` has won: `some` winning triple has `every` one of its cells holding
   * `p`'s mark.
   */
  predicate CheckWin(b: Board, p: Player) {
    exists k :: 0 <= k < |WinningLines| && Owns(b, WinningLines[k], Mark(p))
  }

  /** Every cell of `line` holds `m`. */
  predicate Owns(b: Board, line: seq<nat>, m: Cell) {
    forall j :: 0 <= j < |line| ==> line[j] < 9 && b[line[j]] == m
  }

  /** The board is full: no cell is empty. */
  function CheckTie(b: seq<Cell>): (r: bool)
    ensures r <==> forall i :: 0 <= i < |b| ==> b[i] != Empty
  {
    if b == [] then true
    else b[0] != Empty && CheckTie(b[1..])
  }

  /**
   * -1 when the human has won, +1 when the computer has won, 0 on a full
   * board, None while play goes on. The two win checks come before the tie.
   */
  function GetGameResult(b: Board): (r: Option<int>)
    ensures r == None || r == Some(-1) || r == Some(0) || r == Some(1)
  {
    if CheckWin(b, Human) then Some(-1)
    else if CheckWin(b, Ai) then Some(1)
    else if CheckTie(b) then Some(0)
    else None
  }

  /**
   * What each result means: -1 exactly when the human owns a line, +1 exactly
   * when the computer owns one and the human does not, 0 exactly when neither
   * does and no cell is empty, None exactly when neither does and some cell is
   * empty. In particular a completed line is never reported as a tie.
   */
  lemma GameResultCases(b: Board)
    ensures GetGameResult(b) == Some(-1) <==> CheckWin(b, Human)
    ensures GetGameResult(b) == Some(1) <==> !CheckWin(b, Human) && CheckWin(b, Ai)
    ensures GetGameResult(b) == Some(0) <==>
      !CheckWin(b, Human) && !CheckWin(b, Ai) && forall i :: 0 <= i < 9 ==> b[i] != Empty
    ensures GetGameResult(b) == None <==>
      !CheckWin(b, Human) && !CheckWin(b, Ai) && exists i :: 0 <= i < 9 && b[i] == Empty
    ensures CheckWin(b, Human) || CheckWin(b, Ai) ==> GetGameResult(b).Some? && GetGameResult(b) != Some(0)
  {
  }

  /** The three cells `i`, `j`, `k` all hold `m`. */
  predicate Triple(b: Board, i: nat, j: nat, k: nat, m: Cell)
    requires i < 9 && j < 9 && k < 9
  {
    b[i] == m && b[j] == m && b[k] == m
  }

  /** `checkWin` spelled out over the eight triples of the list. */
  lemma CheckWinUnrolled(b: Board, p: Player)
    ensures CheckWin(b, p) <==>
      var m := Mark(p);
      Triple(b, 0, 1, 2, m) || Triple(b, 3, 4, 5, m) || Triple(b, 6, 7, 8, m) ||
      Triple(b, 0, 3, 6, m) || Triple(b, 1, 4, 7, m) || Triple(b, 2, 5, 8, m) ||
      Triple(b, 0, 4, 8, m) || Triple(b, 2, 4, 6, m)
  {
    var m := Mark(p);
    if CheckWin(b, p) {
      var k :| 0 <= k < |WinningLines| && Owns(b, WinningLines[k], m);
      var line := WinningLines[k];
      assert |line| == 3;
      assert b[line[0]] == m && b[line[1]] == m && b[line[2]] == m;
      assert k in {0, 1, 2, 3, 4, 5, 6, 7};
    }
    forall k | 0 <= k < |WinningLines| && Triple(b, WinningLines[k][0], WinningLines[k][1], WinningLines[k][2], m)
      ensures Owns(b, WinningLines[k], m)
    {
      var line := WinningLines[k];
      assert |line| == 3;
    }
    assert WinningLines[0] == [0, 1, 2] && WinningLines[1] == [3, 4, 5];
    assert WinningLines[2] == [6, 7, 8] && WinningLines[3] == [0, 3, 6];
    assert WinningLines[4] == [1, 4, 7] && WinningLines[5] == [2, 5, 8];
    assert WinningLines[6] == [0, 4, 8] && WinningLines[7] == [2, 4, 6];
  }

  /** Row `r` holds `m` in all three columns. */
  predicate RowFilled(b: Board, r: nat, m: Cell)
    requires r < 3
  {
    forall c :: 0 <= c < 3 ==> At(b, r, c) == m
  }

  /** Column `c` holds `m` in all three rows. */
  predicate ColumnFilled(b: Board, c: nat, m: Cell)
    requires c < 3
  {
    forall r :: 0 <= r < 3 ==> At(b, r, c) == m
  }

  /** One of the two diagonals (r == c, or r + c == 2) holds `m` throughout. */
  predicate DiagonalFilled(b: Board, m: Cell) {
    (forall r, c :: 0 <= r < 3 && 0 <= c < 3 && r == c ==> At(b, r, c) == m) ||
    (forall r, c :: 0 <= r < 3 && 0 <= c < 3 && r + c == 2 ==> At(b, r, c) == m)
  }

  /** Some row, column or diagonal of the grid holds `m` throughout. */
  predicate GridLineFilled(b: Board, m: Cell) {
    (exists r :: 0 <= r < 3 && RowFilled(b, r, m)) ||
    (exists c :: 0 <= c < 3 && ColumnFilled(b, c, m)) ||
    DiagonalFilled(b, m)
  }

  /** Each listed triple is a row, a column or a diagonal of the grid. */
  lemma WinningLineIsGridLine(b: Board, m: Cell, k: nat)
    requires k < |WinningLines| && Owns(b, WinningLines[k], m)
    ensures GridLineFilled(b, m)
  {
    var line := WinningLines[k];
    assert |line| == 3;
    assert b[line[0]] == m && b[line[1]] == m && b[line[2]] == m;
    if k < 3 {
      assert WinningLines[k] == [3 * k, 3 * k + 1, 3 * k + 2];
      assert RowFilled(b, k, m);
    } else if k < 6 {
      assert WinningLines[k] == [k - 3, k, k + 3];
      assert ColumnFilled(b, k - 3, m);
    } else if k == 6 {
      assert forall r, c :: 0 <= r < 3 && 0 <= c < 3 && r == c ==> At(b, r, c) == m;
    } else {
      assert forall r, c :: 0 <= r < 3 && 0 <= c < 3 && r + c == 2 ==> At(b, r, c) == m;
    }
  }

  /** Each row, column and diagonal of the grid is one of the listed triples. */
  lemma GridLineIsWinningLine(b: Board, m: Cell)
    requires GridLineFilled(b, m)
    ensures exists k :: 0 <= k < |WinningLines| && Owns(b, WinningLines[k], m)
  {
    if r :| 0 <= r < 3 && RowFilled(b, r, m) {
      assert At(b, r, 0) == m && At(b, r, 1) == m && At(b, r, 2) == m;
      assert WinningLines[r] == [3 * r, 3 * r + 1, 3 * r + 2];
    } else if c :| 0 <= c < 3 && ColumnFilled(b, c, m) {
      assert At(b, 0, c) == m && At(b, 1, c) == m && At(b, 2, c) == m;
      assert WinningLines[3 + c] == [c, 3 + c, 6 + c];
    } else if forall r, c :: 0 <= r < 3 && 0 <= c < 3 && r == c ==> At(b, r, c) == m {
      assert At(b, 0, 0) == m && At(b, 1, 1) == m && At(b, 2, 2) == m;
      assert WinningLines[6] == [0, 4, 8];
    } else {
      assert At(b, 0, 2) == m && At(b, 1, 1) == m && At(b, 2, 0) == m;
      assert WinningLines[7] == [2, 4, 6];
    }
  }

  /**
   * The fixed list of triples is exactly the set of lines of the grid:
   * a player has won if and only if they own a row, a column or a diagonal.
   */
  lemma CheckWinIsGridLine(b: Board, p: Player)
    ensures CheckWin(b, p) <==> GridLineFilled(b, Mark(p))
  {
    if CheckWin(b, p) {
      var k :| 0 <= k < |WinningLines| && Owns(b, WinningLines[k], Mark(p));
      WinningLineIsGridLine(b, Mark(p), k);
    }
    if GridLineFilled(b, Mark(p)) {
      GridLineIsWinningLine(b, Mark(p));
    }
  }
}
