/** Concrete positions worked through by the model. */
module Scenarios {
  import opened Wrappers
  import opened Evaluator
  import opened Search

  /** A full board on which nobody owns a line is a tie. */
  lemma FullBoardWithoutLineIsTie()
    ensures GetGameResult([X, O, X, X, O, O, O, X, X]) == Some(0)
  {
    var b: Board := [X, O, X, X, O, O, O, X, X];
    CheckWinUnrolled(b, Human);
    CheckWinUnrolled(b, Ai);
    GameResultCases(b);
  }

  /**
   * X holds cells 0 and 1, O holds 3 and 4, O to move. Both 2 and 5 win for
   * O (5 at once, 2 through the double threat on 5 and 6), so the first best
   * move, 2, is chosen; it also blocks the human's top row.
   */
  lemma BlockingMoveIsChosen()
    ensures BestMove([X, X, Empty, O, O, Empty, Empty, Empty, Empty], Ai) == Some(2)
  {
    var b: Board := [X, X, Empty, O, O, Empty, Empty, Empty, Empty];
    assert b[2 := O] == [X, X, O, O, O, Empty, Empty, Empty, Empty];
    DoubleThreatWins();
    assert ChildValue(b, Ai, 2) == Value(b[2 := O], Human) == 1;
    BestMoveNoneIffFull(b, Ai);
    assert b[2] == Empty;
    BestMoveBeatsEveryCell(b, Ai);
    var m := BestMove(b, Ai).value;
    assert ChildValue(b, Ai, 2) <= ChildValue(b, Ai, m) <= 1;
    assert b[0] != Empty && b[1] != Empty;
  }

  /** After O takes cell 2, every human reply leaves O a completing move. */
  lemma DoubleThreatWins()
    ensures Value([X, X, O, O, O, Empty, Empty, Empty, Empty], Human) == 1
  {
    var b: Board := [X, X, O, O, O, Empty, Empty, Empty, Empty];
    CheckWinUnrolled(b, Human);
    CheckWinUnrolled(b, Ai);
    GameResultCases(b);
    ValueIsMinimax(b, Human);
    forall m | 0 <= m < 9 && b[m] == Empty
      ensures ChildValue(b, Human, m) == 1
    {
      HumanReplyLoses(b, m);
    }
  }

  /** Whichever empty cell the human takes, O can then complete a line. */
  lemma HumanReplyLoses(b: Board, m: nat)
    requires b == [X, X, O, O, O, Empty, Empty, Empty, Empty]
    requires m < 9 && b[m] == Empty
    ensures Value(b[m := X], Ai) == 1
  {
    var c: Board := b[m := X];
    var w: nat := if m == 5 then 6 else 5;
    assert m in {5, 6, 7, 8};
    var d: Board := c[w := O];
    CheckWinUnrolled(c, Human);
    CheckWinUnrolled(c, Ai);
    GameResultCases(c);
    CheckWinUnrolled(d, Human);
    CheckWinUnrolled(d, Ai);
    GameResultCases(d);
    ImmediateWin(c, w);
  }

  /** With play going on, a move that wins at once gives the computer value 1. */
  lemma ImmediateWin(c: Board, w: nat)
    requires GetGameResult(c).None? && w < 9 && c[w] == Empty
    requires GetGameResult(c[w := O]) == Some(1)
    ensures Value(c, Ai) == 1
  {
    ValueIsMinimax(c, Ai);
    ValueIsMinimax(c[w := O], Human);
    assert ChildValue(c, Ai, w) == 1;
  }
}
