/**
 * Relabelling symmetry of the search: swapping every X with O and the
 * player to move negates the game value, on every board where not both
 * players own a line.
 */
module Symmetry {
  import opened Wrappers
  import opened Evaluator
  import opened Search

  function SwapMark(c: Cell): Cell {
    match c
    case Empty => Empty
    case X => O
    case O => X
  }

  /** The board with every X replaced by O and every O by X. */
  function Relabel(s: seq<Cell>): (r: seq<Cell>)
    ensures |r| == |s|
  {
    seq(|s|, i requires 0 <= i < |s| => SwapMark(s[i]))
  }

  function NegateResult(r: Option<int>): Option<int> {
    match r
    case None => None
    case Some(v) => Some(-v)
  }

  function Negate(s: seq<int>): (r: seq<int>)
    ensures |r| == |s|
  {
    seq(|s|, i requires 0 <= i < |s| => -s[i])
  }

  /** A player owns a line of the relabelled board exactly when the opponent owns it before. */
  lemma CheckWinRelabel(b: Board, p: Player)
    ensures CheckWin(Relabel(b), Opponent(p)) == CheckWin(b, p)
  {
    var rb: Board := Relabel(b);
    forall line: seq<nat> ensures Owns(rb, line, Mark(Opponent(p))) == Owns(b, line, Mark(p)) {
      if Owns(b, line, Mark(p)) {
        assert forall j :: 0 <= j < |line| ==> rb[line[j]] == SwapMark(b[line[j]]);
      }
      if Owns(rb, line, Mark(Opponent(p))) {
        forall j | 0 <= j < |line| ensures line[j] < 9 && b[line[j]] == Mark(p) {
          assert rb[line[j]] == SwapMark(b[line[j]]);
        }
      }
    }
  }

  /** Relabelling keeps the empty cells, hence fullness and the available moves. */
  lemma {:induction false} AvailableMovesRelabel(s: seq<Cell>)
    ensures AvailableMoves(Relabel(s)) == AvailableMoves(s)
    ensures CheckTie(Relabel(s)) == CheckTie(s)
  {
    if s != [] {
      assert Relabel(s)[..|s| - 1] == Relabel(s[..|s| - 1]);
      AvailableMovesRelabel(s[..|s| - 1]);
      assert Relabel(s)[|s| - 1] == SwapMark(s[|s| - 1]);
    }
  }

  /** Marking a cell for `p` never completes a line for the opponent. */
  lemma PlaceKeepsOpponentLineless(b: Board, p: Player, m: nat)
    requires m < 9 && b[m] == Empty
    ensures CheckWin(b[m := Mark(p)], Opponent(p)) ==> CheckWin(b, Opponent(p))
  {
    var after: Board := b[m := Mark(p)];
    forall k | 0 <= k < |WinningLines| && Owns(after, WinningLines[k], Mark(Opponent(p)))
      ensures Owns(b, WinningLines[k], Mark(Opponent(p)))
    {
      var line := WinningLines[k];
      assert forall j :: 0 <= j < |line| ==> line[j] != m && b[line[j]] == after[line[j]];
    }
  }

  /** With not both lines present, relabelling negates the game result. */
  lemma GameResultRelabel(b: Board)
    requires !(CheckWin(b, Human) && CheckWin(b, Ai))
    ensures GetGameResult(Relabel(b)) == NegateResult(GetGameResult(b))
  {
    CheckWinRelabel(b, Human);
    CheckWinRelabel(b, Ai);
    AvailableMovesRelabel(b);
  }

  /** Negating every score swaps the maximum and the minimum. */
  lemma MaxOfNegated(s: seq<int>)
    requires |s| > 0
    ensures SeqMax(Negate(s)) == -SeqMin(s)
    ensures SeqMin(Negate(s)) == -SeqMax(s)
  {
    var n := Negate(s);
    var hi := SeqMax(n);
    var j :| 0 <= j < |n| && n[j] == hi;
    var lo := SeqMin(s);
    var i :| 0 <= i < |s| && s[i] == lo;
    assert n[i] == -lo;
    var lo' := SeqMin(n);
    var j' :| 0 <= j' < |n| && n[j'] == lo';
    var hi' := SeqMax(s);
    var i' :| 0 <= i' < |s| && s[i'] == hi';
    assert n[i'] == -hi';
  }

  /**
   * Swapping the marks and the player to move negates the game value, on
   * every board where the two players do not both own a line (such a board
   * cannot arise in play; there the human's line is reported first).
   */
  lemma {:induction false} ValueRelabel(b: Board, p: Player)
    requires !(CheckWin(b, Human) && CheckWin(b, Ai))
    ensures Value(Relabel(b), Opponent(p)) == -Value(b, p)
    decreases EmptyCount(b), 1, 0
  {
    GameResultRelabel(b);
    if GetGameResult(b).None? {
      var moves := AvailableMoves(b);
      AvailableMovesRelabel(b);
      ValueInPlay(b, p);
      ValueInPlay(Relabel(b), Opponent(p));
      ScoresRelabel(b, p, moves, |moves|);
      MaxOfNegated(Scores(b, p, moves, |moves|));
    }
  }

  /** The scores after relabelling are the negated scores. */
  lemma {:induction false} ScoresRelabel(b: Board, p: Player, ms: seq<nat>, n: nat)
    requires GetGameResult(b).None? && ValidMoves(b, ms) && n <= |ms|
    ensures ValidMoves(Relabel(b), ms)
    ensures Scores(Relabel(b), Opponent(p), ms, n) == Negate(Scores(b, p, ms, n))
    decreases EmptyCount(b), 0, n + 1
  {
    assert forall j :: 0 <= j < |ms| ==> Relabel(b)[ms[j]] == SwapMark(b[ms[j]]);
    if n > 0 {
      ScoresRelabel(b, p, ms, n - 1);
      ChildValueRelabel(b, p, ms[n - 1]);
      NegateSnoc(Scores(b, p, ms, n - 1), ChildValue(b, p, ms[n - 1]));
    }
  }

  /** The value of a child board negates under relabelling. */
  lemma {:induction false} ChildValueRelabel(b: Board, p: Player, m: nat)
    requires GetGameResult(b).None? && m < 9 && b[m] == Empty
    ensures Relabel(b)[m] == Empty
    ensures ChildValue(Relabel(b), Opponent(p), m) == -ChildValue(b, p, m)
    decreases EmptyCount(b), 0, 0
  {
    var child: Board := b[m := Mark(p)];
    assert Relabel(b)[m := Mark(Opponent(p))] == Relabel(child);
    GameResultCases(b);
    PlaceKeepsOpponentLineless(b, p, m);
    EmptyCountPlace(b, m, Mark(p));
    ValueRelabel(child, Opponent(p));
  }

  lemma NegateSnoc(s: seq<int>, x: int)
    ensures Negate(s + [x]) == Negate(s) + [-x]
  {
  }
}
