/**
 * Minimax search of the tic-tac-toe engine. The pure functions `Value`,
 * `AvailableMoves` and `BestMove` say what the search computes; the methods
 * `GetAvailableMoves`, `Minimax` and `GetBestMoveIndex` do it the way the
 * game does, writing marks into the shared board array and clearing them.
 */
module Search {
  import opened Wrappers
  import opened Evaluator

  /** Number of empty cells: the measure that every placed mark decreases. */
  function EmptyCount(s: seq<Cell>): nat {
    if s == [] then 0
    else (if s[0] == Empty then 1 else 0) + EmptyCount(s[1..])
  }

  /** Filling an empty cell leaves one empty cell fewer. */
  lemma {:induction false} EmptyCountPlace(s: seq<Cell>, i: nat, c: Cell)
    requires i < |s| && s[i] == Empty && c != Empty
    ensures EmptyCount(s[i := c]) == EmptyCount(s) - 1
  {
    if i == 0 {
      assert s[i := c][1..] == s[1..];
    } else {
      assert s[i := c][1..] == s[1..][i - 1 := c];
      EmptyCountPlace(s[1..], i - 1, c);
    }
  }

  /**
   * The empty indices of `s`, in the order the accumulator of the game's
   * `reduce` collects them.
   */
  function AvailableMoves(s: seq<Cell>): seq<nat> {
    if s == [] then []
    else AvailableMoves(s[..|s| - 1]) + (if s[|s| - 1] == Empty then [|s| - 1] else [])
  }

  /**
   * The available moves are exactly the empty indices, each listed once, in
   * strictly ascending order.
   */
  lemma {:induction false} AvailableMovesExact(s: seq<Cell>)
    ensures forall i: int :: i in AvailableMoves(s) <==> 0 <= i < |s| && s[i] == Empty
    ensures StrictlyIncreasing(AvailableMoves(s))
  {
    if s != [] {
      var earlier := AvailableMoves(s[..|s| - 1]);
      AvailableMovesExact(s[..|s| - 1]);
      assert forall j :: 0 <= j < |earlier| ==> earlier[j] in earlier;
    }
  }

  /** A board still in play has an available move. */
  lemma InPlayHasMove(b: Board)
    requires GetGameResult(b).None?
    ensures |AvailableMoves(b)| > 0
  {
    GameResultCases(b);
    AvailableMovesExact(b);
    var k :| 0 <= k < 9 && b[k] == Empty;
    assert k in AvailableMoves(b);
  }

  /** Every listed move is an empty cell of `b`. */
  predicate ValidMoves(b: Board, ms: seq<nat>) {
    forall j :: 0 <= j < |ms| ==> ms[j] < 9 && b[ms[j]] == Empty
  }

  predicate StrictlyIncreasing(ms: seq<nat>) {
    forall j, k :: 0 <= j < k < |ms| ==> ms[j] < ms[k]
  }

  lemma AvailableMovesValid(b: Board)
    ensures ValidMoves(b, AvailableMoves(b)) && StrictlyIncreasing(AvailableMoves(b))
  {
    var ms := AvailableMoves(b);
    AvailableMovesExact(b);
    forall j | 0 <= j < |ms| ensures ms[j] < 9 && b[ms[j]] == Empty {
      assert ms[j] in ms;
    }
  }

  /** `Math.max` over a non-empty list of scores. */
  function SeqMax(s: seq<int>): (r: int)
    requires |s| > 0
    ensures r in s && forall j :: 0 <= j < |s| ==> s[j] <= r
  {
    if |s| == 1 then s[0]
    else
      var rest := SeqMax(s[1..]);
      if s[0] >= rest then s[0] else rest
  }

  /** `Math.min` over a non-empty list of scores. */
  function SeqMin(s: seq<int>): (r: int)
    requires |s| > 0
    ensures r in s && forall j :: 0 <= j < |s| ==> r <= s[j]
  {
    if |s| == 1 then s[0]
    else
      var rest := SeqMin(s[1..]);
      if s[0] <= rest then s[0] else rest
  }

  /**
   * Game value of `b` with `p` to move, from the computer's side: the game
   * result on a finished board, otherwise the maximum (computer to move) or
   * minimum (human to move) of the values after each available move.
   */
  function Value(b: Board, p: Player): (r: int)
    ensures -1 <= r <= 1
    decreases EmptyCount(b), 1, 0
  {
    match GetGameResult(b)
    case Some(v) => v
    case None =>
      var moves := AvailableMoves(b);
      AvailableMovesValid(b);
      InPlayHasMove(b);
      var scores := Scores(b, p, moves, |moves|);
      if p == Ai then SeqMax(scores) else SeqMin(scores)
  }

  /** Value of the board after `p` marks the empty cell `m`, the opponent to move. */
  function ChildValue(b: Board, p: Player, m: nat): (r: int)
    requires m < 9 && b[m] == Empty
    ensures -1 <= r <= 1
    decreases EmptyCount(b), 0, 0
  {
    EmptyCountPlace(b, m, Mark(p));
    Value(b[m := Mark(p)], Opponent(p))
  }

  /**
   * The scores of the first `n` moves of `ms`, in order: the list the
   * game's `availableMoves.map` has built after `n` steps.
   */
  function Scores(b: Board, p: Player, ms: seq<nat>, n: nat): (r: seq<int>)
    requires ValidMoves(b, ms) && n <= |ms|
    ensures |r| == n && forall j :: 0 <= j < n ==> -1 <= r[j] <= 1
    decreases EmptyCount(b), 0, n + 1
  {
    if n == 0 then []
    else Scores(b, p, ms, n - 1) + [ChildValue(b, p, ms[n - 1])]
  }

  /** The j-th score is the value of the j-th move. */
  lemma {:induction false} ScoresAt(b: Board, p: Player, ms: seq<nat>, n: nat, j: nat)
    requires ValidMoves(b, ms) && j < n <= |ms|
    ensures Scores(b, p, ms, n)[j] == ChildValue(b, p, ms[j])
    decreases n
  {
    if j < n - 1 {
      ScoresAt(b, p, ms, n - 1, j);
    }
  }

  /**
   * Minimax meaning of `Value`: on a finished board it is the game result;
   * otherwise it is attained by some empty cell and no empty cell does better
   * for the player to move (the computer maximises, the human minimises).
   */
  lemma ValueIsMinimax(b: Board, p: Player)
    ensures GetGameResult(b).Some? ==> Value(b, p) == GetGameResult(b).value
    ensures GetGameResult(b).None? ==>
      (exists m :: 0 <= m < 9 && b[m] == Empty && ChildValue(b, p, m) == Value(b, p)) &&
      (forall m :: 0 <= m < 9 && b[m] == Empty ==> NoWorse(p, Value(b, p), ChildValue(b, p, m)))
  {
    if GetGameResult(b).None? {
      ValueInPlay(b, p);
      AvailableMovesExact(b);
      var moves := AvailableMoves(b);
      var scores := Scores(b, p, moves, |moves|);
      assert Value(b, p) in scores;
      var j :| 0 <= j < |scores| && scores[j] == Value(b, p);
      ScoresAt(b, p, moves, |moves|, j);
      forall m | 0 <= m < 9 && b[m] == Empty
        ensures NoWorse(p, Value(b, p), ChildValue(b, p, m))
      {
        assert m in moves;
        var i :| 0 <= i < |moves| && moves[i] == m;
        ScoresAt(b, p, moves, |moves|, i);
      }
    }
  }

  /** On a board still in play, `Value` folds the scores of all available moves. */
  lemma ValueInPlay(b: Board, p: Player)
    requires GetGameResult(b).None?
    ensures |AvailableMoves(b)| > 0
    ensures ValidMoves(b, AvailableMoves(b))
    ensures var scores := Scores(b, p, AvailableMoves(b), |AvailableMoves(b)|);
            Value(b, p) == if p == Ai then SeqMax(scores) else SeqMin(scores)
  {
    AvailableMovesValid(b);
    InPlayHasMove(b);
  }

  /** `best` is at least as good as `s` for `p`. */
  predicate NoWorse(p: Player, best: int, s: int) {
    if p == Ai then s <= best else best <= s
  }

  /** `getAvailableMoves`: collect the empty indices of the array in one pass. */
  method GetAvailableMoves(board: array<Cell>) returns (moves: seq<nat>)
    ensures moves == AvailableMoves(board[..])
  {
    moves := [];
    var i := 0;
    while i < board.Length
      invariant 0 <= i <= board.Length
      invariant moves == AvailableMoves(board[..i])
    {
      assert board[..i + 1][..i] == board[..i];
      if board[i] == Empty {
        moves := moves + [i];
      }
      i := i + 1;
    }
    assert board[..board.Length] == board[..];
  }

  /**
   * `minimax`: score the board for `p` to move by trying each empty cell in
   * place and taking the maximum (computer) or minimum (human) of the scores.
   * The board is returned exactly as it was received.
   */
  method Minimax(board: array<Cell>, p: Player) returns (score: int)
    requires board.Length == 9
    modifies board
    ensures board[..] == old(board[..])
    ensures score == Value(old(board[..]), p)
    decreases EmptyCount(board[..]), 1
  {
    ghost var b: Board := board[..];
    var result := GetGameResult(board[..]);
    if result.Some? {
      return result.value;
    }
    var moves := GetAvailableMoves(board);
    ValueInPlay(b, p);
    var scores: seq<int> := [];
    var i := 0;
    while i < |moves|
      invariant 0 <= i <= |moves|
      invariant board[..] == b
      invariant scores == Scores(b, p, moves, i)
    {
      var s := TryMove(board, p, moves[i]);
      scores := scores + [s];
      i := i + 1;
    }
    if p == Ai {
      score := SeqMax(scores);
    } else {
      score := SeqMin(scores);
    }
  }

  /**
   * The body shared by the scoring loop of `minimax` and that of
   * `getBestMoveIndex`: mark cell `m` for `p`, score the result with the
   * opponent to move, and clear the cell again.
   */
  method TryMove(board: array<Cell>, p: Player, m: nat) returns (score: int)
    requires board.Length == 9 && m < 9 && board[m] == Empty
    modifies board
    ensures board[..] == old(board[..])
    ensures score == ChildValue(old(board[..]), p, m)
    decreases EmptyCount(board[..]), 0
  {
    ghost var b := board[..];
    board[m] := Mark(p);
    assert board[..] == b[m := Mark(p)];
    EmptyCountPlace(b, m, Mark(p));
    score := Minimax(board, Opponent(p));
    board[m] := Empty;
    assert board[..] == b;
  }

  /** The running state of the `getBestMoveIndex` loop: best score so far and its move. */
  datatype Choice = Choice(score: int, move: Option<nat>)

  /**
   * The starting best score, standing for the game's -Infinity (computer)
   * and Infinity (human): every score in [-1, 1] beats it.
   */
  function Sentinel(p: Player): int {
    if p == Ai then -2 else 2
  }

  /** Strict improvement: `>` for the computer, `<` for the human. */
  predicate Improves(p: Player, s: int, best: int) {
    if p == Ai then s > best else s < best
  }

  /**
   * The loop state of `getBestMoveIndex` after the first `n` of the moves
   * `ms` have been tried, `scores[j]` being the score of move `ms[j]`.
   */
  function BestOf(p: Player, ms: seq<nat>, scores: seq<int>, n: nat): Choice
    requires |scores| == |ms| && n <= |ms|
  {
    if n == 0 then Choice(Sentinel(p), None)
    else
      var c := BestOf(p, ms, scores, n - 1);
      if Improves(p, scores[n - 1], c.score) then Choice(scores[n - 1], Some(ms[n - 1])) else c
  }

  /**
   * One iteration of the loop keeps the new move only on a strict
   * improvement, written as the game's two separate branches.
   */
  lemma BestOfStep(p: Player, ms: seq<nat>, scores: seq<int>, i: nat, bestScore: int, bestMove: Option<nat>)
    requires |scores| == |ms| && i < |ms|
    requires Choice(bestScore, bestMove) == BestOf(p, ms, scores, i)
    ensures BestOf(p, ms, scores, i + 1) ==
      if (p == Ai && scores[i] > bestScore) || (p == Human && scores[i] < bestScore)
      then Choice(scores[i], Some(ms[i])) else Choice(bestScore, bestMove)
  {
  }

  /** The move `getBestMoveIndex` returns: None when no cell is empty. */
  function BestMove(b: Board, p: Player): Option<nat> {
    AvailableMovesValid(b);
    var moves := AvailableMoves(b);
    BestOf(p, moves, Scores(b, p, moves, |moves|), |moves|).move
  }

  /**
   * After `n` moves the loop holds a move exactly when `n > 0`; that move is
   * one of those tried, its score is the one kept, no tried move scores better
   * for `p`, and no earlier (smaller) tried move scores the same.
   */
  lemma {:induction false} BestOfIsFirstBest(p: Player, ms: seq<nat>, scores: seq<int>, n: nat)
    requires |scores| == |ms| && n <= |ms| && StrictlyIncreasing(ms)
    requires forall j :: 0 <= j < |scores| ==> -1 <= scores[j] <= 1
    ensures var c := BestOf(p, ms, scores, n);
      (c.move.None? <==> n == 0) &&
      (c.move.Some? ==>
        (exists i :: 0 <= i < n && ms[i] == c.move.value && scores[i] == c.score) &&
        (forall j :: 0 <= j < n ==> NoWorse(p, c.score, scores[j])) &&
        (forall j :: 0 <= j < n && ms[j] < c.move.value ==> scores[j] != c.score))
  {
    if n > 0 {
      BestOfIsFirstBest(p, ms, scores, n - 1);
      var prev := BestOf(p, ms, scores, n - 1);
      if !Improves(p, scores[n - 1], prev.score) {
        assert prev.move.Some?;
        var i :| 0 <= i < n - 1 && ms[i] == prev.move.value && scores[i] == prev.score;
        assert ms[i] < ms[n - 1];
      }
    }
  }

  /**
   * `getBestMoveIndex` returns None exactly when the board is full; otherwise
   * an empty cell whose score is the best for `p` among all empty cells, and
   * no smaller empty cell reaches that score (the strict comparison keeps the
   * first best move).
   */
  lemma BestMoveIsFirstBest(b: Board, p: Player)
    ensures BestMove(b, p).None? <==> forall i :: 0 <= i < 9 ==> b[i] != Empty
    ensures BestMove(b, p).Some? ==>
      var m := BestMove(b, p).value;
      m < 9 && b[m] == Empty &&
      (forall j :: 0 <= j < 9 && b[j] == Empty ==> NoWorse(p, ChildValue(b, p, m), ChildValue(b, p, j))) &&
      (forall j :: 0 <= j < m && b[j] == Empty ==> ChildValue(b, p, j) != ChildValue(b, p, m))
  {
    BestMoveNoneIffFull(b, p);
    if BestMove(b, p).Some? {
      BestMoveBeatsEveryCell(b, p);
    }
  }

  /** No move is returned exactly when the board is full. */
  lemma BestMoveNoneIffFull(b: Board, p: Player)
    ensures BestMove(b, p).None? <==> forall i :: 0 <= i < 9 ==> b[i] != Empty
  {
    var moves := AvailableMoves(b);
    AvailableMovesValid(b);
    AvailableMovesExact(b);
    var scores := Scores(b, p, moves, |moves|);
    BestOfIsFirstBest(p, moves, scores, |moves|);
    if BestOf(p, moves, scores, |moves|).move.None? {
      assert moves == [];
    } else {
      assert moves[0] in moves;
    }
  }

  /** A returned move is empty, no worse than any empty cell, and the first such. */
  lemma BestMoveBeatsEveryCell(b: Board, p: Player)
    requires BestMove(b, p).Some?
    ensures
      var m := BestMove(b, p).value;
      m < 9 && b[m] == Empty &&
      (forall j :: 0 <= j < 9 && b[j] == Empty ==> NoWorse(p, ChildValue(b, p, m), ChildValue(b, p, j))) &&
      (forall j :: 0 <= j < m && b[j] == Empty ==> ChildValue(b, p, j) != ChildValue(b, p, m))
  {
    var moves := AvailableMoves(b);
    AvailableMovesValid(b);
    AvailableMovesExact(b);
    var scores := Scores(b, p, moves, |moves|);
    BestOfIsFirstBest(p, moves, scores, |moves|);
    var c := BestOf(p, moves, scores, |moves|);
    var k :| 0 <= k < |moves| && moves[k] == c.move.value && scores[k] == c.score;
    ScoresAt(b, p, moves, |moves|, k);
    var m := c.move.value;
    forall j | 0 <= j < 9 && b[j] == Empty
      ensures NoWorse(p, ChildValue(b, p, m), ChildValue(b, p, j))
      ensures j < m ==> ChildValue(b, p, j) != ChildValue(b, p, m)
    {
      assert j in moves;
      var i :| 0 <= i < |moves| && moves[i] == j;
      ScoresAt(b, p, moves, |moves|, i);
    }
  }

  /**
   * On a board still in play the chosen move reaches the minimax value of
   * the board: the move is optimal for `p`.
   */
  lemma BestMoveAttainsValue(b: Board, p: Player)
    requires GetGameResult(b).None?
    ensures BestMove(b, p).Some? &&
            var m := BestMove(b, p).value;
            m < 9 && b[m] == Empty && ChildValue(b, p, m) == Value(b, p)
  {
    GameResultCases(b);
    BestMoveIsFirstBest(b, p);
    ValueIsMinimax(b, p);
  }

  /**
   * `getBestMoveIndex`: try every empty cell in ascending order, keeping the
   * first one whose score strictly beats the best so far. The board is
   * returned exactly as it was received.
   */
  method GetBestMoveIndex(board: array<Cell>, p: Player) returns (best: Option<nat>)
    requires board.Length == 9
    modifies board
    ensures board[..] == old(board[..])
    ensures best == BestMove(old(board[..]), p)
  {
    ghost var b: Board := board[..];
    var moves := GetAvailableMoves(board);
    AvailableMovesValid(b);
    ghost var scores := Scores(b, p, moves, |moves|);
    var bestMoveIndex: Option<nat> := None;
    var bestScore := Sentinel(p);
    var i := 0;
    while i < |moves|
      invariant 0 <= i <= |moves|
      invariant board[..] == b
      invariant Choice(bestScore, bestMoveIndex) == BestOf(p, moves, scores, i)
    {
      var moveIndex := moves[i];
      var score := TryMove(board, p, moveIndex);
      ScoresAt(b, p, moves, |moves|, i);
      // The two branches below are the game's own; BestOfStep equates them with `Improves`.
      BestOfStep(p, moves, scores, i, bestScore, bestMoveIndex);
      if p == Ai && score > bestScore {
        bestScore := score;
        bestMoveIndex := Some(moveIndex);
      } else if p == Human && score < bestScore {
        bestScore := score;
        bestMoveIndex := Some(moveIndex);
      }
      i := i + 1;
    }
    best := bestMoveIndex;
  }
}
