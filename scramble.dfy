/**
 * The scramble loop of `asyncScramblePuzzle` (src/lib/game-helper.ts): a random walk
 * of legal moves that stops once enough moves were made and the board is far enough
 * from the goal by the Manhattan measure.
 *
 * The interval timer becomes a number of callbacks, `ticks`; the random index becomes
 * a nondeterministic choice among the offered moves.
 */
module Scramble {
  import opened Wrappers
  import opened Board
  import opened Solver

  /** The stop test of the interval callback. */
  predicate Stops(moveCount: int, difficultyScore: int, moves: int, minDifficulty: int)
  {
    moveCount >= moves && difficultyScore >= minDifficulty
  }

  /** The `difficultyScore` the callback sees after `k` moves of `walk`: 0 before the
      first move, the Manhattan distance of the current board after it. */
  function ScoreAfter(walk: seq<seq<int>>, k: nat): (score: int)
    requires k < |walk|
    ensures score >= 0
    ensures k == 0 ==> score == 0
    ensures k > 0 ==> score == CalculateManhattanDistance(walk[k])
  {
    if k == 0 then 0 else CalculateManhattanDistance(walk[k])
  }

  /** A legal move keeps the solvability verdict. */
  lemma StepKeepsSolvable(a: seq<int>, c: seq<int>)
    requires Step(a, c)
    ensures Solvable(c) == Solvable(a)
  {
    var k :| 0 <= k < |Successors(a)| && Successors(a)[k] == c;
    assert ValidMoves(a)[k] in ValidMoves(a);
    MoveKeepsSolvable(a, ValidMoves(a)[k]);
  }

  /** Every board of a walk has the solvability verdict of its first board. */
  lemma {:induction false} WalkKeepsSolvable(w: seq<seq<int>>)
    requires IsWalk(w)
    ensures forall k :: 0 <= k < |w| ==> Solvable(w[k]) == Solvable(w[0])
  {
    if |w| > 1 {
      var init := w[..|w| - 1];
      assert IsWalk(init) by {
        forall k | 0 <= k < |init| - 1 ensures Step(init[k], init[k + 1]) {
          assert init[k] == w[k] && init[k + 1] == w[k + 1];
        }
      }
      WalkKeepsSolvable(init);
      assert Step(w[|w| - 2], w[|w| - 1]);
      StepKeepsSolvable(w[|w| - 2], w[|w| - 1]);
      forall k | 0 <= k < |w| ensures Solvable(w[k]) == Solvable(w[0]) {
        if k < |w| - 1 { assert w[k] == init[k]; }
      }
    }
  }

  /** A walk that did not stop at any of its boards grows by one legal move: the longer
      walk still starts where it did, and the scores it has seen are unchanged. */
  lemma WalkGrows(walk: seq<seq<int>>, next: seq<int>, moves: int, minDifficulty: int)
    requires IsWalk(walk) && Step(walk[|walk| - 1], next)
    requires forall k :: 0 <= k < |walk| ==> !Stops(k, ScoreAfter(walk, k), moves, minDifficulty)
    ensures IsWalk(walk + [next]) && (walk + [next])[0] == walk[0] && (walk + [next])[|walk|] == next
    ensures forall k :: 0 <= k < |walk| ==> !Stops(k, ScoreAfter(walk + [next], k), moves, minDifficulty)
    ensures ScoreAfter(walk + [next], |walk|) == CalculateManhattanDistance(next)
  {
    var w := walk + [next];
    forall k | 0 <= k < |w| - 1 ensures Step(w[k], w[k + 1]) {
      if k < |walk| - 1 { assert w[k] == walk[k] && w[k + 1] == walk[k + 1]; }
      else { assert w[k] == walk[|walk| - 1] && w[k + 1] == next; }
    }
    forall k | 0 <= k < |walk| ensures !Stops(k, ScoreAfter(w, k), moves, minDifficulty) {
      assert w[k] == walk[k];
      assert ScoreAfter(w, k) == ScoreAfter(walk, k);
    }
  }

  /** One callback that does not stop: slide a randomly chosen offered tile into the blank. */
  method ScrambleStep(scrambledPuzzle: seq<int>) returns (next: seq<int>)
    requires IsBoard(scrambledPuzzle)
    ensures Step(scrambledPuzzle, next)
  {
    var validMoves := ValidMoves(scrambledPuzzle);
    ValidMovesAreNeighbours(scrambledPuzzle);
    var randomIndex :| 0 <= randomIndex < |validMoves|;
    next := Swap(scrambledPuzzle, IndexOf(scrambledPuzzle, 0), validMoves[randomIndex]);
    assert next == Successors(scrambledPuzzle)[randomIndex];
  }

  /**
   * `asyncScramblePuzzle` driven for at most `ticks` callbacks. `Some(board)` is the
   * resolved board; `None` means the promise is still pending after `ticks` callbacks.
   * `walk` records the boards the loop went through.
   */
  method AsyncScramblePuzzle(puzzle: seq<int>, moves: int, minDifficulty: int, ticks: nat)
    returns (result: Option<seq<int>>, ghost walk: seq<seq<int>>)
    requires IsBoard(puzzle)
    ensures IsWalk(walk) && walk[0] == puzzle
    ensures forall k :: 0 <= k < |walk| - 1 ==> !Stops(k, ScoreAfter(walk, k), moves, minDifficulty)
    ensures result.Some? ==>
      |walk| <= ticks && result.value == walk[|walk| - 1]
      && Stops(|walk| - 1, ScoreAfter(walk, |walk| - 1), moves, minDifficulty)
    ensures result.None? ==> |walk| == ticks + 1
    ensures result.Some? ==>
      IsBoard(result.value) && CalculateManhattanDistance(result.value) >= minDifficulty
      && Solvable(result.value) == Solvable(puzzle)
  {
    var scrambledPuzzle := puzzle;
    var moveCount := 0;
    var difficultyScore := 0;
    walk := [puzzle];
    var tick := 0;
    while tick < ticks
      invariant 0 <= tick <= ticks && moveCount == tick && |walk| == tick + 1
      invariant IsWalk(walk) && walk[0] == puzzle && walk[tick] == scrambledPuzzle
      invariant IsBoard(scrambledPuzzle)
      invariant difficultyScore == ScoreAfter(walk, tick)
      invariant forall k :: 0 <= k < tick ==> !Stops(k, ScoreAfter(walk, k), moves, minDifficulty)
    {
      if moveCount >= moves && difficultyScore >= minDifficulty {
        ResolvedScramble(puzzle, moves, minDifficulty, scrambledPuzzle, walk);
        return Some(scrambledPuzzle), walk;
      }
      var next := ScrambleStep(scrambledPuzzle);
      StepKeepsBoard(scrambledPuzzle, next);
      WalkGrows(walk, next, moves, minDifficulty);
      walk := walk + [next];
      scrambledPuzzle := next;
      difficultyScore := CalculateManhattanDistance(scrambledPuzzle);
      moveCount := moveCount + 1;
      tick := tick + 1;
    }
    return None, walk;
  }

  /** What a resolved scramble promises: a board reached from the input by at least
      `moves` legal moves, at Manhattan distance at least `minDifficulty` from the goal,
      and as solvable as the input, so solvable when the input is the goal. */
  lemma ResolvedScramble(puzzle: seq<int>, moves: int, minDifficulty: int,
                         result: seq<int>, walk: seq<seq<int>>)
    requires IsWalk(walk) && walk[0] == puzzle
    requires result == walk[|walk| - 1]
    requires Stops(|walk| - 1, ScoreAfter(walk, |walk| - 1), moves, minDifficulty)
    ensures IsBoard(result) && |walk| - 1 >= moves
    ensures CalculateManhattanDistance(result) >= minDifficulty
    ensures Solvable(result) == Solvable(puzzle)
    ensures puzzle == SOLVED_STATE ==> Solvable(result)
  {
    WalkBoards(walk);
    WalkKeepsSolvable(walk);
    SolvedIsSolvable();
  }
}
