/**
 * The 3x3 board of src/lib/game-helper.ts: the goal arrangement, the difficulty
 * profiles, `swap`, `getValidMoves` and `calculateManhattanDistance`, together with
 * the facts about boards that the solver and the scrambler rely on.
 *
 * A board is a sequence of nine cells in row-major order; cell `i` lies in row
 * `i / 3` and column `i % 3`, and the value 0 is the blank.
 */
module Board {

  /** `SOLVED_STATE`: tiles 1..8 in order, the blank in the last cell. */
  const SOLVED_STATE: seq<int> := [1, 2, 3, 4, 5, 6, 7, 8, 0]

  /** The difficulties a player can choose. */
  datatype Difficulty = Easy | Medium | Hard

  /** A scramble profile: how many random moves at least, and how far from the goal at least. */
  datatype Profile = Profile(moves: int, minDifficulty: int)

  /** `scores`: the profile of each difficulty. */
  function Scores(difficulty: Difficulty): Profile
  {
    match difficulty
    case Easy => Profile(5, 10)
    case Medium => Profile(25, 15)
    case Hard => Profile(30, 20)
  }

  lemma ScoresTable()
    ensures Scores(Easy) == Profile(5, 10)
    ensures Scores(Medium) == Profile(25, 15)
    ensures Scores(Hard) == Profile(30, 20)
  {
  }

  /* ---------------------------------------------------------------- arithmetic */

  function Abs(x: int): nat { if x < 0 then -x else x }

  /** JavaScript's `%`, whose remainder takes the sign of the dividend: for a negative
      dividend it is the floored remainder less the divisor, unless that is zero. (The
      code's rounded-down quotients need no helper: Dafny's `/` rounds down for a
      positive divisor.) */
  function JsRem(a: int, b: int): (r: int)
    requires b > 0
    ensures a >= 0 ==> r == a % b
    ensures a < 0 ==> -b < r <= 0 && r == if a % b == 0 then 0 else a % b - b
  {
    if a >= 0 then a % b else JsRemNegative(a, b); -((-a) % b)
  }

  /** For a negative dividend the truncated remainder is the floored one moved down by
      the divisor, unless both are zero. */
  lemma JsRemNegative(a: int, b: int)
    requires b > 0 && a < 0
    ensures -((-a) % b) == if a % b == 0 then 0 else a % b - b
  {
    var q, s := (-a) / b, (-a) % b;
    if s == 0 {
      DivModUnique(a, b, -q, 0);
    } else {
      DivModUnique(a, b, -q - 1, b - s);
    }
  }

  /** Division with remainder is unique: a quotient and a remainder below the divisor
      that rebuild `x` are Dafny's `/` and `%`. */
  lemma DivModUnique(x: int, d: int, q: int, r: int)
    requires d > 0 && 0 <= r < d && x == q * d + r
    ensures x / d == q && x % d == r
  {
    var k := q - x / d;
    assert k * d == x % d - r;
    assert k == 0 || k * d >= d || k * d <= -d;
  }

  /* ---------------------------------------------------------------- boards */

  /** A valid board: nine cells holding the values 0..8, no value twice. */
  predicate IsBoard(b: seq<int>)
  {
    |b| == 9
    && (forall i :: 0 <= i < 9 ==> 0 <= b[i] < 9)
    && (forall i, j :: 0 <= i < j < 9 ==> b[i] != b[j])
  }

  /** `Array.prototype.indexOf`: the first index holding `v`, or -1. */
  function IndexOf(s: seq<int>, v: int): (r: int)
    ensures -1 <= r < |s|
    ensures r == -1 <==> v !in s
    ensures r >= 0 ==> s[r] == v && forall j :: 0 <= j < r ==> s[j] != v
  {
    if |s| == 0 then -1
    else if s[0] == v then 0
    else
      var r := IndexOf(s[1..], v);
      assert forall j :: 0 < j < |s| ==> s[j] == s[1..][j - 1];
      if r == -1 then -1 else r + 1
  }

  /** Position of the blank (`puzzle.indexOf(0)`). */
  function Blank(b: seq<int>): int
  {
    IndexOf(b, 0)
  }

  /** A sequence without repetitions has no more elements than any set containing them all. */
  lemma {:induction false} DistinctBound<T>(s: seq<T>, u: set<T>)
    requires forall i, j :: 0 <= i < j < |s| ==> s[i] != s[j]
    requires forall i :: 0 <= i < |s| ==> s[i] in u
    ensures |s| <= |u|
  {
    if |s| > 0 {
      var t := s[1..];
      forall i | 0 <= i < |t| ensures t[i] in u - {s[0]} {
        assert t[i] == s[i + 1] && s[0] != s[i + 1];
      }
      DistinctBound(t, u - {s[0]});
    }
  }

  /** The set of values 0..n-1, which has n elements. */
  ghost function Range(n: nat): (r: set<int>)
    ensures |r| == n
    ensures forall x :: x in r <==> 0 <= x < n
  {
    if n == 0 then {} else Range(n - 1) + {n - 1}
  }

  /** Pigeonhole: `n` distinct values below `n` include every value below `n`. */
  lemma Pigeonhole(s: seq<int>, n: nat, v: int)
    requires |s| == n && 0 <= v < n
    requires forall i :: 0 <= i < n ==> 0 <= s[i] < n
    requires forall i, j :: 0 <= i < j < n ==> s[i] != s[j]
    ensures v in s
  {
    if v !in s {
      var u := Range(n) - {v};
      assert v in Range(n);
      forall i | 0 <= i < |s| ensures s[i] in u {
        assert s[i] != v;
      }
      DistinctBound(s, u);
    }
  }

  /** A board holds every value 0..8, the blank included. */
  lemma AllValuesPresent(b: seq<int>, v: int)
    requires IsBoard(b) && 0 <= v < 9
    ensures v in b
  {
    Pigeonhole(b, 9, v);
  }

  /** On a board, `indexOf` finds the unique cell holding a value. */
  lemma BoardIndexOf(b: seq<int>, i: int)
    requires IsBoard(b) && 0 <= i < 9
    ensures IndexOf(b, b[i]) == i
  {
    assert b[i] in b;
  }

  /** The blank of a board is one of its nine cells. */
  lemma BlankOfBoard(b: seq<int>)
    requires IsBoard(b)
    ensures 0 <= Blank(b) < 9 && b[Blank(b)] == 0
  {
    AllValuesPresent(b, 0);
  }

  /* ---------------------------------------------------------------- swap */

  /** `swap`: a copy of `puzzle` with cells `i` and `j` exchanged. */
  function Swap(puzzle: seq<int>, i: int, j: int): (r: seq<int>)
    requires 0 <= i < |puzzle| && 0 <= j < |puzzle|
    ensures |r| == |puzzle| && r[i] == puzzle[j] && r[j] == puzzle[i]
    ensures forall k :: 0 <= k < |puzzle| && k != i && k != j ==> r[k] == puzzle[k]
  {
    puzzle[i := puzzle[j]][j := puzzle[i]]
  }

  /** Swapping the same two cells twice gives back the original sequence. */
  lemma SwapInvolution(puzzle: seq<int>, i: int, j: int)
    requires 0 <= i < |puzzle| && 0 <= j < |puzzle|
    ensures Swap(Swap(puzzle, i, j), i, j) == puzzle
  {
    var twice := Swap(Swap(puzzle, i, j), i, j);
    assert forall k :: 0 <= k < |puzzle| ==> twice[k] == puzzle[k];
  }

  /** Swapping keeps the multiset of tiles, so it maps boards to boards. */
  lemma SwapKeepsBoard(b: seq<int>, i: int, j: int)
    requires IsBoard(b) && 0 <= i < 9 && 0 <= j < 9
    ensures IsBoard(Swap(b, i, j))
    ensures multiset(Swap(b, i, j)) == multiset(b)
  {
    var r := Swap(b, i, j);
    forall p, q | 0 <= p < q < 9 ensures r[p] != r[q] {
      var p' := if p == i then j else if p == j then i else p;
      var q' := if q == i then j else if q == j then i else q;
      assert r[p] == b[p'] && r[q] == b[q'] && p' != q';
      if p' > q' { assert b[q'] != b[p']; }
    }
    SwapMultiset(b, i, j);
  }

  /** A swap only reorders the tiles. */
  lemma SwapMultiset(b: seq<int>, i: int, j: int)
    requires IsBoard(b) && 0 <= i < 9 && 0 <= j < 9
    ensures multiset(Swap(b, i, j)) == multiset(b)
  {
    var r := Swap(b, i, j);
    if i == j {
      assert r == b;
    } else {
      calc {
        multiset(r);
        == { assert r == b[i := b[j]][j := b[i]]; }
        multiset(b[i := b[j]])[b[j] := multiset(b[i := b[j]])[b[j]] - 1][b[i] := multiset(b[i := b[j]])[b[i]] + 1];
        == multiset(b);
      }
    }
  }

  /* ---------------------------------------------------------------- moves */

  /** The cells `getValidMoves` offers when the blank is at `emptyIndex`, in the code's
      order: up, down, left, right. */
  function MovesFrom(emptyIndex: int): (moves: seq<int>)
  {
    (if emptyIndex > 2 then [emptyIndex - 3] else [])
    + (if emptyIndex < 6 then [emptyIndex + 3] else [])
    + (if JsRem(emptyIndex, 3) != 0 then [emptyIndex - 1] else [])
    + (if JsRem(emptyIndex, 3) != 2 then [emptyIndex + 1] else [])
  }

  /** `getValidMoves`: the cells whose tile may slide into the blank. */
  function ValidMoves(puzzle: seq<int>): seq<int>
  {
    MovesFrom(IndexOf(puzzle, 0))
  }

  /** Grid adjacency, the reference definition of a legal move: same row and
      neighbouring columns, or same column and neighbouring rows. */
  predicate Adjacent(p: int, q: int)
    requires 0 <= p < 9 && 0 <= q < 9
  {
    (p / 3 == q / 3 && Abs(p % 3 - q % 3) == 1) || (p % 3 == q % 3 && Abs(p / 3 - q / 3) == 1)
  }

  /** The offered cells are exactly the grid neighbours of the blank, each once, and
      there are two of them in a corner, three on an edge and four in the centre. */
  lemma MovesFromNeighbours(e: int)
    requires 0 <= e < 9
    ensures forall p :: p in MovesFrom(e) <==> 0 <= p < 9 && Adjacent(e, p)
    ensures forall k, l :: 0 <= k < l < |MovesFrom(e)| ==> MovesFrom(e)[k] != MovesFrom(e)[l]
    ensures |MovesFrom(e)| == (if e == 4 then 4 else if e % 2 == 1 then 3 else 2)
  {
    if e < 3 { TopRowMoves(e); }
    else if e < 6 { MiddleRowMoves(e); }
    else { BottomRowMoves(e); }
  }

  lemma TopRowMoves(e: int)
    requires 0 <= e < 3
    ensures forall p :: p in MovesFrom(e) <==> 0 <= p < 9 && Adjacent(e, p)
    ensures forall k, l :: 0 <= k < l < |MovesFrom(e)| ==> MovesFrom(e)[k] != MovesFrom(e)[l]
    ensures |MovesFrom(e)| == (if e == 4 then 4 else if e % 2 == 1 then 3 else 2)
  {
    if e == 0 { assert MovesFrom(e) == [3, 1]; }
    else if e == 1 { assert MovesFrom(e) == [4, 0, 2]; }
    else { assert MovesFrom(e) == [5, 1]; }
  }

  lemma MiddleRowMoves(e: int)
    requires 3 <= e < 6
    ensures forall p :: p in MovesFrom(e) <==> 0 <= p < 9 && Adjacent(e, p)
    ensures forall k, l :: 0 <= k < l < |MovesFrom(e)| ==> MovesFrom(e)[k] != MovesFrom(e)[l]
    ensures |MovesFrom(e)| == (if e == 4 then 4 else if e % 2 == 1 then 3 else 2)
  {
    if e == 3 { assert MovesFrom(e) == [0, 6, 4]; }
    else if e == 4 { assert MovesFrom(e) == [1, 7, 3, 5]; }
    else { assert MovesFrom(e) == [2, 8, 4]; }
  }

  lemma BottomRowMoves(e: int)
    requires 6 <= e < 9
    ensures forall p :: p in MovesFrom(e) <==> 0 <= p < 9 && Adjacent(e, p)
    ensures forall k, l :: 0 <= k < l < |MovesFrom(e)| ==> MovesFrom(e)[k] != MovesFrom(e)[l]
    ensures |MovesFrom(e)| == (if e == 4 then 4 else if e % 2 == 1 then 3 else 2)
  {
    if e == 6 { assert MovesFrom(e) == [3, 7]; }
    else if e == 7 { assert MovesFrom(e) == [4, 6, 8]; }
    else { assert MovesFrom(e) == [5, 7]; }
  }

  /** On a board, every offered move is a cell next to the blank; moves never wrap
      across a row: no left move from column 0 and no right move from column 2. */
  lemma ValidMovesAreNeighbours(b: seq<int>)
    requires IsBoard(b)
    ensures 0 <= Blank(b) < 9 && b[Blank(b)] == 0
    ensures forall p :: p in ValidMoves(b) <==> 0 <= p < 9 && Adjacent(Blank(b), p)
    ensures 2 <= |ValidMoves(b)| <= 4
    ensures forall k, l :: 0 <= k < l < |ValidMoves(b)| ==> ValidMoves(b)[k] != ValidMoves(b)[l]
    ensures Blank(b) % 3 == 0 ==> Blank(b) - 1 !in ValidMoves(b)
    ensures Blank(b) % 3 == 2 ==> Blank(b) + 1 !in ValidMoves(b)
  {
    BlankOfBoard(b);
    MovesFromNeighbours(Blank(b));
  }

  /** The number of moves depends only on where the blank is: two in a corner, three on
      the middle of an edge, four in the centre. */
  lemma ValidMovesCount(b: seq<int>)
    requires IsBoard(b)
    ensures Blank(b) in {0, 2, 6, 8} ==> |ValidMoves(b)| == 2
    ensures Blank(b) in {1, 3, 5, 7} ==> |ValidMoves(b)| == 3
    ensures Blank(b) == 4 ==> |ValidMoves(b)| == 4
  {
    BlankOfBoard(b);
    MovesFromNeighbours(Blank(b));
  }

  /** Sliding a tile into the blank gives a board whose blank sits where the tile was;
      the old blank cell is then a valid move, and taking it restores the board. */
  lemma MoveIsReversible(b: seq<int>, m: int)
    requires IsBoard(b) && m in ValidMoves(b)
    ensures 0 <= Blank(b) < 9 && 0 <= m < 9
    ensures IsBoard(Swap(b, Blank(b), m))
    ensures Blank(Swap(b, Blank(b), m)) == m
    ensures Blank(b) in ValidMoves(Swap(b, Blank(b), m))
    ensures Swap(Swap(b, Blank(b), m), m, Blank(b)) == b
  {
    ValidMovesAreNeighbours(b);
    var e := Blank(b);
    var b' := Swap(b, e, m);
    SwapKeepsBoard(b, e, m);
    BoardIndexOf(b', m);
    AdjacentSymmetric(e, m);
    MovesFromNeighbours(m);
    SwapBack(b, e, m);
  }

  lemma AdjacentSymmetric(p: int, q: int)
    requires 0 <= p < 9 && 0 <= q < 9
    ensures Adjacent(p, q) == Adjacent(q, p)
  {
  }

  lemma SwapBack(b: seq<int>, i: int, j: int)
    requires 0 <= i < |b| && 0 <= j < |b|
    ensures Swap(Swap(b, i, j), j, i) == b
  {
    var twice := Swap(Swap(b, i, j), j, i);
    assert forall k :: 0 <= k < |b| ==> twice[k] == b[k];
  }

  /** The boards one legal move away, in the order of `ValidMoves`. */
  function Successors(b: seq<int>): (next: seq<seq<int>>)
    requires IsBoard(b)
    ensures |next| == |ValidMoves(b)|
    ensures forall k :: 0 <= k < |next| ==>
      0 <= Blank(b) < 9 && 0 <= ValidMoves(b)[k] < 9 && next[k] == Swap(b, Blank(b), ValidMoves(b)[k])
  {
    ValidMovesAreNeighbours(b);
    var moves := ValidMoves(b);
    assert forall k :: 0 <= k < |moves| ==> moves[k] in moves;
    seq(|moves|, k requires 0 <= k < |moves| => Swap(b, Blank(b), moves[k]))
  }

  /** One legal move: the blank trades places with a neighbouring tile. */
  predicate Step(a: seq<int>, c: seq<int>)
  {
    IsBoard(a) && c in Successors(a)
  }

  /** A step leads from a board to a board, and can be undone by a step. */
  lemma StepKeepsBoard(a: seq<int>, c: seq<int>)
    requires Step(a, c)
    ensures IsBoard(c) && Step(c, a)
  {
    var k :| 0 <= k < |Successors(a)| && Successors(a)[k] == c;
    var m := ValidMoves(a)[k];
    assert m in ValidMoves(a);
    MoveIsReversible(a, m);
    var i := IndexOf(ValidMoves(c), Blank(a));
    assert Successors(c)[i] == Swap(c, m, Blank(a));
  }

  /** A sequence of boards, each reached from the previous one by one legal move. */
  predicate IsWalk(w: seq<seq<int>>)
  {
    |w| > 0 && IsBoard(w[0]) && forall k :: 0 <= k < |w| - 1 ==> Step(w[k], w[k + 1])
  }

  /** Every board on a walk is a valid board. */
  lemma WalkBoards(w: seq<seq<int>>)
    requires IsWalk(w)
    ensures forall k :: 0 <= k < |w| ==> IsBoard(w[k])
  {
    forall k | 0 <= k < |w| ensures IsBoard(w[k]) {
      if k > 0 { StepKeepsBoard(w[k - 1], w[k]); }
    }
  }

  /** A finite set holding every sequence of length `n` over the values 0..8. */
  ghost function AllSeqs(n: nat): set<seq<int>>
  {
    if n == 0 then {[]}
    else set s, v | s in AllSeqs(n - 1) && 0 <= v < 9 :: [v] + s
  }

  lemma {:induction false} InAllSeqs(s: seq<int>)
    requires forall i :: 0 <= i < |s| ==> 0 <= s[i] < 9
    ensures s in AllSeqs(|s|)
  {
    if |s| > 0 {
      InAllSeqs(s[1..]);
      assert s == [s[0]] + s[1..];
    }
  }

  /* ---------------------------------------------------------------- Manhattan distance */

  /** What one cell adds in `calculateManhattanDistance`: nothing for the blank, else the
      row and column distance from cell `index` to the tile's goal cell `value - 1`. */
  function TileDistance(value: int, index: int): nat
  {
    if value == 0 then 0
    else
      var targetIndex := value - 1;
      Abs(index / 3 - targetIndex / 3) + Abs(JsRem(index, 3) - JsRem(targetIndex, 3))
  }

  /** The running total of the reduce after the first `n` cells. */
  function ManhattanPrefix(puzzle: seq<int>, n: nat): nat
    requires n <= |puzzle|
  {
    if n == 0 then 0 else ManhattanPrefix(puzzle, n - 1) + TileDistance(puzzle[n - 1], n - 1)
  }

  /** `calculateManhattanDistance`: the sum over the non-blank tiles of their distance to
      their goal cells. It is zero exactly when every tile already sits on its goal cell. */
  function CalculateManhattanDistance(puzzle: seq<int>): (distance: nat)
    ensures distance == 0 <==> forall i :: 0 <= i < |puzzle| ==> TileDistance(puzzle[i], i) == 0
  {
    ManhattanPrefixZero(puzzle, |puzzle|);
    ManhattanPrefix(puzzle, |puzzle|)
  }

  /** A sum of non-negative cell distances is zero exactly when every one of them is. */
  lemma {:induction false} ManhattanPrefixZero(puzzle: seq<int>, n: nat)
    requires n <= |puzzle|
    ensures ManhattanPrefix(puzzle, n) == 0 <==> forall i :: 0 <= i < n ==> TileDistance(puzzle[i], i) == 0
  {
    if n > 0 { ManhattanPrefixZero(puzzle, n - 1); }
  }

  /** The goal board is at distance 0. */
  lemma ManhattanOfSolved()
    ensures CalculateManhattanDistance(SOLVED_STATE) == 0
  {
    forall i | 0 <= i < 9 ensures TileDistance(SOLVED_STATE[i], i) == 0 {
      assert SOLVED_STATE[i] == 0 || SOLVED_STATE[i] == i + 1;
    }
    ManhattanPrefixZero(SOLVED_STATE, 9);
  }

  /** A tile contributes nothing exactly when it stands on its goal cell. */
  lemma TileDistanceZero(value: int, index: int)
    requires 1 <= value < 9 && 0 <= index < 9
    ensures TileDistance(value, index) == 0 <==> index == value - 1
  {
    var t := value - 1;
    assert index == 3 * (index / 3) + index % 3 && t == 3 * (t / 3) + t % 3;
  }

  /** On a board the Manhattan distance is zero exactly at the goal. */
  lemma ManhattanZeroIffSolved(b: seq<int>)
    requires IsBoard(b)
    ensures CalculateManhattanDistance(b) == 0 <==> b == SOLVED_STATE
  {
    if b == SOLVED_STATE {
      ManhattanOfSolved();
    }
    if CalculateManhattanDistance(b) == 0 {
      ManhattanPrefixZero(b, 9);
      forall i | 0 <= i < 9 ensures b[i] == 0 || b[i] == i + 1 {
        assert TileDistance(b[i], i) == 0;
        if b[i] != 0 { TileDistanceZero(b[i], i); }
      }
      assert b[8] == 0;
      assert forall i :: 0 <= i < 9 ==> b[i] == SOLVED_STATE[i];
    }
  }

  /** The goal board is a board, with the blank in the last cell. */
  lemma SolvedIsBoard()
    ensures IsBoard(SOLVED_STATE) && Blank(SOLVED_STATE) == 8
  {
    assert forall i :: 0 <= i < 9 ==> SOLVED_STATE[i] == if i == 8 then 0 else i + 1;
    BoardIndexOf(SOLVED_STATE, 8);
  }
}
