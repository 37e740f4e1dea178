/**
 * The solver helpers of src/lib/solver.ts: the Manhattan heuristic the search ranks
 * boards by, the inversion-parity solvability test, the goal test, the detection of
 * the tile that moved between two boards, and the reconstruction of a solution path
 * from a chain of parent links.
 */
module Solver {
  import opened Wrappers
  import opened Board

  /* ---------------------------------------------------------------- heuristic */

  /** `distanceFromGoal`: row distance plus column distance between two cells. On the
      grid it is at most 4, and zero only from a cell to itself. */
  function DistanceFromGoal(currTileIndex: int, goalIndex: int): (distance: nat)
    ensures 0 <= currTileIndex < 9 && 0 <= goalIndex < 9 ==>
      distance <= 4 && (distance == 0 <==> currTileIndex == goalIndex)
  {
    assert currTileIndex == 3 * (currTileIndex / 3) + currTileIndex % 3;
    assert goalIndex == 3 * (goalIndex / 3) + goalIndex % 3;
    Abs(currTileIndex / 3 - goalIndex / 3) + Abs(JsRem(currTileIndex, 3) - JsRem(goalIndex, 3))
  }

  /** On the grid the distance is symmetric. */
  lemma DistanceProperties(i: int, g: int)
    requires 0 <= i < 9 && 0 <= g < 9
    ensures DistanceFromGoal(i, g) == DistanceFromGoal(g, i)
  {
  }

  /** `SOLVED_STATE.indexOf(tile)`, the goal cell of a tile (-1 for a value not on the
      goal board), in closed form; GoalIndexIsIndexOf shows it is that search. */
  function GoalIndex(tile: int): int
  {
    if tile == 0 then 8 else if 1 <= tile <= 8 then tile - 1 else -1
  }

  /** The closed form is what `indexOf` finds in `SOLVED_STATE`, for every value. */
  lemma GoalIndexIsIndexOf(tile: int)
    ensures GoalIndex(tile) == IndexOf(SOLVED_STATE, tile)
  {
    var g := SOLVED_STATE;
    var r := IndexOf(g, tile);
    assert r >= 0 ==> r == 0 || r == 1 || r == 2 || r == 3 || r == 4 || r == 5 || r == 6 || r == 7 || r == 8;
    if 1 <= tile <= 8 {
      assert g[tile - 1] == tile;
    } else if tile == 0 {
      assert g[8] == 0;
    }
  }

  /** What one cell adds in `heuristicCost`'s reduce: nothing for the blank, else the
      distance from the cell to where the tile stands in `SOLVED_STATE`. */
  function CellCost(tile: int, index: int): nat
  {
    if tile != 0 then DistanceFromGoal(index, GoalIndex(tile)) else 0
  }

  /** The running total of the reduce after the first `n` cells; over values 0..8 it is
      the running total of `calculateManhattanDistance`, cell by cell. */
  function HeuristicPrefix(state: seq<int>, n: nat): (cost: nat)
    requires n <= |state|
    ensures (forall i :: 0 <= i < n ==> 0 <= state[i] < 9) ==> cost == ManhattanPrefix(state, n)
  {
    if n == 0 then 0 else HeuristicPrefix(state, n - 1) + CellCost(state[n - 1], n - 1)
  }

  /** `heuristicCost`: the sum, over the non-blank tiles, of the distance to their goal
      cells. The code's two Manhattan functions agree on every sequence of values 0..8:
      a tile's goal cell is the one `calculateManhattanDistance` takes. */
  function HeuristicCost(state: seq<int>): (cost: nat)
    ensures (forall i :: 0 <= i < |state| ==> 0 <= state[i] < 9) ==> cost == CalculateManhattanDistance(state)
  {
    HeuristicPrefix(state, |state|)
  }

  /* ---------------------------------------------------------------- goal test */

  /** `isSolved`: the board equals `SOLVED_STATE` cell by cell. */
  function IsSolved(board: seq<int>): (solved: bool)
    ensures solved <==> |board| == 9 && forall i :: 0 <= i < 9 ==> board[i] == SOLVED_STATE[i]
  {
    board == SOLVED_STATE
  }

  /** On a board the heuristic is zero exactly at the goal, so it never rates another
      board as solved. */
  lemma HeuristicZeroIffSolved(b: seq<int>)
    requires IsBoard(b)
    ensures HeuristicCost(b) == 0 <==> IsSolved(b)
  {
    ManhattanZeroIffSolved(b);
  }

  /* ---------------------------------------------------------------- solvability */

  /** Two tiles, the first one earlier on the board, counted as an inversion. */
  predicate Inverted(x: int, y: int)
  {
    x != 0 && y != 0 && x > y
  }

  function Ind(p: bool): nat { if p then 1 else 0 }

  /** The number of tiles of `t` that a tile `x` placed before them is inverted with. */
  function Below(x: int, t: seq<int>): nat
  {
    if |t| == 0 then 0 else Ind(Inverted(x, t[0])) + Below(x, t[1..])
  }

  /** The number of tiles of `t` that are inverted with a tile `x` placed after them. */
  function Above(x: int, t: seq<int>): nat
  {
    if |t| == 0 then 0 else Ind(Inverted(t[0], x)) + Above(x, t[1..])
  }

  /** The number of non-blank cells of `t`. */
  function NonBlanks(t: seq<int>): nat
  {
    if |t| == 0 then 0 else Ind(t[0] != 0) + NonBlanks(t[1..])
  }

  /** The number of pairs of positions i < j whose tiles form an inversion. */
  function Inversions(g: seq<int>): nat
  {
    if |g| == 0 then 0 else Below(g[0], g[1..]) + Inversions(g[1..])
  }

  /** Inversions between the tiles of `a` and the tiles of a later `c`. */
  function Cross(a: seq<int>, c: seq<int>): nat
  {
    if |a| == 0 then 0 else Below(a[0], c) + Cross(a[1..], c)
  }

  /** What `isSolutionExists` decides: the inversion count is even. */
  predicate Solvable(g: seq<int>)
  {
    Inversions(g) % 2 == 0
  }

  /** No two tiles, the earlier one first, form an inversion. */
  predicate InOrder(g: seq<int>)
  {
    forall i, j :: 0 <= i < j < |g| ==> !Inverted(g[i], g[j])
  }

  /** `Below` counts the later tiles a tile is inverted with: none exactly when there is
      no such tile. */
  lemma {:induction false} BelowZeroIff(x: int, t: seq<int>)
    ensures Below(x, t) == 0 <==> forall j :: 0 <= j < |t| ==> !Inverted(x, t[j])
  {
    if |t| > 0 {
      BelowZeroIff(x, t[1..]);
      assert forall j :: 1 <= j < |t| ==> t[j] == t[1..][j - 1];
    }
  }

  /** The recursive count is the number of inverted pairs: it is zero exactly when the
      board has no inversion at all. */
  lemma {:induction false} InversionsZeroIffInOrder(g: seq<int>)
    ensures Inversions(g) == 0 <==> InOrder(g)
  {
    if |g| > 0 {
      var t := g[1..];
      BelowZeroIff(g[0], t);
      InversionsZeroIffInOrder(t);
      if InOrder(g) {
        forall j | 0 <= j < |t| ensures !Inverted(g[0], t[j]) {
          assert t[j] == g[j + 1];
        }
        forall i, j | 0 <= i < j < |t| ensures !Inverted(t[i], t[j]) {
          assert t[i] == g[i + 1] && t[j] == g[j + 1];
        }
      }
      if Inversions(g) == 0 {
        forall i, j | 0 <= i < j < |g| ensures !Inverted(g[i], g[j]) {
          if i == 0 {
            assert g[j] == t[j - 1];
          } else {
            assert g[i] == t[i - 1] && g[j] == t[j - 1];
          }
        }
      }
    }
  }

  /** `isSolutionExists`: counts the inversions with two nested loops and tests their parity. */
  method IsSolutionExists(grid: seq<int>) returns (exists_: bool)
    ensures exists_ == Solvable(grid)
  {
    var inversions := 0;
    var i := 0;
    while i < |grid|
      invariant 0 <= i <= |grid|
      invariant inversions + Inversions(grid[i..]) == Inversions(grid)
    {
      var tile := grid[i];
      assert grid[i..][1..] == grid[i + 1..];
      var j := i + 1;
      while j < |grid|
        invariant i + 1 <= j <= |grid|
        invariant inversions + Below(tile, grid[j..]) + Inversions(grid[i + 1..]) == Inversions(grid)
      {
        assert grid[j..][1..] == grid[j + 1..];
        if tile != 0 && grid[j] != 0 && tile > grid[j] {
          inversions := inversions + 1;
        }
        j := j + 1;
      }
      i := i + 1;
    }
    assert grid[|grid|..] == [];
    exists_ := inversions % 2 == 0;
  }

  /** The goal board has no inversion. */
  lemma SolvedIsSolvable()
    ensures Inversions(SOLVED_STATE) == 0 && Solvable(SOLVED_STATE)
  {
    var g := SOLVED_STATE;
    forall k | 0 <= k < 9 ensures Below(g[k], g[k + 1..]) == 0 {
      NoInversionAfter(g[k], g[k + 1..]);
    }
    InversionsZero(g);
  }

  lemma {:induction false} NoInversionAfter(x: int, t: seq<int>)
    requires forall i :: 0 <= i < |t| ==> t[i] == 0 || t[i] > x
    ensures Below(x, t) == 0
  {
    if |t| > 0 { NoInversionAfter(x, t[1..]); }
  }

  lemma {:induction false} InversionsZero(g: seq<int>)
    requires forall k :: 0 <= k < |g| ==> Below(g[k], g[k + 1..]) == 0
    ensures Inversions(g) == 0
  {
    if |g| > 0 {
      forall k | 0 <= k < |g| - 1 ensures Below(g[1..][k], g[1..][k + 1..]) == 0 {
        assert g[1..][k + 1..] == g[k + 2..];
      }
      InversionsZero(g[1..]);
    }
  }

  lemma {:induction false} BelowAppend(x: int, a: seq<int>, b: seq<int>)
    ensures Below(x, a + b) == Below(x, a) + Below(x, b)
  {
    if |a| == 0 {
      assert a + b == b;
    } else {
      assert (a + b)[1..] == a[1..] + b;
      BelowAppend(x, a[1..], b);
    }
  }

  lemma {:induction false} CrossAppendRight(a: seq<int>, b: seq<int>, c: seq<int>)
    ensures Cross(a, b + c) == Cross(a, b) + Cross(a, c)
  {
    if |a| > 0 {
      BelowAppend(a[0], b, c);
      CrossAppendRight(a[1..], b, c);
    }
  }

  lemma {:induction false} CrossSingleton(m: seq<int>, b: int)
    ensures Cross(m, [b]) == Above(b, m)
  {
    if |m| > 0 {
      assert [b][1..] == [];
      assert Below(m[0], [b]) == Ind(Inverted(m[0], b));
      CrossSingleton(m[1..], b);
    }
  }

  lemma {:induction false} CrossCongruent(a: seq<int>, c: seq<int>, d: seq<int>)
    requires forall x :: Below(x, c) == Below(x, d)
    ensures Cross(a, c) == Cross(a, d)
  {
    if |a| > 0 { CrossCongruent(a[1..], c, d); }
  }

  /** Splitting a sequence: the inversions inside each part plus those across. */
  lemma {:induction false} InversionsAppend(a: seq<int>, c: seq<int>)
    ensures Inversions(a + c) == Inversions(a) + Inversions(c) + Cross(a, c)
  {
    if |a| == 0 {
      assert a + c == c;
    } else {
      assert (a + c)[0] == a[0] && (a + c)[1..] == a[1..] + c;
      BelowAppend(a[0], a[1..], c);
      InversionsAppend(a[1..], c);
    }
  }

  /** Proof step for `InversionsOfFrame`: a tile put in front adds its own inversions
      with the rest. */
  lemma SingletonAppend(x: int, t: seq<int>)
    ensures Inversions([x] + t) == Below(x, t) + Inversions(t)
  {
    assert ([x] + t)[0] == x && ([x] + t)[1..] == t;
  }

  /** The inversions of `[a] + M + [b] + B`, by where the two ends meet the rest. */
  lemma InversionsOfFrame(a: int, m: seq<int>, b: int, bs: seq<int>)
    ensures Inversions([a] + m + [b] + bs)
         == Below(a, m) + Ind(Inverted(a, b)) + Below(a, bs) + Inversions(m)
            + Below(b, bs) + Inversions(bs) + Above(b, m) + Cross(m, bs)
  {
    var rest := m + ([b] + bs);
    assert [a] + m + [b] + bs == [a] + rest;
    SingletonAppend(a, rest);
    BelowAppend(a, m, [b] + bs);
    BelowAppend(a, [b], bs);
    assert Below(a, [b]) == Ind(Inverted(a, b)) by { assert [b][1..] == []; }
    InversionsAppend(m, [b] + bs);
    SingletonAppend(b, bs);
    CrossAppendRight(m, [b], bs);
    CrossSingleton(m, b);
  }

  /** Exchanging the tiles `a` and `b` around a middle part `M` changes the inversion
      count by how each end compares with the middle, plus the pair itself. */
  lemma SwapDelta(as_: seq<int>, a: int, m: seq<int>, b: int, bs: seq<int>)
    ensures Inversions(as_ + [b] + m + [a] + bs) - Inversions(as_ + [a] + m + [b] + bs)
         == (Below(b, m) - Above(b, m)) - (Below(a, m) - Above(a, m))
            + Ind(Inverted(b, a)) - Ind(Inverted(a, b))
  {
    var x := [a] + m + [b] + bs;
    var y := [b] + m + [a] + bs;
    assert as_ + [a] + m + [b] + bs == as_ + x;
    assert as_ + [b] + m + [a] + bs == as_ + y;
    InversionsAppend(as_, x);
    InversionsAppend(as_, y);
    forall t ensures Below(t, x) == Below(t, y) {
      BelowAppend(t, [a] + m + [b], bs);
      BelowAppend(t, [a] + m, [b]);
      BelowAppend(t, [a], m);
      BelowAppend(t, [b] + m + [a], bs);
      BelowAppend(t, [b] + m, [a]);
      BelowAppend(t, [b], m);
      assert [a][1..] == [] && [b][1..] == [];
    }
    CrossCongruent(as_, x, y);
    InversionsOfFrame(a, m, b, bs);
    InversionsOfFrame(b, m, a, bs);
  }

  /** A non-blank tile absent from `M` is either above or below each non-blank tile of `M`. */
  lemma {:induction false} AboveBelowPartition(x: int, m: seq<int>)
    requires x != 0 && x !in m
    ensures Below(x, m) + Above(x, m) == NonBlanks(m)
  {
    if |m| > 0 { AboveBelowPartition(x, m[1..]); }
  }

  lemma {:induction false} BlankAboveBelow(m: seq<int>)
    ensures Below(0, m) == 0 && Above(0, m) == 0
  {
    if |m| > 0 { BlankAboveBelow(m[1..]); }
  }

  lemma {:induction false} NonBlanksAll(m: seq<int>)
    requires 0 !in m
    ensures NonBlanks(m) == |m|
  {
    if |m| > 0 { NonBlanksAll(m[1..]); }
  }

  /** A board cut around two cells i < j. */
  lemma SplitAround(g: seq<int>, i: int, j: int)
    requires 0 <= i < j < |g|
    ensures g == g[..i] + [g[i]] + g[i + 1..j] + [g[j]] + g[j + 1..]
    ensures Swap(g, i, j) == g[..i] + [g[j]] + g[i + 1..j] + [g[i]] + g[j + 1..]
  {
    var s := Swap(g, i, j);
    assert s[..i] == g[..i] && s[i + 1..j] == g[i + 1..j] && s[j + 1..] == g[j + 1..];
    assert s == s[..i] + [s[i]] + s[i + 1..j] + [s[j]] + s[j + 1..];
  }

  /** The middle part of a board between two cells i < j. */
  lemma MiddleOfBoard(g: seq<int>, i: int, j: int)
    requires IsBoard(g) && 0 <= i < j < 9
    ensures g[i] !in g[i + 1..j] && g[j] !in g[i + 1..j]
  {
    var m := g[i + 1..j];
    forall k | 0 <= k < |m| ensures m[k] != g[i] && m[k] != g[j] {
      assert m[k] == g[i + 1 + k];
    }
  }

  /** Exchanging two tiles (neither of them the blank) flips the verdict: a single
      transposition changes the parity of the inversion count. */
  lemma SwapTilesFlipsSolvable(g: seq<int>, i: int, j: int)
    requires IsBoard(g) && 0 <= i < 9 && 0 <= j < 9 && i != j
    requires g[i] != 0 && g[j] != 0
    ensures Solvable(Swap(g, i, j)) != Solvable(g)
  {
    if j < i {
      assert Swap(g, i, j) == Swap(g, j, i);
      SwapTilesFlipsSolvable(g, j, i);
    } else {
      var a, b, m := g[i], g[j], g[i + 1..j];
      SplitAround(g, i, j);
      MiddleOfBoard(g, i, j);
      SwapDelta(g[..i], a, m, b, g[j + 1..]);
      AboveBelowPartition(a, m);
      AboveBelowPartition(b, m);
      assert a != b;
    }
  }

  /** Sliding a tile into the blank keeps the verdict: a horizontal move leaves the
      order of the tiles unchanged, a vertical one moves a tile past exactly two others. */
  lemma MoveKeepsSolvable(g: seq<int>, mv: int)
    requires IsBoard(g) && mv in ValidMoves(g)
    ensures 0 <= Blank(g) < 9 && 0 <= mv < 9 && Solvable(Swap(g, Blank(g), mv)) == Solvable(g)
  {
    ValidMovesAreNeighbours(g);
    var e := Blank(g);
    assert mv == e - 3 || mv == e + 3 || mv == e - 1 || mv == e + 1;
    if e < mv {
      BlankSwapKeepsSolvable(g, e, mv);
    } else {
      assert Swap(g, e, mv) == Swap(g, mv, e);
      BlankSwapKeepsSolvable(g, mv, e);
    }
  }

  /** Exchanging the blank with a tile one or three cells away keeps the parity: the
      blank counts in no inversion, and the tile passes zero or two other tiles. */
  lemma BlankSwapKeepsSolvable(g: seq<int>, i: int, j: int)
    requires IsBoard(g) && 0 <= i < j < 9 && (g[i] == 0 || g[j] == 0)
    requires j - i == 1 || j - i == 3
    ensures Solvable(Swap(g, i, j)) == Solvable(g)
  {
    var m := g[i + 1..j];
    SplitAround(g, i, j);
    MiddleOfBoard(g, i, j);
    NonBlanksAll(m);
    BlankAboveBelow(m);
    SwapDelta(g[..i], g[i], m, g[j], g[j + 1..]);
    var t := if g[i] == 0 then g[j] else g[i];
    AboveBelowPartition(t, m);
    assert |m| == 0 || |m| == 2;
    var d := Inversions(Swap(g, i, j)) - Inversions(g);
    if g[i] == 0 {
      assert d == Below(t, m) - Above(t, m);
    } else {
      assert d == Above(t, m) - Below(t, m);
    }
    EvenShift(Inversions(g), d);
  }

  /** Adding an even number keeps the parity. */
  lemma EvenShift(x: int, d: int)
    requires d % 2 == 0
    ensures (x + d) % 2 == x % 2
  {
  }

  /* ---------------------------------------------------------------- moved tile */

  /** The predicate of `findMovedElement`'s `find`: a tile that differs from the other
      board's cell (a missing cell is `undefined`, which differs from every tile). */
  predicate Moved(grid1: seq<int>, grid2: seq<int>, i: int)
    requires 0 <= i < |grid1|
  {
    grid1[i] != 0 && (i >= |grid2| || grid1[i] != grid2[i])
  }

  /** The first index from `from` on that satisfies `Moved`. */
  function FirstMoved(grid1: seq<int>, grid2: seq<int>, from: nat): (r: Option<nat>)
    requires from <= |grid1|
    ensures r.Some? ==> (from <= r.value < |grid1| && Moved(grid1, grid2, r.value)
      && forall i :: from <= i < r.value ==> !Moved(grid1, grid2, i))
    ensures r.None? ==> forall i :: from <= i < |grid1| ==> !Moved(grid1, grid2, i)
    decreases |grid1| - from
  {
    if from == |grid1| then None
    else if Moved(grid1, grid2, from) then Some(from)
    else FirstMoved(grid1, grid2, from + 1)
  }

  /** `findMovedElement`: the first tile of `grid1` not matched in `grid2`, or 0 (the
      code's `|| 0`) when every tile is matched. */
  function FindMovedElement(grid1: seq<int>, grid2: seq<int>): (tile: int)
    ensures tile != 0 <==> exists i :: 0 <= i < |grid1| && Moved(grid1, grid2, i)
    ensures tile != 0 ==> tile in grid1
    ensures tile != 0 ==> exists i :: (0 <= i < |grid1| && Moved(grid1, grid2, i) && grid1[i] == tile
                                      && forall j :: 0 <= j < i ==> !Moved(grid1, grid2, j))
  {
    match FirstMoved(grid1, grid2, 0)
    case Some(i) => grid1[i]
    case None => 0
  }

  /** Between a board and the board after one move, the moved element is the tile that slid. */
  lemma FindMovedTile(b: seq<int>, mv: int)
    requires IsBoard(b) && mv in ValidMoves(b)
    ensures 0 <= Blank(b) < 9 && 0 <= mv < 9 && FindMovedElement(b, Swap(b, Blank(b), mv)) == b[mv]
  {
    ValidMovesAreNeighbours(b);
    var e := Blank(b);
    var c := Swap(b, e, mv);
    assert b[mv] != b[e];
    assert Moved(b, c, mv);
    var r := FirstMoved(b, c, 0);
    assert r.Some? && r.value <= mv;
    assert r.value == mv;
  }

  /* ---------------------------------------------------------------- solution path */

  /** The `Node` type of solver.ts, its `parent` reference an index into an arena. */
  datatype Node = Node(state: seq<int>, parent: Option<nat>, depth: int, cost: int)

  /** A node whose parent, if any, lies below `bound` in the arena. */
  predicate LinkBelow(n: Node, bound: nat)
  {
    n.parent.Some? ==> n.parent.value < bound
  }

  /** Every parent link of the arena points to an earlier slot, so chains end. */
  predicate ParentsBefore(arena: seq<Node>)
  {
    forall i :: 0 <= i < |arena| ==> LinkBelow(arena[i], i)
  }

  /** The states met by following parent links from `node`: its own first, the root last. */
  function Ancestry(arena: seq<Node>, node: Node): (chain: seq<seq<int>>)
    requires ParentsBefore(arena) && LinkBelow(node, |arena|)
    ensures |chain| >= 1 && chain[0] == node.state
    decreases if node.parent.Some? then node.parent.value + 1 else 0
  {
    match node.parent
    case None => [node.state]
    case Some(p) => [node.state] + Ancestry(arena, arena[p])
  }

  /** The node without a parent that the chain from `node` ends at. */
  function RootOf(arena: seq<Node>, node: Node): (root: Node)
    requires ParentsBefore(arena) && LinkBelow(node, |arena|)
    ensures root.parent.None?
    ensures Ancestry(arena, node)[|Ancestry(arena, node)| - 1] == root.state
    decreases if node.parent.Some? then node.parent.value + 1 else 0
  {
    match node.parent
    case None => node
    case Some(p) => RootOf(arena, arena[p])
  }

  /** `Array.prototype.reverse` on a fresh array. */
  function Reversed<T>(s: seq<T>): (r: seq<T>)
    ensures |r| == |s| && forall k :: 0 <= k < |s| ==> r[k] == s[|s| - 1 - k]
    ensures |s| > 0 ==> r[0] == s[|s| - 1] && r[|r| - 1] == s[0]
  {
    if |s| == 0 then [] else Reversed(s[1..]) + [s[0]]
  }

  /** `reverseSolutionPath`: collects the states up the parent chain, then reverses them,
      so the path runs from the root's state to the given node's state. */
  method ReverseSolutionPath(arena: seq<Node>, solutionPath: Node) returns (path: seq<seq<int>>)
    requires ParentsBefore(arena) && LinkBelow(solutionPath, |arena|)
    ensures path == Reversed(Ancestry(arena, solutionPath))
    ensures |path| == |Ancestry(arena, solutionPath)|
    ensures path[0] == RootOf(arena, solutionPath).state
    ensures path[|path| - 1] == solutionPath.state
  {
    var reversedPath: seq<seq<int>> := [];
    var current: Option<Node> := Some(solutionPath);
    while current.Some?
      invariant current.Some? ==> LinkBelow(current.value, |arena|)
      invariant current.Some? ==> reversedPath + Ancestry(arena, current.value) == Ancestry(arena, solutionPath)
      invariant current.None? ==> reversedPath == Ancestry(arena, solutionPath)
      decreases match current case None => 0 case Some(n) => if n.parent.Some? then n.parent.value + 2 else 1
    {
      var node := current.value;
      ghost var before := reversedPath;
      reversedPath := reversedPath + [node.state];
      match node.parent {
        case None =>
          current := None;
        case Some(p) =>
          AncestryStep(arena, node, before);
          current := Some(arena[p]);
      }
    }
    path := Reversed(reversedPath);
  }

  /** One link up the chain: the states collected so far plus the chain from a node are
      those collected with the node's own state plus the chain from its parent. */
  lemma AncestryStep(arena: seq<Node>, node: Node, before: seq<seq<int>>)
    requires ParentsBefore(arena) && LinkBelow(node, |arena|) && node.parent.Some?
    ensures LinkBelow(arena[node.parent.value], |arena|)
    ensures (before + [node.state]) + Ancestry(arena, arena[node.parent.value]) == before + Ancestry(arena, node)
  {
    var rest := Ancestry(arena, arena[node.parent.value]);
    assert Ancestry(arena, node) == [node.state] + rest;
    assert (before + [node.state]) + rest == before + ([node.state] + rest);
  }

  /** A well-formed search arena rooted at `start`: the parentless nodes hold `start` at
      depth 0, and every other node is one legal move from its parent, one level deeper. */
  predicate Grown(arena: seq<Node>, node: Node, start: seq<int>)
    requires LinkBelow(node, |arena|)
  {
    match node.parent
    case None => node.state == start && node.depth == 0
    case Some(p) => node.depth == arena[p].depth + 1 && Step(arena[p].state, node.state)
  }

  predicate Rooted(arena: seq<Node>, start: seq<int>)
  {
    ParentsBefore(arena) && forall i :: 0 <= i < |arena| ==> Grown(arena, arena[i], start)
  }

  /** Putting a board one move after the head of a chain of backward moves in front of
      it gives a longer chain of backward moves. */
  lemma ConsSteps(x: seq<int>, rest: seq<seq<int>>)
    requires |rest| > 0 && Step(rest[0], x)
    requires forall k :: 0 <= k < |rest| - 1 ==> Step(rest[k + 1], rest[k])
    ensures var chain := [x] + rest;
      forall k :: 0 <= k < |chain| - 1 ==> Step(chain[k + 1], chain[k])
  {
    var chain := [x] + rest;
    forall k | 0 <= k < |chain| - 1 ensures Step(chain[k + 1], chain[k]) {
      if k > 0 { assert chain[k] == rest[k - 1] && chain[k + 1] == rest[k]; }
    }
  }

  /** In a rooted arena the chain from a node has depth + 1 states, ends at the start
      board, and each state is one move away from the next one. */
  lemma {:induction false} AncestryShape(arena: seq<Node>, node: Node, start: seq<int>)
    requires Rooted(arena, start) && LinkBelow(node, |arena|) && Grown(arena, node, start)
    ensures var chain := Ancestry(arena, node);
      |chain| == node.depth + 1 && chain[|chain| - 1] == start
      && forall k :: 0 <= k < |chain| - 1 ==> Step(chain[k + 1], chain[k])
    decreases if node.parent.Some? then node.parent.value + 1 else 0
  {
    match node.parent {
      case None =>
      case Some(p) =>
        AncestryShape(arena, arena[p], start);
        ConsSteps(node.state, Ancestry(arena, arena[p]));
    }
  }

  /** A solution path: a walk from `start` to the goal. */
  predicate IsSolutionPath(path: seq<seq<int>>, start: seq<int>)
  {
    IsWalk(path) && path[0] == start && path[|path| - 1] == SOLVED_STATE
  }

  /** Reading a chain of backward moves from its far end gives a walk. */
  lemma ReversedChainIsWalk(chain: seq<seq<int>>)
    requires |chain| > 0 && IsBoard(chain[|chain| - 1])
    requires forall k :: 0 <= k < |chain| - 1 ==> Step(chain[k + 1], chain[k])
    ensures IsWalk(Reversed(chain))
  {
    var path := Reversed(chain);
    forall k | 0 <= k < |path| - 1 ensures Step(path[k], path[k + 1]) {
      assert path[k] == chain[|chain| - 1 - k] && path[k + 1] == chain[|chain| - 2 - k];
    }
  }

  /** The reversed chain from a node of a rooted arena is a walk from the start board to
      the node's state, with one board per level of depth. */
  lemma ChainIsWalk(arena: seq<Node>, node: Node, start: seq<int>)
    requires IsBoard(start)
    requires Rooted(arena, start) && LinkBelow(node, |arena|) && Grown(arena, node, start)
    ensures var path := Reversed(Ancestry(arena, node));
      IsWalk(path) && |path| == node.depth + 1 && path[0] == start && path[|path| - 1] == node.state
  {
    AncestryShape(arena, node, start);
    ReversedChainIsWalk(Ancestry(arena, node));
  }
}
