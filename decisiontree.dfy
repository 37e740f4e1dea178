/**
 * The `DecisionTree` class of src/lib/decision-tree.ts: each round of its A* search
 * moves the first leaf of least total cost from the frontier to `explored`, stops with
 * the path to it when that leaf is the goal, and otherwise adds each child whose state
 * neither list holds yet.
 */
module DecisionTree {
  import opened Wrappers
  import opened Board
  import opened Solver
  import opened SearchTree

  /* ---------------------------------------------------------------- scans */

  /** `leafIndex` is where `findBestLeaf`'s scan stops: a leaf of least total cost, with
      every earlier leaf strictly dearer (the scan replaces its pick only on `<`). */
  predicate IsFirstMin(leaves: seq<Leaf>, leafIndex: int)
  {
    0 <= leafIndex < |leaves|
    && (forall j :: 0 <= j < |leaves| ==> leaves[leafIndex].totalCost <= leaves[j].totalCost)
    && (forall j :: 0 <= j < leafIndex ==> leaves[j].totalCost > leaves[leafIndex].totalCost)
  }

  /** The `forEach` scan of `findBestLeaf`, which starts from the first leaf and takes a
      later one only when it is strictly cheaper. */
  method FirstMinimum(leaves: seq<Leaf>) returns (leafIndex: nat)
    requires |leaves| > 0
    ensures IsFirstMin(leaves, leafIndex)
  {
    var currentLeaf := leaves[0];
    leafIndex := 0;
    var index := 0;
    while index < |leaves|
      invariant 0 <= leafIndex < |leaves| && leafIndex <= index <= |leaves|
      invariant currentLeaf == leaves[leafIndex]
      invariant forall j :: 0 <= j < index ==> currentLeaf.totalCost <= leaves[j].totalCost
      invariant forall j :: 0 <= j < leafIndex ==> leaves[j].totalCost > currentLeaf.totalCost
    {
      var leaf := leaves[index];
      if leaf.totalCost < currentLeaf.totalCost {
        currentLeaf := leaf;
        leafIndex := index;
      }
      index := index + 1;
    }
  }

  /* ---------------------------------------------------------------- moves */

  /** `getAdjacentElements` (a method of the class that uses none of its fields): the
      tiles above, below, left of and right of the blank, under the code's own guards. */
  function GetAdjacentElements(gridArray: seq<int>): (adjacentElements: seq<int>)
    requires |gridArray| == 9
    ensures Blank(gridArray) >= 0 ==>
      |adjacentElements| == |ValidMoves(gridArray)|
      && forall k :: 0 <= k < |adjacentElements| ==>
        0 <= ValidMoves(gridArray)[k] < 9 && adjacentElements[k] == gridArray[ValidMoves(gridArray)[k]]
    ensures Blank(gridArray) < 0 ==> adjacentElements == [gridArray[2], gridArray[0]]
  {
    var emptyTileIndex := IndexOf(gridArray, 0);
    var e := emptyTileIndex;
    assert 0 <= e ==> JsRem(e, 3) == e % 3;
    (if e - 3 >= 0 then [gridArray[e - 3]] else [])
    + (if e + 3 <= 8 then [gridArray[e + 3]] else [])
    + (if e - 1 >= 0 && JsRem(e, 3) != 0 then [gridArray[e - 1]] else [])
    + (if e + 1 <= 8 && JsRem(e, 3) != 2 then [gridArray[e + 1]] else [])
  }

  /** On a board the adjacent elements are two to four tiles (never the blank), each
      standing in a cell next to the blank, none twice. */
  lemma AdjacentElementsAreNeighbours(b: seq<int>)
    requires IsBoard(b)
    ensures 2 <= |GetAdjacentElements(b)| <= 4
    ensures forall k :: 0 <= k < |GetAdjacentElements(b)| ==>
      var t := GetAdjacentElements(b)[k];
      0 <= Blank(b) < 9 && t != 0 && 0 <= IndexOf(b, t) < 9 && Adjacent(Blank(b), IndexOf(b, t))
    ensures forall k, l :: 0 <= k < l < |GetAdjacentElements(b)| ==>
      GetAdjacentElements(b)[k] != GetAdjacentElements(b)[l]
  {
    ValidMovesAreNeighbours(b);
    var moves := ValidMoves(b);
    var adj := GetAdjacentElements(b);
    forall k | 0 <= k < |adj|
      ensures adj[k] != 0 && 0 <= IndexOf(b, adj[k]) < 9 && Adjacent(Blank(b), IndexOf(b, adj[k]))
    {
      assert moves[k] in moves;
      BoardIndexOf(b, moves[k]);
    }
  }

  /** Writing the `k`-th adjacent tile into the blank's cell and the blank into that
      tile's cell, as `generateNextDepthStates` does, makes the `k`-th successor. */
  lemma SlideIsSuccessor(state: seq<int>, k: nat)
    requires IsBoard(state) && k < |ValidMoves(state)|
    ensures 0 <= Blank(state) && k < |GetAdjacentElements(state)|
    ensures var tile := GetAdjacentElements(state)[k];
      0 <= IndexOf(state, tile) < 9
      && state[Blank(state) := tile][IndexOf(state, tile) := 0] == Successors(state)[k]
  {
    ValidMovesAreNeighbours(state);
    BoardIndexOf(state, ValidMoves(state)[k]);
  }

  /** The leaves `generateNextDepthStates` makes from a board: one per successor, in the
      order of the valid moves, one level deeper and linked to the parent's index. */
  function ChildLeaves(state: seq<int>, depth: int, leafIndex: nat): (children: seq<Leaf>)
    requires IsBoard(state)
    ensures |children| == |Successors(state)|
    ensures forall k :: 0 <= k < |children| ==>
      children[k] == NewLeaf(Successors(state)[k], depth + 1, Some(leafIndex))
  {
    seq(|Successors(state)|, k requires 0 <= k < |Successors(state)| =>
      NewLeaf(Successors(state)[k], depth + 1, Some(leafIndex)))
  }

  /** Proof step for `GenerateNextDepthStates`' loop: the `k`-th child named by its
      board, kept apart so that the loop body does not unfold the comprehension. */
  lemma ChildLeafAt(state: seq<int>, depth: int, leafIndex: nat, k: nat, newState: seq<int>)
    requires IsBoard(state) && k < |Successors(state)| && newState == Successors(state)[k]
    ensures k < |ChildLeaves(state, depth, leafIndex)|
    ensures ChildLeaves(state, depth, leafIndex)[k] == NewLeaf(newState, depth + 1, Some(leafIndex))
  {
  }

  /** Proof step: there are as many adjacent tiles as successors. */
  lemma AdjacentCount(state: seq<int>)
    requires IsBoard(state)
    ensures |GetAdjacentElements(state)| == |Successors(state)|
  {
    BlankOfBoard(state);
  }

  /** Proof step for a loop that builds a list by appending: one more element of the
      target is one more prefix. */
  lemma PrefixGrows(s: seq<Leaf>, k: nat)
    requires k < |s|
    ensures s[..k + 1] == s[..k] + [s[k]]
  {
  }

  /** The body of `generateNextDepthStates`' loop for the `k`-th adjacent tile: the
      tile is written into the blank and 0 into the tile's cell, and the new board
      becomes a leaf one level deeper whose parent is the leaf at `leafIndex`. */
  method SlideChild(state: seq<int>, depth: int, leafIndex: nat, emptyTileIndex: int, adjacentElements: seq<int>, k: nat)
    returns (child: Leaf)
    requires IsBoard(state) && emptyTileIndex == IndexOf(state, 0)
    requires adjacentElements == GetAdjacentElements(state) && k < |adjacentElements|
    ensures k < |ChildLeaves(state, depth, leafIndex)| && child == ChildLeaves(state, depth, leafIndex)[k]
  {
    AdjacentCount(state);
    var adjacentElement := adjacentElements[k];
    var adjacentElementIndex := IndexOf(state, adjacentElement);
    SlideIsSuccessor(state, k);
    var newState := state[emptyTileIndex := adjacentElement][adjacentElementIndex := 0];
    assert newState == Successors(state)[k];
    ChildLeafAt(state, depth, leafIndex, k, newState);
    child := NewLeaf(newState, depth + 1, Some(leafIndex));
  }

  /* ---------------------------------------------------------------- the tree */

  class DecisionTree {
    var root: Leaf
    var depth: int
    var explored: seq<Leaf>
    var toExplore: seq<Leaf>
    var maxCost: int
    var createdLeaves: int
    var moves: int

    ghost predicate Valid()
      reads this
    {
      Tree(explored, toExplore, root.state, moves, maxCost)
    }

    /** Between rounds of the search: the tree is well formed, every explored leaf has
        been expanded, and none of them is the goal. */
    ghost predicate Searching()
      reads this
    {
      Valid() && Closed(explored, toExplore, |explored|) && NoneSolved(explored)
    }

    /** A tree whose frontier is the root leaf alone. */
    constructor (state: seq<int>)
      ensures root == NewLeaf(state, 0, None) && depth == 0
      ensures explored == [] && toExplore == [root]
      ensures maxCost == 0 && createdLeaves == 0 && moves == 0
      ensures IsBoard(state) ==> Searching()
    {
      root := NewLeaf(state, 0, None);
      depth := 0;
      explored := [];
      toExplore := [NewLeaf(state, 0, None)];
      maxCost := 0;
      createdLeaves := 0;
      moves := 0;
    }

    /** `findBestLeaf`: takes the first leaf of least total cost out of the frontier,
        keeping the others in order, and appends it to `explored`. */
    method FindBestLeaf() returns (currentLeaf: Leaf, ghost leafIndex: nat)
      requires |toExplore| > 0
      modifies this`toExplore, this`explored
      ensures IsFirstMin(old(toExplore), leafIndex) && currentLeaf == old(toExplore)[leafIndex]
      ensures toExplore == Remove(old(toExplore), leafIndex)
      ensures explored == old(explored) + [currentLeaf]
    {
      var index := FirstMinimum(toExplore);
      currentLeaf := toExplore[index];
      leafIndex := index;
      toExplore := Remove(toExplore, index);
      explored := explored + [currentLeaf];
    }

    /** `generateNextDepthStates`: one child per adjacent tile, in the order of the valid
        moves, whose board is the parent's with that tile slid into the blank; each child
        is one level deeper and links to the parent at `leafIndex` in `explored`. */
    method GenerateNextDepthStates(leaf: Leaf, leafIndex: nat) returns (possibleStates: seq<Leaf>)
      requires IsBoard(leaf.state)
      modifies this`createdLeaves
      ensures possibleStates == ChildLeaves(leaf.state, leaf.depth, leafIndex)
      ensures createdLeaves == old(createdLeaves) + |possibleStates|
    {
      possibleStates := [];
      var state := leaf.state;
      var emptyTileIndex := IndexOf(state, 0);
      var adjacentElements := GetAdjacentElements(state);
      AdjacentCount(state);
      ghost var children := ChildLeaves(state, leaf.depth, leafIndex);
      for k := 0 to |adjacentElements|
        invariant possibleStates == children[..k]
        invariant createdLeaves == old(createdLeaves) + k
      {
        var child := SlideChild(state, leaf.depth, leafIndex, emptyTileIndex, adjacentElements, k);
        possibleStates := possibleStates + [child];
        PrefixGrows(children, k);
        createdLeaves := createdLeaves + 1;
      }
      assert children[..|children|] == children;
    }

    /** One pass of the `for … of` loop of `aStarSearch`: the child joins the frontier
        only when neither list holds its state, and `moves` and `maxCost` rise to its
        depth and total cost. */
    method AdmitChild(leaf: Leaf)
      requires Tree(explored, toExplore, root.state, moves, maxCost)
      requires LeafOk(leaf, |explored|, explored, root.state)
      modifies this`toExplore, this`moves, this`maxCost
      ensures toExplore == if Known(explored, old(toExplore), leaf.state) then old(toExplore) else old(toExplore) + [leaf]
      ensures moves == if leaf.depth > old(moves) then leaf.depth else old(moves)
      ensures maxCost == if leaf.totalCost > old(maxCost) then leaf.totalCost else old(maxCost)
      ensures Tree(explored, toExplore, root.state, moves, maxCost)
      ensures Known(explored, toExplore, leaf.state)
      ensures forall c :: Known(explored, old(toExplore), c) ==> Known(explored, toExplore, c)
    {
      ghost var toExplore1, moves1, maxCost1 := toExplore, moves, maxCost;
      if !HasState(explored, leaf.state) && !HasState(toExplore, leaf.state) {
        toExplore := toExplore + [leaf];
      }
      if leaf.depth > moves { moves := leaf.depth; }
      if leaf.totalCost > maxCost { maxCost := leaf.totalCost; }
      AdmitKeepsTree(explored, toExplore1, root.state, moves1, maxCost1, leaf, toExplore, moves, maxCost);
    }

    /** The pass over the `k`-th child, after which the first `k + 1` children are held. */
    method AdmitNext(leaves: seq<Leaf>, k: nat)
      requires Tree(explored, toExplore, root.state, moves, maxCost) && Expansion(explored, leaves)
      requires k < |leaves| && forall l :: 0 <= l < k ==> KnownAt(explored, toExplore, leaves, l)
      modifies this`toExplore, this`moves, this`maxCost
      ensures toExplore == if Known(explored, old(toExplore), leaves[k].state) then old(toExplore) else old(toExplore) + [leaves[k]]
      ensures moves == if leaves[k].depth > old(moves) then leaves[k].depth else old(moves)
      ensures maxCost == if leaves[k].totalCost > old(maxCost) then leaves[k].totalCost else old(maxCost)
      ensures Tree(explored, toExplore, root.state, moves, maxCost)
      ensures forall l :: 0 <= l <= k ==> KnownAt(explored, toExplore, leaves, l)
      ensures forall c :: Known(explored, old(toExplore), c) ==> Known(explored, toExplore, c)
    {
      ChildOk(explored, root.state, leaves, k);
      ghost var toExplore1 := toExplore;
      AdmitChild(leaves[k]);
      KnownAtStep(explored, toExplore1, toExplore, leaves, k);
    }

    /** The `for … of` loop of `aStarSearch` over the children of the leaf just explored
        (the last one of `explored`), which admits each in turn. */
    method AdmitChildren(leaves: seq<Leaf>)
      requires Tree(explored, toExplore, root.state, moves, maxCost) && Expansion(explored, leaves)
      modifies this`toExplore, this`moves, this`maxCost
      ensures toExplore == Admitted(explored, old(toExplore), leaves)
      ensures moves == RaisedMoves(old(moves), leaves) && maxCost == RaisedMaxCost(old(maxCost), leaves)
      ensures Tree(explored, toExplore, root.state, moves, maxCost)
      ensures forall k :: 0 <= k < |leaves| ==> KnownAt(explored, toExplore, leaves, k)
      ensures forall c :: Known(explored, old(toExplore), c) ==> Known(explored, toExplore, c)
    {
      for k := 0 to |leaves|
        invariant toExplore == Admitted(explored, old(toExplore), leaves[..k])
        invariant moves == RaisedMoves(old(moves), leaves[..k]) && maxCost == RaisedMaxCost(old(maxCost), leaves[..k])
        invariant Tree(explored, toExplore, root.state, moves, maxCost)
        invariant forall l :: 0 <= l < k ==> KnownAt(explored, toExplore, leaves, l)
        invariant forall c :: Known(explored, old(toExplore), c) ==> Known(explored, toExplore, c)
      {
        FoldsStep(explored, old(toExplore), old(moves), old(maxCost), leaves, k);
        AdmitNext(leaves, k);
      }
      assert leaves[..|leaves|] == leaves;
    }

    /** The path `reverseSolutionPath` builds for the leaf just explored: a walk by legal
        moves from the root's board to that leaf's board, one board per level. */
    method PathTo(currentLeaf: Leaf) returns (path: seq<seq<int>>)
      requires IsBoard(root.state) && Arena(explored, root.state)
      requires |explored| > 0 && explored[|explored| - 1] == currentLeaf
      ensures IsWalk(path) && path[0] == root.state && path[|path| - 1] == currentLeaf.state
      ensures |path| == currentLeaf.depth + 1
    {
      assert FitsAt(explored, |explored| - 1, root.state);
      ArenaRooted(explored, root.state, currentLeaf);
      path := ReverseSolutionPath(AsNodes(explored), AsNode(currentLeaf));
      ChainIsWalk(AsNodes(explored), AsNode(currentLeaf), root.state);
    }

    /** The rest of a round that did not reach the goal: the children of the leaf just
        explored are generated and admitted, after which that leaf is expanded too. */
    method Expand(currentLeaf: Leaf)
      requires Valid() && |explored| > 0 && explored[|explored| - 1] == currentLeaf
      requires IsBoard(currentLeaf.state) && Closed(explored, toExplore, |explored| - 1)
      modifies this`toExplore, this`createdLeaves, this`moves, this`maxCost
      ensures toExplore == Admitted(explored, old(toExplore), ChildLeaves(currentLeaf.state, currentLeaf.depth, |explored| - 1))
      ensures moves == RaisedMoves(old(moves), ChildLeaves(currentLeaf.state, currentLeaf.depth, |explored| - 1))
      ensures maxCost == RaisedMaxCost(old(maxCost), ChildLeaves(currentLeaf.state, currentLeaf.depth, |explored| - 1))
      ensures createdLeaves == old(createdLeaves) + |Successors(currentLeaf.state)|
      ensures old(moves) <= moves && old(maxCost) <= maxCost && old(createdLeaves) <= createdLeaves
      ensures Valid() && Closed(explored, toExplore, |explored|)
    {
      ghost var toExplore0, moves0, maxCost0 := toExplore, moves, maxCost;
      var leaves := GenerateNextDepthStates(currentLeaf, |explored| - 1);
      ExpansionOf(explored, currentLeaf, leaves);
      AdmitChildren(leaves);
      assert toExplore == Admitted(explored, toExplore0, leaves);
      assert moves == RaisedMoves(moves0, leaves) && maxCost == RaisedMaxCost(maxCost0, leaves);
      RaisedMovesBounds(moves0, leaves);
      RaisedMaxCostBounds(maxCost0, leaves);
      ClosedGrows(explored, toExplore0, toExplore, |explored| - 1);
      ClosedAfterExpansion(explored, toExplore, leaves);
    }

    /** `aStarSearch`. A returned path is a walk by legal moves from the root's board to
        the goal with one board per level of the goal leaf; `None` (the source's
        `undefined`) comes only with an empty frontier, and then no walk from the root's
        board reaches the goal. The counters never decrease, and `explored` only grows at
        its end. */
    method AStarSearch() returns (solution: Option<seq<seq<int>>>)
      requires Searching()
      modifies this`explored, this`toExplore, this`createdLeaves, this`moves, this`maxCost
      ensures Valid()
      ensures solution.Some? ==>
        IsSolutionPath(solution.value, root.state)
        && |explored| > 0 && explored[|explored| - 1].state == SOLVED_STATE
        && |solution.value| == explored[|explored| - 1].depth + 1
      ensures solution.None? ==>
        toExplore == [] && Searching()
        && forall w :: IsWalk(w) && w[0] == root.state ==> w[|w| - 1] != SOLVED_STATE
      ensures old(moves) <= moves && old(maxCost) <= maxCost && old(createdLeaves) <= createdLeaves
      ensures old(explored) <= explored
    {
      while |toExplore| > 0
        invariant Searching()
        invariant old(moves) <= moves && old(maxCost) <= maxCost && old(createdLeaves) <= createdLeaves
        invariant old(explored) <= explored
        decreases |AllSeqs(9)| - |explored|
      {
        ExploredBound(explored, toExplore, root.state, moves, maxCost);
        ghost var explored0, toExplore0 := explored, toExplore;
        var currentLeaf, leafIndex := FindBestLeaf();
        PopKeepsTree(explored0, toExplore0, root.state, moves, maxCost, leafIndex);
        assert FitsAt(explored, |explored0|, root.state);
        LeafIsBoard(currentLeaf, |explored0|, explored, root.state);

        if IsSolved(currentLeaf.state) {
          var path := PathTo(currentLeaf);
          return Some(path);
        }
        NoneSolvedAppend(explored0, currentLeaf);
        Expand(currentLeaf);
      }
      GoalUnreachable(explored, root.state);
      solution := None;
    }
  }
}
