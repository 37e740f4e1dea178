/**
 * The leaves of the A* search of src/lib/decision-tree.ts and the shape the search
 * keeps between rounds. The search holds a frontier `toExplore` and a list `explored`;
 * each round moves a leaf from the frontier to `explored` and admits its children.
 *
 * The source links a leaf to its parent by an object reference. Here a leaf's `parent`
 * is the index of the parent in `explored`, which only ever grows at its end, so the
 * index stays valid for the life of the tree.
 */
module SearchTree {
  import opened Wrappers
  import opened Board
  import opened Solver

  /* ---------------------------------------------------------------- leaves */

  /** A search leaf: a board, its depth, its heuristic cost, their sum, and the index of
      its parent in `explored` (none for the root). */
  datatype Leaf = Leaf(state: seq<int>, depth: int, cost: int, totalCost: int, parent: Option<nat>)

  /** The `Leaf` constructor: the cost is the heuristic of the state, and the total cost
      the depth plus that heuristic, so it never falls below the depth. */
  function NewLeaf(state: seq<int>, depth: int, parent: Option<nat>): (leaf: Leaf)
    ensures leaf.state == state && leaf.depth == depth && leaf.parent == parent
    ensures leaf.cost == HeuristicCost(state) && leaf.cost >= 0
    ensures leaf.totalCost == depth + leaf.cost && leaf.totalCost >= depth
  {
    var cost := HeuristicCost(state);
    Leaf(state, depth, cost, depth + cost, parent)
  }

  /** A leaf's total cost equals its depth exactly when its board is the goal: the
      heuristic adds nothing only there. */
  lemma NewLeafAtGoal(state: seq<int>, depth: int, parent: Option<nat>)
    requires IsBoard(state)
    ensures NewLeaf(state, depth, parent).totalCost == depth <==> IsSolved(state)
  {
    HeuristicZeroIffSolved(state);
  }

  /** The `Node` view of a leaf that `reverseSolutionPath` walks. */
  function AsNode(leaf: Leaf): (node: Node)
    ensures node.state == leaf.state && node.parent == leaf.parent && node.depth == leaf.depth
  {
    Node(leaf.state, leaf.parent, leaf.depth, leaf.cost)
  }

  function AsNodes(leaves: seq<Leaf>): (nodes: seq<Node>)
    ensures |nodes| == |leaves| && forall i :: 0 <= i < |leaves| ==> nodes[i] == AsNode(leaves[i])
  {
    seq(|leaves|, i requires 0 <= i < |leaves| => AsNode(leaves[i]))
  }

  /** `splice(i, 1)`: the list without its `i`-th element, the rest in order. */
  function Remove(leaves: seq<Leaf>, i: nat): (rest: seq<Leaf>)
    requires i < |leaves|
    ensures |rest| == |leaves| - 1
    ensures forall j :: 0 <= j < |rest| ==> rest[j] == if j < i then leaves[j] else leaves[j + 1]
  {
    leaves[..i] + leaves[i + 1..]
  }

  /** The `i`-th leaf of the list holds the state. */
  predicate HoldsAt(leaves: seq<Leaf>, i: nat, state: seq<int>)
    requires i < |leaves|
  {
    leaves[i].state == state
  }

  /** The `some(...)` test of `aStarSearch`: whether a leaf of the list holds the state.
      (Comparing the arrays' `toString()` forms is comparing the arrays, since the
      decimal form of an integer has no comma.) */
  function HasState(leaves: seq<Leaf>, state: seq<int>): (found: bool)
    ensures found <==> exists i :: 0 <= i < |leaves| && HoldsAt(leaves, i, state)
  {
    if |leaves| == 0 then false
    else if leaves[0].state == state then assert HoldsAt(leaves, 0, state); true
    else
      var found := HasState(leaves[1..], state);
      assert found ==> exists i :: 0 < i < |leaves| && HoldsAt(leaves, i, state) by {
        if found {
          var i :| 0 <= i < |leaves[1..]| && HoldsAt(leaves[1..], i, state);
          assert HoldsAt(leaves, i + 1, state);
        }
      }
      assert !found ==> forall i :: 0 <= i < |leaves| ==> !HoldsAt(leaves, i, state) by {
        if !found {
          forall i | 0 <= i < |leaves| ensures !HoldsAt(leaves, i, state) {
            if i > 0 {
              assert leaves[1..][i - 1] == leaves[i];
              assert !HoldsAt(leaves[1..], i - 1, state);
            }
          }
        }
      }
      found
  }

  /** A state one of the two lists already holds. */
  predicate Known(explored: seq<Leaf>, toExplore: seq<Leaf>, state: seq<int>)
  {
    HasState(explored, state) || HasState(toExplore, state)
  }

  /* ---------------------------------------------------------------- one expansion */

  /** The frontier after the `for … of` loop of `aStarSearch` has offered `leaves` in
      order: each child whose state neither `explored` nor the frontier built so far holds
      is appended, every other one is dropped. */
  function Admitted(explored: seq<Leaf>, frontier: seq<Leaf>, leaves: seq<Leaf>): seq<Leaf>
  {
    if |leaves| == 0 then frontier
    else
      var before := Admitted(explored, frontier, leaves[..|leaves| - 1]);
      var leaf := leaves[|leaves| - 1];
      if Known(explored, before, leaf.state) then before else before + [leaf]
  }

  /** `moves` after that loop: the largest of its value before and each child's depth. */
  function RaisedMoves(moves: int, leaves: seq<Leaf>): int
  {
    if |leaves| == 0 then moves
    else
      var before := RaisedMoves(moves, leaves[..|leaves| - 1]);
      var last := leaves[|leaves| - 1].depth;
      if last > before then last else before
  }

  /** `maxCost` after that loop: the largest of its value before and each child's total
      cost. */
  function RaisedMaxCost(maxCost: int, leaves: seq<Leaf>): int
  {
    if |leaves| == 0 then maxCost
    else
      var before := RaisedMaxCost(maxCost, leaves[..|leaves| - 1]);
      var last := leaves[|leaves| - 1].totalCost;
      if last > before then last else before
  }

  /** The frontier after the loop starts with the old one and gains at most one leaf per
      child, each of them one of the children. */
  lemma {:induction false} AdmittedShape(explored: seq<Leaf>, frontier: seq<Leaf>, leaves: seq<Leaf>)
    ensures var r := Admitted(explored, frontier, leaves);
      |frontier| <= |r| <= |frontier| + |leaves| && r[..|frontier|] == frontier
      && forall k :: |frontier| <= k < |r| ==> r[k] in leaves
  {
    if |leaves| > 0 {
      var init := leaves[..|leaves| - 1];
      AdmittedShape(explored, frontier, init);
      assert forall l :: l in init ==> l in leaves;
    }
  }

  /** `moves` after the loop is at least its old value and every child's depth, and is
      one of them. */
  lemma {:induction false} RaisedMovesBounds(moves: int, leaves: seq<Leaf>)
    ensures var r := RaisedMoves(moves, leaves);
      r >= moves && (forall k :: 0 <= k < |leaves| ==> r >= leaves[k].depth)
      && (r == moves || exists k :: 0 <= k < |leaves| && r == leaves[k].depth)
  {
    if |leaves| > 0 {
      var init := leaves[..|leaves| - 1];
      RaisedMovesBounds(moves, init);
      assert forall k :: 0 <= k < |init| ==> init[k] == leaves[k];
    }
  }

  /** `maxCost` after the loop is at least its old value and every child's total cost,
      and is one of them. */
  lemma {:induction false} RaisedMaxCostBounds(maxCost: int, leaves: seq<Leaf>)
    ensures var r := RaisedMaxCost(maxCost, leaves);
      r >= maxCost && (forall k :: 0 <= k < |leaves| ==> r >= leaves[k].totalCost)
      && (r == maxCost || exists k :: 0 <= k < |leaves| && r == leaves[k].totalCost)
  {
    if |leaves| > 0 {
      var init := leaves[..|leaves| - 1];
      RaisedMaxCostBounds(maxCost, init);
      assert forall k :: 0 <= k < |init| ==> init[k] == leaves[k];
    }
  }

  /** Proof step for `AdmitChildren`'s loop: the three folds over the first `k + 1`
      children are one pass over the `k`-th child after the folds over the first `k`. */
  lemma {:induction false} FoldsStep(explored: seq<Leaf>, frontier: seq<Leaf>, moves: int, maxCost: int, leaves: seq<Leaf>, k: nat)
    requires k < |leaves|
    ensures Admitted(explored, frontier, leaves[..k + 1])
      == var before := Admitted(explored, frontier, leaves[..k]);
         if Known(explored, before, leaves[k].state) then before else before + [leaves[k]]
    ensures RaisedMoves(moves, leaves[..k + 1])
      == var before := RaisedMoves(moves, leaves[..k]);
         if leaves[k].depth > before then leaves[k].depth else before
    ensures RaisedMaxCost(maxCost, leaves[..k + 1])
      == var before := RaisedMaxCost(maxCost, leaves[..k]);
         if leaves[k].totalCost > before then leaves[k].totalCost else before
  {
    assert leaves[..k + 1][..k] == leaves[..k];
  }

  /* ---------------------------------------------------------------- tree invariants */

  /** A leaf fits a tree rooted at `start` whose explored list is `explored`, with its
      parent among the first `bound` explored leaves: it is the root, or one move and one
      level below its parent. */
  predicate LeafOk(leaf: Leaf, bound: nat, explored: seq<Leaf>, start: seq<int>)
    requires bound <= |explored|
  {
    match leaf.parent
    case None => leaf.state == start && leaf.depth == 0
    case Some(p) => p < bound && leaf.depth == explored[p].depth + 1 && Step(explored[p].state, leaf.state)
  }

  /** Every leaf of a tree on a board holds a board. */
  lemma LeafIsBoard(leaf: Leaf, bound: nat, explored: seq<Leaf>, start: seq<int>)
    requires bound <= |explored| && IsBoard(start) && LeafOk(leaf, bound, explored, start)
    ensures IsBoard(leaf.state)
  {
    if leaf.parent.Some? {
      StepKeepsBoard(explored[leaf.parent.value].state, leaf.state);
    }
  }


  /** The counters `moves` and `maxCost` cover a generated (non-root) leaf. */
  predicate Counted(leaf: Leaf, moves: int, maxCost: int)
  {
    leaf.parent.Some? ==> leaf.depth <= moves && leaf.totalCost <= maxCost
  }

  /* The invariants below quantify over the positions of the lists and name what holds
     at one position by a predicate of its own, so that a proof meets the facts about a
     position only where it names that position. */

  /** The `i`-th explored leaf is the root or hangs off an earlier explored leaf. */
  predicate FitsAt(explored: seq<Leaf>, i: nat, start: seq<int>)
    requires i < |explored|
  {
    LeafOk(explored[i], i, explored, start)
  }

  /** The `j`-th frontier leaf is the root or hangs off an explored leaf. */
  predicate HangsOff(explored: seq<Leaf>, toExplore: seq<Leaf>, j: nat, start: seq<int>)
    requires j < |toExplore|
  {
    LeafOk(toExplore[j], |explored|, explored, start)
  }

  predicate CountedAt(leaves: seq<Leaf>, i: nat, moves: int, maxCost: int)
    requires i < |leaves|
  {
    Counted(leaves[i], moves, maxCost)
  }

  /** The `i`-th leaf of one list and the `j`-th of another hold different states. */
  predicate Differ(a: seq<Leaf>, i: nat, b: seq<Leaf>, j: nat)
    requires i < |a| && j < |b|
  {
    a[i].state != b[j].state
  }

  /** The explored leaves form an arena: each one is the root or hangs off an earlier one. */
  ghost predicate Arena(explored: seq<Leaf>, start: seq<int>)
  {
    forall i :: 0 <= i < |explored| ==> FitsAt(explored, i, start)
  }

  /** Every frontier leaf is the root or hangs off an explored leaf. */
  ghost predicate Frontier(explored: seq<Leaf>, toExplore: seq<Leaf>, start: seq<int>)
  {
    forall j :: 0 <= j < |toExplore| ==> HangsOff(explored, toExplore, j, start)
  }

  ghost predicate Covered(leaves: seq<Leaf>, moves: int, maxCost: int)
  {
    forall i :: 0 <= i < |leaves| ==> CountedAt(leaves, i, moves, maxCost)
  }

  ghost predicate DistinctStates(leaves: seq<Leaf>)
  {
    forall i, j :: 0 <= i < j < |leaves| ==> Differ(leaves, i, leaves, j)
  }

  /** No state is both explored and on the frontier. */
  ghost predicate Apart(explored: seq<Leaf>, toExplore: seq<Leaf>)
  {
    forall i, j :: 0 <= i < |explored| && 0 <= j < |toExplore| ==> Differ(explored, i, toExplore, j)
  }

  /** The shape of the tree between two rounds: an arena of explored leaves, a frontier
      hanging off it, no state twice across the two lists, the root's board in one of
      them, and counters covering every generated leaf. */
  ghost predicate Tree(explored: seq<Leaf>, toExplore: seq<Leaf>, start: seq<int>, moves: int, maxCost: int)
  {
    IsBoard(start) && Arena(explored, start) && Frontier(explored, toExplore, start)
    && Covered(explored, moves, maxCost) && Covered(toExplore, moves, maxCost)
    && DistinctStates(explored) && DistinctStates(toExplore) && Apart(explored, toExplore)
    && Known(explored, toExplore, start)
  }

  /** The `i`-th explored leaf has been expanded: each board one move away from its
      board is held by one of the lists. */
  ghost predicate Expanded(explored: seq<Leaf>, toExplore: seq<Leaf>, i: nat)
    requires i < |explored|
  {
    forall c {:trigger Step(explored[i].state, c)} ::
      Step(explored[i].state, c) ==> Known(explored, toExplore, c)
  }

  /** The first `n` explored leaves have been expanded. */
  ghost predicate Closed(explored: seq<Leaf>, toExplore: seq<Leaf>, n: nat)
  {
    n <= |explored| && forall i :: 0 <= i < n ==> Expanded(explored, toExplore, i)
  }

  predicate UnsolvedAt(explored: seq<Leaf>, i: nat)
    requires i < |explored|
  {
    !IsSolved(explored[i].state)
  }

  /** No explored leaf holds the goal. */
  ghost predicate NoneSolved(explored: seq<Leaf>)
  {
    forall i :: 0 <= i < |explored| ==> UnsolvedAt(explored, i)
  }

  lemma NoneSolvedAppend(explored: seq<Leaf>, leaf: Leaf)
    requires NoneSolved(explored) && !IsSolved(leaf.state)
    ensures NoneSolved(explored + [leaf])
  {
    var e := explored + [leaf];
    forall i | 0 <= i < |e| ensures UnsolvedAt(e, i) {
      if i < |explored| { assert e[i] == explored[i] && UnsolvedAt(explored, i); }
    }
  }

  lemma LeafOkExtend(leaf: Leaf, bound: nat, explored: seq<Leaf>, x: Leaf, start: seq<int>)
    requires bound <= |explored| && LeafOk(leaf, bound, explored, start)
    ensures LeafOk(leaf, bound, explored + [x], start) && LeafOk(leaf, bound + 1, explored + [x], start)
  {
    if leaf.parent.Some? { assert (explored + [x])[leaf.parent.value] == explored[leaf.parent.value]; }
  }

  /** Moving a frontier leaf to the end of `explored` keeps every link valid. */
  lemma PopArena(explored: seq<Leaf>, toExplore: seq<Leaf>, start: seq<int>, i: nat)
    requires i < |toExplore| && Arena(explored, start) && Frontier(explored, toExplore, start)
    ensures Arena(explored + [toExplore[i]], start)
    ensures Frontier(explored + [toExplore[i]], Remove(toExplore, i), start)
  {
    var x := toExplore[i];
    var e, t := explored + [x], Remove(toExplore, i);
    forall k | 0 <= k < |e| ensures FitsAt(e, k, start) {
      if k < |explored| {
        assert e[k] == explored[k] && FitsAt(explored, k, start);
        LeafOkExtend(explored[k], k, explored, x, start);
      } else {
        assert HangsOff(explored, toExplore, i, start);
        LeafOkExtend(x, |explored|, explored, x, start);
      }
    }
    forall k | 0 <= k < |t| ensures HangsOff(e, t, k, start) {
      var m := if k < i then k else k + 1;
      assert t[k] == toExplore[m] && HangsOff(explored, toExplore, m, start);
      LeafOkExtend(toExplore[m], |explored|, explored, x, start);
    }
  }

  lemma CoveredRemove(leaves: seq<Leaf>, i: nat, moves: int, maxCost: int)
    requires i < |leaves| && Covered(leaves, moves, maxCost)
    ensures Covered(Remove(leaves, i), moves, maxCost) && Counted(leaves[i], moves, maxCost)
  {
    var t := Remove(leaves, i);
    assert CountedAt(leaves, i, moves, maxCost);
    forall k | 0 <= k < |t| ensures CountedAt(t, k, moves, maxCost) {
      var m := if k < i then k else k + 1;
      assert t[k] == leaves[m] && CountedAt(leaves, m, moves, maxCost);
    }
  }

  lemma CoveredAppend(leaves: seq<Leaf>, x: Leaf, moves: int, maxCost: int)
    requires Covered(leaves, moves, maxCost) && Counted(x, moves, maxCost)
    ensures Covered(leaves + [x], moves, maxCost)
  {
    var t := leaves + [x];
    forall k | 0 <= k < |t| ensures CountedAt(t, k, moves, maxCost) {
      if k < |leaves| { assert t[k] == leaves[k] && CountedAt(leaves, k, moves, maxCost); }
    }
  }

  lemma CoveredRaise(leaves: seq<Leaf>, moves: int, maxCost: int, moves': int, maxCost': int)
    requires Covered(leaves, moves, maxCost) && moves <= moves' && maxCost <= maxCost'
    ensures Covered(leaves, moves', maxCost')
  {
    forall k | 0 <= k < |leaves| ensures CountedAt(leaves, k, moves', maxCost') {
      assert CountedAt(leaves, k, moves, maxCost);
    }
  }

  /** Moving a frontier leaf to `explored` keeps every state in one place. */
  lemma PopDistinct(explored: seq<Leaf>, toExplore: seq<Leaf>, i: nat)
    requires i < |toExplore| && DistinctStates(explored) && DistinctStates(toExplore) && Apart(explored, toExplore)
    ensures DistinctStates(explored + [toExplore[i]]) && DistinctStates(Remove(toExplore, i))
    ensures Apart(explored + [toExplore[i]], Remove(toExplore, i))
  {
    var e, t := explored + [toExplore[i]], Remove(toExplore, i);
    forall a, b | 0 <= a < b < |e| ensures Differ(e, a, e, b) {
      assert e[a] == explored[a];
      if b == |explored| {
        assert e[b] == toExplore[i] && Differ(explored, a, toExplore, i);
      } else {
        assert e[b] == explored[b] && Differ(explored, a, explored, b);
      }
    }
    forall a, b | 0 <= a < b < |t| ensures Differ(t, a, t, b) {
      var ma := if a < i then a else a + 1;
      var mb := if b < i then b else b + 1;
      assert t[a] == toExplore[ma] && t[b] == toExplore[mb] && Differ(toExplore, ma, toExplore, mb);
    }
    forall a, b | 0 <= a < |e| && 0 <= b < |t| ensures Differ(e, a, t, b) {
      var mb := if b < i then b else b + 1;
      assert t[b] == toExplore[mb];
      if a < |explored| {
        assert e[a] == explored[a] && Differ(explored, a, toExplore, mb);
      } else if mb < i {
        assert e[a] == toExplore[i] && Differ(toExplore, mb, toExplore, i);
      } else {
        assert e[a] == toExplore[i] && Differ(toExplore, i, toExplore, mb);
      }
    }
  }

  /** What the lists hold stays held when a frontier leaf moves to `explored`. */
  lemma KnownAfterPop(explored: seq<Leaf>, toExplore: seq<Leaf>, i: nat, c: seq<int>)
    requires i < |toExplore| && Known(explored, toExplore, c)
    ensures Known(explored + [toExplore[i]], Remove(toExplore, i), c)
  {
    var e, t := explored + [toExplore[i]], Remove(toExplore, i);
    if HasState(explored, c) {
      var k :| 0 <= k < |explored| && HoldsAt(explored, k, c);
      assert e[k] == explored[k] && HoldsAt(e, k, c);
    } else {
      var k :| 0 <= k < |toExplore| && HoldsAt(toExplore, k, c);
      if k == i { assert e[|explored|] == toExplore[i] && HoldsAt(e, |explored|, c); }
      else if k < i { assert t[k] == toExplore[k] && HoldsAt(t, k, c); }
      else { assert t[k - 1] == toExplore[k] && HoldsAt(t, k - 1, c); }
    }
  }

  lemma ClosedAfterPop(explored: seq<Leaf>, toExplore: seq<Leaf>, i: nat)
    requires i < |toExplore| && Closed(explored, toExplore, |explored|)
    ensures Closed(explored + [toExplore[i]], Remove(toExplore, i), |explored|)
  {
    var e, t := explored + [toExplore[i]], Remove(toExplore, i);
    forall a | 0 <= a < |explored| ensures Expanded(e, t, a) {
      assert e[a] == explored[a] && Expanded(explored, toExplore, a);
      forall c | Step(e[a].state, c) ensures Known(e, t, c) {
        KnownAfterPop(explored, toExplore, i, c);
      }
    }
  }

  /** `findBestLeaf` keeps the tree's shape, and the leaves expanded before stay expanded. */
  lemma PopKeepsTree(explored: seq<Leaf>, toExplore: seq<Leaf>, start: seq<int>, moves: int, maxCost: int, i: nat)
    requires Tree(explored, toExplore, start, moves, maxCost) && i < |toExplore|
    ensures Tree(explored + [toExplore[i]], Remove(toExplore, i), start, moves, maxCost)
    ensures Closed(explored, toExplore, |explored|) ==>
      Closed(explored + [toExplore[i]], Remove(toExplore, i), |explored|)
  {
    PopArena(explored, toExplore, start, i);
    CoveredRemove(toExplore, i, moves, maxCost);
    CoveredAppend(explored, toExplore[i], moves, maxCost);
    PopDistinct(explored, toExplore, i);
    KnownAfterPop(explored, toExplore, i, start);
    if Closed(explored, toExplore, |explored|) { ClosedAfterPop(explored, toExplore, i); }
  }

  /** Appending a leaf to the frontier forgets nothing and holds the new leaf's state. */
  lemma KnownAfterPush(explored: seq<Leaf>, toExplore: seq<Leaf>, leaf: Leaf, c: seq<int>)
    requires Known(explored, toExplore, c) || c == leaf.state
    ensures Known(explored, toExplore + [leaf], c)
  {
    var t := toExplore + [leaf];
    if c == leaf.state {
      assert t[|toExplore|] == leaf && HoldsAt(t, |toExplore|, c);
    } else if HasState(toExplore, c) {
      var k :| 0 <= k < |toExplore| && HoldsAt(toExplore, k, c);
      assert t[k] == toExplore[k] && HoldsAt(t, k, c);
    }
  }

  /** A leaf whose state neither list holds keeps the states apart when appended. */
  lemma PushDistinct(explored: seq<Leaf>, toExplore: seq<Leaf>, leaf: Leaf)
    requires DistinctStates(toExplore) && Apart(explored, toExplore) && !Known(explored, toExplore, leaf.state)
    ensures DistinctStates(toExplore + [leaf]) && Apart(explored, toExplore + [leaf])
  {
    var t := toExplore + [leaf];
    forall a, b | 0 <= a < b < |t| ensures Differ(t, a, t, b) {
      assert t[a] == toExplore[a];
      if b == |toExplore| {
        assert t[b] == leaf && !HoldsAt(toExplore, a, leaf.state);
      } else {
        assert t[b] == toExplore[b] && Differ(toExplore, a, toExplore, b);
      }
    }
    forall a, b | 0 <= a < |explored| && 0 <= b < |t| ensures Differ(explored, a, t, b) {
      if b == |toExplore| {
        assert t[b] == leaf && !HoldsAt(explored, a, leaf.state);
      } else {
        assert t[b] == toExplore[b] && Differ(explored, a, toExplore, b);
      }
    }
  }

  lemma FrontierPush(explored: seq<Leaf>, toExplore: seq<Leaf>, leaf: Leaf, start: seq<int>)
    requires Frontier(explored, toExplore, start) && LeafOk(leaf, |explored|, explored, start)
    ensures Frontier(explored, toExplore + [leaf], start)
  {
    var t := toExplore + [leaf];
    forall k | 0 <= k < |t| ensures HangsOff(explored, t, k, start) {
      if k < |toExplore| { assert t[k] == toExplore[k] && HangsOff(explored, toExplore, k, start); }
    }
  }

  /** Admitting a child (when no list holds its state) and raising the counters to cover
      it keeps the tree's shape, holds the child's state afterwards, and forgets nothing. */
  lemma AdmitKeepsTree(explored: seq<Leaf>, toExplore: seq<Leaf>, start: seq<int>, moves: int, maxCost: int,
                       leaf: Leaf, toExplore': seq<Leaf>, moves': int, maxCost': int)
    requires Tree(explored, toExplore, start, moves, maxCost)
    requires LeafOk(leaf, |explored|, explored, start)
    requires toExplore' == if Known(explored, toExplore, leaf.state) then toExplore else toExplore + [leaf]
    requires moves <= moves' && maxCost <= maxCost' && Counted(leaf, moves', maxCost')
    ensures Tree(explored, toExplore', start, moves', maxCost')
    ensures Known(explored, toExplore', leaf.state)
    ensures forall c :: Known(explored, toExplore, c) ==> Known(explored, toExplore', c)
  {
    CoveredRaise(explored, moves, maxCost, moves', maxCost');
    CoveredRaise(toExplore, moves, maxCost, moves', maxCost');
    if !Known(explored, toExplore, leaf.state) {
      FrontierPush(explored, toExplore, leaf, start);
      CoveredAppend(toExplore, leaf, moves', maxCost');
      PushDistinct(explored, toExplore, leaf);
      KnownAfterPush(explored, toExplore, leaf, start);
      KnownAfterPush(explored, toExplore, leaf, leaf.state);
      forall c | Known(explored, toExplore, c) ensures Known(explored, toExplore', c) {
        KnownAfterPush(explored, toExplore, leaf, c);
      }
    }
  }

  lemma ClosedGrows(explored: seq<Leaf>, toExplore: seq<Leaf>, toExplore': seq<Leaf>, n: nat)
    requires Closed(explored, toExplore, n)
    requires forall c :: Known(explored, toExplore, c) ==> Known(explored, toExplore', c)
    ensures Closed(explored, toExplore', n)
  {
    forall i | 0 <= i < n ensures Expanded(explored, toExplore', i) {
      assert Expanded(explored, toExplore, i);
    }
  }

  /** The `k`-th leaf of `leaves` is the `k`-th child of the last explored leaf: its
      board is that leaf's board after the `k`-th valid move, one level deeper, and it
      links to that leaf. */
  predicate ChildAt(explored: seq<Leaf>, leaves: seq<Leaf>, k: nat)
    requires k < |leaves|
  {
    var last := |explored| - 1;
    last >= 0 && IsBoard(explored[last].state) && k < |Successors(explored[last].state)|
    && leaves[k].state == Successors(explored[last].state)[k]
    && leaves[k].depth == explored[last].depth + 1 && leaves[k].parent == Some(last)
  }

  /** `leaves` are the children made of the last explored leaf, one per valid move. */
  predicate Expansion(explored: seq<Leaf>, leaves: seq<Leaf>)
  {
    |explored| > 0 && IsBoard(explored[|explored| - 1].state)
    && |leaves| == |Successors(explored[|explored| - 1].state)|
    && forall k :: 0 <= k < |leaves| ==> ChildAt(explored, leaves, k)
  }

  /** The leaves `generateNextDepthStates` makes of the last explored leaf are its
      expansion. */
  lemma ExpansionOf(explored: seq<Leaf>, parent: Leaf, leaves: seq<Leaf>)
    requires |explored| > 0 && explored[|explored| - 1] == parent && IsBoard(parent.state)
    requires |leaves| == |Successors(parent.state)|
    requires forall k :: 0 <= k < |leaves| ==>
      leaves[k] == NewLeaf(Successors(parent.state)[k], parent.depth + 1, Some(|explored| - 1))
    ensures Expansion(explored, leaves)
  {
    forall k | 0 <= k < |leaves| ensures ChildAt(explored, leaves, k) {
      var leaf := NewLeaf(Successors(parent.state)[k], parent.depth + 1, Some(|explored| - 1));
      assert leaves[k] == leaf;
    }
  }

  /** One of the lists holds the state of the `k`-th leaf of `leaves`. */
  predicate KnownAt(explored: seq<Leaf>, toExplore: seq<Leaf>, leaves: seq<Leaf>, k: nat)
    requires k < |leaves|
  {
    Known(explored, toExplore, leaves[k].state)
  }

  /** A child of the last explored leaf fits the tree. */
  lemma ChildOk(explored: seq<Leaf>, start: seq<int>, leaves: seq<Leaf>, k: nat)
    requires k < |leaves| && Expansion(explored, leaves)
    ensures LeafOk(leaves[k], |explored|, explored, start)
  {
    assert ChildAt(explored, leaves, k);
    var b := explored[|explored| - 1].state;
    assert Successors(b)[k] in Successors(b);
  }

  /** Admitting the `k`-th child, which loses no state already held, extends the run of
      held children by one. */
  lemma KnownAtStep(explored: seq<Leaf>, toExplore: seq<Leaf>, toExplore': seq<Leaf>, leaves: seq<Leaf>, k: nat)
    requires k < |leaves| && forall l :: 0 <= l < k ==> KnownAt(explored, toExplore, leaves, l)
    requires forall c :: Known(explored, toExplore, c) ==> Known(explored, toExplore', c)
    requires Known(explored, toExplore', leaves[k].state)
    ensures forall l :: 0 <= l <= k ==> KnownAt(explored, toExplore', leaves, l)
  {
    forall l | 0 <= l <= k ensures KnownAt(explored, toExplore', leaves, l) {
      if l < k { assert KnownAt(explored, toExplore, leaves, l); }
    }
  }

  /** Once every child of the last explored leaf is held, that leaf is expanded too. */
  lemma ClosedAfterExpansion(explored: seq<Leaf>, toExplore: seq<Leaf>, leaves: seq<Leaf>)
    requires |explored| > 0 && Closed(explored, toExplore, |explored| - 1) && Expansion(explored, leaves)
    requires forall k :: 0 <= k < |leaves| ==> KnownAt(explored, toExplore, leaves, k)
    ensures Closed(explored, toExplore, |explored|)
  {
    var last := |explored| - 1;
    var children := Successors(explored[last].state);
    forall c | Step(explored[last].state, c) ensures Known(explored, toExplore, c) {
      var k :| 0 <= k < |children| && children[k] == c;
      assert ChildAt(explored, leaves, k) && KnownAt(explored, toExplore, leaves, k);
    }
    assert Expanded(explored, toExplore, last);
  }

  /** The explored states are distinct boards, so while the frontier is not empty the
      explored list is shorter than the number of nine-cell sequences over 0..8. */
  lemma ExploredBound(explored: seq<Leaf>, toExplore: seq<Leaf>, start: seq<int>, moves: int, maxCost: int)
    requires Tree(explored, toExplore, start, moves, maxCost) && |toExplore| > 0
    ensures |explored| < |AllSeqs(9)|
  {
    var n := |explored|;
    var s := seq(n + 1, i requires 0 <= i <= n => if i < n then explored[i].state else toExplore[0].state);
    forall i | 0 <= i < |s| ensures s[i] in AllSeqs(9) {
      if i < n {
        assert FitsAt(explored, i, start);
        LeafIsBoard(explored[i], i, explored, start);
      } else {
        assert HangsOff(explored, toExplore, 0, start);
        LeafIsBoard(toExplore[0], |explored|, explored, start);
      }
      InAllSeqs(s[i]);
    }
    forall i, j | 0 <= i < j < |s| ensures s[i] != s[j] {
      if j < n { assert Differ(explored, i, explored, j); }
      else { assert Differ(explored, i, toExplore, 0); }
    }
    DistinctBound(s, AllSeqs(9));
  }

  /** The explored leaves form a rooted arena of nodes, and a leaf fitting the tree hangs
      off it. */
  lemma ArenaRooted(explored: seq<Leaf>, start: seq<int>, leaf: Leaf)
    requires Arena(explored, start) && LeafOk(leaf, |explored|, explored, start)
    ensures Rooted(AsNodes(explored), start)
    ensures LinkBelow(AsNode(leaf), |explored|) && Grown(AsNodes(explored), AsNode(leaf), start)
  {
    var arena := AsNodes(explored);
    forall i | 0 <= i < |arena| ensures LinkBelow(arena[i], i) && Grown(arena, arena[i], start) {
      assert FitsAt(explored, i, start);
    }
  }

  /** With the frontier empty and every explored leaf expanded, each board a walk from
      the root's board reaches is explored. */
  lemma {:induction false} WalkStaysExplored(explored: seq<Leaf>, w: seq<seq<int>>, k: nat)
    requires Closed(explored, [], |explored|) && IsWalk(w) && HasState(explored, w[0]) && k < |w|
    ensures HasState(explored, w[k])
  {
    if k > 0 {
      WalkStaysExplored(explored, w, k - 1);
      var i :| 0 <= i < |explored| && HoldsAt(explored, i, w[k - 1]);
      assert Expanded(explored, [], i);
      assert Step(explored[i].state, w[k]);
      assert Known(explored, [], w[k]);
    }
  }

  /** An exhausted search proves the goal unreachable: no walk from the root's board
      ends at the goal. */
  lemma GoalUnreachable(explored: seq<Leaf>, start: seq<int>)
    requires Closed(explored, [], |explored|) && Known(explored, [], start) && NoneSolved(explored)
    ensures forall w :: IsWalk(w) && w[0] == start ==> w[|w| - 1] != SOLVED_STATE
  {
    forall w | IsWalk(w) && w[0] == start ensures w[|w| - 1] != SOLVED_STATE {
      WalkStaysExplored(explored, w, |w| - 1);
      var i :| 0 <= i < |explored| && HoldsAt(explored, i, w[|w| - 1]);
      assert UnsolvedAt(explored, i);
    }
  }

}
