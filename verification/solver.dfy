/** The A* solver: search nodes linked to their predecessors, a min-priority
    queue of nodes, one search step, the lockstep search of a board and its
    twin, and the result accessors. */
module Solvers {
  import opened Wrappers
  import opened JavaInt
  import opened Boards

  // ---------------------------------------------------------------------
  // Search nodes

  /** A search node (`Heuristic`): a board, the number of moves made to reach
      it, the node it was expanded from, and the board's Manhattan distance,
      computed once when the node is made. */
  datatype Node = Node(board: Board, moves: int, previous: Option<Node>, manhattan: int)

  /** `new Heuristic(board, moves, previous)`. */
  function NewNode(board: Board, moves: int, previous: Option<Node>): (h: Node)
    ensures h.board == board && h.moves == moves && h.previous == previous
    ensures Priority(h) == moves + Manhattan(board)
  {
    Node(board, moves, previous, Manhattan(board))
  }

  /** `priority()`: moves so far plus the estimate of the moves to go. */
  function Priority(h: Node): int
  {
    h.moves + h.manhattan
  }

  /** `compareTo`: nodes are ordered by priority alone. */
  function CompareNodes(a: Node, b: Node): int
  {
    Compare(Priority(a), Priority(b))
  }

  /** The node order is a total preorder on priorities: the result is -1, 0
      or 1 as a's priority is below, equal to or above b's, it flips sign when
      the arguments are exchanged, and it is transitive. */
  lemma CompareNodesOrder(a: Node, b: Node, c: Node)
    ensures CompareNodes(a, b) in {-1, 0, 1}
    ensures CompareNodes(a, b) < 0 <==> Priority(a) < Priority(b)
    ensures CompareNodes(a, b) == 0 <==> Priority(a) == Priority(b)
    ensures CompareNodes(a, b) == -CompareNodes(b, a)
    ensures CompareNodes(a, b) <= 0 && CompareNodes(b, c) <= 0 ==> CompareNodes(a, c) <= 0
  {
  }

  // ---------------------------------------------------------------------
  // The priority queue

  /** `MinPQ<Heuristic>`: the nodes waiting to be expanded. */
  type Queue = multiset<Node>

  /** h is a node of pq that no node of pq precedes: one `delMin` may return. */
  predicate IsMin(h: Node, pq: Queue)
  {
    h in pq && forall x :: x in pq ==> CompareNodes(h, x) <= 0
  }

  /** A non-empty queue has a minimum. */
  lemma {:induction false} MinExists(pq: Queue)
    requires |pq| > 0
    ensures exists h :: IsMin(h, pq)
    decreases |pq|
  {
    var x :| x in pq;
    var rest := pq - multiset{x};
    assert forall y :: y in pq ==> y == x || y in rest;
    if |rest| == 0 {
      assert IsMin(x, pq);
    } else {
      MinExists(rest);
      var m :| IsMin(m, rest);
      if Priority(x) <= Priority(m) {
        assert IsMin(x, pq);
      } else {
        assert IsMin(m, pq);
      }
    }
  }

  // ---------------------------------------------------------------------
  // Expanding a node

  /** The boards a node's expansion compares against are well formed. */
  predicate NodeWf(h: Node)
  {
    h.board.Wf() && (h.previous.Some? ==> h.previous.value.board.Wf())
  }

  /** The expansion keeps neighbour nb: there is no predecessor, or its board
      is not equal to nb. */
  predicate Kept(cur: Node, nb: Board)
    requires NodeWf(cur) && nb.Wf()
  {
    cur.previous.None? || !Equals(nb, cur.previous.value.board)
  }

  /** The nodes pushed for the boards nbs, in order: one per board that
      differs from the predecessor's, one move further, linked back to cur. */
  function Expand(cur: Node, nbs: seq<Board>): (r: seq<Node>)
    requires NodeWf(cur) && forall b :: b in nbs ==> b.Wf()
    ensures |r| <= |nbs|
  {
    if nbs == [] then []
    else Pushed(cur, nbs[0]) + Expand(cur, nbs[1..])
  }

  /** Every pushed node is the node of a kept board of nbs, and every kept
      board of nbs has its node pushed. */
  lemma {:induction false} ExpandSpec(cur: Node, nbs: seq<Board>)
    requires NodeWf(cur) && forall b :: b in nbs ==> b.Wf()
    ensures forall h :: h in Expand(cur, nbs) ==>
              && h.board in nbs && Kept(cur, h.board)
              && h == NewNode(h.board, cur.moves + 1, Some(cur))
    ensures forall nb :: nb in nbs && Kept(cur, nb) ==>
              NewNode(nb, cur.moves + 1, Some(cur)) in Expand(cur, nbs)
    decreases |nbs|
  {
    if nbs != [] {
      ExpandSpec(cur, nbs[1..]);
      assert nbs == [nbs[0]] + nbs[1..];
    }
  }

  /** Expand pushes a kept board's node exactly as many times as the board
      occurs among nbs. */
  lemma {:induction false} ExpandCount(cur: Node, nbs: seq<Board>, nb: Board)
    requires NodeWf(cur) && forall b :: b in nbs ==> b.Wf()
    requires nb.Wf() && Kept(cur, nb)
    ensures multiset(Expand(cur, nbs))[NewNode(nb, cur.moves + 1, Some(cur))] == multiset(nbs)[nb]
    decreases |nbs|
  {
    if nbs == [] {
      assert Expand(cur, nbs) == [];
    } else {
      ExpandCount(cur, nbs[1..], nb);
      ExpandHeadCount(cur, nbs, nb);
      HeadCount(nbs, nb);
    }
  }

  /** The first board of nbs adds one copy of nb's node exactly when it is nb. */
  lemma ExpandHeadCount(cur: Node, nbs: seq<Board>, nb: Board)
    requires NodeWf(cur) && forall b :: b in nbs ==> b.Wf()
    requires nb.Wf() && Kept(cur, nb) && nbs != []
    ensures var h := NewNode(nb, cur.moves + 1, Some(cur));
            multiset(Expand(cur, nbs))[h]
              == multiset([nbs[0]])[nb] + multiset(Expand(cur, nbs[1..]))[h]
  {
    var head := Pushed(cur, nbs[0]);
    assert Expand(cur, nbs) == head + Expand(cur, nbs[1..]);
    ConcatCount(head, Expand(cur, nbs[1..]), NewNode(nb, cur.moves + 1, Some(cur)));
    PushedCount(cur, nbs[0], nb);
  }

  /** What the expansion pushes for one neighbour b. */
  function Pushed(cur: Node, b: Board): seq<Node>
    requires NodeWf(cur) && b.Wf()
  {
    if Kept(cur, b) then [NewNode(b, cur.moves + 1, Some(cur))] else []
  }

  /** Neighbour b pushes one copy of kept board nb's node exactly when b is nb. */
  lemma PushedCount(cur: Node, b: Board, nb: Board)
    requires NodeWf(cur) && b.Wf() && nb.Wf() && Kept(cur, nb)
    ensures multiset(Pushed(cur, b))[NewNode(nb, cur.moves + 1, Some(cur))] == multiset([b])[nb]
  {
    var h := NewNode(nb, cur.moves + 1, Some(cur));
    if b == nb {
      assert Pushed(cur, b) == [h];
    } else {
      assert h !in Pushed(cur, b);
    }
  }

  /** The occurrences of x in a + b. */
  lemma ConcatCount<T>(a: seq<T>, b: seq<T>, x: T)
    ensures multiset(a + b)[x] == multiset(a)[x] + multiset(b)[x]
  {
  }

  /** The occurrences of x in a non-empty sequence: the head's plus the tail's. */
  lemma HeadCount<T>(s: seq<T>, x: T)
    requires s != []
    ensures multiset(s)[x] == multiset([s[0]])[x] + multiset(s[1..])[x]
  {
    assert s == [s[0]] + s[1..];
  }

  /** The nodes one expansion of cur pushes. */
  function Successors(cur: Node): seq<Node>
    requires NodeWf(cur)
  {
    NeighborsWf(cur.board);
    Expand(cur, Neighbors(cur.board))
  }

  lemma NeighborsWf(b: Board)
    requires b.Wf()
    ensures forall c :: c in Neighbors(b) ==> c.Wf()
  {
    var nbs := Neighbors(b);
    forall c | c in nbs
      ensures c.Wf()
    {
      var k :| 0 <= k < |nbs| && nbs[k] == c;
      assert IsMove(b, nbs[k], LegalMoves(b)[k]);
    }
  }

  /** One expansion pushes, for each neighbour whose board differs from the
      predecessor's, one node per occurrence of that neighbour and nothing
      else; each is one move further and linked back to cur. */
  lemma SuccessorsSpec(cur: Node)
    requires NodeWf(cur)
    ensures |Successors(cur)| <= |Neighbors(cur.board)|
    ensures forall h :: h in Successors(cur) ==>
              && h.board in Neighbors(cur.board) && h.board.Wf() && Kept(cur, h.board)
              && h.moves == cur.moves + 1 && h.previous == Some(cur)
              && h.manhattan == Manhattan(h.board)
    ensures forall nb :: nb in Neighbors(cur.board) && nb.Wf() && Kept(cur, nb) ==>
              NewNode(nb, cur.moves + 1, Some(cur)) in Successors(cur)
    ensures forall nb: Board :: nb.Wf() && Kept(cur, nb) ==>
              multiset(Successors(cur))[NewNode(nb, cur.moves + 1, Some(cur))]
                == multiset(Neighbors(cur.board))[nb]
  {
    var nbs := Neighbors(cur.board);
    NeighborsWf(cur.board);
    var r := Expand(cur, nbs);
    assert Successors(cur) == r;
    ExpandSpec(cur, nbs);
    forall nb: Board | nb.Wf() && Kept(cur, nb)
      ensures multiset(r)[NewNode(nb, cur.moves + 1, Some(cur))] == multiset(nbs)[nb]
    {
      ExpandCount(cur, nbs, nb);
    }
    forall h | h in r
      ensures h.board in nbs && h.board.Wf() && Kept(cur, h.board)
      ensures h.moves == cur.moves + 1 && h.previous == Some(cur)
      ensures h.manhattan == Manhattan(h.board)
    {
      ExpandedNode(cur, nbs, h);
    }
  }

  /** A node an expansion pushes, field by field. */
  lemma ExpandedNode(cur: Node, nbs: seq<Board>, h: Node)
    requires NodeWf(cur) && forall b :: b in nbs ==> b.Wf()
    requires h in Expand(cur, nbs)
    ensures h.board in nbs && h.board.Wf() && Kept(cur, h.board)
    ensures h.moves == cur.moves + 1 && h.previous == Some(cur)
    ensures h.manhattan == Manhattan(h.board)
  {
    ExpandSpec(cur, nbs);
    assert h == NewNode(h.board, cur.moves + 1, Some(cur));
  }

  /** Every node in the queue has well-formed boards to compare against. */
  ghost predicate QueueWf(pq: Queue)
  {
    forall h :: h in pq ==> NodeWf(h)
  }

  /** `solveStep(pq)`: on an empty queue, no goal and nothing changes;
      otherwise a minimum node is removed and is returned if its board is the
      goal, the rest of the queue untouched; if not, its successors are
      pushed and nothing is returned. */
  method SolveStep(pq: Queue) returns (goal: Option<Node>, pq': Queue)
    requires QueueWf(pq)
    ensures |pq| == 0 ==> goal.None? && pq' == pq
    ensures goal.Some? ==>
              && IsMin(goal.value, pq) && IsGoal(goal.value.board)
              && pq' == pq - multiset{goal.value}
    ensures goal.None? && |pq| > 0 ==>
              exists cur :: && IsMin(cur, pq) && NodeWf(cur) && !IsGoal(cur.board)
                            && pq' == pq - multiset{cur} + multiset(Successors(cur))
  {
    if |pq| == 0 {
      return None, pq;
    }
    MinExists(pq);
    var current :| IsMin(current, pq);
    var rest := pq - multiset{current};
    if IsGoal(current.board) {
      return Some(current), rest;
    }
    return None, rest + multiset(Successors(current));
  }

  // ---------------------------------------------------------------------
  // The search invariant

  /** h descends from a root node for board `root`: its move count is the
      number of predecessor links, each board is a neighbour of the board
      before it, and each node's Manhattan distance is its board's. */
  ghost predicate Rooted(h: Node, root: Board)
    decreases h
  {
    && h.board.Wf()
    && h.manhattan == Manhattan(h.board)
    && match h.previous
       case None => h.moves == 0 && h.board == root
       case Some(p) => Rooted(p, root) && h.moves == p.moves + 1 && h.board in Neighbors(p.board)
  }

  ghost predicate QueueRooted(pq: Queue, root: Board)
  {
    forall h :: h in pq ==> Rooted(h, root)
  }

  /** `new Heuristic(board, 0, null)`: the node a search is seeded with. */
  function Root(b: Board): Node
  {
    NewNode(b, 0, None)
  }

  /** The two seeded queues: the initial board's root node, and its twin's. */
  function Seed(initial: Board): (r: (Queue, Queue))
    requires initial.Wf() && initial.Dimension() >= 2
    ensures QueueRooted(r.0, initial) && QueueRooted(r.1, Twin(initial).value)
    ensures |r.0| == 1 && |r.1| == 1
    ensures forall h :: h in r.0 + r.1 ==> h.moves == 0 && h.previous.None?
  {
    (multiset{Root(initial)}, multiset{Root(Twin(initial).value)})
  }

  lemma RootedWf(h: Node, root: Board)
    requires Rooted(h, root)
    ensures NodeWf(h) && h.moves >= 0
    decreases h
  {
    if h.previous.Some? {
      RootedWf(h.previous.value, root);
    }
  }

  /** One step keeps every queued node rooted at the seed. */
  lemma StepKeepsRooted(pq: Queue, cur: Node, root: Board)
    requires QueueRooted(pq, root) && cur in pq
    ensures NodeWf(cur)
    ensures QueueRooted(pq - multiset{cur}, root)
    ensures QueueRooted(pq - multiset{cur} + multiset(Successors(cur)), root)
  {
    RootedWf(cur, root);
    SuccessorsSpec(cur);
    forall h | h in pq - multiset{cur} + multiset(Successors(cur))
      ensures Rooted(h, root)
    {
      if h !in pq - multiset{cur} {
        assert h in Successors(cur);
      }
    }
  }

  /** `solveStep` on a queue whose nodes all descend from `root`: the queue
      it leaves behind still does, and a goal it returns does too. A seeded
      queue whose root board is the goal returns that root. */
  method RootedStep(pq: Queue, ghost root: Board) returns (goal: Option<Node>, pq': Queue)
    requires QueueRooted(pq, root)
    ensures QueueRooted(pq', root)
    ensures goal.Some? ==> Rooted(goal.value, root) && IsGoal(goal.value.board)
    ensures pq == multiset{Root(root)} && IsGoal(root) ==> goal == Some(Root(root))
  {
    assert QueueWf(pq) by {
      forall h | h in pq {
        RootedWf(h, root);
      }
    }
    goal, pq' := SolveStep(pq);
    if goal.None? && |pq| > 0 {
      ghost var cur :| && IsMin(cur, pq) && NodeWf(cur) && !IsGoal(cur.board)
                       && pq' == pq - multiset{cur} + multiset(Successors(cur));
      StepKeepsRooted(pq, cur, root);
    } else if goal.Some? {
      StepKeepsRooted(pq, goal.value, root);
    }
  }

  // ---------------------------------------------------------------------
  // Paths

  /** The boards from the root to h along the predecessor links. */
  function Path(h: Node): (p: seq<Board>)
    ensures |p| >= 1 && p[|p| - 1] == h.board
    decreases h
  {
    match h.previous
    case None => [h.board]
    case Some(q) => Path(q) + [h.board]
  }

  /** a move of the blank turns a into b. */
  ghost predicate Step(a: Board, b: Board)
  {
    a.Wf() && b in Neighbors(a)
  }

  /** p starts at root and each board is one blank move from the one before. */
  ghost predicate IsMovePath(p: seq<Board>, root: Board)
  {
    && |p| >= 1 && p[0] == root
    && forall k :: 0 <= k < |p| - 1 ==> Step(p[k], p[k + 1])
  }

  /** The path to a rooted node starts at the root, is one board longer than
      the node's move count, and each board is a neighbour of the previous. */
  lemma {:induction false} PathOfRooted(h: Node, root: Board)
    requires Rooted(h, root)
    ensures |Path(h)| == h.moves + 1
    ensures IsMovePath(Path(h), root)
    decreases h
  {
    match h.previous
    case None =>
    case Some(q) =>
      PathOfRooted(q, root);
      var p := Path(q);
      assert Path(h) == p + [h.board];
      assert Step(p[|p| - 1], h.board);
  }

  // ---------------------------------------------------------------------
  // The solver

  /** The solver's one field, `goalstate`: the goal node the search of the
      initial board reached, or None when the twin's search got there first. */
  datatype Solver = Solver(goalstate: Option<Node>)

  /** `IllegalArgument`: no initial board. `TwinOutOfBounds`: the board is
      smaller than 2-by-2, so `twin()` indexes past its edge. `OutOfFuel`: the
      bounded rounds ran out (the unbounded loop would go on). */
  datatype SolverError = IllegalArgument | TwinOutOfBounds | OutOfFuel

  /** A solver's goal node, if any, is a goal reached from the initial board. */
  ghost predicate Valid(s: Solver, initial: Board)
  {
    s.goalstate.Some? ==> Rooted(s.goalstate.value, initial) && IsGoal(s.goalstate.value.board)
  }

  /** Some node rooted at the twin reached the goal. */
  ghost predicate TwinReachedGoal(initial: Board)
    requires initial.Wf() && initial.Dimension() >= 2
  {
    exists g :: Rooted(g, Twin(initial).value) && IsGoal(g.board)
  }

  /** The constructor: seeds both searches, then alternates one step of the
      initial board's search with one step of the twin's until either
      returns a goal, for at most `fuel` rounds. */
  method NewSolver(initial: Option<Board>, fuel: nat) returns (r: Result<Solver, SolverError>)
    requires initial.Some? ==> initial.value.Wf()
    ensures initial.None? <==> r == Failure(IllegalArgument)
    ensures initial.Some? && initial.value.Dimension() < 2 ==> r == Failure(TwinOutOfBounds)
    ensures r.Success? ==> initial.Some? && initial.value.Dimension() >= 2
    ensures r.Success? ==> Valid(r.value, initial.value)
    ensures r.Success? && r.value.goalstate.None? ==> TwinReachedGoal(initial.value)
    ensures initial.Some? && initial.value.Dimension() >= 2 && IsGoal(initial.value) && fuel > 0 ==>
              r == Success(Solver(Some(Root(initial.value))))
  {
    if initial.None? {
      return Failure(IllegalArgument);
    }
    var b := initial.value;
    if b.Dimension() < 2 {
      return Failure(TwinOutOfBounds);
    }
    var twin := Twin(b).value;
    var pq, twinpq := Seed(b).0, Seed(b).1;
    var round := 0;
    while round < fuel
      invariant QueueRooted(pq, b) && QueueRooted(twinpq, twin)
      invariant round == 0 ==> pq == multiset{Root(b)}
      invariant round > 0 ==> !IsGoal(b)
    {
      var goal, twinGoal;
      goal, pq := RootedStep(pq, b);
      if goal.Some? {
        return Success(Solver(goal));
      }
      twinGoal, twinpq := RootedStep(twinpq, twin);
      if twinGoal.Some? {
        return Success(Solver(None));
      }
      round := round + 1;
    }
    return Failure(OutOfFuel);
  }

  // ---------------------------------------------------------------------
  // Results

  /** `isSolvable()`. */
  predicate IsSolvable(s: Solver)
  {
    s.goalstate.Some?
  }

  /** `moves()`: the goal node's move count, or -1 when unsolvable. */
  function Moves(s: Solver): int
  {
    if IsSolvable(s) then s.goalstate.value.moves else -1
  }

  /** A valid solver reports -1 moves exactly when it is unsolvable, and
      otherwise a count of moves. */
  lemma MovesSign(s: Solver, initial: Board)
    requires Valid(s, initial)
    ensures Moves(s) == -1 <==> !IsSolvable(s)
    ensures IsSolvable(s) ==> Moves(s) >= 0
  {
    if IsSolvable(s) {
      RootedWf(s.goalstate.value, initial);
    }
  }

  function PathTo(o: Option<Node>): seq<Board>
  {
    if o.None? then [] else Path(o.value)
  }

  /** The path to a valid solver's goal node is a move path from the initial
      board to a goal board, one board longer than the move count. */
  lemma SolutionOfValid(s: Solver, initial: Board)
    requires Valid(s, initial) && IsSolvable(s)
    ensures var p := Path(s.goalstate.value);
            |p| == Moves(s) + 1 && IsMovePath(p, initial) && IsGoal(p[|p| - 1])
  {
    PathOfRooted(s.goalstate.value, initial);
  }

  /** `solution()`: null when unsolvable; otherwise the predecessor chain of
      the goal node, root first: the boards from the initial board to the
      goal, one more than the move count, each one blank move from the one
      before. */
  method Solution(s: Solver, ghost initial: Board) returns (sol: Option<seq<Board>>)
    requires Valid(s, initial)
    ensures sol.None? <==> !IsSolvable(s)
    ensures sol.Some? ==> |sol.value| == Moves(s) + 1
    ensures sol.Some? ==> IsMovePath(sol.value, initial)
    ensures sol.Some? ==> IsGoal(sol.value[|sol.value| - 1])
    ensures sol.Some? ==> sol.value == Path(s.goalstate.value)
  {
    if !IsSolvable(s) {
      return None;
    }
    var stack := WalkBack(s.goalstate.value);
    SolutionOfValid(s, initial);
    return Some(stack);
  }

  /** Pushing a node's board moves it from the unvisited prefix of the path
      to the stack. */
  lemma PushStep(h: Node, stack: seq<Board>)
    ensures PathTo(h.previous) + ([h.board] + stack) == Path(h) + stack
  {
    assert Path(h) == PathTo(h.previous) + [h.board];
  }

  /** The loop of `solution()`: walks from the goal node back along the
      predecessor links, pushing each board on a stack (here, prepending), so
      that the stack lists the boards root first. */
  method WalkBack(goal: Node) returns (stack: seq<Board>)
    ensures stack == Path(goal)
  {
    stack := [];
    var current := Some(goal);
    while current.Some?
      invariant PathTo(current) + stack == Path(goal)
      decreases current
    {
      var h := current.value;
      PushStep(h, stack);
      stack := [h.board] + stack;
      current := h.previous;
    }
    assert PathTo(current) == [];
  }
}
