/**
 The grid search of main.py (`astar`). Despite its name it is a greedy
 best-first search: an entry's priority is only the Manhattan distance from
 its cell to the goal, with no accumulated path cost. The visited check
 happens when a neighbour is pushed, against a closed set that grows when an
 entry is expanded, so one cell may sit in the frontier several times and a
 stale entry is re-expanded harmlessly.
 */
module Search {
  import opened Options
  import opened Grid

  /**
   A frontier entry: its priority, its cell and the entry it was expanded
   from. main.py keeps the same triple as nested tuples.
   */
  datatype Node = Node(prio: int, pos: Cell, parent: Option<Node>)

  /** The cells of the parent chain ending at `n`, root first. */
  function Trail(n: Node): (t: seq<Cell>)
    ensures |t| >= 1 && t[|t| - 1] == n.pos
    decreases n
  {
    match n.parent
    case None => [n.pos]
    case Some(p) => Trail(p) + [n.pos]
  }

  /**
   The chain ending at `n` is rooted at `start`, moves by unit steps into
   enterable cells, and never revisits a cell.
   */
  predicate ChainOk(n: Node, size: int, obstacles: seq<Cell>, start: Cell)
    decreases n
  {
    match n.parent
    case None => n.pos == start
    case Some(p) =>
      && ChainOk(p, size, obstacles, start)
      && Adjacent(p.pos, n.pos)
      && Open(size, obstacles, n.pos)
      && n.pos !in Trail(p)
  }

  /** A well-formed chain spells a repetition-free walk from `start` to its last cell. */
  lemma {:induction false} ChainIsPath(n: Node, size: int, obstacles: seq<Cell>, start: Cell)
    requires ChainOk(n, size, obstacles, start)
    ensures IsWalk(Trail(n), size, obstacles, start, n.pos)
    ensures NoRepeats(Trail(n))
    decreases n
  {
    match n.parent
    case None =>
    case Some(p) =>
      ChainIsPath(p, size, obstacles, start);
      var t := Trail(p);
      assert Trail(n) == t + [n.pos];
      forall i, j | 0 <= i < j < |t| + 1
        ensures (t + [n.pos])[i] != (t + [n.pos])[j]
      {
        if j == |t| {
          assert t[i] in t;
        }
      }
  }

  /**
   Only a root entry stands on `start`: every entry with a parent stands
   elsewhere. So two entries that agree cell by cell down their chains reach
   their roots together, and comparing them never sets a missing parent
   against a present one.
   */
  lemma NonRootOffStart(n: Node, size: int, obstacles: seq<Cell>, start: Cell)
    requires ChainOk(n, size, obstacles, start) && n.parent.Some?
    ensures n.pos != start
  {
    ChainIsPath(n.parent.value, size, obstacles, start);
    assert Trail(n.parent.value)[0] == start;
  }

  /** Every proper ancestor of `n` sits on a cell of `closed`. */
  predicate AncestorsClosed(n: Node, closed: set<Cell>)
    decreases n
  {
    match n.parent
    case None => true
    case Some(p) => p.pos in closed && AncestorsClosed(p, closed)
  }

  lemma {:induction false} AncestorsClosedGrows(n: Node, closed: set<Cell>, more: set<Cell>)
    requires AncestorsClosed(n, closed) && closed <= more
    ensures AncestorsClosed(n, more)
    decreases n
  {
    match n.parent
    case None =>
    case Some(p) => AncestorsClosedGrows(p, closed, more);
  }

  /** Once an entry's own cell is closed too, its whole trail is closed. */
  lemma {:induction false} TrailClosed(n: Node, closed: set<Cell>)
    requires AncestorsClosed(n, closed) && n.pos in closed
    ensures forall q :: q in Trail(n) ==> q in closed
    decreases n
  {
    match n.parent
    case None =>
    case Some(p) => TrailClosed(p, closed);
  }

  /** The cells the frontier entries stand on. */
  function Cells(f: seq<Node>): set<Cell> {
    if f == [] then {} else {f[0].pos} + Cells(f[1..])
  }

  lemma {:induction false} CellsConcat(a: seq<Node>, b: seq<Node>)
    ensures Cells(a + b) == Cells(a) + Cells(b)
    decreases |a|
  {
    if a == [] {
      assert a + b == b;
    } else {
      assert (a + b)[1..] == a[1..] + b;
      CellsConcat(a[1..], b);
    }
  }

  /** Number of frontier entries whose cell is already closed. */
  function Stale(f: seq<Node>, closed: set<Cell>): nat {
    if f == [] then 0 else (if f[0].pos in closed then 1 else 0) + Stale(f[1..], closed)
  }

  lemma {:induction false} StaleConcat(a: seq<Node>, b: seq<Node>, closed: set<Cell>)
    ensures Stale(a + b, closed) == Stale(a, closed) + Stale(b, closed)
    decreases |a|
  {
    if a == [] {
      assert a + b == b;
    } else {
      assert (a + b)[1..] == a[1..] + b;
      StaleConcat(a[1..], b, closed);
    }
  }

  lemma {:induction false} StaleNone(f: seq<Node>, closed: set<Cell>)
    requires forall n :: n in f ==> n.pos !in closed
    ensures Stale(f, closed) == 0
    decreases |f|
  {
    if f != [] {
      assert forall n :: n in f[1..] ==> n in f;
      StaleNone(f[1..], closed);
    }
  }

  /** Every cell the search can ever close: the grid cells plus the start, which is never checked. */
  function Universe(size: int, start: Cell): (u: set<Cell>)
    ensures forall c :: c in u <==> InBounds(size, c) || c == start
  {
    var grid := set x, y | 0 <= x < size && 0 <= y < size :: Cell(x, y);
    assert forall c :: InBounds(size, c) ==> c in grid by {
      forall c | InBounds(size, c) ensures c in grid {
        assert c == Cell(c.x, c.y);
      }
    }
    grid + {start}
  }

  predicate IsLowest(f: seq<Node>, i: int) {
    0 <= i < |f| && forall k :: 0 <= k < |f| ==> f[i].prio <= f[k].prio
  }

  /** Some entry of least priority exists in any non-empty frontier. */
  function LowestEntry(f: seq<Node>): (i: nat)
    requires |f| > 0
    ensures IsLowest(f, i)
    decreases |f|
  {
    if |f| == 1 then 0
    else
      var j := LowestEntry(f[1..]);
      if f[0].prio <= f[j + 1].prio then 0 else j + 1
  }

  /** The entry, if any, pushed for move `m` out of `cur` (main.py:27-37). */
  function Push(cur: Node, m: Vec, closed: set<Cell>, size: int, obstacles: seq<Cell>, goal: Cell): seq<Node> {
    var next := Shift(cur.pos, m);
    if next.x < 0 || next.x >= size || next.y < 0 || next.y >= size then []
    else if next in obstacles || next in closed then []
    else [Node(Heuristic(next, goal), next, Some(cur))]
  }

  /**
   A move yields one entry exactly when its target cell may be entered and is
   not closed; that entry stands on the target, links back to `cur` and is
   ranked by the target's distance to the goal.
   */
  lemma PushContract(cur: Node, m: Vec, closed: set<Cell>, size: int, obstacles: seq<Cell>, goal: Cell)
    ensures var pushed := Push(cur, m, closed, size, obstacles, goal);
            && |pushed| <= 1
            && (pushed != [] <==> Open(size, obstacles, Shift(cur.pos, m)) && Shift(cur.pos, m) !in closed)
            && (forall ch :: ch in pushed ==>
                  ch.pos == Shift(cur.pos, m) && ch.parent == Some(cur) && ch.prio == Heuristic(ch.pos, goal))
  {
  }

  /**
   The entries pushed when `cur` is expanded, one per enterable neighbour
   that is not closed, each ranked by its distance to the goal.
   */
  function Expand(cur: Node, closed: set<Cell>, size: int, obstacles: seq<Cell>, goal: Cell): (children: seq<Node>)
    ensures |children| <= 4
    ensures forall ch :: ch in children ==>
              && ch.parent == Some(cur)
              && Adjacent(cur.pos, ch.pos)
              && Open(size, obstacles, ch.pos)
              && ch.pos !in closed
              && ch.prio == Heuristic(ch.pos, goal)
    ensures forall nb :: Adjacent(cur.pos, nb) && Open(size, obstacles, nb) && nb !in closed ==> nb in Cells(children)
  {
    var a := Push(cur, Moves[0], closed, size, obstacles, goal);
    var b := Push(cur, Moves[1], closed, size, obstacles, goal);
    var c := Push(cur, Moves[2], closed, size, obstacles, goal);
    var d := Push(cur, Moves[3], closed, size, obstacles, goal);
    CellsConcat(a, b);
    CellsConcat(a + b, c);
    CellsConcat(a + b + c, d);
    a + b + c + d
  }

  /** What holds of the frontier and the closed set each time the search loop tests for an empty frontier. */
  ghost predicate SearchInv(frontier: seq<Node>, closed: set<Cell>, size: int, obstacles: seq<Cell>, start: Cell, goal: Cell) {
    && closed <= Universe(size, start)
    && goal !in closed
    && (forall n :: n in frontier ==> ChainOk(n, size, obstacles, start) && AncestorsClosed(n, closed))
    && (start in closed || start in Cells(frontier))
    && (forall c, nb :: c in closed && Adjacent(c, nb) && Open(size, obstacles, nb) ==> nb in closed || nb in Cells(frontier))
  }

  lemma ChainInUniverse(n: Node, size: int, obstacles: seq<Cell>, start: Cell)
    requires ChainOk(n, size, obstacles, start)
    ensures n.pos in Universe(size, start)
  {
  }

  /** Expanding a non-goal entry of least priority keeps the loop invariant. */
  lemma ExpandKeepsInv(frontier: seq<Node>, closed: set<Cell>, i: int, size: int, obstacles: seq<Cell>, start: Cell, goal: Cell)
    requires SearchInv(frontier, closed, size, obstacles, start, goal)
    requires 0 <= i < |frontier| && frontier[i].pos != goal
    ensures var cur := frontier[i];
            var closed' := closed + {cur.pos};
            SearchInv(frontier[..i] + frontier[i + 1..] + Expand(cur, closed', size, obstacles, goal),
                      closed', size, obstacles, start, goal)
  {
    var cur := frontier[i];
    var closed' := closed + {cur.pos};
    var rest := frontier[..i] + frontier[i + 1..];
    var children := Expand(cur, closed', size, obstacles, goal);
    var next := rest + children;
    assert frontier == frontier[..i] + [cur] + frontier[i + 1..];
    CellsConcat(frontier[..i], [cur]);
    CellsConcat(frontier[..i] + [cur], frontier[i + 1..]);
    CellsConcat(frontier[..i], frontier[i + 1..]);
    CellsConcat(rest, children);
    assert Cells(frontier) == Cells(rest) + {cur.pos};
    assert Cells(next) == Cells(rest) + Cells(children);

    assert cur in frontier;
    ChainInUniverse(cur, size, obstacles, start);
    assert closed' <= Universe(size, start);

    forall n | n in next
      ensures ChainOk(n, size, obstacles, start) && AncestorsClosed(n, closed')
    {
      if n in rest {
        assert n in frontier;
        AncestorsClosedGrows(n, closed, closed');
      } else {
        assert n in children;
        AncestorsClosedGrows(cur, closed, closed');
        TrailClosed(cur, closed');
      }
    }

    forall c, nb | c in closed' && Adjacent(c, nb) && Open(size, obstacles, nb)
      ensures nb in closed' || nb in Cells(next)
    {
      if c != cur.pos {
        assert nb in closed || nb in Cells(frontier);
      }
    }
  }

  lemma ClosingShrinks(u: set<Cell>, closed: set<Cell>, c: Cell)
    requires c in u && c !in closed
    ensures |u - (closed + {c})| < |u - closed|
  {
    assert u - closed == (u - (closed + {c})) + {c};
  }

  /** The lexicographic measure of the search loop drops with every expansion. */
  lemma ExpandProgress(frontier: seq<Node>, closed: set<Cell>, i: int, size: int, obstacles: seq<Cell>, start: Cell, goal: Cell)
    requires SearchInv(frontier, closed, size, obstacles, start, goal)
    requires 0 <= i < |frontier|
    ensures var cur := frontier[i];
            var closed' := closed + {cur.pos};
            var u := Universe(size, start);
            || |u - closed'| < |u - closed|
            || (closed' == closed
                && Stale(frontier[..i] + frontier[i + 1..] + Expand(cur, closed', size, obstacles, goal), closed')
                   < Stale(frontier, closed))
  {
    var cur := frontier[i];
    var closed' := closed + {cur.pos};
    var u := Universe(size, start);
    if cur.pos !in closed {
      assert cur in frontier;
      ChainInUniverse(cur, size, obstacles, start);
      ClosingShrinks(u, closed, cur.pos);
    } else {
      var children := Expand(cur, closed', size, obstacles, goal);
      assert frontier == frontier[..i] + [cur] + frontier[i + 1..];
      StaleConcat(frontier[..i], [cur], closed);
      StaleConcat(frontier[..i] + [cur], frontier[i + 1..], closed);
      StaleConcat(frontier[..i], frontier[i + 1..], closed);
      StaleConcat(frontier[..i] + frontier[i + 1..], children, closed);
      StaleNone(children, closed);
    }
  }

  /** With the frontier exhausted, the closed region holds the start, is shut under steps, and misses the goal: no walk leads there. */
  lemma Unreachable(closed: set<Cell>, size: int, obstacles: seq<Cell>, start: Cell, goal: Cell)
    requires start in closed && goal !in closed
    requires forall c, nb :: c in closed && Adjacent(c, nb) && Open(size, obstacles, nb) ==> nb in closed
    ensures !Reachable(size, obstacles, start, goal)
  {
    forall w | IsWalk(w, size, obstacles, start, goal)
      ensures false
    {
      var k := 0;
      while k < |w| - 1
        invariant 0 <= k < |w| && w[k] in closed
      {
        assert Adjacent(w[k], w[k + 1]) && Open(size, obstacles, w[k + 1]);
        k := k + 1;
      }
    }
  }

  /** Python's `path[::-1]`. */
  function Reverse<T>(s: seq<T>): (r: seq<T>)
    ensures |r| == |s|
    ensures forall i :: 0 <= i < |s| ==> r[i] == s[|s| - 1 - i]
    decreases |s|
  {
    if s == [] then [] else [s[|s| - 1]] + Reverse(s[..|s| - 1])
  }

  /**
   main.py:17-22: walk the parent links from the goal entry, collecting cells,
   append `start` in place of the root's own cell, then reverse.
   */
  method ReconstructPath(goalEntry: Node, start: Cell) returns (path: seq<Cell>)
    ensures |path| == |Trail(goalEntry)|
    ensures path[0] == start && path[1..] == Trail(goalEntry)[1..]
  {
    var collected: seq<Cell> := [];
    var node := goalEntry;
    while node.parent.Some?
      invariant Trail(goalEntry) == Trail(node) + Reverse(collected)
      decreases node
    {
      var p := node.parent.value;
      assert Trail(node) == Trail(p) + [node.pos];
      assert Reverse(collected + [node.pos]) == [node.pos] + Reverse(collected);
      collected := collected + [node.pos];
      node := p;
    }
    assert Reverse(collected + [start]) == [start] + Reverse(collected);
    collected := collected + [start];
    path := Reverse(collected);
  }

  /**
   main.py `astar`: greedy best-first search from `start` to `goal` over the
   `size` x `size` grid. Each round removes SOME entry of least priority: any
   tie-break (heapq's included) is covered.
   */
  method AStar(size: int, obstacles: seq<Cell>, start: Cell, goal: Cell) returns (path: Option<seq<Cell>>)
    ensures path.Some? ==> IsWalk(path.value, size, obstacles, start, goal) && NoRepeats(path.value)
    ensures path.Some? <==> Reachable(size, obstacles, start, goal)
    ensures start == goal ==> path == Some([start])
  {
    var frontier := [Node(0, start, None)];
    var closed: set<Cell> := {};
    ghost var universe := Universe(size, start);
    assert Cells(frontier) == {start};
    while |frontier| > 0
      invariant SearchInv(frontier, closed, size, obstacles, start, goal)
      invariant start == goal ==> frontier == [Node(0, start, None)]
      decreases |universe - closed|, Stale(frontier, closed)
    {
      assert IsLowest(frontier, LowestEntry(frontier));
      var i :| 0 <= i < |frontier| && IsLowest(frontier, i);
      var current := frontier[i];
      if current.pos == goal {
        assert current in frontier;
        ChainIsPath(current, size, obstacles, start);
        var cells := ReconstructPath(current, start);
        assert cells == Trail(current);
        path := Some(cells);
        return;
      }
      ExpandKeepsInv(frontier, closed, i, size, obstacles, start, goal);
      ExpandProgress(frontier, closed, i, size, obstacles, start, goal);
      closed := closed + {current.pos};
      frontier := frontier[..i] + frontier[i + 1..] + Expand(current, closed, size, obstacles, goal);
    }
    Unreachable(closed, size, obstacles, start, goal);
    path := None;
  }

  /** A straight-then-turn route: along the row to the goal's column, then along the column. */
  function LRoute(from: Cell, to: Cell): (w: seq<Cell>)
    ensures |w| >= 1 && w[0] == from && w[|w| - 1] == to
    ensures forall i :: 0 <= i < |w| - 1 ==> Adjacent(w[i], w[i + 1])
    ensures forall i :: 0 <= i < |w| ==> BoxedBy(w[i], from, to)
    decreases Heuristic(from, to)
  {
    if from == to then [from]
    else
      var next :=
        if from.x < to.x then Shift(from, East)
        else if from.x > to.x then Shift(from, West)
        else if from.y < to.y then Shift(from, South)
        else Shift(from, North);
      [from] + LRoute(next, to)
  }

  /** `c` lies in the rectangle spanned by `a` and `b`. */
  predicate BoxedBy(c: Cell, a: Cell, b: Cell) {
    && (a.x <= c.x <= b.x || b.x <= c.x <= a.x)
    && (a.y <= c.y <= b.y || b.y <= c.y <= a.y)
  }

  /** On a grid without obstacles every in-bounds goal can be reached, so `AStar` finds a path. */
  lemma OpenGridReachable(size: int, start: Cell, goal: Cell)
    requires InBounds(size, start) && InBounds(size, goal)
    ensures Reachable(size, [], start, goal)
  {
    var w := LRoute(start, goal);
    assert IsWalk(w, size, [], start, goal);
  }
}
