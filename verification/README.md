# Maze image to driving instructions — a Dafny model

`main.py` turns a colour-coded picture of a square maze into a list of
"left" / "right" / "forward" commands. It works in three stages:

1. **Classify.** `image_into_maze` sorts the median colour of every cell
   into a wall, a free cell, the start or the goal.
2. **Search.** `astar` searches the grid for a route from start to goal.
   Despite its name it is a greedy best-first search: an entry's priority is
   only its Manhattan distance to the goal (`heuristic`).
3. **Translate.** `path_into_instructions` walks the route with a facing
   direction and emits the commands.

This project models those three stages and `heuristic` as pure Dafny
functions and methods over immutable data, and proves what each promises.

- `options.dfy` — `Options.Option`, used for "no start", "no goal" and
  "no path".
- `grid.dfy` — module `Grid`: cells, the four moves, `Heuristic`, adjacency,
  and what a walk through the maze is (`IsWalk`, `Reachable`).
- `search.dfy` — module `Search`:
  - the frontier is a sequence of `Node(prio, pos, parent)` entries, and
    each parent link is an immutable chain;
  - every round removes *some* entry of least priority, so every result
    holds whatever tie-break is used, `heapq`'s included;
  - termination is proved with the measure (cells that can still be
    closed, frontier entries whose cell is already closed);
  - the result is sound (a repetition-free walk from start to goal through
    enterable cells) and complete (a path is returned exactly when the goal
    can be reached).
- `classify.dfy` — module `Classifier`: the strict `> 125` threshold rule,
  and the row-major scan that collects walls and the last start-coloured
  and last goal-coloured cell.
- `instructions.dfy` — module `Instructions`:
  - the generator (`Emit` and `PathIntoInstructions`) and its turn table
    (`TurnFor`);
  - the shape of the token list it produces;
  - an independent interpreter, `Replay`, which turns in y-down screen
    coordinates and moves one cell per "forward";
  - a proof that replaying the commands reproduces every unit-step path
    that never doubles back, which includes every path the search returns.

## Model

| member | source | states |
|---|---|---|
| Grid.Heuristic | main.py:4-5 | The distance is a natural number, zero exactly when the two cells coincide |
| Grid.HeuristicSymmetric | main.py:4-5 | The distance from a to b equals the distance from b to a |
| Grid.AdjacentIffUnitDistance | main.py:4-5 | Two cells are one of the four moves apart exactly when their distance is 1 |
| Grid.HeuristicUnitChange | main.py:4-5 | One axis-aligned step changes the distance to any goal by exactly 1 |
| Grid.HeuristicTriangle | main.py:4-5 | The distance obeys the triangle inequality |
| Search.LowestEntry | main.py:13-14 | A non-empty frontier always has an entry whose priority is at most every other's, so the pop can always proceed |
| Search.Push | main.py:27-37 | One move's bounds, obstacle and closed-set checks and push. It has no contract of its own: PushContract states it |
| Search.PushContract | main.py:27-37 | A move pushes one entry exactly when its target cell is in bounds, not an obstacle and not closed. That entry stands on the target, links back to the expanded entry and is ranked by the target's distance to the goal |
| Search.Expand | main.py:24-37 | Expansion pushes at most four entries. Each is an in-bounds, non-obstacle, not-yet-closed neighbour of the expanded cell, linked back to it and ranked by its distance to the goal. Every such neighbour is pushed |
| Search.Trail | main.py:18-20 | The cells of a parent chain, root first: never empty, and ending at the entry's own cell |
| Search.NonRootOffStart | main.py:11-37 | Only the root entry stands on `start`: every entry with a parent stands on another cell |
| Search.ChainIsPath | main.py:26-37 | The parent chain of any frontier entry spells a walk from start to that entry's cell: unit steps, every cell after the start enterable, no cell twice |
| Search.ExpandKeepsInv | main.py:24-37 | Expanding any non-goal entry, whatever its priority, keeps the loop invariant: chains stay well-formed with closed ancestors, the goal stays unclosed, and every enterable neighbour of a closed cell is closed or in the frontier |
| Search.ExpandProgress | main.py:13-37 | Each round either closes a new cell, or removes a stale entry whose cell was already closed while adding none, so the search terminates |
| Search.Unreachable | main.py:13-39 | When the frontier is exhausted, the closed region contains the start, misses the goal and is shut under moves, so no walk reaches the goal |
| Search.Reverse | main.py:22 | The reversal has the same length, and position i holds the element at position len-1-i |
| Search.ReconstructPath | main.py:16-22 | Following the parent links and appending `start` yields the chain's cells in start-to-goal order, with `start` in place of the root's cell |
| Search.AStar | main.py:7-39 | A returned path starts at `start`, ends at `goal`, moves by unit steps into in-bounds non-obstacle cells, and repeats no cell. A path is returned exactly when the goal is reachable. When start equals goal the result is exactly `[start]` |
| Search.OpenGridReachable | main.py:13-39 | On a grid without obstacles every in-bounds goal is reachable from any in-bounds start, so the search returns a path |
| Classifier.Classify | main.py:50-61 | Counted by high channels: none gives a wall, green high (not all three) gives the start, red high with green low gives the goal, and all three high or only blue high gives nothing |
| Classifier.ThresholdIsStrict | main.py:50 | A channel value of 125 counts as low and 126 as high |
| Classifier.WallsStep | main.py:53-55 | Scanning one cell appends it to the obstacles exactly when it is black, keeping the list equal to the black cells scanned so far, in scan order |
| Classifier.LastStep | main.py:58-61 | Scanning one cell makes it the remembered cell of a kind exactly when it has that kind, so the remembered cell stays the last of that kind in scan order |
| Classifier.ImageIntoMaze | main.py:41-62 | The obstacles are exactly the black cells, in row-major order. Start and end are each the last cell of their colour in that order, or None when there is none. The start is never an obstacle and never equals the end |
| Instructions.StepDirection | main.py:68-98 | A step takes no branch exactly when the two cells coincide. Otherwise it takes a unit direction, and between adjacent cells that direction is their difference |
| Instructions.TurnFor | main.py:68-105 | The turn table. It has no contract of its own: TurnTable states what it means |
| Instructions.TurnTable | main.py:68-105 | At most one turn token per step and never a "forward". From a perpendicular heading the turn rotates onto the step direction. Facing along the step or against it, no turn is emitted |
| Instructions.Emit | main.py:67-106 | The loop over the path's steps. It has no contract of its own: ForwardPerMove, EmitWellShaped, EmitCons and ReplayEmit state what it produces |
| Instructions.EmitCons | main.py:67-106 | A step that moves emits its turn (if any), then "forward", and the walk continues facing along that step |
| Instructions.ForwardPerMove | main.py:74-104 | Exactly one "forward" is emitted per step that moves |
| Instructions.EmitWellShaped | main.py:67-106 | Every turn is followed at once by "forward": no two turns in a row, and the list never ends with a turn |
| Instructions.NoTurnBeforeFirstMove | main.py:66 | Because the initial facing is the first step vector, the first token is never a turn |
| Instructions.PathIntoInstructions | main.py:64-109 | Defined for paths of two or more cells. One "forward" per moving step, so len(path)-1 of them on a unit-step path. Every turn is followed by "forward". The first and last tokens are "forward" |
| Instructions.ReplayTurn | main.py:68-105 | From a heading that is not opposite the step, obeying the step's turn tokens leaves the robot in place, facing along the step |
| Instructions.ReplayStep | main.py:67-106 | Replaying the tokens of a path's first unit step moves the robot from the first cell to the second, now facing along that step |
| Instructions.TailKeepsShape | main.py:67 | Dropping the first cell keeps a path unit-step and free of reversals, and its new first step does not undo the old one |
| Instructions.ReplayEmit | main.py:67-106 | For a unit-step path that never doubles back, entered with a heading not opposite its first step, replaying the tokens from the first cell visits exactly the path |
| Instructions.InstructionsReplay | main.py:64-109 | Replaying the instructions from `path[0]` with the initial facing reproduces any unit-step path without immediate reversals |
| Instructions.SearchPathReplays | main.py:64-109 | Any repetition-free walk of two or more cells, which is what the search returns, replays exactly from its start |
| Instructions.ReversalIsNotReplayed | main.py:66-86 | A path that steps east and straight back gets no turn token. Its instructions are "forward", "forward", and they do not replay to it, so the no-reversal condition is needed |
| Instructions.CorridorExample | main.py:64-109 | Two steps east, anywhere on the grid, give exactly "forward", "forward" |
| Instructions.DetourExample | main.py:64-109 | The detour east, east, down, down, west, west gives forward, forward, right, forward, forward, right, forward, forward |

## Left out

- The imaging calls (`Image.open`, `crop`, the per-cell median) are foreign library calls. The classifier takes each cell's median colour as an integer triple instead.
- The driver `image_into_instructions` is not modelled. This covers:
  - the console rendering, the `print` calls and the `input` prompt;
  - the module-level call with a fixed file name.

  The driver passes the cell's pixel size to `astar` where the grid's cell count belongs (main.py:119). Only `astar` is modelled, with the grid side as an explicit parameter.
- `heapq`'s exact order is not reproduced. Python breaks priority ties by coordinate lists and then by nested parent tuples (main.py:14, 37). The model pops any entry of least priority, so every property holds for every tie-break. Such a comparison never sets a `None` parent against a tuple: only the root entry has no parent, and `Search.NonRootOffStart` shows that every other entry stands off `start`, so two chains that agree cell by cell reach their roots together.
- The unused `grid` array at main.py:8 is not modelled.
- The crash cases are left to the callers. Python indexes `path[1]` at main.py:66, so a path of fewer than two cells crashes. `Instructions.PathIntoInstructions` therefore requires two cells.
  - The classifier guarantees the start differs from the end, so a path found between them always has at least two cells.
  - A missing start or goal (`None`) also crashes the driver; the classifier's `Option` results expose that case and the model does not go further.
- `main.py` returns the raw token list (main.py:109); no run-length compression of "forward" tokens is done, and the model has none.
- Instructions.ReplayEmit: the round trip is proved only for paths that never step straight back. The generator emits no turn on a reversal, so such paths do not replay, as `Instructions.ReversalIsNotReplayed` shows.
- Python's integers and the model's are both unbounded, so no wrap-around is modelled.
