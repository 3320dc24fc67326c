/**
 The cell classifier of main.py (`image_into_maze`). Image decoding and the
 per-cell median are done by an imaging library outside this model; the
 classifier receives the median colour of every cell and applies a fixed
 threshold rule to it.
 */
module Classifier {
  import opened Options
  import opened Grid

  /** The per-channel median colour of one cell. */
  datatype Rgb = Rgb(r: int, g: int, b: int)

  /** A channel counts as high only when it is strictly above this value. */
  const Threshold: int := 125

  predicate High(v: int) {
    v > Threshold
  }

  /** What one cell contributes to the maze. `Free` cells are not recorded anywhere. */
  datatype Kind = Free | Wall | StartMark | GoalMark

  function HighCount(c: Rgb): nat {
    (if High(c.r) then 1 else 0) + (if High(c.g) then 1 else 0) + (if High(c.b) then 1 else 0)
  }

  /** main.py:50-61: white is skipped, black is an obstacle, then green wins over red. */
  function Classify(c: Rgb): (k: Kind)
    ensures k == Wall <==> HighCount(c) == 0
    ensures k == StartMark <==> High(c.g) && HighCount(c) < 3
    ensures k == GoalMark <==> High(c.r) && !High(c.g)
    ensures k == Free <==> HighCount(c) == 3 || (HighCount(c) == 1 && High(c.b))
  {
    var r, g, b := High(c.r), High(c.g), High(c.b);
    if r && g && b then Free
    else if !r && !g && !b then Wall
    else if g then StartMark
    else if r then GoalMark
    else Free
  }

  /** The threshold is strict: 125 is still low, 126 is high. */
  lemma ThresholdIsStrict()
    ensures Classify(Rgb(125, 125, 125)) == Wall
    ensures Classify(Rgb(126, 126, 126)) == Free
    ensures Classify(Rgb(125, 126, 125)) == StartMark
    ensures Classify(Rgb(126, 125, 125)) == GoalMark
    ensures Classify(Rgb(125, 125, 126)) == Free
  {
  }

  /** `samples[y][x]` is the median colour of cell (x, y) of a `count` x `count` maze. */
  predicate IsSquare(samples: seq<seq<Rgb>>, count: nat) {
    |samples| == count && forall y :: 0 <= y < count ==> |samples[y]| == count
  }

  function KindAt(samples: seq<seq<Rgb>>, count: nat, c: Cell): Kind
    requires IsSquare(samples, count) && InBounds(count, c)
  {
    Classify(samples[c.y][c.x])
  }

  /** Row-major scan order: rows top to bottom, each row left to right. */
  predicate ScanBefore(a: Cell, b: Cell) {
    a.y < b.y || (a.y == b.y && a.x < b.x)
  }

  /** Cell `c` has been visited by the scan once it stands at (x, y). */
  predicate Scanned(count: nat, c: Cell, x: int, y: int) {
    InBounds(count, c) && ScanBefore(c, Cell(x, y))
  }

  /** `found` is the last cell of kind `k` among those scanned before (x, y), or None if there is none. */
  ghost predicate LastOfKind(samples: seq<seq<Rgb>>, count: nat, k: Kind, found: Option<Cell>, x: int, y: int)
    requires IsSquare(samples, count)
  {
    match found
    case None => forall c :: Scanned(count, c, x, y) ==> KindAt(samples, count, c) != k
    case Some(f) =>
      && Scanned(count, f, x, y)
      && KindAt(samples, count, f) == k
      && forall c :: Scanned(count, c, x, y) && KindAt(samples, count, c) == k ==> !ScanBefore(f, c)
  }

  /** `obstacles` lists exactly the black cells scanned before (x, y), in scan order. */
  ghost predicate WallsSoFar(samples: seq<seq<Rgb>>, count: nat, obstacles: seq<Cell>, x: int, y: int)
    requires IsSquare(samples, count)
  {
    && (forall c :: c in obstacles <==> Scanned(count, c, x, y) && KindAt(samples, count, c) == Wall)
    && (forall i, j :: 0 <= i < j < |obstacles| ==> ScanBefore(obstacles[i], obstacles[j]))
  }

  /** The scan frontier moves from (x, y) to (x', y') without skipping or revisiting a cell. */
  ghost predicate SameScanned(count: nat, x: int, y: int, x': int, y': int) {
    forall c :: Scanned(count, c, x', y') <==> Scanned(count, c, x, y)
  }

  /** Finishing a row is the same as starting the next one. */
  lemma RowWraps(count: nat, y: int)
    ensures SameScanned(count, count, y, 0, y + 1)
  {
  }

  lemma WallsTransfer(samples: seq<seq<Rgb>>, count: nat, obstacles: seq<Cell>, x: int, y: int, x': int, y': int)
    requires IsSquare(samples, count) && SameScanned(count, x, y, x', y')
    requires WallsSoFar(samples, count, obstacles, x, y)
    ensures WallsSoFar(samples, count, obstacles, x', y')
  {
  }

  lemma LastTransfer(samples: seq<seq<Rgb>>, count: nat, k: Kind, found: Option<Cell>, x: int, y: int, x': int, y': int)
    requires IsSquare(samples, count) && SameScanned(count, x, y, x', y')
    requires LastOfKind(samples, count, k, found, x, y)
    ensures LastOfKind(samples, count, k, found, x', y')
  {
  }

  /** Moving one column on adds exactly the cell under the scan. */
  lemma ScanAdvance(count: nat, x: int, y: int)
    requires 0 <= x < count && 0 <= y < count
    ensures forall c :: Scanned(count, c, x + 1, y) <==> Scanned(count, c, x, y) || c == Cell(x, y)
  {
    forall c
      ensures Scanned(count, c, x + 1, y) <==> Scanned(count, c, x, y) || c == Cell(x, y)
    {
      assert c == Cell(c.x, c.y);
    }
  }

  /** Scanning cell (x, y) appends it to the obstacles exactly when it is black. */
  lemma WallsStep(samples: seq<seq<Rgb>>, count: nat, obstacles: seq<Cell>, x: int, y: int)
    requires IsSquare(samples, count) && 0 <= x < count && 0 <= y < count
    requires WallsSoFar(samples, count, obstacles, x, y)
    ensures var here := Cell(x, y);
            WallsSoFar(samples, count,
                       if KindAt(samples, count, here) == Wall then obstacles + [here] else obstacles,
                       x + 1, y)
  {
    var here := Cell(x, y);
    ScanAdvance(count, x, y);
    if KindAt(samples, count, here) == Wall {
      var grown := obstacles + [here];
      forall i, j | 0 <= i < j < |grown|
        ensures ScanBefore(grown[i], grown[j])
      {
        assert grown[i] == obstacles[i];
        if j == |obstacles| {
          assert obstacles[i] in obstacles;
          assert Scanned(count, obstacles[i], x, y);
        } else {
          assert grown[j] == obstacles[j];
        }
      }
    }
  }

  /** Scanning cell (x, y) makes it the latest cell of kind `k` exactly when it has that kind. */
  lemma LastStep(samples: seq<seq<Rgb>>, count: nat, k: Kind, found: Option<Cell>, x: int, y: int)
    requires IsSquare(samples, count) && 0 <= x < count && 0 <= y < count
    requires LastOfKind(samples, count, k, found, x, y)
    ensures var here := Cell(x, y);
            LastOfKind(samples, count, k, if KindAt(samples, count, here) == k then Some(here) else found, x + 1, y)
  {
    var here := Cell(x, y);
    ScanAdvance(count, x, y);
  }

  /**
   main.py `image_into_maze` without the imaging calls: scan the cells with
   y outer and x inner, collect the black ones as obstacles, and keep the
   last start-coloured and the last goal-coloured cell.
   */
  method ImageIntoMaze(samples: seq<seq<Rgb>>, count: nat) returns (obstacles: seq<Cell>, start: Option<Cell>, end: Option<Cell>)
    requires IsSquare(samples, count)
    ensures forall c :: c in obstacles <==> InBounds(count, c) && KindAt(samples, count, c) == Wall
    ensures forall i, j :: 0 <= i < j < |obstacles| ==> ScanBefore(obstacles[i], obstacles[j])
    ensures start.None? <==> forall c :: InBounds(count, c) ==> KindAt(samples, count, c) != StartMark
    ensures start.Some? ==>
              && InBounds(count, start.value)
              && KindAt(samples, count, start.value) == StartMark
              && forall c :: InBounds(count, c) && KindAt(samples, count, c) == StartMark ==> !ScanBefore(start.value, c)
    ensures end.None? <==> forall c :: InBounds(count, c) ==> KindAt(samples, count, c) != GoalMark
    ensures end.Some? ==>
              && InBounds(count, end.value)
              && KindAt(samples, count, end.value) == GoalMark
              && forall c :: InBounds(count, c) && KindAt(samples, count, c) == GoalMark ==> !ScanBefore(end.value, c)
    ensures start.Some? ==> start.value !in obstacles
    ensures start.Some? && end.Some? ==> start.value != end.value
  {
    obstacles, start, end := [], None, None;
    var y := 0;
    while y < count
      invariant 0 <= y <= count
      invariant WallsSoFar(samples, count, obstacles, 0, y)
      invariant LastOfKind(samples, count, StartMark, start, 0, y)
      invariant LastOfKind(samples, count, GoalMark, end, 0, y)
    {
      var x := 0;
      while x < count
        invariant 0 <= x <= count
        invariant WallsSoFar(samples, count, obstacles, x, y)
        invariant LastOfKind(samples, count, StartMark, start, x, y)
        invariant LastOfKind(samples, count, GoalMark, end, x, y)
      {
        var here := Cell(x, y);
        WallsStep(samples, count, obstacles, x, y);
        LastStep(samples, count, StartMark, start, x, y);
        LastStep(samples, count, GoalMark, end, x, y);
        var kind := Classify(samples[y][x]);
        if kind == Wall {
          obstacles := obstacles + [here];
        } else if kind == StartMark {
          start := Some(here);
        } else if kind == GoalMark {
          end := Some(here);
        }
        x := x + 1;
      }
      RowWraps(count, y);
      WallsTransfer(samples, count, obstacles, count, y, 0, y + 1);
      LastTransfer(samples, count, StartMark, start, count, y, 0, y + 1);
      LastTransfer(samples, count, GoalMark, end, count, y, 0, y + 1);
      y := y + 1;
    }
    assert forall c :: Scanned(count, c, 0, count) <==> InBounds(count, c);
  }
}
