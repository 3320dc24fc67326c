/**
 The instruction generator of main.py (`path_into_instructions`): it walks a
 path keeping a facing direction and emits "left"/"right"/"forward" tokens.
 Coordinates are screen coordinates, so y grows downward: facing east and
 stepping down is a right turn.
 */
module Instructions {
  import opened Options
  import opened Grid

  datatype Token = Left | Right | Forward

  /**
   The branch of the loop body a step from `a` to `b` takes: a change in x is
   checked first (right, then left), then a change in y (down, then up). A step
   that changes neither takes no branch.
   */
  function StepDirection(a: Cell, b: Cell): (d: Option<Vec>)
    ensures d.None? <==> a == b
    ensures d.Some? ==> IsUnit(d.value)
    ensures Adjacent(a, b) ==> d == Some(Delta(a, b))
  {
    if a.x < b.x then Some(East)
    else if a.x > b.x then Some(West)
    else if a.y < b.y then Some(South)
    else if a.y > b.y then Some(North)
    else None
  }

  /** A quarter turn to the left, with y growing downward. */
  function RotateLeft(v: Vec): Vec {
    Vec(v.dy, -v.dx)
  }

  /** A quarter turn to the right, with y growing downward. */
  function RotateRight(v: Vec): Vec {
    Vec(-v.dy, v.dx)
  }

  /** The heading after obeying `ts` from heading `facing`; `Forward` leaves it unchanged. */
  function Turned(facing: Vec, ts: seq<Token>): Vec
    decreases |ts|
  {
    if ts == [] then facing
    else
      var next := match ts[0]
        case Left => RotateLeft(facing)
        case Right => RotateRight(facing)
        case Forward => facing;
      Turned(next, ts[1..])
  }

  /**
   The turn token, if any, main.py:68-105 emits before moving in direction
   `step` while facing `facing`. It turns a perpendicular heading onto the
   step direction and emits nothing when already aligned or reversing.
   */
  function TurnFor(step: Vec, facing: Vec): seq<Token> {
    if step == East then
      (if facing == South then [Left] else if facing == North then [Right] else [])
    else if step == West then
      (if facing == South then [Right] else if facing == North then [Left] else [])
    else if step == South then
      (if facing == West then [Left] else if facing == East then [Right] else [])
    else if step == North then
      (if facing == West then [Right] else if facing == East then [Left] else [])
    else []
  }

  /**
   What the turn table means: at most one turn token; from a heading
   perpendicular to the step it turns the heading onto the step; when the
   heading is already the step direction, or its reverse, it emits nothing.
   */
  lemma {:induction false} TurnTable(step: Vec, facing: Vec)
    ensures var ts := TurnFor(step, facing);
            && |ts| <= 1 && Forward !in ts
            && (IsUnit(step) && IsUnit(facing) && facing != Opposite(step) ==> Turned(facing, ts) == step)
            && (facing == step || facing == Opposite(step) ==> ts == [])
  {
  }

  /**
   The loop of main.py:67-106 from the current position on: for each step,
   at most one turn token, then "forward", then the facing becomes the step
   direction. A step that does not move emits nothing and keeps the facing.
   */
  function Emit(path: seq<Cell>, facing: Vec): seq<Token>
    decreases |path|
  {
    if |path| < 2 then []
    else
      match StepDirection(path[0], path[1])
      case None => Emit(path[1..], facing)
      case Some(d) => TurnFor(d, facing) + [Forward] + Emit(path[1..], d)
  }

  function CountForward(ts: seq<Token>): nat
    decreases |ts|
  {
    if ts == [] then 0 else (if ts[0] == Forward then 1 else 0) + CountForward(ts[1..])
  }

  /** Number of consecutive pairs of `path` that differ. */
  function MovingSteps(path: seq<Cell>): nat
    decreases |path|
  {
    if |path| < 2 then 0 else (if path[0] != path[1] then 1 else 0) + MovingSteps(path[1..])
  }

  /** Every consecutive pair is one axis-aligned unit step apart. */
  predicate UnitSteps(path: seq<Cell>) {
    forall i :: 0 <= i < |path| - 1 ==> Adjacent(path[i], path[i + 1])
  }

  /** No step immediately undoes the previous one. */
  predicate NoReversal(path: seq<Cell>) {
    forall i :: 0 <= i < |path| - 2 ==> path[i] != path[i + 2]
  }

  /** Each turn token is followed at once by "forward": no two turns in a row, and no turn last. */
  predicate WellShaped(ts: seq<Token>) {
    forall i :: 0 <= i < |ts| && ts[i] != Forward ==> i + 1 < |ts| && ts[i + 1] == Forward
  }

  /**
   main.py `path_into_instructions`. The initial facing is the first step
   vector, read from `path[1]`, so a path of fewer than two cells is outside
   its domain. The result has one "forward" per moving step (so |path| - 1 of
   them on a unit-step path), every turn followed at once by "forward", and
   both its first and its last token "forward".
   */
  function PathIntoInstructions(path: seq<Cell>): (ts: seq<Token>)
    requires |path| >= 2
    ensures CountForward(ts) == MovingSteps(path)
    ensures UnitSteps(path) ==> CountForward(ts) == |path| - 1
    ensures WellShaped(ts)
    ensures ts != [] ==> ts[0] == Forward && ts[|ts| - 1] == Forward
  {
    var facing := Delta(path[0], path[1]);
    ForwardPerMove(path, facing);
    UnitPathMovesEveryStep(path);
    EmitWellShaped(path, facing);
    NoTurnBeforeFirstMove(path, facing);
    Emit(path, facing)
  }

  lemma {:induction false} CountForwardConcat(a: seq<Token>, b: seq<Token>)
    ensures CountForward(a + b) == CountForward(a) + CountForward(b)
    decreases |a|
  {
    if a == [] {
      assert a + b == b;
    } else {
      assert (a + b)[1..] == a[1..] + b;
      CountForwardConcat(a[1..], b);
    }
  }

  /** One "forward" per step that moves. */
  lemma {:induction false} ForwardPerMove(path: seq<Cell>, facing: Vec)
    ensures CountForward(Emit(path, facing)) == MovingSteps(path)
    decreases |path|
  {
    if |path| >= 2 {
      match StepDirection(path[0], path[1])
      case None =>
        ForwardPerMove(path[1..], facing);
      case Some(d) =>
        ForwardPerMove(path[1..], d);
        var t := TurnFor(d, facing);
        TurnTable(d, facing);
        CountForwardConcat(t, [Forward]);
        CountForwardConcat(t + [Forward], Emit(path[1..], d));
        assert CountForward(t) == 0 by {
          if t != [] {
            assert t[1..] == [];
          }
        }
    }
  }

  lemma {:induction false} UnitPathMovesEveryStep(path: seq<Cell>)
    ensures UnitSteps(path) && |path| >= 1 ==> MovingSteps(path) == |path| - 1
    decreases |path|
  {
    if UnitSteps(path) && |path| >= 2 {
      assert Adjacent(path[0], path[1]);
      assert UnitSteps(path[1..]) by {
        forall i | 0 <= i < |path[1..]| - 1
          ensures Adjacent(path[1..][i], path[1..][i + 1])
        {
          assert Adjacent(path[i + 1], path[i + 2]);
        }
      }
      UnitPathMovesEveryStep(path[1..]);
    }
  }

  lemma {:induction false} WellShapedConcat(a: seq<Token>, b: seq<Token>)
    requires WellShaped(a) && WellShaped(b)
    ensures WellShaped(a + b)
  {
    forall i | 0 <= i < |a + b| && (a + b)[i] != Forward
      ensures i + 1 < |a + b| && (a + b)[i + 1] == Forward
    {
      if i < |a| {
        assert a[i] != Forward;
      } else {
        assert b[i - |a|] != Forward;
      }
    }
  }

  /** Every turn the generator emits is followed directly by "forward". */
  lemma {:induction false} EmitWellShaped(path: seq<Cell>, facing: Vec)
    ensures WellShaped(Emit(path, facing))
    ensures Emit(path, facing) != [] ==> Emit(path, facing)[|Emit(path, facing)| - 1] == Forward
    decreases |path|
  {
    if |path| >= 2 {
      match StepDirection(path[0], path[1])
      case None =>
        EmitWellShaped(path[1..], facing);
      case Some(d) =>
        EmitWellShaped(path[1..], d);
        var t := TurnFor(d, facing);
        TurnTable(d, facing);
        assert WellShaped(t + [Forward]);
        WellShapedConcat(t + [Forward], Emit(path[1..], d));
        var rest := Emit(path[1..], d);
        assert Emit(path, facing) == (t + [Forward]) + rest;
        if rest == [] {
          assert (t + [Forward]) + rest == t + [Forward];
        }
    }
  }

  /**
   The first step never turns: the initial facing is the first step vector,
   and while the path stands still it stays that (zero) vector.
   */
  lemma {:induction false} NoTurnBeforeFirstMove(path: seq<Cell>, facing: Vec)
    requires |path| >= 2
    requires facing == Delta(path[0], path[1]) || facing == Vec(0, 0)
    ensures Emit(path, facing) != [] ==> Emit(path, facing)[0] == Forward
    decreases |path|
  {
    match StepDirection(path[0], path[1])
    case None =>
      if |path| >= 3 {
        NoTurnBeforeFirstMove(path[1..], facing);
      }
    case Some(d) =>
      assert TurnFor(d, facing) == [];
  }

  /**
   Obeying `ts` from `pos` with heading `facing`: turns rotate the heading,
   "forward" moves one cell. The result lists the cells occupied, the start
   first.
   */
  function Replay(ts: seq<Token>, pos: Cell, facing: Vec): (trace: seq<Cell>)
    ensures |trace| == CountForward(ts) + 1 && trace[0] == pos
    decreases |ts|
  {
    if ts == [] then [pos]
    else
      match ts[0]
      case Left => Replay(ts[1..], pos, RotateLeft(facing))
      case Right => Replay(ts[1..], pos, RotateRight(facing))
      case Forward => [pos] + Replay(ts[1..], Shift(pos, facing), facing)
  }

  /** Replaying the turn tokens of one step leaves the robot in place, facing along the step. */
  lemma {:induction false} ReplayTurn(step: Vec, facing: Vec, rest: seq<Token>, pos: Cell)
    requires IsUnit(step) && IsUnit(facing) && facing != Opposite(step)
    ensures Replay(TurnFor(step, facing) + rest, pos, facing) == Replay(rest, pos, step)
  {
    var t := TurnFor(step, facing);
    TurnTable(step, facing);
    if t == [] {
      assert t + rest == rest;
    } else {
      assert (t + rest)[1..] == rest;
      assert Turned(facing, t) == step;
      assert t[1..] == [];
    }
  }

  /**
   Replay undoes the generator: from the first cell, obeying the tokens
   visits the path cell by cell, provided the path moves by unit steps and
   never doubles back and the incoming facing is not opposite its first step.
   */
  lemma {:induction false} ReplayEmit(path: seq<Cell>, facing: Vec)
    requires |path| >= 1 && UnitSteps(path) && NoReversal(path) && IsUnit(facing)
    requires |path| >= 2 ==> facing != Opposite(Delta(path[0], path[1]))
    ensures Replay(Emit(path, facing), path[0], facing) == path
    decreases |path|
  {
    if |path| >= 2 {
      var d := Delta(path[0], path[1]);
      assert Adjacent(path[0], path[1]);
      TailKeepsShape(path);
      ReplayEmit(path[1..], d);
      ReplayStep(path, facing);
      assert path == [path[0]] + path[1..];
    }
  }

  /** Replaying the tokens of a path's first unit step moves the robot onto its second cell, facing along the step. */
  lemma {:induction false} ReplayStep(path: seq<Cell>, facing: Vec)
    requires |path| >= 2 && Adjacent(path[0], path[1]) && IsUnit(facing)
    requires facing != Opposite(Delta(path[0], path[1]))
    ensures var d := Delta(path[0], path[1]);
            Replay(Emit(path, facing), path[0], facing) == [path[0]] + Replay(Emit(path[1..], d), path[1], d)
  {
    var d := Delta(path[0], path[1]);
    assert path == [path[0]] + path[1..];
    EmitCons(path[0], path[1..], facing, d);
    var rest := Emit(path[1..], d);
    var moved := [Forward] + rest;
    ReplayTurn(d, facing, moved, path[0]);
    assert moved[0] == Forward && moved[1..] == rest;
  }

  /** Dropping the first cell keeps a path unit-step and free of reversals, and the new first step does not reverse the old one. */
  lemma {:induction false} TailKeepsShape(path: seq<Cell>)
    requires |path| >= 2 && UnitSteps(path) && NoReversal(path)
    ensures UnitSteps(path[1..]) && NoReversal(path[1..])
    ensures |path| >= 3 ==> Delta(path[0], path[1]) != Opposite(Delta(path[1], path[2]))
  {
    var tail := path[1..];
    forall i | 0 <= i < |tail| - 1
      ensures Adjacent(tail[i], tail[i + 1])
    {
      assert Adjacent(path[i + 1], path[i + 2]);
    }
    forall i | 0 <= i < |tail| - 2
      ensures tail[i] != tail[i + 2]
    {
      assert path[i + 1] != path[i + 3];
    }
    if |path| >= 3 {
      assert path[0] != path[2];
    }
  }

  /**
   For a unit-step path that never doubles back, replaying the instructions
   from the first cell with the initial facing reproduces the path exactly.
   */
  lemma {:induction false} InstructionsReplay(path: seq<Cell>)
    requires |path| >= 2 && UnitSteps(path) && NoReversal(path)
    ensures Replay(PathIntoInstructions(path), path[0], Delta(path[0], path[1])) == path
  {
    assert Adjacent(path[0], path[1]);
    var f := Delta(path[0], path[1]);
    AdjacentStepIsUnit(path[0], path[1]);
    ReplayEmit(path, f);
  }

  /** The step between adjacent cells is a unit vector, and not its own reverse. */
  lemma {:induction false} AdjacentStepIsUnit(a: Cell, b: Cell)
    requires Adjacent(a, b)
    ensures IsUnit(Delta(a, b)) && Delta(a, b) != Opposite(Delta(a, b))
  {
  }

  /**
   A path found by the search repeats no cell, so it never doubles back and
   its instructions replay to it.
   */
  lemma {:induction false} SearchPathReplays(path: seq<Cell>, size: int, obstacles: seq<Cell>, start: Cell, goal: Cell)
    requires IsWalk(path, size, obstacles, start, goal) && NoRepeats(path) && |path| >= 2
    ensures Replay(PathIntoInstructions(path), start, Delta(path[0], path[1])) == path
  {
    assert NoReversal(path) by {
      forall i | 0 <= i < |path| - 2
        ensures path[i] != path[i + 2]
      {
        assert i < i + 2;
      }
    }
    InstructionsReplay(path);
  }

  /** Prepending a cell that differs from the next one adds the step's turn token (if any) and one "forward". */
  lemma {:induction false} EmitCons(a: Cell, tail: seq<Cell>, facing: Vec, d: Vec)
    requires |tail| >= 1 && StepDirection(a, tail[0]) == Some(d)
    ensures Emit([a] + tail, facing) == TurnFor(d, facing) + ([Forward] + Emit(tail, d))
  {
    var path := [a] + tail;
    assert path[1..] == tail;
    assert Emit(path, facing) == TurnFor(d, facing) + [Forward] + Emit(tail, d);
  }

  lemma {:induction false} ReplayTwoForward(o: Cell)
    ensures Replay([Forward, Forward], o, East) == [o, Shift(o, Vec(1, 0)), Shift(o, Vec(2, 0))]
  {
    assert Replay([Forward], Shift(o, Vec(1, 0)), East) == [Shift(o, Vec(1, 0)), Shift(o, Vec(2, 0))] by {
      assert Replay([Forward], Shift(o, Vec(1, 0)), East) == [Shift(o, Vec(1, 0))] + Replay([], Shift(o, Vec(2, 0)), East);
    }
    assert [Forward, Forward][1..] == [Forward];
  }

  /**
   A path that steps east and straight back gets no turn token: its
   instructions are "forward", "forward", and they do not replay to it.
   */
  lemma {:induction false} ReversalIsNotReplayed(path: seq<Cell>)
    requires |path| == 3 && path[1] == Shift(path[0], Vec(1, 0)) && path[2] == path[0]
    ensures PathIntoInstructions(path) == [Forward, Forward]
    ensures Replay(PathIntoInstructions(path), path[0], East) != path
  {
    var o := path[0];
    var tail := path[1..];
    assert Emit(tail, East) == [Forward] by {
      assert tail == [tail[0]] + tail[1..];
      EmitCons(tail[0], tail[1..], East, West);
    }
    assert Emit(path, East) == [Forward, Forward] by {
      assert StepDirection(path[0], path[1]) == Some(East);
      assert TurnFor(East, East) == [];
      assert Emit(path, East) == [] + [Forward] + Emit(tail, East);
    }
    assert Delta(o, path[1]) == East;
    ReplayTwoForward(o);
    assert Shift(o, Vec(2, 0)) != o;
  }

  /** A straight corridor, placed anywhere: two steps east need no turn. */
  lemma {:induction false} CorridorExample(o: Cell)
    ensures PathIntoInstructions([o, Shift(o, Vec(1, 0)), Shift(o, Vec(2, 0))]) == [Forward, Forward]
  {
    var c := [o, Shift(o, Vec(1, 0)), Shift(o, Vec(2, 0))];
    assert Emit(c, East) == [Forward, Forward] by {
      assert Emit([Shift(o, Vec(1, 0)), Shift(o, Vec(2, 0))], East) == [Forward] by {
        EmitCons(Shift(o, Vec(1, 0)), [Shift(o, Vec(2, 0))], East, East);
      }
      EmitCons(o, [Shift(o, Vec(1, 0)), Shift(o, Vec(2, 0))], East, East);
      assert [o] + [Shift(o, Vec(1, 0)), Shift(o, Vec(2, 0))] == c;
    }
    assert Delta(c[0], c[1]) == East;
  }

  /** The detour's last three steps: down, then west twice, entered facing down. */
  lemma {:induction false} DetourTail(o: Cell)
    ensures Emit([Shift(o, Vec(2, 1)), Shift(o, Vec(2, 2)), Shift(o, Vec(1, 2)), Shift(o, Vec(0, 2))], South) == [Forward, Right, Forward, Forward]
  {
    var t5 := [Shift(o, Vec(1, 2)), Shift(o, Vec(0, 2))];
    var t4 := [Shift(o, Vec(2, 2))] + t5;
    var t3 := [Shift(o, Vec(2, 1))] + t4;
    assert Emit(t5, West) == [Forward] by {
      EmitCons(Shift(o, Vec(1, 2)), [Shift(o, Vec(0, 2))], West, West);
    }
    assert Emit(t4, South) == [Right, Forward, Forward] by {
      EmitCons(Shift(o, Vec(2, 2)), t5, South, West);
    }
    assert Emit(t3, South) == [Forward, Right, Forward, Forward] by {
      EmitCons(Shift(o, Vec(2, 1)), t4, South, South);
    }
    assert t3 == [Shift(o, Vec(2, 1)), Shift(o, Vec(2, 2)), Shift(o, Vec(1, 2)), Shift(o, Vec(0, 2))];
  }

  /**
   A detour, placed anywhere, around a wall to the cell two rows below the
   start: east twice, a right turn to go down, down twice, a right turn to
   go west, west twice.
   */
  lemma {:induction false} DetourExample(o: Cell)
    ensures PathIntoInstructions([o, Shift(o, Vec(1, 0)), Shift(o, Vec(2, 0)), Shift(o, Vec(2, 1)), Shift(o, Vec(2, 2)), Shift(o, Vec(1, 2)), Shift(o, Vec(0, 2))])
            == [Forward, Forward, Right, Forward, Forward, Right, Forward, Forward]
  {
    var t3 := [Shift(o, Vec(2, 1)), Shift(o, Vec(2, 2)), Shift(o, Vec(1, 2)), Shift(o, Vec(0, 2))];
    var t2 := [Shift(o, Vec(2, 0))] + t3;
    var t1 := [Shift(o, Vec(1, 0))] + t2;
    var t0 := [o] + t1;
    var e3 := [Forward, Right, Forward, Forward];
    assert Emit(t3, South) == e3 by {
      DetourTail(o);
    }
    assert Emit(t2, East) == [Right, Forward] + e3 by {
      EmitCons(Shift(o, Vec(2, 0)), t3, East, South);
    }
    assert Emit(t1, East) == [Forward, Right, Forward] + e3 by {
      EmitCons(Shift(o, Vec(1, 0)), t2, East, East);
    }
    assert Emit(t0, East) == [Forward, Forward, Right, Forward] + e3 by {
      EmitCons(o, t1, East, East);
    }
    assert t0 == [o, Shift(o, Vec(1, 0)), Shift(o, Vec(2, 0)), Shift(o, Vec(2, 1)), Shift(o, Vec(2, 2)), Shift(o, Vec(1, 2)), Shift(o, Vec(0, 2))];
    assert Delta(t0[0], t0[1]) == East;
  }
}
