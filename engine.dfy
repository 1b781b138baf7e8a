/**
  The engine: the sparse map of alive cells, the history of earlier
  generations used to step back, and the viewport offsets and grid lines,
  updated in place by the commands of the main loop.
 */
module GameEngine {
  import opened Objects
  import opened Life
  import opened Generation
  import opened Viewport

  /** A left click on `pos` makes it alive; a cell already there is left as it is. */
  function AddCell(cells: map<Coord, CellValue>, pos: Coord): (r: map<Coord, CellValue>)
    ensures r.Keys == cells.Keys + {pos}
    ensures pos !in cells ==> r[pos] == Live
    ensures forall c :: c in cells ==> r[c] == cells[c]
  {
    if pos in cells then cells else cells[pos := Live]
  }

  /** A right click on `pos` removes it; a click on an empty position changes nothing. */
  function RemoveCell(cells: map<Coord, CellValue>, pos: Coord): (r: map<Coord, CellValue>)
    ensures r.Keys == cells.Keys - {pos}
    ensures forall c :: c in r ==> r[c] == cells[c]
  {
    if pos in cells then cells - {pos} else cells
  }

  /** Removing a cell that was just added to an empty position restores the map. */
  lemma RemoveUndoesAdd(cells: map<Coord, CellValue>, pos: Coord)
    requires pos !in cells
    ensures RemoveCell(AddCell(cells, pos), pos) == cells
  {
    var r := RemoveCell(AddCell(cells, pos), pos);
    assert r.Keys == cells.Keys;
  }

  /** Adding twice is adding once. */
  lemma AddIdempotent(cells: map<Coord, CellValue>, pos: Coord)
    ensures AddCell(AddCell(cells, pos), pos) == AddCell(cells, pos)
  {
  }

  /** Clicks keep every stored cell alive with a reset counter. */
  lemma ClicksKeepAllLive(cells: map<Coord, CellValue>, pos: Coord)
    requires AllLive(cells)
    ensures AllLive(AddCell(cells, pos)) && AllLive(RemoveCell(cells, pos))
  {
  }

  /** Every saved generation consists of alive cells with cleared counters. */
  ghost predicate HistoryLive(steps: seq<map<Coord, CellValue>>)
  {
    forall i :: 0 <= i < |steps| ==> AllLive(steps[i])
  }

  /** Saving a generation of alive cells keeps the history well formed. */
  lemma HistoryLivePush(steps: seq<map<Coord, CellValue>>, cells: map<Coord, CellValue>)
    requires HistoryLive(steps) && AllLive(cells)
    ensures HistoryLive(steps + [cells])
  {
  }

  /** The last saved generation, and the history without it, are well formed. */
  lemma HistoryLivePop(steps: seq<map<Coord, CellValue>>)
    requires HistoryLive(steps) && steps != []
    ensures AllLive(steps[|steps| - 1]) && HistoryLive(steps[..|steps| - 1])
  {
  }

  /** The lines are the initial grid moved by how far the local offset has travelled from the origin. */
  ghost predicate LinesFollow(lines: seq<Line>, size: (nat, nat), cellSize: int, origin: Point, local: Point)
    requires cellSize > 0
  {
    lines == ShiftAll(GridLines(size, cellSize, origin), Point(local.x - origin.x, local.y - origin.y))
  }

  /** Moving the lines together with the local offset keeps them following it. */
  lemma LinesFollowShift(lines: seq<Line>, size: (nat, nat), cellSize: int, origin: Point, local: Point, applied: Point)
    requires cellSize > 0 && LinesFollow(lines, size, cellSize, origin, local)
    ensures LinesFollow(ShiftAll(lines, applied), size, cellSize, origin,
                        Point(local.x + applied.x, local.y + applied.y))
  {
    ShiftAllTwice(GridLines(size, cellSize, origin), Point(local.x - origin.x, local.y - origin.y), applied);
  }

  /** The grid coordinate under the pointer. */
  function PointerToGrid(pointer: (int, int), global: Point, cellSize: int): (r: Coord)
    requires cellSize > 0
    ensures var qx := (pointer.0 as real - global.x) / cellSize as real;
      (qx >= 0.0 ==> r.0 as real <= qx < r.0 as real + 1.0)
      && (qx < 0.0 ==> r.0 as real - 1.0 < qx <= r.0 as real)
    ensures var qy := (pointer.1 as real - global.y) / cellSize as real;
      (qy >= 0.0 ==> r.1 as real <= qy < r.1 as real + 1.0)
      && (qy < 0.0 ==> r.1 as real - 1.0 < qy <= r.1 as real)
  {
    (PixelToGrid(pointer.0, global.x, cellSize), PixelToGrid(pointer.1, global.y, cellSize))
  }

  class Engine {
    const size: (nat, nat)
    const cellSize: int
    /** The centring margin the grid lines were built from. */
    const origin: Point
    var localOffset: Point
    var globalOffset: Point
    var gridLines: seq<Line>
    var aliveCells: map<Coord, CellValue>
    var previousSteps: seq<map<Coord, CellValue>>

    /**
      Every stored cell (current and in the history) is alive with a reset
      counter, the local offset stays within one cell of zero, and the lines
      are the initial grid moved by how far the local offset has travelled.
     */
    ghost predicate Valid()
      reads this
    {
      cellSize > 0
      && AllLive(aliveCells)
      && HistoryLive(previousSteps)
      && -cellSize as real < localOffset.x < cellSize as real
      && -cellSize as real < localOffset.y < cellSize as real
      && LinesFollow(gridLines, size, cellSize, origin, localOffset)
    }

    constructor (size: (nat, nat), cellSize: int)
      requires cellSize > 0
      ensures Valid()
      ensures this.size == size && this.cellSize == cellSize
      ensures origin == Point(CentreOffset(size.0, cellSize), CentreOffset(size.1, cellSize))
      ensures localOffset == origin && globalOffset == origin
      ensures gridLines == GridLines(size, cellSize, origin)
      ensures aliveCells == map[] && previousSteps == []
    {
      var centre := Point(CentreOffset(size.0, cellSize), CentreOffset(size.1, cellSize));
      var lines := BuildGridLines(size, cellSize, centre);
      this.size := size;
      this.cellSize := cellSize;
      origin := centre;
      localOffset := centre;
      globalOffset := centre;
      gridLines := lines;
      aliveCells := map[];
      previousSteps := [];
      ShiftAllZero(lines);
    }

    /** Save the current generation, then replace it by the next one. */
    method StepUp()
      requires Valid()
      modifies this
      ensures Valid()
      ensures previousSteps == old(previousSteps) + [old(aliveCells)]
      ensures forall x :: x in aliveCells <==> BecomesAlive(old(aliveCells).Keys, x)
      ensures aliveCells.Keys == NextGeneration(old(aliveCells).Keys)
      ensures localOffset == old(localOffset) && globalOffset == old(globalOffset) && gridLines == old(gridLines)
    {
      var current := aliveCells;
      var next := Advance(current);
      HistoryLivePush(previousSteps, current);
      previousSteps := previousSteps + [current];
      aliveCells := next;
    }

    /** Go back to the most recently saved generation; with no history nothing changes. */
    method StepDown()
      requires Valid()
      modifies this
      ensures Valid()
      ensures old(previousSteps) == [] ==> aliveCells == old(aliveCells) && previousSteps == []
      ensures old(previousSteps) != [] ==>
        aliveCells == old(previousSteps)[|old(previousSteps)| - 1]
        && previousSteps == old(previousSteps)[..|old(previousSteps)| - 1]
      ensures localOffset == old(localOffset) && globalOffset == old(globalOffset) && gridLines == old(gridLines)
    {
      if previousSteps != [] {
        HistoryLivePop(previousSteps);
        aliveCells := previousSteps[|previousSteps| - 1];
        previousSteps := previousSteps[..|previousSteps| - 1];
      }
    }

    /** A step back right after a step forward restores the generation and the history. */
    method StepUpThenDown()
      requires Valid()
      modifies this
      ensures Valid()
      ensures aliveCells == old(aliveCells) && previousSteps == old(previousSteps)
    {
      StepUp();
      StepDown();
    }

    /** Remove every alive cell; the history is kept, so a step back still works. */
    method Clear()
      requires Valid()
      modifies this
      ensures Valid()
      ensures aliveCells == map[]
      ensures previousSteps == old(previousSteps)
      ensures localOffset == old(localOffset) && globalOffset == old(globalOffset) && gridLines == old(gridLines)
    {
      aliveCells := map[];
    }

    /** Move every grid line by `delta`, one line at a time. */
    method ShiftGridLines(delta: Point)
      modifies this
      ensures gridLines == ShiftAll(old(gridLines), delta)
      ensures localOffset == old(localOffset) && globalOffset == old(globalOffset)
      ensures aliveCells == old(aliveCells) && previousSteps == old(previousSteps)
    {
      for i := 0 to |gridLines|
        invariant |gridLines| == |old(gridLines)|
        invariant forall j :: 0 <= j < i ==> gridLines[j] == ShiftLine(old(gridLines)[j], delta)
        invariant forall j :: i <= j < |gridLines| ==> gridLines[j] == old(gridLines)[j]
        invariant localOffset == old(localOffset) && globalOffset == old(globalOffset)
        invariant aliveCells == old(aliveCells) && previousSteps == old(previousSteps)
      {
        gridLines := gridLines[i := ShiftLine(gridLines[i], delta)];
      }
    }

    /**
      One pan tick: without a movement key nothing happens; otherwise both
      axes are panned and the lines follow the local offset.
     */
    method PanTick(keys: Keys)
      requires Valid()
      modifies this
      ensures Valid()
      ensures MoveVector(keys).None? ==>
        localOffset == old(localOffset) && globalOffset == old(globalOffset) && gridLines == old(gridLines)
      ensures MoveVector(keys).Some? ==>
        var move := MoveVector(keys).value;
        var panX := PanAxis(old(localOffset).x, old(globalOffset).x, move.0, cellSize);
        var panY := PanAxis(old(localOffset).y, old(globalOffset).y, move.1, cellSize);
        localOffset == Point(panX.local, panY.local)
        && globalOffset == Point(panX.global, panY.global)
        && gridLines == ShiftAll(old(gridLines), Point(panX.applied, panY.applied))
      ensures aliveCells == old(aliveCells) && previousSteps == old(previousSteps)
    {
      var moveVector := MoveVector(keys);
      if moveVector.Some? {
        var move := moveVector.value;
        var panX := PanAxis(localOffset.x, globalOffset.x, move.0, cellSize);
        var panY := PanAxis(localOffset.y, globalOffset.y, move.1, cellSize);
        PanKeepsLocalInBand(localOffset.x, globalOffset.x, move.0, cellSize);
        PanKeepsLocalInBand(localOffset.y, globalOffset.y, move.1, cellSize);
        LinesFollowShift(gridLines, size, cellSize, origin, localOffset, Point(panX.applied, panY.applied));
        globalOffset := Point(panX.global, panY.global);
        localOffset := Point(panX.local, panY.local);
        ShiftGridLines(Point(panX.applied, panY.applied));
      }
    }

    /**
      A pointer press: the left button makes the cell under the pointer alive,
      otherwise the right button removes it.
     */
    method Click(pointer: (int, int), left: bool, right: bool)
      requires Valid()
      modifies this
      ensures Valid()
      ensures var pos := PointerToGrid(pointer, old(globalOffset), cellSize);
        aliveCells == if left then AddCell(old(aliveCells), pos)
                      else if right then RemoveCell(old(aliveCells), pos)
                      else old(aliveCells)
      ensures previousSteps == old(previousSteps)
      ensures localOffset == old(localOffset) && globalOffset == old(globalOffset) && gridLines == old(gridLines)
    {
      if left || right {
        var position := (PixelToGrid(pointer.0, globalOffset.x, cellSize),
                         PixelToGrid(pointer.1, globalOffset.y, cellSize));
        if left {
          if position !in aliveCells {
            var cell := new Cell(cellSize, true);
            aliveCells := aliveCells[position := cell.Value()];
          }
        } else if right {
          if position in aliveCells {
            aliveCells := aliveCells - {position};
          }
        }
      }
    }
  }
}
