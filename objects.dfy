/**
  The cell of the Game of Life: an alive/dead flag with a counter of alive
  neighbours, stepped by Conway's B3/S23 rule, and the screen arithmetic used
  when the cell is drawn.
 */
module Objects {

  /** Gap in pixels between a cell's hitbox and the square that is drawn. */
  const DrawingOffset: int := 2

  /** The value a cell holds: its state and its neighbour counter. */
  datatype CellValue = CellValue(state: bool, neighbours: nat)
  {
    /** What `is_alive` reports for a cell holding this value. */
    predicate IsAlive()
    {
      state
    }
  }

  /** A screen position in pixels (offsets can be half-integers). */
  datatype Point = Point(x: real, y: real)

  /** B3/S23: an alive cell survives with 2 or 3 alive neighbours, a dead cell is born with exactly 3. */
  predicate NextState(alive: bool, n: nat)
  {
    (alive && (n == 2 || n == 3)) || (!alive && n == 3)
  }

  /** What one `step` does to a cell value: apply the rule, then reset the counter. */
  function Stepped(v: CellValue): (r: CellValue)
    ensures r.neighbours == 0
    ensures v.state && v.neighbours < 2 ==> !r.state
    ensures v.state && v.neighbours > 3 ==> !r.state
    ensures v.state && (v.neighbours == 2 || v.neighbours == 3) ==> r.state
    ensures !v.state ==> (r.state <==> v.neighbours == 3)
  {
    CellValue(NextState(v.state, v.neighbours), 0)
  }

  /** What one `add_neighbour` does to a cell value. */
  function WithNeighbour(v: CellValue): (r: CellValue)
    ensures r.state == v.state && r.neighbours == v.neighbours + 1
  {
    v.(neighbours := v.neighbours + 1)
  }

  class Cell {
    const drawingOffset: int
    const hitboxSize: int
    const drawingSize: int
    var state: bool
    var neighbours: nat

    /** The cell's value, as the engine's map of cells holds it. */
    function Value(): CellValue
      reads this
    {
      CellValue(state, neighbours)
    }

    constructor (size: int, state: bool)
      ensures drawingOffset == DrawingOffset && hitboxSize == size
      ensures drawingSize == size - 4
      ensures Value() == CellValue(state, 0)
    {
      drawingOffset := DrawingOffset;
      hitboxSize := size;
      drawingSize := size - DrawingOffset * 2;
      this.state := state;
      neighbours := 0;
    }

    /**
      The cell's own alive test. The engine holds cell values rather than
      cells, so this getter serves only to tie `is_alive` to
      `CellValue.IsAlive`, the test the engine's passes apply.
     */
    predicate IsAlive()
      reads this
      ensures IsAlive() <==> Value().IsAlive()
    {
      state
    }

    method AddNeighbour()
      modifies this
      ensures Value() == WithNeighbour(old(Value()))
    {
      neighbours := neighbours + 1;
    }

    method Step()
      modifies this
      ensures Value() == Stepped(old(Value()))
    {
      if state {
        if neighbours < 2 {
          state := false;
        } else if neighbours > 3 {
          state := false;
        }
      } else if neighbours == 3 {
        state := true;
      }
      neighbours := 0;
    }

    /**
      Top-left corner of the drawn square of the cell at grid `position`; with
      a positive inset on each side, the drawn square lies strictly inside the
      hitbox of that position.
     */
    function ScreenPosition(position: (int, int), offset: Point): (p: Point)
      ensures p.x - offset.x == (position.0 * hitboxSize + drawingOffset) as real
      ensures p.y - offset.y == (position.1 * hitboxSize + drawingOffset) as real
      ensures drawingOffset > 0 && drawingSize == hitboxSize - 2 * drawingOffset ==>
        (position.0 * hitboxSize) as real < p.x - offset.x
        && p.x - offset.x + drawingSize as real < ((position.0 + 1) * hitboxSize) as real
        && (position.1 * hitboxSize) as real < p.y - offset.y
        && p.y - offset.y + drawingSize as real < ((position.1 + 1) * hitboxSize) as real
    {
      Point((position.0 * hitboxSize + drawingOffset) as real + offset.x,
            (position.1 * hitboxSize + drawingOffset) as real + offset.y)
    }

    /** Whether `draw` renders the cell: it is alive and its corner lies strictly inside the surface widened by one hitbox. */
    predicate IsDrawn(surfaceSize: (int, int), position: (int, int), offset: Point)
      reads this
      ensures IsDrawn(surfaceSize, position, offset) ==> IsAlive()
      ensures IsDrawn(surfaceSize, position, offset) ==>
        var p := ScreenPosition(position, offset);
        -hitboxSize as real < p.x < (surfaceSize.0 + hitboxSize) as real
        && -hitboxSize as real < p.y < (surfaceSize.1 + hitboxSize) as real
    {
      var p := ScreenPosition(position, offset);
      state
      && (surfaceSize.0 + hitboxSize) as real > p.x > (-hitboxSize) as real
      && (surfaceSize.1 + hitboxSize) as real > p.y > (-hitboxSize) as real
    }

    /** The cull never hides an alive cell whose drawn square overlaps the surface. */
    lemma VisibleCellsAreDrawn(surfaceSize: (int, int), position: (int, int), offset: Point)
      requires drawingOffset == DrawingOffset && drawingSize == hitboxSize - 4 && hitboxSize > 0
      requires state
      requires var p := ScreenPosition(position, offset);
        p.x + drawingSize as real > 0.0 && p.x < surfaceSize.0 as real
        && p.y + drawingSize as real > 0.0 && p.y < surfaceSize.1 as real
      ensures IsDrawn(surfaceSize, position, offset)
    {
    }
  }
}
