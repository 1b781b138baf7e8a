/**
  The viewport: the background grid lines, the per-axis pan arithmetic that
  keeps the lines within one cell of their origin while the offset used for
  cells accumulates, the movement read from the keyboard and the mapping of a
  pointer pixel back to a grid coordinate.
 */
module Viewport {
  import opened Objects

  datatype Option<T> = None | Some(value: T)

  /** A segment of the background grid. */
  datatype Line = Line(start: Point, end: Point)

  // ---------------------------------------------------------------------------
  // Grid construction
  // ---------------------------------------------------------------------------

  /** Number of whole cells that fit along an axis of `size` pixels. */
  function LineCount(size: nat, cellSize: int): (n: nat)
    requires cellSize > 0
    ensures n * cellSize <= size < (n + 1) * cellSize
  {
    size / cellSize
  }

  /** The margin that centres the whole cells on an axis: half of what is left over. */
  function CentreOffset(size: nat, cellSize: int): (r: real)
    requires cellSize > 0
    ensures 0.0 <= r < cellSize as real / 2.0
    ensures 2.0 * r + (LineCount(size, cellSize) * cellSize) as real == size as real
  {
    (size - LineCount(size, cellSize) * cellSize) as real / 2.0
  }

  /** The single formula that yields both kinds of line, selected by `dimension` (0 or 1). */
  function FormulaLine(dimension: int, line: int, cellSize: int, origin: Point, size: (nat, nat)): (r: Line)
    ensures dimension == 0 ==>
      r.start.y == r.end.y && r.end.x - r.start.x == (2 * cellSize + size.0) as real
    ensures dimension == 1 ==>
      r.start.x == r.end.x && r.end.y - r.start.y == (2 * cellSize + size.1) as real
  {
    Line(Point(origin.x + (cellSize * (dimension * (line + 1) - 1)) as real,
               origin.y - (cellSize * (dimension + line * (dimension - 1))) as real),
         Point(origin.x + (cellSize * (dimension * (line - 1) + 1)) as real - (size.0 * (dimension - 1)) as real,
               origin.y + (cellSize * (dimension - line * (dimension - 1))) as real + (size.1 * dimension) as real))
  }

  /** Readable reference: the `line`-th horizontal line, one cell of margin beyond each side of the surface. */
  function HorizontalLine(line: int, cellSize: int, origin: Point, size: (nat, nat)): Line
  {
    var y := origin.y + (line * cellSize) as real;
    Line(Point(origin.x - cellSize as real, y), Point(origin.x + (cellSize + size.0) as real, y))
  }

  /** Readable reference: the `line`-th vertical line, one cell of margin beyond each side of the surface. */
  function VerticalLine(line: int, cellSize: int, origin: Point, size: (nat, nat)): Line
  {
    var x := origin.x + (line * cellSize) as real;
    Line(Point(x, origin.y - cellSize as real), Point(x, origin.y + (cellSize + size.1) as real))
  }

  /** Dimension 0 of the formula draws horizontal lines and dimension 1 vertical ones. */
  lemma FormulaIsGrid(line: int, cellSize: int, origin: Point, size: (nat, nat))
    ensures FormulaLine(0, line, cellSize, origin, size) == HorizontalLine(line, cellSize, origin, size)
    ensures FormulaLine(1, line, cellSize, origin, size) == VerticalLine(line, cellSize, origin, size)
  {
  }

  /** All lines of one dimension: `count` of them, numbered from 0. */
  function DimensionLines(dimension: int, count: nat, cellSize: int, origin: Point, size: (nat, nat)): seq<Line>
  {
    seq(count, line => FormulaLine(dimension, line, cellSize, origin, size))
  }

  /** The whole initial grid; both dimensions use the count derived from the surface width. */
  function GridLines(size: (nat, nat), cellSize: int, origin: Point): seq<Line>
    requires cellSize > 0
  {
    var count := LineCount(size.0, cellSize) + 1;
    DimensionLines(0, count, cellSize, origin, size) + DimensionLines(1, count, cellSize, origin, size)
  }

  /**
    The grid is a run of evenly spaced horizontal lines followed by a run of
    evenly spaced vertical lines, as many of each as whole cells fit across
    the width, plus one.
   */
  lemma {:induction false} GridLinesShape(size: (nat, nat), cellSize: int, origin: Point)
    requires cellSize > 0
    ensures var count := LineCount(size.0, cellSize) + 1;
      var lines := GridLines(size, cellSize, origin);
      |lines| == 2 * count
      && (forall k :: 0 <= k < count ==> lines[k] == HorizontalLine(k, cellSize, origin, size))
      && (forall k :: 0 <= k < count ==> lines[count + k] == VerticalLine(k, cellSize, origin, size))
  {
    var count := LineCount(size.0, cellSize) + 1;
    var lines := GridLines(size, cellSize, origin);
    forall k | 0 <= k < count
      ensures lines[k] == HorizontalLine(k, cellSize, origin, size)
      ensures lines[count + k] == VerticalLine(k, cellSize, origin, size)
    {
      FormulaIsGrid(k, cellSize, origin, size);
    }
  }

  /** Consecutive lines of a dimension are exactly one cell apart. */
  lemma EvenlySpaced(line: int, cellSize: int, origin: Point, size: (nat, nat))
    ensures HorizontalLine(line + 1, cellSize, origin, size).start.y
      == HorizontalLine(line, cellSize, origin, size).start.y + cellSize as real
    ensures VerticalLine(line + 1, cellSize, origin, size).start.x
      == VerticalLine(line, cellSize, origin, size).start.x + cellSize as real
  {
  }

  /** The nested loops of the initialisation, appending one line at a time. */
  method BuildGridLines(size: (nat, nat), cellSize: int, origin: Point) returns (lines: seq<Line>)
    requires cellSize > 0
    ensures lines == GridLines(size, cellSize, origin)
  {
    var count := LineCount(size.0, cellSize) + 1;
    lines := [];
    for dimension := 0 to 2
      invariant lines == if dimension == 0 then []
        else if dimension == 1 then DimensionLines(0, count, cellSize, origin, size)
        else GridLines(size, cellSize, origin)
    {
      ghost var before := lines;
      for line := 0 to count
        invariant lines == before + DimensionLines(dimension, count, cellSize, origin, size)[..line]
      {
        lines := lines + [FormulaLine(dimension, line, cellSize, origin, size)];
      }
      assert DimensionLines(dimension, count, cellSize, origin, size)[..count]
        == DimensionLines(dimension, count, cellSize, origin, size);
      assert [] + DimensionLines(0, count, cellSize, origin, size) == DimensionLines(0, count, cellSize, origin, size);
    }
  }

  /** Translate both end points of a line. */
  function ShiftLine(l: Line, delta: Point): (r: Line)
    ensures r.end.x - r.start.x == l.end.x - l.start.x && r.end.y - r.start.y == l.end.y - l.start.y
    ensures r.start.x - l.start.x == delta.x && r.start.y - l.start.y == delta.y
  {
    Line(Point(l.start.x + delta.x, l.start.y + delta.y), Point(l.end.x + delta.x, l.end.y + delta.y))
  }

  /** Translate every line. */
  function ShiftAll(lines: seq<Line>, delta: Point): (r: seq<Line>)
    ensures |r| == |lines|
    ensures forall i :: 0 <= i < |lines| ==> r[i] == ShiftLine(lines[i], delta)
  {
    seq(|lines|, i requires 0 <= i < |lines| => ShiftLine(lines[i], delta))
  }

  /** Two translations in a row are one translation by the sum. */
  lemma ShiftAllTwice(lines: seq<Line>, a: Point, b: Point)
    ensures ShiftAll(ShiftAll(lines, a), b) == ShiftAll(lines, Point(a.x + b.x, a.y + b.y))
  {
    var left := ShiftAll(ShiftAll(lines, a), b);
    var right := ShiftAll(lines, Point(a.x + b.x, a.y + b.y));
    forall i | 0 <= i < |lines|
      ensures left[i] == right[i]
    {
    }
  }

  /** A translation by nothing leaves the lines as they are. */
  lemma ShiftAllZero(lines: seq<Line>)
    ensures ShiftAll(lines, Point(0.0, 0.0)) == lines
  {
    var shifted := ShiftAll(lines, Point(0.0, 0.0));
    forall i | 0 <= i < |lines|
      ensures shifted[i] == lines[i]
    {
    }
  }

  // ---------------------------------------------------------------------------
  // Keyboard movement
  // ---------------------------------------------------------------------------

  /**
    The movement keys held during a pan tick: `up` is W or the up arrow,
    `down` is S or the down arrow, `right` is D or the right arrow and `left`
    is A or the left arrow.
   */
  datatype Keys = Keys(up: bool, down: bool, right: bool, left: bool)

  function Indicator(b: bool): int
  {
    if b then 1 else 0
  }

  /**
    The movement of one pan tick: nothing at all when no movement key is held;
    otherwise the content follows the keys (up and left move it towards
    positive y and x), and opposite keys cancel out.
   */
  function MoveVector(keys: Keys): (r: Option<(int, int)>)
    ensures r.None? <==> !(keys.up || keys.down || keys.right || keys.left)
    ensures r.Some? ==> -1 <= r.value.0 <= 1 && -1 <= r.value.1 <= 1
    ensures r.Some? ==> (r.value.0 == 1 <==> keys.left && !keys.right)
    ensures r.Some? ==> (r.value.0 == -1 <==> keys.right && !keys.left)
    ensures r.Some? ==> (r.value.1 == 1 <==> keys.up && !keys.down)
    ensures r.Some? ==> (r.value.1 == -1 <==> keys.down && !keys.up)
  {
    if keys.up || keys.down || keys.right || keys.left then
      Some((Indicator(keys.left) - Indicator(keys.right), Indicator(keys.up) - Indicator(keys.down)))
    else
      None
  }

  // ---------------------------------------------------------------------------
  // Panning one axis
  // ---------------------------------------------------------------------------

  /** The offsets of one axis after a pan tick, and the amount the grid lines move by. */
  datatype AxisPan = AxisPan(local: real, global: real, applied: real)

  /** Whether the local offset is at or beyond a wrap threshold. */
  predicate AtThreshold(local: real, cellSize: int)
  {
    local <= (1 - cellSize) as real || local >= (cellSize - 1) as real
  }

  /**
    One pan tick on one axis: the global offset first takes the move; a local
    offset at a threshold is brought back to zero instead of moving, and the
    global offset is corrected by what the lines moved and by one cell less one
    pixel.
   */
  function PanAxis(local: real, global: real, move: int, cellSize: int): (r: AxisPan)
    ensures r.local == local + r.applied
    ensures !AtThreshold(local, cellSize) ==> r.applied == move as real && r.global == global + move as real
    ensures AtThreshold(local, cellSize) ==> r.local == 0.0
  {
    var g := global + move as real;
    if local <= (1 - cellSize) as real then
      AxisPan(0.0, g - local - (cellSize - 1) as real, -local)
    else if local >= (cellSize - 1) as real then
      AxisPan(0.0, g - local + (cellSize - 1) as real, -local)
    else
      AxisPan(local + move as real, g, move as real)
  }

  /** The local offset never leaves the open band of one cell around zero. */
  lemma PanKeepsLocalInBand(local: real, global: real, move: int, cellSize: int)
    requires cellSize > 0 && -1 <= move <= 1
    requires -cellSize as real < local < cellSize as real
    ensures var r := PanAxis(local, global, move, cellSize);
      -cellSize as real < r.local < cellSize as real
  {
  }

  /**
    An integral local offset stays integral and within the closed band
    [1 - cellSize, cellSize - 1], and then the global offset moves by exactly
    the requested amount, wrap or no wrap.
   */
  lemma PanIntegral(local: int, global: real, move: int, cellSize: int)
    requires cellSize > 0 && -1 <= move <= 1
    requires 1 - cellSize <= local <= cellSize - 1
    ensures var r := PanAxis(local as real, global, move, cellSize);
      r.global == global + move as real
      && r.local == (r.local.Floor) as real
      && 1 - cellSize <= r.local.Floor <= cellSize - 1
  {
    var r := PanAxis(local as real, global, move, cellSize);
    if AtThreshold(local as real, cellSize) {
      assert r.local == 0 as real;
    } else {
      assert r.local == (local + move) as real;
    }
  }

  /** Apply a sequence of pan ticks to one axis; `applied` totals what the lines moved by. */
  function PanMany(local: real, global: real, moves: seq<int>, cellSize: int): (r: AxisPan)
    ensures r.local == local + r.applied
    decreases |moves|
  {
    if moves == [] then AxisPan(local, global, 0.0)
    else
      var first := PanAxis(local, global, moves[0], cellSize);
      var rest := PanMany(first.local, first.global, moves[1..], cellSize);
      AxisPan(rest.local, rest.global, first.applied + rest.applied)
  }

  function Sum(moves: seq<int>): int
  {
    if moves == [] then 0 else moves[0] + Sum(moves[1..])
  }

  /** With an integral local offset the global offset is the start plus the sum of all moves. */
  lemma {:induction false} PanManyIntegral(local: int, global: real, moves: seq<int>, cellSize: int)
    requires cellSize > 0
    requires 1 - cellSize <= local <= cellSize - 1
    requires forall i :: 0 <= i < |moves| ==> -1 <= moves[i] <= 1
    ensures PanMany(local as real, global, moves, cellSize).global == global + Sum(moves) as real
    decreases |moves|
  {
    if moves != [] {
      var first := PanAxis(local as real, global, moves[0], cellSize);
      PanIntegral(local, global, moves[0], cellSize);
      PanManyIntegral(first.local.Floor, first.global, moves[1..], cellSize);
    }
  }

  /** Moving away and back by the same keys returns the global offset to its start (integral local offset). */
  lemma PanThereAndBack(local: int, global: real, moves: seq<int>, back: seq<int>, cellSize: int)
    requires cellSize > 0
    requires 1 - cellSize <= local <= cellSize - 1
    requires forall i :: 0 <= i < |moves| ==> -1 <= moves[i] <= 1
    requires |back| == |moves| && forall i :: 0 <= i < |back| ==> back[i] == -moves[|moves| - 1 - i]
    ensures PanMany(local as real, global, moves + back, cellSize).global == global
  {
    SumNegatedReverse(moves, back);
    SumAppend(moves, back);
    PanManyIntegral(local, global, moves + back, cellSize);
  }

  lemma {:induction false} SumAppend(a: seq<int>, b: seq<int>)
    ensures Sum(a + b) == Sum(a) + Sum(b)
    decreases |a|
  {
    if a != [] {
      assert (a + b)[0] == a[0];
      assert (a + b)[1..] == a[1..] + b;
      SumAppend(a[1..], b);
    } else {
      assert a + b == b;
    }
  }

  lemma {:induction false} SumNegatedReverse(moves: seq<int>, back: seq<int>)
    requires |back| == |moves| && forall i :: 0 <= i < |back| ==> back[i] == -moves[|moves| - 1 - i]
    ensures Sum(back) == -Sum(moves)
    decreases |moves|
  {
    if moves != [] {
      var n := |moves|;
      var rest := moves[1..];
      var restBack := back[..n - 1];
      SumNegatedReverse(rest, restBack);
      assert back == restBack + [back[n - 1]];
      SumAppend(restBack, [back[n - 1]]);
      assert Sum([back[n - 1]]) == back[n - 1];
    }
  }

  /**
    With a half-pixel local offset, one step over the upper threshold and one
    step back leave the global offset half a pixel short of where it started.
   */
  lemma PanHalfPixelDrift()
    ensures var there := PanAxis(3.5, 3.5, 1, 4);
      var back := PanAxis(there.local, there.global, -1, 4);
      back.global == 3.0 && back.local == -1.0
  {
  }

  /**
    How a tick changes the gap between the global and the local offset (the
    gap fixes where cells sit relative to the lines): not at all away from a
    threshold; by `move + 1 - cellSize` at the lower one and by
    `move + cellSize - 1` at the upper one.
   */
  lemma PanGap(local: real, global: real, move: int, cellSize: int)
    ensures var r := PanAxis(local, global, move, cellSize);
      r.global - r.local - (global - local)
      == if local <= (1 - cellSize) as real then (move + 1 - cellSize) as real
         else if local >= (cellSize - 1) as real then (move + cellSize - 1) as real
         else 0.0
  {
  }

  /**
    Cells stay aligned with the lines (the gap changes by a whole cell) when
    the tick that wraps keeps moving in the direction that reached the
    threshold; reversing on that tick shifts the cells by two pixels against
    the lines.
   */
  lemma PanWrapAlignment(local: real, global: real, cellSize: int)
    requires cellSize > 1
    ensures local <= (1 - cellSize) as real ==>
      var r := PanAxis(local, global, -1, cellSize);
      r.global - r.local == global - local - cellSize as real
    ensures local >= (cellSize - 1) as real ==>
      var r := PanAxis(local, global, 1, cellSize);
      r.global - r.local == global - local + cellSize as real
    ensures local <= (1 - cellSize) as real ==>
      var r := PanAxis(local, global, 1, cellSize);
      r.global - r.local == global - local - cellSize as real + 2.0
    ensures local >= (cellSize - 1) as real ==>
      var r := PanAxis(local, global, -1, cellSize);
      r.global - r.local == global - local + cellSize as real - 2.0
  {
    PanGap(local, global, -1, cellSize);
    PanGap(local, global, 1, cellSize);
  }

  // ---------------------------------------------------------------------------
  // Pointer to grid
  // ---------------------------------------------------------------------------

  /** Conversion of a real to an integer by dropping the fraction (rounding towards zero). */
  function Trunc(r: real): (i: int)
    ensures r >= 0.0 ==> i as real <= r < i as real + 1.0
    ensures r < 0.0 ==> i as real - 1.0 < r <= i as real
  {
    if r >= 0.0 then r.Floor else -((-r).Floor)
  }

  /** The grid coordinate, along one axis, of a pointer pixel. */
  function PixelToGrid(pixel: int, global: real, cellSize: int): (r: int)
    requires cellSize > 0
    ensures var q := (pixel as real - global) / cellSize as real;
      (q >= 0.0 ==> r as real <= q < r as real + 1.0)
      && (q < 0.0 ==> r as real - 1.0 < q <= r as real)
  {
    Trunc((pixel as real - global) / cellSize as real)
  }

  /** Right of and below the global offset the mapping is the floor of the cell quotient. */
  lemma PixelToGridFloor(pixel: int, global: real, cellSize: int)
    requires cellSize > 0 && pixel as real >= global
    ensures PixelToGrid(pixel, global, cellSize) == ((pixel as real - global) / cellSize as real).Floor
  {
  }

  /** A pixel strictly inside the hitbox of cell `p`, along one axis. */
  predicate InsideCell(pixel: int, global: real, p: int, cellSize: int)
  {
    (p * cellSize) as real < pixel as real - global < ((p + 1) * cellSize) as real
  }

  /** A pixel strictly inside the hitbox of cell `p` lies strictly between p and p+1 once divided by the cell size. */
  lemma CellQuotient(pixel: int, global: real, p: int, cellSize: int)
    requires cellSize > 0
    requires InsideCell(pixel, global, p, cellSize)
    ensures p as real < (pixel as real - global) / cellSize as real < (p + 1) as real
  {
    var q := (pixel as real - global) / cellSize as real;
    var cs := cellSize as real;
    assert q * cs == pixel as real - global;
    assert (p * cellSize) as real == p as real * cs;
    assert ((p + 1) * cellSize) as real == (p + 1) as real * cs;
    QuotientBounds(q, p, cs);
  }

  /**
    A pixel strictly inside the hitbox of cell `p` resolves to `p` when `p`
    is non-negative and, since the conversion rounds towards zero, to the
    next cell towards zero when `p` is negative.
   */
  lemma ClickInsideCell(pixel: int, global: real, p: int, cellSize: int)
    requires cellSize > 0
    requires InsideCell(pixel, global, p, cellSize)
    ensures PixelToGrid(pixel, global, cellSize) == if p >= 0 then p else p + 1
  {
    CellQuotient(pixel, global, p, cellSize);
  }

  /**
    A press on the drawn square of a cell placed at `position` with `offset`
    resolves, on each axis, to that coordinate when it is non-negative and to
    the next one towards zero when it is negative.
   */
  lemma ClickOnDrawnCell(c: Cell, position: (int, int), offset: Point, pointer: (int, int))
    requires c.drawingOffset == DrawingOffset && c.drawingSize == c.hitboxSize - 2 * DrawingOffset
    requires c.hitboxSize > 0
    requires var corner := c.ScreenPosition(position, offset);
      corner.x <= pointer.0 as real < corner.x + c.drawingSize as real
      && corner.y <= pointer.1 as real < corner.y + c.drawingSize as real
    ensures PixelToGrid(pointer.0, offset.x, c.hitboxSize) == if position.0 >= 0 then position.0 else position.0 + 1
    ensures PixelToGrid(pointer.1, offset.y, c.hitboxSize) == if position.1 >= 0 then position.1 else position.1 + 1
  {
    var corner := c.ScreenPosition(position, offset);
    assert InsideCell(pointer.0, offset.x, position.0, c.hitboxSize);
    assert InsideCell(pointer.1, offset.y, position.1, c.hitboxSize);
    ClickInsideCell(pointer.0, offset.x, position.0, c.hitboxSize);
    ClickInsideCell(pointer.1, offset.y, position.1, c.hitboxSize);
  }

  lemma QuotientBounds(q: real, p: int, cs: real)
    requires cs > 0.0
    requires p as real * cs < q * cs < (p + 1) as real * cs
    ensures p as real < q < (p + 1) as real
  {
  }
}
