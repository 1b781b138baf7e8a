/**
  The specification of one generation on the infinite grid: a coordinate is
  alive afterwards iff the B3/S23 rule says so for its state and the number of
  alive cells among its eight neighbours.
 */
module Life {
  import opened Objects

  /** A logical grid coordinate. */
  type Coord = (int, int)

  /** The eight coordinates around `c`. */
  function Neighbourhood(c: Coord): set<Coord>
  {
    {(c.0 - 1, c.1 - 1), (c.0 - 1, c.1), (c.0 - 1, c.1 + 1),
     (c.0, c.1 - 1), (c.0, c.1 + 1),
     (c.0 + 1, c.1 - 1), (c.0 + 1, c.1), (c.0 + 1, c.1 + 1)}
  }

  predicate Adjacent(a: Coord, b: Coord)
  {
    a != b && -1 <= a.0 - b.0 <= 1 && -1 <= a.1 - b.1 <= 1
  }

  lemma NeighbourhoodIsAdjacent(c: Coord, x: Coord)
    ensures x in Neighbourhood(c) <==> Adjacent(c, x)
  {
  }

  /** Being a neighbour is symmetric. */
  lemma NeighbourhoodSymmetric(a: Coord, b: Coord)
    ensures a in Neighbourhood(b) <==> b in Neighbourhood(a)
  {
    NeighbourhoodIsAdjacent(a, b);
    NeighbourhoodIsAdjacent(b, a);
  }

  /** Number of alive cells among the eight neighbours of `c`. */
  function LiveNeighbours(alive: set<Coord>, c: Coord): nat
  {
    |alive * Neighbourhood(c)|
  }

  /** Whether `c` is alive in the generation after `alive`. */
  predicate BecomesAlive(alive: set<Coord>, c: Coord)
  {
    NextState(c in alive, LiveNeighbours(alive, c))
  }

  /** The next generation, built from the alive cells and their neighbours only. */
  function NextGeneration(alive: set<Coord>): set<Coord>
  {
    (set c | c in alive && BecomesAlive(alive, c))
    + (set c, n | c in alive && n in Neighbourhood(c) && n !in alive && BecomesAlive(alive, n) :: n)
  }

  /** The finite construction agrees with the rule applied at every coordinate of the infinite grid. */
  lemma {:induction false} NextGenerationIsLife(alive: set<Coord>, x: Coord)
    ensures x in NextGeneration(alive) <==> BecomesAlive(alive, x)
  {
    if x !in alive && BecomesAlive(alive, x) {
      assert LiveNeighbours(alive, x) == 3;
      var c :| c in alive * Neighbourhood(x);
      NeighbourhoodSymmetric(c, x);
    }
  }

  /** A cell that is born has an alive neighbour in the previous generation. */
  lemma BirthsAreAdjacent(alive: set<Coord>, x: Coord)
    requires x !in alive && x in NextGeneration(alive)
    ensures exists c :: c in alive && Adjacent(c, x)
  {
    var c, n :| c in alive && n in Neighbourhood(c) && n !in alive && BecomesAlive(alive, n) && n == x;
    NeighbourhoodIsAdjacent(c, x);
  }

  /** An alive cell without alive neighbours dies, wherever it sits. */
  lemma IsolatedCellDies(alive: set<Coord>, c: Coord)
    requires c in alive && alive * Neighbourhood(c) == {}
    ensures c !in NextGeneration(alive)
  {
    NextGenerationIsLife(alive, c);
  }
}
