/**
  The three passes of `Engine.step_up` over the sparse map of alive cells:
  count neighbours (building a transient map of neighbouring dead cells),
  step the alive cells and drop the ones that die, step the dead cells and
  promote the ones that are born.
 */
module Generation {
  import opened Objects
  import opened Life

  /** A cell as the engine stores it: alive, with a cleared counter. */
  const Live := CellValue(true, 0)

  /** Every entry is an alive cell with a cleared counter. */
  ghost predicate AllLive(cells: map<Coord, CellValue>)
  {
    forall c :: c in cells ==> cells[c] == Live
  }

  lemma AddToIntersection(done: set<Coord>, c: Coord, n: Coord)
    requires c !in done
    ensures |(done + {c}) * Neighbourhood(n)| == |done * Neighbourhood(n)| + (if n in Neighbourhood(c) then 1 else 0)
  {
    NeighbourhoodSymmetric(c, n);
    if n in Neighbourhood(c) {
      assert (done + {c}) * Neighbourhood(n) == done * Neighbourhood(n) + {c};
    } else {
      assert (done + {c}) * Neighbourhood(n) == done * Neighbourhood(n);
    }
  }

  lemma AddToCounted(seen: set<Coord>, alive: set<Coord>, nb: Coord)
    requires nb !in seen
    ensures |alive * (seen + {nb})| == |alive * seen| + (if nb in alive then 1 else 0)
  {
    if nb in alive {
      assert alive * (seen + {nb}) == alive * seen + {nb};
    } else {
      assert alive * (seen + {nb}) == alive * seen;
    }
  }

  /** `n` is around `c` and the 3x3 loops around `c` reach it before the offset (`x`, `y`). */
  predicate VisitedBefore(c: Coord, n: Coord, x: int, y: int)
  {
    Adjacent(c, n) && (n.0 - c.0 < x || (n.0 - c.0 == x && n.1 - c.1 < y))
  }

  /** The transient dead map once the cells of `done` are processed. */
  ghost predicate DeadCounts(dead: map<Coord, CellValue>, cells: set<Coord>, done: set<Coord>)
  {
    && (forall n :: n in dead <==> n !in cells && done * Neighbourhood(n) != {})
    && (forall n :: n in dead ==> dead[n] == CellValue(false, |done * Neighbourhood(n)|))
  }

  /** The transient dead map once the cells of `done` are processed and `c` is processed up to the offset (`x`, `y`). */
  ghost predicate DeadCountsAround(dead: map<Coord, CellValue>, cells: set<Coord>, done: set<Coord>, c: Coord, x: int, y: int)
  {
    && (forall n :: n in dead <==> n !in cells && (done * Neighbourhood(n) != {} || VisitedBefore(c, n, x, y)))
    && (forall n :: n in dead ==>
          dead[n] == CellValue(false, |done * Neighbourhood(n)| + if VisitedBefore(c, n, x, y) then 1 else 0))
  }

  /** `counted` is `start` with the counter of `c` raised by `found`. */
  ghost predicate CountedUpTo(start: map<Coord, CellValue>, counted: map<Coord, CellValue>, c: Coord, found: nat)
  {
    && c in start
    && (forall k :: k in counted <==> k in start)
    && counted[c] == start[c].(neighbours := start[c].neighbours + found)
    && (forall k :: k in start && k != c ==> counted[k] == start[k])
  }

  lemma CountedUpToIsUpdate(start: map<Coord, CellValue>, counted: map<Coord, CellValue>, c: Coord, found: nat)
    requires CountedUpTo(start, counted, c, found)
    ensures counted == start[c := start[c].(neighbours := start[c].neighbours + found)]
  {
  }

  /** `seen` holds exactly the coordinates the 3x3 loops around `c` visit before the offset (`x`, `y`). */
  ghost predicate SeenUpTo(seen: set<Coord>, c: Coord, x: int, y: int)
  {
    forall v :: v in seen <==> VisitedBefore(c, v, x, y)
  }

  lemma VisitStep(c: Coord, n: Coord, x: int, y: int)
    requires -1 <= x <= 1 && -1 <= y <= 1 && !(x == 0 && y == 0)
    ensures VisitedBefore(c, n, x, y + 1) <==> VisitedBefore(c, n, x, y) || n == (c.0 + x, c.1 + y)
  {
    if n.0 - c.0 == x && n.1 - c.1 == y {
      assert n == (c.0 + x, c.1 + y);
    }
  }

  lemma SeenStep(seen: set<Coord>, c: Coord, x: int, y: int)
    requires -1 <= x <= 1 && -1 <= y <= 1 && !(x == 0 && y == 0)
    requires SeenUpTo(seen, c, x, y)
    ensures (c.0 + x, c.1 + y) !in seen && SeenUpTo(seen + {(c.0 + x, c.1 + y)}, c, x, y + 1)
  {
    forall n ensures VisitedBefore(c, n, x, y + 1) <==> VisitedBefore(c, n, x, y) || n == (c.0 + x, c.1 + y) {
      VisitStep(c, n, x, y);
    }
  }

  lemma CountedBump(start: map<Coord, CellValue>, counted: map<Coord, CellValue>, c: Coord, found: nat)
    requires CountedUpTo(start, counted, c, found)
    ensures CountedUpTo(start, counted[c := WithNeighbour(counted[c])], c, found + 1)
  {
  }

  /** Visiting an alive neighbour leaves the dead map as it is. */
  lemma DeadAfterAlive(dead: map<Coord, CellValue>, cells: set<Coord>, done: set<Coord>, c: Coord, x: int, y: int)
    requires -1 <= x <= 1 && -1 <= y <= 1 && !(x == 0 && y == 0)
    requires DeadCountsAround(dead, cells, done, c, x, y) && (c.0 + x, c.1 + y) in cells
    ensures DeadCountsAround(dead, cells, done, c, x, y + 1)
  {
    forall n ensures VisitedBefore(c, n, x, y + 1) <==> VisitedBefore(c, n, x, y) || n == (c.0 + x, c.1 + y) {
      VisitStep(c, n, x, y);
    }
  }

  /** Visiting a dead neighbour creates its entry if needed and bumps its counter. */
  lemma DeadAfterDead(dead: map<Coord, CellValue>, dead': map<Coord, CellValue>, cells: set<Coord>, done: set<Coord>,
                      c: Coord, x: int, y: int)
    requires -1 <= x <= 1 && -1 <= y <= 1 && !(x == 0 && y == 0)
    requires DeadCountsAround(dead, cells, done, c, x, y) && (c.0 + x, c.1 + y) !in cells
    requires var n := (c.0 + x, c.1 + y);
      && (forall k :: k in dead' <==> k in dead || k == n)
      && (forall k :: k in dead && k != n ==> dead'[k] == dead[k])
      && dead'[n] == CellValue(false, (if n in dead then dead[n].neighbours else 0) + 1)
    ensures DeadCountsAround(dead', cells, done, c, x, y + 1)
  {
    forall n ensures VisitedBefore(c, n, x, y + 1) <==> VisitedBefore(c, n, x, y) || n == (c.0 + x, c.1 + y) {
      VisitStep(c, n, x, y);
    }
  }

  /** One neighbour of `c` in the first pass: an alive one bumps `c`'s counter, a dead one is created if needed and bumped. */
  method VisitNeighbour(c: Coord, nearX: int, nearY: int, counted: map<Coord, CellValue>, dead: map<Coord, CellValue>,
                        ghost start: map<Coord, CellValue>, ghost done: set<Coord>, ghost seen: set<Coord>, ghost found: nat)
    returns (counted': map<Coord, CellValue>, dead': map<Coord, CellValue>, ghost seen': set<Coord>, ghost found': nat)
    requires -1 <= nearX <= 1 && -1 <= nearY <= 1 && !(nearX == 0 && nearY == 0)
    requires CountedUpTo(start, counted, c, found) && found == |start.Keys * seen| && SeenUpTo(seen, c, nearX, nearY)
    requires DeadCountsAround(dead, start.Keys, done, c, nearX, nearY)
    ensures CountedUpTo(start, counted', c, found') && found' == |start.Keys * seen'| && SeenUpTo(seen', c, nearX, nearY + 1)
    ensures DeadCountsAround(dead', start.Keys, done, c, nearX, nearY + 1)
  {
    var neighbour := (c.0 + nearX, c.1 + nearY);
    SeenStep(seen, c, nearX, nearY);
    AddToCounted(seen, start.Keys, neighbour);
    seen' := seen + {neighbour};
    counted', dead', found' := counted, dead, found;
    ghost var before := dead';
    if neighbour in counted' {
      CountedBump(start, counted', c, found');
      counted' := counted'[c := WithNeighbour(counted'[c])];
      found' := found' + 1;
      DeadAfterAlive(dead', start.Keys, done, c, nearX, nearY);
    } else {
      if neighbour !in dead' {
        dead' := dead'[neighbour := CellValue(false, 0)];
      }
      dead' := dead'[neighbour := WithNeighbour(dead'[neighbour])];
      DeadAfterDead(before, dead', start.Keys, done, c, nearX, nearY);
    }
  }

  lemma SkipCentre(seen: set<Coord>, dead: map<Coord, CellValue>, cells: set<Coord>, done: set<Coord>, c: Coord)
    requires SeenUpTo(seen, c, 0, 0) && DeadCountsAround(dead, cells, done, c, 0, 0)
    ensures SeenUpTo(seen, c, 0, 1) && DeadCountsAround(dead, cells, done, c, 0, 1)
  {
    assert forall n :: VisitedBefore(c, n, 0, 1) <==> VisitedBefore(c, n, 0, 0);
  }

  lemma RowDone(seen: set<Coord>, dead: map<Coord, CellValue>, cells: set<Coord>, done: set<Coord>, c: Coord, x: int)
    requires SeenUpTo(seen, c, x, 2) && DeadCountsAround(dead, cells, done, c, x, 2)
    ensures SeenUpTo(seen, c, x + 1, -1) && DeadCountsAround(dead, cells, done, c, x + 1, -1)
  {
    assert forall n :: VisitedBefore(c, n, x, 2) <==> VisitedBefore(c, n, x + 1, -1);
  }

  /** The inner loop of the first pass: one column offset `nearX` around `c`. */
  method CountColumn(c: Coord, nearX: int, counted: map<Coord, CellValue>, dead: map<Coord, CellValue>,
                  ghost start: map<Coord, CellValue>, ghost done: set<Coord>, ghost seen: set<Coord>, ghost found: nat)
    returns (counted': map<Coord, CellValue>, dead': map<Coord, CellValue>, ghost seen': set<Coord>, ghost found': nat)
    requires -1 <= nearX <= 1
    requires CountedUpTo(start, counted, c, found) && found == |start.Keys * seen| && SeenUpTo(seen, c, nearX, -1)
    requires DeadCountsAround(dead, start.Keys, done, c, nearX, -1)
    ensures CountedUpTo(start, counted', c, found') && found' == |start.Keys * seen'| && SeenUpTo(seen', c, nearX + 1, -1)
    ensures DeadCountsAround(dead', start.Keys, done, c, nearX + 1, -1)
  {
    counted', dead', seen', found' := counted, dead, seen, found;
    for nearY := -1 to 2
      invariant CountedUpTo(start, counted', c, found') && found' == |start.Keys * seen'| && SeenUpTo(seen', c, nearX, nearY)
      invariant DeadCountsAround(dead', start.Keys, done, c, nearX, nearY)
    {
      if nearX == 0 && nearY == 0 {
        // the cell itself is skipped
        SkipCentre(seen', dead', start.Keys, done, c);
        continue;
      }
      counted', dead', seen', found' := VisitNeighbour(c, nearX, nearY, counted', dead', start, done, seen', found');
    }
    RowDone(seen', dead', start.Keys, done, c, nearX);
  }

  /** The first pass for one alive cell `c`: the 3x3 loops around it, skipping `c` itself. */
  method CountAround(c: Coord, counted: map<Coord, CellValue>, dead: map<Coord, CellValue>, ghost done: set<Coord>)
    returns (counted': map<Coord, CellValue>, dead': map<Coord, CellValue>)
    requires c in counted && c !in done
    requires DeadCounts(dead, counted.Keys, done)
    ensures counted' == counted[c := counted[c].(neighbours := counted[c].neighbours + LiveNeighbours(counted.Keys, c))]
    ensures DeadCountsAround(dead', counted.Keys, done, c, 2, -1)
  {
    counted', dead' := counted, dead;
    ghost var seen: set<Coord> := {};
    ghost var found: nat := 0;
    for nearX := -1 to 2
      invariant CountedUpTo(counted, counted', c, found) && found == |counted.Keys * seen| && SeenUpTo(seen, c, nearX, -1)
      invariant DeadCountsAround(dead', counted.Keys, done, c, nearX, -1)
    {
      counted', dead', seen, found := CountColumn(c, nearX, counted', dead', counted, done, seen, found);
    }
    AroundDone(counted, counted', c, seen, found);
  }

  /** The full 3x3 loops around `c` visit exactly its neighbourhood. */
  lemma SeenAll(seen: set<Coord>, c: Coord)
    requires SeenUpTo(seen, c, 2, -1)
    ensures seen == Neighbourhood(c)
  {
    forall v ensures v in seen <==> v in Neighbourhood(c) {
      NeighbourhoodIsAdjacent(c, v);
    }
  }

  lemma AroundDone(start: map<Coord, CellValue>, counted: map<Coord, CellValue>, c: Coord, seen: set<Coord>, found: nat)
    requires CountedUpTo(start, counted, c, found) && found == |start.Keys * seen| && SeenUpTo(seen, c, 2, -1)
    ensures counted == start[c := start[c].(neighbours := start[c].neighbours + LiveNeighbours(start.Keys, c))]
  {
    SeenAll(seen, c);
    CountedUpToIsUpdate(start, counted, c, found);
  }

  /** Once every neighbour of `c` is visited, `c` joins the processed cells. */
  lemma DeadCountsNext(dead: map<Coord, CellValue>, cells: set<Coord>, done: set<Coord>, c: Coord)
    requires c !in done
    requires DeadCountsAround(dead, cells, done, c, 2, -1)
    ensures DeadCounts(dead, cells, done + {c})
  {
    forall n
      ensures |(done + {c}) * Neighbourhood(n)| == |done * Neighbourhood(n)| + (if VisitedBefore(c, n, 2, -1) then 1 else 0)
      ensures VisitedBefore(c, n, 2, -1) <==> c in Neighbourhood(n)
    {
      AddToIntersection(done, c, n);
      NeighbourhoodSymmetric(c, n);
      NeighbourhoodIsAdjacent(c, n);
    }
  }

  /** The alive cells of `done` hold their neighbour counts, those of `todo` are untouched. */
  ghost predicate CountedSoFar(alive: map<Coord, CellValue>, counted: map<Coord, CellValue>, done: set<Coord>, todo: set<Coord>)
  {
    && counted.Keys == alive.Keys
    && (forall c :: c in done && c in alive ==>
          counted[c] == alive[c].(neighbours := alive[c].neighbours + LiveNeighbours(alive.Keys, c)))
    && (forall c :: c in todo && c in alive ==> counted[c] == alive[c])
  }

  lemma CountedNext(alive: map<Coord, CellValue>, before: map<Coord, CellValue>, after: map<Coord, CellValue>,
                    done: set<Coord>, todo: set<Coord>, c: Coord)
    requires CountedSoFar(alive, before, done, todo) && c in todo && c !in done && c in alive
    requires after == before[c := before[c].(neighbours := before[c].neighbours + LiveNeighbours(before.Keys, c))]
    ensures CountedSoFar(alive, after, done + {c}, todo - {c})
  {
  }

  /**
    First pass: every alive cell counts the alive cells around it, and every
    dead cell around an alive cell is created in `dead` and counts the alive
    cells around it.
   */
  method CountNeighbours(alive: map<Coord, CellValue>) returns (counted: map<Coord, CellValue>, dead: map<Coord, CellValue>)
    ensures counted.Keys == alive.Keys
    ensures forall c :: c in counted ==>
      counted[c] == alive[c].(neighbours := alive[c].neighbours + LiveNeighbours(alive.Keys, c))
    ensures forall n :: n in dead <==> n !in alive && LiveNeighbours(alive.Keys, n) > 0
    ensures forall n :: n in dead ==> dead[n] == CellValue(false, LiveNeighbours(alive.Keys, n))
  {
    counted, dead := alive, map[];
    var todo := alive.Keys;
    ghost var done: set<Coord> := {};
    while todo != {}
      invariant FirstPassSoFar(alive, counted, dead, done, todo)
      decreases todo
    {
      var c :| c in todo;
      ghost var before, deadBefore := counted, dead;
      counted, dead := CountAround(c, counted, dead, done);
      FirstPassStep(alive, before, counted, deadBefore, dead, done, todo, c);
      todo := todo - {c};
      done := done + {c};
    }
    FirstPassDone(alive, counted, dead, done);
  }

  /** Invariant of the first pass's loop over the alive cells. */
  ghost predicate FirstPassSoFar(alive: map<Coord, CellValue>, counted: map<Coord, CellValue>, dead: map<Coord, CellValue>,
                                 done: set<Coord>, todo: set<Coord>)
  {
    todo + done == alive.Keys && todo !! done && CountedSoFar(alive, counted, done, todo) && DeadCounts(dead, alive.Keys, done)
  }

  lemma FirstPassStep(alive: map<Coord, CellValue>, before: map<Coord, CellValue>, after: map<Coord, CellValue>,
                      deadBefore: map<Coord, CellValue>, deadAfter: map<Coord, CellValue>,
                      done: set<Coord>, todo: set<Coord>, c: Coord)
    requires FirstPassSoFar(alive, before, deadBefore, done, todo) && c in todo
    requires after == before[c := before[c].(neighbours := before[c].neighbours + LiveNeighbours(before.Keys, c))]
    requires DeadCountsAround(deadAfter, before.Keys, done, c, 2, -1)
    ensures FirstPassSoFar(alive, after, deadAfter, done + {c}, todo - {c})
  {
    CountedNext(alive, before, after, done, todo, c);
    DeadCountsNext(deadAfter, alive.Keys, done, c);
  }

  lemma FirstPassDone(alive: map<Coord, CellValue>, counted: map<Coord, CellValue>, dead: map<Coord, CellValue>, done: set<Coord>)
    requires FirstPassSoFar(alive, counted, dead, done, {})
    ensures counted.Keys == alive.Keys
    ensures forall c :: c in counted ==>
      counted[c] == alive[c].(neighbours := alive[c].neighbours + LiveNeighbours(alive.Keys, c))
    ensures forall n :: n in dead <==> n !in alive && LiveNeighbours(alive.Keys, n) > 0
    ensures forall n :: n in dead ==> dead[n] == CellValue(false, LiveNeighbours(alive.Keys, n))
  {
  }

  /**
    Second pass: step every alive cell, collect the ones that died into a list
    of keys, then remove those keys.
   */
  method StepAlive(counted: map<Coord, CellValue>) returns (alive: map<Coord, CellValue>)
    ensures forall c :: c in alive <==> c in counted && Stepped(counted[c]).state
    ensures forall c :: c in alive ==> alive[c] == Stepped(counted[c])
  {
    alive := counted;
    var removeKeys: seq<Coord> := [];
    var todo := counted.Keys;
    while todo != {}
      invariant todo <= counted.Keys
      invariant forall c :: c in alive <==> c in counted
      invariant forall c :: c in counted && c !in todo ==> alive[c] == Stepped(counted[c])
      invariant forall c :: c in todo ==> alive[c] == counted[c]
      invariant forall c :: c in removeKeys <==> c in counted && c !in todo && !Stepped(counted[c]).state
      decreases todo
    {
      var c :| c in todo;
      alive := alive[c := Stepped(alive[c])];
      if !alive[c].IsAlive() {
        removeKeys := removeKeys + [c];
      }
      todo := todo - {c};
    }
    for i := 0 to |removeKeys|
      invariant forall c :: c in alive <==> c in counted && c !in removeKeys[..i]
      invariant forall c :: c in alive ==> alive[c] == Stepped(counted[c])
    {
      assert removeKeys[..i + 1] == removeKeys[..i] + [removeKeys[i]];
      alive := alive - {removeKeys[i]};
    }
    assert removeKeys[..|removeKeys|] == removeKeys;
  }

  /** Third pass: step every dead cell and move the ones that were born into the alive map. */
  method PromoteBirths(alive: map<Coord, CellValue>, dead: map<Coord, CellValue>) returns (next: map<Coord, CellValue>)
    ensures forall c :: c in next <==> c in alive || (c in dead && Stepped(dead[c]).state)
    ensures forall c :: c in next ==>
      next[c] == if c in dead && Stepped(dead[c]).state then Stepped(dead[c]) else alive[c]
  {
    next := alive;
    var stepped := dead;
    var todo := dead.Keys;
    while todo != {}
      invariant todo <= dead.Keys
      invariant forall c :: c in stepped <==> c in dead
      invariant forall c :: c in dead ==> stepped[c] == if c in todo then dead[c] else Stepped(dead[c])
      invariant forall c :: c in next <==> c in alive || (c in dead && c !in todo && Stepped(dead[c]).state)
      invariant forall c :: c in next ==>
        next[c] == if c in dead && c !in todo && Stepped(dead[c]).state then Stepped(dead[c]) else alive[c]
      decreases todo
    {
      var c :| c in todo;
      stepped := stepped[c := Stepped(stepped[c])];
      if stepped[c].IsAlive() {
        next := next[c := stepped[c]];
      }
      todo := todo - {c};
    }
  }

  /** The three passes, seen at one coordinate `x`, agree with the rule there. */
  lemma PassesAt(alive: map<Coord, CellValue>, counted: map<Coord, CellValue>, dead: map<Coord, CellValue>,
                 survivors: map<Coord, CellValue>, next: map<Coord, CellValue>, x: Coord)
    requires x in alive ==> alive[x] == Live
    requires x in counted <==> x in alive
    requires x in counted ==> counted[x] == alive[x].(neighbours := alive[x].neighbours + LiveNeighbours(alive.Keys, x))
    requires x in dead <==> x !in alive && LiveNeighbours(alive.Keys, x) > 0
    requires x in dead ==> dead[x] == CellValue(false, LiveNeighbours(alive.Keys, x))
    requires x in survivors <==> x in counted && Stepped(counted[x]).state
    requires x in survivors ==> survivors[x] == Stepped(counted[x])
    requires x in next <==> x in survivors || (x in dead && Stepped(dead[x]).state)
    requires x in next ==>
      next[x] == if x in dead && Stepped(dead[x]).state then Stepped(dead[x]) else survivors[x]
    ensures x in next <==> BecomesAlive(alive.Keys, x)
    ensures x in next ==> next[x] == Live
  {
  }

  /** A map whose keys are exactly the coordinates the rule makes alive has `NextGeneration` as its key set. */
  lemma KeysAreNextGeneration(alive: set<Coord>, next: map<Coord, CellValue>)
    requires forall x :: x in next <==> BecomesAlive(alive, x)
    ensures next.Keys == NextGeneration(alive)
  {
    forall x ensures x in next <==> x in NextGeneration(alive) {
      NextGenerationIsLife(alive, x);
    }
  }

  /** One generation of the sparse map: the three passes of `step_up` agree with the rule at every coordinate. */
  method Advance(alive: map<Coord, CellValue>) returns (next: map<Coord, CellValue>)
    requires AllLive(alive)
    ensures forall x :: x in next <==> BecomesAlive(alive.Keys, x)
    ensures next.Keys == NextGeneration(alive.Keys)
    ensures AllLive(next)
  {
    var counted, dead := CountNeighbours(alive);
    var survivors := StepAlive(counted);
    next := PromoteBirths(survivors, dead);
    forall x
      ensures x in next <==> BecomesAlive(alive.Keys, x)
      ensures x in next ==> next[x] == Live
    {
      PassesAt(alive, counted, dead, survivors, next, x);
    }
    KeysAreNextGeneration(alive.Keys, next);
  }
}
