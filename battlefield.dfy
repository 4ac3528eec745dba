/** The N x N occupancy grid and all-or-nothing ship placement. */
module Battlefields {
  import opened Wrappers
  import opened Coordinates
  import opened Ships

  /** The rule a footprint cell breaks; Overlap names the occupied cell. */
  datatype PlacementError = OutOfBounds | OutOfTerritory | Overlap(at: Coordinate)

  /**
   * The battlefield: grid[y, x] holds the ship covering cell (x, y), or null.
   * `placed` is the set of ships written onto the grid so far.
   */
  class Battlefield {
    const size: int
    const grid: array2<Ship?>
    ghost var placed: set<Ship>

    /**
     * Every occupied cell belongs to a placed ship whose footprint contains it, and every
     * cell of every placed ship lies on the grid and holds that ship. Since a cell holds a
     * single reference, no cell belongs to two ships.
     */
    ghost predicate Valid()
      reads this, grid
    {
      && grid.Length0 == size && grid.Length1 == size
      && (forall y, x :: 0 <= y < size && 0 <= x < size && grid[y, x] != null ==>
            grid[y, x] in placed && Coordinate(x, y) in grid[y, x].cells)
      && (forall s, c :: s in placed && c in s.cells ==> InGrid(c, size) && grid[c.y, c.x] == s)
    }

    /** A new battlefield has all of its n x n cells empty. */
    constructor (n: int)
      requires 0 <= n
      ensures Valid() && fresh(grid)
      ensures size == n && placed == {}
      ensures forall y, x :: 0 <= y < n && 0 <= x < n ==> grid[y, x] == null
    {
      size := n;
      grid := new Ship?[n, n];
      placed := {};
      new;
      forall y, x | 0 <= y < n && 0 <= x < n {
        grid[y, x] := null;
      }
    }

    /** The first rule cell c breaks, checked in the source's order: bounds, territory, overlap. */
    function Violation(c: Coordinate, b: Boundary): Option<PlacementError>
      reads this, grid
      requires Valid()
    {
      if !InGrid(c, size) then Some(OutOfBounds)
      else if !InColumns(c, b) then Some(OutOfTerritory)
      else if grid[c.y, c.x] != null then Some(Overlap(c))
      else None
    }

    /** Every cell of the footprint is on the grid, inside the boundary's columns and empty. */
    ghost predicate Fits(cells: set<Coordinate>, b: Boundary)
      reads this, grid
      requires Valid()
    {
      forall c :: c in cells ==> InGrid(c, size) && InColumns(c, b) && grid[c.y, c.x] == null
    }

    /**
     * Places a ship: a first pass checks every footprint cell, a second pass writes them
     * all. On failure nothing is written and the error is the first rule broken by some
     * cell; which cell is reported depends on the set's iteration order.
     */
    method PlaceShip(ship: Ship, b: Boundary) returns (r: Outcome<PlacementError>)
      requires Valid()
      modifies this, grid
      ensures Valid()
      ensures r.Pass? <==> old(Fits(ship.cells, b))
      ensures r.Fail? ==> exists c :: c in ship.cells && old(Violation(c, b)) == Some(r.error)
      ensures r.Fail? ==> unchanged(this, grid)
      ensures r.Pass? ==> placed == old(placed) + {ship}
      ensures r.Pass? ==> forall y, x :: 0 <= y < size && 0 <= x < size ==>
                grid[y, x] == if Coordinate(x, y) in ship.cells then ship else old(grid[y, x])
    {
      var todo := ship.cells;
      while todo != {}
        invariant todo <= ship.cells
        invariant forall c :: c in ship.cells - todo ==> Violation(c, b) == None
        decreases |todo|
      {
        var c :| c in todo;
        if !(0 <= c.x < size && 0 <= c.y < size) {
          assert Violation(c, b) == Some(OutOfBounds);
          return Fail(OutOfBounds);
        }
        if !(b.minCol <= c.x <= b.maxCol) {
          assert Violation(c, b) == Some(OutOfTerritory);
          return Fail(OutOfTerritory);
        }
        if grid[c.y, c.x] != null {
          assert Violation(c, b) == Some(Overlap(c));
          return Fail(Overlap(c));
        }
        todo := todo - {c};
      }
      forall c | c in ship.cells ensures Violation(c, b) == None {
        assert c in ship.cells - todo;
      }

      todo := ship.cells;
      while todo != {}
        invariant todo <= ship.cells && placed == old(placed)
        invariant forall c :: c in ship.cells ==> InGrid(c, size) && old(grid[c.y, c.x]) == null
        invariant forall y, x :: 0 <= y < size && 0 <= x < size ==>
                    grid[y, x] == if Coordinate(x, y) in ship.cells - todo then ship else old(grid[y, x])
        decreases |todo|
      {
        var c :| c in todo;
        grid[c.y, c.x] := ship;
        todo := todo - {c};
      }
      placed := placed + {ship};
      r := Pass;
      forall s, c | s in placed && c in s.cells ensures InGrid(c, size) && grid[c.y, c.x] == s {
        if s != ship {
          assert old(grid[c.y, c.x]) == s;
        }
      }
    }

    /**
     * The ship covering cell (x, y); null when no placed ship covers it, which includes
     * every cell off the grid.
     */
    function ShipAt(x: int, y: int): (r: Ship?)
      reads this, grid
      requires Valid()
      ensures r != null ==> r in placed && Coordinate(x, y) in r.cells
      ensures r == null <==> forall s :: s in placed ==> Coordinate(x, y) !in s.cells
    {
      if 0 <= x < size && 0 <= y < size then grid[y, x] else null
    }
  }

  /** No cell belongs to two placed ships. */
  lemma PlacedFootprintsDisjoint(bf: Battlefield, s1: Ship, s2: Ship)
    requires bf.Valid() && s1 in bf.placed && s2 in bf.placed && s1 != s2
    ensures s1.cells !! s2.cells
  {
    forall c | c in s1.cells ensures c !in s2.cells {
      assert bf.grid[c.y, c.x] == s1;
    }
  }
}
