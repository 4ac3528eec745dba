/** A player's fleet, its live-ship count, and the cells of its territory. */
module Players {
  import opened Coordinates
  import opened Ships

  /** The cells of column x, rows 0 to n - 1 in ascending order. */
  function Column(x: int, n: int): seq<Coordinate> {
    if n <= 0 then [] else seq(n, y => Coordinate(x, y))
  }

  /** The columns x0 .. x1 - 1 one after the other, each listed by Column. */
  function ColumnsUpTo(x0: int, x1: int, n: int): seq<Coordinate>
    decreases x1 - x0
  {
    if x1 <= x0 then [] else ColumnsUpTo(x0, x1 - 1, n) + Column(x1 - 1, n)
  }

  /**
   * The territory's cells in the order the source lists them: column by column from
   * minCol to maxCol, and within a column row by row from 0 to n - 1.
   */
  function TerritoryCells(b: Boundary, n: int): seq<Coordinate> {
    ColumnsUpTo(b.minCol, b.maxCol + 1, n)
  }

  /** The listed columns hold exactly the cells with x in [x0, x1) and y in [0, n). */
  lemma {:induction false} ColumnsUpToMembers(x0: int, x1: int, n: int, c: Coordinate)
    ensures c in ColumnsUpTo(x0, x1, n) <==> x0 <= c.x < x1 && 0 <= c.y < n
    decreases x1 - x0
  {
    if x0 < x1 {
      ColumnsUpToMembers(x0, x1 - 1, n, c);
      if c.x == x1 - 1 && 0 <= c.y < n {
        assert Column(x1 - 1, n)[c.y] == c;
      }
    }
  }

  /** The listed columns hold n cells each. */
  lemma {:induction false} ColumnsUpToLength(x0: int, x1: int, n: int)
    ensures |ColumnsUpTo(x0, x1, n)| == if x0 < x1 && 0 < n then (x1 - x0) * n else 0
    decreases x1 - x0
  {
    if x0 < x1 {
      ColumnsUpToLength(x0, x1 - 1, n);
      MulSucc(x1 - 1 - x0, n);
    }
  }

  /** The listed columns are strictly ascending in column, then row. */
  lemma {:induction false} ColumnsUpToOrdered(x0: int, x1: int, n: int, i: int, j: int)
    requires 0 <= i < j < |ColumnsUpTo(x0, x1, n)|
    ensures var cells := ColumnsUpTo(x0, x1, n);
      cells[i].x < cells[j].x || (cells[i].x == cells[j].x && cells[i].y < cells[j].y)
    decreases x1 - x0
  {
    var front := ColumnsUpTo(x0, x1 - 1, n);
    var cells := ColumnsUpTo(x0, x1, n);
    if j < |front| {
      ColumnsUpToOrdered(x0, x1 - 1, n, i, j);
    } else if i < |front| {
      assert cells[i] in front;
      ColumnsUpToMembers(x0, x1 - 1, n, cells[i]);
    }
  }

  /** The territory list holds exactly the cells with x in [minCol, maxCol] and y in [0, n). */
  lemma TerritoryCellsMembers(b: Boundary, n: int, c: Coordinate)
    ensures c in TerritoryCells(b, n) <==> InColumns(c, b) && 0 <= c.y < n
  {
    ColumnsUpToMembers(b.minCol, b.maxCol + 1, n, c);
  }

  /**
   * The territory list has one entry per column and row and is strictly ascending in
   * column, then row, so no cell appears twice.
   */
  lemma TerritoryCellsOrdered(b: Boundary, n: int)
    ensures |TerritoryCells(b, n)| == if b.minCol <= b.maxCol && 0 < n then (b.maxCol - b.minCol + 1) * n else 0
    ensures var cells := TerritoryCells(b, n);
      forall i, j :: 0 <= i < j < |cells| ==>
        (cells[i].x < cells[j].x || (cells[i].x == cells[j].x && cells[i].y < cells[j].y)) && cells[i] != cells[j]
  {
    ColumnsUpToLength(b.minCol, b.maxCol + 1, n);
    forall i, j | 0 <= i < j < |TerritoryCells(b, n)|
      ensures var cells := TerritoryCells(b, n);
        cells[i].x < cells[j].x || (cells[i].x == cells[j].x && cells[i].y < cells[j].y)
    {
      ColumnsUpToOrdered(b.minCol, b.maxCol + 1, n, i, j);
    }
  }

  /** How many entries of a status map (ship id -> destroyed flag) are still live. */
  function LiveCount(status: map<string, bool>): nat {
    |set k | k in status && !status[k]|
  }

  /** The live count never exceeds the fleet size, and is zero exactly when every ship is destroyed. */
  lemma LiveCountRange(status: map<string, bool>)
    ensures LiveCount(status) <= |status|
    ensures LiveCount(status) == 0 <==> forall k :: k in status ==> status[k]
  {
    var live := set k | k in status && !status[k];
    SubsetSize(live, status.Keys);
    if LiveCount(status) == 0 {
      assert live == {};
      forall k | k in status ensures status[k] {
        assert k !in live;
      }
    }
  }

  /**
   * Destroying the ship under id k lowers the live count by one when it was live and
   * leaves it unchanged when it was already destroyed.
   */
  lemma LiveCountDestroy(status: map<string, bool>, k: string)
    requires k in status
    ensures LiveCount(status[k := true]) == if status[k] then LiveCount(status) else LiveCount(status) - 1
  {
    var updated := status[k := true];
    var before := set j | j in status && !status[j];
    var after := set j | j in updated && !updated[j];
    if status[k] {
      assert after == before;
    } else {
      assert after == before - {k};
    }
  }

  /**
   * A player: name, territory, the battlefield size, and the fleet keyed by ship id.
   * firedShots is created empty and never written, as in the source.
   */
  class Player {
    const name: PlayerId
    const boundary: Boundary
    const battlefieldSize: int
    var fleet: map<string, Ship>
    var firedShots: set<Coordinate>

    /** Every fleet entry is stored under its ship's id and belongs to this player. */
    ghost predicate Keyed()
      reads this
    {
      forall k :: k in fleet ==> fleet[k].id == k && fleet[k].owner == name
    }

    /** A new player has an empty fleet and no recorded shots. */
    constructor (name: PlayerId, boundary: Boundary, battlefieldSize: int)
      ensures this.name == name && this.boundary == boundary && this.battlefieldSize == battlefieldSize
      ensures fleet == map[] && firedShots == {}
      ensures Keyed()
    {
      this.name := name;
      this.boundary := boundary;
      this.battlefieldSize := battlefieldSize;
      fleet := map[];
      firedShots := {};
    }

    /** Stores the ship under its id, replacing any earlier ship with that id. */
    method AddShipToFleet(ship: Ship)
      modifies this
      ensures fleet == old(fleet)[ship.id := ship]
      ensures firedShots == old(firedShots)
    {
      fleet := fleet[ship.id := ship];
    }

    /** The destroyed flag of each fleet ship, by id. */
    function Status(): (st: map<string, bool>)
      reads this, fleet.Values
      ensures st.Keys == fleet.Keys
      ensures forall k :: k in st ==> st[k] == fleet[k].destroyed
    {
      map k | k in fleet :: fleet[k].destroyed
    }

    /** The number of fleet ships not yet destroyed: at most the fleet size, and zero exactly when every ship is destroyed. */
    function RemainingShips(): (n: nat)
      reads this, fleet.Values
      ensures n <= |fleet|
      ensures n == 0 <==> forall k :: k in fleet ==> fleet[k].destroyed
    {
      var st := Status();
      LiveCountRange(st);
      assert |st| == |fleet| by {
        assert st.Keys == fleet.Keys;
      }
      LiveCount(st)
    }

    /** Lists the territory's cells with the source's nested loops: columns outside, rows inside. */
    method GetAllTerritoryCoords() returns (coords: seq<Coordinate>)
      ensures coords == TerritoryCells(boundary, battlefieldSize)
    {
      var n := battlefieldSize;
      coords := [];
      var x := boundary.minCol;
      while x <= boundary.maxCol
        invariant boundary.minCol <= x && (x == boundary.minCol || x <= boundary.maxCol + 1)
        invariant coords == ColumnsUpTo(boundary.minCol, x, n)
      {
        var y := 0;
        while y < n
          invariant 0 <= y && (y == 0 || y <= n)
          invariant coords == ColumnsUpTo(boundary.minCol, x, n) + Column(x, n)[..y]
        {
          assert Column(x, n)[..y + 1] == Column(x, n)[..y] + [Coordinate(x, y)];
          coords := coords + [Coordinate(x, y)];
          y := y + 1;
        }
        assert Column(x, n)[..y] == Column(x, n);
        x := x + 1;
      }
    }
  }

  /** Every ship of p's fleet has been destroyed. */
  ghost predicate Defeated(p: Player)
    reads p, p.fleet.Values
  {
    forall k :: k in p.fleet ==> p.fleet[k].destroyed
  }
}
