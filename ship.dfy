/** Square ships: the footprint computed from centre and side, the destroyed flag, the label. */
module Ships {
  import opened Coordinates

  /**
   * The cells a ship of side `size` centred at `center` covers: columns
   * [x - size/2, x + size/2) and rows [y - size/2, y + size/2). Only even sizes reach
   * this function, for which Dafny's division agrees with Java's.
   */
  function Footprint(center: Coordinate, size: int): set<Coordinate> {
    Rect(center.x - size / 2, center.x + size / 2, center.y - size / 2, center.y + size / 2)
  }

  /** A ship of positive even side covers side * side cells; a side of zero or less covers none. */
  lemma FootprintSize(center: Coordinate, size: int)
    requires size % 2 == 0
    ensures size > 0 ==> |Footprint(center, size)| == size * size
    ensures size <= 0 ==> Footprint(center, size) == {}
  {
    var h := size / 2;
    RectSize(center.x - h, center.x + h, center.y - h, center.y + h);
    assert h + h == size;
  }

  /** The documented example: side 2 centred at (1, 5) covers (0, 4), (1, 4), (0, 5) and (1, 5). */
  lemma FootprintExample()
    ensures Footprint(Coordinate(1, 5), 2)
         == {Coordinate(0, 4), Coordinate(1, 4), Coordinate(0, 5), Coordinate(1, 5)}
  {
    var f := Footprint(Coordinate(1, 5), 2);
    assert Coordinate(0, 4) in f && Coordinate(1, 4) in f && Coordinate(0, 5) in f && Coordinate(1, 5) in f;
  }

  /** Two ships of the same side placed side by side share an edge but no cell. */
  lemma AdjacentFootprintsDisjoint(center: Coordinate, size: int)
    requires size % 2 == 0
    ensures Footprint(center, size) !! Footprint(Coordinate(center.x + size, center.y), size)
  {
  }

  /**
   * Computes the footprint with the source's two nested loops over columns and rows,
   * each running from centre - size/2 up to, but excluding, centre + size/2.
   */
  method CalculateOccupiedCells(center: Coordinate, size: int) returns (cells: set<Coordinate>)
    ensures cells == Footprint(center, size)
  {
    cells := {};
    var halfSize := size / 2;
    var startX, startY := center.x - halfSize, center.y - halfSize;
    var endX, endY := center.x + halfSize, center.y + halfSize;
    var i := startX;
    while i < endX
      invariant startX <= i && (i == startX || i <= endX)
      invariant cells == Rect(startX, i, startY, endY)
    {
      RectAddColumn(startX, i, startY, endY);
      var j := startY;
      while j < endY
        invariant startY <= j && (j == startY || j <= endY)
        invariant cells == Rect(startX, i, startY, endY) + Rect(i, i + 1, startY, j)
      {
        ColumnAddCell(i, startY, j);
        cells := cells + {Coordinate(i, j)};
        j := j + 1;
      }
      assert Rect(i, i + 1, startY, j) == Rect(i, i + 1, startY, endY);
      i := i + 1;
    }
    assert Rect(startX, i, startY, endY) == Rect(startX, endX, startY, endY);
  }

  /** The owner's name as the game prints it. */
  function OwnerName(p: PlayerId): string {
    if p == A then "A" else "B"
  }

  /** The text form of a ship: owner name, a dash, the ship id (as in "A-SH1"). */
  function Label(owner: PlayerId, id: string): (s: string)
    ensures |s| == |id| + 2 && s[..1] == OwnerName(owner) && s[1] == '-' && s[2..] == id
  {
    OwnerName(owner) + "-" + id
  }

  /** A label names exactly one owner and one id. */
  lemma LabelInjective(o1: PlayerId, id1: string, o2: PlayerId, id2: string)
    requires Label(o1, id1) == Label(o2, id2)
    ensures o1 == o2 && id1 == id2
  {
    var s1, s2 := Label(o1, id1), Label(o2, id2);
    assert s1[0] == s2[0];
    assert id1 == s1[2..] == s2[2..] == id2;
  }

  /**
   * A square ship. Its id, side, centre, owner and footprint are fixed when it is
   * built; only the destroyed flag changes, and only from false to true.
   */
  class Ship {
    const id: string
    const size: int
    const center: Coordinate
    const owner: PlayerId
    const cells: set<Coordinate>
    var destroyed: bool

    /** Builds a live ship; the source throws for an odd side, see Create. */
    constructor (id: string, size: int, x: int, y: int, owner: PlayerId)
      requires size % 2 == 0
      ensures this.id == id && this.size == size && center == Coordinate(x, y) && this.owner == owner
      ensures cells == Footprint(Coordinate(x, y), size)
      ensures !destroyed
    {
      this.id := id;
      this.size := size;
      this.center := Coordinate(x, y);
      this.owner := owner;
      this.destroyed := false;
      var c := CalculateOccupiedCells(Coordinate(x, y), size);
      this.cells := c;
    }

    /** The constructor with its size check: null stands for the exception raised on an odd side. */
    static method Create(id: string, size: int, x: int, y: int, owner: PlayerId) returns (s: Ship?)
      ensures s == null <==> size % 2 != 0
      ensures s != null ==> fresh(s) && s.id == id && s.size == size && s.center == Coordinate(x, y)
      ensures s != null ==> s.owner == owner && s.cells == Footprint(Coordinate(x, y), size) && !s.destroyed
    {
      if size % 2 != 0 {
        return null;
      }
      s := new Ship(id, size, x, y, owner);
    }

    /** Marks the ship destroyed; calling it again changes nothing. */
    method Destroy()
      modifies this
      ensures destroyed
    {
      destroyed := true;
    }

    /** The text form of this ship: its owner's letter and a dash, then its id. */
    function ToString(): (s: string)
      ensures |s| == |id| + 2 && s[..2] == OwnerName(owner) + "-" && s[2..] == id
    {
      Label(owner, id)
    }
  }
}
