/** Grid cells, column ranges and players, with the counting facts about rectangles of cells. */
module Coordinates {

  /** One cell of the battlefield: column x, row y. */
  datatype Coordinate = Coordinate(x: int, y: int)

  /** A territory: the inclusive column range [minCol, maxCol]. */
  datatype Boundary = Boundary(minCol: int, maxCol: int)

  /** The two players, named "A" and "B" in the game. */
  datatype PlayerId = A | B

  /** The opponent of a player. */
  function Other(p: PlayerId): (q: PlayerId)
    ensures q != p
  {
    if p == A then B else A
  }

  /** The cell lies on an n x n battlefield. */
  predicate InGrid(c: Coordinate, n: int) {
    0 <= c.x < n && 0 <= c.y < n
  }

  /** The cell lies in the column range of a boundary. */
  predicate InColumns(c: Coordinate, b: Boundary) {
    b.minCol <= c.x <= b.maxCol
  }

  /** The cells of the half-open rectangle [x0, x1) x [y0, y1). */
  function Rect(x0: int, x1: int, y0: int, y1: int): set<Coordinate> {
    set x, y | x0 <= x < x1 && y0 <= y < y1 :: Coordinate(x, y)
  }

  /** Widening a rectangle by one column adds exactly that column. */
  lemma RectAddColumn(x0: int, x: int, y0: int, y1: int)
    requires x0 <= x
    ensures Rect(x0, x + 1, y0, y1) == Rect(x0, x, y0, y1) + Rect(x, x + 1, y0, y1)
    ensures Rect(x0, x, y0, y1) !! Rect(x, x + 1, y0, y1)
  {
  }

  /** Lengthening a one-column rectangle by one row adds exactly that cell. */
  lemma ColumnAddCell(x: int, y0: int, y: int)
    requires y0 <= y
    ensures Rect(x, x + 1, y0, y + 1) == Rect(x, x + 1, y0, y) + {Coordinate(x, y)}
    ensures Coordinate(x, y) !in Rect(x, x + 1, y0, y)
  {
  }

  /** A single column of the rectangle holds one cell per row. */
  lemma {:induction false} ColumnSize(x: int, y0: int, y1: int)
    ensures |Rect(x, x + 1, y0, y1)| == if y0 < y1 then y1 - y0 else 0
    decreases y1 - y0
  {
    if y0 < y1 {
      ColumnAddCell(x, y0, y1 - 1);
      ColumnSize(x, y0, y1 - 1);
    } else {
      assert Rect(x, x + 1, y0, y1) == {};
    }
  }

  /** A rectangle of w columns and h rows holds w * h cells, and none when it is degenerate. */
  lemma {:induction false} RectSize(x0: int, x1: int, y0: int, y1: int)
    ensures |Rect(x0, x1, y0, y1)| == if x0 < x1 && y0 < y1 then (x1 - x0) * (y1 - y0) else 0
    decreases x1 - x0
  {
    if x0 < x1 {
      RectAddColumn(x0, x1 - 1, y0, y1);
      RectSize(x0, x1 - 1, y0, y1);
      ColumnSize(x1 - 1, y0, y1);
      MulSucc(x1 - 1 - x0, y1 - y0);
    } else {
      assert Rect(x0, x1, y0, y1) == {};
    }
  }

  /** (w + 1) * h == w * h + h, the one step of distributivity the size proof needs. */
  lemma MulSucc(w: int, h: int)
    ensures (w + 1) * h == w * h + h
  {
  }

  /** Any set of cells that all lie on an n x n battlefield has at most n * n elements. */
  lemma GridBound(cells: set<Coordinate>, n: int)
    requires forall c :: c in cells ==> InGrid(c, n)
    ensures |cells| <= n * n
  {
    assert cells <= Rect(0, n, 0, n) by {
      forall c | c in cells ensures c in Rect(0, n, 0, n) {
        assert InGrid(c, n);
      }
    }
    RectSize(0, n, 0, n);
    SubsetSize(cells, Rect(0, n, 0, n));
    if n <= 0 {
      assert n * n >= 0;
    }
  }

  /** A subset is no larger than its superset. */
  lemma {:induction false} SubsetSize<T>(a: set<T>, b: set<T>)
    requires a <= b
    ensures |a| <= |b|
    decreases |b|
  {
    if a != {} {
      var e :| e in a;
      SubsetSize(a - {e}, b - {e});
    }
  }
}
