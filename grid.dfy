/** The playfield: a GridW x GridH board of cells whose outer ring is wall,
    the four directions of travel, and how many free cells the interior has. */
module Grid {

  /** Board size in cells. */
  const GridW: int := 30
  const GridH: int := 20

  /** Number of cells inside the wall ring. */
  const InteriorSize: int := (GridW - 2) * (GridH - 2)

  /** A board position; x grows to the right and y grows downwards. */
  datatype Cell = Cell(x: int, y: int)

  /** The four unit moves; Up decreases y, as on the screen. */
  datatype Direction = Up | Down | Left | Right

  /** The cell one move away from `c` in direction `d`. */
  function Step(c: Cell, d: Direction): (r: Cell)
    ensures r != c && (r.x == c.x || r.y == c.y)
  {
    match d
    case Up => Cell(c.x, c.y - 1)
    case Down => Cell(c.x, c.y + 1)
    case Left => Cell(c.x - 1, c.y)
    case Right => Cell(c.x + 1, c.y)
  }

  /** The direction that undoes `d`. */
  function Opposite(d: Direction): (r: Direction)
    ensures r != d
  {
    match d
    case Up => Down
    case Down => Up
    case Left => Right
    case Right => Left
  }

  function Abs(n: int): nat { if n < 0 then -n else n }

  /** Two cells sharing an edge. */
  predicate Adjacent(a: Cell, b: Cell)
  {
    Abs(a.x - b.x) + Abs(a.y - b.y) == 1
  }

  /** A move lands on a neighbouring cell, and the opposite move comes back. */
  lemma StepAdjacent(c: Cell, d: Direction)
    ensures Adjacent(c, Step(c, d)) && Adjacent(Step(c, d), c)
    ensures Step(Step(c, d), Opposite(d)) == c
  {
  }

  /** The collision test of the game: the cell lies on or beyond the wall ring. */
  predicate HitsWall(c: Cell): (r: bool)
    ensures r <==> !InInterior(c)
  {
    c.x <= 0 || c.x >= GridW - 1 || c.y <= 0 || c.y >= GridH - 1
  }

  /** The cells food may be placed on: 1..GridW-2 by 1..GridH-2. */
  predicate InInterior(c: Cell): (r: bool)
    ensures r ==> 0 < c.x < GridW - 1 && 0 < c.y < GridH - 1
  {
    1 <= c.x <= GridW - 2 && 1 <= c.y <= GridH - 2
  }

  /** The set of cells a list of cells occupies. */
  function Cells(s: seq<Cell>): set<Cell>
  {
    set c | c in s
  }

  /** A list of n cells occupies at most n cells. */
  lemma {:induction false} CellsBound(s: seq<Cell>)
    ensures |Cells(s)| <= |s|
  {
    if s != [] {
      CellsBound(s[1..]);
      assert Cells(s) == {s[0]} + Cells(s[1..]);
    }
  }

  /** Cells (1, y) .. (w, y). */
  ghost function Row(y: int, w: nat): set<Cell>
  {
    set x | 1 <= x <= w :: Cell(x, y)
  }

  /** Cells (1, 1) .. (w, h). */
  ghost function Rect(w: nat, h: nat): set<Cell>
  {
    set x, y | 1 <= x <= w && 1 <= y <= h :: Cell(x, y)
  }

  lemma {:induction false} RowSize(y: int, w: nat)
    ensures |Row(y, w)| == w
  {
    if w > 0 {
      RowSize(y, w - 1);
      assert Row(y, w) == Row(y, w - 1) + {Cell(w, y)};
    }
  }

  lemma {:induction false} RectSize(w: nat, h: nat)
    ensures |Rect(w, h)| == w * h
  {
    if h > 0 {
      var lower, top := Rect(w, h - 1), Row(h, w);
      RectSize(w, h - 1);
      RowSize(h, w);
      assert Rect(w, h) == lower + top by {
        forall c | c in Rect(w, h) ensures c in lower + top {
          if c.y < h { assert c in lower; } else { assert c in top; }
        }
      }
      assert lower * top == {} by {
        forall c | c in lower ensures c !in top { assert c.y < h; }
      }
      assert |lower + top| == |lower| + |top|;
      assert w * (h - 1) + w == w * h;
    }
  }

  /** A set of interior cells with at least InteriorSize elements holds every
      interior cell. */
  lemma InteriorCovered(occupied: set<Cell>)
    requires forall c :: c in occupied ==> InInterior(c)
    requires |occupied| >= InteriorSize
    ensures forall c :: InInterior(c) ==> c in occupied
  {
    var interior := Rect(GridW - 2, GridH - 2);
    RectSize(GridW - 2, GridH - 2);
    assert occupied <= interior by {
      forall c | c in occupied ensures c in interior {
        assert InInterior(c);
        assert c == Cell(c.x, c.y);
      }
    }
    assert |interior - occupied| == |interior| - |occupied|;
    assert interior - occupied == {};
    forall c | InInterior(c) ensures c in occupied {
      assert c == Cell(c.x, c.y) && c in interior;
    }
  }

  /** The interior has exactly InteriorSize cells, so fewer occupied cells
      than that always leave an interior cell free. */
  lemma FreeCellExists(occupied: set<Cell>)
    requires |occupied| < InteriorSize
    ensures exists c :: InInterior(c) && c !in occupied
  {
    var interior := Rect(GridW - 2, GridH - 2);
    RectSize(GridW - 2, GridH - 2);
    var free := interior - occupied;
    assert interior == free + (interior * occupied);
    assert |interior * occupied| <= |occupied| by {
      assert occupied == (interior * occupied) + (occupied - interior);
    }
    assert free != {};
    var c :| c in free;
    assert InInterior(c);
  }
}
