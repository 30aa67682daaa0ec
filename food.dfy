/** Food placement: pick an interior cell that the snake does not occupy. */
module Food {
  import opened Grid

  /** The game draws random interior cells until one is free. The random draw
      is modelled as an arbitrary choice among the free interior cells; the
      draw loop only returns when such a cell exists, so that is required. */
  method RandEmptyCell(occupied: set<Cell>) returns (c: Cell)
    requires exists free :: InInterior(free) && free !in occupied
    ensures InInterior(c) && !HitsWall(c)
    ensures c !in occupied
  {
    c :| InInterior(c) && c !in occupied;
  }
}
