/** The snake's body as a list of cells, head first, and one movement step of it:
    collision tests, growing on food, sliding otherwise. */
module Body {
  import opened Grid

  /** No cell appears twice. */
  predicate Distinct(s: seq<Cell>)
  {
    forall i, j :: 0 <= i < j < |s| ==> s[i] != s[j]
  }

  /** Every cell lies inside the wall ring. */
  predicate AllInterior(s: seq<Cell>)
  {
    forall i :: 0 <= i < |s| ==> InInterior(s[i])
  }

  /** Each cell shares an edge with the next one. */
  predicate Connected(s: seq<Cell>)
  {
    forall i, j :: 0 <= i < |s| && 0 <= j < |s| && j == i + 1 ==> Adjacent(s[i], s[j])
  }

  /** A list without repeats occupies exactly as many cells as it has. */
  lemma {:induction false} DistinctCells(s: seq<Cell>)
    requires Distinct(s)
    ensures |Cells(s)| == |s|
  {
    if s != [] {
      DistinctCells(s[1..]);
      assert Cells(s) == {s[0]} + Cells(s[1..]);
      assert s[0] !in Cells(s[1..]);
    }
  }

  /** The shape every living snake keeps. */
  predicate WellFormed(s: seq<Cell>)
  {
    Distinct(s) && AllInterior(s) && Connected(s)
  }

  /** What one movement step does to the body. */
  datatype Move =
    | HitWall                    // the new head is on the wall ring
    | HitBody                    // the new head is a cell of the current body
    | Slide(body: seq<Cell>)     // head added, tail removed
    | Grow(body: seq<Cell>)      // head added on the food, tail kept

  /** The head that a step in direction `d` produces. */
  function NextHead(snake: seq<Cell>, d: Direction): Cell
    requires |snake| > 0
  {
    Step(snake[0], d)
  }

  /** One step: the wall is tested first, then the whole current body
      (its last cell included), then the food. */
  function Advance(snake: seq<Cell>, d: Direction, food: Cell): (r: Move)
    requires |snake| > 0
    ensures (r.Slide? || r.Grow?) ==>
      |r.body| > 0 && r.body[0] == NextHead(snake, d) && InInterior(r.body[0]) && r.body[0] !in snake
    ensures r.Slide? ==> |r.body| == |snake| && r.body[0] != food
    ensures r.Grow? ==> |r.body| == |snake| + 1 && r.body[0] == food
  {
    var head := NextHead(snake, d);
    if HitsWall(head) then HitWall
    else if head in snake then HitBody
    else if head == food then Grow([head] + snake)
    else Slide([head] + snake[..|snake| - 1])
  }

  /** Which outcome a step has, stated through the interior and the body. */
  lemma AdvanceOutcome(snake: seq<Cell>, d: Direction, food: Cell)
    requires |snake| > 0
    ensures var head, m := NextHead(snake, d), Advance(snake, d, food);
      && (m.HitWall? <==> !InInterior(head))
      && (m.HitBody? <==> InInterior(head) && head in snake)
      && (m.Grow? <==> InInterior(head) && head !in snake && head == food)
      && (m.Slide? <==> InInterior(head) && head !in snake && head != food)
  {
  }

  /** A slide keeps the length: the new head is in front and every other cell
      moves into the place of the one before it; the old tail is gone. */
  lemma SlideShifts(snake: seq<Cell>, d: Direction, food: Cell)
    requires |snake| > 0 && Distinct(snake) && Advance(snake, d, food).Slide?
    ensures var b := Advance(snake, d, food).body;
      && |b| == |snake|
      && b[0] == NextHead(snake, d)
      && (forall i :: 0 < i < |b| ==> b[i] == snake[i - 1])
      && Cells(b) == Cells(snake) - {snake[|snake| - 1]} + {NextHead(snake, d)}
  {
  }

  /** A growth step adds the head in front and keeps every old cell. */
  lemma GrowPrepends(snake: seq<Cell>, d: Direction, food: Cell)
    requires |snake| > 0 && Advance(snake, d, food).Grow?
    ensures var b := Advance(snake, d, food).body;
      && |b| == |snake| + 1
      && b[0] == food == NextHead(snake, d)
      && b[1..] == snake
  {
  }

  /** Moving or growing keeps the body free of repeats, inside the walls and
      connected. */
  lemma AdvanceKeepsShape(snake: seq<Cell>, d: Direction, food: Cell)
    requires |snake| > 0 && WellFormed(snake)
    ensures var m := Advance(snake, d, food); (m.Slide? || m.Grow?) ==> WellFormed(m.body)
  {
  }
}
