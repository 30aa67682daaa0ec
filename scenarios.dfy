/** Worked situations from the game: a tail chase, the first bite, a wall
    hit and a rejected reverse key. */
module Scenarios {
  import opened Grid
  import opened Body
  import opened Rules

  /** A four-cell snake bent into a square, heading up, with Left buffered:
      its next head is the cell its tail occupies. */
  function TailChase(): GameState
  {
    GameState([Cell(2, 1), Cell(2, 2), Cell(1, 2), Cell(1, 1)],
              Up, Left, Cell(5, 5), 1, 1, StartSpeed, false, false)
  }

  /** Each cell of the tail chase's body is next to the following one. */
  lemma TailChaseConnected()
    ensures Connected(TailChase().snake)
  {
  }

  /** No cell of the tail chase's body is repeated. */
  lemma TailChaseDistinct()
    ensures Distinct(TailChase().snake)
  {
  }

  /** The tail chase satisfies the game invariant. */
  lemma TailChaseValid()
    ensures Inv(TailChase())
  {
    var st := TailChase();
    TailChaseConnected();
    TailChaseDistinct();
    assert WellFormed(st.snake);
    assert InInterior(st.food) && st.food !in st.snake;
    assert Speed(st.score) == StartSpeed;
  }

  /** The head moving onto the cell the tail is about to leave is a
      collision: the whole body before the move is tested. */
  lemma TailCellCollides(newFood: Cell)
    ensures NextHead(TailChase().snake, TailChase().pending) == TailChase().snake[3]
    ensures Tick(TailChase(), newFood) == TailChase().(dir := Left, gameOver := true)
  {
    var st := TailChase();
    assert st.snake == [Cell(2, 1), Cell(2, 2), Cell(1, 2), Cell(1, 1)];
    assert NextHead(st.snake, st.pending) == st.snake[3];
  }

  /** From the start position with food just ahead of the head, one tick
      eats it: four cells, score 1. */
  lemma FirstTickEats(loadedHigh: int, newFood: Cell)
    ensures var r := Tick(Initial(loadedHigh, Cell(16, 10)), newFood);
      && r.snake == [Cell(16, 10), Cell(15, 10), Cell(14, 10), Cell(13, 10)]
      && r.score == 1 && r.food == newFood && !r.gameOver
  {
    assert Cell(16, 10) !in InitialSnake();
  }

  /** A head next to the left wall moving left ends the game and leaves the
      body where it was. */
  lemma LeftWallEndsGame(st: GameState, newFood: Cell)
    requires |st.snake| > 0 && Ticking(st) && st.snake[0] == Cell(1, 10) && st.pending == Left
    ensures Tick(st, newFood).gameOver && Tick(st, newFood).snake == st.snake
  {
  }

  /** Moving right, a Left key is dropped and the next tick still moves right. */
  lemma ReverseKeyRejected(st: GameState, newFood: Cell)
    requires Inv(st) && Ticking(st) && st.dir == Right && st.pending == Right
    ensures React(st, KeyPress(KeyLeft)).state == st
    ensures Tick(React(st, KeyPress(KeyLeft)).state, newFood).dir == Right
  {
  }
}
