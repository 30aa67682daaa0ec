/** One play session: the mutable state of the game's main loop and the
    steps that update it in place. */
module Session {
  import opened Grid
  import Food
  import Rules

  class Game {
    var snake: seq<Cell>
    var dir: Direction
    var pending: Direction
    var food: Cell
    var score: nat
    var high: int
    var speed: nat
    var paused: bool
    var gameOver: bool

    /** The current values of all fields, as a rules snapshot. */
    function Model(): Rules.GameState
      reads this
    {
      Rules.GameState(snake, dir, pending, food, score, high, speed, paused, gameOver)
    }

    ghost predicate Valid()
      reads this
    {
      Rules.Inv(Model())
    }

    /** A new session; `loadedHigh` is what the high-score store returned. */
    constructor (loadedHigh: int)
      ensures Valid()
      ensures Model() == Rules.Initial(loadedHigh, food)
      ensures InInterior(food) && food !in Rules.InitialSnake()
    {
      var body := Rules.InitialSnake();
      assert InInterior(Cell(1, 1)) && Cell(1, 1) !in Cells(body);
      var f := Food.RandEmptyCell(Cells(body));
      snake := body;
      dir := Right;
      pending := Right;
      food := f;
      score := 0;
      high := loadedHigh;
      speed := Rules.StartSpeed;
      paused := false;
      gameOver := false;
      Rules.InitialInv(loadedHigh, f);
    }

    /** The pause key. */
    method TogglePause()
      requires Valid()
      modifies this
      ensures Valid()
      ensures Model() == Rules.TogglePause(old(Model()))
    {
      if !gameOver {
        paused := !paused;
      }
    }

    /** A direction key, while the game runs. */
    method Input(d: Direction)
      requires Valid()
      modifies this
      ensures Valid()
      ensures Model() == Rules.Steer(old(Model()), d)
    {
      if !paused && !gameOver {
        if dir != Opposite(d) {
          pending := d;
        }
      }
    }

    /** One event from the queue. */
    method HandleEvent(ev: Rules.Event) returns (signal: Rules.Signal)
      requires Valid()
      modifies this
      ensures Valid()
      ensures Rules.Reaction(Model(), signal) == Rules.React(old(Model()), ev)
    {
      signal := Rules.Continue;
      match ev
      case WindowClose =>
        signal := Rules.Quit;
      case KeyPress(k) =>
        if k == Rules.Escape {
          signal := Rules.Quit;
        } else if k == Rules.KeyP {
          TogglePause();
        } else if k == Rules.KeyR {
          if gameOver {
            signal := Rules.Restart;
          }
        } else {
          var d := Rules.KeyDirection(k);
          if d.Some? {
            Input(d.value);
          }
        }
    }

    /** The frame's events in order, stopping at the first that leaves the loop. */
    method HandleEvents(evs: seq<Rules.Event>) returns (signal: Rules.Signal)
      requires Valid()
      modifies this
      ensures Valid()
      ensures Rules.Reaction(Model(), signal) == Rules.ReactAll(old(Model()), evs)
    {
      signal := Rules.Continue;
      var i := 0;
      while i < |evs|
        invariant 0 <= i <= |evs|
        invariant Valid()
        invariant Rules.ReactAll(old(Model()), evs) == Rules.ReactAll(Model(), evs[i..])
        invariant signal == Rules.Continue
      {
        assert evs[i..][1..] == evs[i + 1..];
        var s := HandleEvent(evs[i]);
        if s != Rules.Continue {
          signal := s;
          return;
        }
        i := i + 1;
      }
    }

    /** The movement tick. */
    method Tick()
      requires Valid() && !Rules.FillsBoard(Model())
      modifies this
      ensures Valid()
      ensures Model() == Rules.Tick(old(Model()), food)
    {
      ghost var st := Model();
      if !paused && !gameOver {
        dir := pending;
        var newHead := Step(snake[0], dir);
        if HitsWall(newHead) {
          gameOver := true;
        } else if newHead in snake {
          gameOver := true;
        } else {
          snake := [newHead] + snake;
          if newHead == food {
            score := score + 1;
            PlaceFood(st);
          } else {
            snake := snake[..|snake| - 1];
          }
        }
      }
      assert Model() == Rules.Tick(st, food);
      Rules.TickKeepsInv(st, food);
    }

    /** The eating half of the tick: new food off the grown body, and the
        high score raised to the score. */
    method PlaceFood(ghost st: Rules.GameState)
      requires Rules.Inv(st) && !Rules.FillsBoard(st) && Rules.Eats(st)
      requires snake == [st.food] + st.snake && score == st.score + 1 && high == st.high
      modifies this
      ensures InInterior(food) && food !in snake
      ensures high == (if score > st.high then score else st.high)
      ensures snake == old(snake) && score == old(score)
      ensures dir == old(dir) && pending == old(pending) && speed == old(speed)
      ensures paused == old(paused) && gameOver == old(gameOver)
    {
      Rules.FoodAvailable(st);
      assert Cells(snake) == Cells([st.food] + st.snake);
      food := Food.RandEmptyCell(Cells(snake));
      if score > high {
        high := score;
      }
    }

    /** One pass of the main loop: events, speed update, and the tick when its
        interval has elapsed (`due`). */
    method Frame(evs: seq<Rules.Event>, due: bool) returns (signal: Rules.Signal)
      requires Valid()
      requires due ==> !Rules.FillsBoard(Rules.BeforeTick(Model(), evs))
      modifies this
      ensures Valid()
      ensures Rules.Reaction(Model(), signal) == Rules.Frame(old(Model()), evs, due, food)
    {
      signal := HandleEvents(evs);
      if signal != Rules.Continue {
        return;
      }
      speed := Rules.Speed(score);
      Rules.SpeedMonotone(0, score);
      if due {
        Tick();
      }
    }
  }
}
